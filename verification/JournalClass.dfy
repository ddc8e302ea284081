/** The journal as it runs: an object that sends sectors to an image one at a
    time and may lose power before any of them, and the recovery routine. */
module JournalClass {
  import opened Sectors
  import opened JournalProtocol
  import opened JournalSafety
  import opened JournalRuns
  import opened JournalTheorems

  datatype Option<T> = None | Some(value: T)

  class Image {
    var disk: Disk
    constructor (d: Disk)
      ensures disk == d
    {
      disk := d;
    }
  }

  datatype Result = Done | Raised(why: Refusal) | Crashed

  /** The file after a write at a sector: past the end it grows, zeros in between. */
  function Stored(d: Disk, lba: nat, data: Sector): (r: Disk)
    ensures |r| == if lba < |d| then |d| else lba + 1
    ensures r[lba] == data && forall i :: 0 <= i < |d| && i != lba ==> r[i] == d[i]
    ensures lba < |d| ==> r == d[lba := data]
  {
    if lba < |d| then d[lba := data] else d + seq(lba - |d|, _ => Blank()) + [data]
  }

  /** A list of such writes, oldest first. */
  function StoredAll(d: Disk, ws: seq<SectorWrite>): (r: Disk)
    ensures |r| >= |d|
    decreases |ws|
  {
    if ws == [] then d
    else
      var before := StoredAll(d, ws[..|ws| - 1]);
      Stored(before, ws[|ws| - 1].lba, ws[|ws| - 1].data)
  }

  /** Inside the file it is the protocol's list of writes. */
  lemma {:induction false} StoredInside(d: Disk, ws: seq<SectorWrite>)
    ensures StoredAll(d, ws)[..|d|] == Apply(d, ws)
    ensures (forall i :: 0 <= i < |ws| ==> ws[i].lba < |d|) ==> |StoredAll(d, ws)| == |d|
    decreases |ws|
  {
    hide Apply;
    if ws == [] {
      ApplyNothing(d);
    } else {
      var short, w := ws[..|ws| - 1], ws[|ws| - 1];
      StoredInside(d, short);
      assert short + [w] == ws;
      ApplyAppend(d, short, [w]);
      ApplyOne(Apply(d, short), w);
      var before, after := StoredAll(d, short), StoredAll(d, ws);
      assert after[..|d|] == Put(before[..|d|], w);
    }
  }

  /** `disk` is `d` after as many of the writes `ws` as the counter says: all of them, or,
      when power was lost, a proper prefix that ends at the crash point. */
  ghost predicate Sent(crashAfter: Option<nat>, d: Disk, sent: nat, ws: seq<SectorWrite>,
                       disk: Disk, writes: nat, crashed: bool)
  {
    && sent <= writes <= sent + |ws|
    && disk == Apply(d, Prefix(ws, writes - sent))
    && (crashed <==> writes < sent + |ws|)
    && (crashed ==> crashAfter.Some? && crashAfter.value <= writes)
    && (crashAfter.Some? && sent < writes ==> writes <= crashAfter.value)
  }

  lemma {:induction false} SentNothing(crashAfter: Option<nat>, d: Disk, sent: nat)
    ensures Sent(crashAfter, d, sent, [], d, sent, false)
  {
    ApplyNothing(d);
  }

  lemma {:induction false} SentAll(crashAfter: Option<nat>, d: Disk, sent: nat, ws: seq<SectorWrite>, disk: Disk, writes: nat)
    requires Sent(crashAfter, d, sent, ws, disk, writes, false)
    ensures disk == Apply(d, ws)
  {
    hide Apply;
    assert Prefix(ws, |ws|) == ws;
  }

  /** Writes that were never reached do not matter. */
  lemma {:induction false} SentMore(crashAfter: Option<nat>, d: Disk, sent: nat, ws: seq<SectorWrite>, more: seq<SectorWrite>,
                 disk: Disk, writes: nat)
    requires Sent(crashAfter, d, sent, ws, disk, writes, true)
    ensures Sent(crashAfter, d, sent, ws + more, disk, writes, true)
  {
    hide Apply;
    var n := writes - sent;
    assert Prefix(ws + more, n) == Prefix(ws, n);
  }

  /** One more sector, or the crash before it. */
  lemma {:induction false} SentOne(crashAfter: Option<nat>, d: Disk, sent: nat, ws: seq<SectorWrite>, disk: Disk, writes: nat, w: SectorWrite)
    requires Sent(crashAfter, d, sent, ws, disk, writes, false) && w.lba < |disk|
    ensures |disk| == |d|
    ensures if crashAfter.Some? && writes >= crashAfter.value then Sent(crashAfter, d, sent, ws + [w], disk, writes, true)
            else Sent(crashAfter, d, sent, ws + [w], disk[w.lba := w.data], writes + 1, false)
  {
    hide Apply;
    var n := writes - sent;
    assert Prefix(ws, n) == ws && Prefix(ws + [w], n) == ws && Prefix(ws + [w], n + 1) == ws + [w];
    ApplyAppend(d, ws, [w]);
    ApplyOne(disk, w);
  }

  lemma {:induction false} AskBegin(crc: Checksum, m: Memory, d: Disk)
    requires |d| > SUPERBLOCK_LBA && |m.logged| < JRNL_SLOTS
    ensures var q := Ask(crc, m, d, Op.Begin);
      && (m.open ==> q == Refused(AlreadyOpen))
      && (!m.open && d[SUPERBLOCK_LBA][SB_STATE] != 0 ==> q == Refused(Dirty))
      && (!m.open && d[SUPERBLOCK_LBA][SB_STATE] == 0 ==>
            var m' := Memory(true, NextEpoch(d[SUPERBLOCK_LBA][SB_EPOCH]), 0, []);
            q == Request(m', [SectorWrite(SUPERBLOCK_LBA, StampedSuperblock(crc, m', d[SUPERBLOCK_LBA]))]))
  {
    hide StampedSuperblock, NextEpoch;
  }

  lemma {:induction false} AskEnd(crc: Checksum, m: Memory, d: Disk)
    requires |d| > SUPERBLOCK_LBA && |m.logged| < JRNL_SLOTS
    ensures var m' := m.(ptr := 0, open := false);
      var back := Reverse(m.logged);
      && (!m.open ==> Ask(crc, m, d, Op.Commit) == Ask(crc, m, d, Op.Abort) == Request(m, []))
      && (m.open ==> Ask(crc, m, d, Op.Commit) == Request(m',
            [SectorWrite(JRNL_LBA + m.ptr, CommitHeader(crc, m.epoch, |m.logged|)),
             SectorWrite(SUPERBLOCK_LBA, StampedSuperblock(crc, m', d[SUPERBLOCK_LBA]))]))
      && (m.open ==> Ask(crc, m, d, Op.Abort) == Request(m',
            back + [SectorWrite(SUPERBLOCK_LBA, StampedSuperblock(crc, m', Apply(d, back)[SUPERBLOCK_LBA]))]))
  {
    hide StampedSuperblock, CommitHeader, Reverse, Apply;
  }

  lemma {:induction false} AskLog(crc: Checksum, m: Memory, d: Disk, target: Word)
    requires |d| > SUPERBLOCK_LBA && |m.logged| < JRNL_SLOTS
    ensures var q := Ask(crc, m, d, Op.Log(target));
      && (!m.open ==> q == Refused(NotOpen))
      && (m.open && Logged(m, target) ==> q == Request(m, []))
      && (m.open && !Logged(m, target) && m.ptr + 2 >= JRNL_SECTS ==> q == Refused(JournalFull))
      && (m.open && !Logged(m, target) && m.ptr + 2 < JRNL_SECTS && target >= |d| ==> q == Refused(ShortRead))
      && (m.open && !Logged(m, target) && m.ptr + 2 < JRNL_SECTS && target < |d| ==>
            q == Request(m.(ptr := m.ptr + 2, logged := m.logged + [SectorWrite(target, d[target])]),
                         [SectorWrite(JRNL_LBA + m.ptr + 1, d[target]),
                          SectorWrite(JRNL_LBA + m.ptr, PreHeader(target, m.epoch, crc(d[target])))]))
  {
    hide PreHeader, Logged;
  }

  lemma {:induction false} AskWrite(crc: Checksum, m: Memory, d: Disk, target: Word, data: Sector)
    requires |d| > SUPERBLOCK_LBA && |m.logged| < JRNL_SLOTS
    ensures var q := LogRequest(crc, m, d, target);
      && Ask(crc, m, d, Op.Log(target)) == q
      && Ask(crc, m, d, Op.Write(target, data))
         == if q.Refused? then q else Request(q.mem, q.writes + [SectorWrite(target, data)])
  {
    hide LogRequest;
  }

  class Journal {
    const image: Image
    const crc: Checksum
    const crashAfter: Option<nat>
    var writes: nat
    var epoch: Word
    var ptr: Word
    var logged: seq<SectorWrite>
    var open: bool

    ghost function Fields(): Memory
      reads this
    {
      Memory(open, epoch, ptr, logged)
    }

    /** Between calls the log position counts the records, the log fits its area,
        and what was logged lies on the disk. */
    ghost predicate Valid()
      reads this, image
    {
      && Volume(image.disk)
      && |logged| < JRNL_SLOTS
      && (open ==> ptr == 2 * |logged|)
      && (forall i :: 0 <= i < |logged| ==> logged[i].lba < |image.disk|)
    }

    /** An operation either raised before touching the disk, or sent exactly the
        writes the protocol asks for, or lost power at the crash point with a
        proper prefix of them on disk. */
    ghost predicate Performed(m: Memory, d: Disk, sent: nat, op: Op, r: Result)
      requires |d| > SUPERBLOCK_LBA && |m.logged| < JRNL_SLOTS
      reads this, image
    {
      var q := Ask(crc, m, d, op);
      match r
      case Raised(why) => q == Refused(why) && image.disk == d && Fields() == m && writes == sent
      case Done => q.Request? && Sends(q.writes, d, sent, false) && Fields() == q.mem && Valid()
      case Crashed => q.Request? && Sends(q.writes, d, sent, true)
    }

    ghost predicate Sends(ws: seq<SectorWrite>, d: Disk, sent: nat, crashed: bool)
      reads this, image
    {
      Sent(crashAfter, d, sent, ws, image.disk, writes, crashed)
    }

    constructor (image: Image, crc: Checksum, crashAfter: Option<nat>)
      requires Volume(image.disk)
      ensures this.image == image && this.crc == crc && this.crashAfter == crashAfter
      ensures Valid() && Fields() == FRESH && writes == 0
    {
      this.image := image;
      this.crc := crc;
      this.crashAfter := crashAfter;
      writes, epoch, ptr, logged, open := 0, 0, 0, [], false;
    }

    /** The only way a sector reaches the image. One past its end makes the file longer. */
    method WriteSector(lba: nat, data: Sector, ghost d: Disk, ghost sent: nat, ghost ws: seq<SectorWrite>) returns (crashed: bool)
      requires Sends(ws, d, sent, false)
      modifies this`writes, image
      ensures crashed <==> crashAfter.Some? && old(writes) >= crashAfter.value
      ensures writes == old(writes) + if crashed then 0 else 1
      ensures image.disk == if crashed then old(image.disk) else Stored(old(image.disk), lba, data)
      ensures lba < old(|image.disk|) ==> Sends(ws + [SectorWrite(lba, data)], d, sent, crashed)
    {
      hide Sent;
      if lba < |image.disk| {
        SentOne(crashAfter, d, sent, ws, image.disk, writes, SectorWrite(lba, data));
      }
      if crashAfter.Some? && writes >= crashAfter.value {
        return true;
      }
      image.disk := Stored(image.disk, lba, data);
      writes := writes + 1;
      crashed := false;
    }

    method Superblock() returns (sb: Sector)
      requires |image.disk| > SUPERBLOCK_LBA
      ensures sb == StampedSuperblock(crc, Fields(), image.disk[SUPERBLOCK_LBA])
      ensures sb[SB_STATE] == (if open then 1 else 0) && sb[SB_PTR] == ptr && sb[SB_EPOCH] == epoch
      ensures Strip(sb) == Strip(image.disk[SUPERBLOCK_LBA])
      ensures sb[SB_MAGIC] == HBFS4_MAGIC ==> sb[SB_CHECKSUM] == crc(sb[SB_CHECKSUM := 0])
    {
      StampedMarks(crc, Fields(), image.disk[SUPERBLOCK_LBA]);
      assert Strip(image.disk[SUPERBLOCK_LBA])[SB_MAGIC] == image.disk[SUPERBLOCK_LBA][SB_MAGIC];
      sb := Restamp(crc, image.disk[SUPERBLOCK_LBA][SB_STATE := if open then 1 else 0][SB_PTR := ptr][SB_EPOCH := epoch]);
    }

    method Begin() returns (r: Result)
      requires Valid()
      modifies this, image
      ensures Performed(old(Fields()), old(image.disk), old(writes), Op.Begin, r)
    {
      hide Sent, Ask, NextEpoch, StampedSuperblock;
      SentNothing(crashAfter, image.disk, writes);
      AskBegin(crc, Fields(), image.disk);
      if open {
        return Raised(AlreadyOpen);
      }
      var sb := image.disk[SUPERBLOCK_LBA];
      if sb[SB_STATE] != 0 {
        return Raised(Dirty);
      }
      epoch := NextEpoch(sb[SB_EPOCH]);
      ptr := 0;
      logged := [];
      open := true;
      sb := Superblock();
      var crashed := WriteSector(SUPERBLOCK_LBA, sb, image.disk, writes, []);
      assert [] + [SectorWrite(SUPERBLOCK_LBA, sb)] == [SectorWrite(SUPERBLOCK_LBA, sb)];
      return if crashed then Crashed else Done;
    }

    method Log(target: Word) returns (r: Result)
      requires Valid()
      modifies this, image
      ensures Performed(old(Fields()), old(image.disk), old(writes), Op.Log(target), r)
      ensures r.Done? ==> exists i :: 0 <= i < |logged| && logged[i].lba == target
    {
      hide Sent, Ask, PreHeader;
      SentNothing(crashAfter, image.disk, writes);
      AskLog(crc, Fields(), image.disk, target);
      if !open {
        return Raised(NotOpen);
      }
      if exists i :: 0 <= i < |logged| && logged[i].lba == target {
        return Done;
      }
      if ptr + 2 >= JRNL_SECTS {
        return Raised(JournalFull);
      }
      if target >= |image.disk| {
        return Raised(ShortRead);
      }
      var pre := image.disk[target];
      var header := PreHeader(target, epoch, crc(pre));
      ghost var d, sent := image.disk, writes;
      ghost var v, w := SectorWrite(JRNL_LBA + ptr + 1, pre), SectorWrite(JRNL_LBA + ptr, header);
      var crashed := WriteSector(JRNL_LBA + ptr + 1, pre, d, sent, []);
      assert [] + [v] == [v] && [v] + [w] == [v, w];
      if crashed {
        SentMore(crashAfter, d, sent, [v], [w], image.disk, writes);
        return Crashed;
      }
      crashed := WriteSector(JRNL_LBA + ptr, header, d, sent, [v]);
      if crashed {
        return Crashed;
      }
      logged := logged + [SectorWrite(target, pre)];
      ptr := ptr + 2;
      assert logged[|logged| - 1].lba == target;
      return Done;
    }

    method Write(target: Word, data: Sector) returns (r: Result)
      requires Valid()
      modifies this, image
      ensures Performed(old(Fields()), old(image.disk), old(writes), Op.Write(target, data), r)
    {
      hide Sent, Ask, LogRequest;
      AskWrite(crc, Fields(), image.disk, target, data);
      ghost var d, sent := image.disk, writes;
      ghost var q := LogRequest(crc, Fields(), d, target);
      r := Log(target);
      if !r.Done? {
        if r.Crashed? {
          SentMore(crashAfter, d, sent, q.writes, [SectorWrite(target, data)], image.disk, writes);
        }
        return;
      }
      var crashed := WriteSector(target, data, d, sent, q.writes);
      return if crashed then Crashed else Done;
    }

    method WriteData(lba: Word, data: Sector) returns (r: Result)
      requires Valid()
      modifies this, image
      ensures lba < |old(image.disk)| ==>
                Performed(old(Fields()), old(image.disk), old(writes), Op.WriteData(lba, data), r)
      ensures lba >= |old(image.disk)| ==>
                && !r.Raised? && Fields() == old(Fields()) && Valid()
                && image.disk == if r.Done? then Stored(old(image.disk), lba, data) else old(image.disk)
    {
      hide Sent;
      SentNothing(crashAfter, image.disk, writes);
      var crashed := WriteSector(lba, data, image.disk, writes, []);
      assert [] + [SectorWrite(lba, data)] == [SectorWrite(lba, data)];
      return if crashed then Crashed else Done;
    }

    method Commit() returns (r: Result)
      requires Valid()
      modifies this, image
      ensures Performed(old(Fields()), old(image.disk), old(writes), Op.Commit, r)
    {
      hide Sent, Ask, StampedSuperblock;
      SentNothing(crashAfter, image.disk, writes);
      AskEnd(crc, Fields(), image.disk);
      if !open {
        return Done;
      }
      var header := CommitBody(epoch, |logged|);
      header := header[COMMIT_CRC := crc(header)];
      ghost var d, sent := image.disk, writes;
      ghost var v := SectorWrite(JRNL_LBA + ptr, header);
      ghost var w := SectorWrite(SUPERBLOCK_LBA,
        StampedSuperblock(crc, Memory(false, epoch, 0, logged), d[SUPERBLOCK_LBA]));
      var crashed := WriteSector(JRNL_LBA + ptr, header, d, sent, []);
      assert [] + [v] == [v] && [v] + [w] == [v, w];
      if crashed {
        SentMore(crashAfter, d, sent, [v], [w], image.disk, writes);
        return Crashed;
      }
      ptr := 0;
      open := false;
      var sb := Superblock();
      crashed := WriteSector(SUPERBLOCK_LBA, sb, d, sent, [v]);
      return if crashed then Crashed else Done;
    }

    method Abort() returns (r: Result)
      requires Valid()
      modifies this, image
      ensures Performed(old(Fields()), old(image.disk), old(writes), Op.Abort, r)
    {
      hide Sent, Apply, Ask, Reverse, StampedSuperblock;
      SentNothing(crashAfter, image.disk, writes);
      AskEnd(crc, Fields(), image.disk);
      if !open {
        return Done;
      }
      ghost var d, sent := image.disk, writes;
      ghost var back := Reverse(logged);
      ghost var w := SectorWrite(SUPERBLOCK_LBA,
        StampedSuperblock(crc, Memory(false, epoch, 0, logged), Apply(d, back)[SUPERBLOCK_LBA]));
      var i := 0;
      while i < |logged|
        invariant 0 <= i <= |logged| && Fields() == old(Fields())
        invariant |image.disk| == |d| && Sends(back[..i], d, sent, false)
      {
        var entry := logged[|logged| - 1 - i];
        var crashed := WriteSector(entry.lba, entry.data, d, sent, back[..i]);
        assert back[..i] + [entry] == back[..i + 1];
        if crashed {
          SentMore(crashAfter, d, sent, back[..i + 1], back[i + 1..] + [w], image.disk, writes);
          assert back[..i + 1] + (back[i + 1..] + [w]) == back + [w];
          return Crashed;
        }
        i := i + 1;
      }
      assert back[..i] == back;
      SentAll(crashAfter, d, sent, back, image.disk, writes);
      ptr := 0;
      open := false;
      var sb := Superblock();
      var crashed := WriteSector(SUPERBLOCK_LBA, sb, d, sent, back);
      return if crashed then Crashed else Done;
    }
  }

  // ----- the object and the runs of the theorems -----------------------------------

  /** What happened, as an event: done or refused, or cut after the writes that were counted. */
  function EventOf(op: Op, r: Result, count: nat): Event {
    if r.Crashed? then Cut(op, count) else Do(op)
  }

  /** A call on the object is that event on the machine it stands for: the same disk, and
      the same fields unless power was lost. */
  lemma {:induction false} PerformedIsEvent(j: Journal, m: Memory, d: Disk, sent: nat, op: Op, r: Result, ideal: Ideal)
    requires Volume(d) && |m.logged| < JRNL_SLOTS && sent <= j.writes && j.Performed(m, d, sent, op, r)
    ensures var after := Next(j.crc, Machine(d, m, ideal), EventOf(op, r, j.writes - sent));
      after.disk == j.image.disk && after.mem == if r.Crashed? then FRESH else j.Fields()
  {
    hide Ask, Apply;
    var q := Ask(j.crc, m, d, op);
    if r.Done? {
      SentAll(j.crashAfter, d, sent, q.writes, j.image.disk, j.writes);
      if op.Commit? && !m.open {
        AskEnd(j.crc, m, d);
        ApplyNothing(d);
      }
    }
  }

  /** So crash atomicity speaks of the object: after any run and one more call, replay of
      the image it leaves restores the last durable contents. */
  lemma {:induction false} ObjectRecovers(j: Journal, guarded: set<nat>, start: Disk, events: seq<Event>, mc: Machine,
                                          sent: nat, op: Op, r: Result) returns (after: Machine)
    requires Initial(guarded, start) && Reaches(j.crc, guarded, start, events, mc) && Running(mc)
    requires Legal(guarded, mc.disk, op) && sent <= j.writes && j.Performed(mc.mem, mc.disk, sent, op, r)
    ensures after == Next(j.crc, mc, EventOf(op, r, j.writes - sent)) && after.disk == j.image.disk
    ensures Reaches(j.crc, guarded, start, events + [EventOf(op, r, j.writes - sent)], after)
    ensures Volume(j.image.disk) && ScanLog(j.crc, j.image.disk).Scanned?
    ensures SameOn(guarded, Recovered(j.crc, j.image.disk), after.ideal.durable)
  {
    hide Initial, Reaches, Next, Recovered, SameOn, Scan;
    var e := EventOf(op, r, j.writes - sent);
    after := Next(j.crc, mc, e);
    PerformedIsEvent(j, mc.mem, mc.disk, sent, op, r, mc.ideal);
    ReachesNext(j.crc, guarded, start, events, mc, e);
    CrashAtomicity(j.crc, guarded, start, events + [e], after);
  }

  datatype ReplayResult =
    | ReplayError(sector: nat)
    | Recovery(dirty: bool, committed: bool, records: nat, undone: nat)

  ghost predicate TargetsOnDisk(crc: Checksum, d: Disk)
    requires Volume(d)
  {
    var scan := ScanLog(crc, d);
    scan.Scanned? ==> forall i :: 0 <= i < |scan.undo| ==> scan.undo[i].lba < |d|
  }

  /** What replay leaves of any image, also one whose log names sectors past its end. */
  function ReplayedFile(crc: Checksum, d: Disk): Disk
    requires |d| >= JRNL_LBA + JRNL_SECTS
  {
    if State(d) == 0 then d
    else
      match ScanLog(crc, d)
      case Torn(_) => d
      case Scanned(undo, committed) =>
        var u := if committed then d else StoredAll(d, Reverse(undo));
        Stored(u, SUPERBLOCK_LBA, Cleared(crc, u[SUPERBLOCK_LBA]))
  }

  /** On the sectors the image had it is the recovered disk of the theorems. */
  lemma {:induction false} ReplayedInside(crc: Checksum, d: Disk)
    requires Volume(d)
    ensures |ReplayedFile(crc, d)| >= |d| && ReplayedFile(crc, d)[..|d|] == Recovered(crc, d)
    ensures TargetsOnDisk(crc, d) ==> |ReplayedFile(crc, d)| == |d|
  {
    hide Apply, Scan, Cleared, StoredAll;
    ApplyNothing(d);
    var scan := ScanLog(crc, d);
    if State(d) != 0 && scan.Scanned? {
      var back := if scan.committed then [] else Reverse(scan.undo);
      if !scan.committed {
        StoredInside(d, back);
      }
      var u := Apply(d, back);
      var w := SectorWrite(SUPERBLOCK_LBA, Cleared(crc, u[SUPERBLOCK_LBA]));
      ApplyAppend(d, back, [w]);
      ApplyOne(u, w);
      var f := if scan.committed then d else StoredAll(d, back);
      assert f[..|d|] == u && f[SUPERBLOCK_LBA] == u[SUPERBLOCK_LBA];
      assert f[SUPERBLOCK_LBA := w.data][..|d|] == u[SUPERBLOCK_LBA := w.data];
    }
  }

  /** Recovery at mount. A torn pre-image stops it before anything is written; otherwise it
      leaves the recovered disk and says what it did. */
  method Replay(image: Image, crc: Checksum) returns (result: ReplayResult)
    requires Volume(image.disk)
    modifies image
    ensures result.ReplayError? <==> old(State(image.disk)) != 0 && ScanLog(crc, old(image.disk)).Torn?
    ensures image.disk == ReplayedFile(crc, old(image.disk))
    ensures |image.disk| >= |old(image.disk)| && image.disk[..|old(image.disk)|] == Recovered(crc, old(image.disk))
    ensures TargetsOnDisk(crc, old(image.disk)) ==> |image.disk| == |old(image.disk)|
    ensures result.ReplayError? ==> result.sector == 2 * ScanLog(crc, old(image.disk)).slot
    ensures result.Recovery? ==>
      && result.dirty == (old(State(image.disk)) != 0)
      && (result.dirty ==>
            var scan := ScanLog(crc, old(image.disk));
            && result.committed == scan.committed && result.records == |scan.undo|
            && result.undone == if scan.committed then 0 else |scan.undo|)
  {
    hide Apply, Scan, Restamp, Recovered, TargetsOnDisk, StoredAll;
    var d := image.disk;
    ReplayedInside(crc, d);
    if State(d) == 0 {
      return Recovery(false, false, 0, 0);
    }
    var scan := ScanRecords(d, crc);
    if scan.Torn? {
      return ReplayError(2 * scan.slot);
    }
    var undo, committed := scan.undo, scan.committed;
    var undone := 0;
    if !committed {
      PutBack(image, undo);
      undone := |undo|;
    }
    var sb := Restamp(crc, image.disk[SUPERBLOCK_LBA][SB_STATE := 0][SB_PTR := 0]);
    image.disk := Stored(image.disk, SUPERBLOCK_LBA, sb);
    return Recovery(true, committed, |undo|, undone);
  }

  /** The forward scan: pre-images up to the first sector that is no current record. */
  method ScanRecords(d: Disk, crc: Checksum) returns (scan: ScanResult)
    requires Volume(d)
    ensures scan == ScanLog(crc, d)
  {
    var epoch := Epoch(d);
    var undo: seq<SectorWrite>, committed, index := [], false, 0;
    ghost var goal := ScanLog(crc, d);
    while index < JRNL_SECTS
      invariant index == 2 * |undo| <= JRNL_SECTS && !committed
      invariant Scan(crc, d, epoch, undo) == goal
      decreases JRNL_SECTS - index
    {
      var header := d[JRNL_LBA + index];
      assert header == HeaderAt(d, |undo|);
      if header[REC_MAGIC] != JRNL_MAGIC || header[REC_EPOCH] != epoch {
        break;
      }
      if header[REC_TYPE] == T_COMMIT {
        var sum := header[COMMIT_CRC];
        var sumOk := sum == 0 || crc(header[COMMIT_CRC := 0]) == sum;
        committed := sumOk && header[COMMIT_RECORDS] == (if sum != 0 then |undo| else 0);
        break;
      }
      if header[REC_TYPE] != T_PRE {
        break;
      }
      var pre := d[JRNL_LBA + index + 1];
      assert pre == PayloadAt(d, |undo|);
      if header[PRE_CRC] != 0 && crc(pre) != header[PRE_CRC] {
        return Torn(|undo|);
      }
      undo := undo + [SectorWrite(header[REC_TARGET], pre)];
      index := index + 2;
    }
    return Scanned(undo, committed);
  }

  /** The pre-images go back newest first. */
  method PutBack(image: Image, undo: seq<SectorWrite>)
    modifies image
    ensures image.disk == StoredAll(old(image.disk), Reverse(undo))
  {
    ghost var d, back := image.disk, Reverse(undo);
    var undone := 0;
    while undone < |undo|
      invariant 0 <= undone <= |undo|
      invariant image.disk == StoredAll(d, back[..undone])
    {
      var entry := undo[|undo| - 1 - undone];
      assert back[..undone + 1][..undone] == back[..undone];
      image.disk := Stored(image.disk, entry.lba, entry.data);
      undone := undone + 1;
    }
    assert back[..undone] == back;
  }
}
