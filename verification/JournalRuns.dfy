/** Every event of a run keeps the journal's invariant. */
module JournalRuns {
  import opened Sectors
  import opened JournalProtocol
  import opened JournalSafety

  lemma {:induction false} StampedMarks(crc: Checksum, m: Memory, sb: Sector)
    ensures var s := StampedSuperblock(crc, m, sb);
      && s[SB_STATE] == (if m.open then 1 else 0) && s[SB_PTR] == m.ptr && s[SB_EPOCH] == m.epoch
      && Strip(s) == Strip(sb)
      && (sb[SB_MAGIC] == HBFS4_MAGIC ==> s[SB_CHECKSUM] == crc(s[SB_CHECKSUM := 0]))
      && (sb[SB_MAGIC] != HBFS4_MAGIC ==> s[SB_CHECKSUM] == sb[SB_CHECKSUM])
  {
    var marked := sb[SB_STATE := if m.open then 1 else 0][SB_PTR := m.ptr][SB_EPOCH := m.epoch];
    if sb[SB_MAGIC] == HBFS4_MAGIC {
      var zeroed: Sector := marked[SB_CHECKSUM := 0];
      assert StampedSuperblock(crc, m, sb)[SB_CHECKSUM := 0] == zeroed;
    }
  }

  lemma {:induction false} ApplyOne(d: Disk, w: SectorWrite)
    ensures Apply(d, [w]) == Put(d, w)
  {
    assert Apply(d, [w]) == Apply(Put(d, w), []);
  }

  lemma {:induction false} ApplyTwo(d: Disk, v: SectorWrite, w: SectorWrite)
    ensures Apply(d, [v, w]) == Put(Put(d, v), w)
  {
    assert [v, w] == [v] + [w];
    ApplyAppend(d, [v], [w]);
    ApplyOne(d, v);
    ApplyOne(Put(d, v), w);
  }

  // ----- begin -------------------------------------------------------------

  lemma {:induction false} BeginOpens(crc: Checksum, guarded: set<nat>, d: Disk, durable: Disk, log: seq<SectorWrite>, commit: bool, sb: Sector)
    requires Recoverable(crc, guarded, d, durable, log, commit)
    requires State(d) == 0 && Epoch(d) < 0xFFFF_FFFF
    requires sb[SB_STATE] == 1 && sb[SB_EPOCH] == Epoch(d) + 1 && Strip(sb) == Strip(d[SUPERBLOCK_LBA])
    ensures InTransaction(crc, guarded, d[SUPERBLOCK_LBA := sb], Memory(true, Epoch(d) + 1, 0, []), Ideal(durable, durable))
  {
    var d' := d[SUPERBLOCK_LBA := sb];
    assert SameJournal(d, d');
    NoFutureFrame(d, d');
    forall s: nat | s < JRNL_SLOTS
      ensures !Current(HeaderAt(d', s), Epoch(d'))
    {
      assert HeaderAt(d', s) == HeaderAt(d, s);
    }
    assert Rollback(d', []) == d';
  }

  // ----- log and write -----------------------------------------------------

  lemma {:induction false} PayloadFrame(d: Disk, slot: nat, data: Sector)
    requires Volume(d) && slot < JRNL_SLOTS
    ensures var d' := d[JRNL_LBA + 2 * slot + 1 := data];
      && State(d') == State(d) && Epoch(d') == Epoch(d)
      && (forall s: nat :: s < JRNL_SLOTS ==> HeaderAt(d', s) == HeaderAt(d, s))
      && (forall s: nat :: s < slot ==> PayloadAt(d', s) == PayloadAt(d, s))
      && PayloadAt(d', slot) == data
  {
  }

  lemma {:induction false} HeaderFrame(d: Disk, slot: nat, header: Sector)
    requires Volume(d) && slot < JRNL_SLOTS
    ensures var d' := d[JRNL_LBA + 2 * slot := header];
      && State(d') == State(d) && Epoch(d') == Epoch(d)
      && (forall s: nat :: s < JRNL_SLOTS && s != slot ==> HeaderAt(d', s) == HeaderAt(d, s))
      && (forall s: nat :: s < JRNL_SLOTS ==> PayloadAt(d', s) == PayloadAt(d, s))
      && HeaderAt(d', slot) == header
  {
  }

  /** The journal area is no part of the guarded contents. */
  lemma {:induction false} JournalInvisible(guarded: set<nat>, d: Disk, lba: nat, data: Sector, other: Disk)
    requires lba < |d| && InJournal(lba) && SameOn(guarded, d, other)
    requires forall l :: l in guarded ==> !InJournal(l)
    ensures SameOn(guarded, d[lba := data], other)
  {
  }

  /** A write to the journal area does not move what rollback would restore. */
  lemma {:induction false} RollbackUnderJournal(guarded: set<nat>, d: Disk, lba: nat, data: Sector, log: seq<SectorWrite>, durable: Disk)
    requires Volume(d) && InJournal(lba) && GoodTargets(d, Epoch(d), log)
    requires forall l :: l in guarded ==> !InJournal(l)
    requires SameOn(guarded, Rollback(d, log), durable)
    ensures SameOn(guarded, Rollback(d[lba := data], log), durable)
  {
    var d' := d[lba := data];
    forall l | l in guarded && l < |d|
      ensures Rollback(d', log)[l] == Rollback(d, log)[l]
    {
      ApplyForgets(d, d', Reverse(log), l);
    }
  }

  lemma {:induction false} PayloadStays(crc: Checksum, d: Disk, epoch: Word, log: seq<SectorWrite>, pre: Sector)
    requires LogHolds(crc, d, epoch, log, false) && NoFuture(d) && Epoch(d) == epoch
    requires forall s :: |log| <= s < JRNL_SLOTS ==> !Current(HeaderAt(d, s), epoch)
    ensures var d' := d[JRNL_LBA + 2 * |log| + 1 := pre];
      && State(d') == State(d) && Epoch(d') == epoch && NoFuture(d')
      && LogHolds(crc, d', epoch, log, false)
      && forall s :: |log| <= s < JRNL_SLOTS ==> !Current(HeaderAt(d', s), epoch)
  {
    PayloadFrame(d, |log|, pre);
  }

  /** The payload goes out first and is not a record yet. */
  lemma {:induction false} PayloadLands(crc: Checksum, guarded: set<nat>, d: Disk, m: Memory, i: Ideal, pre: Sector)
    requires InTransaction(crc, guarded, d, m, i) && |m.logged| + 1 < JRNL_SLOTS
    ensures InTransaction(crc, guarded, d[JRNL_LBA + m.ptr + 1 := pre], m, i)
  {
    hide LogHolds, NoFuture, SameOn, Rollback, Current;
    var lba := JRNL_LBA + m.ptr + 1;
    var d' := d[lba := pre];
    PayloadStays(crc, d, m.epoch, m.logged, pre);
    RollbackUnderJournal(guarded, d, lba, pre, m.logged, i.durable);
    JournalInvisible(guarded, d, lba, pre, i.current);
  }

  /** The new pre-image is the sector's contents at `begin`. */
  lemma {:induction false} RollbackGrows(d: Disk, log: seq<SectorWrite>, target: nat)
    requires target < |d| && forall j :: 0 <= j < |log| ==> log[j].lba != target
    ensures Rollback(d, log + [SectorWrite(target, d[target])]) == Rollback(d, log)
  {
    var w := SectorWrite(target, d[target]);
    assert Reverse(log + [w]) == [w] + Reverse(log);
    ApplyAppend(d, [w], Reverse(log));
    ApplyOne(d, w);
    assert Put(d, w) == d;
  }

  /** The header makes the pre-image part of the log. */
  lemma {:induction false} LogGrows(crc: Checksum, d: Disk, epoch: Word, log: seq<SectorWrite>, target: Word)
    requires LogHolds(crc, d, epoch, log, false) && |log| + 1 < JRNL_SLOTS && NoFuture(d) && Epoch(d) == epoch
    requires target < |d| && PayloadAt(d, |log|) == d[target]
    requires forall s :: |log| <= s < JRNL_SLOTS ==> !Current(HeaderAt(d, s), epoch)
    ensures var d' := d[JRNL_LBA + 2 * |log| := PreHeader(target, epoch, crc(d[target]))];
      && State(d') == State(d) && Epoch(d') == epoch && NoFuture(d')
      && LogHolds(crc, d', epoch, log + [SectorWrite(target, d[target])], false)
      && forall s :: |log| < s < JRNL_SLOTS ==> !Current(HeaderAt(d', s), epoch)
  {
    HeaderFrame(d, |log|, PreHeader(target, epoch, crc(d[target])));
  }

  lemma {:induction false} LogCloses(crc: Checksum, d: Disk, epoch: Word, log: seq<SectorWrite>)
    requires LogHolds(crc, d, epoch, log, false) && NoFuture(d) && Epoch(d) == epoch
    ensures var d' := d[JRNL_LBA + 2 * |log| := CommitHeader(crc, epoch, |log|)];
      && State(d') == State(d) && Epoch(d') == epoch && NoFuture(d')
      && LogHolds(crc, d', epoch, log, true)
  {
    HeaderFrame(d, |log|, CommitHeader(crc, epoch, |log|));
  }

  lemma {:induction false} TargetsGrow(d: Disk, m: Memory, target: Word)
    requires |d| > SUPERBLOCK_LBA && GoodTargets(d, m.epoch, m.logged) && State(d) == 1 && Epoch(d) == m.epoch
    requires target < |d| && !InJournal(target) && !Logged(m, target)
    ensures GoodTargets(d, m.epoch, m.logged + [SectorWrite(target, d[target])])
  {
  }

  lemma {:induction false} HeaderLands(crc: Checksum, guarded: set<nat>, d: Disk, m: Memory, i: Ideal, target: Word)
    requires InTransaction(crc, guarded, d, m, i) && |m.logged| + 1 < JRNL_SLOTS
    requires target < |d| && !InJournal(target) && !Logged(m, target)
    requires PayloadAt(d, |m.logged|) == d[target]
    ensures var m' := m.(ptr := m.ptr + 2, logged := m.logged + [SectorWrite(target, d[target])]);
      InTransaction(crc, guarded, d[JRNL_LBA + m.ptr := PreHeader(target, m.epoch, crc(d[target]))], m', i)
  {
    hide LogHolds, NoFuture, SameOn, Rollback, PreHeader, Current;
    var header := PreHeader(target, m.epoch, crc(d[target]));
    var d' := d[JRNL_LBA + m.ptr := header];
    var log' := m.logged + [SectorWrite(target, d[target])];
    LogGrows(crc, d, m.epoch, m.logged, target);
    TargetsGrow(d, m, target);
    RollbackGrows(d, m.logged, target);
    RollbackUnderJournal(guarded, d, JRNL_LBA + m.ptr, header, log', i.durable);
    JournalInvisible(guarded, d, JRNL_LBA + m.ptr, header, i.current);
  }

  lemma {:induction false} RollbackForgets(d: Disk, log: seq<SectorWrite>, j: nat, data: Sector)
    requires j < |log| && log[j].lba < |d|
    ensures Rollback(d[log[j].lba := data], log) == Rollback(d, log)
  {
    var d' := d[log[j].lba := data];
    var back := Reverse(log);
    assert back[|log| - 1 - j] == log[j];
    forall l | 0 <= l < |d|
      ensures Rollback(d', log)[l] == Rollback(d, log)[l]
    {
      ApplyForgets(d, d', back, l);
    }
  }

  lemma {:induction false} SameOnPut(guarded: set<nat>, d: Disk, d': Disk, w: SectorWrite)
    requires SameOn(guarded, d, d') && w.lba < |d|
    ensures SameOn(guarded, d[w.lba := w.data], Put(d', w))
  {
  }

  /** A change outside the journal that keeps the marks and what recovery would
      restore keeps the disk recoverable. */
  lemma {:induction false} OutsideJournal(crc: Checksum, guarded: set<nat>, d: Disk, d': Disk, durable: Disk, log: seq<SectorWrite>, commit: bool)
    requires Recoverable(crc, guarded, d, durable, log, commit)
    requires SameJournal(d, d') && State(d') == State(d) && Epoch(d') == Epoch(d)
    requires if State(d) == 0 || (commit && Recognised(crc, Epoch(d), |log|)) then SameOn(guarded, d', durable)
             else SameOn(guarded, Rollback(d', log), durable)
    ensures Recoverable(crc, guarded, d', durable, log, commit)
    ensures forall s: nat :: s < JRNL_SLOTS ==> HeaderAt(d', s) == HeaderAt(d, s)
  {
    LogFrame(crc, d, d', Epoch(d), log, commit);
    NoFutureFrame(d, d');
    HeadersFrame(d, d');
  }

  lemma {:induction false} HeadersFrame(d: Disk, d': Disk)
    requires Volume(d) && SameJournal(d, d')
    ensures forall s: nat :: s < JRNL_SLOTS ==> HeaderAt(d', s) == HeaderAt(d, s)
  {
    forall s: nat | s < JRNL_SLOTS
      ensures HeaderAt(d', s) == HeaderAt(d, s)
    {
      assert InJournal(JRNL_LBA + 2 * s);
    }
  }

  /** Overwriting a logged sector leaves its pre-image in charge. */
  lemma {:induction false} WriteLands(crc: Checksum, guarded: set<nat>, d: Disk, m: Memory, i: Ideal, target: Word, data: Sector)
    requires InTransaction(crc, guarded, d, m, i) && Logged(m, target) && !InJournal(target)
    requires target == SUPERBLOCK_LBA ==> data[SB_STATE] == 1 && data[SB_EPOCH] == m.epoch
    ensures target < |d|
    ensures InTransaction(crc, guarded, d[target := data], m, i.(current := Put(i.current, SectorWrite(target, data))))
  {
    var d' := d[target := data];
    var j :| 0 <= j < |m.logged| && m.logged[j].lba == target;
    RollbackForgets(d, m.logged, j, data);
    SameOnPut(guarded, d, i.current, SectorWrite(target, data));
    OutsideJournal(crc, guarded, d, d', i.durable, m.logged, false);
  }

  /** Unprotected data may change under any recoverable disk. */
  lemma {:induction false} DataLands(crc: Checksum, guarded: set<nat>, d: Disk, durable: Disk, log: seq<SectorWrite>, commit: bool, lba: nat, data: Sector)
    requires Recoverable(crc, guarded, d, durable, log, commit)
    requires lba !in guarded && !InJournal(lba) && lba < |d|
    ensures Recoverable(crc, guarded, d[lba := data], durable, log, commit)
  {
    var d' := d[lba := data];
    forall l | l in guarded && l < |d|
      ensures Rollback(d', log)[l] == Rollback(d, log)[l]
    {
      ApplyForgets(d, d', Reverse(log), l);
    }
    OutsideJournal(crc, guarded, d, d', durable, log, commit);
  }

  lemma {:induction false} DataLandsOpen(crc: Checksum, guarded: set<nat>, d: Disk, m: Memory, i: Ideal, lba: nat, data: Sector)
    requires InTransaction(crc, guarded, d, m, i)
    requires lba !in guarded && !InJournal(lba) && lba < |d|
    ensures InTransaction(crc, guarded, d[lba := data], m, i)
  {
    DataLands(crc, guarded, d, i.durable, m.logged, false, lba, data);
    var d' := d[lba := data];
    HeadersFrame(d, d');
  }

  // ----- commit and abort --------------------------------------------------

  lemma {:induction false} CommitRecordLands(crc: Checksum, guarded: set<nat>, d: Disk, m: Memory, i: Ideal)
    requires InTransaction(crc, guarded, d, m, i)
    ensures var d' := d[JRNL_LBA + m.ptr := CommitHeader(crc, m.epoch, |m.logged|)];
      && State(d') == 1 && Epoch(d') == m.epoch
      && Recoverable(crc, guarded, d', if Recognised(crc, m.epoch, |m.logged|) then i.current else i.durable, m.logged, true)
      && SameOn(guarded, d', i.current)
  {
    hide NoFuture, SameOn, Rollback, CommitHeader, Current;
    var header := CommitHeader(crc, m.epoch, |m.logged|);
    var d' := d[JRNL_LBA + m.ptr := header];
    LogCloses(crc, d, m.epoch, m.logged);
    RollbackUnderJournal(guarded, d, JRNL_LBA + m.ptr, header, m.logged, i.durable);
    JournalInvisible(guarded, d, JRNL_LBA + m.ptr, header, i.current);
  }

  lemma {:induction false} CommitEnds(crc: Checksum, guarded: set<nat>, d: Disk, m: Memory, i: Ideal, sb: Sector)
    requires InTransaction(crc, guarded, d, m, i)
    requires sb[SB_STATE] == 0 && sb[SB_EPOCH] == m.epoch && Strip(sb) == Strip(d[SUPERBLOCK_LBA])
    ensures var d' := d[JRNL_LBA + m.ptr := CommitHeader(crc, m.epoch, |m.logged|)][SUPERBLOCK_LBA := sb];
      Recoverable(crc, guarded, d', i.current, m.logged, true)
  {
    CommitRecordLands(crc, guarded, d, m, i);
    var d1 := d[JRNL_LBA + m.ptr := CommitHeader(crc, m.epoch, |m.logged|)];
    ClearingEnds(crc, guarded, d1, i.current, sb, m.logged, true);
    ApplyOne(d1, SectorWrite(SUPERBLOCK_LBA, sb));
  }

  // ----- every cut of every operation --------------------------------------

  lemma {:induction false} Witness(crc: Checksum, guarded: set<nat>, d: Disk, durable: Disk, log: seq<SectorWrite>, commit: bool)
    requires Recoverable(crc, guarded, d, durable, log, commit)
    ensures SomehowRecoverable(crc, guarded, d, durable)
  {
  }

  lemma {:induction false} InTransactionCounts(crc: Checksum, guarded: set<nat>, d: Disk, m: Memory, i: Ideal)
    requires InTransaction(crc, guarded, d, m, i)
    ensures |m.logged| < JRNL_SLOTS && m.ptr == 2 * |m.logged| && m.ptr <= 30
  {
  }

  lemma {:induction false} OpenMarks(crc: Checksum, guarded: set<nat>, d: Disk, m: Memory, i: Ideal)
    requires InTransaction(crc, guarded, d, m, i)
    ensures Volume(d) && m.open && m.ptr <= 30
    ensures Recoverable(crc, guarded, d, i.durable, m.logged, false)
  {
  }

  lemma {:induction false} BeginCut(crc: Checksum, guarded: set<nat>, d: Disk, durable: Disk, k: nat)
    requires SomehowRecoverable(crc, guarded, d, durable)
    requires Volume(d) && State(d) == 0 && Epoch(d) < 0xFFFF_FFFF
    ensures var m' := Memory(true, Epoch(d) + 1, 0, []);
      var ws := [SectorWrite(SUPERBLOCK_LBA, StampedSuperblock(crc, m', d[SUPERBLOCK_LBA]))];
      && InTransaction(crc, guarded, Apply(d, ws), m', Ideal(durable, durable))
      && SomehowRecoverable(crc, guarded, Apply(d, Prefix(ws, k)), durable)
  {
    var log, commit :| Recoverable(crc, guarded, d, durable, log, commit);
    var m' := Memory(true, Epoch(d) + 1, 0, []);
    var w := SectorWrite(SUPERBLOCK_LBA, StampedSuperblock(crc, m', d[SUPERBLOCK_LBA]));
    StampedMarks(crc, m', d[SUPERBLOCK_LBA]);
    BeginOpens(crc, guarded, d, durable, log, commit, w.data);
    ApplyOne(d, w);
    assert Prefix([w], k) == if k == 0 then [] else [w];
    Witness(crc, guarded, Apply(d, [w]), durable, [], false);
  }

  /** Stages of logging: nothing yet, payload only, payload and header. */
  lemma {:induction false} LogStages(crc: Checksum, guarded: set<nat>, d: Disk, m: Memory, i: Ideal, target: Word)
    requires InTransaction(crc, guarded, d, m, i) && !InJournal(target)
    requires LogRequest(crc, m, d, target).Request?
    ensures var q := LogRequest(crc, m, d, target);
      && (|q.writes| == 0 || |q.writes| == 2)
      && Logged(q.mem, target) && q.mem.epoch == m.epoch
      && InTransaction(crc, guarded, Apply(d, q.writes), q.mem, i)
      && (|q.writes| == 2 ==> SomehowRecoverable(crc, guarded, Apply(d, q.writes[..1]), i.durable))
      && Apply(d, q.writes)[SUPERBLOCK_LBA] == d[SUPERBLOCK_LBA]
  {
    hide Recoverable;
    var q := LogRequest(crc, m, d, target);
    if !Logged(m, target) {
      var pre := d[target];
      var v := SectorWrite(JRNL_LBA + m.ptr + 1, pre);
      var w := SectorWrite(JRNL_LBA + m.ptr, PreHeader(target, m.epoch, crc(pre)));
      assert q.writes == [v, w] && q.writes[..1] == [v];
      ApplyOne(d, v);
      ApplyTwo(d, v, w);
      PayloadLands(crc, guarded, d, m, i, pre);
      Witness(crc, guarded, Apply(d, [v]), i.durable, m.logged, false);
      HeaderLands(crc, guarded, Put(d, v), m, i, target);
      assert q.mem.logged[|m.logged|].lba == target;
    }
  }

  lemma {:induction false} LogCut(crc: Checksum, guarded: set<nat>, d: Disk, m: Memory, i: Ideal, target: Word, k: nat)
    requires InTransaction(crc, guarded, d, m, i) && !InJournal(target)
    requires LogRequest(crc, m, d, target).Request?
    ensures SomehowRecoverable(crc, guarded, Apply(d, Prefix(LogRequest(crc, m, d, target).writes, k)), i.durable)
  {
    hide Recoverable;
    var q := LogRequest(crc, m, d, target);
    LogStages(crc, guarded, d, m, i, target);
    var ws := q.writes;
    if |ws| == 0 || k >= 2 {
      assert Prefix(ws, k) == ws;
      Witness(crc, guarded, Apply(d, ws), i.durable, q.mem.logged, false);
    } else if k == 0 {
      assert Apply(d, Prefix(ws, k)) == d;
      Witness(crc, guarded, d, i.durable, m.logged, false);
    }
  }

  lemma {:induction false} WriteCut(crc: Checksum, guarded: set<nat>, d: Disk, m: Memory, i: Ideal, target: Word, data: Sector, k: nat)
    requires InTransaction(crc, guarded, d, m, i) && Legal(guarded, d, Write(target, data))
    requires LogRequest(crc, m, d, target).Request?
    ensures var q := LogRequest(crc, m, d, target);
      var ws := q.writes + [SectorWrite(target, data)];
      && InTransaction(crc, guarded, Apply(d, ws), q.mem, IdealDo(i, Write(target, data)))
      && SomehowRecoverable(crc, guarded, Apply(d, Prefix(ws, k)), i.durable)
  {
    hide Recoverable;
    var q := LogRequest(crc, m, d, target);
    var w := SectorWrite(target, data);
    var ws := q.writes + [w];
    var logged := Apply(d, q.writes);
    LogStages(crc, guarded, d, m, i, target);
    WriteLands(crc, guarded, logged, q.mem, i, target, data);
    ApplyAppend(d, q.writes, [w]);
    ApplyOne(logged, w);
    if k <= |q.writes| {
      assert Prefix(ws, k) == Prefix(q.writes, k);
      LogCut(crc, guarded, d, m, i, target, k);
    } else {
      assert Prefix(ws, k) == ws;
      Witness(crc, guarded, Apply(d, ws), i.durable, q.mem.logged, false);
    }
  }

  lemma {:induction false} CommitCut(crc: Checksum, guarded: set<nat>, d: Disk, m: Memory, i: Ideal, k: nat)
    requires InTransaction(crc, guarded, d, m, i) && |m.logged| < JRNL_SLOTS
    ensures var q := Ask(crc, m, d, Commit);
      && SomehowRecoverable(crc, guarded, Apply(d, q.writes), i.current)
      && SomehowRecoverable(crc, guarded, Apply(d, Prefix(q.writes, k)),
                            if Durable(crc, m, Commit, k) then i.current else i.durable)
  {
    hide Recoverable, InTransaction;
    OpenMarks(crc, guarded, d, m, i);
    var q := Ask(crc, m, d, Commit);
    var v := SectorWrite(JRNL_LBA + m.ptr, CommitHeader(crc, m.epoch, |m.logged|));
    var w := SectorWrite(SUPERBLOCK_LBA, StampedSuperblock(crc, q.mem, d[SUPERBLOCK_LBA]));
    assert q.writes == [v, w];
    ApplyOne(d, v);
    ApplyTwo(d, v, w);
    StampedMarks(crc, q.mem, d[SUPERBLOCK_LBA]);
    CommitRecordLands(crc, guarded, d, m, i);
    CommitEnds(crc, guarded, d, m, i, w.data);
    assert Prefix(q.writes, k) == if k == 0 then [] else if k == 1 then [v] else [v, w];
    Witness(crc, guarded, d, i.durable, m.logged, false);
    Witness(crc, guarded, Apply(d, [v]), if Recognised(crc, m.epoch, |m.logged|) then i.current else i.durable, m.logged, true);
    Witness(crc, guarded, Apply(d, [v, w]), i.current, m.logged, true);
  }

  lemma {:induction false} AbortCut(crc: Checksum, guarded: set<nat>, d: Disk, m: Memory, i: Ideal, k: nat)
    requires InTransaction(crc, guarded, d, m, i)
    ensures var q := Ask(crc, m, d, Abort);
      && SomehowRecoverable(crc, guarded, Apply(d, q.writes), i.durable)
      && SomehowRecoverable(crc, guarded, Apply(d, Prefix(q.writes, k)), i.durable)
  {
    hide Recoverable;
    var q := Ask(crc, m, d, Abort);
    var back := Reverse(m.logged);
    var sb := Rollback(d, m.logged)[SUPERBLOCK_LBA];
    var w := SectorWrite(SUPERBLOCK_LBA, StampedSuperblock(crc, q.mem, sb));
    assert q.writes == back + [w];
    StampedMarks(crc, q.mem, sb);
    UndoEnds(crc, guarded, d, i.durable, w.data, m.logged, false);
    Witness(crc, guarded, Apply(d, q.writes), i.durable, m.logged, false);
    if k <= |back| {
      assert Prefix(q.writes, k) == back[..k];
      UndoKeeps(crc, guarded, d, i.durable, m.logged, false, k);
      Witness(crc, guarded, Apply(d, back[..k]), i.durable, m.logged, false);
    } else {
      assert Prefix(q.writes, k) == q.writes;
    }
  }

  lemma {:induction false} DataCut(crc: Checksum, guarded: set<nat>, d: Disk, durable: Disk, lba: Word, data: Sector, k: nat)
    requires SomehowRecoverable(crc, guarded, d, durable)
    requires lba !in guarded && !InJournal(lba) && lba < |d|
    ensures SomehowRecoverable(crc, guarded, Apply(d, Prefix([SectorWrite(lba, data)], k)), durable)
  {
    hide Recoverable;
    var w := SectorWrite(lba, data);
    var log, commit :| Recoverable(crc, guarded, d, durable, log, commit);
    ApplyOne(d, w);
    assert Prefix([w], k) == if k == 0 then [] else [w];
    DataLands(crc, guarded, d, durable, log, commit, lba, data);
    Witness(crc, guarded, d[lba := data], durable, log, commit);
  }

  lemma {:induction false} RecoverCut(crc: Checksum, guarded: set<nat>, d: Disk, durable: Disk, k: nat)
    requires Volume(d) && SomehowRecoverable(crc, guarded, d, durable)
    ensures SomehowRecoverable(crc, guarded, Apply(d, Prefix(ReplayWrites(crc, d), k)), durable)
  {
    hide Apply, LogHolds, GoodTargets, NoFuture, SameOn, Rollback, Scan, Cleared, Recognised, Reverse;
    ApplyNothing(d);
    var log, commit :| Recoverable(crc, guarded, d, durable, log, commit);
    var ws := ReplayWrites(crc, d);
    if State(d) == 0 {
      assert Prefix(ws, k) == [];
    } else {
      ReplayPlan(crc, d, log, commit);
      var j := if k <= |ws| then k else |ws|;
      assert Prefix(ws, k) == ws[..j];
      RecoverKeeps(crc, guarded, d, durable, log, commit, ws, j);
      Witness(crc, guarded, Apply(d, ws[..j]), durable, log, commit);
    }
  }
}
