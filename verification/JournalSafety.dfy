/** Crash atomicity of the undo journal over whole runs.

    A run is any sequence of operations, power cuts between two sector writes of
    an operation, and recoveries that may themselves be cut short. Beside the
    real machine runs an ideal volume that knows nothing of journals: it holds
    the contents of the last transaction made durable and the contents the open
    transaction has written so far. */
module JournalSafety {
  import opened Sectors
  import opened JournalProtocol

  // ----- the ideal volume ------------------------------------------------

  /** A superblock without the journal's own bookkeeping. */
  function Strip(sb: Sector): Sector {
    sb[SB_STATE := 0][SB_PTR := 0][SB_EPOCH := 0][SB_CHECKSUM := 0]
  }

  function Content(lba: nat, s: Sector): Sector {
    if lba == SUPERBLOCK_LBA then Strip(s) else s
  }

  ghost predicate SameOn(guarded: set<nat>, d: Disk, d': Disk) {
    |d| == |d'| &&
    forall lba :: lba in guarded && lba < |d| ==> Content(lba, d[lba]) == Content(lba, d'[lba])
  }

  datatype Ideal = Ideal(durable: Disk, current: Disk)

  /** A transaction becomes durable with its clean-state flush, and already with
      its commit record when replay will recognise that record. */
  predicate Recognised(crc: Checksum, epoch: Word, records: nat)
    requires records < 0x1_0000_0000
  {
    crc(CommitBody(epoch, records)) != 0 || records == 0
  }

  predicate Durable(crc: Checksum, m: Memory, op: Op, done: nat)
    requires |m.logged| < 0x1_0000_0000
  {
    op.Commit? && m.open && (done >= 2 || (done == 1 && Recognised(crc, m.epoch, |m.logged|)))
  }

  function IdealDo(i: Ideal, op: Op): Ideal {
    match op
    case Write(target, data) => i.(current := Put(i.current, SectorWrite(target, data)))
    case Commit => i.(durable := i.current)
    case Abort => i.(current := i.durable)
    case _ => i
  }

  // ----- runs ------------------------------------------------------------

  datatype Machine = Machine(disk: Disk, mem: Memory, ideal: Ideal)

  datatype Event =
    | Do(op: Op)                       // the operation ran to its end, or raised
    | Cut(op: Op, done: nat)           // power failed after `done` of its writes
    | Recover(done: nat)               // replay, stopped after `done` of its writes

  function Prefix(ws: seq<SectorWrite>, k: nat): seq<SectorWrite> {
    if k <= |ws| then ws[..k] else ws
  }

  /** What the caller of the journal owes it: metadata is journalled and data is
      not, nothing is aimed at the journal area, a new superblock image keeps the
      dirty mark and the epoch, and the epoch counter does not wrap. */
  ghost predicate Legal(guarded: set<nat>, d: Disk, op: Op)
    requires |d| > SUPERBLOCK_LBA
  {
    match op
    case Begin => Epoch(d) < 0xFFFF_FFFF
    case Log(target) => !InJournal(target)
    case Write(target, data) =>
      && !InJournal(target)
      && (target == SUPERBLOCK_LBA ==> data[SB_STATE] == State(d) && data[SB_EPOCH] == Epoch(d))
    case WriteData(lba, _) => lba !in guarded && !InJournal(lba) && lba < |d|
    case _ => true
  }

  ghost predicate LegalEvent(guarded: set<nat>, d: Disk, e: Event)
    requires |d| > SUPERBLOCK_LBA
  {
    match e
    case Do(op) => Legal(guarded, d, op)
    case Cut(op, _) => Legal(guarded, d, op)
    case Recover(_) => true
  }

  ghost predicate Running(mc: Machine) {
    Volume(mc.disk) && |mc.mem.logged| < JRNL_SLOTS
  }

  /** One event. A power cut loses the journal object and the open transaction. */
  ghost function Next(crc: Checksum, mc: Machine, e: Event): (r: Machine)
    requires Running(mc)
    ensures |r.disk| == |mc.disk|
  {
    match e
    case Do(op) =>
      var q := Ask(crc, mc.mem, mc.disk, op);
      if q.Refused? then mc
      else if op.Commit? && !mc.mem.open then mc
      else Machine(Apply(mc.disk, q.writes), q.mem, IdealDo(mc.ideal, op))
    case Cut(op, done) =>
      var q := Ask(crc, mc.mem, mc.disk, op);
      var disk := if q.Refused? then mc.disk else Apply(mc.disk, Prefix(q.writes, done));
      var kept := if Durable(crc, mc.mem, op, done) then mc.ideal.current else mc.ideal.durable;
      Machine(disk, FRESH, Ideal(kept, kept))
    case Recover(done) =>
      Machine(Apply(mc.disk, Prefix(ReplayWrites(crc, mc.disk), done)), FRESH,
              Ideal(mc.ideal.durable, mc.ideal.durable))
  }

  // ----- the invariant ---------------------------------------------------

  /** The log of transaction `epoch` holds exactly `log`, closed by a commit
      record when `commit` says so. */
  ghost predicate LogHolds(crc: Checksum, d: Disk, epoch: Word, log: seq<SectorWrite>, commit: bool)
  {
    && Volume(d)
    && |log| < JRNL_SLOTS
    && (forall i :: 0 <= i < |log| ==> log[i].lba < 0x1_0000_0000)
    && (forall i :: 0 <= i < |log| ==> HeaderAt(d, i) == PreHeader(log[i].lba, epoch, crc(log[i].data)))
    && (forall i :: 0 <= i < |log| ==> PayloadAt(d, i) == log[i].data)
    && (if commit then HeaderAt(d, |log|) == CommitHeader(crc, epoch, |log|)
        else !Current(HeaderAt(d, |log|), epoch))
  }

  /** Pre-images are of distinct sectors outside the journal; one of the
      superblock still carries the dirty mark and the epoch of its transaction. */
  ghost predicate GoodTargets(d: Disk, epoch: Word, log: seq<SectorWrite>) {
    && Distinct(log)
    && (forall i :: 0 <= i < |log| ==> !InJournal(log[i].lba) && log[i].lba < |d|)
    && (forall i :: 0 <= i < |log| && log[i].lba == SUPERBLOCK_LBA ==>
          log[i].data[SB_STATE] == 1 && log[i].data[SB_EPOCH] == epoch)
  }

  /** No header in the journal is from a later transaction. */
  ghost predicate NoFuture(d: Disk)
    requires Volume(d)
  {
    forall i :: 0 <= i < JRNL_SLOTS && HeaderAt(d, i)[REC_MAGIC] == JRNL_MAGIC ==>
                  HeaderAt(d, i)[REC_EPOCH] <= Epoch(d)
  }

  function Rollback(d: Disk, log: seq<SectorWrite>): (r: Disk)
    ensures |r| == |d|
  {
    Apply(d, Reverse(log))
  }

  /** What every disk a power cut can leave satisfies. */
  ghost predicate Recoverable(crc: Checksum, guarded: set<nat>, d: Disk, durable: Disk,
                              log: seq<SectorWrite>, commit: bool)
  {
    && Volume(d)
    && SUPERBLOCK_LBA in guarded
    && (forall lba :: lba in guarded ==> !InJournal(lba))
    && NoFuture(d)
    && LogHolds(crc, d, Epoch(d), log, commit)
    && GoodTargets(d, Epoch(d), log)
    && State(d) <= 1
    && (if State(d) == 0 || (commit && Recognised(crc, Epoch(d), |log|))
        then SameOn(guarded, d, durable)
        else SameOn(guarded, Rollback(d, log), durable))
  }

  ghost predicate SomehowRecoverable(crc: Checksum, guarded: set<nat>, d: Disk, durable: Disk) {
    exists log, commit :: Recoverable(crc, guarded, d, durable, log, commit)
  }

  /** While a transaction is open, memory and disk agree about the log, and every
      slot not yet used is stale. */
  ghost predicate InTransaction(crc: Checksum, guarded: set<nat>, d: Disk, m: Memory, i: Ideal) {
    && Volume(d)
    && m.open
    && m.ptr == 2 * |m.logged|
    && State(d) == 1
    && Epoch(d) == m.epoch
    && Recoverable(crc, guarded, d, i.durable, m.logged, false)
    && (forall s :: |m.logged| <= s < JRNL_SLOTS ==> !Current(HeaderAt(d, s), m.epoch))
    && SameOn(guarded, d, i.current)
  }

  ghost predicate Inv(crc: Checksum, guarded: set<nat>, mc: Machine) {
    && Running(mc)
    && |mc.ideal.durable| == |mc.ideal.current| == |mc.disk|
    && (if mc.mem.open then InTransaction(crc, guarded, mc.disk, mc.mem, mc.ideal)
        else
          && SomehowRecoverable(crc, guarded, mc.disk, mc.ideal.durable)
          && mc.ideal.current == mc.ideal.durable)
  }

  // ----- frames ----------------------------------------------------------

  ghost predicate SameJournal(d: Disk, d': Disk) {
    |d| == |d'| && forall lba: nat :: InJournal(lba) && lba < |d| ==> d'[lba] == d[lba]
  }

  /** A write outside the journal leaves the log alone. */
  lemma {:induction false} LogFrame(crc: Checksum, d: Disk, d': Disk, epoch: Word, log: seq<SectorWrite>, commit: bool)
    requires LogHolds(crc, d, epoch, log, commit)
    requires SameJournal(d, d')
    ensures LogHolds(crc, d', epoch, log, commit)
  {
    forall s: nat | s < JRNL_SLOTS
      ensures HeaderAt(d', s) == HeaderAt(d, s) && PayloadAt(d', s) == PayloadAt(d, s)
    {
      assert InJournal(JRNL_LBA + 2 * s) && InJournal(JRNL_LBA + 2 * s + 1);
    }
  }

  lemma {:induction false} NoFutureFrame(d: Disk, d': Disk)
    requires Volume(d) && NoFuture(d)
    requires SameJournal(d, d') && Epoch(d) <= Epoch(d')
    ensures NoFuture(d')
  {
    forall s: nat | s < JRNL_SLOTS
      ensures HeaderAt(d', s) == HeaderAt(d, s)
    {
      assert InJournal(JRNL_LBA + 2 * s);
    }
  }

  lemma {:induction false} RollbackAt(d: Disk, log: seq<SectorWrite>, i: nat)
    requires Distinct(log) && i < |log| && log[i].lba < |d|
    ensures Rollback(d, log)[log[i].lba] == log[i].data
  {
    var back := Reverse(log);
    assert back[|log| - 1 - i] == log[i];
    ApplyDistinct(d, back, |log| - 1 - i);
  }

  lemma {:induction false} RollbackElsewhere(d: Disk, log: seq<SectorWrite>, lba: nat)
    requires lba < |d|
    requires forall i :: 0 <= i < |log| ==> log[i].lba != lba
    ensures Rollback(d, log)[lba] == d[lba]
  {
    ApplyElsewhere(d, Reverse(log), lba);
  }

  lemma {:induction false} RollbackCases(d: Disk, log: seq<SectorWrite>, lba: nat)
    requires Distinct(log) && lba < |d|
    ensures (exists i :: 0 <= i < |log| && log[i].lba == lba && Rollback(d, log)[lba] == log[i].data)
         || ((forall i :: 0 <= i < |log| ==> log[i].lba != lba) && Rollback(d, log)[lba] == d[lba])
  {
    if i :| 0 <= i < |log| && log[i].lba == lba {
      RollbackAt(d, log, i);
    } else {
      RollbackElsewhere(d, log, lba);
    }
  }

  // ----- recovery from a recoverable disk ----------------------------------

  /** The scan reads back exactly the log. */
  lemma {:induction false} ScanFinds(crc: Checksum, d: Disk, epoch: Word, log: seq<SectorWrite>, commit: bool, n: nat)
    requires LogHolds(crc, d, epoch, log, commit) && n <= |log|
    ensures Scan(crc, d, epoch, log[..n])
         == Scanned(log, commit && Recognised(crc, epoch, |log|))
    decreases |log| - n
  {
    var header := HeaderAt(d, n);
    if n < |log| {
      assert log[..n] + [log[n]] == log[..n + 1];
      ScanFinds(crc, d, epoch, log, commit, n + 1);
    } else {
      assert log[..n] == log;
      if commit {
        assert header[COMMIT_CRC := 0] == CommitBody(epoch, |log|);
      }
    }
  }

  lemma {:induction false} ScanLogFinds(crc: Checksum, d: Disk, log: seq<SectorWrite>, commit: bool)
    requires Volume(d) && LogHolds(crc, d, Epoch(d), log, commit)
    ensures ScanLog(crc, d) == Scanned(log, commit && Recognised(crc, Epoch(d), |log|))
  {
    assert log[..0] == [];
    ScanFinds(crc, d, Epoch(d), log, commit, 0);
  }

  /** Undoing only part of the log leaves a disk with the same log, the same
      marks in the superblock and the same complete rollback. */
  lemma {:induction false} PartialRollback(crc: Checksum, d: Disk, epoch: Word, log: seq<SectorWrite>, commit: bool, k: nat)
    requires Volume(d) && State(d) == 1 && Epoch(d) == epoch && NoFuture(d)
    requires LogHolds(crc, d, epoch, log, commit) && GoodTargets(d, epoch, log) && k <= |log|
    ensures var d' := Apply(d, Reverse(log)[..k]);
      && LogHolds(crc, d', epoch, log, commit) && GoodTargets(d', epoch, log) && NoFuture(d')
      && State(d') == 1 && Epoch(d') == epoch && SameJournal(d, d')
      && Rollback(d', log) == Rollback(d, log)
  {
    var back := Reverse(log)[..k];
    var d' := Apply(d, back);
    forall lba: nat | InJournal(lba) && lba < |d|
      ensures d'[lba] == d[lba]
    {
      ApplyElsewhere(d, back, lba);
    }
    assert Distinct(back);
    if i :| 0 <= i < k && back[i].lba == SUPERBLOCK_LBA {
      ApplyDistinct(d, back, i);
      assert back[i] == log[|log| - 1 - i];
    } else {
      ApplyElsewhere(d, back, SUPERBLOCK_LBA);
    }
    LogFrame(crc, d, d', epoch, log, commit);
    NoFutureFrame(d, d');
    ApplyAfterPrefix(d, Reverse(log), k);
  }

  /** Rewriting the journal's own marks in the superblock touches nothing else. */
  lemma {:induction false} PutSuperblock(crc: Checksum, guarded: set<nat>, d: Disk, sb: Sector, log: seq<SectorWrite>, commit: bool)
    requires Volume(d) && LogHolds(crc, d, Epoch(d), log, commit) && NoFuture(d)
    requires sb[SB_EPOCH] == Epoch(d) && Strip(sb) == Strip(d[SUPERBLOCK_LBA])
    ensures var d' := Apply(d, [SectorWrite(SUPERBLOCK_LBA, sb)]);
      && d' == d[SUPERBLOCK_LBA := sb]
      && LogHolds(crc, d', Epoch(d), log, commit) && NoFuture(d')
      && SameOn(guarded, d', d)
  {
    var w := SectorWrite(SUPERBLOCK_LBA, sb);
    assert Apply(d, [w]) == Apply(Put(d, w), []);
    var d' := d[SUPERBLOCK_LBA := sb];
    assert SameJournal(d, d');
    LogFrame(crc, d, d', Epoch(d), log, commit);
    NoFutureFrame(d, d');
  }

  lemma {:induction false} ClearedMarks(crc: Checksum, sb: Sector)
    ensures Cleared(crc, sb)[SB_STATE] == 0 && Cleared(crc, sb)[SB_EPOCH] == sb[SB_EPOCH]
    ensures Strip(Cleared(crc, sb)) == Strip(sb)
  {
  }

  /** A superblock that only lost its dirty mark ends recovery. */
  lemma {:induction false} ClearingEnds(crc: Checksum, guarded: set<nat>, d: Disk, durable: Disk, sb: Sector, log: seq<SectorWrite>, commit: bool)
    requires Volume(d) && LogHolds(crc, d, Epoch(d), log, commit) && NoFuture(d)
    requires GoodTargets(d, Epoch(d), log)
    requires SUPERBLOCK_LBA in guarded && forall lba :: lba in guarded ==> !InJournal(lba)
    requires SameOn(guarded, d, durable)
    requires sb[SB_STATE] == 0 && sb[SB_EPOCH] == Epoch(d) && Strip(sb) == Strip(d[SUPERBLOCK_LBA])
    ensures var d' := Apply(d, [SectorWrite(SUPERBLOCK_LBA, sb)]);
      && Recoverable(crc, guarded, d', durable, log, commit)
      && State(d') == 0 && Epoch(d') == Epoch(d)
  {
    PutSuperblock(crc, guarded, d, sb, log, commit);
  }

  /** Replay's writes from a dirty recoverable disk. */
  lemma {:induction false} ReplayPlan(crc: Checksum, d: Disk, log: seq<SectorWrite>, commit: bool)
    requires Volume(d) && LogHolds(crc, d, Epoch(d), log, commit) && State(d) != 0
    ensures var back := if commit && Recognised(crc, Epoch(d), |log|) then [] else Reverse(log);
      ReplayWrites(crc, d) == back + [SectorWrite(SUPERBLOCK_LBA, Cleared(crc, Apply(d, back)[SUPERBLOCK_LBA]))]
  {
    ScanLogFinds(crc, d, log, commit);
  }

  /** Putting back some of the pre-images keeps the disk recoverable. */
  lemma {:induction false} UndoKeeps(crc: Checksum, guarded: set<nat>, d: Disk, durable: Disk, log: seq<SectorWrite>, commit: bool, k: nat)
    requires Recoverable(crc, guarded, d, durable, log, commit)
    requires State(d) != 0 && !(commit && Recognised(crc, Epoch(d), |log|)) && k <= |log|
    ensures var d' := Apply(d, Reverse(log)[..k]);
      && Recoverable(crc, guarded, d', durable, log, commit)
      && State(d') == 1 && Epoch(d') == Epoch(d)
  {
    PartialRollback(crc, d, Epoch(d), log, commit, k);
  }

  /** Rolling back and then writing a clean superblock ends a transaction. */
  lemma {:induction false} UndoEnds(crc: Checksum, guarded: set<nat>, d: Disk, durable: Disk, sb: Sector, log: seq<SectorWrite>, commit: bool)
    requires Recoverable(crc, guarded, d, durable, log, commit)
    requires State(d) != 0 && !(commit && Recognised(crc, Epoch(d), |log|))
    requires sb[SB_STATE] == 0 && sb[SB_EPOCH] == Epoch(d)
    requires Strip(sb) == Strip(Rollback(d, log)[SUPERBLOCK_LBA])
    ensures var d' := Apply(d, Reverse(log) + [SectorWrite(SUPERBLOCK_LBA, sb)]);
      && Recoverable(crc, guarded, d', durable, log, commit)
      && State(d') == 0 && Epoch(d') == Epoch(d)
  {
    assert Reverse(log)[..|log|] == Reverse(log);
    PartialRollback(crc, d, Epoch(d), log, commit, |log|);
    ApplyAppend(d, Reverse(log), [SectorWrite(SUPERBLOCK_LBA, sb)]);
    ClearingEnds(crc, guarded, Rollback(d, log), durable, sb, log, commit);
  }

  lemma {:induction false} UndoneEpoch(crc: Checksum, guarded: set<nat>, d: Disk, durable: Disk, log: seq<SectorWrite>, commit: bool)
    requires Recoverable(crc, guarded, d, durable, log, commit)
    requires State(d) != 0 && !(commit && Recognised(crc, Epoch(d), |log|))
    ensures var sb := Rollback(d, log)[SUPERBLOCK_LBA];
      && Cleared(crc, sb)[SB_STATE] == 0 && Cleared(crc, sb)[SB_EPOCH] == Epoch(d)
      && Strip(Cleared(crc, sb)) == Strip(sb)
  {
    assert Reverse(log)[..|log|] == Reverse(log);
    PartialRollback(crc, d, Epoch(d), log, commit, |log|);
    ClearedMarks(crc, Rollback(d, log)[SUPERBLOCK_LBA]);
  }

  /** Every cut of replay leaves the disk recoverable to the same contents, and
      its end is clean and holds them. */
  lemma {:induction false} RecoverKeeps(crc: Checksum, guarded: set<nat>, d: Disk, durable: Disk, log: seq<SectorWrite>, commit: bool,
                     ws: seq<SectorWrite>, k: nat)
    requires Recoverable(crc, guarded, d, durable, log, commit)
    requires State(d) != 0 && k <= |ws|
    requires var back := if commit && Recognised(crc, Epoch(d), |log|) then [] else Reverse(log);
             ws == back + [SectorWrite(SUPERBLOCK_LBA, Cleared(crc, Apply(d, back)[SUPERBLOCK_LBA]))]
    ensures var d' := Apply(d, ws[..k]);
      && Recoverable(crc, guarded, d', durable, log, commit)
      && Epoch(d') == Epoch(d)
      && (k == |ws| ==> State(d') == 0)
  {
    if commit && Recognised(crc, Epoch(d), |log|) {
      assert Apply(d, []) == d;
      if k == 0 {
        assert ws[..k] == [];
      } else {
        assert ws[..k] == ws == [SectorWrite(SUPERBLOCK_LBA, Cleared(crc, d[SUPERBLOCK_LBA]))];
        ClearedMarks(crc, d[SUPERBLOCK_LBA]);
        ClearingEnds(crc, guarded, d, durable, ws[0].data, log, commit);
      }
    } else if k <= |log| {
      assert ws[..k] == Reverse(log)[..k];
      UndoKeeps(crc, guarded, d, durable, log, commit, k);
    } else {
      var sb := Cleared(crc, Rollback(d, log)[SUPERBLOCK_LBA]);
      assert ws[..k] == ws == Reverse(log) + [SectorWrite(SUPERBLOCK_LBA, sb)];
      UndoneEpoch(crc, guarded, d, durable, log, commit);
      UndoEnds(crc, guarded, d, durable, sb, log, commit);
    }
  }
}
