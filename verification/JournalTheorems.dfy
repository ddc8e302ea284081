/** What the journal promises, for every run. */
module JournalTheorems {
  import opened Sectors
  import opened JournalProtocol
  import opened JournalSafety
  import opened JournalRuns

  // ----- runs keep the invariant -------------------------------------------

  /** The disk under any machine state is one a power cut could leave. */
  lemma {:induction false} AlwaysRecoverable(crc: Checksum, guarded: set<nat>, mc: Machine)
    requires Inv(crc, guarded, mc)
    ensures SomehowRecoverable(crc, guarded, mc.disk, mc.ideal.durable)
  {
    hide Recoverable;
    if mc.mem.open {
      Witness(crc, guarded, mc.disk, mc.ideal.durable, mc.mem.logged, false);
    }
  }

  lemma {:induction false} DoKeeps(crc: Checksum, guarded: set<nat>, mc: Machine, op: Op)
    requires Inv(crc, guarded, mc) && Legal(guarded, mc.disk, op)
    ensures Inv(crc, guarded, Next(crc, mc, Do(op)))
  {
    hide Recoverable, SomehowRecoverable, SameOn, Apply;
    var d, m, i := mc.disk, mc.mem, mc.ideal;
    var q := Ask(crc, m, d, op);
    if q.Refused? || (op.Commit? && !m.open) {
      return;
    }
    ApplyNothing(d);
    match op
    case Begin =>
      BeginCut(crc, guarded, d, i.durable, 0);
    case Log(target) =>
      LogStages(crc, guarded, d, m, i, target);
      InTransactionCounts(crc, guarded, Apply(d, q.writes), q.mem, i);
    case Write(target, data) =>
      WriteCut(crc, guarded, d, m, i, target, data, 0);
      InTransactionCounts(crc, guarded, Apply(d, q.writes), q.mem, IdealDo(i, op));
    case WriteData(lba, data) =>
      ApplyOne(d, SectorWrite(lba, data));
      if m.open {
        DataLandsOpen(crc, guarded, d, m, i, lba, data);
      } else {
        assert Prefix(q.writes, 1) == q.writes;
        DataCut(crc, guarded, d, i.durable, lba, data, 1);
      }
    case Commit =>
      CommitCut(crc, guarded, d, m, i, 0);
    case Abort =>
      if m.open {
        AbortCut(crc, guarded, d, m, i, 0);
      }
  }

  lemma {:induction false} CutKeeps(crc: Checksum, guarded: set<nat>, mc: Machine, op: Op, k: nat)
    requires Inv(crc, guarded, mc) && Legal(guarded, mc.disk, op)
    ensures Inv(crc, guarded, Next(crc, mc, Cut(op, k)))
  {
    hide Recoverable, SomehowRecoverable, SameOn, Apply;
    var d, m, i := mc.disk, mc.mem, mc.ideal;
    var q := Ask(crc, m, d, op);
    AlwaysRecoverable(crc, guarded, mc);
    ApplyNothing(d);
    if q.Refused? || (op.Commit? && !m.open) {
      return;
    }
    match op
    case Begin =>
      BeginCut(crc, guarded, d, i.durable, k);
    case Log(target) =>
      LogCut(crc, guarded, d, m, i, target, k);
    case Write(target, data) =>
      WriteCut(crc, guarded, d, m, i, target, data, k);
    case WriteData(lba, data) =>
      DataCut(crc, guarded, d, i.durable, lba, data, k);
    case Commit =>
      CommitCut(crc, guarded, d, m, i, k);
    case Abort =>
      if m.open {
        AbortCut(crc, guarded, d, m, i, k);
      }
  }

  lemma {:induction false} EventKeeps(crc: Checksum, guarded: set<nat>, mc: Machine, e: Event)
    requires Inv(crc, guarded, mc) && LegalEvent(guarded, mc.disk, e)
    ensures Inv(crc, guarded, Next(crc, mc, e))
  {
    hide Recoverable, SomehowRecoverable, SameOn, Apply;
    match e
    case Do(op) => DoKeeps(crc, guarded, mc, op);
    case Cut(op, k) => CutKeeps(crc, guarded, mc, op, k);
    case Recover(k) =>
      AlwaysRecoverable(crc, guarded, mc);
      RecoverCut(crc, guarded, mc.disk, mc.ideal.durable, k);
  }

  /** A volume as the builder leaves it: clean, with no record of its own epoch
      or a later one in the journal area. */
  ghost predicate Initial(guarded: set<nat>, d: Disk) {
    && Volume(d) && State(d) == 0 && NoFuture(d)
    && !Current(HeaderAt(d, 0), Epoch(d))
    && SUPERBLOCK_LBA in guarded && (forall lba :: lba in guarded ==> !InJournal(lba))
  }

  ghost function Start(d: Disk): Machine {
    Machine(d, FRESH, Ideal(d, d))
  }

  /** `mc` is reached from `d` by some legal run. */
  ghost predicate Reaches(crc: Checksum, guarded: set<nat>, d: Disk, events: seq<Event>, mc: Machine)
    decreases |events|
  {
    if events == [] then mc == Start(d)
    else
      exists before :: Reaches(crc, guarded, d, events[..|events| - 1], before) && Running(before)
        && LegalEvent(guarded, before.disk, events[|events| - 1])
        && mc == Next(crc, before, events[|events| - 1])
  }

  /** One more event on a run. */
  lemma {:induction false} ReachesNext(crc: Checksum, guarded: set<nat>, d: Disk, events: seq<Event>, mc: Machine, e: Event)
    requires Reaches(crc, guarded, d, events, mc) && Running(mc) && LegalEvent(guarded, mc.disk, e)
    ensures Reaches(crc, guarded, d, events + [e], Next(crc, mc, e))
  {
    hide Next;
    assert (events + [e])[..|events|] == events;
  }

  lemma {:induction false} RunKeeps(crc: Checksum, guarded: set<nat>, d: Disk, events: seq<Event>, mc: Machine)
    requires Initial(guarded, d) && Reaches(crc, guarded, d, events, mc)
    ensures Inv(crc, guarded, mc)
    decreases |events|
  {
    if events == [] {
      assert Rollback(d, []) == d;
      assert Recoverable(crc, guarded, d, d, [], false);
    } else {
      var before :| Reaches(crc, guarded, d, events[..|events| - 1], before) && Running(before)
        && LegalEvent(guarded, before.disk, events[|events| - 1])
        && mc == Next(crc, before, events[|events| - 1]);
      RunKeeps(crc, guarded, d, events[..|events| - 1], before);
      EventKeeps(crc, guarded, before, events[|events| - 1]);
    }
  }

  // ----- crash atomicity ---------------------------------------------------

  lemma {:induction false} RecoversTo(crc: Checksum, guarded: set<nat>, d: Disk, durable: Disk)
    requires SomehowRecoverable(crc, guarded, d, durable)
    ensures Volume(d) && ScanLog(crc, d).Scanned?
    ensures SameOn(guarded, Recovered(crc, d), durable) && State(Recovered(crc, d)) == 0
  {
    hide LogHolds, NoFuture, GoodTargets, SameOn, Rollback, Scan, Apply;
    var log, commit :| Recoverable(crc, guarded, d, durable, log, commit);
    ScanLogFinds(crc, d, log, commit);
    ApplyNothing(d);
    if State(d) != 0 {
      ReplayPlan(crc, d, log, commit);
      var ws := ReplayWrites(crc, d);
      assert ws[..|ws|] == ws;
      RecoverKeeps(crc, guarded, d, durable, log, commit, ws, |ws|);
    }
  }

  /** Whatever a run did and wherever it was cut, replay does not refuse, and it
      leaves every protected sector as the last durable transaction left it. A
      machine still running shows the contents its own operations wrote. */
  lemma {:induction false} CrashAtomicity(crc: Checksum, guarded: set<nat>, d: Disk, events: seq<Event>, mc: Machine)
    requires Initial(guarded, d) && Reaches(crc, guarded, d, events, mc)
    ensures Volume(mc.disk) && ScanLog(crc, mc.disk).Scanned?
    ensures SameOn(guarded, Recovered(crc, mc.disk), mc.ideal.durable)
    ensures State(Recovered(crc, mc.disk)) == 0
    ensures mc.mem.open ==> SameOn(guarded, mc.disk, mc.ideal.current)
  {
    RunKeeps(crc, guarded, d, events, mc);
    AlwaysRecoverable(crc, guarded, mc);
    RecoversTo(crc, guarded, mc.disk, mc.ideal.durable);
  }

  /** The write-ahead discipline in an open transaction: the scan finds exactly
      what memory says was logged, all of this epoch, and it holds the old
      contents of every protected sector that has changed; room for the commit
      record is left. */
  lemma {:induction false} OpenTransactionIsLogged(crc: Checksum, guarded: set<nat>, d: Disk, events: seq<Event>, mc: Machine, lba: nat)
    requires Initial(guarded, d) && Reaches(crc, guarded, d, events, mc) && mc.mem.open
    requires lba in guarded && lba < |mc.disk|
    ensures Volume(mc.disk) && ScanLog(crc, mc.disk) == Scanned(mc.mem.logged, false)
    ensures forall i :: 0 <= i < |mc.mem.logged| ==> HeaderAt(mc.disk, i)[REC_EPOCH] == mc.mem.epoch
    ensures mc.mem.ptr % 2 == 0 && mc.mem.ptr <= 30
    ensures |mc.ideal.durable| == |mc.disk|
    ensures Content(lba, mc.disk[lba]) != Content(lba, mc.ideal.durable[lba]) ==>
              exists i :: 0 <= i < |mc.mem.logged| && mc.mem.logged[i].lba == lba
                && Content(lba, mc.mem.logged[i].data) == Content(lba, mc.ideal.durable[lba])
  {
    hide Recoverable, LogHolds, SameOn, Scan, Reaches, Initial;
    RunKeeps(crc, guarded, d, events, mc);
    OpenFacts(crc, guarded, mc.disk, mc.mem, mc.ideal);
    LogIsScanned(crc, mc.disk, mc.mem.epoch, mc.mem.logged);
    if Content(lba, mc.disk[lba]) != Content(lba, mc.ideal.durable[lba]) {
      ChangedIsLogged(guarded, mc.disk, mc.mem.logged, mc.ideal.durable, lba);
    }
  }

  lemma {:induction false} OpenFacts(crc: Checksum, guarded: set<nat>, d: Disk, m: Memory, i: Ideal)
    requires InTransaction(crc, guarded, d, m, i)
    ensures LogHolds(crc, d, m.epoch, m.logged, false) && Distinct(m.logged)
    ensures SameOn(guarded, Rollback(d, m.logged), i.durable)
  {
  }

  lemma {:induction false} LogIsScanned(crc: Checksum, d: Disk, epoch: Word, log: seq<SectorWrite>)
    requires LogHolds(crc, d, epoch, log, false) && Epoch(d) == epoch
    ensures ScanLog(crc, d) == Scanned(log, false)
    ensures forall i :: 0 <= i < |log| ==> HeaderAt(d, i)[REC_EPOCH] == epoch
  {
    ScanLogFinds(crc, d, log, false);
    forall i | 0 <= i < |log|
      ensures HeaderAt(d, i)[REC_EPOCH] == epoch
    {
      assert HeaderAt(d, i) == PreHeader(log[i].lba, epoch, crc(log[i].data));
    }
  }

  lemma {:induction false} ChangedIsLogged(guarded: set<nat>, d: Disk, log: seq<SectorWrite>, durable: Disk, lba: nat)
    requires Distinct(log) && SameOn(guarded, Rollback(d, log), durable)
    requires lba in guarded && lba < |d| && Content(lba, d[lba]) != Content(lba, durable[lba])
    ensures exists i :: 0 <= i < |log| && log[i].lba == lba && Content(lba, log[i].data) == Content(lba, durable[lba])
  {
    RollbackCases(d, log, lba);
  }

  /** A power cut right after the commit record keeps the transaction exactly
      when the record carries a checksum replay trusts, or nothing was logged,
      or there was nothing to tell apart. */
  lemma {:induction false} CommitRecordKeeps(crc: Checksum, guarded: set<nat>, mc: Machine)
    requires Inv(crc, guarded, mc) && mc.mem.open
    ensures var after := Next(crc, mc, Cut(Commit, 1));
      && Volume(after.disk)
      && (SameOn(guarded, Recovered(crc, after.disk), mc.ideal.current) <==>
            crc(CommitBody(mc.mem.epoch, |mc.mem.logged|)) != 0
            || |mc.mem.logged| == 0
            || SameOn(guarded, mc.ideal.durable, mc.ideal.current))
  {
    var after := Next(crc, mc, Cut(Commit, 1));
    CutKeeps(crc, guarded, mc, Commit, 1);
    AlwaysRecoverable(crc, guarded, after);
    RecoversTo(crc, guarded, after.disk, after.ideal.durable);
  }
}
