/** Replay may be interrupted and started again: the outcome is the same disk. */
module JournalRestart {
  import opened Sectors
  import opened JournalProtocol
  import opened JournalSafety
  import opened JournalTheorems

  /** What replay needs of a dirty disk: the scan succeeds, nothing it would write
      back is aimed at the journal, and a pre-image of the superblock is still
      dirty and of the same epoch. Every disk a run reaches is such a disk. */
  ghost predicate Replayable(crc: Checksum, d: Disk) {
    Volume(d) &&
    (State(d) != 0 ==>
       var r := ScanLog(crc, d);
       && r.Scanned?
       && (forall i :: 0 <= i < |r.undo| ==> !InJournal(r.undo[i].lba))
       && (forall i :: 0 <= i < |r.undo| && r.undo[i].lba == SUPERBLOCK_LBA ==>
             r.undo[i].data[SB_STATE] != 0 && r.undo[i].data[SB_EPOCH] == Epoch(d)))
  }

  /** The scan reads only the journal area. */
  lemma {:induction false} ScanFrame(crc: Checksum, d: Disk, d': Disk, epoch: Word, undo: seq<SectorWrite>)
    requires Volume(d) && SameJournal(d, d')
    ensures Scan(crc, d', epoch, undo) == Scan(crc, d, epoch, undo)
    decreases JRNL_SLOTS - |undo|
  {
    if |undo| < JRNL_SLOTS {
      assert InJournal(JRNL_LBA + 2 * |undo|) && InJournal(JRNL_LBA + 2 * |undo| + 1);
      var header := HeaderAt(d, |undo|);
      assert header == HeaderAt(d', |undo|) && PayloadAt(d, |undo|) == PayloadAt(d', |undo|);
      ScanFrame(crc, d, d', epoch, undo + [SectorWrite(header[REC_TARGET], PayloadAt(d, |undo|))]);
    }
  }

  /** Undoing part of the log leaves the log and the dirty mark. */
  lemma {:induction false} UndoFrame(crc: Checksum, d: Disk, undo: seq<SectorWrite>, k: nat)
    requires Replayable(crc, d) && State(d) != 0 && undo == ScanLog(crc, d).undo && k <= |undo|
    ensures var d' := Apply(d, Reverse(undo)[..k]);
      && SameJournal(d, d') && State(d') != 0 && Epoch(d') == Epoch(d)
      && ScanLog(crc, d') == ScanLog(crc, d)
  {
    hide Scan;
    var back := Reverse(undo)[..k];
    var d' := Apply(d, back);
    forall lba: nat | InJournal(lba) && lba < |d|
      ensures d'[lba] == d[lba]
    {
      ApplyElsewhere(d, back, lba);
    }
    SuperblockMarks(d, back);
    ScanFrame(crc, d, d', Epoch(d), []);
  }

  lemma {:induction false} SuperblockMarks(d: Disk, ws: seq<SectorWrite>)
    requires |d| > SUPERBLOCK_LBA && State(d) != 0
    requires forall i :: 0 <= i < |ws| && ws[i].lba == SUPERBLOCK_LBA ==>
               ws[i].data[SB_STATE] != 0 && ws[i].data[SB_EPOCH] == Epoch(d)
    ensures State(Apply(d, ws)) != 0 && Epoch(Apply(d, ws)) == Epoch(d)
    decreases |ws|
  {
    if ws != [] {
      SuperblockMarks(Put(d, ws[0]), ws[1..]);
    }
  }

  /** Cut after any number of its writes and started again, replay ends on exactly
      the disk one uninterrupted replay leaves, the superblock included. */
  lemma {:induction false} ReplayRestarts(crc: Checksum, d: Disk, k: nat)
    requires Replayable(crc, d)
    ensures var d' := Apply(d, Prefix(ReplayWrites(crc, d), k));
      Replayable(crc, d') && Recovered(crc, d') == Recovered(crc, d)
  {
    hide Scan;
    var ws := ReplayWrites(crc, d);
    var r := ScanLog(crc, d);
    if State(d) == 0 {
      assert Prefix(ws, k) == [];
    } else {
      var back := if r.committed then [] else Reverse(r.undo);
      if k < |ws| {
        var d' := Apply(d, back[..k]);
        assert Prefix(ws, k) == back[..k];
        if r.committed {
          assert back[..k] == [];
        } else {
          UndoFrame(crc, d, r.undo, k);
        }
        ApplyAfterPrefix(d, back, k);
        assert ReplayWrites(crc, d') == ws;
        assert ws[..k] == back[..k];
        ApplyAfterPrefix(d, ws, k);
      } else {
        assert Prefix(ws, k) == ws;
        RecoveredIsClean(crc, d);
        assert ReplayWrites(crc, Recovered(crc, d)) == [];
      }
    }
  }

  lemma {:induction false} RecoveredIsClean(crc: Checksum, d: Disk)
    requires Replayable(crc, d)
    ensures State(Recovered(crc, d)) == 0
  {
    hide Scan;
    if State(d) != 0 {
      var r := ScanLog(crc, d);
      var back := if r.committed then [] else Reverse(r.undo);
      var w := SectorWrite(SUPERBLOCK_LBA, Cleared(crc, Apply(d, back)[SUPERBLOCK_LBA]));
      ApplyAppend(d, back, [w]);
      assert Apply(Apply(d, back), [w]) == Put(Apply(d, back), w);
      ClearedMarks(crc, Apply(d, back)[SUPERBLOCK_LBA]);
    }
  }

  /** Any number of interrupted replays. */
  function Reruns(crc: Checksum, d: Disk, cuts: seq<nat>): (r: Disk)
    requires |d| >= JRNL_LBA + JRNL_SECTS
    ensures |r| == |d|
    decreases |cuts|
  {
    if cuts == [] then d
    else Reruns(crc, Apply(d, Prefix(ReplayWrites(crc, d), cuts[0])), cuts[1..])
  }

  lemma {:induction false} ReplayConverges(crc: Checksum, d: Disk, cuts: seq<nat>)
    requires Replayable(crc, d)
    ensures Recovered(crc, Reruns(crc, d, cuts)) == Recovered(crc, d)
    decreases |cuts|
  {
    hide Scan;
    if cuts != [] {
      ReplayRestarts(crc, d, cuts[0]);
      ReplayConverges(crc, Apply(d, Prefix(ReplayWrites(crc, d), cuts[0])), cuts[1..]);
    }
  }

  /** Every disk a run reaches can be replayed, however often it is interrupted. */
  lemma {:induction false} ReachedIsReplayable(crc: Checksum, guarded: set<nat>, d: Disk, events: seq<Event>, mc: Machine)
    requires Initial(guarded, d) && Reaches(crc, guarded, d, events, mc)
    ensures Replayable(crc, mc.disk)
  {
    RunKeeps(crc, guarded, d, events, mc);
    AlwaysRecoverable(crc, guarded, mc);
    var log, commit :| Recoverable(crc, guarded, mc.disk, mc.ideal.durable, log, commit);
    ScanLogFinds(crc, mc.disk, log, commit);
  }
}
