/** What each operation of the journal does when it runs to its end, said on the sectors it
    leaves: which calls it refuses, and which words it writes where. */
module JournalEffects {
  import opened Sectors
  import opened JournalProtocol
  import opened JournalSafety
  import opened JournalRuns

  /** Every sector but the listed ones is as it was. */
  ghost predicate OnlyChanged(d: Disk, d': Disk, lbas: set<nat>) {
    |d'| == |d| && forall l :: 0 <= l < |d| && l !in lbas ==> d'[l] == d[l]
  }

  /** A superblock with new journal fields: everything else is kept, and a checksum is true. */
  ghost predicate Flushed(crc: Checksum, sb: Sector, s: Sector, state: Word, epoch: Word) {
    && s[SB_STATE] == state && s[SB_PTR] == 0 && s[SB_EPOCH] == epoch
    && (sb[SB_MAGIC] == HBFS4_MAGIC ==> s[SB_CHECKSUM] == crc(s[SB_CHECKSUM := 0]))
    && (sb[SB_MAGIC] != HBFS4_MAGIC ==> s[SB_CHECKSUM] == sb[SB_CHECKSUM])
    && forall w :: 0 <= w < SECTOR_WORDS && w !in {SB_STATE, SB_PTR, SB_EPOCH, SB_CHECKSUM} ==> s[w] == sb[w]
  }

  lemma {:induction false} StampFlushes(crc: Checksum, m: Memory, sb: Sector)
    requires m.ptr == 0
    ensures Flushed(crc, sb, StampedSuperblock(crc, m, sb), if m.open then 1 else 0, m.epoch)
  {
    hide StampedSuperblock;
    StampedMarks(crc, m, sb);
    var s := StampedSuperblock(crc, m, sb);
    forall w | 0 <= w < SECTOR_WORDS && w !in {SB_STATE, SB_PTR, SB_EPOCH, SB_CHECKSUM}
      ensures s[w] == sb[w]
    {
      assert Strip(s)[w] == s[w] && Strip(sb)[w] == sb[w];
    }
  }

  /** `begin` is refused exactly while a transaction is open or the volume is dirty; else it
      counts the epoch on by one, and writes the dirty superblock and nothing more. */
  lemma {:induction false} BeginEffect(crc: Checksum, guarded: set<nat>, mc: Machine)
    requires Inv(crc, guarded, mc)
    ensures var after := Next(crc, mc, Do(Begin));
      var epoch := (Epoch(mc.disk) + 1) % 0x1_0000_0000;
      if mc.mem.open || State(mc.disk) != 0 then
        Ask(crc, mc.mem, mc.disk, Begin) == Refused(if mc.mem.open then AlreadyOpen else Dirty) && after == mc
      else
        && after.mem == Memory(true, epoch, 0, [])
        && OnlyChanged(mc.disk, after.disk, {SUPERBLOCK_LBA})
        && Flushed(crc, mc.disk[SUPERBLOCK_LBA], after.disk[SUPERBLOCK_LBA], 1, epoch)
  {
    hide Apply, StampedSuperblock, Inv;
    RunningHolds(crc, guarded, mc);
    var m' := Memory(true, NextEpoch(Epoch(mc.disk)), 0, []);
    ApplyOne(mc.disk, SectorWrite(SUPERBLOCK_LBA, StampedSuperblock(crc, m', mc.disk[SUPERBLOCK_LBA])));
    StampFlushes(crc, m', mc.disk[SUPERBLOCK_LBA]);
  }

  lemma {:induction false} RunningHolds(crc: Checksum, guarded: set<nat>, mc: Machine)
    requires Inv(crc, guarded, mc)
    ensures Running(mc) && (mc.mem.open ==> mc.mem.ptr == 2 * |mc.mem.logged|)
  {
  }

  /** Whether a sector can be logged, or is already. */
  ghost predicate Loggable(mc: Machine, target: Word) {
    mc.mem.open && (Logged(mc.mem, target) || (|mc.mem.logged| < JRNL_SLOTS - 1 && target < |mc.disk|))
  }

  /** A record as it lies on disk: header and payload. */
  ghost predicate RecordLies(crc: Checksum, d: Disk, k: nat, target: Word, epoch: Word, pre: Sector)
    requires Volume(d) && k < JRNL_SLOTS
  {
    var header := d[JRNL_LBA + 2 * k];
    && header[REC_MAGIC] == JRNL_MAGIC && header[REC_TYPE] == T_PRE && header[REC_TARGET] == target
    && header[REC_EPOCH] == epoch && header[PRE_CRC] == crc(pre)
    && d[JRNL_LBA + 2 * k + 1] == pre
  }

  /** `log` is refused exactly when no transaction is open, or the sector is new and there are
      fifteen records already or no such sector; a sector logged before costs nothing; else
      one record with its old contents and their sum is added. */
  lemma {:induction false} LogEffect(crc: Checksum, guarded: set<nat>, mc: Machine, target: Word)
    requires Inv(crc, guarded, mc)
    ensures var after := Next(crc, mc, Do(Log(target)));
      var n := |mc.mem.logged|;
      && (Ask(crc, mc.mem, mc.disk, Log(target)).Refused? <==> !Loggable(mc, target))
      && (!Loggable(mc, target) ==>
            Ask(crc, mc.mem, mc.disk, Log(target)) ==
            Refused(if !mc.mem.open then NotOpen else if n == JRNL_SLOTS - 1 then JournalFull else ShortRead))
      && (!Loggable(mc, target) || Logged(mc.mem, target) ==> after == mc)
      && (Loggable(mc, target) && !Logged(mc.mem, target) ==>
            && after.mem == mc.mem.(ptr := 2 * n + 2, logged := mc.mem.logged + [SectorWrite(target, mc.disk[target])])
            && OnlyChanged(mc.disk, after.disk, {JRNL_LBA + 2 * n, JRNL_LBA + 2 * n + 1})
            && RecordLies(crc, after.disk, n, target, mc.mem.epoch, mc.disk[target]))
  {
    hide Inv, Apply;
    RunningHolds(crc, guarded, mc);
    ApplyNothing(mc.disk);
    if Loggable(mc, target) && !Logged(mc.mem, target) {
      var pre := mc.disk[target];
      ApplyTwo(mc.disk, SectorWrite(JRNL_LBA + mc.mem.ptr + 1, pre),
               SectorWrite(JRNL_LBA + mc.mem.ptr, PreHeader(target, mc.mem.epoch, crc(pre))));
    }
  }

  /** A journalled write is refused exactly when its sector cannot be logged; else it is the
      log of the sector followed by the new contents. */
  lemma {:induction false} WriteEffect(crc: Checksum, guarded: set<nat>, mc: Machine, target: Word, data: Sector)
    requires Inv(crc, guarded, mc)
    ensures var logged, after := Next(crc, mc, Do(Log(target))), Next(crc, mc, Do(Write(target, data)));
      && (Ask(crc, mc.mem, mc.disk, Write(target, data)).Refused? <==> !Loggable(mc, target))
      && (!Loggable(mc, target) ==> after == mc)
      && (Loggable(mc, target) ==>
            && after.mem == logged.mem
            && OnlyChanged(logged.disk, after.disk, {target})
            && (target < |mc.disk| ==> after.disk[target] == data))
  {
    hide Inv, Apply, PreHeader;
    RunningHolds(crc, guarded, mc);
    LogEffect(crc, guarded, mc, target);
    var q := LogRequest(crc, mc.mem, mc.disk, target);
    if q.Request? {
      ApplyAppend(mc.disk, q.writes, [SectorWrite(target, data)]);
      ApplyOne(Apply(mc.disk, q.writes), SectorWrite(target, data));
    }
  }

  /** An unjournalled write is never refused and changes its one sector. */
  lemma {:induction false} WriteDataEffect(crc: Checksum, guarded: set<nat>, mc: Machine, lba: Word, data: Sector)
    requires Inv(crc, guarded, mc)
    ensures var after := Next(crc, mc, Do(WriteData(lba, data)));
      && !Ask(crc, mc.mem, mc.disk, WriteData(lba, data)).Refused?
      && after.mem == mc.mem && OnlyChanged(mc.disk, after.disk, {lba})
      && (lba < |mc.disk| ==> after.disk[lba] == data)
  {
    hide Inv, Apply;
    RunningHolds(crc, guarded, mc);
    ApplyOne(mc.disk, SectorWrite(lba, data));
  }

  /** `commit` and `abort` are never refused, and do nothing without a transaction. A commit
      writes the record that counts the log and carries its own sum, then the clean
      superblock; no other sector changes. */
  lemma {:induction false} CommitEffect(crc: Checksum, guarded: set<nat>, mc: Machine)
    requires Inv(crc, guarded, mc)
    ensures var after := Next(crc, mc, Do(Commit));
      if !mc.mem.open then after == mc
      else
        var n := |mc.mem.logged|;
        && after.mem == mc.mem.(open := false, ptr := 0)
        && OnlyChanged(mc.disk, after.disk, {JRNL_LBA + 2 * n, SUPERBLOCK_LBA})
        && Flushed(crc, mc.disk[SUPERBLOCK_LBA], after.disk[SUPERBLOCK_LBA], 0, mc.mem.epoch)
        && var header := after.disk[JRNL_LBA + 2 * n];
           && header[REC_MAGIC] == JRNL_MAGIC && header[REC_TYPE] == T_COMMIT && header[REC_EPOCH] == mc.mem.epoch
           && header[COMMIT_RECORDS] == n && header[COMMIT_CRC] == crc(header[COMMIT_CRC := 0])
  {
    hide Inv, Apply, StampedSuperblock;
    RunningHolds(crc, guarded, mc);
    if mc.mem.open {
      var n, m' := |mc.mem.logged|, mc.mem.(ptr := 0, open := false);
      ApplyTwo(mc.disk, SectorWrite(JRNL_LBA + mc.mem.ptr, CommitHeader(crc, mc.mem.epoch, n)),
               SectorWrite(SUPERBLOCK_LBA, StampedSuperblock(crc, m', mc.disk[SUPERBLOCK_LBA])));
      StampFlushes(crc, m', mc.disk[SUPERBLOCK_LBA]);
      assert CommitHeader(crc, mc.mem.epoch, n)[COMMIT_CRC := 0] == CommitBody(mc.mem.epoch, n);
    }
  }

  /** An abort puts every logged sector back as it was logged, then writes the clean
      superblock. */
  lemma {:induction false} AbortEffect(crc: Checksum, guarded: set<nat>, mc: Machine, lba: nat) returns (old_: Sector)
    requires Inv(crc, guarded, mc) && lba < |mc.disk|
    ensures var after := Next(crc, mc, Do(Abort));
      if !mc.mem.open then after.disk == mc.disk && after.mem == mc.mem
      else
        && after.mem == mc.mem.(open := false, ptr := 0)
        && (forall k :: 0 <= k < |mc.mem.logged| && mc.mem.logged[k].lba == lba ==> old_ == mc.mem.logged[k].data)
        && (!Logged(mc.mem, lba) ==> old_ == mc.disk[lba])
        && if lba == SUPERBLOCK_LBA then Flushed(crc, old_, after.disk[lba], 0, mc.mem.epoch) else after.disk[lba] == old_
  {
    hide Inv, Apply, StampedSuperblock, Flushed;
    RunningHolds(crc, guarded, mc);
    ApplyNothing(mc.disk);
    old_ := mc.disk[lba];
    if mc.mem.open {
      LoggedApart(crc, guarded, mc);
      var back, m' := Reverse(mc.mem.logged), mc.mem.(ptr := 0, open := false);
      var u := Apply(mc.disk, back);
      var w := SectorWrite(SUPERBLOCK_LBA, StampedSuperblock(crc, m', u[SUPERBLOCK_LBA]));
      ApplyAppend(mc.disk, back, [w]);
      ApplyOne(u, w);
      StampFlushes(crc, m', u[SUPERBLOCK_LBA]);
      PutBackLands(mc.disk, mc.mem.logged, lba);
      old_ := u[lba];
    }
  }

  lemma {:induction false} LoggedApart(crc: Checksum, guarded: set<nat>, mc: Machine)
    requires Inv(crc, guarded, mc) && mc.mem.open
    ensures Distinct(mc.mem.logged)
  {
  }

  lemma {:induction false} PutBackLands(d: Disk, log: seq<SectorWrite>, lba: nat)
    requires Distinct(log) && lba < |d|
    ensures forall k :: 0 <= k < |log| && log[k].lba == lba ==> Apply(d, Reverse(log))[lba] == log[k].data
    ensures (forall k :: 0 <= k < |log| ==> log[k].lba != lba) ==> Apply(d, Reverse(log))[lba] == d[lba]
  {
    hide Apply;
    var back := Reverse(log);
    forall k | 0 <= k < |log| && log[k].lba == lba
      ensures Apply(d, back)[lba] == log[k].data
    {
      assert back[|log| - 1 - k] == log[k];
      ApplyDistinct(d, back, |log| - 1 - k);
    }
    if forall k :: 0 <= k < |log| ==> log[k].lba != lba {
      ApplyElsewhere(d, back, lba);
    }
  }
}
