/** What replay does to any image, said on its sectors: which logs it refuses, what it
    takes back, and the superblock it leaves. */
module JournalScan {
  import opened Sectors
  import opened JournalProtocol
  import opened JournalSafety
  import opened JournalRuns

  // ----- the log as it lies on disk ----------------------------------------------

  ghost predicate OfThisEpoch(d: Disk, k: nat, kind: Word)
    requires Volume(d) && k < JRNL_SLOTS
  {
    var header := d[JRNL_LBA + 2 * k];
    && header[REC_MAGIC] == JRNL_MAGIC
    && header[REC_TYPE] == kind
    && header[REC_EPOCH] == d[SUPERBLOCK_LBA][SB_EPOCH]
  }

  /** The journal area starts with exactly `n` pre-image records of the current epoch. */
  ghost predicate RecordsOnDisk(d: Disk, n: nat)
    requires Volume(d)
  {
    && n <= JRNL_SLOTS
    && (forall k :: 0 <= k < n ==> OfThisEpoch(d, k, T_PRE))
    && (n < JRNL_SLOTS ==> !OfThisEpoch(d, n, T_PRE))
  }

  /** The stored sum is absent or that of the payload. */
  ghost predicate SumHolds(crc: Checksum, d: Disk, k: nat)
    requires Volume(d) && k < JRNL_SLOTS
  {
    var sum := d[JRNL_LBA + 2 * k][PRE_CRC];
    sum == 0 || sum == crc(d[JRNL_LBA + 2 * k + 1])
  }

  ghost predicate CommitBelieved(crc: Checksum, d: Disk, n: nat)
    requires Volume(d) && n <= JRNL_SLOTS
  {
    && n < JRNL_SLOTS && OfThisEpoch(d, n, T_COMMIT)
    && var header := d[JRNL_LBA + 2 * n];
       if header[COMMIT_CRC] == 0 then header[COMMIT_RECORDS] == 0
       else header[COMMIT_RECORDS] == n && header[COMMIT_CRC] == crc(header[COMMIT_CRC := 0])
  }

  ghost function RecordAt(d: Disk, k: nat): SectorWrite
    requires Volume(d) && k < JRNL_SLOTS
  {
    SectorWrite(d[JRNL_LBA + 2 * k][REC_TARGET], d[JRNL_LBA + 2 * k + 1])
  }

  ghost predicate Collected(crc: Checksum, d: Disk, undo: seq<SectorWrite>)
    requires Volume(d)
  {
    && |undo| <= JRNL_SLOTS
    && forall k :: 0 <= k < |undo| ==> undo[k] == RecordAt(d, k) && OfThisEpoch(d, k, T_PRE) && SumHolds(crc, d, k)
  }

  /** What the scan says, in terms of those sectors. */
  ghost predicate ScanSays(crc: Checksum, d: Disk, n: nat, r: ScanResult)
    requires Volume(d) && n <= JRNL_SLOTS
  {
    match r
    case Torn(slot) => slot < n && !SumHolds(crc, d, slot) && forall k :: 0 <= k < slot ==> SumHolds(crc, d, k)
    case Scanned(undo, committed) =>
      && |undo| == n
      && (forall k :: 0 <= k < n ==> undo[k] == RecordAt(d, k) && SumHolds(crc, d, k))
      && (committed <==> CommitBelieved(crc, d, n))
  }

  lemma {:induction false} ScanStep(crc: Checksum, d: Disk, undo: seq<SectorWrite>) returns (n: nat)
    requires Volume(d) && Collected(crc, d, undo)
    ensures RecordsOnDisk(d, n) && n >= |undo| && ScanSays(crc, d, n, Scan(crc, d, Epoch(d), undo))
    decreases JRNL_SLOTS - |undo|
  {
    var k := |undo|;
    n := k;
    if k < JRNL_SLOTS && OfThisEpoch(d, k, T_PRE) {
      if SumHolds(crc, d, k) {
        n := ScanStep(crc, d, undo + [RecordAt(d, k)]);
      } else {
        n := PrefixEnds(d, k + 1);
      }
    }
  }

  /** The records go on for some number of slots. */
  lemma {:induction false} PrefixEnds(d: Disk, k: nat) returns (n: nat)
    requires Volume(d) && k <= JRNL_SLOTS && forall i :: 0 <= i < k ==> OfThisEpoch(d, i, T_PRE)
    ensures n >= k && RecordsOnDisk(d, n)
    decreases JRNL_SLOTS - k
  {
    if k < JRNL_SLOTS && OfThisEpoch(d, k, T_PRE) {
      n := PrefixEnds(d, k + 1);
    } else {
      n := k;
    }
  }

  /** On every image the scan refuses exactly when one of the records before the first
      sector that is none carries a sum that is not its payload's, and names the first such
      record; otherwise it collects all of them in order, and believes the commit record
      after them exactly when its sum and its count are right, or both are zero. */
  lemma {:induction false} ScanExact(crc: Checksum, d: Disk) returns (n: nat)
    requires Volume(d)
    ensures RecordsOnDisk(d, n)
    ensures ScanLog(crc, d).Torn? <==> exists k :: 0 <= k < n && !SumHolds(crc, d, k)
    ensures ScanSays(crc, d, n, ScanLog(crc, d))
  {
    n := ScanStep(crc, d, []);
  }

  // ----- what replay leaves ---------------------------------------------------------

  /** The superblock of recovery: clean, its log position zero, its checksum true where it
      has one, and every other word as it was. */
  ghost predicate Cleansed(crc: Checksum, sb: Sector, s: Sector) {
    && s[SB_STATE] == 0 && s[SB_PTR] == 0
    && (sb[SB_MAGIC] == HBFS4_MAGIC ==> s[SB_CHECKSUM] == crc(s[SB_CHECKSUM := 0]))
    && (sb[SB_MAGIC] != HBFS4_MAGIC ==> s[SB_CHECKSUM] == sb[SB_CHECKSUM])
    && forall w :: 0 <= w < SECTOR_WORDS && w !in {SB_STATE, SB_PTR, SB_CHECKSUM} ==> s[w] == sb[w]
  }

  lemma {:induction false} ClearedIsCleansed(crc: Checksum, sb: Sector)
    ensures Cleansed(crc, sb, Cleared(crc, sb))
  {
    var s := Cleared(crc, sb);
    if sb[SB_MAGIC] == HBFS4_MAGIC {
      assert s[SB_CHECKSUM := 0] == sb[SB_STATE := 0][SB_PTR := 0][SB_CHECKSUM := 0];
    }
  }

  /** The oldest pre-image of a sector, or what it holds when there is none. */
  ghost predicate TakenBack(d: Disk, n: nat, lba: nat, s: Sector)
    requires Volume(d) && n <= JRNL_SLOTS && lba < |d|
  {
    && ((forall k :: 0 <= k < n ==> RecordAt(d, k).lba != lba) ==> s == d[lba])
    && (forall k :: 0 <= k < n && RecordAt(d, k).lba == lba && (forall j :: 0 <= j < k ==> RecordAt(d, j).lba != lba) ==>
          s == RecordAt(d, k).data)
  }

  /** The last write of a sector in a list is the one that stays. */
  lemma {:induction false} LastStays(d: Disk, ws: seq<SectorWrite>, i: nat)
    requires i < |ws| && ws[i].lba < |d| && forall j :: i < j < |ws| ==> ws[j].lba != ws[i].lba
    ensures Apply(d, ws)[ws[i].lba] == ws[i].data
    decreases |ws|
  {
    if i == 0 {
      ApplyElsewhere(Put(d, ws[0]), ws[1..], ws[0].lba);
    } else {
      LastStays(Put(d, ws[0]), ws[1..], i - 1);
    }
  }

  lemma {:induction false} UndoneTakesBack(d: Disk, undo: seq<SectorWrite>, lba: nat)
    requires Volume(d) && |undo| <= JRNL_SLOTS && lba < |d|
    requires forall k :: 0 <= k < |undo| ==> undo[k] == RecordAt(d, k)
    ensures TakenBack(d, |undo|, lba, Apply(d, Reverse(undo))[lba])
  {
    hide Apply;
    var back := Reverse(undo);
    if forall k :: 0 <= k < |undo| ==> RecordAt(d, k).lba != lba {
      ApplyElsewhere(d, back, lba);
    }
    forall k | 0 <= k < |undo| && RecordAt(d, k).lba == lba && (forall j :: 0 <= j < k ==> RecordAt(d, j).lba != lba)
      ensures Apply(d, back)[lba] == RecordAt(d, k).data
    {
      assert back[|undo| - 1 - k] == undo[k];
      LastStays(d, back, |undo| - 1 - k);
    }
  }

  /** From every dirty image whose scan succeeds replay leaves each sector but the superblock
      as it is when the commit was believed, and else with the oldest pre-image logged for
      it; the superblock is treated the same and then cleansed. */
  lemma {:induction false} ReplayExact(crc: Checksum, d: Disk, lba: nat) returns (n: nat, old_: Sector)
    requires Volume(d) && State(d) != 0 && ScanLog(crc, d).Scanned? && lba < |d|
    ensures RecordsOnDisk(d, n)
    ensures if CommitBelieved(crc, d, n) then old_ == d[lba] else TakenBack(d, n, lba, old_)
    ensures var s := Recovered(crc, d)[lba]; if lba == SUPERBLOCK_LBA then Cleansed(crc, old_, s) else s == old_
  {
    hide Apply, Scan, Cleared, TakenBack, Cleansed, CommitBelieved;
    n := ScanExact(crc, d);
    var scan := ScanLog(crc, d);
    var back := if scan.committed then [] else Reverse(scan.undo);
    var u := Apply(d, back);
    old_ := u[lba];
    ApplyNothing(d);
    UndoneTakesBack(d, scan.undo, lba);
    var w := SectorWrite(SUPERBLOCK_LBA, Cleared(crc, u[SUPERBLOCK_LBA]));
    ApplyAppend(d, back, [w]);
    ApplyOne(u, w);
    ClearedIsCleansed(crc, u[SUPERBLOCK_LBA]);
  }

  /** A clean image, and one whose log is torn, stay as they are. */
  lemma {:induction false} ReplayLeavesAlone(crc: Checksum, d: Disk)
    requires Volume(d) && (State(d) == 0 || ScanLog(crc, d).Torn?)
    ensures Recovered(crc, d) == d
  {
    ApplyNothing(d);
  }
}
