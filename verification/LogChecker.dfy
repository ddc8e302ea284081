/** The second reader of the log: the checker's pass over the journal area. */
module LogChecker {
  import opened Sectors
  import opened JournalProtocol
  import opened JournalSafety
  import opened JournalTheorems
  import opened JournalScan

  datatype Report = Report(errors: nat, warnings: nat, records: nat, committed: bool)

  /** Geometry the checker takes from the superblock. */
  datatype Geometry = Geometry(v4: bool, epoch: Word, low: nat, high: nat)

  function CommitErrors(crc: Checksum, header: Sector, records: nat): nat {
    (if header[COMMIT_CRC] != 0 && crc(header[COMMIT_CRC := 0]) != header[COMMIT_CRC] then 1 else 0)
    + (if header[COMMIT_RECORDS] != records then 1 else 0)
  }

  function RecordErrors(crc: Checksum, vol: Geometry, header: Sector, payload: Sector): nat {
    (if vol.low <= header[REC_TARGET] < vol.high then 0 else 1)
    + (if header[PRE_CRC] != 0 && crc(payload) != header[PRE_CRC] then 1 else 0)
  }

  /** The checker's loop, as a recursive definition. The last header sector has no
      payload after it inside the journal area; the sector read is the next one. */
  function Check(crc: Checksum, d: Disk, vol: Geometry, index: nat, sofar: Report): Report
    requires |d| > JRNL_LBA + JRNL_SECTS
    decreases JRNL_SECTS - index
  {
    if index >= JRNL_SECTS then sofar
    else
      var header := d[JRNL_LBA + index];
      if !Current(header, vol.epoch) then sofar
      else if header[REC_TYPE] == T_COMMIT then
        sofar.(committed := true,
               errors := sofar.errors + if vol.v4 then CommitErrors(crc, header, sofar.records) else 0)
      else if header[REC_TYPE] != T_PRE then
        Check(crc, d, vol, index + 1, sofar.(warnings := sofar.warnings + 1))
      else
        Check(crc, d, vol, index + 2,
              sofar.(records := sofar.records + 1,
                     errors := sofar.errors + RecordErrors(crc, vol, header, d[JRNL_LBA + index + 1])))
  }

  method CheckJournal(crc: Checksum, d: Disk, vol: Geometry) returns (r: Report)
    requires |d| > JRNL_LBA + JRNL_SECTS
    ensures r == Check(crc, d, vol, 0, Report(0, 0, 0, false))
  {
    var index := 0;
    r := Report(0, 0, 0, false);
    while index < JRNL_SECTS
      invariant Check(crc, d, vol, index, r) == Check(crc, d, vol, 0, Report(0, 0, 0, false))
      decreases JRNL_SECTS - index
    {
      var header := d[JRNL_LBA + index];
      if header[REC_MAGIC] != JRNL_MAGIC {
        return;
      }
      if header[REC_EPOCH] != vol.epoch {
        return;
      }
      if header[REC_TYPE] == T_COMMIT {
        r := r.(committed := true);
        if vol.v4 {
          r := r.(errors := r.errors + CommitErrors(crc, header, r.records));
        }
        return;
      }
      if header[REC_TYPE] != T_PRE {
        r := r.(warnings := r.warnings + 1);
        index := index + 1;
      } else {
        r := r.(records := r.records + 1,
                errors := r.errors + RecordErrors(crc, vol, header, d[JRNL_LBA + index + 1]));
        index := index + 2;
      }
    }
  }

  function Outside(vol: Geometry, log: seq<SectorWrite>): nat {
    if log == [] then 0
    else Outside(vol, log[..|log| - 1]) + if vol.low <= log[|log| - 1].lba < vol.high then 0 else 1
  }

  lemma {:induction false} NoneOutside(vol: Geometry, log: seq<SectorWrite>)
    ensures Outside(vol, log) == 0 <==> forall i :: 0 <= i < |log| ==> vol.low <= log[i].lba < vol.high
    decreases |log|
  {
    if log != [] {
      var front := log[..|log| - 1];
      NoneOutside(vol, front);
      assert forall i :: 0 <= i < |front| ==> front[i] == log[i];
    }
  }

  lemma {:induction false} CheckFinds(crc: Checksum, d: Disk, vol: Geometry, log: seq<SectorWrite>, commit: bool, n: nat)
    requires |d| > JRNL_LBA + JRNL_SECTS && LogHolds(crc, d, vol.epoch, log, commit) && n <= |log|
    ensures Check(crc, d, vol, 2 * n, Report(Outside(vol, log[..n]), 0, n, false))
         == Report(Outside(vol, log), 0, |log|, commit)
    decreases |log| - n
  {
    hide LogHolds, Check;
    if n < |log| {
      CheckRecord(crc, d, vol, log, commit, n);
      CheckFinds(crc, d, vol, log, commit, n + 1);
    } else {
      CheckEnd(crc, d, vol, log, commit);
    }
  }

  /** One record of the log: counted, its payload sound, its target judged. */
  lemma {:induction false} CheckRecord(crc: Checksum, d: Disk, vol: Geometry, log: seq<SectorWrite>, commit: bool, n: nat)
    requires |d| > JRNL_LBA + JRNL_SECTS && LogHolds(crc, d, vol.epoch, log, commit) && n < |log|
    ensures Check(crc, d, vol, 2 * n, Report(Outside(vol, log[..n]), 0, n, false))
         == Check(crc, d, vol, 2 * (n + 1), Report(Outside(vol, log[..n + 1]), 0, n + 1, false))
  {
    hide LogHolds;
    assert log[..n + 1][..n] == log[..n];
    HeldRecord(crc, d, vol.epoch, log, commit, n);
  }

  lemma {:induction false} HeldRecord(crc: Checksum, d: Disk, epoch: Word, log: seq<SectorWrite>, commit: bool, n: nat)
    requires |d| > JRNL_LBA + JRNL_SECTS && LogHolds(crc, d, epoch, log, commit) && n < |log|
    ensures n < JRNL_SLOTS - 1 && log[n].lba < 0x1_0000_0000
    ensures var header := d[JRNL_LBA + 2 * n];
      && Current(header, epoch) && header[REC_TYPE] == T_PRE
      && header[REC_TARGET] == log[n].lba && header[PRE_CRC] == crc(log[n].data)
    ensures d[JRNL_LBA + 2 * n + 1] == log[n].data
  {
    assert HeaderAt(d, n) == PreHeader(log[n].lba, epoch, crc(log[n].data));
    assert PayloadAt(d, n) == log[n].data;
  }

  /** The end of the log: a commit record, or nothing of this epoch. */
  lemma {:induction false} CheckEnd(crc: Checksum, d: Disk, vol: Geometry, log: seq<SectorWrite>, commit: bool)
    requires |d| > JRNL_LBA + JRNL_SECTS && LogHolds(crc, d, vol.epoch, log, commit)
    ensures Check(crc, d, vol, 2 * |log|, Report(Outside(vol, log[..|log|]), 0, |log|, false))
         == Report(Outside(vol, log), 0, |log|, commit)
  {
    hide LogHolds, CommitHeader, CommitErrors, Outside;
    assert log[..|log|] == log;
    LogEnds(crc, d, vol.epoch, log, commit);
    if commit {
      CommitIsSound(crc, vol.epoch, |log|);
    }
  }

  lemma {:induction false} LogEnds(crc: Checksum, d: Disk, epoch: Word, log: seq<SectorWrite>, commit: bool)
    requires |d| > JRNL_LBA + JRNL_SECTS && LogHolds(crc, d, epoch, log, commit)
    ensures |log| < JRNL_SLOTS
    ensures commit ==> d[JRNL_LBA + 2 * |log|] == CommitHeader(crc, epoch, |log|)
    ensures !commit ==> !Current(d[JRNL_LBA + 2 * |log|], epoch)
  {
    hide CommitHeader, PreHeader, Current;
  }

  lemma {:induction false} CommitIsSound(crc: Checksum, epoch: Word, records: Word)
    ensures var header := CommitHeader(crc, epoch, records);
      && Current(header, epoch) && header[REC_TYPE] == T_COMMIT && CommitErrors(crc, header, records) == 0
  {
    var header := CommitHeader(crc, epoch, records);
    assert header[COMMIT_CRC := 0] == CommitBody(epoch, records);
  }

  /** On every disk a run reaches, the checker counts exactly the pre-images the
      scan of replay collects and reports an error only for a target outside the
      volume; the two agree about the commit, except that replay does not believe
      a commit record whose checksum came out as zero. */
  lemma {:induction false} ReadersAgree(crc: Checksum, guarded: set<nat>, d: Disk, events: seq<Event>, mc: Machine, vol: Geometry)
    requires Initial(guarded, d) && Reaches(crc, guarded, d, events, mc)
    requires |mc.disk| > JRNL_LBA + JRNL_SECTS && vol.epoch == Epoch(mc.disk)
    ensures var r := Check(crc, mc.disk, vol, 0, Report(0, 0, 0, false));
      var scan := ScanLog(crc, mc.disk);
      && scan.Scanned? && r.records == |scan.undo| && r.records < JRNL_SLOTS && r.warnings == 0
      && (r.errors == 0 <==> forall i :: 0 <= i < |scan.undo| ==> vol.low <= scan.undo[i].lba < vol.high)
      && (scan.committed <==> r.committed && Recognised(crc, vol.epoch, r.records))
  {
    RunKeeps(crc, guarded, d, events, mc);
    AlwaysRecoverable(crc, guarded, mc);
    var log, commit :| Recoverable(crc, guarded, mc.disk, mc.ideal.durable, log, commit);
    BothRead(crc, mc.disk, vol, log, commit);
  }

  lemma {:induction false} BothRead(crc: Checksum, d: Disk, vol: Geometry, log: seq<SectorWrite>, commit: bool)
    requires |d| > JRNL_LBA + JRNL_SECTS && vol.epoch == Epoch(d) && LogHolds(crc, d, vol.epoch, log, commit)
    ensures Check(crc, d, vol, 0, Report(0, 0, 0, false)) == Report(Outside(vol, log), 0, |log|, commit)
    ensures ScanLog(crc, d) == Scanned(log, commit && Recognised(crc, vol.epoch, |log|))
    ensures Outside(vol, log) == 0 <==> forall i :: 0 <= i < |log| ==> vol.low <= log[i].lba < vol.high
  {
    assert log[..0] == [];
    CheckFinds(crc, d, vol, log, commit, 0);
    ScanLogFinds(crc, d, log, commit);
    NoneOutside(vol, log);
  }

  // ----- any disk at all ---------------------------------------------------------------

  ghost predicate IsPre(d: Disk, index: nat)
    requires |d| > JRNL_LBA + JRNL_SECTS
  {
    index < JRNL_SECTS && d[JRNL_LBA + index][REC_TYPE] == T_PRE
  }

  /** From a pre-image the checker goes on two sectors further, from another record one. */
  ghost function After(d: Disk, index: nat): nat
    requires |d| > JRNL_LBA + JRNL_SECTS
  {
    if IsPre(d, index) then index + 2 else index + 1
  }

  ghost function NextHeader(d: Disk, at: seq<nat>): nat
    requires |d| > JRNL_LBA + JRNL_SECTS
  {
    if at == [] then 0 else After(d, at[|at| - 1])
  }

  /** A record of the epoch that is no commit. */
  ghost predicate IsRecord(d: Disk, epoch: Word, index: nat)
    requires |d| > JRNL_LBA + JRNL_SECTS
  {
    index < JRNL_SECTS && Current(d[JRNL_LBA + index], epoch) && d[JRNL_LBA + index][REC_TYPE] != T_COMMIT
  }

  /** Places in the journal area that hold records of the epoch, each where the one before
      it says the next one is. */
  ghost predicate Headers(d: Disk, epoch: Word, at: seq<nat>)
    requires |d| > JRNL_LBA + JRNL_SECTS
  {
    forall i :: 0 <= i < |at| ==> HeaderIn(d, epoch, at, i)
  }

  ghost predicate HeaderIn(d: Disk, epoch: Word, at: seq<nat>, i: nat)
    requires |d| > JRNL_LBA + JRNL_SECTS && i < |at|
  {
    IsRecord(d, epoch, at[i]) && at[i] == if i == 0 then 0 else After(d, at[i - 1])
  }

  /** All of them: what follows is a commit record, or nothing of the epoch. */
  ghost predicate AllHeaders(d: Disk, epoch: Word, at: seq<nat>)
    requires |d| > JRNL_LBA + JRNL_SECTS
  {
    Headers(d, epoch, at) && !IsRecord(d, epoch, NextHeader(d, at))
  }

  ghost predicate CommitAt(d: Disk, epoch: Word, index: nat)
    requires |d| > JRNL_LBA + JRNL_SECTS
  {
    index < JRNL_SECTS && Current(d[JRNL_LBA + index], epoch) && d[JRNL_LBA + index][REC_TYPE] == T_COMMIT
  }

  /** How many of them are pre-images. */
  ghost function Pres(d: Disk, at: seq<nat>): nat
    requires |d| > JRNL_LBA + JRNL_SECTS
  {
    if at == [] then 0
    else Pres(d, at[..|at| - 1]) + if IsPre(d, at[|at| - 1]) then 1 else 0
  }

  /** A pre-image with its target in the volume and a sum that is absent or right. */
  ghost predicate RecordGood(crc: Checksum, d: Disk, vol: Geometry, index: nat)
    requires |d| > JRNL_LBA + JRNL_SECTS && index < JRNL_SECTS
  {
    var header := d[JRNL_LBA + index];
    && vol.low <= header[REC_TARGET] < vol.high
    && (header[PRE_CRC] == 0 || header[PRE_CRC] == crc(d[JRNL_LBA + index + 1]))
  }

  ghost predicate CommitGood(crc: Checksum, header: Sector, records: nat) {
    && (header[COMMIT_CRC] == 0 || header[COMMIT_CRC] == crc(header[COMMIT_CRC := 0]))
    && header[COMMIT_RECORDS] == records
  }

  ghost predicate RecordsGood(crc: Checksum, d: Disk, vol: Geometry, at: seq<nat>)
    requires |d| > JRNL_LBA + JRNL_SECTS
  {
    forall i :: 0 <= i < |at| && IsPre(d, at[i]) ==> RecordGood(crc, d, vol, at[i])
  }

  /** The report after some headers. */
  ghost predicate Tallied(crc: Checksum, d: Disk, vol: Geometry, at: seq<nat>, r: Report)
    requires |d| > JRNL_LBA + JRNL_SECTS
  {
    && r.records == Pres(d, at) && r.records + r.warnings == |at| && !r.committed
    && (r.errors == 0 <==> RecordsGood(crc, d, vol, at))
  }

  lemma {:induction false} TallyNext(crc: Checksum, d: Disk, vol: Geometry, at: seq<nat>, r: Report, index: nat) returns (r': Report)
    requires |d| > JRNL_LBA + JRNL_SECTS && IsRecord(d, vol.epoch, index) && Tallied(crc, d, vol, at, r)
    ensures Tallied(crc, d, vol, at + [index], r')
    ensures Check(crc, d, vol, index, r) == Check(crc, d, vol, After(d, index), r')
  {
    hide Pres, RecordsGood;
    var header := d[JRNL_LBA + index];
    PresGrow(d, at, index);
    GoodGrow(crc, d, vol, at, index);
    r' := if IsPre(d, index)
          then r.(records := r.records + 1, errors := r.errors + RecordErrors(crc, vol, header, d[JRNL_LBA + index + 1]))
          else r.(warnings := r.warnings + 1);
  }

  lemma {:induction false} GoodGrow(crc: Checksum, d: Disk, vol: Geometry, at: seq<nat>, index: nat)
    requires |d| > JRNL_LBA + JRNL_SECTS
    ensures RecordsGood(crc, d, vol, at + [index]) <==>
              RecordsGood(crc, d, vol, at) && (IsPre(d, index) ==> RecordGood(crc, d, vol, index))
  {
    hide RecordGood, IsPre;
    var at' := at + [index];
    assert at'[|at|] == index && forall i :: 0 <= i < |at| ==> at'[i] == at[i];
  }

  lemma {:induction false} PresGrow(d: Disk, at: seq<nat>, index: nat)
    requires |d| > JRNL_LBA + JRNL_SECTS
    ensures Pres(d, at + [index]) == Pres(d, at) + if IsPre(d, index) then 1 else 0
  {
    hide IsPre;
    assert (at + [index])[..|at|] == at;
  }

  /** On every disk: the checker counts exactly the pre-images of its epoch and warns once
      for each other record; it sees a commit exactly when one ends the log; and it finds no
      error exactly when every pre-image aims into the volume with a sum that is absent or
      right, and on version 4 the commit record has such a sum and counts the pre-images. */
  lemma {:induction false} CheckExact(crc: Checksum, d: Disk, vol: Geometry) returns (at: seq<nat>)
    requires |d| > JRNL_LBA + JRNL_SECTS
    ensures AllHeaders(d, vol.epoch, at)
    ensures var r := Check(crc, d, vol, 0, Report(0, 0, 0, false));
      && r.records == Pres(d, at) && r.records + r.warnings == |at|
      && (r.committed <==> CommitAt(d, vol.epoch, NextHeader(d, at)))
      && (r.errors == 0 <==>
            && RecordsGood(crc, d, vol, at)
            && (vol.v4 && r.committed ==> CommitGood(crc, d[JRNL_LBA + NextHeader(d, at)], r.records)))
  {
    hide Check;
    var r;
    at, r := CheckFrom(crc, d, vol, [], Report(0, 0, 0, false));
    CheckStops(crc, d, vol, at, r);
  }

  lemma {:induction false} CheckFrom(crc: Checksum, d: Disk, vol: Geometry, at: seq<nat>, r: Report) returns (at': seq<nat>, r': Report)
    requires |d| > JRNL_LBA + JRNL_SECTS && Headers(d, vol.epoch, at) && Tallied(crc, d, vol, at, r)
    ensures AllHeaders(d, vol.epoch, at') && Tallied(crc, d, vol, at', r')
    ensures Check(crc, d, vol, NextHeader(d, at), r) == Check(crc, d, vol, NextHeader(d, at'), r')
    decreases JRNL_SECTS + 2 - NextHeader(d, at)
  {
    hide Check, Tallied, Current, IsPre;
    at', r' := at, r;
    var index := NextHeader(d, at);
    if IsRecord(d, vol.epoch, index) {
      r' := TallyNext(crc, d, vol, at, r, index);
      HeadersGrow(d, vol.epoch, at);
      at', r' := CheckFrom(crc, d, vol, at + [index], r');
    }
  }

  lemma {:induction false} HeadersGrow(d: Disk, epoch: Word, at: seq<nat>)
    requires |d| > JRNL_LBA + JRNL_SECTS && Headers(d, epoch, at) && IsRecord(d, epoch, NextHeader(d, at))
    ensures Headers(d, epoch, at + [NextHeader(d, at)])
  {
    hide IsRecord, After;
    var at' := at + [NextHeader(d, at)];
    forall i | 0 <= i < |at'|
      ensures HeaderIn(d, epoch, at', i)
    {
      assert i < |at| ==> HeaderIn(d, epoch, at, i);
    }
  }

  lemma {:induction false} CheckStops(crc: Checksum, d: Disk, vol: Geometry, at: seq<nat>, r: Report)
    requires |d| > JRNL_LBA + JRNL_SECTS && AllHeaders(d, vol.epoch, at) && Tallied(crc, d, vol, at, r)
    ensures var index := NextHeader(d, at);
      var t := Check(crc, d, vol, index, r);
      && t.records == r.records && t.warnings == r.warnings
      && (t.committed <==> CommitAt(d, vol.epoch, index))
      && (t.errors == 0 <==> r.errors == 0 && (vol.v4 && t.committed ==> CommitGood(crc, d[JRNL_LBA + index], r.records)))
  {
  }

  /** A log that replay refuses is one the checker finds an error in; a commit that replay
      believes is one the checker sees, after exactly the pre-images replay collected. */
  lemma {:induction false} RefusedIsAnError(crc: Checksum, d: Disk, vol: Geometry)
    requires |d| > JRNL_LBA + JRNL_SECTS && vol.epoch == Epoch(d)
    ensures var r := Check(crc, d, vol, 0, Report(0, 0, 0, false));
      var scan := ScanLog(crc, d);
      && (scan.Torn? ==> r.errors > 0)
      && (scan.Scanned? && scan.committed ==> r.committed && r.warnings == 0 && r.records == |scan.undo|)
  {
    hide Check, Scan;
    var n := ScanExact(crc, d);
    var at := CheckExact(crc, d, vol);
    var scan := ScanLog(crc, d);
    PathFollows(d, vol.epoch, at, n);
    if scan.Torn? {
      assert at[scan.slot] == 2 * scan.slot && !RecordGood(crc, d, vol, at[scan.slot]);
    } else if scan.committed {
      PathEnds(d, vol.epoch, at, n);
    }
  }

  lemma {:induction false} PathFollows(d: Disk, epoch: Word, at: seq<nat>, n: nat)
    requires |d| > JRNL_LBA + JRNL_SECTS && AllHeaders(d, epoch, at) && epoch == Epoch(d) && RecordsOnDisk(d, n)
    ensures |at| >= n && forall i :: 0 <= i < n ==> at[i] == 2 * i && OfThisEpoch(d, i, T_PRE)
  {
    if n > 0 {
      PathFirst(d, epoch, at, n);
    }
  }

  lemma {:induction false} PathFirst(d: Disk, epoch: Word, at: seq<nat>, k: nat)
    requires |d| > JRNL_LBA + JRNL_SECTS && AllHeaders(d, epoch, at) && epoch == Epoch(d)
    requires k <= JRNL_SLOTS && forall i :: 0 <= i < k ==> OfThisEpoch(d, i, T_PRE)
    ensures |at| >= k && forall i :: 0 <= i < k ==> at[i] == 2 * i
    decreases k
  {
    if k > 0 {
      PathFirst(d, epoch, at, k - 1);
      assert OfThisEpoch(d, k - 1, T_PRE);
      if k > 1 {
        assert OfThisEpoch(d, k - 2, T_PRE) && at[k - 2] == 2 * (k - 2);
      }
      if |at| >= k {
        assert HeaderIn(d, epoch, at, k - 1);
      }
    }
  }

  lemma {:induction false} PathEnds(d: Disk, epoch: Word, at: seq<nat>, n: nat)
    requires |d| > JRNL_LBA + JRNL_SECTS && AllHeaders(d, epoch, at) && epoch == Epoch(d)
    requires n < JRNL_SLOTS && OfThisEpoch(d, n, T_COMMIT)
    requires |at| >= n && forall i :: 0 <= i < n ==> at[i] == 2 * i && OfThisEpoch(d, i, T_PRE)
    ensures |at| == n && CommitAt(d, epoch, NextHeader(d, at)) && Pres(d, at) == n
  {
    if n > 0 {
      assert OfThisEpoch(d, n - 1, T_PRE) && at[n - 1] == 2 * (n - 1);
    }
    assert |at| > n ==> HeaderIn(d, epoch, at, n);
    forall i | 0 <= i < n
      ensures IsPre(d, at[i])
    {
      assert OfThisEpoch(d, i, T_PRE);
    }
    PresAll(d, at);
  }

  lemma {:induction false} PresAll(d: Disk, at: seq<nat>)
    requires |d| > JRNL_LBA + JRNL_SECTS && forall i :: 0 <= i < |at| ==> IsPre(d, at[i])
    ensures Pres(d, at) == |at|
  {
    if at != [] {
      PresAll(d, at[..|at| - 1]);
    }
  }
}
