/** The undo journal as lists of single-sector writes: what each operation of
    `Journal` sends to the disk, in order, and what `replay` sends back. */
module JournalProtocol {
  import opened Sectors

  // ----- superblock ------------------------------------------------------

  ghost predicate Volume(d: Disk) {
    |d| >= JRNL_LBA + JRNL_SECTS
  }

  predicate InJournal(lba: nat) {
    JRNL_LBA <= lba < JRNL_LBA + JRNL_SECTS
  }

  function State(d: Disk): Word
    requires |d| > SUPERBLOCK_LBA
  {
    d[SUPERBLOCK_LBA][SB_STATE]
  }

  function Epoch(d: Disk): Word
    requires |d| > SUPERBLOCK_LBA
  {
    d[SUPERBLOCK_LBA][SB_EPOCH]
  }

  /** Only a v4 superblock carries a checksum to keep true. */
  function Restamp(crc: Checksum, sb: Sector): Sector {
    if sb[SB_MAGIC] != HBFS4_MAGIC then sb
    else
      var zeroed: Sector := sb[SB_CHECKSUM := 0];
      zeroed[SB_CHECKSUM := crc(zeroed)]
  }

  function StampedSuperblock(crc: Checksum, m: Memory, sb: Sector): Sector {
    Restamp(crc, sb[SB_STATE := if m.open then 1 else 0][SB_PTR := m.ptr][SB_EPOCH := m.epoch])
  }

  /** What recovery leaves of a superblock: state and log position cleared. */
  function Cleared(crc: Checksum, sb: Sector): Sector {
    Restamp(crc, sb[SB_STATE := 0][SB_PTR := 0])
  }

  // ----- log records -----------------------------------------------------

  function PreHeader(target: Word, epoch: Word, sum: Word): Sector {
    Blank()[REC_MAGIC := JRNL_MAGIC][REC_TYPE := T_PRE][REC_TARGET := target][REC_EPOCH := epoch][PRE_CRC := sum]
  }

  function CommitBody(epoch: Word, records: Word): Sector {
    Blank()[REC_MAGIC := JRNL_MAGIC][REC_TYPE := T_COMMIT][REC_EPOCH := epoch][COMMIT_RECORDS := records]
  }

  function CommitHeader(crc: Checksum, epoch: Word, records: Word): Sector {
    var body := CommitBody(epoch, records);
    body[COMMIT_CRC := crc(body)]
  }

  function HeaderAt(d: Disk, slot: nat): Sector
    requires |d| >= JRNL_LBA + JRNL_SECTS && slot < JRNL_SLOTS
  {
    d[JRNL_LBA + 2 * slot]
  }

  function PayloadAt(d: Disk, slot: nat): Sector
    requires |d| >= JRNL_LBA + JRNL_SECTS && slot < JRNL_SLOTS
  {
    d[JRNL_LBA + 2 * slot + 1]
  }

  /** A record of the given transaction. */
  predicate Current(header: Sector, epoch: Word) {
    header[REC_MAGIC] == JRNL_MAGIC && header[REC_EPOCH] == epoch
  }

  // ----- the operations --------------------------------------------------

  /** The fields of a `Journal`; `logged` keeps its insertion order. */
  datatype Memory = Memory(open: bool, epoch: Word, ptr: Word, logged: seq<SectorWrite>)

  const FRESH := Memory(false, 0, 0, [])

  datatype Op =
    | Begin
    | Log(target: Word)
    | Write(target: Word, data: Sector)
    | WriteData(lba: Word, data: Sector)
    | Commit
    | Abort

  datatype Refusal = AlreadyOpen | Dirty | NotOpen | JournalFull | ShortRead

  /** What an operation asks of the disk: its writes in order and the fields it
      leaves behind, or an exception raised before anything was written. */
  datatype Request = Request(mem: Memory, writes: seq<SectorWrite>) | Refused(why: Refusal)

  predicate Logged(m: Memory, lba: nat) {
    exists i :: 0 <= i < |m.logged| && m.logged[i].lba == lba
  }

  function LogRequest(crc: Checksum, m: Memory, d: Disk, target: Word): Request {
    if !m.open then Refused(NotOpen)
    else if Logged(m, target) then Request(m, [])
    else if m.ptr + 2 >= JRNL_SECTS then Refused(JournalFull)
    else if target >= |d| then Refused(ShortRead)
    else
      var pre := d[target];
      Request(m.(ptr := m.ptr + 2, logged := m.logged + [SectorWrite(target, pre)]),
              [SectorWrite(JRNL_LBA + m.ptr + 1, pre),
               SectorWrite(JRNL_LBA + m.ptr, PreHeader(target, m.epoch, crc(pre)))])
  }

  /** Epochs count modulo 2^32. */
  function NextEpoch(last: int): Word { (last + 1) % 0x1_0000_0000 }

  function Ask(crc: Checksum, m: Memory, d: Disk, op: Op): Request
    requires |d| > SUPERBLOCK_LBA
    requires |m.logged| < 0x1_0000_0000
  {
    match op
    case Begin =>
      if m.open then Refused(AlreadyOpen)
      else if State(d) != 0 then Refused(Dirty)
      else
        var m' := Memory(true, NextEpoch(Epoch(d)), 0, []);
        Request(m', [SectorWrite(SUPERBLOCK_LBA, StampedSuperblock(crc, m', d[SUPERBLOCK_LBA]))])
    case Log(target) =>
      LogRequest(crc, m, d, target)
    case Write(target, data) =>
      var r := LogRequest(crc, m, d, target);
      if r.Refused? then r else Request(r.mem, r.writes + [SectorWrite(target, data)])
    case WriteData(lba, data) =>
      Request(m, [SectorWrite(lba, data)])
    case Commit =>
      if !m.open then Request(m, [])
      else
        var m' := m.(ptr := 0, open := false);
        Request(m', [SectorWrite(JRNL_LBA + m.ptr, CommitHeader(crc, m.epoch, |m.logged|)),
                     SectorWrite(SUPERBLOCK_LBA, StampedSuperblock(crc, m', d[SUPERBLOCK_LBA]))])
    case Abort =>
      if !m.open then Request(m, [])
      else
        var m' := m.(ptr := 0, open := false);
        var back := Reverse(m.logged);
        Request(m', back + [SectorWrite(SUPERBLOCK_LBA, StampedSuperblock(crc, m', Apply(d, back)[SUPERBLOCK_LBA]))])
  }

  // ----- recovery --------------------------------------------------------

  datatype ScanResult = Torn(slot: nat) | Scanned(undo: seq<SectorWrite>, committed: bool)

  /** Whether replay believes a commit record found after `found` pre-images. */
  predicate ValidCommit(crc: Checksum, header: Sector, found: nat) {
    var sum := header[COMMIT_CRC];
    && (sum == 0 || crc(header[COMMIT_CRC := 0]) == sum)
    && header[COMMIT_RECORDS] == (if sum != 0 then found else 0)
  }

  /** The forward scan of the log; slot `|undo|` is the next one to read. */
  function Scan(crc: Checksum, d: Disk, epoch: Word, undo: seq<SectorWrite>): ScanResult
    requires |d| >= JRNL_LBA + JRNL_SECTS
    decreases JRNL_SLOTS - |undo|
  {
    if |undo| >= JRNL_SLOTS then Scanned(undo, false)
    else
      var header := HeaderAt(d, |undo|);
      if !Current(header, epoch) then Scanned(undo, false)
      else if header[REC_TYPE] == T_COMMIT then Scanned(undo, ValidCommit(crc, header, |undo|))
      else if header[REC_TYPE] != T_PRE then Scanned(undo, false)
      else
        var pre := PayloadAt(d, |undo|);
        if header[PRE_CRC] != 0 && crc(pre) != header[PRE_CRC] then Torn(|undo|)
        else Scan(crc, d, epoch, undo + [SectorWrite(header[REC_TARGET], pre)])
  }

  function ScanLog(crc: Checksum, d: Disk): ScanResult
    requires |d| >= JRNL_LBA + JRNL_SECTS
  {
    Scan(crc, d, Epoch(d), [])
  }

  /** Replay's writes; it raises, writing nothing, when the log is torn. */
  function ReplayWrites(crc: Checksum, d: Disk): seq<SectorWrite>
    requires |d| >= JRNL_LBA + JRNL_SECTS
  {
    if State(d) == 0 then []
    else
      match ScanLog(crc, d)
      case Torn(_) => []
      case Scanned(undo, committed) =>
        var back := if committed then [] else Reverse(undo);
        back + [SectorWrite(SUPERBLOCK_LBA, Cleared(crc, Apply(d, back)[SUPERBLOCK_LBA]))]
  }

  /** The disk an uninterrupted replay leaves. */
  function Recovered(crc: Checksum, d: Disk): (r: Disk)
    requires |d| >= JRNL_LBA + JRNL_SECTS
    ensures |r| == |d|
  {
    Apply(d, ReplayWrites(crc, d))
  }
}
