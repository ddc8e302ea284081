/** Sectors of an HBFS image, and the fixed places the journal code looks at.

    A sector is 512 bytes. Every field the journal, the superblock and the log
    checker touch is an aligned little-endian dword, so a sector is modelled as
    its 128 dwords: nothing is lost, and `pack_into`/`unpack_from` at byte offset
    `4 * k` are the update and the selection of word `k`. */
module Sectors {
  type Word = w: int | 0 <= w < 0x1_0000_0000

  const SECTOR_WORDS := 128

  type Sector = s: seq<Word> | |s| == SECTOR_WORDS witness Blank()

  function Blank(): (s: seq<Word>)
    ensures |s| == SECTOR_WORDS
  {
    seq(SECTOR_WORDS, _ => 0)
  }

  /** Any checksum of a sector; the protocol does not depend on which one. */
  type Checksum = Sector -> Word

  /** A disk image, sector by sector. */
  type Disk = seq<Sector>

  const SUPERBLOCK_LBA := 8481
  const SECTORS_PER_BLOCK := 8
  const BITMAP_START := SUPERBLOCK_LBA + 1
  const ROOT_DIR_START := BITMAP_START + 16 * SECTORS_PER_BLOCK
  const DATA_START := ROOT_DIR_START + 32 * SECTORS_PER_BLOCK
  const JOURNAL_BLOCKS := 4
  const JRNL_LBA := DATA_START
  const JRNL_SECTS := JOURNAL_BLOCKS * SECTORS_PER_BLOCK
  const JRNL_SLOTS := 16          // header/payload pairs in the journal area

  const JRNL_MAGIC: Word := 0x4A524E4C
  const T_PRE: Word := 1
  const T_COMMIT: Word := 2
  const HBFS4_MAGIC: Word := 0x34424653

  // Word indices, that is, byte offsets divided by four.
  const SB_MAGIC := 0
  const SB_STATE := 10
  const SB_PTR := 11
  const SB_EPOCH := 14
  const SB_CHECKSUM := 19
  const REC_MAGIC := 0
  const REC_TYPE := 1
  const REC_TARGET := 2
  const REC_EPOCH := 3
  const PRE_CRC := 4
  const COMMIT_RECORDS := 5
  const COMMIT_CRC := 6

  /** One sector write: the unit a power cut falls between. */
  datatype SectorWrite = SectorWrite(lba: nat, data: Sector)

  function Put(d: Disk, w: SectorWrite): (r: Disk)
    ensures |r| == |d|
  {
    if w.lba < |d| then d[w.lba := w.data] else d
  }

  /** The disk after a list of sector writes, oldest first. */
  function Apply(d: Disk, ws: seq<SectorWrite>): (r: Disk)
    ensures |r| == |d|
    decreases |ws|
  {
    if ws == [] then d else Apply(Put(d, ws[0]), ws[1..])
  }

  lemma {:induction false} ApplyNothing(d: Disk)
    ensures Apply(d, []) == d
  {
  }

  lemma {:induction false} ApplyAppend(d: Disk, a: seq<SectorWrite>, b: seq<SectorWrite>)
    ensures Apply(d, a + b) == Apply(Apply(d, a), b)
    decreases |a|
  {
    if a == [] {
      assert a + b == b;
    } else {
      assert (a + b)[1..] == a[1..] + b;
      ApplyAppend(Put(d, a[0]), a[1..], b);
    }
  }

  /** A sector no write names keeps its contents. */
  lemma {:induction false} ApplyElsewhere(d: Disk, ws: seq<SectorWrite>, lba: nat)
    requires lba < |d|
    requires forall i :: 0 <= i < |ws| ==> ws[i].lba != lba
    ensures Apply(d, ws)[lba] == d[lba]
    decreases |ws|
  {
    if ws != [] {
      ApplyElsewhere(Put(d, ws[0]), ws[1..], lba);
    }
  }

  /** The last write of a sector decides its contents, whatever was there. */
  lemma {:induction false} ApplyForgets(d: Disk, d': Disk, ws: seq<SectorWrite>, lba: nat)
    requires |d| == |d'| && lba < |d|
    requires d[lba] == d'[lba] || exists i :: 0 <= i < |ws| && ws[i].lba == lba
    ensures Apply(d, ws)[lba] == Apply(d', ws)[lba]
    decreases |ws|
  {
    if ws != [] {
      ApplyForgets(Put(d, ws[0]), Put(d', ws[0]), ws[1..], lba);
    }
  }

  /** Repeating a list of writes after a prefix of it changes nothing. */
  lemma {:induction false} ApplyAfterPrefix(d: Disk, ws: seq<SectorWrite>, k: nat)
    requires k <= |ws|
    ensures Apply(Apply(d, ws[..k]), ws) == Apply(d, ws)
  {
    var p := Apply(d, ws[..k]);
    forall lba | 0 <= lba < |d|
      ensures Apply(p, ws)[lba] == Apply(d, ws)[lba]
    {
      if forall i :: 0 <= i < k ==> ws[..k][i].lba != lba {
        ApplyElsewhere(d, ws[..k], lba);
      } else {
        var i :| 0 <= i < k && ws[..k][i].lba == lba;
        assert ws[i].lba == lba;
      }
      ApplyForgets(p, d, ws, lba);
    }
  }

  function Reverse(ws: seq<SectorWrite>): (r: seq<SectorWrite>)
    ensures |r| == |ws|
    ensures forall i :: 0 <= i < |r| ==> r[i] == ws[|ws| - 1 - i]
  {
    seq(|ws|, i requires 0 <= i < |ws| => ws[|ws| - 1 - i])
  }

  predicate Distinct(ws: seq<SectorWrite>) {
    forall i, j :: 0 <= i < j < |ws| ==> ws[i].lba != ws[j].lba
  }

  /** Writes to distinct sectors all land. */
  lemma {:induction false} ApplyDistinct(d: Disk, ws: seq<SectorWrite>, i: nat)
    requires Distinct(ws) && i < |ws| && ws[i].lba < |d|
    ensures Apply(d, ws)[ws[i].lba] == ws[i].data
    decreases |ws|
  {
    if i == 0 {
      ApplyElsewhere(Put(d, ws[0]), ws[1..], ws[0].lba);
    } else {
      ApplyDistinct(Put(d, ws[0]), ws[1..], i - 1);
    }
  }
}
