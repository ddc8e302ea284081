/** An HBFS volume as the builder and the checker both see it: directory entries,
    runs of blocks, and what a data block holds. */
module HbfsTypes {
  type Byte = b: int | 0 <= b < 256

  const BLOCK_SIZE: nat := 4096
  const JOURNAL_BLOCKS: nat := 4
  const DIR_BLOCKS: nat := 32           // root and subdirectories alike
  const DIR_SLOTS: nat := 455           // 32 * 4096 / 288
  const EXTENT_MAX: nat := 510
  const MAX_DEPTH: nat := 16

  const FTYPE_FREE := 0
  const FTYPE_TEXT := 1
  const FTYPE_DIR := 2
  const FTYPE_EXEC := 3
  const FTYPE_BATCH := 4

  datatype Option<+T> = None | Some(value: T)

  datatype Run = Run(start: nat, count: nat)

  /** The fields of a 288-byte directory entry the two programs read. `terminated`
      says a NUL was found in the name field; `extents` is bit 0 of the flags and
      `otherFlags` the rest of them. */
  datatype Entry = Entry(name: string, terminated: bool, ftype: nat, extents: bool, otherFlags: nat,
                         size: nat, start: nat, count: nat, xcount: nat, xlba: nat)

  /** An entry of all zero bytes. */
  const FREE_SLOT := Entry("", true, FTYPE_FREE, false, 0, 0, 0, 0, 0, 0)

  type Directory = seq<Entry>

  function EmptyDirectory(): (d: Directory)
    ensures |d| == DIR_SLOTS && forall i :: 0 <= i < |d| ==> d[i] == FREE_SLOT
  {
    seq(DIR_SLOTS, _ => FREE_SLOT)
  }

  predicate Used(e: Entry) {
    e.ftype != FTYPE_FREE && e.name != ""
  }

  /** What one data block holds: file bytes, a stretch of a directory, or a list of
      runs behind the extent magic. */
  datatype Cell =
    | Bytes(data: seq<Byte>)
    | DirCell(dir: Directory, part: nat)
    | Extents(runs: seq<Run>)

  type Image = map<nat, Cell>

  /** All the blocks of a directory, part by part. */
  predicate HoldsDir(image: Image, start: nat, dir: Directory) {
    forall k :: 0 <= k < DIR_BLOCKS ==> DirCellAt(image, start, dir, k)
  }

  predicate DirCellAt(image: Image, start: nat, dir: Directory, k: nat) {
    start + k in image && image[start + k] == DirCell(dir, k)
  }

  function Range(start: nat, count: nat): (s: set<nat>)
    ensures forall b :: b in s <==> start <= b < start + count
  {
    set b: nat | start <= b < start + count && Within(b, start, count)
  }

  predicate Within(b: nat, start: nat, count: nat) {
    start <= b < start + count
  }

  function RunBlocks(runs: seq<Run>): set<nat> {
    if runs == [] then {} else Range(runs[0].start, runs[0].count) + RunBlocks(runs[1..])
  }

  function RunTotal(runs: seq<Run>): nat {
    if runs == [] then 0 else runs[0].count + RunTotal(runs[1..])
  }

  /** The runs an extent block names; a block that does not parse names none. */
  function ReadExtents(image: Image, block: nat): seq<Run> {
    if block in image && image[block].Extents? && |image[block].runs| <= EXTENT_MAX then image[block].runs else []
  }

  /** The data blocks of an entry. */
  function DataBlocks(image: Image, e: Entry): set<nat> {
    if e.extents then RunBlocks(ReadExtents(image, e.start)) else Range(e.start, e.count)
  }

  /** Every block an entry names, the extent block included. */
  function EntryBlocks(image: Image, e: Entry): set<nat> {
    if e.extents then {e.start} + DataBlocks(image, e) else DataBlocks(image, e)
  }

  // ----- reading ---------------------------------------------------------------

  function BytesAt(image: Image, block: nat): seq<Byte> {
    if block in image && image[block].Bytes? then image[block].data else []
  }

  function RangeBytes(image: Image, start: nat, count: nat): seq<Byte>
    decreases count
  {
    if count == 0 then [] else BytesAt(image, start) + RangeBytes(image, start + 1, count - 1)
  }

  function RunBytes(image: Image, runs: seq<Run>): seq<Byte> {
    if runs == [] then [] else RangeBytes(image, runs[0].start, runs[0].count) + RunBytes(image, runs[1..])
  }

  /** What a reader gets by following an entry, inline or through its extents. */
  /** Everything in the blocks of a file. */
  function AllBytes(image: Image, e: Entry): seq<Byte> {
    if e.extents then RunBytes(image, ReadExtents(image, e.start)) else RangeBytes(image, e.start, e.count)
  }

  function ReadFile(image: Image, e: Entry): seq<Byte> {
    var all := AllBytes(image, e);
    if e.size <= |all| then all[..e.size] else all
  }

  // ----- slots -------------------------------------------------------------------

  function FindName(dir: Directory, name: string, i: nat): (r: Option<nat>)
    requires i <= |dir|
    ensures r.Some? ==> i <= r.value < |dir| && Used(dir[r.value]) && dir[r.value].name == name
    ensures r.None? ==> forall k :: i <= k < |dir| && Used(dir[k]) ==> dir[k].name != name
    decreases |dir| - i
  {
    if i == |dir| then None
    else if Used(dir[i]) && dir[i].name == name then Some(i)
    else FindName(dir, name, i + 1)
  }

  function FindFree(dir: Directory, i: nat): (r: Option<nat>)
    requires i <= |dir|
    ensures r.Some? ==> i <= r.value < |dir| && dir[r.value].ftype == FTYPE_FREE && dir[r.value].name == ""
    ensures r.None? ==> forall k :: i <= k < |dir| ==> !(dir[k].ftype == FTYPE_FREE && dir[k].name == "")
    decreases |dir| - i
  {
    if i == |dir| then None
    else if dir[i].ftype == FTYPE_FREE && dir[i].name == "" then Some(i)
    else FindFree(dir, i + 1)
  }

  ghost predicate UniqueNames(dir: Directory) {
    forall i, j :: 0 <= i < j < |dir| && Used(dir[i]) && Used(dir[j]) ==> dir[i].name != dir[j].name
  }

  // ----- frames --------------------------------------------------------------------

  ghost predicate AgreeBelow(image: Image, image': Image, limit: nat) {
    forall b :: b in image && b < limit ==> b in image' && image'[b] == image[b]
  }

  lemma {:induction false} RangeBytesFrame(image: Image, image': Image, start: nat, count: nat)
    requires forall b :: start <= b < start + count ==> BytesAt(image, b) == BytesAt(image', b)
    ensures RangeBytes(image, start, count) == RangeBytes(image', start, count)
    decreases count
  {
    if count > 0 {
      RangeBytesFrame(image, image', start + 1, count - 1);
    }
  }

  lemma {:induction false} RunBytesFrame(image: Image, image': Image, runs: seq<Run>)
    requires forall b :: b in RunBlocks(runs) ==> BytesAt(image, b) == BytesAt(image', b)
    ensures RunBytes(image, runs) == RunBytes(image', runs)
    decreases |runs|
  {
    if runs != [] {
      RangeBytesFrame(image, image', runs[0].start, runs[0].count);
      RunBytesFrame(image, image', runs[1..]);
    }
  }

  /** An entry reads the same from any image that agrees on its blocks. */
  lemma {:induction false} ReadFileFrame(image: Image, image': Image, e: Entry)
    requires forall b :: b in EntryBlocks(image, e) ==> b in image && b in image' && image[b] == image'[b]
    ensures ReadFile(image, e) == ReadFile(image', e) && EntryBlocks(image, e) == EntryBlocks(image', e)
    ensures DataBlocks(image, e) == DataBlocks(image', e)
  {
    if e.extents {
      assert ReadExtents(image, e.start) == ReadExtents(image', e.start);
      RunBytesFrame(image, image', ReadExtents(image, e.start));
    } else {
      RangeBytesFrame(image, image', e.start, e.count);
    }
  }
}
