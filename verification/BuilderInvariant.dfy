/** What every sequence of builder calls keeps: each block in use has one owner. */
module BuilderInvariant {
  import opened HbfsTypes
  import opened BuilderSpec

  datatype Pos = RootFile(slot: nat) | SubFile(dir: string, slot: nat) | DirRun(dir: string)

  /** `meta` tells an extent block from the data it describes. */
  datatype Owner = Owner(pos: Pos, meta: bool)

  /** Who was given each block. A function, so no block has two owners. */
  type Owners = map<nat, Owner>

  ghost predicate GoodExtents(image: Image, e: Entry) {
    e.extents ==>
      && e.start in image && image[e.start].Extents?
      && 0 < |image[e.start].runs| <= EXTENT_MAX
      && (forall i :: 0 <= i < |image[e.start].runs| ==> image[e.start].runs[i].count > 0)
      && RunTotal(image[e.start].runs) == e.count
      && RunsApart(image[e.start].runs)
  }

  /** Runs of one file do not overlap. */
  ghost predicate RunsApart(runs: seq<Run>)
    decreases |runs|
  {
    runs == [] || (Range(runs[0].start, runs[0].count) !! RunBlocks(runs[1..]) && RunsApart(runs[1..]))
  }

  ghost predicate Owns(image: Image, own: Owners, e: Entry, pos: Pos) {
    && (forall b :: b in DataBlocks(image, e) ==> b in own && own[b] == Owner(pos, false))
    && (forall b :: b in DataBlocks(image, e) ==> b in image && image[b].Bytes?)
    && (e.extents ==> e.start in own && own[e.start] == Owner(pos, true))
  }

  ghost predicate GoodFile(image: Image, own: Owners, e: Entry, pos: Pos) {
    && Whole(e.name) && Ascii(e.name) && e.ftype in {FTYPE_TEXT, FTYPE_EXEC, FTYPE_BATCH}
    && e == FileEntry(e.name, e.ftype, e.size, e.start, e.count, e.extents)
    && e.size <= e.count * BLOCK_SIZE && e.count > 0
    && GoodExtents(image, e)
    && Owns(image, own, e, pos)
  }

  ghost predicate GoodDirEntry(subdirs: map<string, Subdir>, e: Entry) {
    Whole(e.name) && Ascii(e.name) && e == DirEntry(e.name, e.start) && e.name in subdirs && subdirs[e.name].start == e.start
  }

  ghost predicate GoodRootSlot(fs: FS, own: Owners, i: nat)
    requires i < |fs.root|
  {
    var e := fs.root[i];
    e == FREE_SLOT || GoodDirEntry(fs.subdirs, e) || GoodFile(fs.image, own, e, RootFile(i))
  }

  ghost predicate GoodSubdir(fs: FS, own: Owners, d: string)
    requires d in fs.subdirs
  {
    var sd := fs.subdirs[d];
    && d != "" && |sd.data| == DIR_SLOTS && UniqueNames(sd.data)
    && (forall i :: 0 <= i < |sd.data| ==> sd.data[i] == FREE_SLOT || GoodFile(fs.image, own, sd.data[i], SubFile(d, i)))
    && (forall b :: b in Range(sd.start, DIR_BLOCKS) ==> b in own && own[b] == Owner(DirRun(d), false))
    && (forall b :: b in Range(sd.start, DIR_BLOCKS) ==> b in fs.image && fs.image[b] == DirCell(EmptyDirectory(), b - sd.start))
  }

  ghost predicate Bounded(fs: FS, own: Owners) {
    && JOURNAL_BLOCKS <= fs.next
    && (forall b :: b in own <==> JOURNAL_BLOCKS <= b < fs.next)
    && fs.image.Keys == fs.bitmap == own.Keys
  }

  ghost predicate Inv(fs: FS, own: Owners) {
    && |fs.root| == DIR_SLOTS && UniqueNames(fs.root)
    && (forall i :: 0 <= i < |fs.root| ==> GoodRootSlot(fs, own, i))
    && (forall d :: d in fs.subdirs ==> GoodSubdir(fs, own, d))
    && Bounded(fs, own)
  }

  // ----- growth keeps what is there --------------------------------------------

  /** Only fresh blocks were given out and written. */
  ghost predicate Grows(fs: FS, own: Owners, fs': FS, own': Owners) {
    && fs'.root == fs.root && fs'.subdirs == fs.subdirs && fs'.next >= fs.next
    && AgreeBelow(fs.image, fs'.image, fs.next)
    && (forall b :: b in own ==> b in own' && own'[b] == own[b])
    && Bounded(fs', own')
  }

  lemma {:induction false} GoodFileFrame(fs: FS, own: Owners, fs': FS, own': Owners, e: Entry, pos: Pos)
    requires Bounded(fs, own) && Grows(fs, own, fs', own') && GoodFile(fs.image, own, e, pos)
    ensures GoodFile(fs'.image, own', e, pos) && ReadFile(fs'.image, e) == ReadFile(fs.image, e)
  {
    ReadFileFrame(fs.image, fs'.image, e);
  }

  lemma {:induction false} GrowthKeeps(fs: FS, own: Owners, fs': FS, own': Owners)
    requires Inv(fs, own) && Grows(fs, own, fs', own')
    ensures Inv(fs', own')
  {
    forall i | 0 <= i < |fs'.root|
      ensures GoodRootSlot(fs', own', i)
    {
      assert GoodRootSlot(fs, own, i);
      if GoodFile(fs.image, own, fs.root[i], RootFile(i)) {
        GoodFileFrame(fs, own, fs', own', fs.root[i], RootFile(i));
      }
    }
    forall d | d in fs'.subdirs
      ensures GoodSubdir(fs', own', d)
    {
      GoodSubdirFrame(fs, own, fs', own', d);
    }
  }

  lemma {:induction false} GoodSubdirFrame(fs: FS, own: Owners, fs': FS, own': Owners, d: string)
    requires Bounded(fs, own) && Grows(fs, own, fs', own') && d in fs.subdirs && GoodSubdir(fs, own, d)
    ensures GoodSubdir(fs', own', d)
  {
    var sd := fs.subdirs[d];
    forall i | 0 <= i < |sd.data|
      ensures sd.data[i] == FREE_SLOT || GoodFile(fs'.image, own', sd.data[i], SubFile(d, i))
    {
      if sd.data[i] != FREE_SLOT {
        GoodFileFrame(fs, own, fs', own', sd.data[i], SubFile(d, i));
      }
    }
  }

  // ----- placing data --------------------------------------------------------------

  lemma {:induction false} RunsCover(start: nat, blocks: nat, per: nat)
    requires per > 0
    ensures RunBlocks(Runs(start, blocks, per)) == Range(start, blocks)
    ensures RunTotal(Runs(start, blocks, per)) == blocks
    ensures forall i :: 0 <= i < |Runs(start, blocks, per)| ==> Runs(start, blocks, per)[i].count > 0
    ensures blocks > 0 ==> Runs(start, blocks, per) != []
    ensures RunsApart(Runs(start, blocks, per))
    decreases blocks
  {
    if blocks > 0 {
      var take := Min(per, blocks);
      RunsCover(start + take, blocks - take, per);
      var rest := Runs(start + take, blocks - take, per);
      assert Runs(start, blocks, per) == [Run(start, take)] + rest;
      assert ([Run(start, take)] + rest)[1..] == rest;
    }
  }

  ghost function Given(own: Owners, start: nat, blocks: nat, pos: Pos): Owners {
    own + map b | b in Range(start, blocks) :: Owner(pos, false)
  }

  ghost function GivenFile(own: Owners, start: nat, blocks: nat, extents: bool, pos: Pos): Owners {
    if extents then Given(own, start, blocks, pos)[start + blocks := Owner(pos, true)] else Given(own, start, blocks, pos)
  }

  lemma {:induction false} WrittenGrows(fs: FS, own: Owners, data: seq<Byte>, blocks: nat, pos: Pos)
    requires Bounded(fs, own)
    ensures Grows(fs, own, Alloc(fs, blocks).(image := WriteData(fs.image, fs.next, data, blocks)), Given(own, fs.next, blocks, pos))
  {
    hide Chunk;
  }

  lemma {:induction false} ExtentGrows(fs: FS, own: Owners, runs: seq<Run>, pos: Pos)
    requires Bounded(fs, own)
    ensures Grows(fs, own, Alloc(fs, 1).(image := fs.image[fs.next := Extents(runs)]), own[fs.next := Owner(pos, true)])
  {
  }

  lemma {:induction false} GrowsTwice(fs: FS, own: Owners, fs1: FS, own1: Owners, fs2: FS, own2: Owners)
    requires Grows(fs, own, fs1, own1) && Grows(fs1, own1, fs2, own2)
    ensures Grows(fs, own, fs2, own2)
  {
  }

  lemma {:induction false} PlaceGrows(fs: FS, own: Owners, data: seq<Byte>, fragments: nat, pos: Pos)
    requires Bounded(fs, own)
    ensures var p := Place(fs, data, fragments);
      && (p.Placement? ==> Grows(fs, own, p.fs, GivenFile(own, fs.next, BlocksFor(|data|), p.extents, pos)))
      && (p.Refused? ==> exists own' :: Grows(fs, own, p.fs, own'))
  {
    hide BlocksFor, RunLength, Chunk, Runs, Grows, WriteData;
    var p := Place(fs, data, fragments);
    var blocks := BlocksFor(|data|);
    WrittenGrows(fs, own, data, blocks, pos);
    if p.Refused? && p.fs == fs {
      GrowsSelf(fs, own);
    } else if p.Placement? && p.extents {
      var written := Alloc(fs, blocks).(image := WriteData(fs.image, fs.next, data, blocks));
      GrowsBounded(fs, own, written, Given(own, fs.next, blocks, pos));
      ExtentGrows(written, Given(own, fs.next, blocks, pos), p.fs.image[p.start].runs, pos);
      GrowsTwice(fs, own, written, Given(own, fs.next, blocks, pos), p.fs, GivenFile(own, fs.next, blocks, true, pos));
    }
  }

  lemma {:induction false} GrowsSelf(fs: FS, own: Owners)
    requires Bounded(fs, own)
    ensures Grows(fs, own, fs, own)
  {
  }

  lemma {:induction false} GrowsBounded(fs: FS, own: Owners, fs': FS, own': Owners)
    requires Grows(fs, own, fs', own')
    ensures Bounded(fs', own')
  {
  }

  lemma {:induction false} InlineIsGood(image: Image, own: Owners, start: nat, data: seq<Byte>, blocks: nat, pos: Pos, name: string, ftype: nat)
    requires Whole(name) && Ascii(name) && ftype in {FTYPE_TEXT, FTYPE_EXEC, FTYPE_BATCH} && |data| <= blocks * BLOCK_SIZE && blocks > 0
    ensures GoodFile(WriteData(image, start, data, blocks), Given(own, start, blocks, pos),
                     FileEntry(name, ftype, |data|, start, blocks, false), pos)
  {
    hide Chunk;
  }

  lemma {:induction false} FragmentedIsGood(image: Image, own: Owners, start: nat, data: seq<Byte>, blocks: nat, runs: seq<Run>, pos: Pos, name: string, ftype: nat)
    requires Whole(name) && Ascii(name) && ftype in {FTYPE_TEXT, FTYPE_EXEC, FTYPE_BATCH} && |data| <= blocks * BLOCK_SIZE && blocks > 0
    requires RunBlocks(runs) == Range(start, blocks) && RunTotal(runs) == blocks && 0 < |runs| <= EXTENT_MAX
    requires RunsApart(runs) && forall i :: 0 <= i < |runs| ==> runs[i].count > 0
    ensures GoodFile(WriteData(image, start, data, blocks)[start + blocks := Extents(runs)],
                     Given(own, start, blocks, pos)[start + blocks := Owner(pos, true)],
                     FileEntry(name, ftype, |data|, start + blocks, blocks, true), pos)
  {
    hide Chunk, RunBlocks, RunTotal, RunsApart;
    var image' := WriteData(image, start, data, blocks)[start + blocks := Extents(runs)];
    assert DataBlocks(image', FileEntry(name, ftype, |data|, start + blocks, blocks, true)) == RunBlocks(runs);
  }

  /** The new entry owns exactly the fresh blocks. */
  lemma {:induction false} PlacedIsGood(fs: FS, own: Owners, data: seq<Byte>, fragments: nat, pos: Pos, name: string, ftype: nat)
    requires Whole(name) && Ascii(name) && ftype in {FTYPE_TEXT, FTYPE_EXEC, FTYPE_BATCH}
    requires Place(fs, data, fragments).Placement?
    ensures var p := Place(fs, data, fragments);
      var blocks := BlocksFor(|data|);
      GoodFile(p.fs.image, GivenFile(own, fs.next, blocks, p.extents, pos),
               FileEntry(name, ftype, |data|, p.start, blocks, p.extents), pos)
  {
    hide BlocksFor, RunLength, Chunk, Runs, WriteData, GoodFile;
    var p := Place(fs, data, fragments);
    var blocks := BlocksFor(|data|);
    if p.extents {
      RunsCover(fs.next, blocks, RunLength(blocks, fragments));
      FragmentedIsGood(fs.image, own, fs.next, data, blocks, Runs(fs.next, blocks, RunLength(blocks, fragments)), pos, name, ftype);
    } else {
      InlineIsGood(fs.image, own, fs.next, data, blocks, pos, name, ftype);
    }
  }
}
