/** Reading back what was added: the builder refines a plain table of files. */
module BuilderReadback {
  import opened HbfsTypes
  import opened BuilderSpec
  import opened BuilderInvariant

  // ----- the data of one file ------------------------------------------------------

  function Padded(data: seq<Byte>, n: nat): (r: seq<Byte>)
    requires |data| <= n * BLOCK_SIZE
    ensures |r| == n * BLOCK_SIZE
  {
    data + Zeros(n * BLOCK_SIZE - |data|)
  }

  lemma {:induction false} ChunkIsSlice(data: seq<Byte>, n: nat, i: nat)
    requires |data| <= n * BLOCK_SIZE && i < n
    ensures (i + 1) * BLOCK_SIZE <= n * BLOCK_SIZE
    ensures Chunk(data, i) == Padded(data, n)[i * BLOCK_SIZE..(i + 1) * BLOCK_SIZE]
  {
  }

  lemma {:induction false} WrittenFrom(image: Image, start: nat, data: seq<Byte>, n: nat, i: nat)
    requires |data| <= n * BLOCK_SIZE && i <= n
    requires forall b :: start <= b < start + n ==> BytesAt(image, b) == Chunk(data, b - start)
    ensures i * BLOCK_SIZE <= n * BLOCK_SIZE
    ensures RangeBytes(image, start + i, n - i) == Padded(data, n)[i * BLOCK_SIZE..]
    decreases n - i
  {
    hide Padded, Chunk, BytesAt, RangeBytes;
    var all := Padded(data, n);
    RangeStep(image, start + i, n - i);
    if i < n {
      ChunkIsSlice(data, n, i);
      WrittenFrom(image, start, data, n, i + 1);
      assert BytesAt(image, start + i) == Chunk(data, i);
      Cut(all, i * BLOCK_SIZE, (i + 1) * BLOCK_SIZE);
    } else {
      assert all[i * BLOCK_SIZE..] == [];
    }
  }

  lemma {:induction false} RangeStep(image: Image, start: nat, n: nat)
    ensures RangeBytes(image, start, n)
         == if n == 0 then [] else BytesAt(image, start) + RangeBytes(image, start + 1, n - 1)
  {
  }

  lemma {:induction false} Cut(all: seq<Byte>, a: nat, b: nat)
    requires a <= b <= |all|
    ensures all[a..] == all[a..b] + all[b..]
  {
  }

  /** The written range holds the data and then only padding. */
  lemma {:induction false} WrittenReads(image: Image, start: nat, data: seq<Byte>, n: nat)
    requires |data| <= n * BLOCK_SIZE
    requires forall b :: start <= b < start + n ==> BytesAt(image, b) == Chunk(data, b - start)
    ensures |RangeBytes(image, start, n)| == n * BLOCK_SIZE && RangeBytes(image, start, n)[..|data|] == data
    ensures forall i :: |data| <= i < n * BLOCK_SIZE ==> RangeBytes(image, start, n)[i] == 0
  {
    hide RangeBytes, Chunk, BytesAt;
    WrittenFrom(image, start, data, n, 0);
    assert Padded(data, n)[0 * BLOCK_SIZE..] == Padded(data, n);
  }

  lemma {:induction false} RangeBytesSplit(image: Image, start: nat, a: nat, b: nat)
    ensures RangeBytes(image, start, a + b) == RangeBytes(image, start, a) + RangeBytes(image, start + a, b)
    decreases a
  {
    if a > 0 {
      RangeBytesSplit(image, start + 1, a - 1, b);
      var x, y, z := BytesAt(image, start), RangeBytes(image, start + 1, a - 1), RangeBytes(image, start + a, b);
      assert x + (y + z) == (x + y) + z;
    }
  }

  /** Runs handed out one after another read as one stretch. */
  lemma {:induction false} RunsRead(image: Image, start: nat, blocks: nat, per: nat)
    requires per > 0
    ensures RunBytes(image, Runs(start, blocks, per)) == RangeBytes(image, start, blocks)
    decreases blocks
  {
    if blocks > 0 {
      var take := Min(per, blocks);
      var rest := Runs(start + take, blocks - take, per);
      RunsRead(image, start + take, blocks - take, per);
      RangeBytesSplit(image, start, take, blocks - take);
      assert Runs(start, blocks, per)[1..] == rest;
    }
  }

  /** A placed file reads back as the bytes it was given, however it was cut; its last block
      is filled with zeros. */
  lemma {:induction false} PlacedReads(fs: FS, data: seq<Byte>, fragments: nat, name: string, ftype: nat)
    requires Place(fs, data, fragments).Placement?
    ensures var p := Place(fs, data, fragments);
      var e := FileEntry(name, ftype, |data|, p.start, BlocksFor(|data|), p.extents);
      && ReadFile(p.fs.image, e) == data
      && |AllBytes(p.fs.image, e)| == BlocksFor(|data|) * BLOCK_SIZE
      && forall i :: |data| <= i < |AllBytes(p.fs.image, e)| ==> AllBytes(p.fs.image, e)[i] == 0
  {
    hide BlocksFor, RunLength, Chunk;
    var p := Place(fs, data, fragments);
    var blocks := BlocksFor(|data|);
    WrittenReads(p.fs.image, fs.next, data, blocks);
    if p.extents {
      RunsRead(p.fs.image, fs.next, blocks, RunLength(blocks, fragments));
    }
  }

  // ----- slots -----------------------------------------------------------------------

  lemma {:induction false} NamedAt(dir: Directory, i: nat)
    requires UniqueNames(dir) && i < |dir| && Used(dir[i])
    ensures FindName(dir, dir[i].name, 0) == Some(i)
  {
    hide FindName;
    var r := FindName(dir, dir[i].name, 0);
    assert r.Some?;
  }

  ghost predicate Replaceable(dir: Directory, slot: nat, name: string) {
    slot < |dir| && ((Used(dir[slot]) && dir[slot].name == name) || !Used(dir[slot]))
  }

  /** Filling a slot changes what its own name finds and nothing else. */
  lemma {:induction false} PutFinds(dir: Directory, slot: nat, e: Entry, name: string)
    requires UniqueNames(dir) && Replaceable(dir, slot, e.name) && Used(e)
    requires FindName(dir, e.name, 0) == (if Used(dir[slot]) then Some(slot) else None)
    ensures UniqueNames(dir[slot := e])
    ensures FindName(dir[slot := e], name, 0) == if name == e.name then Some(slot) else FindName(dir, name, 0)
  {
    hide FindName;
    var dir' := dir[slot := e];
    assert UniqueNames(dir');
    NamedAt(dir', slot);
    if name != e.name {
      var r := FindName(dir, name, 0);
      if r.Some? {
        assert dir'[r.value] == dir[r.value];
        NamedAt(dir', r.value);
      }
    }
  }

  /** What every name finds after slot `slot` was filled with `e`. */
  ghost predicate Refound(dir: Directory, slot: nat, e: Entry) {
    slot < |dir| &&
    forall n :: && FindName(dir[slot := e], n, 0) == (if n == e.name then Some(slot) else FindName(dir, n, 0))
                && (n != e.name && FindName(dir, n, 0).Some? ==> FindName(dir, n, 0).value != slot)
  }

  lemma {:induction false} PutRefinds(dir: Directory, slot: nat, e: Entry)
    requires UniqueNames(dir) && Replaceable(dir, slot, e.name) && Used(e)
    requires FindName(dir, e.name, 0) == (if Used(dir[slot]) then Some(slot) else None)
    ensures Refound(dir, slot, e)
  {
    hide FindName;
    forall n
      ensures FindName(dir[slot := e], n, 0) == if n == e.name then Some(slot) else FindName(dir, n, 0)
    {
      PutFinds(dir, slot, e, n);
    }
  }

  lemma {:induction false} SlotIsReplaceable(dir: Directory, name: string)
    requires UniqueNames(dir) && SlotFor(dir, name).Some?
    ensures var slot := SlotFor(dir, name).value;
      Replaceable(dir, slot, name) && FindName(dir, name, 0) == (if Used(dir[slot]) then Some(slot) else None)
  {
  }

  /** Clearing a named slot takes that name out of the directory. */
  lemma {:induction false} ClearFinds(dir: Directory, slot: nat, name: string)
    requires UniqueNames(dir) && slot < |dir| && Used(dir[slot])
    ensures UniqueNames(dir[slot := FREE_SLOT])
    ensures FindName(dir[slot := FREE_SLOT], name, 0) == if name == dir[slot].name then None else FindName(dir, name, 0)
  {
    hide FindName;
    var dir' := dir[slot := FREE_SLOT];
    var r, r' := FindName(dir, name, 0), FindName(dir', name, 0);
    if r'.Some? {
      assert dir'[r'.value] == dir[r'.value];
      NamedAt(dir, r'.value);
    }
    if name != dir[slot].name && r.Some? {
      assert dir'[r.value] == dir[r.value];
      NamedAt(dir', r.value);
    }
  }

  // ----- the reference ------------------------------------------------------------------

  /** What a file is to its reader: its bytes, its type, and whether they lie in fragments. */
  datatype File = File(data: seq<Byte>, ftype: nat, fragmented: bool)

  type Files = map<(Option<string>, string), File>

  /** A plain table: which directories exist, which were ever created, and the files by
      directory and name. */
  datatype Table = Table(dirs: set<string>, known: set<string>, files: Files)

  const EMPTY_TABLE := Table({}, {}, map[])

  function Without(files: Files, name: string): Files {
    map k | k in files && k != (None, name) && k.0 != Some(name) :: files[k]
  }

  /** Creating a directory leaves an empty directory of that name; adding a file
      replaces the file of that name, and in the root a directory of that name. */
  function TableStep(t: Table, call: Call): Table {
    match call
    case MakeDir(name) => Table(t.dirs + {name}, t.known + {name}, Without(t.files, name))
    case PutFile(name, data, dir, ftype, fragments) =>
      var file := File(data, ftype, fragments > 1);
      if dir.Some? && dir.value in t.known then
        if dir.value in t.dirs then t.(files := t.files[(dir, name) := file]) else t
      else
        t.(dirs := t.dirs - {name}, files := Without(t.files, name)[(None, name) := file])
  }

  predicate HasDir(fs: FS, d: string) {
    var r := FindName(fs.root, d, 0);
    r.Some? && fs.root[r.value].ftype == FTYPE_DIR
  }

  function ReadEntry(image: Image, e: Entry): File {
    File(ReadFile(image, e), e.ftype, e.extents)
  }

  /** Following the entry for a directory and a name. */
  function Lookup(fs: FS, dir: Option<string>, name: string): Option<File> {
    if dir.None? then
      var r := FindName(fs.root, name, 0);
      if r.Some? && fs.root[r.value].ftype != FTYPE_DIR then Some(ReadEntry(fs.image, fs.root[r.value])) else None
    else if HasDir(fs, dir.value) && dir.value in fs.subdirs then
      var data := fs.subdirs[dir.value].data;
      var r := FindName(data, name, 0);
      if r.Some? then Some(ReadEntry(fs.image, data[r.value])) else None
    else None
  }

  function TableLookup(t: Table, dir: Option<string>, name: string): Option<File> {
    if (dir, name) in t.files then Some(t.files[(dir, name)]) else None
  }

  ghost predicate Matches(fs: FS, t: Table) {
    && t.known == fs.subdirs.Keys
    && (forall d :: d in t.dirs <==> HasDir(fs, d))
    && (forall dir, name :: Lookup(fs, dir, name) == TableLookup(t, dir, name))
  }

  // ----- one call ------------------------------------------------------------------------

  /** Growth is invisible to lookups. */
  lemma {:induction false} GrowthHides(fs: FS, own: Owners, fs': FS, own': Owners, dir: Option<string>, name: string)
    requires Inv(fs, own) && Grows(fs, own, fs', own')
    ensures Lookup(fs', dir, name) == Lookup(fs, dir, name)
  {
    hide FindName;
    if dir.None? {
      var r := FindName(fs.root, name, 0);
      if r.Some? && fs.root[r.value].ftype != FTYPE_DIR {
        assert GoodRootSlot(fs, own, r.value);
        GoodFileFrame(fs, own, fs', own', fs.root[r.value], RootFile(r.value));
      }
    } else if HasDir(fs, dir.value) && dir.value in fs.subdirs {
      var d := dir.value;
      assert GoodSubdir(fs, own, d);
      var r := FindName(fs.subdirs[d].data, name, 0);
      if r.Some? {
        GoodFileFrame(fs, own, fs', own', fs.subdirs[d].data[r.value], SubFile(d, r.value));
      }
    }
  }

  lemma {:induction false} GrowthMatches(fs: FS, own: Owners, fs': FS, own': Owners, t: Table)
    requires Inv(fs, own) && Grows(fs, own, fs', own') && Matches(fs, t)
    ensures Matches(fs', t)
  {
    hide FindName;
    forall dir, name
      ensures Lookup(fs', dir, name) == TableLookup(t, dir, name)
    {
      GrowthHides(fs, own, fs', own', dir, name);
    }
  }

  lemma {:induction false} GoodFileUsed(image: Image, own: Owners, e: Entry, pos: Pos)
    requires GoodFile(image, own, e, pos)
    ensures Used(e) && e.ftype != FTYPE_DIR
  {
  }

  lemma {:induction false} SubdirOnly(fs: FS, fs': FS, own: Owners, d: string)
    requires d in fs.subdirs && d in fs'.subdirs && fs'.subdirs[d] == fs.subdirs[d] && fs'.image == fs.image
    requires GoodSubdir(fs, own, d)
    ensures GoodSubdir(fs', own, d)
  {
  }

  /** New entries in one subdirectory leave everything else as it was. */
  lemma {:induction false} SubdirReplaced(fs: FS, own: Owners, d: string, data: seq<Entry>)
    requires Inv(fs, own) && d in fs.subdirs
    requires GoodSubdir(fs.(subdirs := fs.subdirs[d := fs.subdirs[d].(data := data)]), own, d)
    ensures Inv(fs.(subdirs := fs.subdirs[d := fs.subdirs[d].(data := data)]), own)
  {
    hide GoodSubdir, GoodFile;
    var fs' := fs.(subdirs := fs.subdirs[d := fs.subdirs[d].(data := data)]);
    forall k | k in fs'.subdirs && k != d
      ensures GoodSubdir(fs', own, k)
    {
      SubdirOnly(fs, fs', own, k);
    }
    forall i | 0 <= i < |fs'.root|
      ensures GoodRootSlot(fs', own, i)
    {
      assert GoodRootSlot(fs, own, i);
    }
  }

  /** Putting a good entry where its name belongs: in the root, */
  lemma {:induction false} PutRootKeeps(fs: FS, own: Owners, e: Entry, slot: nat)
    requires Inv(fs, own) && SlotFor(fs.root, e.name) == Some(slot)
    requires GoodFile(fs.image, own, e, RootFile(slot))
    ensures Inv(fs.(root := fs.root[slot := e]), own)
    ensures Refound(fs.root, slot, e)
  {
    hide FindName, SlotFor, GoodFile, GoodSubdir;
    var fs' := fs.(root := fs.root[slot := e]);
    SlotIsReplaceable(fs.root, e.name);
    GoodFileUsed(fs.image, own, e, RootFile(slot));
    PutFinds(fs.root, slot, e, e.name);
    forall i | 0 <= i < |fs'.root|
      ensures GoodRootSlot(fs', own, i)
    {
      assert GoodRootSlot(fs, own, i);
    }
    forall d | d in fs'.subdirs
      ensures GoodSubdir(fs', own, d)
    {
      SubdirOnly(fs, fs', own, d);
    }
    PutRefinds(fs.root, slot, e);
  }

  lemma {:induction false} PutRootMatches(fs: FS, e: Entry, t: Table, slot: nat)
    requires Matches(fs, t) && slot < |fs.root| && e.ftype != FTYPE_DIR
    requires Refound(fs.root, slot, e)
    ensures Matches(fs.(root := fs.root[slot := e]),
                    t.(dirs := t.dirs - {e.name}, files := Without(t.files, e.name)[(None, e.name) := ReadEntry(fs.image, e)]))
  {
    hide FindName, ReadFile;
    var fs' := fs.(root := fs.root[slot := e]);
    var t' := t.(dirs := t.dirs - {e.name}, files := Without(t.files, e.name)[(None, e.name) := ReadEntry(fs.image, e)]);
    forall dir, name
      ensures Lookup(fs', dir, name) == TableLookup(t', dir, name)
    {
      assert Lookup(fs, dir, name) == TableLookup(t, dir, name);
    }
  }

  /** and in a subdirectory. */
  lemma {:induction false} PutSubdirKeeps(fs: FS, own: Owners, e: Entry, d: string, slot: nat)
    requires Inv(fs, own) && d in fs.subdirs && SlotFor(fs.subdirs[d].data, e.name) == Some(slot)
    requires GoodFile(fs.image, own, e, SubFile(d, slot))
    ensures var sd := fs.subdirs[d];
      Inv(fs.(subdirs := fs.subdirs[d := sd.(data := sd.data[slot := e])]), own)
    ensures Refound(fs.subdirs[d].data, slot, e)
  {
    hide FindName, SlotFor, GoodFile;
    var sd := fs.subdirs[d];
    var fs' := fs.(subdirs := fs.subdirs[d := sd.(data := sd.data[slot := e])]);
    assert GoodSubdir(fs, own, d);
    SlotIsReplaceable(sd.data, e.name);
    GoodFileUsed(fs.image, own, e, SubFile(d, slot));
    PutFinds(sd.data, slot, e, e.name);
    assert GoodSubdir(fs', own, d);
    SubdirReplaced(fs, own, d, sd.data[slot := e]);
    PutRefinds(sd.data, slot, e);
  }

  lemma {:induction false} PutSubdirMatches(fs: FS, e: Entry, t: Table, d: string, slot: nat)
    requires Matches(fs, t) && d in fs.subdirs && slot < |fs.subdirs[d].data|
    requires Refound(fs.subdirs[d].data, slot, e)
    ensures var sd := fs.subdirs[d];
      Matches(fs.(subdirs := fs.subdirs[d := sd.(data := sd.data[slot := e])]),
              if d in t.dirs then t.(files := t.files[(Some(d), e.name) := ReadEntry(fs.image, e)]) else t)
  {
    hide FindName, ReadFile;
    var sd := fs.subdirs[d];
    var fs' := fs.(subdirs := fs.subdirs[d := sd.(data := sd.data[slot := e])]);
    var t' := if d in t.dirs then t.(files := t.files[(Some(d), e.name) := ReadEntry(fs.image, e)]) else t;
    assert fs'.subdirs.Keys == fs.subdirs.Keys;
    forall dir, name
      ensures Lookup(fs', dir, name) == TableLookup(t', dir, name)
    {
      assert Lookup(fs, dir, name) == TableLookup(t, dir, name);
    }
  }

  // ----- add_file -----------------------------------------------------------------------

  lemma {:induction false} AddFileKeeps(fs: FS, own: Owners, t: Table, call: Call) returns (own': Owners)
    requires Inv(fs, own) && Matches(fs, t) && call.PutFile? && GoodCall(call)
    ensures Inv(Step(fs, call).0, own')
    ensures Matches(Step(fs, call).0, if Step(fs, call).1.Done? then TableStep(t, call) else t)
  {
    hide FindName, SlotFor, GoodFile, Inv, Matches, Place, Grows, ReadFile, Refound;
    var PutFile(name, data, dir, ftype, fragments) := call;
    var p := Place(fs, data, fragments);
    InvBounded(fs, own);
    if p.Refused? || !Ascii(name) {
      PlaceGrows(fs, own, data, fragments, RootFile(0));
      own' :| Grows(fs, own, p.fs, own');
      GrowthKeeps(fs, own, p.fs, own');
      GrowthMatches(fs, own, p.fs, own', t);
      return;
    }
    PlaceLeaves(fs, data, fragments);
    MatchesKnown(fs, t);
    ClipKeeps(name);
    var e := FileEntry(name, ftype, |data|, p.start, BlocksFor(|data|), p.extents);
    var sub := InSubdir(fs, dir);
    var slot := if sub then SlotFor(fs.subdirs[dir.value].data, name) else SlotFor(fs.root, name);
    var at := if slot.Some? then slot.value else 0;
    var pos := if sub then SubFile(dir.value, at) else RootFile(at);
    own' := GivenFile(own, fs.next, BlocksFor(|data|), p.extents, pos);
    PlaceGrows(fs, own, data, fragments, pos);
    GrowthKeeps(fs, own, p.fs, own');
    GrowthMatches(fs, own, p.fs, own', t);
    if slot.Some? {
      PlacedIsGood(fs, own, data, fragments, pos, name, ftype);
      PlacedReads(fs, data, fragments, name, ftype);
      if sub {
        PutSubdirKeeps(p.fs, own', e, dir.value, at);
        PutSubdirMatches(p.fs, e, t, dir.value, at);
      } else {
        PutRootKeeps(p.fs, own', e, at);
        PutRootMatches(p.fs, e, t, at);
        NoBlankName(fs, own, t);
      }
    }
  }

  lemma {:induction false} InvBounded(fs: FS, own: Owners)
    requires Inv(fs, own)
    ensures Bounded(fs, own)
  {
  }

  lemma {:induction false} MatchesKnown(fs: FS, t: Table)
    requires Matches(fs, t)
    ensures t.known == fs.subdirs.Keys
  {
  }

  lemma {:induction false} NoBlankName(fs: FS, own: Owners, t: Table)
    requires Inv(fs, own) && Matches(fs, t)
    ensures "" !in t.known
  {
    assert forall d :: d in fs.subdirs ==> GoodSubdir(fs, own, d);
  }

  lemma {:induction false} PlaceLeaves(fs: FS, data: seq<Byte>, fragments: nat)
    ensures var p := Place(fs, data, fragments);
      p.fs.root == fs.root && p.fs.subdirs == fs.subdirs && (p.Placement? ==> p.extents == (fragments > 1))
  {
  }

  // ----- create_subdir --------------------------------------------------------------------

  lemma {:induction false} EmptyFindsNothing(name: string)
    ensures FindName(EmptyDirectory(), name, 0) == None
  {
    hide FindName;
    assert forall i :: 0 <= i < |EmptyDirectory()| ==> !Used(EmptyDirectory()[i]);
  }

  lemma {:induction false} ReopenKeeps(fs: FS, own: Owners, name: string, slot: nat)
    requires Inv(fs, own) && FindName(fs.root, name, 0) == Some(slot) && fs.root[slot].ftype == FTYPE_DIR
    ensures CreateSubdir(fs, name) == (fs.(subdirs := fs.subdirs[name := Subdir(fs.root[slot].start, EmptyDirectory())]), Done)
    ensures Inv(CreateSubdir(fs, name).0, own) && name in fs.subdirs
  {
    hide FindName, ReadFile;
    var fs' := CreateSubdir(fs, name).0;
    var e := fs.root[slot];
    assert GoodRootSlot(fs, own, slot) && GoodDirEntry(fs.subdirs, e);
    assert GoodSubdir(fs, own, name);
    assert e.start in Range(e.start, DIR_BLOCKS);
    assert fs'.subdirs == fs.subdirs[name := Subdir(e.start, EmptyDirectory())];
    SubdirReplaced(fs, own, name, EmptyDirectory());
  }

  /** A directory that is already there comes back as the image has it: empty. */
  lemma {:induction false} ReopenMatches(fs: FS, t: Table, name: string, slot: nat, start: nat)
    requires Matches(fs, t) && FindName(fs.root, name, 0) == Some(slot) && slot < |fs.root| && fs.root[slot].ftype == FTYPE_DIR
    requires name in fs.subdirs
    ensures Matches(fs.(subdirs := fs.subdirs[name := Subdir(start, EmptyDirectory())]), TableStep(t, MakeDir(name)))
  {
    hide FindName, ReadFile;
    var fs' := fs.(subdirs := fs.subdirs[name := Subdir(start, EmptyDirectory())]);
    var t' := TableStep(t, MakeDir(name));
    assert fs'.subdirs.Keys == fs.subdirs.Keys;
    forall dir, n
      ensures Lookup(fs', dir, n) == TableLookup(t', dir, n)
    {
      EmptyFindsNothing(n);
      assert Lookup(fs, dir, n) == TableLookup(t, dir, n);
    }
  }

  /** Clearing the file that stands in the way. */
  lemma {:induction false} ClearKeeps(fs: FS, own: Owners, t: Table, name: string, slot: nat)
    requires Inv(fs, own) && Matches(fs, t) && FindName(fs.root, name, 0) == Some(slot) && fs.root[slot].ftype != FTYPE_DIR
    ensures var fs' := fs.(root := fs.root[slot := FREE_SLOT]);
      && Inv(fs', own) && FindName(fs'.root, name, 0) == None && FindFree(fs'.root, 0).Some?
      && Matches(fs', t.(files := t.files - {(None, name)}))
  {
    hide FindName, FindFree, ReadFile, GoodFile, GoodSubdir;
    var fs' := fs.(root := fs.root[slot := FREE_SLOT]);
    ClearFinds(fs.root, slot, name);
    forall i | 0 <= i < |fs'.root|
      ensures GoodRootSlot(fs', own, i)
    {
      assert GoodRootSlot(fs, own, i);
    }
    forall d | d in fs'.subdirs
      ensures GoodSubdir(fs', own, d)
    {
      SubdirOnly(fs, fs', own, d);
    }
    assert fs'.root[slot] == FREE_SLOT;
    var t' := t.(files := t.files - {(None, name)});
    forall d
      ensures d in t'.dirs <==> HasDir(fs', d)
    {
      ClearFinds(fs.root, slot, d);
    }
    forall dir, n
      ensures Lookup(fs', dir, n) == TableLookup(t', dir, n)
    {
      ClearFinds(fs.root, slot, n);
      if dir.Some? {
        ClearFinds(fs.root, slot, dir.value);
      }
      assert Lookup(fs, dir, n) == TableLookup(t, dir, n);
    }
  }

  lemma {:induction false} DirGrows(fs: FS, own: Owners, name: string)
    requires Bounded(fs, own)
    ensures Grows(fs, own, Alloc(fs, DIR_BLOCKS).(image := WriteDir(fs.image, fs.next, EmptyDirectory())),
                  Given(own, fs.next, DIR_BLOCKS, DirRun(name)))
  {
  }

  /** Linking a new, empty directory under a name the root does not have. */
  lemma {:induction false} LinkKeeps(fs: FS, own: Owners, name: string, start: nat, slot: nat)
    requires Inv(fs, own) && Whole(name) && Ascii(name) && FindName(fs.root, name, 0) == None && FindFree(fs.root, 0) == Some(slot)
    requires forall b :: b in Range(start, DIR_BLOCKS) ==> b in own && own[b] == Owner(DirRun(name), false)
    requires forall b :: b in Range(start, DIR_BLOCKS) ==> b in fs.image && fs.image[b] == DirCell(EmptyDirectory(), b - start)
    ensures Inv(fs.(root := fs.root[slot := DirEntry(name, start)], subdirs := fs.subdirs[name := Subdir(start, EmptyDirectory())]), own)
    ensures Refound(fs.root, slot, DirEntry(name, start))
  {
    hide FindName, FindFree, GoodFile;
    var e := DirEntry(name, start);
    var fs' := fs.(root := fs.root[slot := e], subdirs := fs.subdirs[name := Subdir(start, EmptyDirectory())]);
    PutFinds(fs.root, slot, e, name);
    PutRefinds(fs.root, slot, e);
    assert GoodSubdir(fs', own, name);
    hide GoodSubdir;
    forall d | d in fs'.subdirs && d != name
      ensures GoodSubdir(fs', own, d)
    {
      SubdirOnly(fs, fs', own, d);
    }
    forall i | 0 <= i < |fs'.root|
      ensures GoodRootSlot(fs', own, i)
    {
      assert GoodRootSlot(fs, own, i);
      if i != slot && GoodDirEntry(fs.subdirs, fs.root[i]) {
        assert Used(fs.root[i]) && fs.root[i].name != name;
      }
    }
  }

  lemma {:induction false} LinkMatches(fs: FS, t: Table, name: string, start: nat, slot: nat)
    requires Matches(fs, t) && FindName(fs.root, name, 0) == None && Refound(fs.root, slot, DirEntry(name, start))
    ensures Matches(fs.(root := fs.root[slot := DirEntry(name, start)], subdirs := fs.subdirs[name := Subdir(start, EmptyDirectory())]),
                    TableStep(t, MakeDir(name)))
  {
    hide FindName, ReadFile, Lookup, TableLookup;
    var fs' := fs.(root := fs.root[slot := DirEntry(name, start)], subdirs := fs.subdirs[name := Subdir(start, EmptyDirectory())]);
    var t' := TableStep(t, MakeDir(name));
    assert fs'.subdirs.Keys == fs.subdirs.Keys + {name};
    forall dir, n
      ensures Lookup(fs', dir, n) == TableLookup(t', dir, n)
    {
      LinkLookup(fs, t, name, start, slot, dir, n);
    }
  }

  lemma {:induction false} LinkLookup(fs: FS, t: Table, name: string, start: nat, slot: nat, dir: Option<string>, n: string)
    requires Matches(fs, t) && FindName(fs.root, name, 0) == None && Refound(fs.root, slot, DirEntry(name, start))
    ensures Lookup(fs.(root := fs.root[slot := DirEntry(name, start)], subdirs := fs.subdirs[name := Subdir(start, EmptyDirectory())]), dir, n)
         == TableLookup(TableStep(t, MakeDir(name)), dir, n)
  {
    hide FindName, ReadFile;
    EmptyFindsNothing(n);
    assert Lookup(fs, dir, n) == TableLookup(t, dir, n);
  }

  /** A name that is not ASCII is in no directory. */
  lemma {:induction false} NamesAreAscii(fs: FS, own: Owners, name: string)
    requires Inv(fs, own)
    ensures FindName(fs.root, name, 0).Some? ==> Ascii(name) && Whole(name)
  {
    hide FindName;
    var r := FindName(fs.root, name, 0);
    if r.Some? {
      assert GoodRootSlot(fs, own, r.value);
    }
  }

  lemma {:induction false} ForgottenFirst(t: Table, name: string)
    ensures TableStep(t.(files := t.files - {(None, name)}), MakeDir(name)) == TableStep(t, MakeDir(name))
  {
  }

  lemma {:induction false} MakeDirKeeps(fs: FS, own: Owners, t: Table, name: string) returns (own': Owners)
    requires Inv(fs, own) && Matches(fs, t) && Whole(name)
    ensures Inv(CreateSubdir(fs, name).0, own')
    ensures Matches(CreateSubdir(fs, name).0, if CreateSubdir(fs, name).1.Done? then TableStep(t, MakeDir(name)) else t)
  {
    hide FindName, FindFree, ReadFile, Inv, Matches, Grows, Refound, WriteDir, Lookup, Ascii, Clip, TableStep;
    ClipKeeps(name);
    NamesAreAscii(fs, own, name);
    var slot := FindName(fs.root, name, 0);
    if slot.Some? && fs.root[slot.value].ftype == FTYPE_DIR {
      ReopenKeeps(fs, own, name, slot.value);
      ReopenMatches(fs, t, name, slot.value, fs.root[slot.value].start);
      own' := own;
      return;
    }
    var cleared := if slot.Some? then fs.(root := fs.root[slot.value := FREE_SLOT]) else fs;
    var t1 := if slot.Some? then t.(files := t.files - {(None, name)}) else t;
    if slot.Some? {
      ClearKeeps(fs, own, t, name, slot.value);
    }
    var made := Alloc(cleared, DIR_BLOCKS).(image := WriteDir(fs.image, fs.next, EmptyDirectory()));
    own' := Given(own, fs.next, DIR_BLOCKS, DirRun(name));
    InvBounded(cleared, own);
    DirGrows(cleared, own, name);
    GrowthKeeps(cleared, own, made, own');
    GrowthMatches(cleared, own, made, own', t1);
    var free := FindFree(made.root, 0);
    if free.Some? && Ascii(name) {
      WrittenDir(fs.image, own, fs.next, name);
      LinkKeeps(made, own', name, fs.next, free.value);
      LinkMatches(made, t1, name, fs.next, free.value);
      if slot.Some? {
        ForgottenFirst(t, name);
      }
    }
  }

  lemma {:induction false} WrittenDir(image: Image, own: Owners, start: nat, name: string)
    ensures forall b :: b in Range(start, DIR_BLOCKS) ==>
      b in WriteDir(image, start, EmptyDirectory()) && WriteDir(image, start, EmptyDirectory())[b] == DirCell(EmptyDirectory(), b - start)
    ensures forall b :: b in Range(start, DIR_BLOCKS) ==>
      b in Given(own, start, DIR_BLOCKS, DirRun(name)) && Given(own, start, DIR_BLOCKS, DirRun(name))[b] == Owner(DirRun(name), false)
  {
  }

  // ----- every sequence of calls ----------------------------------------------------------------

  function Built(fs: FS, calls: seq<Call>): FS
    decreases |calls|
  {
    if calls == [] then fs else Step(Built(fs, calls[..|calls| - 1]), calls[|calls| - 1]).0
  }

  function RunTable(fs: FS, t: Table, calls: seq<Call>): Table
    decreases |calls|
  {
    if calls == [] then t
    else
      var before := calls[..|calls| - 1];
      if Step(Built(fs, before), calls[|calls| - 1]).1.Done? then TableStep(RunTable(fs, t, before), calls[|calls| - 1])
      else RunTable(fs, t, before)
  }

  /** After any calls on a fresh volume every block has one owner, and looking a file
      up by directory and name gives exactly the bytes the table holds. */
  lemma {:induction false} RunKeeps(v4: bool, calls: seq<Call>) returns (own: Owners)
    requires forall i :: 0 <= i < |calls| ==> GoodCall(calls[i])
    ensures Inv(Built(NewFS(v4), calls), own)
    ensures Matches(Built(NewFS(v4), calls), RunTable(NewFS(v4), EMPTY_TABLE, calls))
    decreases |calls|
  {
    if calls == [] {
      own := map[];
      NewMatches(v4);
    } else {
      hide Inv, Matches, CreateSubdir, AddFile, TableStep;
      var before, call := calls[..|calls| - 1], calls[|calls| - 1];
      own := RunKeeps(v4, before);
      var fs, t := Built(NewFS(v4), before), RunTable(NewFS(v4), EMPTY_TABLE, before);
      match call
      case MakeDir(name) => own := MakeDirKeeps(fs, own, t, name);
      case PutFile(_, _, _, _, _) => own := AddFileKeeps(fs, own, t, call);
    }
  }

  lemma {:induction false} NewMatches(v4: bool)
    ensures Inv(NewFS(v4), map[]) && Matches(NewFS(v4), EMPTY_TABLE)
  {
    hide FindName;
    forall n
      ensures FindName(NewFS(v4).root, n, 0) == None
    {
      EmptyFindsNothing(n);
    }
  }
}
