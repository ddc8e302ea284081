/** The image builder, one call at a time: a bump allocator, fragmented files behind
    an extent block, a root directory and subdirectories one level down. */
module BuilderSpec {
  import opened HbfsTypes

  datatype Subdir = Subdir(start: nat, data: Directory)

  /** A volume being built. `bitmap` holds the blocks whose bit is set. */
  datatype FS = FS(v4: bool, image: Image, root: Directory, subdirs: map<string, Subdir>, next: nat, bitmap: set<nat>)

  /** A fresh volume. */
  function NewFS(v4: bool): FS {
    FS(v4, map[], EmptyDirectory(), map[], JOURNAL_BLOCKS, {})
  }

  datatype Outcome = Done | Full | Raised

  function Min(a: nat, b: nat): nat {
    if a <= b then a else b
  }

  /** Blocks for a file: at least one, even when it is empty. */
  function BlocksFor(size: nat): (n: nat)
    ensures n >= 1 && size <= n * BLOCK_SIZE && (n > 1 ==> size > (n - 1) * BLOCK_SIZE)
  {
    var n := (size + BLOCK_SIZE - 1) / BLOCK_SIZE;
    if n == 0 then 1 else n
  }

  function Alloc(fs: FS, n: nat): FS {
    fs.(next := fs.next + n, bitmap := fs.bitmap + Range(fs.next, n))
  }

  function Zeros(n: nat): (z: seq<Byte>)
    ensures |z| == n
  {
    seq(n, _ => 0)
  }

  /** Block `i` of data padded with zeros. */
  function Chunk(data: seq<Byte>, i: nat): (c: seq<Byte>)
    ensures |c| == BLOCK_SIZE
  {
    var lo := Min(i * BLOCK_SIZE, |data|);
    var hi := Min(i * BLOCK_SIZE + BLOCK_SIZE, |data|);
    data[lo..hi] + Zeros(BLOCK_SIZE - (hi - lo))
  }

  function WriteData(image: Image, start: nat, data: seq<Byte>, blocks: nat): Image {
    image + map b | b in Range(start, blocks) :: Bytes(Chunk(data, b - start))
  }

  /** The runs a fragmented file is cut into: `per` blocks each, the last shorter. */
  function Runs(start: nat, blocks: nat, per: nat): seq<Run>
    requires per > 0
    decreases blocks
  {
    if blocks == 0 then []
    else
      var take := Min(per, blocks);
      [Run(start, take)] + Runs(start + take, blocks - take, per)
  }

  function RunLength(blocks: nat, fragments: nat): (per: nat)
    requires blocks > 0 && fragments > 0
    ensures per > 0
  {
    var count := Min(fragments, blocks);
    (blocks + count - 1) / count
  }

  /** Where a file's data went. */
  datatype Placement = Placement(fs: FS, start: nat, extents: bool) | Refused(fs: FS)

  function Place(fs: FS, data: seq<Byte>, fragments: nat): Placement {
    var blocks := BlocksFor(|data|);
    if fragments > 1 && !fs.v4 then Refused(fs)
    else
      var written := Alloc(fs, blocks).(image := WriteData(fs.image, fs.next, data, blocks));
      if fragments <= 1 then Placement(written, fs.next, false)
      else
        var runs := Runs(fs.next, blocks, RunLength(blocks, fragments));
        if |runs| > EXTENT_MAX then Refused(written)
        else
          var block := written.next;
          Placement(Alloc(written, 1).(image := written.image[block := Extents(runs)]), block, true)
  }

  /** The slot an entry goes into: the one that has its name, or the first free. */
  function SlotFor(dir: Directory, name: string): (r: Option<nat>)
    ensures r.Some? ==> r.value < |dir|
  {
    var named := FindName(dir, name, 0);
    if named.Some? then named else FindFree(dir, 0)
  }

  const MAX_NAME: nat := 252

  predicate Ascii(name: string) {
    forall i :: 0 <= i < |name| ==> name[i] < 128 as char
  }

  function UpToNul(s: string): string {
    if s == [] || s[0] == '\0' then [] else [s[0]] + UpToNul(s[1..])
  }

  /** What an entry says its name is: the first 252 characters, up to a NUL among them. */
  function Clip(name: string): string {
    UpToNul(if |name| > MAX_NAME then name[..MAX_NAME] else name)
  }

  /** Names an entry gives back as they were. */
  predicate Whole(name: string) {
    1 <= |name| <= MAX_NAME && '\0' !in name
  }

  function FileEntry(name: string, ftype: nat, size: nat, start: nat, blocks: nat, extents: bool): Entry {
    Entry(name, true, ftype, extents, 0, size, start, blocks, 0, 0)
  }

  predicate InSubdir(fs: FS, dir: Option<string>) {
    dir.Some? && dir.value != "" && dir.value in fs.subdirs
  }

  function PutEntry(fs: FS, dir: Option<string>, name: string, e: Entry): (r: (FS, Outcome)) {
    if InSubdir(fs, dir) then
      var sd := fs.subdirs[dir.value];
      var slot := SlotFor(sd.data, name);
      if slot.None? then (fs, Full)
      else (fs.(subdirs := fs.subdirs[dir.value := sd.(data := sd.data[slot.value := e])]), Done)
    else
      var slot := SlotFor(fs.root, name);
      if slot.None? then (fs, Full)
      else (fs.(root := fs.root[slot.value := e]), Done)
  }

  /** A file for the root or a subdirectory; a directory that was never created means
      the root. A name that is not ASCII raises when the data is already written. */
  function AddFile(fs: FS, name: string, data: seq<Byte>, dir: Option<string>, ftype: nat, fragments: nat): (FS, Outcome) {
    var p := Place(fs, data, fragments);
    if p.Refused? || !Ascii(name) then (p.fs, Raised)
    else PutEntry(p.fs, dir, name, FileEntry(Clip(name), ftype, |data|, p.start, BlocksFor(|data|), p.extents))
  }

  function ReadDir(image: Image, start: nat): Directory {
    if start in image && image[start].DirCell? && |image[start].dir| == DIR_SLOTS && HoldsDir(image, start, image[start].dir)
    then image[start].dir
    else EmptyDirectory()
  }

  function WriteDir(image: Image, start: nat, dir: Directory): Image {
    image + map b | b in Range(start, DIR_BLOCKS) :: DirCell(dir, b - start)
  }

  function DirEntry(name: string, start: nat): Entry {
    Entry(name, true, FTYPE_DIR, false, 0, 0, start, DIR_BLOCKS, 0, 0)
  }

  /** A subdirectory of the root. One that is already there is read back from the
      image; a file of that name gives way to it. */
  function CreateSubdir(fs: FS, name: string): (FS, Outcome) {
    var slot := FindName(fs.root, name, 0);
    if slot.Some? && fs.root[slot.value].ftype == FTYPE_DIR then
      var start := fs.root[slot.value].start;
      (fs.(subdirs := fs.subdirs[name := Subdir(start, ReadDir(fs.image, start))]), Done)
    else
      var cleared := if slot.Some? then fs.(root := fs.root[slot.value := FREE_SLOT]) else fs;
      var made := Alloc(cleared, DIR_BLOCKS).(image := WriteDir(fs.image, fs.next, EmptyDirectory()));
      var free := FindFree(made.root, 0);
      if free.None? || !Ascii(name) then (made, Raised)
      else
        (made.(root := made.root[free.value := DirEntry(Clip(name), fs.next)],
               subdirs := made.subdirs[name := Subdir(fs.next, EmptyDirectory())]), Done)
  }

  datatype Call =
    | MakeDir(name: string)
    | PutFile(name: string, data: seq<Byte>, dir: Option<string>, ftype: nat, fragments: nat)

  function Step(fs: FS, call: Call): (FS, Outcome) {
    match call
    case MakeDir(name) => CreateSubdir(fs, name)
    case PutFile(name, data, dir, ftype, fragments) => AddFile(fs, name, data, dir, ftype, fragments)
  }

  /** Names fit the entry and hold no NUL, and files are typed as files. */
  predicate GoodCall(call: Call) {
    match call
    case MakeDir(name) => Whole(name)
    case PutFile(name, _, _, ftype, _) => Whole(name) && ftype in {FTYPE_TEXT, FTYPE_EXEC, FTYPE_BATCH}
  }

  lemma {:induction false} UpToNulIs(s: string)
    ensures UpToNul(s) == s <==> '\0' !in s
    ensures '\0' !in UpToNul(s) && |UpToNul(s)| <= |s|
    ensures forall i :: 0 <= i < |UpToNul(s)| ==> UpToNul(s)[i] == s[i]
  {
    if s != [] && s[0] != '\0' {
      UpToNulIs(s[1..]);
      assert s == [s[0]] + s[1..];
    }
  }

  /** Exactly the names that fit and hold no NUL are stored whole. */
  lemma {:induction false} ClipKeeps(name: string)
    ensures Clip(name) == name <==> |name| <= MAX_NAME && '\0' !in name
    ensures '\0' !in Clip(name) && |Clip(name)| <= MAX_NAME
    ensures Ascii(name) ==> Ascii(Clip(name))
  {
    UpToNulIs(if |name| > MAX_NAME then name[..MAX_NAME] else name);
  }

  // ----- finalize -----------------------------------------------------------------

  /** Subdirectories go to their blocks, in whatever order. */
  ghost function WriteSubdirs(fs: FS): Image {
    map b | b in fs.image ::
      if exists d :: d in fs.subdirs && b in Range(fs.subdirs[d].start, DIR_BLOCKS)
      then var d :| d in fs.subdirs && b in Range(fs.subdirs[d].start, DIR_BLOCKS);
        DirCell(fs.subdirs[d].data, b - fs.subdirs[d].start)
      else fs.image[b]
  }

  /** The blocks of a directory's live entries. */
  function MarkDirectory(image: Image, dir: Directory): set<nat> {
    if dir == [] then {}
    else
      var e := dir[|dir| - 1];
      MarkDirectory(image, dir[..|dir| - 1]) + if Used(e) then EntryBlocks(image, e) else {}
  }

  /** The directories the rebuild descends into, by live root entries. */
  function MarkSubdirs(image: Image, root: Directory, subdirs: map<string, Subdir>): set<nat> {
    if root == [] then {}
    else
      var e := root[|root| - 1];
      MarkSubdirs(image, root[..|root| - 1], subdirs) +
      if Used(e) && e.ftype == FTYPE_DIR && e.count > 0 then
        MarkDirectory(image, if e.name in subdirs then subdirs[e.name].data else ReadDir(image, e.start))
      else {}
  }

  function Rebuild(image: Image, root: Directory, subdirs: map<string, Subdir>): set<nat> {
    Range(0, JOURNAL_BLOCKS) + MarkDirectory(image, root) + MarkSubdirs(image, root, subdirs)
  }
}
