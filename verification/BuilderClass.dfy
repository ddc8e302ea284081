/** The builder as it runs: an object that fills an image call by call. */
module BuilderClass {
  import opened HbfsTypes
  import opened BuilderSpec
  import BuilderInvariant

  class FSImage {
    const v4: bool
    const total: nat
    var image: Image
    var root: Directory
    var subdirs: map<string, Subdir>
    var next: nat
    var bitmap: set<nat>
    var free: int                // the superblock's free count

    ghost function Volume(): FS
      reads this
    {
      FS(v4, image, root, subdirs, next, bitmap)
    }

    constructor (v4: bool, total: nat)
      ensures Volume() == NewFS(v4) && this.total == total && free == total
    {
      this.v4 := v4;
      this.total := total;
      image, root, subdirs, next, bitmap := map[], EmptyDirectory(), map[], JOURNAL_BLOCKS, {};
      free := total;
    }

    method FindEntrySlot(dir: Directory, name: string) returns (r: Option<nat>)
      ensures r == FindName(dir, name, 0)
    {
      for i := 0 to |dir|
        invariant FindName(dir, name, i) == FindName(dir, name, 0)
      {
        if Used(dir[i]) && dir[i].name == name {
          return Some(i);
        }
      }
      return None;
    }

    method FindFreeSlot(dir: Directory) returns (r: Option<nat>)
      ensures r == FindFree(dir, 0)
    {
      for i := 0 to |dir|
        invariant FindFree(dir, i) == FindFree(dir, 0)
      {
        if dir[i].ftype == FTYPE_FREE && dir[i].name == "" {
          return Some(i);
        }
      }
      return None;
    }

    method MarkBlockRange(marked: set<nat>, start: nat, count: nat) returns (r: set<nat>)
      ensures r == marked + Range(start, count)
    {
      r := marked;
      for b := start to start + count
        invariant r == marked + Range(start, b - start)
      {
        r := r + {b};
      }
    }

    method AllocBlocks(count: nat) returns (start: nat)
      modifies this`next, this`bitmap
      ensures start == old(next) && Volume() == Alloc(old(Volume()), count)
    {
      start := next;
      bitmap := MarkBlockRange(bitmap, start, count);
      next := next + count;
    }

    /** Data padded with zeros to whole blocks. */
    method WriteBlocks(start: nat, data: seq<Byte>, blocks: nat)
      requires |data| <= blocks * BLOCK_SIZE
      modifies this`image
      ensures image == WriteData(old(image), start, data, blocks)
    {
      hide Chunk;
      ghost var image0 := image;
      for i := 0 to blocks
        invariant image == WriteData(image0, start, data, i)
      {
        image := image[start + i := Bytes(Chunk(data, i))];
      }
    }

    /** The data of a fragmented file, run by run; the runs come one after another,
        so the whole lies where one run would have put it. */
    method WriteFragments(data: seq<Byte>, blocks: nat, fragments: nat) returns (runs: seq<Run>, block: nat, ok: bool)
      requires blocks == BlocksFor(|data|) && fragments > 1
      modifies this`image, this`next, this`bitmap
      ensures runs == Runs(old(next), blocks, RunLength(blocks, fragments))
      ensures ok == (|runs| <= EXTENT_MAX)
      ensures var written := Alloc(old(Volume()), blocks).(image := WriteData(old(image), old(next), data, blocks));
        if ok then block == written.next && Volume() == Alloc(written, 1).(image := written.image[block := Extents(runs)])
        else Volume() == written
    {
      hide Chunk, BlocksFor, RunLength, WriteData;
      var per := RunLength(blocks, fragments);
      ghost var fs0 := Volume();
      assert WriteData(fs0.image, fs0.next, data, 0) == fs0.image by {
        NothingWritten(fs0.image, fs0.next, data);
      }
      runs := [];
      var remaining: nat, done: nat := blocks, 0;
      while remaining > 0
        invariant done + remaining == blocks
        invariant runs + Runs(fs0.next + done, remaining, per) == Runs(fs0.next, blocks, per)
        invariant Volume() == Alloc(fs0, done).(image := WriteData(fs0.image, fs0.next, data, done))
        decreases remaining
      {
        var take := Min(per, remaining);
        var start := AllocBlocks(take);
        var lo, hi := Min(done * BLOCK_SIZE, |data|), Min((done + take) * BLOCK_SIZE, |data|);
        SliceFits(data, done, take);
        WriteBlocks(start, data[lo..hi], take);
        PiecesJoin(fs0.image, fs0.next, data, done, take);
        ghost var rest := Runs(fs0.next + done + take, remaining - take, per);
        assert runs + ([Run(start, take)] + rest) == (runs + [Run(start, take)]) + rest;
        runs := runs + [Run(start, take)];
        remaining, done := remaining - take, done + take;
        assert Volume().bitmap == fs0.bitmap + Range(fs0.next, done);
      }
      assert runs + [] == runs;
      ok := |runs| <= EXTENT_MAX;
      block := next;
      if ok {
        block := AllocBlocks(1);
        image := image[block := Extents(runs)];
      }
    }

    lemma {:induction false} NothingWritten(image: Image, start: nat, data: seq<Byte>)
      ensures WriteData(image, start, data, 0) == image
    {
    }

    lemma {:induction false} SliceFits(data: seq<Byte>, done: nat, take: nat)
      ensures var lo, hi := Min(done * BLOCK_SIZE, |data|), Min((done + take) * BLOCK_SIZE, |data|);
        lo <= hi && hi - lo <= take * BLOCK_SIZE
    {
    }

    /** Writing a stretch of the data after what came before it. */
    lemma {:induction false} PiecesJoin(image: Image, start: nat, data: seq<Byte>, done: nat, take: nat)
      ensures var lo, hi := Min(done * BLOCK_SIZE, |data|), Min((done + take) * BLOCK_SIZE, |data|);
        lo <= hi && WriteData(WriteData(image, start, data, done), start + done, data[lo..hi], take)
                    == WriteData(image, start, data, done + take)
    {
      var lo, hi := Min(done * BLOCK_SIZE, |data|), Min((done + take) * BLOCK_SIZE, |data|);
      SliceFits(data, done, take);
      hide Chunk, Min, WriteData;
      forall i: nat | i < take
        ensures Chunk(data[lo..hi], i) == Chunk(data, done + i)
      {
        ChunkOfSlice(data, done, take, i);
      }
      PieceJoins(image, start, data, data[lo..hi], done, take);
    }

    static lemma {:induction false} WrittenAt(image: Image, start: nat, data: seq<Byte>, blocks: nat, b: nat)
      ensures var written := WriteData(image, start, data, blocks);
        && (b in written <==> b in image || start <= b < start + blocks)
        && (b in written ==> written[b] == if start <= b < start + blocks then Bytes(Chunk(data, b - start)) else image[b])
    {
      hide Chunk;
    }

    lemma {:induction false} PieceJoins(image: Image, start: nat, data: seq<Byte>, piece: seq<Byte>, done: nat, take: nat)
      requires forall i: nat :: i < take ==> Chunk(piece, i) == Chunk(data, done + i)
      ensures WriteData(WriteData(image, start, data, done), start + done, piece, take) == WriteData(image, start, data, done + take)
    {
      hide Chunk, WriteData;
      var first := WriteData(image, start, data, done);
      var whole, pieces := WriteData(image, start, data, done + take), WriteData(first, start + done, piece, take);
      forall b: nat
        ensures b in whole <==> b in pieces
        ensures b in whole ==> pieces[b] == whole[b]
      {
        WrittenAt(image, start, data, done, b);
        WrittenAt(image, start, data, done + take, b);
        WrittenAt(first, start + done, piece, take, b);
        if start + done <= b < start + done + take {
          var i: nat := b - start - done;
          assert Chunk(piece, i) == Chunk(data, done + i);
        }
      }
    }

    lemma {:induction false} SliceOfSlice(data: seq<Byte>, lo: nat, hi: nat, a: nat, b: nat)
      requires lo <= hi <= |data| && a <= b <= hi - lo
      ensures data[lo..hi][a..b] == data[lo + a..lo + b]
    {
      var x, y := data[lo..hi][a..b], data[lo + a..lo + b];
      assert |x| == |y|;
      forall k | 0 <= k < |x|
        ensures x[k] == y[k]
      {
        assert x[k] == data[lo..hi][a + k] == data[lo + a + k];
      }
    }

    lemma {:induction false} ChunkOfSlice(data: seq<Byte>, done: nat, take: nat, i: nat)
      requires i < take
      ensures var lo, hi := Min(done * BLOCK_SIZE, |data|), Min((done + take) * BLOCK_SIZE, |data|);
        lo <= hi && Chunk(data[lo..hi], i) == Chunk(data, done + i)
    {
      var lo, hi := Min(done * BLOCK_SIZE, |data|), Min((done + take) * BLOCK_SIZE, |data|);
      var piece := data[lo..hi];
      assert (done + i) * BLOCK_SIZE == done * BLOCK_SIZE + i * BLOCK_SIZE;
      assert (i + 1) * BLOCK_SIZE <= take * BLOCK_SIZE;
      var a, b := Min(i * BLOCK_SIZE, |piece|), Min(i * BLOCK_SIZE + BLOCK_SIZE, |piece|);
      var a', b' := Min((done + i) * BLOCK_SIZE, |data|), Min((done + i) * BLOCK_SIZE + BLOCK_SIZE, |data|);
      if done * BLOCK_SIZE <= |data| {
        assert lo + a == a' && lo + b == b';
        SliceOfSlice(data, lo, hi, a, b);
      } else {
        assert piece == [] && a' == b' == |data|;
      }
    }

    method CreateDir(name: string) returns (r: Outcome)
      modifies this`image, this`root, this`subdirs, this`next, this`bitmap
      ensures (Volume(), r) == CreateSubdir(old(Volume()), name)
    {
      var slot := FindEntrySlot(root, name);
      if slot.Some? {
        if root[slot.value].ftype == FTYPE_DIR {
          var start := root[slot.value].start;
          subdirs := subdirs[name := Subdir(start, ReadDir(image, start))];
          return Done;
        }
        root := root[slot.value := FREE_SLOT];
      }
      var start := AllocBlocks(DIR_BLOCKS);
      image := WriteDir(image, start, EmptyDirectory());
      var free := FindFreeSlot(root);
      if free.None? || !Ascii(name) {
        return Raised;
      }
      root := root[free.value := DirEntry(Clip(name), start)];
      subdirs := subdirs[name := Subdir(start, EmptyDirectory())];
      return Done;
    }

    method PutFile(name: string, data: seq<Byte>, dir: Option<string>, ftype: nat, fragments: nat) returns (r: Outcome)
      modifies this`image, this`root, this`subdirs, this`next, this`bitmap
      ensures (Volume(), r) == AddFile(old(Volume()), name, data, dir, ftype, fragments)
    {
      hide BlocksFor, RunLength, Runs, WriteData, FindName, FindFree;
      var blocks := BlocksFor(|data|);
      if fragments > 1 && !v4 {
        return Raised;
      }
      var start: nat, extents := next, false;
      if fragments > 1 {
        var runs, block, ok := WriteFragments(data, blocks, fragments);
        if !ok {
          return Raised;
        }
        start, extents := block, true;
      } else {
        start := AllocBlocks(blocks);
        WriteBlocks(start, data, blocks);
      }
      if !Ascii(name) {
        return Raised;
      }
      var entry := FileEntry(Clip(name), ftype, |data|, start, blocks, extents);
      if dir.Some? && dir.value != "" && dir.value in subdirs {
        var sd := subdirs[dir.value];
        var slot := FindEntrySlot(sd.data, name);
        if slot.None? {
          slot := FindFreeSlot(sd.data);
        }
        if slot.None? {
          return Full;
        }
        subdirs := subdirs[dir.value := sd.(data := sd.data[slot.value := entry])];
      } else {
        var slot := FindEntrySlot(root, name);
        if slot.None? {
          slot := FindFreeSlot(root);
        }
        if slot.None? {
          return Full;
        }
        root := root[slot.value := entry];
      }
      return Done;
    }

    /** The blocks of a directory's live entries, and where to go down. */
    method MarkDir(marked: set<nat>, dir: Directory) returns (r: set<nat>)
      ensures r == marked + MarkDirectory(image, dir)
    {
      r := marked;
      for i := 0 to |dir|
        invariant r == marked + MarkDirectory(image, dir[..i])
      {
        var e := dir[i];
        assert dir[..i + 1][..i] == dir[..i];
        if Used(e) {
          r := r + EntryBlocks(image, e);
        }
      }
      assert dir[..|dir|] == dir;
    }

    method RebuildBitmap() returns (used: nat)
      modifies this`bitmap
      ensures bitmap == Rebuild(image, root, subdirs) && used == |bitmap|
    {
      var marked := MarkBlockRange({}, 0, JOURNAL_BLOCKS);
      marked := MarkDir(marked, root);
      ghost var base := marked;
      for i := 0 to |root|
        invariant marked == base + MarkSubdirs(image, root[..i], subdirs)
      {
        var e := root[i];
        assert root[..i + 1][..i] == root[..i];
        if Used(e) && e.ftype == FTYPE_DIR && e.count > 0 {
          marked := MarkDir(marked, if e.name in subdirs then subdirs[e.name].data else ReadDir(image, e.start));
        }
      }
      assert root[..|root|] == root;
      bitmap := marked;
      used := |marked|;
    }

    /** Subdirectories to their blocks, then the bitmap and the free count. */
    method Finalize()
      requires exists own :: BuilderInvariant.Inv(Volume(), own)
      modifies this`image, this`bitmap, this`free
      ensures image == WriteSubdirs(old(Volume())) && bitmap == Rebuild(image, root, subdirs)
      ensures free == total - |bitmap|
    {
      hide BuilderInvariant.Inv, WriteSubdirs, WriteDir, WrittenFor, Rebuild;
      ghost var fs := Volume();
      ghost var own :| BuilderInvariant.Inv(fs, own);
      assert WrittenFor(fs, image, {}) by {
        NoneWritten(fs);
      }
      var left := subdirs.Keys;
      ghost var done: set<string> := {};
      while left != {}
        invariant done + left == fs.subdirs.Keys && done !! left
        invariant subdirs == fs.subdirs && root == fs.root
        invariant WrittenFor(fs, image, done)
        decreases left
      {
        var d :| d in left;
        WriteOne(fs, own, image, done, d);
        image := WriteDir(image, subdirs[d].start, subdirs[d].data);
        left, done := left - {d}, done + {d};
      }
      AllWritten(fs, own, image);
      var used := RebuildBitmap();
      free := total - used;
    }

    /** The image with the directories in `done` written. */
    ghost predicate WrittenFor(fs: FS, img: Image, done: set<string>) {
      && img.Keys == fs.image.Keys
      && (forall b :: b in img && !(exists d :: InRun(fs, done, d, b)) ==> img[b] == fs.image[b])
      && (forall b, d :: b in img && InRun(fs, done, d, b) ==> img[b] == DirCell(fs.subdirs[d].data, b - fs.subdirs[d].start))
    }

    lemma {:induction false} NoneWritten(fs: FS)
      ensures WrittenFor(fs, fs.image, {})
    {
    }

    ghost predicate InRun(fs: FS, done: set<string>, d: string, b: nat) {
      d in done && d in fs.subdirs && b in Range(fs.subdirs[d].start, DIR_BLOCKS)
    }

    /** Two directories never share a block, so the order of writing is no matter. */
    lemma {:induction false} OneRun(fs: FS, own: BuilderInvariant.Owners, d: string, k: string, b: nat)
      requires BuilderInvariant.Inv(fs, own) && d in fs.subdirs && k in fs.subdirs
      requires b in Range(fs.subdirs[d].start, DIR_BLOCKS) && b in Range(fs.subdirs[k].start, DIR_BLOCKS)
      ensures d == k
    {
      assert BuilderInvariant.GoodSubdir(fs, own, d) && BuilderInvariant.GoodSubdir(fs, own, k);
    }

    lemma {:induction false} RunMapped(fs: FS, own: BuilderInvariant.Owners, img: Image, d: string)
      requires BuilderInvariant.Inv(fs, own) && d in fs.subdirs && img.Keys == fs.image.Keys
      ensures WriteDir(img, fs.subdirs[d].start, fs.subdirs[d].data).Keys == fs.image.Keys
    {
      assert BuilderInvariant.GoodSubdir(fs, own, d);
    }

    lemma {:induction false} WriteDirAt(img: Image, start: nat, dir: Directory, b: nat)
      ensures b in Range(start, DIR_BLOCKS) ==> b in WriteDir(img, start, dir) && WriteDir(img, start, dir)[b] == DirCell(dir, b - start)
      ensures b in img && b !in Range(start, DIR_BLOCKS) ==> b in WriteDir(img, start, dir) && WriteDir(img, start, dir)[b] == img[b]
    {
    }

    lemma {:induction false} WriteOne(fs: FS, own: BuilderInvariant.Owners, img: Image, done: set<string>, d: string)
      requires BuilderInvariant.Inv(fs, own) && WrittenFor(fs, img, done) && d in fs.subdirs && d !in done
      ensures WrittenFor(fs, WriteDir(img, fs.subdirs[d].start, fs.subdirs[d].data), done + {d})
    {
      hide BuilderInvariant.Inv, WriteDir;
      var sd := fs.subdirs[d];
      var img' := WriteDir(img, sd.start, sd.data);
      RunMapped(fs, own, img, d);
      forall b, k | b in img' && InRun(fs, done + {d}, k, b)
        ensures img'[b] == DirCell(fs.subdirs[k].data, b - fs.subdirs[k].start)
      {
        WriteDirAt(img, sd.start, sd.data, b);
        if b in Range(sd.start, DIR_BLOCKS) {
          OneRun(fs, own, d, k, b);
        } else {
          assert InRun(fs, done, k, b);
        }
      }
      forall b | b in img' && !(exists k :: InRun(fs, done + {d}, k, b))
        ensures img'[b] == fs.image[b]
      {
        WriteDirAt(img, sd.start, sd.data, b);
        assert !InRun(fs, done + {d}, d, b);
        assert forall k :: InRun(fs, done, k, b) ==> InRun(fs, done + {d}, k, b);
      }
    }

    lemma {:induction false} AllWritten(fs: FS, own: BuilderInvariant.Owners, img: Image)
      requires BuilderInvariant.Inv(fs, own) && WrittenFor(fs, img, fs.subdirs.Keys)
      ensures img == WriteSubdirs(fs)
    {
      var want := WriteSubdirs(fs);
      hide BuilderInvariant.Inv;
      forall b | b in img
        ensures img[b] == want[b]
      {
        if d :| d in fs.subdirs && b in Range(fs.subdirs[d].start, DIR_BLOCKS) {
          assert InRun(fs, fs.subdirs.Keys, d, b);
          forall k | k in fs.subdirs && b in Range(fs.subdirs[k].start, DIR_BLOCKS)
            ensures k == d
          {
            OneRun(fs, own, d, k, b);
          }
        } else {
          assert forall k :: !InRun(fs, fs.subdirs.Keys, k, b);
        }
      }
    }
  }
}
