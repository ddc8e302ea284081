/** The volume the builder finalizes is the one the checker accepts. */
module BuilderMeetsChecker {
  import opened HbfsTypes
  import opened BuilderSpec
  import opened BuilderInvariant
  import opened BuilderReadback
  import opened CheckerSpec
  import CheckerSound

  // ----- the finalized image ------------------------------------------------------------

  ghost predicate FinalSubdir(fs: FS, img: Image, own: Owners, d: string)
    requires d in fs.subdirs
  {
    var sd := fs.subdirs[d];
    && d != "" && |sd.data| == DIR_SLOTS
    && (forall i :: 0 <= i < |sd.data| ==> sd.data[i] == FREE_SLOT || GoodFile(img, own, sd.data[i], SubFile(d, i)))
    && (forall b :: b in Range(sd.start, DIR_BLOCKS) ==> b in own && own[b] == Owner(DirRun(d), false))
    && HoldsDir(img, sd.start, sd.data)
  }

  ghost predicate FinalRootSlot(fs: FS, img: Image, own: Owners, i: nat)
    requires i < |fs.root|
  {
    var e := fs.root[i];
    e == FREE_SLOT || GoodDirEntry(fs.subdirs, e) || GoodFile(img, own, e, RootFile(i))
  }

  ghost predicate Final(fs: FS, img: Image, own: Owners) {
    && |fs.root| == DIR_SLOTS && UniqueNames(fs.root)
    && (forall i :: 0 <= i < |fs.root| ==> FinalRootSlot(fs, img, own, i))
    && (forall d :: d in fs.subdirs ==> FinalSubdir(fs, img, own, d))
    && (forall b :: b in own ==> JOURNAL_BLOCKS <= b < fs.next)
  }

  /** Blocks of files are not blocks of directories. */
  lemma {:induction false} WrittenElsewhere(fs: FS, own: Owners, b: nat)
    requires Inv(fs, own) && b in fs.image && b in own && !own[b].pos.DirRun?
    ensures b in WriteSubdirs(fs) && WriteSubdirs(fs)[b] == fs.image[b]
  {
    forall d | d in fs.subdirs
      ensures b !in Range(fs.subdirs[d].start, DIR_BLOCKS)
    {
      assert GoodSubdir(fs, own, d);
    }
  }

  lemma {:induction false} WrittenRun(fs: FS, own: Owners, d: string)
    requires Inv(fs, own) && d in fs.subdirs
    ensures HoldsDir(WriteSubdirs(fs), fs.subdirs[d].start, fs.subdirs[d].data)
    ensures DirAt(WriteSubdirs(fs), fs.subdirs[d].start, DIR_BLOCKS) == Some(fs.subdirs[d].data)
  {
    hide WriteSubdirs;
    var start, data := fs.subdirs[d].start, fs.subdirs[d].data;
    forall k | 0 <= k < DIR_BLOCKS
      ensures DirCellAt(WriteSubdirs(fs), start, data, k)
    {
      WrittenPart(fs, own, d, k);
    }
    HeldDir(WriteSubdirs(fs), start, data);
  }

  lemma {:induction false} WrittenPart(fs: FS, own: Owners, d: string, k: nat)
    requires Inv(fs, own) && d in fs.subdirs && k < DIR_BLOCKS
    ensures DirCellAt(WriteSubdirs(fs), fs.subdirs[d].start, fs.subdirs[d].data, k)
  {
    hide Inv;
    var b := fs.subdirs[d].start + k;
    DirOwned(fs, own, d, b);
    forall e | e in fs.subdirs && b in Range(fs.subdirs[e].start, DIR_BLOCKS)
      ensures e == d
    {
      DirOwned(fs, own, e, b);
    }
  }

  lemma {:induction false} DirOwned(fs: FS, own: Owners, d: string, b: nat)
    requires Inv(fs, own) && d in fs.subdirs && fs.subdirs[d].start <= b < fs.subdirs[d].start + DIR_BLOCKS
    ensures b in Range(fs.subdirs[d].start, DIR_BLOCKS) && b in fs.image && b in own && own[b] == Owner(DirRun(d), false)
  {
    assert GoodSubdir(fs, own, d);
  }

  lemma {:induction false} HeldDir(img: Image, start: nat, dir: Directory)
    requires HoldsDir(img, start, dir)
    ensures DirAt(img, start, DIR_BLOCKS) == Some(dir)
  {
    assert DirCellAt(img, start, dir, 0);
  }

  lemma {:induction false} FinalFile(fs: FS, own: Owners, e: Entry, pos: Pos)
    requires Inv(fs, own) && GoodFile(fs.image, own, e, pos) && !pos.DirRun?
    ensures GoodFile(WriteSubdirs(fs), own, e, pos) && ReadFile(WriteSubdirs(fs), e) == ReadFile(fs.image, e)
  {
    var img := WriteSubdirs(fs);
    hide WriteSubdirs, Inv;
    forall b | b in EntryBlocks(fs.image, e)
      ensures b in img && img[b] == fs.image[b]
    {
      WrittenElsewhere(fs, own, b);
    }
    ReadFileFrame(fs.image, img, e);
  }

  lemma {:induction false} Finalized(fs: FS, own: Owners)
    requires Inv(fs, own)
    ensures Final(fs, WriteSubdirs(fs), own)
  {
    var img := WriteSubdirs(fs);
    hide WriteSubdirs, GoodFile;
    forall i | 0 <= i < |fs.root|
      ensures FinalRootSlot(fs, img, own, i)
    {
      assert GoodRootSlot(fs, own, i);
      if GoodFile(fs.image, own, fs.root[i], RootFile(i)) {
        FinalFile(fs, own, fs.root[i], RootFile(i));
      }
    }
    forall d | d in fs.subdirs
      ensures FinalSubdir(fs, img, own, d)
    {
      assert GoodSubdir(fs, own, d);
      WrittenRun(fs, own, d);
      forall i | 0 <= i < |fs.subdirs[d].data| && fs.subdirs[d].data[i] != FREE_SLOT
        ensures GoodFile(img, own, fs.subdirs[d].data[i], SubFile(d, i))
      {
        FinalFile(fs, own, fs.subdirs[d].data[i], SubFile(d, i));
      }
    }
  }

  // ----- what the checker sees -----------------------------------------------------------------

  function DirAt(img: Image, start: nat, count: nat): Option<Directory> {
    if count == DIR_BLOCKS && start in img && img[start].DirCell? && HoldsDir(img, start, img[start].dir)
    then Some(img[start].dir)
    else None
  }

  function ExtentsAt(img: Image, block: nat): ExtentRead {
    if block !in img then ShortBlock else if img[block].Extents? then ExtentList(img[block].runs) else NotExtents
  }

  ghost function ViewOf(fs: FS, img: Image, total: nat, dataLba: nat): View {
    View(Some(fs.root), (start: nat, count: nat) => DirAt(img, start, count), (block: nat) => ExtentsAt(img, block), total, dataLba, fs.v4)
  }

  /** The name under which the walk claims a block of the given owner. */
  function NameOf(fs: FS, o: Owner): string {
    match o.pos
    case RootFile(k) =>
      var file := "/" + (if k < |fs.root| then fs.root[k].name else "");
      if o.meta then file + " [extents]" else file
    case SubFile(d, k) =>
      var file := "/" + d + "/" + (if d in fs.subdirs && k < |fs.subdirs[d].data| then fs.subdirs[d].data[k].name else "");
      if o.meta then file + " [extents]" else file
    case DirRun(d) => "/" + d + "/"
  }

  /** The claims on a set of owned blocks. */
  function Names(fs: FS, own: Owners, s: set<nat>): map<nat, string> {
    map b | b in s && b in own :: NameOf(fs, own[b])
  }

  /** The state of a walk that found nothing wrong and has claimed `s`. */
  ghost predicate At(fs: FS, own: Owners, st: State, s: set<nat>) {
    && st.errors == [] && st.overlaps == 0 && st.claims == Names(fs, own, s)
    && (forall b :: b in s ==> b in own && b >= JOURNAL_BLOCKS)
  }

  // ----- claiming fresh blocks --------------------------------------------------------------------

  function All(s: set<nat>, owner: string): (m: map<nat, string>)
    ensures m.Keys == s && forall x :: x in s ==> m[x] == owner
  {
    map x | x in s :: owner
  }

  lemma {:induction false} AllStep(claims: map<nat, string>, b: nat, n: nat, owner: string)
    requires n > 0
    ensures claims[b := owner] + All(Range(b + 1, n - 1), owner) == claims + All(Range(b, n), owner)
  {
  }

  lemma {:induction false} ClaimBlocksExact(st: State, b: nat, end: nat, owner: string)
    requires b >= JOURNAL_BLOCKS && b <= end && forall x :: b <= x < end ==> x !in st.claims
    ensures ClaimBlocks(st, b, end, owner) == st.(claims := st.claims + All(Range(b, end - b), owner))
    decreases end - b
  {
    if b < end {
      var st1 := ClaimOne(st, b, owner);
      ClaimBlocksExact(st1, b + 1, end, owner);
      AllStep(st.claims, b, end - b, owner);
    } else {
      assert st.claims + All(Range(b, end - b), owner) == st.claims;
    }
  }

  lemma {:induction false} NamesGrow(fs: FS, own: Owners, s: set<nat>, more: set<nat>, owner: string)
    requires forall b :: b in more ==> b in own && NameOf(fs, own[b]) == owner
    ensures Names(fs, own, s) + All(more, owner) == Names(fs, own, s + more)
  {
    hide NameOf;
  }

  lemma {:induction false} ClaimAt(fs: FS, own: Owners, v: View, st: State, s: set<nat>, start: nat, count: nat, owner: string)
    requires At(fs, own, st, s) && start + count <= v.total
    requires forall b :: b in Range(start, count) ==> b in own && b >= JOURNAL_BLOCKS && b !in s && NameOf(fs, own[b]) == owner
    ensures At(fs, own, Claim(v, st, start, count, owner), s + Range(start, count))
    ensures Claim(v, st, start, count, owner).visited == st.visited
  {
    hide NameOf;
    if count > 0 {
      assert start in Range(start, count);
      ClaimBlocksExact(st, start, start + count, owner);
      NamesGrow(fs, own, s, Range(start, count), owner);
    } else {
      assert s + Range(start, count) == s;
    }
  }

  lemma {:induction false} ClaimRunsAt(fs: FS, own: Owners, v: View, st: State, s: set<nat>, display: string, runs: seq<Run>)
    requires At(fs, own, st, s)
    requires forall i :: 0 <= i < |runs| ==> runs[i].count > 0 && runs[i].start + runs[i].count <= v.total
    requires forall b :: b in RunBlocks(runs) ==> b in own && b >= JOURNAL_BLOCKS && b !in s && NameOf(fs, own[b]) == display
    requires RunsApart(runs)
    ensures At(fs, own, ClaimRuns(v, st, display, runs), s + RunBlocks(runs))
    ensures ClaimRuns(v, st, display, runs).visited == st.visited
    decreases |runs|
  {
    hide NameOf, Claim;
    if runs == [] {
      assert s + RunBlocks(runs) == s;
    } else {
      var r := runs[0];
      var rest := runs[1..];
      var st1 := Claim(v, st, r.start, r.count, display);
      ClaimAt(fs, own, v, st, s, r.start, r.count, display);
      ClaimRunsAt(fs, own, v, st1, s + Range(r.start, r.count), display, rest);
      assert s + Range(r.start, r.count) + RunBlocks(rest) == s + RunBlocks(runs);
    }
  }

  // ----- one file ------------------------------------------------------------------------------------

  lemma {:induction false} RunsInVolume(own: Owners, runs: seq<Run>, next: nat)
    requires forall i :: 0 <= i < |runs| ==> runs[i].count > 0
    requires forall b :: b in RunBlocks(runs) ==> b in own
    requires forall b :: b in own ==> b < next
    ensures forall i :: 0 <= i < |runs| ==> runs[i].start + runs[i].count <= next
    decreases |runs|
  {
    if runs != [] {
      var r := runs[0];
      assert r.start + r.count - 1 in Range(r.start, r.count);
      assert forall b :: b in RunBlocks(runs[1..]) ==> b in RunBlocks(runs);
      RunsInVolume(own, runs[1..], next);
      assert forall i :: 0 < i < |runs| ==> runs[i] == runs[1..][i - 1];
    }
  }

  ghost predicate FileCtx(fs: FS, img: Image, own: Owners, v: View, e: Entry, pos: Pos, display: string) {
    && GoodFile(img, own, e, pos)
    && (forall b :: b in own ==> JOURNAL_BLOCKS <= b < v.total)
    && (e.extents ==> v.v4) && v.extentsAt(e.start) == ExtentsAt(img, e.start)
    && NameOf(fs, Owner(pos, false)) == display && NameOf(fs, Owner(pos, true)) == display + " [extents]"
  }

  lemma {:induction false} FragmentedAt(fs: FS, img: Image, own: Owners, v: View, st: State, s: set<nat>, e: Entry, pos: Pos, display: string)
    requires FileCtx(fs, img, own, v, e, pos, display) && e.extents
    requires At(fs, own, st, s) && forall b :: b in s ==> own[b].pos != pos
    ensures At(fs, own, ClaimExtents(v, st, display, e), s + EntryBlocks(img, e))
    ensures ClaimExtents(v, st, display, e).visited == st.visited
  {
    hide NameOf, Claim, ClaimRuns, RunsApart, RunTotal, Needed, RunBlocks, At;
    AtOwned(fs, own, st, s);
    var runs := img[e.start].runs;
    assert Range(e.start, 1) == {e.start};
    ClaimAt(fs, own, v, st, s, e.start, 1, display + " [extents]");
    var st1 := Claim(v, st, e.start, 1, display + " [extents]");
    RunsInVolume(own, runs, v.total);
    ClaimRunsAt(fs, own, v, st1, s + {e.start}, display, runs);
    EnoughBlocks(e.size, e.count);
    assert s + {e.start} + RunBlocks(runs) == s + EntryBlocks(img, e);
  }

  lemma {:induction false} AtOwned(fs: FS, own: Owners, st: State, s: set<nat>)
    requires At(fs, own, st, s)
    ensures forall b :: b in s ==> b in own && b >= JOURNAL_BLOCKS
  {
  }

  lemma {:induction false} EnoughBlocks(size: nat, count: nat)
    requires size <= count * BLOCK_SIZE
    ensures count >= Needed(size)
  {
  }

  lemma {:induction false} InlineAt(fs: FS, img: Image, own: Owners, v: View, st: State, s: set<nat>, e: Entry, pos: Pos, display: string)
    requires FileCtx(fs, img, own, v, e, pos, display) && !e.extents
    requires At(fs, own, st, s) && forall b :: b in s ==> own[b].pos != pos
    ensures At(fs, own, ClaimInline(v, st, display, e), s + EntryBlocks(img, e))
    ensures ClaimInline(v, st, display, e).visited == st.visited
  {
    hide NameOf, Claim, Needed, At;
    AtOwned(fs, own, st, s);
    EnoughBlocks(e.size, e.count);
    assert e.start + e.count - 1 in Range(e.start, e.count);
    ClaimAt(fs, own, v, st, s, e.start, e.count, display);
  }

  /** A file's entry is walked without complaint and claims its blocks. */
  lemma {:induction false} FileAt(fs: FS, img: Image, own: Owners, v: View, st: State, s: set<nat>, e: Entry, pos: Pos, prefix: string, depth: nat)
    requires depth <= MAX_DEPTH && FileCtx(fs, img, own, v, e, pos, prefix + e.name)
    requires At(fs, own, st, s) && forall b :: b in s ==> own[b].pos != pos
    ensures At(fs, own, WalkEntry(v, st, e, prefix, depth), s + EntryBlocks(img, e))
    ensures WalkEntry(v, st, e, prefix, depth).visited == st.visited
  {
    hide NameOf, At, ClaimExtents, ClaimInline;
    if e.extents {
      FragmentedAt(fs, img, own, v, st, s, e, pos, prefix + e.name);
    } else {
      InlineAt(fs, img, own, v, st, s, e, pos, prefix + e.name);
    }
  }

  // ----- a subdirectory ------------------------------------------------------------------------------

  /** Extents only exist on v4 volumes. */
  ghost predicate ExtentsOnV4(fs: FS) {
    && (forall i :: 0 <= i < |fs.root| ==> fs.root[i].extents ==> fs.v4)
    && (forall d, i :: d in fs.subdirs && 0 <= i < |fs.subdirs[d].data| ==> fs.subdirs[d].data[i].extents ==> fs.v4)
  }

  ghost predicate Ctx(fs: FS, img: Image, own: Owners, v: View) {
    && Final(fs, img, own) && ExtentsOnV4(fs) && fs.next <= v.total
    && v.v4 == fs.v4
    && (forall b :: v.extentsAt(b) == ExtentsAt(img, b))
    && (forall start, count :: v.dirAt(start, count) == DirAt(img, start, count))
  }

  ghost predicate NoSubFileFrom(own: Owners, s: set<nat>, d: string, j: nat) {
    forall b :: b in s && b in own ==> own[b].pos.SubFile? && own[b].pos.dir == d ==> own[b].pos.slot < j
  }

  lemma {:induction false} FileOwned(img: Image, own: Owners, e: Entry, pos: Pos)
    requires GoodFile(img, own, e, pos)
    ensures forall b :: b in EntryBlocks(img, e) ==> b in own && own[b].pos == pos
  {
  }

  lemma {:induction false} LastEntry(v: View, st: State, img: Image, data: Directory, j: nat, prefix: string, depth: nat)
    requires 0 < j <= |data| && depth <= MAX_DEPTH
    ensures var e := data[j - 1];
      && WalkEntries(v, st, data[..j], prefix, depth) == WalkEntry(v, WalkEntries(v, st, data[..j - 1], prefix, depth), e, prefix, depth)
      && MarkDirectory(img, data[..j]) == MarkDirectory(img, data[..j - 1]) + if Used(e) then EntryBlocks(img, e) else {}
  {
    hide WalkEntry, EntryBlocks;
    assert data[..j][..|data[..j]| - 1] == data[..j - 1];
  }

  /** Where the walk of a subdirectory stands after its first `j` entries. */
  ghost predicate Walked(fs: FS, img: Image, own: Owners, v: View, st: State, s: set<nat>, d: string, j: nat)
    requires d in fs.subdirs && j <= |fs.subdirs[d].data|
  {
    var dir := fs.subdirs[d].data[..j];
    var t := WalkEntries(v, st, dir, "/" + d + "/", 2);
    && At(fs, own, t, s + MarkDirectory(img, dir)) && t.visited == st.visited
    && NoSubFileFrom(own, s + MarkDirectory(img, dir), d, j)
    && (forall b :: b in MarkDirectory(img, dir) ==> b in own && own[b].pos.SubFile? && own[b].pos.dir == d)
  }

  lemma {:induction false} WalkedFree(fs: FS, img: Image, own: Owners, v: View, st: State, s: set<nat>, d: string, j: nat)
    requires d in fs.subdirs && j < |fs.subdirs[d].data| && fs.subdirs[d].data[j] == FREE_SLOT
    requires Walked(fs, img, own, v, st, s, d, j)
    ensures Walked(fs, img, own, v, st, s, d, j + 1)
  {
    hide WalkEntry, WalkEntries, MarkDirectory, At, EntryBlocks;
    var data, prefix := fs.subdirs[d].data, "/" + d + "/";
    LastEntry(v, st, img, data, j + 1, prefix, 2);
    FreeWalks(v, WalkEntries(v, st, data[..j], prefix, 2), prefix, 2);
    assert MarkDirectory(img, data[..j + 1]) == MarkDirectory(img, data[..j]);
  }

  lemma {:induction false} WalkedFile(fs: FS, img: Image, own: Owners, v: View, st: State, s: set<nat>, d: string, j: nat)
    requires Ctx(fs, img, own, v) && d in fs.subdirs && j < |fs.subdirs[d].data| && fs.subdirs[d].data[j] != FREE_SLOT
    requires Walked(fs, img, own, v, st, s, d, j)
    ensures Walked(fs, img, own, v, st, s, d, j + 1)
  {
    hide WalkEntry, WalkEntries, MarkDirectory, At, EntryBlocks, Ctx, NoSubFileFrom;
    var data, prefix := fs.subdirs[d].data, "/" + d + "/";
    var marked := MarkDirectory(img, data[..j]);
    LastEntry(v, st, img, data, j + 1, prefix, 2);
    SubdirFileAt(fs, img, own, v, WalkEntries(v, st, data[..j], prefix, 2), s + marked, d, j);
    assert s + MarkDirectory(img, data[..j + 1]) == s + marked + EntryBlocks(img, data[j]);
  }

  lemma {:induction false} SubdirAt(fs: FS, img: Image, own: Owners, v: View, st: State, s: set<nat>, d: string, j: nat)
    requires Ctx(fs, img, own, v) && d in fs.subdirs && j <= |fs.subdirs[d].data|
    requires At(fs, own, st, s) && NoSubFileFrom(own, s, d, 0)
    ensures Walked(fs, img, own, v, st, s, d, j)
    decreases j
  {
    if j == 0 {
      assert s + MarkDirectory(img, fs.subdirs[d].data[..0]) == s;
    } else {
      hide Walked, Ctx, At, NoSubFileFrom;
      SubdirAt(fs, img, own, v, st, s, d, j - 1);
      if fs.subdirs[d].data[j - 1] == FREE_SLOT {
        WalkedFree(fs, img, own, v, st, s, d, j - 1);
      } else {
        WalkedFile(fs, img, own, v, st, s, d, j - 1);
      }
    }
  }

  /** One used slot of a subdirectory. */
  lemma {:induction false} SubdirFileAt(fs: FS, img: Image, own: Owners, v: View, t: State, s: set<nat>, d: string, j: nat)
    requires Ctx(fs, img, own, v) && d in fs.subdirs && j < |fs.subdirs[d].data| && fs.subdirs[d].data[j] != FREE_SLOT
    requires At(fs, own, t, s) && NoSubFileFrom(own, s, d, j)
    ensures var e := fs.subdirs[d].data[j];
      var t' := WalkEntry(v, t, e, "/" + d + "/", 2);
      && At(fs, own, t', s + EntryBlocks(img, e)) && t'.visited == t.visited
      && NoSubFileFrom(own, s + EntryBlocks(img, e), d, j + 1)
      && (forall b :: b in EntryBlocks(img, e) ==> b in own && own[b].pos == SubFile(d, j))
      && Used(e)
  {
    hide WalkEntry, At, EntryBlocks, GoodFile;
    var e := fs.subdirs[d].data[j];
    assert FinalSubdir(fs, img, own, d);
    GoodFileUsed(img, own, e, SubFile(d, j));
    FileOwned(img, own, e, SubFile(d, j));
    AtOwned(fs, own, t, s);
    assert FileCtx(fs, img, own, v, e, SubFile(d, j), "/" + d + "/" + e.name);
    FileAt(fs, img, own, v, t, s, e, SubFile(d, j), "/" + d + "/", 2);
  }

  lemma {:induction false} FreeWalks(v: View, st: State, prefix: string, depth: nat)
    requires depth <= MAX_DEPTH
    ensures WalkEntry(v, st, FREE_SLOT, prefix, depth) == st
  {
  }

  // ----- the root ---------------------------------------------------------------------------------------

  ghost predicate SeenDir(root: Directory, i: nat, d: string)
    requires i <= |root|
  {
    exists k :: 0 <= k < i && Used(root[k]) && root[k].ftype == FTYPE_DIR && root[k].name == d
  }

  ghost predicate SeenPos(root: Directory, i: nat, pos: Pos)
    requires i <= |root|
  {
    match pos
    case RootFile(k) => k < i
    case SubFile(d, _) => SeenDir(root, i, d)
    case DirRun(d) => SeenDir(root, i, d)
  }

  /** Everything claimed and visited so far belongs to the first `i` slots. */
  ghost predicate Seen(fs: FS, own: Owners, st: State, s: set<nat>, i: nat)
    requires i <= |fs.root|
  {
    && (forall b :: b in s ==> b in own && SeenPos(fs.root, i, own[b].pos))
    && (forall b :: b in st.visited ==> b in own && own[b].pos.DirRun? && SeenPos(fs.root, i, own[b].pos))
  }

  function Reached(img: Image, fs: FS, i: nat): set<nat>
    requires i <= |fs.root|
  {
    MarkDirectory(img, fs.root[..i]) + MarkSubdirs(img, fs.root[..i], fs.subdirs)
  }

  lemma {:induction false} SeenMore(root: Directory, i: nat, pos: Pos)
    requires i < |root| && SeenPos(root, i, pos)
    ensures SeenPos(root, i + 1, pos)
  {
  }

  lemma {:induction false} NewDirUnseen(root: Directory, i: nat)
    requires UniqueNames(root) && i < |root| && Used(root[i])
    ensures !SeenDir(root, i, root[i].name)
  {
  }

  lemma {:induction false} ReachedNext(img: Image, fs: FS, i: nat)
    requires i < |fs.root|
    ensures var e := fs.root[i];
      Reached(img, fs, i + 1) == Reached(img, fs, i)
        + (if Used(e) then EntryBlocks(img, e) else {})
        + (if Used(e) && e.ftype == FTYPE_DIR && e.count > 0 then
             MarkDirectory(img, if e.name in fs.subdirs then fs.subdirs[e.name].data else ReadDir(img, e.start)) else {})
  {
    assert fs.root[..i + 1][..i] == fs.root[..i];
  }

  /** A directory entry: its run, and then everything in it. */
  lemma {:induction false} DirEntryAt(fs: FS, img: Image, own: Owners, v: View, st: State, s: set<nat>, i: nat)
    requires Ctx(fs, img, own, v) && i < |fs.root| && GoodDirEntry(fs.subdirs, fs.root[i])
    requires At(fs, own, st, s) && Seen(fs, own, st, s, i)
    ensures var e := fs.root[i];
      var s' := s + Range(e.start, DIR_BLOCKS) + MarkDirectory(img, fs.subdirs[e.name].data);
      At(fs, own, WalkEntry(v, st, e, "/", 1), s') && Seen(fs, own, WalkEntry(v, st, e, "/", 1), s', i + 1)
  {
    hide At, WalkEntries, Claim, MarkDirectory;
    var e := fs.root[i];
    var d, display := e.name, "/" + e.name;
    NewDirUnseen(fs.root, i);
    assert FinalSubdir(fs, img, own, d);
    assert e.start in Range(e.start, DIR_BLOCKS) && e.start + DIR_BLOCKS - 1 in Range(e.start, DIR_BLOCKS);
    AtOwned(fs, own, st, s);
    var st1 := st.(visited := st.visited + {e.start});
    AtVisited(fs, own, st, s, st1);
    ClaimAt(fs, own, v, st1, s, e.start, DIR_BLOCKS, display + "/");
    var st2 := Claim(v, st1, e.start, DIR_BLOCKS, display + "/");
    var s2 := s + Range(e.start, DIR_BLOCKS);
    var data := fs.subdirs[d].data;
    SubdirAt(fs, img, own, v, st2, s2, d, |data|);
    assert data[..|data|] == data;
    HeldDir(img, e.start, data);
    assert v.dirAt(e.start, e.count) == Some(data);
    var t := WalkEntry(v, st, e, "/", 1);
    AtErrors(fs, own, st, s);
    assert t == WalkEntries(v, st2, data, display + "/", 2);
    assert SeenDir(fs.root, i + 1, d);
    forall b | b in s || b in st.visited
      ensures SeenPos(fs.root, i + 1, own[b].pos)
    {
      SeenMore(fs.root, i, own[b].pos);
    }
  }

  lemma {:induction false} AtVisited(fs: FS, own: Owners, st: State, s: set<nat>, st1: State)
    requires At(fs, own, st, s) && st1.(visited := st.visited) == st
    ensures At(fs, own, st1, s)
  {
  }

  lemma {:induction false} AtErrors(fs: FS, own: Owners, st: State, s: set<nat>)
    requires At(fs, own, st, s)
    ensures st.errors == [] && st.overlaps == 0 && st.claims.Keys == s
  {
  }

  lemma {:induction false} RootFileAt(fs: FS, img: Image, own: Owners, v: View, st: State, s: set<nat>, i: nat)
    requires Ctx(fs, img, own, v) && i < |fs.root| && GoodFile(img, own, fs.root[i], RootFile(i))
    requires At(fs, own, st, s) && Seen(fs, own, st, s, i)
    ensures var e := fs.root[i];
      var s' := s + EntryBlocks(img, e);
      At(fs, own, WalkEntry(v, st, e, "/", 1), s') && Seen(fs, own, WalkEntry(v, st, e, "/", 1), s', i + 1)
  {
    hide At, WalkEntry, EntryBlocks;
    var e := fs.root[i];
    FileOwned(img, own, e, RootFile(i));
    assert FileCtx(fs, img, own, v, e, RootFile(i), "/" + e.name);
    FileAt(fs, img, own, v, st, s, e, RootFile(i), "/", 1);
    forall b | b in s || b in st.visited
      ensures SeenPos(fs.root, i + 1, own[b].pos)
    {
      SeenMore(fs.root, i, own[b].pos);
    }
  }

  lemma {:induction false} ReachedFree(img: Image, fs: FS, i: nat)
    requires i < |fs.root| && fs.root[i] == FREE_SLOT
    ensures Reached(img, fs, i + 1) == Reached(img, fs, i)
  {
    hide MarkDirectory, MarkSubdirs, EntryBlocks;
    ReachedNext(img, fs, i);
  }

  lemma {:induction false} ReachedDir(img: Image, fs: FS, i: nat)
    requires i < |fs.root| && GoodDirEntry(fs.subdirs, fs.root[i])
    ensures var e := fs.root[i];
      Reached(img, fs, i + 1) == Reached(img, fs, i) + Range(e.start, DIR_BLOCKS) + MarkDirectory(img, fs.subdirs[e.name].data)
  {
    hide MarkDirectory, MarkSubdirs, EntryBlocks, Reached;
    ReachedNext(img, fs, i);
    DirBlocks(img, fs.root[i]);
  }

  lemma {:induction false} ReachedFile(img: Image, fs: FS, own: Owners, i: nat)
    requires i < |fs.root| && GoodFile(img, own, fs.root[i], RootFile(i))
    ensures Reached(img, fs, i + 1) == Reached(img, fs, i) + EntryBlocks(img, fs.root[i])
  {
    GoodFileUsed(img, own, fs.root[i], RootFile(i));
    hide MarkDirectory, MarkSubdirs, EntryBlocks, Reached, GoodFile;
    ReachedNext(img, fs, i);
  }

  lemma {:induction false} RootStep(fs: FS, img: Image, own: Owners, v: View, st: State, i: nat)
    requires Ctx(fs, img, own, v) && i < |fs.root|
    requires At(fs, own, st, Reached(img, fs, i)) && Seen(fs, own, st, Reached(img, fs, i), i)
    ensures var t := WalkEntry(v, st, fs.root[i], "/", 1);
      At(fs, own, t, Reached(img, fs, i + 1)) && Seen(fs, own, t, Reached(img, fs, i + 1), i + 1)
  {
    hide At, WalkEntry, EntryBlocks, GoodFile, Seen, MarkDirectory, Reached, ExtentsOnV4, FinalSubdir;
    var e := fs.root[i];
    assert FinalRootSlot(fs, img, own, i);
    if e == FREE_SLOT {
      ReachedFree(img, fs, i);
      FreeWalks(v, st, "/", 1);
      SeenNext(fs, own, st, Reached(img, fs, i), i);
    } else if GoodDirEntry(fs.subdirs, e) {
      ReachedDir(img, fs, i);
      DirEntryAt(fs, img, own, v, st, Reached(img, fs, i), i);
    } else {
      ReachedFile(img, fs, own, i);
      RootFileAt(fs, img, own, v, st, Reached(img, fs, i), i);
    }
  }

  lemma {:induction false} RootAt(fs: FS, img: Image, own: Owners, v: View, i: nat)
    requires Ctx(fs, img, own, v) && i <= |fs.root|
    ensures var t := WalkEntries(v, START, fs.root[..i], "/", 1);
      At(fs, own, t, Reached(img, fs, i)) && Seen(fs, own, t, Reached(img, fs, i), i)
    decreases i
  {
    if i > 0 {
      hide At, WalkEntry, Seen, Reached, Ctx;
      RootAt(fs, img, own, v, i - 1);
      assert fs.root[..i][..|fs.root[..i]| - 1] == fs.root[..i - 1];
      RootStep(fs, img, own, v, WalkEntries(v, START, fs.root[..i - 1], "/", 1), i - 1);
    }
  }

  lemma {:induction false} DirBlocks(img: Image, e: Entry)
    requires e == DirEntry(e.name, e.start)
    ensures EntryBlocks(img, e) == Range(e.start, DIR_BLOCKS)
  {
  }

  lemma {:induction false} SeenNext(fs: FS, own: Owners, st: State, s: set<nat>, i: nat)
    requires i < |fs.root| && Seen(fs, own, st, s, i)
    ensures Seen(fs, own, st, s, i + 1)
  {
    forall b | b in s || b in st.visited
      ensures SeenPos(fs.root, i + 1, own[b].pos)
    {
      SeenMore(fs.root, i, own[b].pos);
    }
  }

  // ----- every sequence of calls ------------------------------------------------------------------------

  lemma {:induction false} StepExtents(fs: FS, own: Owners, call: Call)
    requires Inv(fs, own) && ExtentsOnV4(fs)
    ensures ExtentsOnV4(Step(fs, call).0) && Step(fs, call).0.v4 == fs.v4
  {
    hide BlocksFor, RunLength, Runs, WriteData, WriteDir, FindName, FindFree, ReadDir, Inv;
    match call
    case MakeDir(name) =>
      var slot := FindName(fs.root, name, 0);
      if slot.Some? && fs.root[slot.value].ftype == FTYPE_DIR {
        ReopenKeeps(fs, own, name, slot.value);
      }
    case PutFile(name, data, dir, ftype, fragments) =>
      var p := Place(fs, data, fragments);
      if p.Placement? {
        var e := FileEntry(Clip(name), ftype, |data|, p.start, BlocksFor(|data|), p.extents);
        assert p.fs.root == fs.root && p.fs.subdirs == fs.subdirs && p.fs.v4 == fs.v4 && (e.extents ==> fs.v4);
        hide Place;
      }
  }

  lemma {:induction false} RunExtents(v4: bool, calls: seq<Call>)
    requires forall i :: 0 <= i < |calls| ==> GoodCall(calls[i])
    ensures ExtentsOnV4(Built(NewFS(v4), calls)) && Built(NewFS(v4), calls).v4 == v4
    decreases |calls|
  {
    if calls != [] {
      hide Step, Inv, Matches;
      var before := calls[..|calls| - 1];
      RunExtents(v4, before);
      var own := RunKeeps(v4, before);
      StepExtents(Built(NewFS(v4), before), own, calls[|calls| - 1]);
    }
  }

  /** The bitmap `finalize` rebuilds: the journal and the blocks of live entries. */
  ghost function FinalBitmap(fs: FS): set<nat> {
    Rebuild(WriteSubdirs(fs), fs.root, fs.subdirs)
  }

  lemma {:induction false} BitmapInVolume(fs: FS, img: Image, own: Owners, v: View)
    requires Ctx(fs, img, own, v) && JOURNAL_BLOCKS <= v.total
    ensures Rebuild(img, fs.root, fs.subdirs) == Range(0, JOURNAL_BLOCKS) + Reached(img, fs, |fs.root|)
    ensures forall b :: b in Rebuild(img, fs.root, fs.subdirs) ==> b < v.total
    ensures Range(0, JOURNAL_BLOCKS) !! Reached(img, fs, |fs.root|)
  {
    hide MarkDirectory, MarkSubdirs, WalkEntries;
    assert fs.root[..|fs.root|] == fs.root;
    RootAt(fs, img, own, v, |fs.root|);
  }

  lemma {:induction false} AcceptedBy(fs: FS, img: Image, own: Owners, v: View, onDisk: set<nat>)
    requires Ctx(fs, img, own, v) && JOURNAL_BLOCKS <= v.total && v.root == Some(fs.root)
    requires var bitmap := Rebuild(img, fs.root, fs.subdirs); forall b :: b < v.total ==> (b in onDisk <==> b in bitmap)
    ensures Fsck(v, onDisk, v.total - |Rebuild(img, fs.root, fs.subdirs)|) == Verdict([], {}, false, 0)
  {
    hide MarkDirectory, MarkSubdirs, WalkEntries, At, Ctx, Rebuild, Reached, Unmarkeds, Marked, Unreferenced;
    BitmapInVolume(fs, img, own, v);
    RootAt(fs, img, own, v, |fs.root|);
    assert fs.root[..|fs.root|] == fs.root;
    var t := WalkEntries(v, START, fs.root, "/", 1);
    var bitmap := Rebuild(img, fs.root, fs.subdirs);
    AtErrors(fs, own, t, Reached(img, fs, |fs.root|));
    CheckerSound.NoneUnmarked(t.claims, onDisk, v.total);
    assert Marked(onDisk, v.total) == bitmap;
    assert Unreferenced(v.total, t.claims, onDisk) == {};
  }

  /** For every sequence of calls on a fresh volume that has the room, the checker
      finds no error in the finalized volume, no block that is marked and not
      claimed, the right free count, and no file in the journal. `onDisk` may differ
      from the rebuilt bitmap only past the last block, where a v4 bitmap keeps its
      checksum. */
  lemma {:induction false} BuilderMeetsChecker(v4: bool, calls: seq<Call>, total: nat, dataLba: nat, onDisk: set<nat>)
    requires forall i :: 0 <= i < |calls| ==> GoodCall(calls[i])
    requires Built(NewFS(v4), calls).next <= total
    requires var bitmap := FinalBitmap(Built(NewFS(v4), calls)); forall b :: b < total ==> (b in onDisk <==> b in bitmap)
    ensures var fs := Built(NewFS(v4), calls);
      Fsck(ViewOf(fs, WriteSubdirs(fs), total, dataLba), onDisk, total - |FinalBitmap(fs)|) == Verdict([], {}, false, 0)
  {
    hide Built, WriteSubdirs, Inv, Matches, Fsck, Rebuild, ExtentsOnV4, Ctx, ViewOf, Bounded;
    var fs := Built(NewFS(v4), calls);
    var own := RunKeeps(v4, calls);
    RunExtents(v4, calls);
    InContext(fs, own, total, dataLba);
    AcceptedBy(fs, WriteSubdirs(fs), own, ViewOf(fs, WriteSubdirs(fs), total, dataLba), onDisk);
  }

  lemma {:induction false} InContext(fs: FS, own: Owners, total: nat, dataLba: nat)
    requires Inv(fs, own) && ExtentsOnV4(fs) && fs.next <= total
    ensures var v := ViewOf(fs, WriteSubdirs(fs), total, dataLba);
      Ctx(fs, WriteSubdirs(fs), own, v) && v.total == total && JOURNAL_BLOCKS <= total && v.root == Some(fs.root)
  {
    hide WriteSubdirs, Inv, Final, ExtentsOnV4, DirAt, ExtentsAt;
    Finalized(fs, own);
    InvBounded(fs, own);
  }

  // ----- read-back from the finalized volume ---------------------------------------------------------------

  /** Following the entry for a directory and a name on the finalized volume. */
  ghost function Follow(fs: FS, img: Image, dir: Option<string>, name: string): Option<File> {
    if dir.None? then
      var r := FindName(fs.root, name, 0);
      if r.Some? && fs.root[r.value].ftype != FTYPE_DIR then Some(ReadEntry(img, fs.root[r.value])) else None
    else
      var r := FindName(fs.root, dir.value, 0);
      if r.None? || fs.root[r.value].ftype != FTYPE_DIR then None
      else
        var found := DirAt(img, fs.root[r.value].start, fs.root[r.value].count);
        if found.None? then None
        else
          var k := FindName(found.value, name, 0);
          if k.Some? then Some(ReadEntry(img, found.value[k.value])) else None
  }

  lemma {:induction false} FollowIsLookup(fs: FS, own: Owners, dir: Option<string>, name: string)
    requires Inv(fs, own)
    ensures Follow(fs, WriteSubdirs(fs), dir, name) == Lookup(fs, dir, name)
  {
    hide FindName, ReadFile, WriteSubdirs, GoodFile;
    var r := FindName(fs.root, if dir.None? then name else dir.value, 0);
    if r.Some? {
      var e := fs.root[r.value];
      assert GoodRootSlot(fs, own, r.value);
      if e.ftype != FTYPE_DIR {
        FinalFile(fs, own, e, RootFile(r.value));
      } else {
        NotAFile(fs.image, own, e, RootFile(r.value));
        WrittenRun(fs, own, e.name);
        var data := fs.subdirs[e.name].data;
        assert GoodSubdir(fs, own, e.name);
        var k := FindName(data, name, 0);
        if k.Some? {
          FinalFile(fs, own, data[k.value], SubFile(e.name, k.value));
        }
      }
    }
  }

  lemma {:induction false} NotAFile(image: Image, own: Owners, e: Entry, pos: Pos)
    requires e.ftype == FTYPE_DIR
    ensures !GoodFile(image, own, e, pos)
  {
  }

  /** Every directory and name reads back, inline or through extents, as the bytes of
      the last call that put a file there, or as nothing if a later call replaced
      it. */
  lemma {:induction false} ReadBack(v4: bool, calls: seq<Call>, dir: Option<string>, name: string)
    requires forall i :: 0 <= i < |calls| ==> GoodCall(calls[i])
    ensures var fs := Built(NewFS(v4), calls);
      Follow(fs, WriteSubdirs(fs), dir, name) == TableLookup(RunTable(NewFS(v4), EMPTY_TABLE, calls), dir, name)
  {
    hide Built, RunTable, Follow, Inv;
    var own := RunKeeps(v4, calls);
    FollowIsLookup(Built(NewFS(v4), calls), own, dir, name);
  }

  /** Creating a directory empties a directory of that name, whatever was added to it
      before, and no other. */
  lemma {:induction false} MakeDirEmpties(v4: bool, calls: seq<Call>, name: string, d: string, file: string)
    requires forall i :: 0 <= i < |calls| ==> GoodCall(calls[i])
    requires GoodCall(MakeDir(name)) && Step(Built(NewFS(v4), calls), MakeDir(name)).1.Done?
    ensures var fs := Built(NewFS(v4), calls);
      Lookup(Step(fs, MakeDir(name)).0, Some(d), file) == if d == name then None else Lookup(fs, Some(d), file)
  {
    hide Built, RunTable, Lookup, Inv, CreateSubdir;
    var own := RunKeeps(v4, calls);
    var fs, t := Built(NewFS(v4), calls), RunTable(NewFS(v4), EMPTY_TABLE, calls);
    own := MakeDirKeeps(fs, own, t, name);
    assert Lookup(fs, Some(d), file) == TableLookup(t, Some(d), file);
    assert Lookup(Step(fs, MakeDir(name)).0, Some(d), file) == TableLookup(TableStep(t, MakeDir(name)), Some(d), file);
  }

  // ----- names that are not stored whole ------------------------------------------------------------------

  /** The directory a file goes to. */
  function Where(fs: FS, dir: Option<string>): Option<string> {
    if InSubdir(fs, dir) then dir else None
  }

  /** That directory has not been replaced by a file since it was made. */
  ghost predicate Reachable(fs: FS, dir: Option<string>) {
    InSubdir(fs, dir) ==> HasDir(fs, dir.value)
  }

  /** Nothing is found under a name no used entry has. */
  lemma {:induction false} NotFound(dir: Directory, name: string)
    requires forall i :: 0 <= i < |dir| && Used(dir[i]) ==> dir[i].name != name
    ensures FindName(dir, name, 0) == None
  {
  }

  lemma {:induction false} OnlyWholeNames(fs: FS, own: Owners)
    requires Inv(fs, own)
    ensures forall i :: 0 <= i < |fs.root| && Used(fs.root[i]) ==> Whole(fs.root[i].name)
    ensures forall d, i :: d in fs.subdirs && 0 <= i < |fs.subdirs[d].data| && Used(fs.subdirs[d].data[i]) ==>
              Whole(fs.subdirs[d].data[i].name)
  {
    forall i | 0 <= i < |fs.root| && Used(fs.root[i])
      ensures Whole(fs.root[i].name)
    {
      assert GoodRootSlot(fs, own, i);
    }
    forall d, i | d in fs.subdirs && 0 <= i < |fs.subdirs[d].data| && Used(fs.subdirs[d].data[i])
      ensures Whole(fs.subdirs[d].data[i].name)
    {
      assert GoodSubdir(fs, own, d);
    }
  }

  /** A file put under a name that is not stored whole is not found under it. */
  lemma {:induction false} ClippedIsLost(fs: FS, own: Owners, name: string, data: seq<Byte>, dir: Option<string>, ftype: nat, fragments: nat)
    requires Inv(fs, own) && !Whole(name)
    requires AddFile(fs, name, data, dir, ftype, fragments).1.Done?
    ensures Lookup(AddFile(fs, name, data, dir, ftype, fragments).0, Where(fs, dir), name) == None
  {
    hide FindName, Place, ReadFile, Whole, Clip, Inv;
    PlaceLeaves(fs, data, fragments);
    OnlyWholeNames(fs, own);
    ClipKeeps(name);
    ClipIsWhole(name);
    var fs' := AddFile(fs, name, data, dir, ftype, fragments).0;
    if !InSubdir(fs, dir) {
      NotFound(fs'.root, name);
    } else {
      NotFound(fs'.subdirs[dir.value].data, name);
    }
  }

  lemma {:induction false} ClipIsWhole(name: string)
    ensures Clip(name) != "" && Clip(name) == name ==> Whole(name)
  {
    ClipKeeps(name);
  }

  /** A file that was added successfully reads back under its name if and only if the name
      fits the entry and holds no NUL. */
  lemma {:induction false} NameKept(v4: bool, calls: seq<Call>, name: string, data: seq<Byte>, dir: Option<string>, ftype: nat, fragments: nat)
    requires forall i :: 0 <= i < |calls| ==> GoodCall(calls[i])
    requires ftype in {FTYPE_TEXT, FTYPE_EXEC, FTYPE_BATCH}
    requires var fs := Built(NewFS(v4), calls);
             Reachable(fs, dir) && Step(fs, PutFile(name, data, dir, ftype, fragments)).1.Done?
    ensures var fs := Built(NewFS(v4), calls);
      Lookup(Step(fs, PutFile(name, data, dir, ftype, fragments)).0, Where(fs, dir), name) == Some(File(data, ftype, fragments > 1))
      <==> 1 <= |name| <= 252 && '\0' !in name
  {
    hide Built, RunTable, Lookup, Inv, AddFile;
    var own := RunKeeps(v4, calls);
    var fs, t := Built(NewFS(v4), calls), RunTable(NewFS(v4), EMPTY_TABLE, calls);
    var call := PutFile(name, data, dir, ftype, fragments);
    if Whole(name) {
      NoBlankName(fs, own, t);
      own := AddFileKeeps(fs, own, t, call);
      assert Lookup(Step(fs, call).0, Where(fs, dir), name) == TableLookup(TableStep(t, call), Where(fs, dir), name);
    } else {
      ClippedIsLost(fs, own, name, data, dir, ftype, fragments);
    }
  }

  // ----- small runs that show what goes wrong -------------------------------------------------------------

  lemma {:induction false} FirstFree(name: string)
    ensures FindFree(EmptyDirectory(), 0) == Some(0) && SlotFor(EmptyDirectory(), name) == Some(0)
  {
    EmptyFindsNothing(name);
    assert EmptyDirectory()[0] == FREE_SLOT;
  }

  lemma {:induction false} FirstDirectory(v4: bool)
    ensures var (fs, r) := Step(NewFS(v4), MakeDir("a"));
      && r == Done && "a" in fs.subdirs && fs.subdirs["a"].data == EmptyDirectory()
      && fs.root[0] == DirEntry("a", JOURNAL_BLOCKS) && FindName(fs.root, "a", 0) == Some(0)
  {
    FirstFree("a");
    ClipKeeps("a");
    EmptyFindsNothing("a");
    var fs := Step(NewFS(v4), MakeDir("a")).0;
    assert fs.root[0] == DirEntry("a", JOURNAL_BLOCKS);
  }

  /** A file of this session, lost because its directory was asked for twice. */
  lemma {:induction false} MakeDirLosesFile(v4: bool)
    ensures var fs := Built(NewFS(v4), [MakeDir("a"), PutFile("f", [1], Some("a"), FTYPE_TEXT, 0)]);
      && Lookup(fs, Some("a"), "f") == Some(File([1], FTYPE_TEXT, false))
      && Step(fs, MakeDir("a")).1 == Done
      && Lookup(Step(fs, MakeDir("a")).0, Some("a"), "f") == None
  {
    hide Lookup, Matches, Inv, FindName, FindFree;
    var one, both := [MakeDir("a")], [MakeDir("a"), PutFile("f", [1], Some("a"), FTYPE_TEXT, 0)];
    assert both[..1] == one && one[..0] == [];
    var fs1 := Built(NewFS(v4), one);
    assert Built(NewFS(v4), []) == NewFS(v4);
    assert fs1 == Step(NewFS(v4), MakeDir("a")).0;
    FirstDirectory(v4);
    FirstFree("f");
    assert Step(fs1, both[1]).1 == Done && Step(fs1, both[1]).0.root == fs1.root;
    NameKept(v4, one, "f", [1], Some("a"), FTYPE_TEXT, 0);
    MakeDirEmpties(v4, both, "a", "a", "f");
  }

  /** A name with a NUL: stored short, and never found again. */
  lemma {:induction false} NulNameIsLost(v4: bool)
    ensures var (fs, r) := Step(NewFS(v4), PutFile("a\0b", [1], None, FTYPE_TEXT, 0));
      && r == Done && Lookup(fs, None, "a\0b") == None && fs.root[0].name == "a"
  {
    var name := "a\0b";
    assert name[1] == '\0';
    FirstFree(name);
    NewMatches(v4);
    assert UpToNul(name) == "a" by {
      assert name[1..][0] == '\0' && UpToNul(name[1..]) == [];
    }
    ClippedIsLost(NewFS(v4), map[], name, [1], None, FTYPE_TEXT, 0);
  }
}
