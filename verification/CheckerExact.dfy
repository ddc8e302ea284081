/** The checker's verdict, both ways: it complains exactly about volumes that are not
    consistent, and what it reports besides is what it should be. */
module CheckerExact {
  import opened HbfsTypes
  import opened CheckerSpec
  import opened CheckerSound

  // ----- what a volume names ----------------------------------------------------------

  ghost function XattrBlocks(v: View, e: Entry): set<nat> {
    if (e.xcount == 0 && e.xlba == 0) || e.xlba < v.dataLba then {} else Range((e.xlba - v.dataLba) / 8, 1)
  }

  ghost function FileBlocks(v: View, e: Entry): set<nat> {
    if !e.extents then Range(e.start, e.count)
    else Range(e.start, 1) + match v.extentsAt(e.start) case ExtentList(runs) => RunBlocks(runs) case _ => {}
  }

  /** The blocks an entry and everything below it name. */
  ghost function BlocksOf(v: View, e: Entry, depth: nat): set<nat>
    decreases MAX_DEPTH + 1 - depth, 0, 0
  {
    if e.ftype == FTYPE_FREE then {}
    else if e.ftype != FTYPE_DIR then FileBlocks(v, e) + XattrBlocks(v, e)
    else
      Range(e.start, e.count) + XattrBlocks(v, e) +
      if depth < MAX_DEPTH && v.dirAt(e.start, e.count).Some? then BlocksIn(v, v.dirAt(e.start, e.count).value, depth + 1) else {}
  }

  ghost function BlocksIn(v: View, dir: Directory, depth: nat): set<nat>
    requires depth <= MAX_DEPTH
    decreases MAX_DEPTH + 1 - depth, 1, |dir|
  {
    if dir == [] then {} else BlocksIn(v, dir[..|dir| - 1], depth) + BlocksOf(v, dir[|dir| - 1], depth)
  }

  /** Some assignment of owners to marked blocks of the volume suits every entry, and no
      directory is reached twice. */
  ghost predicate Consistent(v: View, bitmap: set<nat>) {
    && v.root.Some?
    && (exists claims :: CleanDir(v, claims, v.root.value, "/", 1) && forall b :: b in claims ==> b < v.total && b in bitmap)
    && Once(DirStartsIn(v, v.root.value, 1))
  }

  ghost predicate Once(starts: seq<nat>) {
    forall i, j :: 0 <= i < j < |starts| ==> starts[i] != starts[j]
  }

  // ----- a part of the walk that finds nothing wrong -------------------------------------

  ghost predicate Agrees(claims: map<nat, string>, all: map<nat, string>) {
    forall b :: b in claims ==> b in all && all[b] == claims[b]
  }

  /** No complaint, the claims of `added` and no others, the directories of `starts`, and a
      journal overlap noticed exactly when `added` has one. */
  ghost predicate Advances(s: State, t: State, all: map<nat, string>, added: set<nat>, starts: seq<nat>) {
    && t.errors == s.errors && Agrees(t.claims, all)
    && t.claims.Keys == s.claims.Keys + added
    && t.visited == s.visited + (set i | 0 <= i < |starts| :: starts[i])
    && t.overlaps >= s.overlaps && (t.overlaps == s.overlaps <==> forall b :: b in added ==> b >= JOURNAL_BLOCKS)
  }

  lemma {:induction false} AdvancesNot(s: State, all: map<nat, string>)
    requires Agrees(s.claims, all)
    ensures Advances(s, s, all, {}, [])
  {
  }

  lemma {:induction false} AdvancesTwice(s: State, t: State, u: State, all: map<nat, string>, a: set<nat>, b: set<nat>, p: seq<nat>, q: seq<nat>)
    requires Advances(s, t, all, a, p) && Advances(t, u, all, b, q)
    ensures Advances(s, u, all, a + b, p + q)
  {
    assert forall i :: 0 <= i < |p| ==> (p + q)[i] == p[i];
    assert forall i :: 0 <= i < |q| ==> (p + q)[|p| + i] == q[i];
  }

  lemma {:induction false} AdvancesOn(s: State, t: State, u: State, all: map<nat, string>, a: set<nat>, b: set<nat>)
    requires Advances(s, t, all, a, []) && Advances(t, u, all, b, [])
    ensures Advances(s, u, all, a + b, [])
  {
    var none: seq<nat> := [];
    AdvancesTwice(s, t, u, all, a, b, none, none);
    assert none + none == none;
  }

  lemma {:induction false} ClaimsAdvance(s: State, b: nat, end: nat, owner: string, all: map<nat, string>)
    requires b <= end && Agrees(s.claims, all) && Claimed(all, b, end - b, owner)
    ensures Advances(s, ClaimBlocks(s, b, end, owner), all, Range(b, end - b), [])
    decreases end - b
  {
    if b < end {
      var t := ClaimOne(s, b, owner);
      assert b in Range(b, end - b);
      ClaimsAdvance(t, b + 1, end, owner, all);
      assert Advances(s, t, all, {b}, []);
      AdvancesOn(s, t, ClaimBlocks(t, b + 1, end, owner), all, {b}, Range(b + 1, end - b - 1));
      assert {b} + Range(b + 1, end - b - 1) == Range(b, end - b);
    } else {
      assert Range(b, 0) == {};
      AdvancesNot(s, all);
    }
  }

  /** What the blocks' owners are, and that they are in the volume. */
  ghost predicate Owned(v: View, all: map<nat, string>) {
    forall b :: b in all ==> b < v.total
  }

  lemma {:induction false} ClaimAdvances(v: View, s: State, start: nat, count: nat, owner: string, all: map<nat, string>)
    requires Agrees(s.claims, all) && Owned(v, all) && count > 0 && Claimed(all, start, count, owner)
    ensures Advances(s, Claim(v, s, start, count, owner), all, Range(start, count), [])
  {
    hide Advances;
    assert start + count - 1 in Range(start, count);
    ClaimsAdvance(s, start, start + count, owner, all);
  }

  lemma {:induction false} RunsAdvance(v: View, s: State, display: string, runs: seq<Run>, all: map<nat, string>)
    requires Agrees(s.claims, all) && Owned(v, all) && RunsClaimed(all, runs, display)
    ensures Advances(s, ClaimRuns(v, s, display, runs), all, RunBlocks(runs), [])
    decreases |runs|
  {
    hide Claim, Advances, Agrees, Owned, Claimed;
    if runs == [] {
      AdvancesNot(s, all);
    } else {
      var r := runs[0];
      var t := Claim(v, s, r.start, r.count, display);
      ClaimAdvances(v, s, r.start, r.count, display, all);
      AdvancedAgrees(s, t, all, Range(r.start, r.count), []);
      forall i | 0 <= i < |runs[1..]|
        ensures runs[1..][i].count > 0 && Claimed(all, runs[1..][i].start, runs[1..][i].count, display)
      {
        assert runs[1..][i] == runs[i + 1];
      }
      RunsAdvance(v, t, display, runs[1..], all);
      AdvancesOn(s, t, ClaimRuns(v, t, display, runs[1..]), all, Range(r.start, r.count), RunBlocks(runs[1..]));
    }
  }

  lemma {:induction false} AdvancedAgrees(s: State, t: State, all: map<nat, string>, added: set<nat>, starts: seq<nat>)
    requires Advances(s, t, all, added, starts)
    ensures Agrees(t.claims, all) && t.errors == s.errors
    ensures t.visited == s.visited + (set i | 0 <= i < |starts| :: starts[i])
  {
  }

  lemma {:induction false} FileAdvances(v: View, s: State, e: Entry, display: string, all: map<nat, string>)
    requires Agrees(s.claims, all) && Owned(v, all) && CleanFile(v, all, e, display)
    ensures var t := if e.extents && v.v4 then ClaimExtents(v, s, display, e) else ClaimInline(v, s, display, e);
      Advances(s, t, all, FileBlocks(v, e), [])
  {
    hide Claim, ClaimRuns, Advances, Agrees, Owned, Claimed, RunTotal, RunBlocks;
    NeededCovers(e.size, e.count);
    if e.extents {
      var s1 := Claim(v, s, e.start, 1, display + " [extents]");
      ClaimAdvances(v, s, e.start, 1, display + " [extents]", all);
      AdvancedAgrees(s, s1, all, Range(e.start, 1), []);
      var runs := v.extentsAt(e.start).runs;
      RunsAdvance(v, s1, display, runs, all);
      AdvancesOn(s, s1, ClaimRuns(v, s1, display, runs), all, Range(e.start, 1), RunBlocks(runs));
    } else if e.count > 0 {
      ClaimAdvances(v, s, e.start, e.count, display, all);
    } else {
      AdvancesNot(s, all);
      assert Range(e.start, 0) == {};
    }
  }

  lemma {:induction false} XattrAdvances(v: View, s: State, e: Entry, display: string, all: map<nat, string>)
    requires Agrees(s.claims, all) && Owned(v, all) && CleanXattr(v, all, e, display)
    ensures Advances(s, ClaimXattr(v, s, display, e), all, XattrBlocks(v, e), [])
  {
    hide Claim, Advances, Agrees, Owned, Claimed;
    if e.xcount == 0 && e.xlba == 0 {
      AdvancesNot(s, all);
    } else {
      ClaimAdvances(v, s, (e.xlba - v.dataLba) / 8, 1, display + " [xattr]", all);
    }
  }

  /** None of them was seen before. */
  ghost predicate Unseen(s: State, starts: seq<nat>) {
    Once(starts) && forall i :: 0 <= i < |starts| ==> starts[i] !in s.visited
  }

  lemma {:induction false} UnseenSplit(s: State, a: seq<nat>, b: seq<nat>)
    requires Unseen(s, a + b)
    ensures Unseen(s, a)
    ensures forall t: State :: t.visited == s.visited + (set i | 0 <= i < |a| :: a[i]) ==> Unseen(t, b)
  {
    var ab := a + b;
    assert forall i :: 0 <= i < |a| ==> ab[i] == a[i];
    assert forall i :: 0 <= i < |b| ==> ab[|a| + i] == b[i];
  }

  lemma {:induction false} EntryAdvances(v: View, s: State, e: Entry, prefix: string, depth: nat, all: map<nat, string>)
    requires Agrees(s.claims, all) && Owned(v, all) && depth <= MAX_DEPTH
    requires CleanEntry(v, all, e, prefix, depth) && Unseen(s, DirStarts(v, e, depth))
    ensures Advances(s, WalkEntry(v, s, e, prefix, depth), all, BlocksOf(v, e, depth), DirStarts(v, e, depth))
    decreases MAX_DEPTH + 1 - depth, 0, 0
  {
    hide Claim, ClaimXattr, ClaimExtents, ClaimInline, CleanDir, Claimed, CleanFile, CleanXattr, Advances, Agrees, Owned;
    var display := prefix + e.name;
    if e.ftype == FTYPE_FREE {
      AdvancesNot(s, all);
    } else if e.ftype == FTYPE_DIR {
      DirAdvances(v, s, e, display, depth, all);
    } else {
      assert e.extents ==> v.v4 by {
        FileOnV4(v, all, e, display);
      }
      var t := if e.extents && v.v4 then ClaimExtents(v, s, display, e) else ClaimInline(v, s, display, e);
      FileAdvances(v, s, e, display, all);
      AdvancedAgrees(s, t, all, FileBlocks(v, e), []);
      XattrAdvances(v, t, e, display, all);
      AdvancesOn(s, t, ClaimXattr(v, t, display, e), all, FileBlocks(v, e), XattrBlocks(v, e));
    }
  }

  lemma {:induction false} FileOnV4(v: View, all: map<nat, string>, e: Entry, display: string)
    requires CleanFile(v, all, e, display)
    ensures e.extents ==> v.v4
  {
  }

  lemma {:induction false} DirAdvances(v: View, s: State, e: Entry, display: string, depth: nat, all: map<nat, string>)
    requires Agrees(s.claims, all) && Owned(v, all) && depth < MAX_DEPTH && e.ftype == FTYPE_DIR
    requires CleanXattr(v, all, e, display) && Claimed(all, e.start, e.count, display + "/") && e.count > 0
    requires v.dirAt(e.start, e.count).Some? && CleanDir(v, all, v.dirAt(e.start, e.count).value, display + "/", depth + 1)
    requires Unseen(s, DirStarts(v, e, depth))
    ensures e.start !in s.visited
    ensures var s2 := Claim(v, s.(visited := s.visited + {e.start}), e.start, e.count, display + "/");
      var s3 := WalkDir(v, s2, v.dirAt(e.start, e.count), e.count, display + "/", depth + 1);
      Advances(s, ClaimXattr(v, s3, display, e), all, BlocksOf(v, e, depth), DirStarts(v, e, depth))
    decreases MAX_DEPTH + 1 - depth, 0, -1
  {
    hide Claim, ClaimXattr, CleanDir, Claimed, CleanXattr, Advances, Agrees, Owned, WalkEntries, Unseen, BlocksIn, DirStartsIn;
    var dir := v.dirAt(e.start, e.count).value;
    var below := DirStartsIn(v, dir, depth + 1);
    UnseenFirst(s, e.start, below);
    var s1 := s.(visited := s.visited + {e.start});
    var s2 := Claim(v, s1, e.start, e.count, display + "/");
    ClaimAdvances(v, s1, e.start, e.count, display + "/", all);
    AdvancedAgrees(s1, s2, all, Range(e.start, e.count), []);
    Visiting(s, s2, e.start, all, Range(e.start, e.count));
    UnseenSplit(s, [e.start], below);
    AdvancedAgrees(s, s2, all, Range(e.start, e.count), [e.start]);
    EntriesAdvance(v, s2, dir, display + "/", depth + 1, all);
    var s3 := WalkEntries(v, s2, dir, display + "/", depth + 1);
    AdvancesTwice(s, s2, s3, all, Range(e.start, e.count), BlocksIn(v, dir, depth + 1), [e.start], below);
    AdvancedAgrees(s2, s3, all, BlocksIn(v, dir, depth + 1), below);
    XattrAdvances(v, s3, e, display, all);
    AdvancesTwice(s, s3, ClaimXattr(v, s3, display, e), all, Range(e.start, e.count) + BlocksIn(v, dir, depth + 1), XattrBlocks(v, e),
                  [e.start] + below, []);
    assert [e.start] + below + [] == [e.start] + below;
    assert Range(e.start, e.count) + BlocksIn(v, dir, depth + 1) + XattrBlocks(v, e) == BlocksOf(v, e, depth);
  }

  lemma {:induction false} UnseenFirst(s: State, start: nat, below: seq<nat>)
    requires Unseen(s, [start] + below)
    ensures start !in s.visited
  {
    assert ([start] + below)[0] == start;
  }

  /** Noting a directory before claiming its blocks. */
  lemma {:induction false} Visiting(s: State, t: State, start: nat, all: map<nat, string>, added: set<nat>)
    requires Advances(s.(visited := s.visited + {start}), t, all, added, [])
    ensures Advances(s, t, all, added, [start])
  {
    assert [start][0] == start;
  }

  lemma {:induction false} EntriesAdvance(v: View, s: State, dir: Directory, prefix: string, depth: nat, all: map<nat, string>)
    requires Agrees(s.claims, all) && Owned(v, all) && depth <= MAX_DEPTH
    requires CleanDir(v, all, dir, prefix, depth) && Unseen(s, DirStartsIn(v, dir, depth))
    ensures Advances(s, WalkEntries(v, s, dir, prefix, depth), all, BlocksIn(v, dir, depth), DirStartsIn(v, dir, depth))
    decreases MAX_DEPTH + 1 - depth, 1, |dir|
  {
    if dir == [] {
      AdvancesNot(s, all);
    } else {
      hide WalkEntry, CleanEntry, DirStarts, BlocksOf, Advances, Agrees, Owned, Unseen;
      var front, last := dir[..|dir| - 1], dir[|dir| - 1];
      var a, b := DirStartsIn(v, front, depth), DirStarts(v, last, depth);
      UnseenSplit(s, a, b);
      EntriesAdvance(v, s, front, prefix, depth, all);
      var t := WalkEntries(v, s, front, prefix, depth);
      AdvancedAgrees(s, t, all, BlocksIn(v, front, depth), a);
      EntryAdvances(v, t, last, prefix, depth, all);
      AdvancesTwice(s, t, WalkEntry(v, t, last, prefix, depth), all, BlocksIn(v, front, depth), BlocksOf(v, last, depth), a, b);
    }
  }

  // ----- the verdict --------------------------------------------------------------------

  lemma {:induction false} WalkAdvances(v: View, bitmap: set<nat>)
    requires Consistent(v, bitmap)
    ensures var t := WalkDir(v, START, v.root, DIR_BLOCKS, "/", 1);
      && t.errors == [] && t.claims.Keys == BlocksIn(v, v.root.value, 1)
      && (forall b :: b in t.claims ==> b < v.total && b in bitmap)
      && (t.overlaps == 0 <==> forall b :: b in BlocksIn(v, v.root.value, 1) ==> b >= JOURNAL_BLOCKS)
  {
    hide WalkEntries, CleanDir, DirStartsIn, BlocksIn;
    var claims :| CleanDir(v, claims, v.root.value, "/", 1) && forall b :: b in claims ==> b < v.total && b in bitmap;
    EntriesAdvance(v, START, v.root.value, "/", 1, claims);
  }

  /** The checker finds no error exactly on consistent volumes. On those it calls exactly the
      marked blocks outside the journal that no entry names unreferenced, and sees files in
      the journal exactly when an entry names a block of it. On any volume it finds the free
      count wrong exactly when it is not the number of unmarked blocks. */
  lemma {:induction false} VerdictExact(v: View, bitmap: set<nat>, sbFree: int)
    ensures var r := Fsck(v, bitmap, sbFree);
      && (r.errors == [] <==> Consistent(v, bitmap))
      && (Consistent(v, bitmap) ==>
            && r.unreferenced == (set b | b in bitmap && JOURNAL_BLOCKS <= b < v.total && b !in BlocksIn(v, v.root.value, 1))
            && (r.overlaps == 0 <==> forall b :: b in BlocksIn(v, v.root.value, 1) ==> b >= JOURNAL_BLOCKS))
      && (r.freeCountWrong <==> sbFree != v.total - |set b | b in bitmap && b < v.total|)
  {
    hide WalkDir, CleanDir, DirStartsIn, BlocksIn, Unmarkeds;
    var t := WalkDir(v, START, v.root, DIR_BLOCKS, "/", 1);
    NoneUnmarked(t.claims, bitmap, v.total);
    if Fsck(v, bitmap, sbFree).errors == [] {
      VerdictSound(v, bitmap, sbFree);
      assert CleanDir(v, t.claims, v.root.value, "/", 1);
      assert Once(DirStartsIn(v, v.root.value, 1));
      assert Consistent(v, bitmap);
    }
    if Consistent(v, bitmap) {
      WalkAdvances(v, bitmap);
      assert Unmarkeds(t.claims, bitmap, v.total) == [];
    }
  }
}
