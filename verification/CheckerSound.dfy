/** A clean verdict means a clean volume. */
module CheckerSound {
  import opened HbfsTypes
  import opened CheckerSpec

  /** Later states keep every earlier claim and complaint. */
  ghost predicate Grew(s: State, t: State) {
    && s.errors <= t.errors
    && s.visited <= t.visited
    && (forall b :: b in s.claims ==> b in t.claims && t.claims[b] == s.claims[b])
  }

  ghost predicate InVolume(v: View, s: State) {
    forall b :: b in s.claims ==> b < v.total
  }

  ghost predicate Claimed(claims: map<nat, string>, start: nat, count: nat, owner: string) {
    forall b :: b in Range(start, count) ==> b in claims && claims[b] == owner
  }

  // ----- what the parts of the walk do ------------------------------------------------

  lemma {:induction false} ClaimBlocksGrew(s: State, b: nat, end: nat, owner: string)
    ensures var t := ClaimBlocks(s, b, end, owner);
      && Grew(s, t) && t.visited == s.visited
      && (t.errors == s.errors ==> forall x :: b <= x < end ==> x in t.claims && t.claims[x] == owner)
      && (forall x :: x in t.claims ==> x in s.claims || b <= x < end)
    decreases end - b
  {
    if b < end {
      ClaimBlocksGrew(ClaimOne(s, b, owner), b + 1, end, owner);
    }
  }

  lemma {:induction false} ClaimGrew(v: View, s: State, start: nat, count: nat, owner: string)
    requires InVolume(v, s)
    ensures var t := Claim(v, s, start, count, owner);
      && Grew(s, t) && t.visited == s.visited && InVolume(v, t)
      && (t.errors == s.errors ==> start + count <= v.total && Claimed(t.claims, start, count, owner))
  {
    hide ClaimBlocks;
    ClaimBlocksGrew(s, start, start + count, owner);
  }

  ghost predicate RunsClaimed(claims: map<nat, string>, runs: seq<Run>, owner: string) {
    forall i :: 0 <= i < |runs| ==> runs[i].count > 0 && Claimed(claims, runs[i].start, runs[i].count, owner)
  }

  lemma {:induction false} ClaimRunsGrew(v: View, s: State, display: string, runs: seq<Run>)
    requires InVolume(v, s)
    ensures var t := ClaimRuns(v, s, display, runs);
      && Grew(s, t) && t.visited == s.visited && InVolume(v, t)
      && (t.errors == s.errors ==> RunsClaimed(t.claims, runs, display))
    decreases |runs|
  {
    hide Claim;
    if runs != [] {
      var r := runs[0];
      ClaimGrew(v, s, r.start, r.count, display);
      var s1 := if r.count == 0 then Fail(s, EmptyRun(display)) else Claim(v, s, r.start, r.count, display);
      ClaimRunsGrew(v, s1, display, runs[1..]);
      var t := ClaimRuns(v, s1, display, runs[1..]);
      if t.errors == s.errors {
        assert s1.errors == s.errors;
        forall i | 0 <= i < |runs|
          ensures runs[i].count > 0 && Claimed(t.claims, runs[i].start, runs[i].count, display)
        {
          if i > 0 {
            assert runs[i] == runs[1..][i - 1];
          }
        }
      }
    }
  }

  // ----- clean entries and directories -----------------------------------------------------

  ghost predicate CleanFile(v: View, claims: map<nat, string>, e: Entry, display: string) {
    && e.size <= e.count * BLOCK_SIZE
    && if e.extents then
         && v.v4 && Claimed(claims, e.start, 1, display + " [extents]")
         && v.extentsAt(e.start).ExtentList?
         && var runs := v.extentsAt(e.start).runs;
           && 0 < |runs| <= EXTENT_MAX && RunTotal(runs) == e.count && RunsClaimed(claims, runs, display)
       else Claimed(claims, e.start, e.count, display)
  }

  ghost predicate CleanXattr(v: View, claims: map<nat, string>, e: Entry, display: string) {
    (e.xcount == 0 && e.xlba == 0) ||
    (e.xcount <= 32 && v.dataLba <= e.xlba && e.xlba % 8 == 0 && Claimed(claims, (e.xlba - v.dataLba) / 8, 1, display + " [xattr]"))
  }

  /** Everything reachable below an entry is as it should be. */
  ghost predicate CleanEntry(v: View, claims: map<nat, string>, e: Entry, prefix: string, depth: nat)
    decreases MAX_DEPTH + 1 - depth, 0
  {
    e.ftype == FTYPE_FREE ||
    (&& e.terminated && e.name != "" && Known(e.ftype) && CleanXattr(v, claims, e, prefix + e.name)
     && if e.ftype == FTYPE_DIR then
          && !e.extents && Claimed(claims, e.start, e.count, prefix + e.name + "/")
          && e.count > 0 && depth < MAX_DEPTH && v.dirAt(e.start, e.count).Some?
          && CleanDir(v, claims, v.dirAt(e.start, e.count).value, prefix + e.name + "/", depth + 1)
        else CleanFile(v, claims, e, prefix + e.name))
  }

  ghost predicate CleanDir(v: View, claims: map<nat, string>, dir: Directory, prefix: string, depth: nat)
    decreases MAX_DEPTH + 1 - depth, 1
  {
    depth <= MAX_DEPTH && forall i :: 0 <= i < |dir| ==> CleanEntry(v, claims, dir[i], prefix, depth)
  }

  lemma {:induction false} ClaimedStays(claims: map<nat, string>, claims': map<nat, string>, start: nat, count: nat, owner: string)
    requires forall b :: b in claims ==> b in claims' && claims'[b] == claims[b]
    requires Claimed(claims, start, count, owner)
    ensures Claimed(claims', start, count, owner)
  {
  }

  lemma {:induction false} CleanFileStays(v: View, claims: map<nat, string>, claims': map<nat, string>, e: Entry, display: string)
    requires forall b :: b in claims ==> b in claims' && claims'[b] == claims[b]
    requires CleanFile(v, claims, e, display)
    ensures CleanFile(v, claims', e, display)
  {
  }

  lemma {:induction false} CleanDirStays(v: View, claims: map<nat, string>, claims': map<nat, string>, dir: Directory, prefix: string, depth: nat)
    requires forall b :: b in claims ==> b in claims' && claims'[b] == claims[b]
    requires CleanDir(v, claims, dir, prefix, depth)
    ensures CleanDir(v, claims', dir, prefix, depth)
    decreases MAX_DEPTH + 1 - depth, 1
  {
    forall i | 0 <= i < |dir|
      ensures CleanEntry(v, claims', dir[i], prefix, depth)
    {
      CleanEntryStays(v, claims, claims', dir[i], prefix, depth);
    }
  }

  lemma {:induction false} CleanEntryStays(v: View, claims: map<nat, string>, claims': map<nat, string>, e: Entry, prefix: string, depth: nat)
    requires forall b :: b in claims ==> b in claims' && claims'[b] == claims[b]
    requires CleanEntry(v, claims, e, prefix, depth)
    ensures CleanEntry(v, claims', e, prefix, depth)
    decreases MAX_DEPTH + 1 - depth, 0
  {
    if e.ftype == FTYPE_FREE {
    } else if e.ftype == FTYPE_DIR {
      CleanDirStays(v, claims, claims', v.dirAt(e.start, e.count).value, prefix + e.name + "/", depth + 1);
    } else {
      CleanFileStays(v, claims, claims', e, prefix + e.name);
    }
  }

  // ----- directories are reached once --------------------------------------------------------

  /** The first blocks of the directories below an entry, in the order of the walk. */
  ghost function DirStarts(v: View, e: Entry, depth: nat): seq<nat>
    decreases MAX_DEPTH + 1 - depth, 0, 0
  {
    if e.ftype == FTYPE_DIR && depth < MAX_DEPTH && v.dirAt(e.start, e.count).Some? then
      [e.start] + DirStartsIn(v, v.dirAt(e.start, e.count).value, depth + 1)
    else []
  }

  ghost function DirStartsIn(v: View, dir: Directory, depth: nat): seq<nat>
    requires depth <= MAX_DEPTH
    decreases MAX_DEPTH + 1 - depth, 1, |dir|
  {
    if dir == [] then [] else DirStartsIn(v, dir[..|dir| - 1], depth) + DirStarts(v, dir[|dir| - 1], depth)
  }

  /** A sequence of distinct directories, none seen before, all seen now. */
  ghost predicate NewlyVisited(s: State, t: State, starts: seq<nat>) {
    && (forall i, j :: 0 <= i < j < |starts| ==> starts[i] != starts[j])
    && (forall i :: 0 <= i < |starts| ==> starts[i] !in s.visited && starts[i] in t.visited)
  }

  lemma {:induction false} NewlyVisitedAppend(s: State, t: State, u: State, a: seq<nat>, b: seq<nat>)
    requires NewlyVisited(s, t, a) && NewlyVisited(t, u, b) && s.visited <= t.visited <= u.visited
    ensures NewlyVisited(s, u, a + b)
  {
  }

  // ----- soundness of the walk ------------------------------------------------------------------

  lemma {:induction false} FileSound(v: View, s: State, e: Entry, display: string)
    requires InVolume(v, s)
    ensures var t := if e.extents && v.v4 then ClaimExtents(v, s, display, e) else ClaimInline(v, s, display, e);
      && Grew(s, t) && t.visited == s.visited && InVolume(v, t)
      && (t.errors == s.errors && (e.extents ==> v.v4) ==> CleanFile(v, t.claims, e, display))
  {
    hide Claim, ClaimRuns, Claimed, RunTotal;
    NeededCovers(e.size, e.count);
    if e.extents && v.v4 {
      var s1 := Claim(v, s, e.start, 1, display + " [extents]");
      ClaimGrew(v, s, e.start, 1, display + " [extents]");
      var r := v.extentsAt(e.start);
      if r.ExtentList? && 0 < |r.runs| <= EXTENT_MAX {
        var s2 := ClaimRuns(v, s1, display, r.runs);
        ClaimRunsGrew(v, s1, display, r.runs);
        if s2.errors == s.errors {
          ClaimedStays(s1.claims, s2.claims, e.start, 1, display + " [extents]");
        }
      }
    } else {
      var s1 := FailIf(FailIf(s, e.count == 0 && e.size > 0, NoBlocks(display)), e.count < Needed(e.size), TooFewBlocks(display));
      if e.count > 0 {
        ClaimGrew(v, s1, e.start, e.count, display);
      } else {
        NothingClaimed(s.claims, e.start, display);
      }
    }
  }

  lemma {:induction false} NeededCovers(size: nat, count: nat)
    ensures count >= Needed(size) <==> size <= count * BLOCK_SIZE
  {
  }

  lemma {:induction false} NothingClaimed(claims: map<nat, string>, start: nat, owner: string)
    ensures Claimed(claims, start, 0, owner)
  {
  }

  lemma {:induction false} XattrSound(v: View, s: State, e: Entry, display: string)
    requires InVolume(v, s)
    ensures var t := ClaimXattr(v, s, display, e);
      Grew(s, t) && t.visited == s.visited && InVolume(v, t) && (t.errors == s.errors ==> CleanXattr(v, t.claims, e, display))
  {
    hide Claim, Claimed;
    if (e.xcount != 0 || e.xlba != 0) && v.dataLba <= e.xlba && e.xlba % 8 == 0 {
      ClaimGrew(v, FailIf(s, e.xcount > 32, BadXattr(display)), (e.xlba - v.dataLba) / 8, 1, display + " [xattr]");
    }
  }

  ghost predicate SoundStep(v: View, s: State, t: State, starts: seq<nat>) {
    Grew(s, t) && InVolume(v, t) && (t.errors == s.errors ==> NewlyVisited(s, t, starts))
  }

  lemma {:induction false} EntrySound(v: View, s: State, e: Entry, prefix: string, depth: nat)
    requires InVolume(v, s) && depth <= MAX_DEPTH
    ensures var t := WalkEntry(v, s, e, prefix, depth);
      SoundStep(v, s, t, DirStarts(v, e, depth)) && (t.errors == s.errors ==> CleanEntry(v, t.claims, e, prefix, depth))
    decreases MAX_DEPTH + 1 - depth, 0, 0
  {
    hide Claim, ClaimXattr, ClaimExtents, ClaimInline, WalkDir, CleanDir, Claimed, CleanFile, CleanXattr;
    if e.ftype != FTYPE_FREE && e.name != "" && Known(e.ftype) {
      var s0 := FailIf(s, !e.terminated, Unterminated(prefix));
      var display := prefix + e.name;
      var s1 := CheckFields(v, s0, display, e);
      if e.ftype == FTYPE_DIR {
        if e.start !in s1.visited {
          SubdirSound(v, s1, e, display, depth);
        }
      } else {
        FileSound(v, s1, e, display);
        var s2 := if e.extents && v.v4 then ClaimExtents(v, s1, display, e) else ClaimInline(v, s1, display, e);
        XattrSound(v, s2, e, display);
        var t := ClaimXattr(v, s2, display, e);
        if t.errors == s.errors {
          assert s2.errors == s1.errors == s0.errors == s.errors;
          CleanFileStays(v, s2.claims, t.claims, e, display);
        }
      }
    }
  }

  lemma {:induction false} SubdirSound(v: View, s: State, e: Entry, display: string, depth: nat)
    requires InVolume(v, s) && depth <= MAX_DEPTH && e.ftype == FTYPE_DIR && e.start !in s.visited
    ensures var s2 := Claim(v, s.(visited := s.visited + {e.start}), e.start, e.count, display + "/");
      var s3 := WalkDir(v, s2, v.dirAt(e.start, e.count), e.count, display + "/", depth + 1);
      var t := ClaimXattr(v, s3, display, e);
      && SoundStep(v, s, t, DirStarts(v, e, depth))
      && (t.errors == s.errors ==>
            && CleanXattr(v, t.claims, e, display)
            && Claimed(t.claims, e.start, e.count, display + "/") && e.count > 0 && depth < MAX_DEPTH
            && v.dirAt(e.start, e.count).Some?
            && CleanDir(v, t.claims, v.dirAt(e.start, e.count).value, display + "/", depth + 1))
    decreases MAX_DEPTH + 1 - depth, 0, -1
  {
    hide Claim, ClaimXattr, WalkDir, CleanDir, Claimed, CleanXattr;
    var s1 := s.(visited := s.visited + {e.start});
    var s2 := Claim(v, s1, e.start, e.count, display + "/");
    ClaimGrew(v, s1, e.start, e.count, display + "/");
    var dir := v.dirAt(e.start, e.count);
    var s3 := WalkDir(v, s2, dir, e.count, display + "/", depth + 1);
    WalkDirSound(v, s2, dir, e.count, display + "/", depth + 1);
    XattrSound(v, s3, e, display);
    var t := ClaimXattr(v, s3, display, e);
    if t.errors == s.errors {
      assert s3.errors == s2.errors == s.errors;
      ClaimedStays(s2.claims, t.claims, e.start, e.count, display + "/");
      CleanDirStays(v, s3.claims, t.claims, dir.value, display + "/", depth + 1);
      assert NewlyVisited(s, s2, [e.start]);
      NewlyVisitedAppend(s, s2, s3, [e.start], DirStartsIn(v, dir.value, depth + 1));
    }
  }

  lemma {:induction false} EntriesSound(v: View, s: State, dir: Directory, prefix: string, depth: nat)
    requires InVolume(v, s) && depth <= MAX_DEPTH
    ensures var t := WalkEntries(v, s, dir, prefix, depth);
      SoundStep(v, s, t, DirStartsIn(v, dir, depth)) && (t.errors == s.errors ==> CleanDir(v, t.claims, dir, prefix, depth))
    decreases MAX_DEPTH + 1 - depth, 1, |dir|
  {
    if dir != [] {
      hide WalkEntry, CleanEntry, DirStarts;
      var front, last := dir[..|dir| - 1], dir[|dir| - 1];
      EntriesSound(v, s, front, prefix, depth);
      var u := WalkEntries(v, s, front, prefix, depth);
      EntrySound(v, u, last, prefix, depth);
      var t := WalkEntry(v, u, last, prefix, depth);
      if t.errors == s.errors {
        assert u.errors == s.errors;
        NewlyVisitedAppend(s, u, t, DirStartsIn(v, front, depth), DirStarts(v, last, depth));
        CleanDirStays(v, u.claims, t.claims, front, prefix, depth);
        forall i | 0 <= i < |dir|
          ensures CleanEntry(v, t.claims, dir[i], prefix, depth)
        {
          if i < |front| {
            assert dir[i] == front[i];
          }
        }
      }
    }
  }

  lemma {:induction false} WalkDirSound(v: View, s: State, dir: Option<Directory>, blocks: nat, prefix: string, depth: nat)
    requires InVolume(v, s)
    ensures var t := WalkDir(v, s, dir, blocks, prefix, depth);
      && Grew(s, t) && InVolume(v, t)
      && (t.errors == s.errors ==>
            && depth <= MAX_DEPTH && blocks > 0 && dir.Some? && CleanDir(v, t.claims, dir.value, prefix, depth)
            && NewlyVisited(s, t, DirStartsIn(v, dir.value, depth)))
    decreases MAX_DEPTH + 1 - depth, 2, 0
  {
    hide WalkEntries, CleanDir;
    if depth <= MAX_DEPTH && dir.Some? {
      EntriesSound(v, s, dir.value, prefix, depth);
    }
  }

  // ----- soundness of the verdict --------------------------------------------------------------

  lemma {:induction false} NoneUnmarked(claims: map<nat, string>, bitmap: set<nat>, below: nat)
    ensures Unmarkeds(claims, bitmap, below) == [] <==> forall b :: b in claims && b < below ==> b in bitmap
    decreases below
  {
    if below > 0 {
      NoneUnmarked(claims, bitmap, below - 1);
    }
  }

  /** No errors: every claimed block lies in the volume and has its bit, every entry
      reachable from the root is sound and its blocks are claimed in its own name,
      and no directory is reached twice. */
  lemma {:induction false} VerdictSound(v: View, bitmap: set<nat>, sbFree: int)
    requires Fsck(v, bitmap, sbFree).errors == []
    ensures var claims := WalkDir(v, START, v.root, DIR_BLOCKS, "/", 1).claims;
      && (forall b :: b in claims ==> b < v.total && b in bitmap)
      && v.root.Some? && CleanDir(v, claims, v.root.value, "/", 1)
      && var starts := DirStartsIn(v, v.root.value, 1);
        forall i, j :: 0 <= i < j < |starts| ==> starts[i] != starts[j]
  {
    hide WalkDir;
    WalkDirSound(v, START, v.root, DIR_BLOCKS, "/", 1);
    var s := WalkDir(v, START, v.root, DIR_BLOCKS, "/", 1);
    NoneUnmarked(s.claims, bitmap, v.total);
  }
}
