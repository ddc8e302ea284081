/** Every complaint of the checker is true: some entry that can be reached from the root has
    the fault it names. */
module CheckerTrue {
  import opened HbfsTypes
  import opened CheckerSpec
  import opened CheckerSound

  // ----- what can be reached, and what it names ---------------------------------------

  ghost predicate Contains(v: View, parent: Entry, p: string, e: Entry, prefix: string) {
    && parent.ftype == FTYPE_DIR && prefix == p + parent.name + "/"
    && v.dirAt(parent.start, parent.count).Some? && e in v.dirAt(parent.start, parent.count).value
  }

  /** An entry `depth` levels down, in the directory of that path. */
  ghost predicate Reach(v: View, e: Entry, prefix: string, depth: nat)
    decreases depth
  {
    if depth == 0 then false
    else if depth == 1 then prefix == "/" && v.root.Some? && e in v.root.value
    else exists parent, p :: Reach(v, parent, p, depth - 1) && Contains(v, parent, p, e, prefix)
  }

  /** The runs of blocks an entry names, each with the owner it is claimed for. */
  ghost predicate Names(v: View, e: Entry, prefix: string, start: nat, count: nat, owner: string) {
    var display, fragmented := prefix + e.name, e.extents && v.v4;
    || (e.ftype == FTYPE_DIR && start == e.start && count == e.count && owner == display + "/")
    || (e.ftype != FTYPE_DIR && !fragmented && start == e.start && count == e.count && owner == display)
    || (e.ftype != FTYPE_DIR && fragmented && start == e.start && count == 1 && owner == display + " [extents]")
    || (e.ftype != FTYPE_DIR && fragmented && v.extentsAt(e.start).ExtentList? && owner == display
        && Run(start, count) in v.extentsAt(e.start).runs)
    || ((e.xcount != 0 || e.xlba != 0) && e.xlba >= v.dataLba && start == (e.xlba - v.dataLba) / 8 && count == 1
        && owner == display + " [xattr]")
  }

  ghost predicate OwnerTrue(v: View, b: nat, owner: string) {
    exists e, prefix, depth, start, count ::
      Reach(v, e, prefix, depth) && Names(v, e, prefix, start, count, owner) && Within(b, start, count)
  }

  // ----- what each complaint means -------------------------------------------------------

  ghost predicate Blames(v: View, e: Entry, prefix: string, depth: nat, claims: map<nat, string>, err: Error) {
    var display := prefix + e.name;
    e.ftype != FTYPE_FREE &&
    match err
    case PastEnd(owner) => exists start: nat, count: nat :: Names(v, e, prefix, start, count, owner) && start + count > v.total
    case TwoOwners(b, first, second) =>
      && first != second && b in claims && claims[b] == first
      && exists start, count :: Names(v, e, prefix, start, count, second) && Within(b, start, count)
    case TooDeep(path) => path == display + "/" && e.ftype == FTYPE_DIR && depth == MAX_DEPTH
    case EmptyDir(path) => path == display + "/" && e.ftype == FTYPE_DIR && e.count == 0
    case ShortDir(path) => path == display + "/" && e.ftype == FTYPE_DIR && v.dirAt(e.start, e.count).None?
    case Unterminated(path) => path == prefix && !e.terminated
    case NoName(path) => path == prefix && e.name == ""
    case BadType(path) => path == display && e.ftype !in {FTYPE_TEXT, FTYPE_DIR, FTYPE_EXEC, FTYPE_BATCH}
    case DirWithExtents(path) => path == display && e.ftype == FTYPE_DIR && e.extents
    case ExtentsBeforeV4(path) => path == display && e.ftype != FTYPE_DIR && e.extents && !v.v4
    case Cycle(path) => path == display && e.ftype == FTYPE_DIR
    case NoBlocks(path) => path == display && e.count == 0 && e.size > 0
    case TooFewBlocks(path) => path == display && e.size > e.count * BLOCK_SIZE
    case BadExtents(path) =>
      path == display && e.extents && (v.extentsAt(e.start).ExtentList? ==> !(0 < |v.extentsAt(e.start).runs| <= EXTENT_MAX))
    case EmptyRun(path) =>
      path == display && e.extents && v.extentsAt(e.start).ExtentList? && exists r :: r in v.extentsAt(e.start).runs && r.count == 0
    case WrongTotal(path) =>
      path == display && e.extents && v.extentsAt(e.start).ExtentList? && RunTotal(v.extentsAt(e.start).runs) != e.count
    case BadXattr(path) =>
      path == display && (e.xcount != 0 || e.xlba != 0) && (e.xcount > 32 || e.xlba < v.dataLba || e.xlba % 8 != 0)
    case Unmarked(_) => false
  }

  ghost predicate Holds(v: View, claims: map<nat, string>, err: Error) {
    || (err == ShortDir("/") && v.root.None?)
    || exists e, prefix, depth :: Reach(v, e, prefix, depth) && Blames(v, e, prefix, depth, claims, err)
  }

  /** Everything said and claimed so far is true. */
  ghost predicate Truthful(v: View, s: State) {
    && (forall i :: 0 <= i < |s.errors| ==> Holds(v, s.claims, s.errors[i]))
    && (forall b :: b in s.claims ==> OwnerTrue(v, b, s.claims[b]))
  }

  // ----- the parts of the walk ---------------------------------------------------------------

  lemma {:induction false} HoldsLater(v: View, claims: map<nat, string>, claims': map<nat, string>, err: Error)
    requires Holds(v, claims, err) && forall b :: b in claims ==> b in claims' && claims'[b] == claims[b]
    ensures Holds(v, claims', err)
  {
    if !(err == ShortDir("/") && v.root.None?) {
      var e, prefix, depth :| Reach(v, e, prefix, depth) && Blames(v, e, prefix, depth, claims, err);
      assert Blames(v, e, prefix, depth, claims', err);
    }
  }

  /** A complaint about an entry that has the fault. */
  lemma {:induction false} FailTrue(v: View, s: State, e: Entry, prefix: string, depth: nat, bad: bool, err: Error)
    requires Truthful(v, s) && Reach(v, e, prefix, depth) && (bad ==> Blames(v, e, prefix, depth, s.claims, err))
    ensures Truthful(v, FailIf(s, bad, err)) && (bad ==> Truthful(v, Fail(s, err)))
  {
    hide Blames, Reach, OwnerTrue;
    if bad {
      assert Holds(v, s.claims, err);
      hide Holds;
      var t := Fail(s, err);
      forall i | 0 <= i < |t.errors|
        ensures Holds(v, t.claims, t.errors[i])
      {
        if i < |s.errors| {
          assert t.errors[i] == s.errors[i];
        }
      }
    }
  }

  lemma {:induction false} ClaimOneTrue(v: View, s: State, e: Entry, prefix: string, depth: nat, start: nat, count: nat, owner: string, b: nat)
    requires Truthful(v, s) && Reach(v, e, prefix, depth) && e.ftype != FTYPE_FREE
    requires Names(v, e, prefix, start, count, owner) && Within(b, start, count)
    ensures Truthful(v, ClaimOne(s, b, owner))
  {
    hide Reach, Names, Within;
    if b in s.claims && s.claims[b] != owner {
      assert Blames(v, e, prefix, depth, s.claims, TwoOwners(b, s.claims[b], owner));
      FailTrue(v, s, e, prefix, depth, true, TwoOwners(b, s.claims[b], owner));
    } else {
      assert OwnerTrue(v, b, owner);
      hide OwnerTrue, Holds;
      forall i | 0 <= i < |s.errors|
        ensures Holds(v, s.claims[b := owner], s.errors[i])
      {
        HoldsLater(v, s.claims, s.claims[b := owner], s.errors[i]);
      }
    }
  }

  lemma {:induction false} ClaimBlocksTrue(v: View, s: State, e: Entry, prefix: string, depth: nat, start: nat, count: nat, owner: string, b: nat)
    requires Truthful(v, s) && Reach(v, e, prefix, depth) && e.ftype != FTYPE_FREE
    requires Names(v, e, prefix, start, count, owner) && start <= b <= start + count
    ensures Truthful(v, ClaimBlocks(s, b, start + count, owner))
    decreases start + count - b
  {
    hide Truthful, Reach, Names, ClaimOne;
    if b < start + count {
      ClaimOneTrue(v, s, e, prefix, depth, start, count, owner, b);
      ClaimBlocksTrue(v, ClaimOne(s, b, owner), e, prefix, depth, start, count, owner, b + 1);
    }
  }

  lemma {:induction false} ClaimTrue(v: View, s: State, e: Entry, prefix: string, depth: nat, start: nat, count: nat, owner: string)
    requires Truthful(v, s) && Reach(v, e, prefix, depth) && e.ftype != FTYPE_FREE && Names(v, e, prefix, start, count, owner)
    ensures Truthful(v, Claim(v, s, start, count, owner))
  {
    hide Truthful, Reach, Names, ClaimBlocks;
    assert start + count > v.total ==> Blames(v, e, prefix, depth, s.claims, PastEnd(owner));
    FailTrue(v, s, e, prefix, depth, start + count > v.total, PastEnd(owner));
    ClaimBlocksTrue(v, s, e, prefix, depth, start, count, owner, start);
  }

  lemma {:induction false} ClaimRunsTrue(v: View, s: State, e: Entry, prefix: string, depth: nat, k: nat)
    requires Truthful(v, s) && Reach(v, e, prefix, depth) && e.ftype != FTYPE_FREE && e.ftype != FTYPE_DIR
    requires e.extents && v.v4 && v.extentsAt(e.start).ExtentList? && k <= |v.extentsAt(e.start).runs|
    ensures Truthful(v, ClaimRuns(v, s, prefix + e.name, v.extentsAt(e.start).runs[k..]))
    decreases |v.extentsAt(e.start).runs| - k
  {
    hide Truthful, Reach, Claim, Fail;
    var all, display := v.extentsAt(e.start).runs, prefix + e.name;
    var runs := all[k..];
    if runs != [] {
      var r := all[k];
      assert runs[0] == r && runs[1..] == all[k + 1..] && r in all;
      if r.count == 0 {
        assert Blames(v, e, prefix, depth, s.claims, EmptyRun(display));
        FailTrue(v, s, e, prefix, depth, true, EmptyRun(display));
      } else {
        assert Run(r.start, r.count) == r;
        ClaimTrue(v, s, e, prefix, depth, r.start, r.count, display);
      }
      var t := if r.count == 0 then Fail(s, EmptyRun(display)) else Claim(v, s, r.start, r.count, display);
      ClaimRunsTrue(v, t, e, prefix, depth, k + 1);
    }
  }

  lemma {:induction false} FileTrue(v: View, s: State, e: Entry, prefix: string, depth: nat)
    requires Truthful(v, s) && Reach(v, e, prefix, depth) && e.ftype != FTYPE_FREE && e.ftype != FTYPE_DIR
    ensures var display := prefix + e.name;
      Truthful(v, if e.extents && v.v4 then ClaimExtents(v, s, display, e) else ClaimInline(v, s, display, e))
  {
    hide Truthful, Reach, Claim, ClaimRuns, Fail, FailIf, RunTotal;
    var display := prefix + e.name;
    NeededCovers(e.size, e.count);
    if e.extents && v.v4 {
      var s1 := Claim(v, s, e.start, 1, display + " [extents]");
      ClaimTrue(v, s, e, prefix, depth, e.start, 1, display + " [extents]");
      var r := v.extentsAt(e.start);
      if !r.ExtentList? || |r.runs| == 0 || |r.runs| > EXTENT_MAX {
        FailTrue(v, s1, e, prefix, depth, true, BadExtents(display));
      } else {
        assert r.runs[0..] == r.runs;
        ClaimRunsTrue(v, s1, e, prefix, depth, 0);
        var s2 := ClaimRuns(v, s1, display, r.runs);
        FailTrue(v, s2, e, prefix, depth, RunTotal(r.runs) != e.count, WrongTotal(display));
        var s3 := FailIf(s2, RunTotal(r.runs) != e.count, WrongTotal(display));
        FailTrue(v, s3, e, prefix, depth, e.count < Needed(e.size), TooFewBlocks(display));
      }
    } else {
      FailTrue(v, s, e, prefix, depth, e.count == 0 && e.size > 0, NoBlocks(display));
      var s1 := FailIf(s, e.count == 0 && e.size > 0, NoBlocks(display));
      FailTrue(v, s1, e, prefix, depth, e.count < Needed(e.size), TooFewBlocks(display));
      var s2 := FailIf(s1, e.count < Needed(e.size), TooFewBlocks(display));
      ClaimTrue(v, s2, e, prefix, depth, e.start, e.count, display);
    }
  }

  lemma {:induction false} XattrTrue(v: View, s: State, e: Entry, prefix: string, depth: nat)
    requires Truthful(v, s) && Reach(v, e, prefix, depth) && e.ftype != FTYPE_FREE
    ensures Truthful(v, ClaimXattr(v, s, prefix + e.name, e))
  {
    hide Truthful, Reach, Claim, Fail, FailIf;
    var display := prefix + e.name;
    if e.xcount != 0 || e.xlba != 0 {
      FailTrue(v, s, e, prefix, depth, e.xcount > 32, BadXattr(display));
      var s1 := FailIf(s, e.xcount > 32, BadXattr(display));
      if e.xlba < v.dataLba || e.xlba % 8 != 0 {
        FailTrue(v, s1, e, prefix, depth, true, BadXattr(display));
      } else {
        ClaimTrue(v, s1, e, prefix, depth, (e.xlba - v.dataLba) / 8, 1, display + " [xattr]");
      }
    }
  }

  lemma {:induction false} FieldsTrue(v: View, s: State, e: Entry, prefix: string, depth: nat)
    requires Truthful(v, s) && Reach(v, e, prefix, depth) && e.ftype != FTYPE_FREE
    ensures Truthful(v, CheckFields(v, s, prefix + e.name, e))
  {
    hide Truthful, Reach, FailIf;
    var display := prefix + e.name;
    FailTrue(v, s, e, prefix, depth, e.extents && e.ftype == FTYPE_DIR, DirWithExtents(display));
    FailTrue(v, FailIf(s, e.extents && e.ftype == FTYPE_DIR, DirWithExtents(display)), e, prefix, depth,
             e.extents && e.ftype != FTYPE_DIR && !v.v4, ExtentsBeforeV4(display));
  }

  lemma {:induction false} EntryTrue(v: View, s: State, e: Entry, prefix: string, depth: nat)
    requires Truthful(v, s) && Reach(v, e, prefix, depth) && depth <= MAX_DEPTH
    ensures Truthful(v, WalkEntry(v, s, e, prefix, depth))
    decreases MAX_DEPTH + 1 - depth, 0, 0
  {
    hide Truthful, Reach, Fail, FailIf, CheckFields, Claim, ClaimXattr, ClaimExtents, ClaimInline, WalkDir;
    if e.ftype != FTYPE_FREE {
      var display := prefix + e.name;
      FailTrue(v, s, e, prefix, depth, !e.terminated, Unterminated(prefix));
      var s0 := FailIf(s, !e.terminated, Unterminated(prefix));
      if e.name == "" {
        FailTrue(v, s0, e, prefix, depth, true, NoName(prefix));
      } else if !Known(e.ftype) {
        FailTrue(v, s0, e, prefix, depth, true, BadType(display));
      } else {
        var s1 := CheckFields(v, s0, display, e);
        FieldsTrue(v, s0, e, prefix, depth);
        if e.ftype != FTYPE_DIR {
          FileTrue(v, s1, e, prefix, depth);
          XattrTrue(v, if e.extents && v.v4 then ClaimExtents(v, s1, display, e) else ClaimInline(v, s1, display, e), e, prefix, depth);
        } else if e.start in s1.visited {
          FailTrue(v, s1, e, prefix, depth, true, Cycle(display));
        } else {
          SubdirTrue(v, s1, e, prefix, depth);
        }
      }
    }
  }

  lemma {:induction false} SubdirTrue(v: View, s: State, e: Entry, prefix: string, depth: nat)
    requires Truthful(v, s) && Reach(v, e, prefix, depth) && depth <= MAX_DEPTH && e.ftype == FTYPE_DIR
    ensures var display := prefix + e.name;
      var s2 := Claim(v, s.(visited := s.visited + {e.start}), e.start, e.count, display + "/");
      Truthful(v, ClaimXattr(v, WalkDir(v, s2, v.dirAt(e.start, e.count), e.count, display + "/", depth + 1), display, e))
    decreases MAX_DEPTH + 1 - depth, 0, -1
  {
    hide Reach, Fail, Claim, ClaimXattr, WalkEntries, Holds, OwnerTrue;
    var display := prefix + e.name;
    var s1 := s.(visited := s.visited + {e.start});
    assert Truthful(v, s1);
    hide Truthful;
    var s2 := Claim(v, s1, e.start, e.count, display + "/");
    ClaimTrue(v, s1, e, prefix, depth, e.start, e.count, display + "/");
    var dir := v.dirAt(e.start, e.count);
    if depth + 1 > MAX_DEPTH {
      FailTrue(v, s2, e, prefix, depth, true, TooDeep(display + "/"));
    } else if e.count == 0 {
      FailTrue(v, s2, e, prefix, depth, true, EmptyDir(display + "/"));
    } else if dir.None? {
      FailTrue(v, s2, e, prefix, depth, true, ShortDir(display + "/"));
    } else {
      ReachBelow(v, e, prefix, depth);
      EntriesTrue(v, s2, dir.value, display + "/", depth + 1);
    }
    XattrTrue(v, WalkDir(v, s2, dir, e.count, display + "/", depth + 1), e, prefix, depth);
  }

  lemma {:induction false} ReachBelow(v: View, e: Entry, prefix: string, depth: nat)
    requires Reach(v, e, prefix, depth) && e.ftype == FTYPE_DIR && v.dirAt(e.start, e.count).Some?
    ensures forall x :: x in v.dirAt(e.start, e.count).value ==> Reach(v, x, prefix + e.name + "/", depth + 1)
  {
    forall x | x in v.dirAt(e.start, e.count).value
      ensures Reach(v, x, prefix + e.name + "/", depth + 1)
    {
      assert Contains(v, e, prefix, x, prefix + e.name + "/");
    }
  }

  lemma {:induction false} EntriesTrue(v: View, s: State, dir: Directory, prefix: string, depth: nat)
    requires Truthful(v, s) && depth <= MAX_DEPTH && forall x :: x in dir ==> Reach(v, x, prefix, depth)
    ensures Truthful(v, WalkEntries(v, s, dir, prefix, depth))
    decreases MAX_DEPTH + 1 - depth, 1, |dir|
  {
    hide Truthful, Reach, WalkEntry;
    if dir != [] {
      var front, last := dir[..|dir| - 1], dir[|dir| - 1];
      EntriesTrue(v, s, front, prefix, depth);
      EntryTrue(v, WalkEntries(v, s, front, prefix, depth), last, prefix, depth);
    }
  }

  // ----- the verdict -----------------------------------------------------------------------------

  lemma {:induction false} UnmarkedTrue(claims: map<nat, string>, bitmap: set<nat>, below: nat)
    ensures forall i :: 0 <= i < |Unmarkeds(claims, bitmap, below)| ==>
      var u := Unmarkeds(claims, bitmap, below)[i]; u.Unmarked? && u.block in claims && u.block < below && u.block !in bitmap
    decreases below
  {
    if below > 0 {
      UnmarkedTrue(claims, bitmap, below - 1);
    }
  }

  /** Each error names a fault the volume has: of an entry that can be reached, or a block that
      such an entry names and the bitmap does not mark. For a block with two owners the first
      is the one that keeps it. */
  lemma {:induction false} VerdictTrue(v: View, bitmap: set<nat>, sbFree: int, i: nat)
    requires i < |Fsck(v, bitmap, sbFree).errors|
    ensures var err := Fsck(v, bitmap, sbFree).errors[i];
      var claims := WalkDir(v, START, v.root, DIR_BLOCKS, "/", 1).claims;
      if err.Unmarked? then err.block < v.total && err.block !in bitmap && err.block in claims && OwnerTrue(v, err.block, claims[err.block])
      else Holds(v, claims, err)
  {
    hide WalkEntries, Unmarkeds, Holds, OwnerTrue;
    var t := WalkDir(v, START, v.root, DIR_BLOCKS, "/", 1);
    assert Truthful(v, START);
    if v.root.None? {
      assert t.errors == [ShortDir("/")];
      assert Holds(v, t.claims, ShortDir("/")) by {
        RootMissing(v, t.claims);
      }
    } else {
      assert forall x :: x in v.root.value ==> Reach(v, x, "/", 1);
      EntriesTrue(v, START, v.root.value, "/", 1);
    }
    UnmarkedTrue(t.claims, bitmap, v.total);
    var errors := Fsck(v, bitmap, sbFree).errors;
    if i < |t.errors| {
      assert errors[i] == t.errors[i];
      NeverUnmarked(v, t.claims, errors[i]);
    } else {
      assert errors[i] == Unmarkeds(t.claims, bitmap, v.total)[i - |t.errors|];
    }
  }

  lemma {:induction false} RootMissing(v: View, claims: map<nat, string>)
    requires v.root.None?
    ensures Holds(v, claims, ShortDir("/"))
  {
  }

  lemma {:induction false} NeverUnmarked(v: View, claims: map<nat, string>, err: Error)
    requires Holds(v, claims, err)
    ensures !err.Unmarked?
  {
  }
}
