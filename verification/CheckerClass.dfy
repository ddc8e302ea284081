/** The checker as it runs: an object that collects claims and complaints. */
module CheckerClass {
  import opened HbfsTypes
  import opened CheckerSpec

  class Fsck {
    const view: View
    var errors: seq<Error>
    var claims: map<nat, string>
    var visited: set<nat>
    var overlaps: nat

    ghost function Seen(): State
      reads this
    {
      State(errors, claims, visited, overlaps)
    }

    constructor (view: View)
      ensures this.view == view && Seen() == START
    {
      this.view := view;
      errors, claims, visited, overlaps := [], map[], {}, 0;
    }

    method ErrorIf(bad: bool, e: Error)
      modifies this`errors
      ensures Seen() == FailIf(old(Seen()), bad, e)
    {
      if bad {
        errors := errors + [e];
      }
    }

    method ClaimRange(start: nat, count: nat, owner: string)
      modifies this`errors, this`claims, this`overlaps
      ensures Seen() == Claim(view, old(Seen()), start, count, owner)
    {
      if start + count > view.total {
        ErrorIf(true, PastEnd(owner));
        return;
      }
      ghost var s := Seen();
      for b := start to start + count
        invariant visited == s.visited
        invariant ClaimBlocks(Seen(), b, start + count, owner) == ClaimBlocks(s, start, start + count, owner)
      {
        if b < JOURNAL_BLOCKS {
          overlaps := overlaps + 1;
        }
        if b in claims && claims[b] != owner {
          errors := errors + [TwoOwners(b, claims[b], owner)];
          continue;
        }
        claims := claims[b := owner];
      }
    }

    /** A file kept in runs: one block for the list, every run under the file's own name,
        and as many blocks in all as its entry counts. */
    method ClaimExtentFile(display: string, e: Entry)
      modifies this`errors, this`claims, this`overlaps
      ensures Seen() == ClaimExtents(view, old(Seen()), display, e)
    {
      hide Claim;
      ClaimRange(e.start, 1, display + " [extents]");
      var read := view.extentsAt(e.start);
      if !read.ExtentList? || |read.runs| == 0 || |read.runs| > EXTENT_MAX {
        ErrorIf(true, BadExtents(display));
        return;
      }
      var runs, total := read.runs, 0;
      ghost var s1 := Seen();
      for i := 0 to |runs|
        invariant visited == s1.visited
        invariant ClaimRuns(view, Seen(), display, runs[i..]) == ClaimRuns(view, s1, display, runs)
        invariant total + RunTotal(runs[i..]) == RunTotal(runs)
      {
        assert runs[i..][1..] == runs[i + 1..];
        if runs[i].count == 0 {
          ErrorIf(true, EmptyRun(display));
        } else {
          total := total + runs[i].count;
          ClaimRange(runs[i].start, runs[i].count, display);
        }
      }
      ErrorIf(total != e.count, WrongTotal(display));
      ErrorIf(e.count < (e.size + BLOCK_SIZE - 1) / BLOCK_SIZE, TooFewBlocks(display));
    }

    method ClaimInlineFile(display: string, e: Entry)
      modifies this`errors, this`claims, this`overlaps
      ensures Seen() == ClaimInline(view, old(Seen()), display, e)
    {
      hide Claim;
      ErrorIf(e.count == 0 && e.size > 0, NoBlocks(display));
      ErrorIf(e.count < (e.size + BLOCK_SIZE - 1) / BLOCK_SIZE, TooFewBlocks(display));
      if e.count > 0 {
        ClaimRange(e.start, e.count, display);
      }
    }

    method ClaimXattrBlock(display: string, e: Entry)
      modifies this`errors, this`claims, this`overlaps
      ensures Seen() == ClaimXattr(view, old(Seen()), display, e)
    {
      hide Claim;
      if e.xcount == 0 && e.xlba == 0 {
        return;
      }
      ErrorIf(e.xcount > 32, BadXattr(display));
      if e.xlba < view.dataLba || e.xlba % 8 != 0 {
        ErrorIf(true, BadXattr(display));
      } else {
        ClaimRange((e.xlba - view.dataLba) / 8, 1, display + " [xattr]");
      }
    }

    /** The recursive walk; the depth limit bounds it whatever the image says. */
    method Walk(dir: Option<Directory>, blocks: nat, prefix: string, depth: nat)
      modifies this`errors, this`claims, this`overlaps, this`visited
      ensures Seen() == WalkDir(view, old(Seen()), dir, blocks, prefix, depth)
      decreases MAX_DEPTH + 1 - depth
    {
      hide WalkEntry, ClaimXattr, ClaimExtents, ClaimInline, Claim;
      if depth > MAX_DEPTH {
        ErrorIf(true, TooDeep(prefix));
        return;
      }
      if blocks == 0 {
        ErrorIf(true, EmptyDir(prefix));
        return;
      }
      if dir.None? {
        ErrorIf(true, ShortDir(prefix));
        return;
      }
      var entries := dir.value;
      ghost var s := Seen();
      for i := 0 to |entries|
        invariant Seen() == WalkEntries(view, s, entries[..i], prefix, depth)
      {
        assert entries[..i + 1][..i] == entries[..i];
        Visit(entries[i], prefix, depth);
      }
      assert entries[..|entries|] == entries;
    }

    method Visit(e: Entry, prefix: string, depth: nat)
      requires depth <= MAX_DEPTH
      modifies this`errors, this`claims, this`overlaps, this`visited
      ensures Seen() == WalkEntry(view, old(Seen()), e, prefix, depth)
      decreases MAX_DEPTH + 1 - depth, 0
    {
      hide ClaimXattr, ClaimExtents, ClaimInline, Claim, WalkDir;
      if e.ftype == FTYPE_FREE {
        return;
      }
      ErrorIf(!e.terminated, Unterminated(prefix));
      if e.name == "" {
        ErrorIf(true, NoName(prefix));
        return;
      }
      var display := prefix + e.name;
      if !Known(e.ftype) {
        ErrorIf(true, BadType(display));
        return;
      }
      var extents := e.extents;
      if extents && e.ftype == FTYPE_DIR {
        ErrorIf(true, DirWithExtents(display));
        extents := false;
      }
      if extents && !view.v4 {
        ErrorIf(true, ExtentsBeforeV4(display));
        extents := false;
      }
      if e.ftype == FTYPE_DIR {
        if e.start in visited {
          ErrorIf(true, Cycle(display));
          return;
        }
        visited := visited + {e.start};
        ClaimRange(e.start, e.count, display + "/");
        Walk(view.dirAt(e.start, e.count), e.count, display + "/", depth + 1);
      } else if extents {
        ClaimExtentFile(display, e);
      } else {
        ClaimInlineFile(display, e);
      }
      ClaimXattrBlock(display, e);
    }

    lemma {:induction false} Further(claims: map<nat, string>, bitmap: set<nat>, b: nat)
      ensures Marked(bitmap, b + 1) == Marked(bitmap, b) + if b in bitmap then {b} else {}
      ensures Unreferenced(b + 1, claims, bitmap) == Unreferenced(b, claims, bitmap)
                + if b in bitmap && b >= JOURNAL_BLOCKS && b !in claims then {b} else {}
    {
    }

    /** Claims against the bitmap, both ways, and the free count. */
    method CrossCheckAll(bitmap: set<nat>, sbFree: int) returns (verdict: Verdict)
      modifies this`errors
      ensures verdict == CrossCheck(view, old(Seen()), bitmap, sbFree)
    {
      hide Marked, Unreferenced, Unmarkeds;
      CheckClaimed(bitmap);
      var extra, marked := CountMarked(bitmap);
      verdict := Verdict(errors, extra, view.total - |marked| != sbFree, overlaps);
    }

    /** Every claimed block must be marked. */
    method CheckClaimed(bitmap: set<nat>)
      modifies this`errors
      ensures errors == old(errors) + Unmarkeds(claims, bitmap, view.total)
    {
      ghost var before := errors;
      for b := 0 to view.total
        invariant errors == before + Unmarkeds(claims, bitmap, b)
      {
        if b in claims && b !in bitmap {
          errors := errors + [Unmarked(b)];
        }
      }
    }

    /** The marked blocks, and those of them that nothing owns. */
    method CountMarked(bitmap: set<nat>) returns (extra: set<nat>, marked: set<nat>)
      ensures extra == Unreferenced(view.total, claims, bitmap)
      ensures marked == Marked(bitmap, view.total)
    {
      extra, marked := {}, {};
      assert Unreferenced(0, claims, bitmap) == {} && Marked(bitmap, 0) == {};
      for b := 0 to view.total
        invariant extra == Unreferenced(b, claims, bitmap)
        invariant marked == Marked(bitmap, b)
      {
        hide Marked, Unreferenced;
        Further(claims, bitmap, b);
        if b in bitmap {
          marked := marked + {b};
          if b >= JOURNAL_BLOCKS && b !in claims {
            extra := extra + {b};
          }
        }
      }
    }

    method Check(bitmap: set<nat>, sbFree: int) returns (verdict: Verdict)
      requires Seen() == START
      modifies this`errors, this`claims, this`overlaps, this`visited
      ensures verdict == CheckerSpec.Fsck(view, bitmap, sbFree)
    {
      hide WalkDir;
      Walk(view.root, DIR_BLOCKS, "/", 1);
      verdict := CrossCheckAll(bitmap, sbFree);
    }
  }
}
