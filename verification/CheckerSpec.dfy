/** The independent checker: who claims which block, as its walk finds out. */
module CheckerSpec {
  import opened HbfsTypes

  datatype ExtentRead = ShortBlock | NotExtents | ExtentList(runs: seq<Run>)

  /** What the checker's reads of an image return. The functions stand for any image
      whatever: nothing is assumed about how their results relate. */
  datatype View = View(root: Option<Directory>, dirAt: (nat, nat) -> Option<Directory>, extentsAt: nat -> ExtentRead,
                       total: nat, dataLba: nat, v4: bool)

  datatype Error =
    | PastEnd(owner: string)
    | TwoOwners(block: nat, first: string, second: string)
    | TooDeep(path: string)
    | EmptyDir(path: string)
    | ShortDir(path: string)
    | Unterminated(path: string)
    | NoName(path: string)
    | BadType(path: string)
    | DirWithExtents(path: string)
    | ExtentsBeforeV4(path: string)
    | Cycle(path: string)
    | NoBlocks(path: string)
    | TooFewBlocks(path: string)
    | BadExtents(path: string)
    | EmptyRun(path: string)
    | WrongTotal(path: string)
    | BadXattr(path: string)
    | Unmarked(block: nat)

  datatype State = State(errors: seq<Error>, claims: map<nat, string>, visited: set<nat>, overlaps: nat)

  const START := State([], map[], {}, 0)

  function Fail(s: State, e: Error): State {
    s.(errors := s.errors + [e])
  }

  function FailIf(s: State, bad: bool, e: Error): State {
    if bad then Fail(s, e) else s
  }

  // ----- ownership -------------------------------------------------------------------

  function ClaimOne(s: State, b: nat, owner: string): State {
    var t := if b < JOURNAL_BLOCKS then s.(overlaps := s.overlaps + 1) else s;
    if b in s.claims && s.claims[b] != owner then Fail(t, TwoOwners(b, s.claims[b], owner))
    else t.(claims := s.claims[b := owner])
  }

  function ClaimBlocks(s: State, b: nat, end: nat, owner: string): State
    decreases end - b
  {
    if b >= end then s else ClaimBlocks(ClaimOne(s, b, owner), b + 1, end, owner)
  }

  function Claim(v: View, s: State, start: nat, count: nat, owner: string): State {
    if start + count > v.total then Fail(s, PastEnd(owner)) else ClaimBlocks(s, start, start + count, owner)
  }

  // ----- files -------------------------------------------------------------------------

  function Needed(size: nat): nat {
    (size + BLOCK_SIZE - 1) / BLOCK_SIZE
  }

  function ClaimRuns(v: View, s: State, display: string, runs: seq<Run>): State
    decreases |runs|
  {
    if runs == [] then s
    else
      var r := runs[0];
      ClaimRuns(v, if r.count == 0 then Fail(s, EmptyRun(display)) else Claim(v, s, r.start, r.count, display), display, runs[1..])
  }

  function ClaimExtents(v: View, s: State, display: string, e: Entry): State {
    var s1 := Claim(v, s, e.start, 1, display + " [extents]");
    match v.extentsAt(e.start)
    case ShortBlock => Fail(s1, BadExtents(display))
    case NotExtents => Fail(s1, BadExtents(display))
    case ExtentList(runs) =>
      if |runs| == 0 || |runs| > EXTENT_MAX then Fail(s1, BadExtents(display))
      else
        var s2 := ClaimRuns(v, s1, display, runs);
        FailIf(FailIf(s2, RunTotal(runs) != e.count, WrongTotal(display)), e.count < Needed(e.size), TooFewBlocks(display))
  }

  function ClaimInline(v: View, s: State, display: string, e: Entry): State {
    var s1 := FailIf(FailIf(s, e.count == 0 && e.size > 0, NoBlocks(display)), e.count < Needed(e.size), TooFewBlocks(display));
    if e.count > 0 then Claim(v, s1, e.start, e.count, display) else s1
  }

  function ClaimXattr(v: View, s: State, display: string, e: Entry): State {
    if e.xcount == 0 && e.xlba == 0 then s
    else
      var s1 := FailIf(s, e.xcount > 32, BadXattr(display));
      if e.xlba < v.dataLba || e.xlba % 8 != 0 then Fail(s1, BadXattr(display))
      else Claim(v, s1, (e.xlba - v.dataLba) / 8, 1, display + " [xattr]")
  }

  // ----- the walk -----------------------------------------------------------------------

  predicate Known(ftype: nat) {
    ftype in {FTYPE_TEXT, FTYPE_DIR, FTYPE_EXEC, FTYPE_BATCH}
  }

  /** The complaints about an entry's own fields, before anything is claimed. */
  function CheckFields(v: View, s: State, display: string, e: Entry): State {
    FailIf(FailIf(s, e.extents && e.ftype == FTYPE_DIR, DirWithExtents(display)),
           e.extents && e.ftype != FTYPE_DIR && !v.v4, ExtentsBeforeV4(display))
  }

  function WalkEntry(v: View, s: State, e: Entry, prefix: string, depth: nat): State
    requires depth <= MAX_DEPTH
    decreases MAX_DEPTH + 1 - depth, 0, 0
  {
    if e.ftype == FTYPE_FREE then s
    else
      var s0 := FailIf(s, !e.terminated, Unterminated(prefix));
      if e.name == "" then Fail(s0, NoName(prefix))
      else
        var display := prefix + e.name;
        if !Known(e.ftype) then Fail(s0, BadType(display))
        else
          var s1 := CheckFields(v, s0, display, e);
          if e.ftype == FTYPE_DIR then
            if e.start in s1.visited then Fail(s1, Cycle(display))
            else
              var s2 := Claim(v, s1.(visited := s1.visited + {e.start}), e.start, e.count, display + "/");
              ClaimXattr(v, WalkDir(v, s2, v.dirAt(e.start, e.count), e.count, display + "/", depth + 1), display, e)
          else if e.extents && v.v4 then ClaimXattr(v, ClaimExtents(v, s1, display, e), display, e)
          else ClaimXattr(v, ClaimInline(v, s1, display, e), display, e)
  }

  function WalkEntries(v: View, s: State, dir: Directory, prefix: string, depth: nat): State
    requires depth <= MAX_DEPTH
    decreases MAX_DEPTH + 1 - depth, 1, |dir|
  {
    if dir == [] then s
    else WalkEntry(v, WalkEntries(v, s, dir[..|dir| - 1], prefix, depth), dir[|dir| - 1], prefix, depth)
  }

  function WalkDir(v: View, s: State, dir: Option<Directory>, blocks: nat, prefix: string, depth: nat): State
    decreases MAX_DEPTH + 1 - depth, 2, 0
  {
    if depth > MAX_DEPTH then Fail(s, TooDeep(prefix))
    else if blocks == 0 then Fail(s, EmptyDir(prefix))
    else if dir.None? then Fail(s, ShortDir(prefix))
    else WalkEntries(v, s, dir.value, prefix, depth)
  }

  // ----- cross check -----------------------------------------------------------------------

  datatype Verdict = Verdict(errors: seq<Error>, unreferenced: set<nat>, freeCountWrong: bool, overlaps: nat)

  function Marked(bitmap: set<nat>, total: nat): (r: set<nat>)
    ensures forall b :: b in r <==> b in bitmap && b < total
  {
    set b | b in bitmap && b < total
  }

  /** The claimed blocks without a bit, in ascending order; claims never reach the
      end of the volume. */
  function Unmarkeds(claims: map<nat, string>, bitmap: set<nat>, below: nat): seq<Error> {
    if below == 0 then []
    else
      Unmarkeds(claims, bitmap, below - 1) +
      if below - 1 in claims && below - 1 !in bitmap then [Unmarked(below - 1)] else []
  }

  function Unreferenced(total: nat, claims: map<nat, string>, bitmap: set<nat>): (r: set<nat>)
    ensures forall b :: b in r <==> b in bitmap && JOURNAL_BLOCKS <= b < total && b !in claims
  {
    set b | b in bitmap && JOURNAL_BLOCKS <= b < total && b !in claims
  }

  function CrossCheck(v: View, s: State, bitmap: set<nat>, sbFree: int): Verdict {
    Verdict(s.errors + Unmarkeds(s.claims, bitmap, v.total),
            Unreferenced(v.total, s.claims, bitmap),
            v.total - |Marked(bitmap, v.total)| != sbFree,
            s.overlaps)
  }

  function Fsck(v: View, bitmap: set<nat>, sbFree: int): Verdict {
    CrossCheck(v, WalkDir(v, START, v.root, DIR_BLOCKS, "/", 1), bitmap, sbFree)
  }
}
