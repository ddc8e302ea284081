/** Coalescing: what merging two touching free blocks does to the arena. */
module HeapMerge {
  import opened HeapModel

  /** Everything `Valid` asks of the arena except that free blocks do not touch. */
  ghost predicate Sound(arena: Arena, base: Word, brk: Word, mem: Mem, free: seq<Word>, head: Word) {
    && Tiled(arena, base, brk)
    && Aligned(arena)
    && Mapped(mem, base, brk)
    && Headers(arena, mem)
    && Lists(free, arena)
    && Chain(free, mem, head)
  }

  function Merged(arena: Arena, a: Word, b: Word): Arena
    requires a in arena && b in arena
  {
    (arena - {b})[a := Block(arena[a].size + HDR_SIZE + arena[b].size, false)]
  }

  /** Two neighbours of the list that touch. */
  ghost predicate Touching(arena: Arena, free: seq<Word>, p: nat) {
    && p + 1 < |free| && free[p] in arena && free[p + 1] in arena
    && End(arena, free[p]) == free[p + 1]
  }

  lemma {:induction false} MergedTiles(arena: Arena, base: Word, brk: Word, a: Word, b: Word)
    requires Tiled(arena, base, brk) && a in arena && b in arena && End(arena, a) == b
    ensures Tiled(Merged(arena, a, b), base, brk)
  {
    var arena' := Merged(arena, a, b);
    assert Bounded(arena', base, brk);
    assert Apart(arena');
    forall x | x in arena'
      ensures End(arena', x) == brk || End(arena', x) in arena'
    {
      if x == a {
        assert End(arena', a) == End(arena, b);
      } else {
        assert End(arena', x) == End(arena, x);
        assert End(arena, x) != b;
      }
    }
  }

  lemma {:induction false} MergedAligned(arena: Arena, a: Word, b: Word)
    requires Aligned(arena) && a in arena && b in arena
    ensures Aligned(Merged(arena, a, b))
  {
  }

  lemma {:induction false} MergedLists(arena: Arena, base: Word, brk: Word, free: seq<Word>, p: nat)
    requires Lists(free, arena) && Touching(arena, free, p)
    ensures Lists(Without(free, p + 1), Merged(arena, free[p], free[p + 1]))
  {
    RemoveLists(free, arena, p + 1, Merged(arena, free[p], free[p + 1]));
  }

  function MergedMem(arena: Arena, mem: Mem, free: seq<Word>, p: nat): Mem
    requires p + 1 < |free| && free[p] in arena && free[p + 1] in arena
    requires arena[free[p]].size + HDR_SIZE + arena[free[p + 1]].size < U32
  {
    mem[free[p] + SIZE := arena[free[p]].size + HDR_SIZE + arena[free[p + 1]].size]
       [free[p] + NEXT := At(free, p + 2)]
  }

  lemma {:induction false} MergedFits(arena: Arena, base: Word, brk: Word, free: seq<Word>, p: nat)
    requires Tiled(arena, base, brk) && Touching(arena, free, p)
    ensures arena[free[p]].size + HDR_SIZE + arena[free[p + 1]].size < U32
  {
  }

  lemma {:induction false} MergedChain(arena: Arena, base: Word, brk: Word, mem: Mem, free: seq<Word>, head: Word, p: nat)
    requires Tiled(arena, base, brk) && Lists(free, arena) && Chain(free, mem, head) && Touching(arena, free, p)
    requires arena[free[p]].size + HDR_SIZE + arena[free[p + 1]].size < U32
    ensures Chain(Without(free, p + 1), MergedMem(arena, mem, free, p), head)
  {
    hide Tiled;
    var mem' := MergedMem(arena, mem, free, p);
    forall i | 0 <= i < |free| && i != p + 1 && i != p
      ensures LinkAt(free, mem', i)
    {
      assert LinkAt(free, mem, i);
      HeadersApart(arena, base, brk, free[i], free[p]);
    }
    RemoveChain(free, mem, head, p + 1, mem', head);
  }

  lemma {:induction false} MergedHeaders(arena: Arena, base: Word, brk: Word, mem: Mem, free: seq<Word>, p: nat)
    requires Tiled(arena, base, brk) && Headers(arena, mem) && Touching(arena, free, p)
    requires !arena[free[p]].used
    requires arena[free[p]].size + HDR_SIZE + arena[free[p + 1]].size < U32
    ensures Headers(Merged(arena, free[p], free[p + 1]), MergedMem(arena, mem, free, p))
  {
    hide Tiled;
    var arena' := Merged(arena, free[p], free[p + 1]);
    var mem' := MergedMem(arena, mem, free, p);
    forall a | a in arena' && a != free[p]
      ensures HeaderAt(mem', a, arena'[a])
    {
      HeadersApart(arena, base, brk, a, free[p]);
    }
  }

  lemma {:induction false} MergedKeeps(arena: Arena, base: Word, brk: Word, mem: Mem, free: seq<Word>, p: nat)
    requires Tiled(arena, base, brk) && Lists(free, arena) && Mapped(mem, base, brk) && Touching(arena, free, p)
    requires arena[free[p]].size + HDR_SIZE + arena[free[p + 1]].size < U32
    ensures var arena', mem' := Merged(arena, free[p], free[p + 1]), MergedMem(arena, mem, free, p);
      Mapped(mem', base, brk) && LiveKept(arena, arena', mem, mem', free[p])
  {
    hide Tiled;
    forall a | Live(arena, a)
      ensures SamePayload(arena, a, mem, MergedMem(arena, mem, free, p))
    {
      MergedPayloads(arena, base, brk, mem, free, p, a);
    }
  }

  lemma {:induction false} MergeEffect(arena: Arena, base: Word, brk: Word, mem: Mem, free: seq<Word>, head: Word, p: nat)
    requires Sound(arena, base, brk, mem, free, head) && Touching(arena, free, p)
    ensures arena[free[p]].size + HDR_SIZE + arena[free[p + 1]].size < U32
    ensures var arena', mem' := Merged(arena, free[p], free[p + 1]), MergedMem(arena, mem, free, p);
      && Sound(arena', base, brk, mem', Without(free, p + 1), head)
      && LiveKept(arena, arena', mem, mem', free[p])
  {
    hide Tiled, Aligned, Headers, Chain, Lists, LiveKept, Mapped, Merged, MergedMem;
    MergedFits(arena, base, brk, free, p);
    MergedAligned(arena, free[p], free[p + 1]);
    MergedChain(arena, base, brk, mem, free, head, p);
    MergedTiles(arena, base, brk, free[p], free[p + 1]);
    MergedLists(arena, base, brk, free, p);
    Walk(arena, mem, free, head, p);
    MergedHeaders(arena, base, brk, mem, free, p);
    MergedKeeps(arena, base, brk, mem, free, p);
  }

  lemma {:induction false} MergedPayloads(arena: Arena, base: Word, brk: Word, mem: Mem, free: seq<Word>, p: nat, a: Word)
    requires Tiled(arena, base, brk) && Lists(free, arena) && Touching(arena, free, p) && Live(arena, a)
    requires arena[free[p]].size + HDR_SIZE + arena[free[p + 1]].size < U32
    ensures SamePayload(arena, a, mem, MergedMem(arena, mem, free, p))
  {
  }

  // ----- which free blocks may touch -----------------------------------------

  ghost predicate Adjacent(arena: Arena, x: Word, y: Word) {
    x in arena && y in arena && !arena[x].used && !arena[y].used && x + HDR_SIZE + arena[x].size == y
  }

  ghost predicate OnlyAt(arena: Arena, a: Word) {
    forall x, y :: Adjacent(arena, x, y) ==> x == a || y == a
  }

  ghost predicate OnlyAfter(arena: Arena, a: Word) {
    forall x, y :: Adjacent(arena, x, y) ==> x == a
  }

  ghost predicate OnlyBefore(arena: Arena, a: Word) {
    forall x, y :: Adjacent(arena, x, y) ==> y == a
  }

  lemma {:induction false} CoalescedMeans(arena: Arena)
    ensures Coalesced(arena) <==> forall x, y :: !Adjacent(arena, x, y)
  {
    if Coalesced(arena) {
      forall x, y
        ensures !Adjacent(arena, x, y)
      {
      }
    }
    if forall x, y :: !Adjacent(arena, x, y) {
      forall a, b | a in arena && b in arena && !arena[a].used && !arena[b].used
        ensures a + HDR_SIZE + arena[a].size != b
      {
        assert !Adjacent(arena, a, b);
      }
    }
  }

  lemma {:induction false} Between(arena: Arena, base: Word, brk: Word, free: seq<Word>, i: nat, j: nat)
    requires Tiled(arena, base, brk) && Lists(free, arena) && i + 1 < j < |free|
    ensures free[i] + HDR_SIZE + arena[free[i]].size <= free[i + 1] < free[j]
  {
  }

  /** Only the neighbours in the list can touch. */
  lemma {:induction false} NeighbourTouches(arena: Arena, base: Word, brk: Word, free: seq<Word>, p: nat, x: Word, y: Word)
    requires Tiled(arena, base, brk) && Lists(free, arena) && p < |free| && Adjacent(arena, x, y)
    ensures x == free[p] ==> p + 1 < |free| && free[p + 1] == y
    ensures y == free[p] ==> 0 < p && free[p - 1] == x
  {
    var i: nat :| i < |free| && free[i] == x;
    var j: nat :| j < |free| && free[j] == y;
    if i + 1 < j {
      Between(arena, base, brk, free, i, j);
    }
  }

  /** A block just freed is the only one that can touch others. */
  lemma {:induction false} FreedTouches(arena: Arena, block: Word)
    requires Coalesced(arena) && Live(arena, block)
    ensures OnlyAt(arena[block := Block(arena[block].size, false)], block)
  {
    CoalescedMeans(arena);
    var arena' := arena[block := Block(arena[block].size, false)];
    forall x, y | Adjacent(arena', x, y)
      ensures x == block || y == block
    {
      assert x == block || y == block || Adjacent(arena, x, y);
    }
  }

  lemma {:induction false} BackwardMerged(arena: Arena, base: Word, brk: Word, a: Word, b: Word)
    requires Tiled(arena, base, brk) && OnlyAt(arena, b) && Adjacent(arena, a, b)
    ensures OnlyAfter(Merged(arena, a, b), a)
  {
    var arena' := Merged(arena, a, b);
    forall x, y | Adjacent(arena', x, y)
      ensures x == a
    {
      assert x == a || Adjacent(arena, x, y);
    }
  }

  lemma {:induction false} NothingBefore(arena: Arena, base: Word, brk: Word, free: seq<Word>, p: nat)
    requires Tiled(arena, base, brk) && Lists(free, arena) && p < |free| && OnlyAt(arena, free[p])
    requires p == 0 || free[p - 1] + HDR_SIZE + arena[free[p - 1]].size != free[p]
    ensures OnlyAfter(arena, free[p])
  {
    forall x, y | Adjacent(arena, x, y)
      ensures x == free[p]
    {
      NeighbourTouches(arena, base, brk, free, p, x, y);
    }
  }

  lemma {:induction false} ForwardMerged(arena: Arena, base: Word, brk: Word, a: Word, b: Word)
    requires Tiled(arena, base, brk) && OnlyAfter(arena, a) && Adjacent(arena, a, b)
    ensures Coalesced(Merged(arena, a, b))
  {
    var arena' := Merged(arena, a, b);
    forall x, y
      ensures !Adjacent(arena', x, y)
    {
      assert Adjacent(arena', x, y) ==> x == a || Adjacent(arena, x, y);
      assert Adjacent(arena', a, y) ==> Adjacent(arena, b, y);
    }
    CoalescedMeans(arena');
  }

  lemma {:induction false} NothingAfter(arena: Arena, base: Word, brk: Word, free: seq<Word>, p: nat)
    requires Tiled(arena, base, brk) && Lists(free, arena) && p < |free| && OnlyAfter(arena, free[p])
    requires p + 1 == |free| || free[p] + HDR_SIZE + arena[free[p]].size != free[p + 1]
    ensures Coalesced(arena)
  {
    forall x, y
      ensures !Adjacent(arena, x, y)
    {
      if Adjacent(arena, x, y) {
        NeighbourTouches(arena, base, brk, free, p, x, y);
      }
    }
    CoalescedMeans(arena);
  }

  // ----- what stays over several steps ----------------------------------------

  lemma {:induction false} KeptTwice(arena: Arena, arena1: Arena, arena2: Arena, m: Mem, m1: Mem, m2: Mem, except: Word, other: Word)
    requires LiveKept(arena, arena1, m, m1, except) && LiveKept(arena1, arena2, m1, m2, other)
    requires other == except || !Live(arena1, other) || !Live(arena, other)
    ensures LiveKept(arena, arena2, m, m2, except)
  {
    forall a | Live(arena, a) && a != except
      ensures a in arena2 && arena2[a] == arena[a] && SamePayload(arena, a, m, m2)
    {
      assert Live(arena1, a);
    }
  }

  lemma {:induction false} KeptSelf(arena: Arena, mem: Mem, except: Word)
    ensures LiveKept(arena, arena, mem, mem, except)
  {
  }

  /** A block newly in use, large enough, with everything else in use as it was. */
  ghost predicate Served(arena: Arena, arena': Arena, mem: Mem, mem': Mem, a: Word, size: Word) {
    && !Live(arena, a) && Live(arena', a) && arena'[a].size >= size
    && SameLive(arena, arena', a)
    && (forall b :: Live(arena, b) ==> b in arena' && arena'[b] == arena[b] && SamePayload(arena, b, mem, mem'))
  }

  lemma {:induction false} ServedFrom(arena: Arena, arena': Arena, mem: Mem, mem': Mem, except: Word, a: Word, size: Word)
    requires LiveKept(arena, arena', mem, mem', except) && !Live(arena, except)
    requires !Live(arena, a) && Live(arena', a) && arena'[a].size >= size && SameLive(arena, arena', a)
    ensures Served(arena, arena', mem, mem', a, size)
  {
  }

  ghost predicate SameLive(arena: Arena, arena': Arena, except: Word) {
    forall a :: a != except ==> (Live(arena, a) <==> Live(arena', a))
  }

  lemma {:induction false} CanInsert(arena: Arena, base: Word, brk: Word, mem: Mem, free: seq<Word>, head: Word, block: Word)
    requires Sound(arena, base, brk, mem, free, head) && Live(arena, block) && base > 0
    ensures Insertable(arena, base, brk, mem, free, head, block)
  {
  }

  lemma {:induction false} MergedLive(arena: Arena, a: Word, b: Word)
    requires a in arena && b in arena && !arena[a].used && !arena[b].used
    ensures forall x :: Live(arena, x) <==> Live(Merged(arena, a, b), x)
  {
  }

  /** A merge after a release changes nothing about what is live. */
  lemma {:induction false} MergeStays(arena0: Arena, mem0: Mem, freed: Word, arena: Arena, base: Word, brk: Word, mem: Mem,
                                      free: seq<Word>, head: Word, p: nat)
    requires Sound(arena, base, brk, mem, free, head) && Touching(arena, free, p)
    requires LiveKept(arena0, arena, mem0, mem, freed) && SameLive(arena0, arena, freed) && !Live(arena, freed)
    ensures arena[free[p]].size + HDR_SIZE + arena[free[p + 1]].size < U32
    ensures var arena', mem' := Merged(arena, free[p], free[p + 1]), MergedMem(arena, mem, free, p);
      && Sound(arena', base, brk, mem', Without(free, p + 1), head)
      && LiveKept(arena0, arena', mem0, mem', freed) && SameLive(arena0, arena', freed) && !Live(arena', freed)
  {
    hide Tiled, Aligned, Headers, Chain, Lists, Mapped, LiveKept, Merged, MergedMem, Without;
    MergeEffect(arena, base, brk, mem, free, head, p);
    Walk(arena, mem, free, head, p);
    Walk(arena, mem, free, head, p + 1);
    MergedLive(arena, free[p], free[p + 1]);
    KeptTwice(arena0, arena, Merged(arena, free[p], free[p + 1]), mem0, mem, MergedMem(arena, mem, free, p), freed, free[p]);
  }
}
