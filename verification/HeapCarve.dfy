/** Allocation: what taking a block off the free list does to the arena. */
module HeapCarve {
  import opened HeapModel
  import opened HeapMerge

  // ----- the whole block ------------------------------------------------------

  function TakenMem(mem: Mem, free: seq<Word>, p: nat): Mem
    requires p < |free|
  {
    (if p == 0 then mem else mem[free[p - 1] + NEXT := At(free, p + 1)])
    [free[p] + NEXT := 0][free[p] + MAGIC := BLK_USED]
  }

  function Taken(arena: Arena, block: Word): Arena
    requires block in arena
  {
    arena[block := Block(arena[block].size, true)]
  }

  lemma {:induction false} TakenChain(arena: Arena, base: Word, brk: Word, mem: Mem, free: seq<Word>, head: Word, p: nat)
    requires Tiled(arena, base, brk) && Lists(free, arena) && Chain(free, mem, head) && p < |free|
    ensures Chain(Without(free, p), TakenMem(mem, free, p), if p == 0 then At(free, 1) else head)
  {
    hide Tiled;
    var mem' := TakenMem(mem, free, p);
    forall i | 0 <= i < |free| && i != p && i + 1 != p
      ensures LinkAt(free, mem', i)
    {
      assert LinkAt(free, mem, i);
      HeadersApart(arena, base, brk, free[i], free[p]);
    }
    if p > 0 {
      HeadersApart(arena, base, brk, free[p - 1], free[p]);
    }
    RemoveChain(free, mem, head, p, mem', if p == 0 then At(free, 1) else head);
  }

  lemma {:induction false} TakenHeaders(arena: Arena, base: Word, brk: Word, mem: Mem, free: seq<Word>, p: nat)
    requires Tiled(arena, base, brk) && Lists(free, arena) && Headers(arena, mem) && p < |free|
    ensures Headers(Taken(arena, free[p]), TakenMem(mem, free, p))
  {
    hide Tiled, TakenMem, HeaderAt;
    forall a | a in arena
      ensures HeaderAt(TakenMem(mem, free, p), a, Taken(arena, free[p])[a])
    {
      TakenHeaderOf(arena, base, brk, mem, free, p, a);
    }
  }

  lemma {:induction false} TakenHeaderOf(arena: Arena, base: Word, brk: Word, mem: Mem, free: seq<Word>, p: nat, a: Word)
    requires Tiled(arena, base, brk) && Lists(free, arena) && p < |free| && a in arena && HeaderAt(mem, a, arena[a])
    ensures HeaderAt(TakenMem(mem, free, p), a, Taken(arena, free[p])[a])
  {
    hide Tiled;
    if a != free[p] {
      HeadersApart(arena, base, brk, a, free[p]);
    }
    if p > 0 && a != free[p - 1] {
      HeadersApart(arena, base, brk, a, free[p - 1]);
    }
  }

  lemma {:induction false} TakenPayloads(arena: Arena, base: Word, brk: Word, mem: Mem, free: seq<Word>, p: nat, a: Word)
    requires Tiled(arena, base, brk) && Lists(free, arena) && p < |free| && Live(arena, a)
    ensures SamePayload(arena, a, mem, TakenMem(mem, free, p))
  {
  }

  lemma {:induction false} TakenKeeps(arena: Arena, base: Word, brk: Word, mem: Mem, free: seq<Word>, p: nat)
    requires Tiled(arena, base, brk) && Lists(free, arena) && Mapped(mem, base, brk) && p < |free|
    ensures Mapped(TakenMem(mem, free, p), base, brk)
    ensures LiveKept(arena, Taken(arena, free[p]), mem, TakenMem(mem, free, p), 0)
  {
    hide Tiled;
    forall a | Live(arena, a)
      ensures SamePayload(arena, a, mem, TakenMem(mem, free, p))
    {
      TakenPayloads(arena, base, brk, mem, free, p, a);
    }
  }

  lemma {:induction false} TakenCoalesces(arena: Arena, block: Word)
    requires block in arena && OnlyBefore(arena, block)
    ensures Coalesced(Taken(arena, block))
  {
    var arena' := Taken(arena, block);
    forall x, y
      ensures !Adjacent(arena', x, y)
    {
      assert Adjacent(arena', x, y) ==> Adjacent(arena, x, y);
    }
    CoalescedMeans(arena');
  }

  lemma {:induction false} TakeEffect(arena: Arena, base: Word, brk: Word, mem: Mem, free: seq<Word>, head: Word, p: nat)
    requires Sound(arena, base, brk, mem, free, head) && p < |free| && OnlyBefore(arena, free[p])
    ensures free[p] in arena
    ensures var arena', mem' := Taken(arena, free[p]), TakenMem(mem, free, p);
      && Sound(arena', base, brk, mem', Without(free, p), if p == 0 then At(free, 1) else head)
      && Coalesced(arena') && LiveKept(arena, arena', mem, mem', 0)
  {
    hide Tiled, Headers, Chain, Mapped, LiveKept, TakenMem;
    StillTiled(arena, base, brk, free[p], true);
    TakenChain(arena, base, brk, mem, free, head, p);
    TakenHeaders(arena, base, brk, mem, free, p);
    TakenKeeps(arena, base, brk, mem, free, p);
    TakenCoalesces(arena, free[p]);
    RemoveLists(free, arena, p, Taken(arena, free[p]));
  }

  // ----- split ------------------------------------------------------------------

  ghost predicate Splits(arena: Arena, base: Word, brk: Word, block: Word, need: Word) {
    && block in arena && !arena[block].used && need >= 8
    && arena[block].size >= need + MIN_SPLIT
    && Tiled(arena, base, brk)
  }

  function Rest(block: Word, need: Word): nat {
    block + HDR_SIZE + need
  }

  function Split(arena: Arena, block: Word, need: Word): Arena
    requires block in arena && arena[block].size >= need + HDR_SIZE && Rest(block, need) < U32
  {
    arena[block := Block(need, true)][Rest(block, need) := Block(arena[block].size - need - HDR_SIZE, false)]
  }

  lemma {:induction false} RestInside(arena: Arena, base: Word, brk: Word, block: Word, need: Word)
    requires Splits(arena, base, brk, block, need)
    ensures Rest(block, need) < brk < U32 && arena[block].size < U32
    ensures forall a :: a in arena && a != block ==> a + HDR_SIZE + 8 <= block || Rest(block, need) + HDR_SIZE + 8 <= a
  {
  }

  lemma {:induction false} SmallerThanBreak(arena: Arena, base: Word, brk: Word, a: Word)
    requires Tiled(arena, base, brk) && a in arena
    ensures base <= a && a + HDR_SIZE + arena[a].size <= brk
  {
  }

  /** The block after the one being split starts after the rest, and never touches
      it unless two free blocks touched before. */
  lemma {:induction false} RestApart(arena: Arena, base: Word, brk: Word, free: seq<Word>, p: nat, need: Word)
    requires p < |free| && Splits(arena, base, brk, free[p], need) && Lists(free, arena) && OnlyBefore(arena, free[p])
    ensures p > 0 ==> free[p - 1] + NEXT < free[p]
    ensures p + 1 < |free| ==> free[p] + HDR_SIZE + arena[free[p]].size < free[p + 1]
  {
    if p + 1 < |free| {
      assert !Adjacent(arena, free[p], free[p + 1]);
    }
  }

  lemma {:induction false} SplitApart(arena: Arena, base: Word, brk: Word, block: Word, need: Word)
    requires Splits(arena, base, brk, block, need) && Rest(block, need) < U32
    ensures Bounded(Split(arena, block, need), base, brk) && Apart(Split(arena, block, need))
  {
    RestInside(arena, base, brk, block, need);
    var arena' := Split(arena, block, need);
    assert Bounded(arena', base, brk);
    forall a, b | a in arena' && b in arena' && a < b
      ensures a + HDR_SIZE + arena'[a].size <= b
    {
      if b == Rest(block, need) {
        assert a == block || a + HDR_SIZE + arena[a].size <= block;
      } else if a == Rest(block, need) {
        assert block + HDR_SIZE + arena[block].size <= b;
      } else {
        assert a + HDR_SIZE + arena[a].size <= b;
      }
    }
  }

  lemma {:induction false} SplitTiles(arena: Arena, base: Word, brk: Word, block: Word, need: Word)
    requires Splits(arena, base, brk, block, need) && Rest(block, need) < U32
    ensures Tiled(Split(arena, block, need), base, brk)
  {
    var arena' := Split(arena, block, need);
    SplitApart(arena, base, brk, block, need);
    hide Bounded, Apart;
    forall x | x in arena'
      ensures End(arena', x) == brk || End(arena', x) in arena'
    {
      if x == Rest(block, need) {
        assert End(arena', x) == End(arena, block);
      } else if x != block {
        assert End(arena', x) == End(arena, x);
      }
    }
  }

  function SplitMem(arena: Arena, mem: Mem, free: seq<Word>, p: nat, need: Word): Mem
    requires p < |free| && free[p] in arena && Rest(free[p], need) < U32
    requires need + HDR_SIZE <= arena[free[p]].size < U32
  {
    var block, rest: Word := free[p], Rest(free[p], need);
    var m := mem[rest + SIZE := arena[block].size - need - HDR_SIZE][rest + 12 := 0][block + SIZE := need];
    var m' := if p == 0 then m else m[free[p - 1] + NEXT := rest];
    m'[rest + NEXT := At(free, p + 1)][rest + MAGIC := BLK_FREE][block + NEXT := 0][block + MAGIC := BLK_USED]
  }

  lemma {:induction false} SplitChain(arena: Arena, base: Word, brk: Word, mem: Mem, free: seq<Word>, head: Word, p: nat, need: Word)
    requires p < |free| && Splits(arena, base, brk, free[p], need) && Lists(free, arena) && Chain(free, mem, head)
    requires Rest(free[p], need) < U32 && arena[free[p]].size < U32
    ensures Chain(free[p := Rest(free[p], need)], SplitMem(arena, mem, free, p, need), if p == 0 then Rest(free[p], need) else head)
  {
    hide Tiled;
    RestInside(arena, base, brk, free[p], need);
    var mem' := SplitMem(arena, mem, free, p, need);
    forall i | 0 <= i < |free| && i != p && i + 1 != p
      ensures LinkAt(free, mem', i)
    {
      assert LinkAt(free, mem, i);
    }
    ReplaceChain(free, mem, head, p, Rest(free[p], need), mem', if p == 0 then Rest(free[p], need) else head);
  }

  lemma {:induction false} SplitHeaderOf(arena: Arena, base: Word, brk: Word, mem: Mem, free: seq<Word>, p: nat, need: Word, a: Word)
    requires p < |free| && Splits(arena, base, brk, free[p], need) && Lists(free, arena)
    requires Rest(free[p], need) < U32 && arena[free[p]].size < U32
    requires a in arena && a != free[p] && HeaderAt(mem, a, arena[a])
    ensures HeaderAt(SplitMem(arena, mem, free, p, need), a, arena[a])
  {
    hide Tiled;
    RestInside(arena, base, brk, free[p], need);
    if p > 0 && a != free[p - 1] {
      HeadersApart(arena, base, brk, a, free[p - 1]);
    }
  }

  lemma {:induction false} SplitOwnHeaders(arena: Arena, mem: Mem, free: seq<Word>, p: nat, need: Word)
    requires p < |free| && free[p] in arena && (p > 0 ==> free[p - 1] + HDR_SIZE <= free[p])
    requires Rest(free[p], need) < U32 && need + HDR_SIZE <= arena[free[p]].size < U32
    ensures var block, mem' := free[p], SplitMem(arena, mem, free, p, need);
      && HeaderAt(mem', block, Block(need, true))
      && HeaderAt(mem', Rest(block, need), Block(arena[block].size - need - HDR_SIZE, false))
  {
  }

  lemma {:induction false} SplitHeaders(arena: Arena, base: Word, brk: Word, mem: Mem, free: seq<Word>, p: nat, need: Word)
    requires p < |free| && Splits(arena, base, brk, free[p], need) && Lists(free, arena) && Headers(arena, mem)
    requires Rest(free[p], need) < U32 && arena[free[p]].size < U32
    ensures Headers(Split(arena, free[p], need), SplitMem(arena, mem, free, p, need))
  {
    hide Tiled, SplitMem, HeaderAt;
    var block := free[p];
    RestInside(arena, base, brk, block, need);
    var arena', mem' := Split(arena, block, need), SplitMem(arena, mem, free, p, need);
    SplitOwnHeaders(arena, mem, free, p, need);
    assert arena'[block] == Block(need, true);
    forall a | a in arena && a != block
      ensures HeaderAt(mem', a, arena[a])
    {
      SplitHeaderOf(arena, base, brk, mem, free, p, need, a);
    }
  }

  lemma {:induction false} SplitSorted(arena: Arena, free: seq<Word>, p: nat, rest: Word)
    requires p < |free| && Sorted(free) && free[p] <= rest
    requires forall i :: 0 <= i < |free| ==> free[i] in arena
    requires forall a :: a in arena && a != free[p] ==> a < free[p] || rest < a
    ensures Sorted(free[p := rest]) && forall i :: 0 <= i < |free| && i != p ==> free[i] != free[p]
  {
  }

  lemma {:induction false} SplitLists(arena: Arena, base: Word, brk: Word, free: seq<Word>, p: nat, need: Word)
    requires p < |free| && Splits(arena, base, brk, free[p], need) && Lists(free, arena) && Rest(free[p], need) < U32
    ensures Lists(free[p := Rest(free[p], need)], Split(arena, free[p], need))
  {
    hide Tiled, Sorted;
    var free', arena' := free[p := Rest(free[p], need)], Split(arena, free[p], need);
    RestInside(arena, base, brk, free[p], need);
    SplitSorted(arena, free, p, Rest(free[p], need));
    forall a | a in arena' && !arena'[a].used
      ensures a in free'
    {
      if a == Rest(free[p], need) {
        assert free'[p] == a;
      } else {
        var i :| 0 <= i < |free| && free[i] == a;
        assert free'[i] == a;
      }
    }
  }

  lemma {:induction false} SplitPayloads(arena: Arena, base: Word, brk: Word, mem: Mem, free: seq<Word>, p: nat, need: Word, a: Word)
    requires p < |free| && Splits(arena, base, brk, free[p], need) && Lists(free, arena) && Live(arena, a)
    requires Rest(free[p], need) < U32 && arena[free[p]].size < U32
    ensures SamePayload(arena, a, mem, SplitMem(arena, mem, free, p, need))
  {
    assert a + HDR_SIZE + arena[a].size <= free[p] || free[p] + HDR_SIZE + arena[free[p]].size <= a;
    assert p > 0 ==> a + HDR_SIZE + arena[a].size <= free[p - 1] || free[p - 1] + HDR_SIZE <= a;
    hide Tiled, Lists;
  }

  lemma {:induction false} SplitKeeps(arena: Arena, base: Word, brk: Word, mem: Mem, free: seq<Word>, p: nat, need: Word)
    requires p < |free| && Splits(arena, base, brk, free[p], need) && Lists(free, arena) && Mapped(mem, base, brk)
    requires Rest(free[p], need) < U32 && arena[free[p]].size < U32
    ensures var arena', mem' := Split(arena, free[p], need), SplitMem(arena, mem, free, p, need);
      Mapped(mem', base, brk) && LiveKept(arena, arena', mem, mem', 0)
  {
    RestInside(arena, base, brk, free[p], need);
    hide Tiled;
    forall a | Live(arena, a)
      ensures SamePayload(arena, a, mem, SplitMem(arena, mem, free, p, need))
    {
      SplitPayloads(arena, base, brk, mem, free, p, need, a);
    }
  }

  lemma {:induction false} SplitCoalesces(arena: Arena, base: Word, brk: Word, block: Word, need: Word)
    requires Splits(arena, base, brk, block, need) && Rest(block, need) < U32 && OnlyBefore(arena, block)
    ensures Coalesced(Split(arena, block, need))
  {
    var arena' := Split(arena, block, need);
    RestInside(arena, base, brk, block, need);
    forall x, y
      ensures !Adjacent(arena', x, y)
    {
      assert Adjacent(arena', x, y) ==> x == Rest(block, need) || y == Rest(block, need) || Adjacent(arena, x, y);
      assert Adjacent(arena', x, y) && x == Rest(block, need) ==> Adjacent(arena, block, y);
    }
    CoalescedMeans(arena');
  }

  lemma {:induction false} SplitAligned(arena: Arena, block: Word, need: Word)
    requires Aligned(arena) && block in arena && arena[block].size >= need + HDR_SIZE && Rest(block, need) < U32
    requires need % 8 == 0
    ensures Aligned(Split(arena, block, need))
  {
  }

  lemma {:induction false} SplitLive(arena: Arena, base: Word, brk: Word, block: Word, need: Word)
    requires Splits(arena, base, brk, block, need)
    ensures Rest(block, need) < U32
    ensures SameLive(arena, Split(arena, block, need), block)
  {
    RestInside(arena, base, brk, block, need);
  }

  lemma {:induction false} SplitEffect(arena: Arena, base: Word, brk: Word, mem: Mem, free: seq<Word>, head: Word, p: nat, need: Word)
    requires Sound(arena, base, brk, mem, free, head) && p < |free| && OnlyBefore(arena, free[p])
    requires Splits(arena, base, brk, free[p], need) && need % 8 == 0
    ensures Rest(free[p], need) < U32 && arena[free[p]].size < U32
    ensures var arena', mem' := Split(arena, free[p], need), SplitMem(arena, mem, free, p, need);
      && Sound(arena', base, brk, mem', free[p := Rest(free[p], need)], if p == 0 then Rest(free[p], need) else head)
      && Coalesced(arena') && LiveKept(arena, arena', mem, mem', 0) && SameLive(arena, arena', free[p])
  {
    SplitLive(arena, base, brk, free[p], need);
    RestInside(arena, base, brk, free[p], need);
    hide Tiled, Aligned, Headers, Chain, Lists, Mapped, LiveKept, SplitMem, Split;
    SplitAligned(arena, free[p], need);
    SplitTiles(arena, base, brk, free[p], need);
    SplitChain(arena, base, brk, mem, free, head, p, need);
    SplitHeaders(arena, base, brk, mem, free, p, need);
    SplitLists(arena, base, brk, free, p, need);
    SplitKeeps(arena, base, brk, mem, free, p, need);
    SplitCoalesces(arena, base, brk, free[p], need);
  }

  // ----- growth -------------------------------------------------------------------

  /** The arena with a new block over the memory the break has just moved past. */
  function Grown(arena: Arena, added: Word, size: nat, used: bool): Arena {
    arena[added := Block(size, used)]
  }

  /** The arena after a block was handed out: only the request when the rest makes a block of
      its own, which is free then, and else the whole block. */
  ghost predicate Carved(before: Arena, after: Arena, a: Word, need: Word) {
    && a in before
    && var size := before[a].size;
       if size >= need + HDR_SIZE + 8
       then a + HDR_SIZE + need < U32
            && after == before[a := Block(need, true)][a + HDR_SIZE + need := Block(size - need - HDR_SIZE, false)]
       else after == before[a := Block(size, true)]
  }

  /** The block handed out is never larger than the request by a block of its own, and what is
      left over is a free block right behind it. */
  lemma {:induction false} CarvedTight(before: Arena, after: Arena, a: Word, need: Word)
    requires Carved(before, after, a, need) && before[a].size >= need
    ensures Live(after, a) && need <= after[a].size < need + MIN_SPLIT
    ensures before[a].size >= need + MIN_SPLIT ==>
              && after[a].size == need && a + HDR_SIZE + need in after
              && after[a + HDR_SIZE + need] == Block(before[a].size - need - HDR_SIZE, false)
    ensures before[a].size < need + MIN_SPLIT ==> after[a].size == before[a].size
    ensures forall b :: b in before && b != a && b != a + HDR_SIZE + need ==> b in after && after[b] == before[b]
  {
  }

  /** What linking the rest of a block leaves, in terms of the memory found. */
  function SplitLinked(mem: Mem, prev: Word, block: Word, need: Word): Mem
    requires block + SIZE in mem && block + NEXT in mem
    requires need + MIN_SPLIT <= mem[block + SIZE] && block + HDR_SIZE + mem[block + SIZE] < U32
  {
    var rest: Word := block + HDR_SIZE + need;
    var m := mem[rest + SIZE := mem[block + SIZE] - need - HDR_SIZE][rest + 12 := 0][block + SIZE := need];
    var m' := if prev == 0 then m else m[prev + NEXT := rest];
    m'[rest + NEXT := mem[block + NEXT]][rest + MAGIC := BLK_FREE]
  }

  lemma {:induction false} SplitLinks(mem: Mem, prev: Word, block: Word, need: Word)
    requires block + SIZE in mem && block + NEXT in mem && (prev == 0 || prev + NEXT < block)
    requires need + MIN_SPLIT <= mem[block + SIZE] && block + HDR_SIZE + mem[block + SIZE] < U32
    ensures var rest, m := block + HDR_SIZE + need, SplitLinked(mem, prev, block, need);
      && rest + SIZE in m && m[rest + SIZE] == mem[block + SIZE] - need - HDR_SIZE
      && rest + NEXT in m && m[rest + NEXT] == mem[block + NEXT]
  {
  }

  /** And the stores that mark the block as used. */
  function SplitStored(mem: Mem, prev: Word, block: Word, need: Word): Mem
    requires block + SIZE in mem && block + NEXT in mem
    requires need + MIN_SPLIT <= mem[block + SIZE] && block + HDR_SIZE + mem[block + SIZE] < U32
  {
    SplitLinked(mem, prev, block, need)[block + NEXT := 0][block + MAGIC := BLK_USED]
  }

  lemma {:induction false} StoredIsSplit(arena: Arena, mem: Mem, free: seq<Word>, p: nat, prev: Word, need: Word)
    requires p < |free| && free[p] in arena && prev == (if p == 0 then 0 else free[p - 1]) && (p > 0 ==> prev > 0)
    requires free[p] + SIZE in mem && mem[free[p] + SIZE] == arena[free[p]].size
    requires free[p] + NEXT in mem && mem[free[p] + NEXT] == At(free, p + 1)
    requires need + MIN_SPLIT <= arena[free[p]].size && free[p] + HDR_SIZE + arena[free[p]].size < U32
    ensures SplitStored(mem, prev, free[p], need) == SplitMem(arena, mem, free, p, need)
  {
  }

  lemma {:induction false} SplitIsCarved(arena: Arena, block: Word, need: Word)
    requires block in arena && arena[block].size >= need + MIN_SPLIT && Rest(block, need) < U32
    ensures Carved(arena, Split(arena, block, need), block, need)
    ensures var after := Split(arena, block, need); Live(after, block) && after[block].size == need
  {
  }

  lemma {:induction false} GrownTiles(arena: Arena, base: Word, brk: Word, size: nat, used: bool)
    requires Tiled(arena, base, brk) && size >= 8
    ensures Tiled(Grown(arena, brk, size, used), base, brk + HDR_SIZE + size)
    ensures brk !in arena
  {
    var arena' := Grown(arena, brk, size, used);
    forall x | x in arena'
      ensures End(arena', x) == brk + HDR_SIZE + size || End(arena', x) in arena'
    {
      if x != brk {
        assert End(arena', x) == End(arena, x);
      }
    }
  }

  ghost predicate Extends(mem: Mem, mem': Mem, brk: Word, brk': Word, size: nat) {
    && (forall a :: a in mem && a < brk ==> a in mem' && mem'[a] == mem[a])
    && (forall a :: brk <= a < brk' && a % 4 == 0 ==> a in mem')
    && brk + SIZE in mem' && mem'[brk + SIZE] == size
  }

  /** Every word between the breaks is there and zero. */
  ghost predicate ZeroBetween(mem: Mem, brk: nat, brk': nat) {
    forall a :: brk <= a < brk' && a % 4 == 0 ==> a in mem && mem[a] == 0
  }

  ghost predicate SameBelow(mem: Mem, mem': Mem, brk: nat) {
    forall a :: a in mem && a < brk ==> a in mem' && mem'[a] == mem[a]
  }

  /** A break that moved up over zeroed words, and the size stored at the old one. */
  lemma {:induction false} BreakExtends(mem: Mem, mem1: Mem, brk: Word, brk': Word, size: Word)
    requires brk % 8 == 0 && brk + HDR_SIZE + size == brk'
    requires ZeroBetween(mem1, brk, brk') && SameBelow(mem, mem1, brk)
    ensures Extends(mem, mem1[brk + SIZE := size], brk, brk', size)
  {
  }

  lemma {:induction false} ExtendedHeaders(arena: Arena, base: Word, brk: Word, mem: Mem, mem': Mem, brk': Word, size: nat)
    requires Tiled(arena, base, brk) && Headers(arena, mem) && Extends(mem, mem', brk, brk', size)
    ensures Headers(arena, mem')
    ensures forall a :: a in arena ==> SamePayload(arena, a, mem, mem')
  {
    forall a | a in arena
      ensures HeaderAt(mem', a, arena[a])
    {
    }
  }

  lemma {:induction false} ExtendedChain(arena: Arena, base: Word, brk: Word, mem: Mem, mem': Mem, brk': Word, size: nat, free: seq<Word>, head: Word)
    requires Tiled(arena, base, brk) && Lists(free, arena) && Chain(free, mem, head) && Extends(mem, mem', brk, brk', size)
    ensures Chain(free, mem', head)
  {
    forall i | 0 <= i < |free|
      ensures LinkAt(free, mem', i)
    {
      assert LinkAt(free, mem, i);
    }
  }

  lemma {:induction false} GrownLists(arena: Arena, brk: Word, size: nat, free: seq<Word>, base: Word, mem: Mem, mem': Mem, brk': Word)
    requires Lists(free, arena) && brk !in arena && Aligned(arena) && brk % 8 == 0 && size % 8 == 0
    requires Mapped(mem, base, brk) && Extends(mem, mem', brk, brk', size)
    ensures Lists(free, Grown(arena, brk, size, true)) && Aligned(Grown(arena, brk, size, true))
    ensures Mapped(mem', base, brk')
  {
  }

  lemma {:induction false} GrowEffect(arena: Arena, base: Word, brk: Word, mem: Mem, mem': Mem, size: nat, free: seq<Word>, head: Word)
    requires Sound(arena, base, brk, mem, free, head) && 0 < brk && size >= 8 && size % 8 == 0 && brk % 8 == 0
    requires brk + HDR_SIZE + size < U32 && Extends(mem, mem', brk, brk + HDR_SIZE + size, size)
    ensures Insertable(Grown(arena, brk, size, true), base, brk + HDR_SIZE + size, mem', free, head, brk)
    ensures LiveKept(arena, Grown(arena, brk, size, true), mem, mem', brk)
    ensures brk !in arena && brk in Grown(arena, brk, size, true) && Grown(arena, brk, size, true)[brk].size == size
    ensures Grown(arena, brk, size, true)[brk := Block(size, false)] == Grown(arena, brk, size, false)
    ensures Coalesced(arena) ==> OnlyBefore(Grown(arena, brk, size, false), brk)
  {
    hide Tiled, Headers, Chain, Lists, Aligned, Mapped, Coalesced, OnlyBefore;
    if Coalesced(arena) {
      GrownTouches(arena, base, brk, size);
    }
    GrownTiles(arena, base, brk, size, true);
    ExtendedHeaders(arena, base, brk, mem, mem', brk + HDR_SIZE + size, size);
    ExtendedChain(arena, base, brk, mem, mem', brk + HDR_SIZE + size, size, free, head);
    GrownLists(arena, brk, size, free, base, mem, mem', brk + HDR_SIZE + size);
    assert Grown(arena, brk, size, true) - {brk} == arena;
  }

  lemma {:induction false} GrownTouches(arena: Arena, base: Word, brk: Word, size: nat)
    requires Tiled(arena, base, brk) && Coalesced(arena) && size >= 8
    ensures OnlyBefore(Grown(arena, brk, size, false), brk)
  {
    CoalescedMeans(arena);
    var arena' := Grown(arena, brk, size, false);
    forall x, y | Adjacent(arena', x, y)
      ensures y == brk
    {
      assert y == brk || x == brk || Adjacent(arena, x, y);
    }
  }

  lemma {:induction false} CoalescedOnlyBefore(arena: Arena, a: Word)
    requires Coalesced(arena)
    ensures OnlyBefore(arena, a)
  {
    CoalescedMeans(arena);
  }

  /** The search result, said of the arena instead of the list. */
  lemma {:induction false} FitsAreListed(arena: Arena, free: seq<Word>, need: Word, p: nat)
    requires Lists(free, arena) && p <= |free|
    requires forall i :: 0 <= i < p ==> free[i] in arena && arena[free[i]].size < need
    ensures forall a :: a in arena && !arena[a].used && arena[a].size >= need ==> p < |free| && free[p] <= a
  {
    forall a | a in arena && !arena[a].used && arena[a].size >= need
      ensures p < |free| && free[p] <= a
    {
      var i :| 0 <= i < |free| && free[i] == a;
    }
  }

  lemma {:induction false} StartsAligned(arena: Arena, base: Word, brk: Word, a: Word)
    requires Tiled(arena, base, brk) && Aligned(arena) && a in arena
    ensures a % 8 == 0 && base <= a && a + HDR_SIZE + arena[a].size <= brk
  {
  }

  lemma {:induction false} NullIsNoBlock(arena: Arena, base: Word, brk: Word)
    requires Tiled(arena, base, brk) && base > 0
    ensures 0 !in arena
  {
  }

  // ----- stores into a payload ------------------------------------------------------

  ghost predicate PayloadOnly(arena: Arena, a: Word, mem: Mem, mem': Mem)
    requires a in arena
  {
    forall x :: x in mem ==> x in mem' && (a + HDR_SIZE <= x < a + HDR_SIZE + arena[a].size || mem'[x] == mem[x])
  }

  lemma {:induction false} PayloadHeaders(arena: Arena, base: Word, brk: Word, mem: Mem, mem': Mem, a: Word)
    requires Tiled(arena, base, brk) && Headers(arena, mem) && a in arena && PayloadOnly(arena, a, mem, mem')
    ensures Headers(arena, mem')
    ensures LiveKept(arena, arena, mem, mem', a)
  {
    forall b | b in arena
      ensures HeaderAt(mem', b, arena[b])
    {
    }
  }

  lemma {:induction false} PayloadChain(arena: Arena, base: Word, brk: Word, mem: Mem, mem': Mem, free: seq<Word>, head: Word, a: Word)
    requires Tiled(arena, base, brk) && Lists(free, arena) && Chain(free, mem, head)
    requires a in arena && PayloadOnly(arena, a, mem, mem')
    ensures Chain(free, mem', head)
  {
    forall i | 0 <= i < |free|
      ensures LinkAt(free, mem', i)
    {
      assert LinkAt(free, mem, i);
    }
  }

  /** Writing a payload keeps the heap's own structure and every other payload. */
  lemma {:induction false} PayloadStore(arena: Arena, base: Word, brk: Word, mem: Mem, mem': Mem, free: seq<Word>, head: Word, a: Word)
    requires Sound(arena, base, brk, mem, free, head) && a in arena && PayloadOnly(arena, a, mem, mem')
    ensures Sound(arena, base, brk, mem', free, head)
    ensures LiveKept(arena, arena, mem, mem', a)
  {
    hide Tiled, Headers, Chain, Lists, Aligned;
    PayloadHeaders(arena, base, brk, mem, mem', a);
    PayloadChain(arena, base, brk, mem, mem', free, head, a);
  }

  /** `n` bytes from `from` in the old memory are at `to` in the new one. */
  ghost predicate Copied(mem: Mem, from: Word, mem': Mem, to: Word, n: nat) {
    forall k: nat :: 4 * k < n ==> from + 4 * k in mem && to + 4 * k in mem' && WordAt(mem', to, k) == WordAt(mem, from, k)
  }

  lemma {:induction false} BlocksApart(arena: Arena, base: Word, brk: Word, a: Word, b: Word)
    requires Tiled(arena, base, brk) && a in arena && b in arena && a != b
    ensures a + HDR_SIZE + arena[a].size <= b || b + HDR_SIZE + arena[b].size <= a
  {
  }

  lemma {:induction false} SizeAligned(arena: Arena, a: Word)
    requires Aligned(arena) && a in arena
    ensures arena[a].size % 8 == 0
  {
  }

  lemma {:induction false} ServedThenStored(arena: Arena, arena': Arena, mem: Mem, mem1: Mem, mem2: Mem, a: Word, size: Word)
    requires Served(arena, arena', mem, mem1, a, size) && LiveKept(arena', arena', mem1, mem2, a)
    ensures Served(arena, arena', mem, mem2, a, size)
  {
    forall b | Live(arena, b)
      ensures SamePayload(arena, b, mem, mem2)
    {
      assert Live(arena', b);
    }
  }

  lemma {:induction false} ServedKeeps(arena: Arena, arena': Arena, mem: Mem, mem': Mem, a: Word, size: Word, b: Word)
    requires Served(arena, arena', mem, mem', a, size) && Live(arena, b)
    ensures LiveKept(arena, arena', mem, mem', b) && SamePayload(arena, b, mem, mem')
    ensures Live(arena', b) && arena'[b] == arena[b] && a != b
    ensures Live(arena', a) && arena'[a].size >= size && !Live(arena, a) && SameLive(arena, arena', a)
  {
  }

  /** The source of a copy had not changed since `mem`. */
  lemma {:induction false} CopiedFrom(arena: Arena, block: Word, mem: Mem, mem1: Mem, mem2: Mem, to: Word, n: nat)
    requires Live(arena, block) && n == arena[block].size && SamePayload(arena, block, mem, mem1)
    requires PayloadThere(arena, block, mem)
    requires block + HDR_SIZE < U32 && Copied(mem1, block + HDR_SIZE, mem2, to, n)
    ensures Copied(mem, block + HDR_SIZE, mem2, to, n)
  {
    forall k: nat | 4 * k < n
      ensures WordAt(mem1, block + HDR_SIZE, k) == WordAt(mem, block + HDR_SIZE, k)
    {
      assert block + HDR_SIZE + 4 * k in mem;
    }
  }

  /** Freeing another block leaves the copy. */
  lemma {:induction false} CopySurvives(arena: Arena, arena': Arena, a: Word, mem: Mem, from: Word, mem2: Mem, mem3: Mem, n: nat, except: Word)
    requires LiveKept(arena, arena', mem2, mem3, except) && Live(arena, a) && a != except
    requires a + HDR_SIZE < U32 && Copied(mem, from, mem2, a + HDR_SIZE, n) && n <= arena[a].size
    ensures Copied(mem, from, mem3, a + HDR_SIZE, n) && a in arena' && arena'[a] == arena[a]
  {
    assert SamePayload(arena, a, mem2, mem3);
  }
}
