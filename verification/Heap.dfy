/** First fit, split and coalesce over a growing break. */
module Heap {
  import opened HeapModel
  import opened HeapMerge
  import opened HeapCarve

  class Heap {
    var mem: Mem
    var freeList: Word
    var brk: Word
    const base: Word               // the break when the program started
    const low: Word                // the kernel's window for the break
    const limit: Word
    ghost var arena: Arena
    ghost var free: seq<Word>

    ghost predicate Window()
      reads this
    {
      0 < low <= base <= brk <= limit < 0x8000_0000 && brk % 8 == 0
    }

    /** What holds between calls. */
    ghost predicate Valid()
      reads this
    {
      && Window()
      && Sound(arena, base, brk, mem, free, freeList)
      && Coalesced(arena)
    }

    constructor (start: Word, low: Word, limit: Word)
      requires start % 8 == 0 && 0 < low <= start <= limit < 0x8000_0000
      ensures Valid() && base == brk == start && arena == map[]
      ensures this.low == low && this.limit == limit
    {
      base, this.low, this.limit := start, low, limit;
      mem, freeList, brk := map[], 0, start;
      arena, free := map[], [];
    }

    /** SYS_SBRK: the sum wraps at 32 bits and must land in the window; memory the
        break moves over is zeroed. Returns the old break, or -1. */
    method Sbrk(increment: Word) returns (old_: int)
      requires Window()
      modifies this`mem, this`brk
      ensures old_ == -1 <==> !(low <= Target(old(brk), increment) <= limit)
      ensures old_ == -1 ==> mem == old(mem) && brk == old(brk)
      ensures old_ != -1 ==> old_ == old(brk) && brk == Target(old(brk), increment)
      ensures old_ != -1 ==> ZeroBetween(mem, old(brk), brk)
      ensures SameBelow(old(mem), mem, old(brk))
    {
      var target := (brk + increment) % U32;
      if target < low || target > limit {
        return -1;
      }
      old_ := brk;
      if target > brk {
        mem := mem + map a: nat | brk <= a < target && a % 4 == 0 :: 0;
      }
      brk := target;
    }

    /** Put a block into the sorted list and mark it free. */
    method ListInsert(block: Word)
      requires Insertable(arena, base, brk, mem, free, freeList, block)
      modifies this`mem, this`freeList, this`arena, this`free
      ensures arena == old(arena)[block := Block(old(arena)[block].size, false)]
      ensures Sound(arena, base, brk, mem, free, freeList)
      ensures LiveKept(old(arena), arena, old(mem), mem, block)
    {
      hide Tiled, Aligned, Headers, Chain, Lists, Mapped, LiveKept;
      ghost var arena0, free0, mem0 := arena, free, mem;
      HeadOf(free0, mem0, freeList);
      mem := mem[block + MAGIC := BLK_FREE];
      ghost var p := 0;
      var prev: Word := 0;              // the block whose next field `at` is, NULL for the head
      var at := freeList;
      while at != 0 && at < block
        invariant 0 <= p <= |free0| && at == At(free0, p)
        invariant prev == if p == 0 then 0 else free0[p - 1]
        invariant p > 0 ==> prev > 0
        invariant forall i :: 0 <= i < p ==> free0[i] < block
        modifies {}
        decreases |free0| - p
      {
        Walk(arena0, mem0, free0, old(freeList), p);
        HeadersApart(arena0, base, brk, at, block);
        prev := at;
        at := mem[at + NEXT];
        p := p + 1;
      }
      if p < |free0| {
        Walk(arena0, mem0, free0, old(freeList), p);
      }
      mem := mem[block + NEXT := at];
      if prev == 0 {
        freeList := block;
      } else {
        mem := mem[prev + NEXT := block];
      }
      InsertEffect(arena0, base, brk, mem0, free0, old(freeList), p, block);
      free := With(free, p, block);
      arena := arena[block := Block(arena[block].size, false)];
    }

    /** Swallows the next block of the list if it starts where this one ends. */
    method MergeForward(block: Word)
      requires block + SIZE in mem && block + NEXT in mem
      requires var next := mem[block + NEXT];
               next != 0 && block + HDR_SIZE + mem[block + SIZE] == next ==>
                 next + SIZE in mem && next + NEXT in mem && mem[block + SIZE] + HDR_SIZE + mem[next + SIZE] < U32
      modifies this`mem
      ensures var next := old(mem)[block + NEXT];
              if next != 0 && block + HDR_SIZE + old(mem)[block + SIZE] == next
              then mem == old(mem)[block + SIZE := old(mem)[block + SIZE] + HDR_SIZE + old(mem)[next + SIZE]]
                                  [block + NEXT := old(mem)[next + NEXT]]
              else mem == old(mem)
    {
      var next := mem[block + NEXT];
      if next != 0 && block + HDR_SIZE + mem[block + SIZE] == next {
        mem := mem[block + SIZE := mem[block + SIZE] + HDR_SIZE + mem[next + SIZE]];
        mem := mem[block + NEXT := mem[next + NEXT]];
      }
    }

    /** An address `free` and `realloc` may be given: NULL, the payload of a block in
        use, or an address whose header does not read as one in use. */
    ghost predicate Freeable(ptr: Word)
      reads this
    {
      ptr == 0 || (ptr >= HDR_SIZE && ptr - HDR_SIZE + MAGIC in mem &&
                   (mem[ptr - HDR_SIZE + MAGIC] == BLK_USED ==> Live(arena, ptr - HDR_SIZE)))
    }

    /** The block before a free block in the list, NULL when it is the first. */
    method FindPrev(block: Word) returns (prev: Word, ghost p: nat)
      requires Lists(free, arena) && Chain(free, mem, freeList)
      requires block in arena && !arena[block].used
      ensures p < |free| && free[p] == block
      ensures prev == if p == 0 then 0 else free[p - 1]
    {
      hide Chain, Lists;
      ghost var q := ListedAt(free, arena, block);
      HeadOf(free, mem, freeList);
      var walk := freeList;
      prev, p := 0, 0;
      while walk != 0 && walk != block
        invariant 0 <= p <= q && walk == At(free, p)
        invariant prev == if p == 0 then 0 else free[p - 1]
        decreases |free| - p
      {
        Walk(arena, mem, free, freeList, p);
        prev := walk;
        walk := mem[walk + NEXT];
        p := p + 1;
      }
      Walk(arena, mem, free, freeList, p);
    }

    /** The backward merge of `free`: afterwards only a block behind can touch. */
    method FreeBehind(ghost freed: Word, ghost arena0: Arena, ghost mem0: Mem, block: Word) returns (merged: Word, ghost p: nat)
      requires Window() && Sound(arena, base, brk, mem, free, freeList)
      requires block in arena && !arena[block].used && OnlyAt(arena, block)
      requires LiveKept(arena0, arena, mem0, mem, freed) && SameLive(arena0, arena, freed) && !Live(arena, freed)
      modifies this`mem, this`arena, this`free
      ensures Sound(arena, base, brk, mem, free, freeList)
      ensures p < |free| && free[p] == merged && OnlyAfter(arena, merged)
      ensures LiveKept(arena0, arena, mem0, mem, freed) && SameLive(arena0, arena, freed) && !Live(arena, freed)
    {
      hide Tiled, Aligned, Headers, Chain, Lists, Mapped, OnlyAt, OnlyAfter, LiveKept, SameLive, Merged;
      var prev;
      prev, p := FindPrev(block);
      merged := block;
      SizeReads(arena, mem, block);
      Walk(arena, mem, free, freeList, p);
      if p > 0 {
        Walk(arena, mem, free, freeList, p - 1);
        SizeReads(arena, mem, prev);
      }
      if prev != 0 && prev + HDR_SIZE + mem[prev + SIZE] == block {
        MergeStays(arena0, mem0, freed, arena, base, brk, mem, free, freeList, p - 1);
        BackwardMerged(arena, base, brk, prev, block);
        mem := mem[prev + SIZE := mem[prev + SIZE] + HDR_SIZE + mem[block + SIZE]];
        mem := mem[prev + NEXT := mem[block + NEXT]];
        arena, free, p := Merged(arena, prev, block), Without(free, p), p - 1;
        merged := prev;
      } else {
        NothingBefore(arena, base, brk, free, p);
      }
    }

    /** Exactly the given block stops being in use; every other block in use keeps
        its place, its size and its contents. */
    method Free(ptr: Word)
      requires Valid() && Freeable(ptr)
      modifies this`mem, this`freeList, this`arena, this`free
      ensures Valid()
      ensures ptr == 0 || !Live(old(arena), ptr - HDR_SIZE) ==>
                mem == old(mem) && arena == old(arena) && freeList == old(freeList)
      ensures ptr != 0 && Live(old(arena), ptr - HDR_SIZE) ==>
                && LiveKept(old(arena), arena, old(mem), mem, ptr - HDR_SIZE)
                && SameLive(old(arena), arena, ptr - HDR_SIZE) && !Live(arena, ptr - HDR_SIZE)
    {
      hide Tiled, Aligned, Headers, Chain, Lists, Mapped, Coalesced, OnlyAt, OnlyAfter, LiveKept;
      if ptr == 0 {
        return;
      }
      var block: Word := ptr - HDR_SIZE;
      UsedMagic(arena, mem, block);
      if mem[block + MAGIC] != BLK_USED {
        return;
      }
      FreedTouches(arena, block);
      CanInsert(arena, base, brk, mem, free, freeList, block);
      ListInsert(block);
      var merged;
      ghost var p;
      merged, p := FreeBehind(block, old(arena), old(mem), block);
      FreeAhead(block, old(arena), old(mem), merged, p);
    }

    /** The forward merge that ends `free`. */
    method FreeAhead(ghost freed: Word, ghost arena0: Arena, ghost mem0: Mem, block: Word, ghost p: nat)
      requires Window() && Sound(arena, base, brk, mem, free, freeList)
      requires p < |free| && free[p] == block && OnlyAfter(arena, block)
      requires LiveKept(arena0, arena, mem0, mem, freed) && SameLive(arena0, arena, freed) && !Live(arena, freed)
      modifies this`mem, this`arena, this`free
      ensures Valid() && LiveKept(arena0, arena, mem0, mem, freed) && SameLive(arena0, arena, freed) && !Live(arena, freed)
    {
      hide Tiled, Aligned, Headers, Chain, Lists, Mapped, Coalesced, OnlyAfter, LiveKept, SameLive, Merged;
      Walk(arena, mem, free, freeList, p);
      SizeReads(arena, mem, block);
      if p + 1 < |free| {
        Walk(arena, mem, free, freeList, p + 1);
        SizeReads(arena, mem, free[p + 1]);
        if End(arena, block) == free[p + 1] {
          MergeStays(arena0, mem0, freed, arena, base, brk, mem, free, freeList, p);
          ForwardMerged(arena, base, brk, block, free[p + 1]);
        } else {
          NothingAfter(arena, base, brk, free, p);
        }
      } else {
        NothingAfter(arena, base, brk, free, p);
      }
      MergeForward(block);
      if p + 1 < |free| && End(arena, block) == free[p + 1] {
        arena, free := Merged(arena, block, free[p + 1]), Without(free, p + 1);
      }
    }

    /** Neither a free block nor the rest of the window can serve the size. */
    ghost predicate Exhausted(arena: Arena, brk: Word, size: Word) {
      (forall a: Word :: !Fits(arena, a, Need(size))) && brk + Grow(Need(size)) > limit
    }

    /** Requests whose size, header and distance to the window's start fit 32 bits. */
    ghost predicate Servable(size: Word)
      reads this
    {
      size <= U32 - 8 && Need(size) + HDR_SIZE + (brk - low) < U32
    }

    ghost predicate Fits(arena: Arena, a: Word, need: Word) {
      a in arena && !arena[a].used && arena[a].size >= need
    }

    /** The first block of the list that is large enough, and the one before it. */
    method FirstFit(need: Word) returns (prev: Word, block: Word, ghost p: nat)
      requires Sound(arena, base, brk, mem, free, freeList)
      ensures p <= |free| && block == At(free, p)
      ensures prev == if p == 0 then 0 else free[p - 1]
      ensures forall i :: 0 <= i < p ==> free[i] in arena && arena[free[i]].size < need
      ensures block != 0 <==> p < |free|
      ensures block != 0 ==> block in arena && !arena[block].used && arena[block].size >= need
    {
      hide Tiled, Aligned, Headers, Chain, Lists, Mapped;
      HeadOf(free, mem, freeList);
      prev, block, p := 0, freeList, 0;
      while block != 0
        invariant 0 <= p <= |free| && block == At(free, p)
        invariant prev == if p == 0 then 0 else free[p - 1]
        invariant forall i :: 0 <= i < p ==> free[i] in arena && arena[free[i]].size < need
        decreases |free| - p
      {
        Walk(arena, mem, free, freeList, p);
        SizeReads(arena, mem, block);
        if mem[block + SIZE] >= need {
          break;
        }
        prev := block;
        block := mem[block + NEXT];
        p := p + 1;
      }
      if p < |free| {
        Walk(arena, mem, free, freeList, p);
      }
    }

    ghost predicate Found(prev: Word, block: Word, need: Word, p: nat)
      reads this
    {
      && Window() && Sound(arena, base, brk, mem, free, freeList)
      && p < |free| && block == free[p] && prev == (if p == 0 then 0 else free[p - 1])
      && block in arena && !arena[block].used && arena[block].size >= need && need >= 8 && need % 8 == 0
      && OnlyBefore(arena, block)
    }

    /** The stores that link the rest of a block into the list in the block's place. */
    method LinkRest(prev: Word, block: Word, need: Word)
      requires block + SIZE in mem && block + NEXT in mem && (prev == 0 || prev + NEXT < block)
      requires need + MIN_SPLIT <= mem[block + SIZE] && block + HDR_SIZE + mem[block + SIZE] < U32
      modifies this`mem, this`freeList
      ensures mem == SplitLinked(old(mem), prev, block, need)
      ensures freeList == if prev == 0 then block + HDR_SIZE + need else old(freeList)
    {
      var rest: Word := block + HDR_SIZE + need;
      mem := mem[rest + SIZE := mem[block + SIZE] - need - HDR_SIZE];
      mem := mem[rest + 12 := 0];
      mem := mem[block + SIZE := need];
      if prev == 0 {
        freeList := rest;
      } else {
        mem := mem[prev + NEXT := rest];
      }
      mem := mem[rest + NEXT := mem[block + NEXT]];
      mem := mem[rest + MAGIC := BLK_FREE];
    }

    /** The stores of a split, in the order of the code. */
    method StoreSplit(prev: Word, block: Word, need: Word)
      requires block + SIZE in mem && block + NEXT in mem
      requires prev == 0 || (prev + NEXT < block && prev + NEXT in mem)
      requires need + MIN_SPLIT <= mem[block + SIZE] && block + HDR_SIZE + mem[block + SIZE] < U32
      requires mem[block + NEXT] == 0 || block + HDR_SIZE + mem[block + SIZE] < mem[block + NEXT]
      modifies this`mem, this`freeList
      ensures mem == SplitStored(old(mem), prev, block, need)
      ensures freeList == if prev == 0 then block + HDR_SIZE + need else old(freeList)
    {
      hide SplitLinked;
      SplitLinks(mem, prev, block, need);
      LinkRest(prev, block, need);
      MergeForward(block + HDR_SIZE + need);
      mem := mem[block + NEXT := 0];
      mem := mem[block + MAGIC := BLK_USED];
    }

    /** Use the front of the block and give the tail back to the list. */
    method CarveFront(prev: Word, block: Word, need: Word, ghost p: nat)
      requires Found(prev, block, need, p) && arena[block].size >= need + MIN_SPLIT
      modifies this`mem, this`freeList, this`arena, this`free
      ensures Valid() && Live(arena, block) && arena[block].size == need
      ensures Carved(old(arena), arena, block, need)
      ensures LiveKept(old(arena), arena, old(mem), mem, 0) && SameLive(old(arena), arena, block)
    {
      hide Tiled, Aligned, Headers, Chain, Lists, Mapped, Coalesced, OnlyBefore, LiveKept,
        Carved, Split, SameLive, SplitMem, SplitStored;
      Walk(arena, mem, free, freeList, p);
      SizeReads(arena, mem, block);
      SmallerThanBreak(arena, base, brk, block);
      if p > 0 {
        Walk(arena, mem, free, freeList, p - 1);
      }
      SplitEffect(arena, base, brk, mem, free, freeList, p, need);
      RestApart(arena, base, brk, free, p, need);
      StoredIsSplit(arena, mem, free, p, prev, need);
      StoreSplit(prev, block, need);
      SplitIsCarved(arena, block, need);
      arena, free := Split(arena, block, need), free[p := Rest(block, need)];
    }

    method CarveWhole(prev: Word, block: Word, need: Word, ghost p: nat)
      requires Found(prev, block, need, p) && arena[block].size < need + MIN_SPLIT
      modifies this`mem, this`freeList, this`arena, this`free
      ensures Valid() && Live(arena, block) && arena[block].size >= need
      ensures Carved(old(arena), arena, block, need)
      ensures LiveKept(old(arena), arena, old(mem), mem, 0) && SameLive(old(arena), arena, block)
    {
      hide Tiled, Aligned, Headers, Chain, Lists, Mapped, Coalesced, OnlyBefore, LiveKept;
      Walk(arena, mem, free, freeList, p);
      if p > 0 {
        Walk(arena, mem, free, freeList, p - 1);
      }
      TakeEffect(arena, base, brk, mem, free, freeList, p);
      if prev == 0 {
        freeList := mem[block + NEXT];
      } else {
        mem := mem[prev + NEXT := mem[block + NEXT]];
      }
      mem := mem[block + NEXT := 0];
      mem := mem[block + MAGIC := BLK_USED];
      arena, free := Taken(arena, block), Without(free, p);
    }

    /** How much to ask the kernel for. */
    static method GrowBy(need: Word) returns (grow: Word)
      ensures grow == Grow(need)
    {
      grow := (need + HDR_SIZE) % U32;
      if grow < GROW_MIN {
        grow := GROW_MIN;
      }
      grow := Align8(grow);
    }

    /** The memory the break has just moved past becomes a free block. */
    method AddAt(start: Word, size: Word, ghost mem0: Mem)
      requires 0 < start && start % 8 == 0 && size >= 8 && size % 8 == 0 && start + HDR_SIZE + size == brk
      requires Sound(arena, base, start, mem0, free, freeList) && Coalesced(arena)
      requires ZeroBetween(mem, start, brk) && SameBelow(mem0, mem, start)
      modifies this`mem, this`freeList, this`arena, this`free
      ensures Sound(arena, base, brk, mem, free, freeList) && start !in old(arena)
      ensures arena == Grown(old(arena), start, size, false) && OnlyBefore(arena, start)
      ensures LiveKept(old(arena), arena, mem0, mem, start)
    {
      hide Tiled, Aligned, Headers, Chain, Lists, Mapped, Coalesced, OnlyBefore, LiveKept, Extends, Grown, Sound, Insertable,
        ZeroBetween, SameBelow;
      ghost var arena0 := arena;
      BreakExtends(mem0, mem, start, brk, size);
      mem := mem[start + SIZE := size];
      GrowEffect(arena0, base, start, mem0, mem, size, free, freeList);
      arena := Grown(arena0, start, size, true);
      ghost var mem1 := mem;
      ListInsert(start);
      KeptTwice(arena0, Grown(arena0, start, size, true), arena, mem0, mem1, mem, start, start);
    }

    /** One more block at the end of the arena, large enough for the request. */
    method AddBlock(need: Word) returns (ok: bool)
      requires Valid() && need % 8 == 0 && need + HDR_SIZE + (brk - low) < U32
      modifies this`mem, this`brk, this`freeList, this`arena, this`free
      ensures Window() && Sound(arena, base, brk, mem, free, freeList)
      ensures ok <==> old(brk) + Grow(need) <= limit
      ensures !ok ==> mem == old(mem) && arena == old(arena) && brk == old(brk) && freeList == old(freeList) && free == old(free)
      ensures ok ==> Grow(need) >= need + HDR_SIZE && brk == old(brk) + Grow(need)
                     && old(brk) !in old(arena)
                     && arena == Grown(old(arena), old(brk), Grow(need) - HDR_SIZE, false)
                     && OnlyBefore(arena, old(brk))
                     && LiveKept(old(arena), arena, old(mem), mem, old(brk))
    {
      hide Tiled, Aligned, Headers, Chain, Lists, Mapped, Coalesced, OnlyBefore, LiveKept, Align8, Target, Grown, Sound, Grow,
        ZeroBetween, SameBelow;
      GrowAligned(need, brk);
      var grow := GrowBy(need);
      ghost var mem0 := mem;
      TargetAhead(brk, low, limit, grow);
      var start := Sbrk(grow);
      if start == -1 {
        return false;
      }
      AddAt(start, grow - HDR_SIZE, mem0);
      return true;
    }

    /** The search loop of `malloc`: it ends with a block that fits, after moving the
        break at most once, or with NULL when the break cannot move. */
    method Search(need: Word) returns (prev: Word, block: Word, ghost p: nat, ghost grown: bool)
      requires Valid() && need >= 8 && need % 8 == 0 && need + HDR_SIZE + (brk - low) < U32
      modifies this`mem, this`brk, this`freeList, this`arena, this`free
      ensures block == 0 ==> mem == old(mem) && arena == old(arena) && brk == old(brk) && freeList == old(freeList) && free == old(free)
      ensures block == 0 <==> (forall a: Word :: !Fits(old(arena), a, need)) && old(brk) + Grow(need) > limit
      ensures block != 0 ==> Found(prev, block, need, p)
      ensures block != 0 && !grown ==>
                && brk == old(brk) && arena == old(arena) && mem == old(mem)
                && forall a: Word :: Fits(old(arena), a, need) ==> block <= a
      ensures grown ==>
                && block == old(brk) && block !in old(arena) && brk == old(brk) + Grow(need) && Grow(need) >= HDR_SIZE
                && arena == Grown(old(arena), block, Grow(need) - HDR_SIZE, false)
                && (forall a: Word :: !Fits(old(arena), a, need))
                && LiveKept(old(arena), arena, old(mem), mem, block) && SameLive(old(arena), arena, block)
    {
      hide Tiled, Aligned, Headers, Chain, Lists, Mapped, Coalesced, OnlyBefore, LiveKept, Grow;
      ghost var arena0, brk0 := arena, brk;
      prev, block, p := FirstFit(need);
      FitsAreListed(arena, free, need, p);
      CoalescedOnlyBefore(arena, block);
      assert block != 0 ==> Fits(arena0, block, need);
      grown := false;
      while block == 0
        invariant !grown ==> Valid() && arena == arena0 && mem == old(mem) && brk == brk0 && freeList == old(freeList) && free == old(free)
        invariant !grown ==> (block == 0 <==> forall a: Word :: !Fits(arena0, a, need))
        invariant !grown && block != 0 ==> forall a: Word :: Fits(arena0, a, need) ==> block <= a
        invariant grown ==> block == brk0 && brk0 > 0 && brk0 !in arena0 && (forall a: Word :: !Fits(arena0, a, need))
        invariant grown ==> brk == brk0 + Grow(need) && brk0 + Grow(need) <= limit && Grow(need) >= HDR_SIZE
        invariant grown ==> arena == Grown(arena0, brk0, Grow(need) - HDR_SIZE, false)
        invariant grown ==> LiveKept(arena0, arena, old(mem), mem, brk0) && SameLive(arena0, arena, brk0)
        invariant block != 0 ==> Found(prev, block, need, p)
        decreases !grown
      {
        var ok := AddBlock(need);
        if !ok {
          return;
        }
        prev, block, p := FirstFit(need);
        FitsAreListed(arena, free, need, p);
        assert Fits(arena, brk0, need) && Fits(arena, block, need);
        grown := true;
      }
    }

    /** First fit. Returns NULL, and changes nothing, exactly when no free block is
        large enough and the break cannot move far enough; otherwise the payload of
        a block that was not in use and now is, and nothing else in use changed.
        The break moves at most once, and only when no free block fits. */
    method Malloc(size: Word) returns (ptr: Word)
      requires Valid() && Servable(size)
      modifies this`mem, this`brk, this`freeList, this`arena, this`free
      ensures Valid()
      ensures ptr == 0 <==> Exhausted(old(arena), old(brk), size)
      ensures ptr == 0 ==> mem == old(mem) && arena == old(arena) && brk == old(brk) && freeList == old(freeList)
      ensures ptr != 0 ==> ptr >= HDR_SIZE && ptr % 8 == 0 && Served(old(arena), arena, old(mem), mem, ptr - HDR_SIZE, size)
      ensures ptr != 0 && Fits(old(arena), ptr - HDR_SIZE, Need(size)) ==>
                brk == old(brk) && forall a: Word :: Fits(old(arena), a, Need(size)) ==> ptr - HDR_SIZE <= a
      ensures ptr != 0 && !Fits(old(arena), ptr - HDR_SIZE, Need(size)) ==>
                && (forall a: Word :: !Fits(old(arena), a, Need(size)))
                && ptr - HDR_SIZE == old(brk) && brk == old(brk) + Grow(Need(size)) && Grow(Need(size)) >= HDR_SIZE
      ensures ptr != 0 ==>
                Carved(if Fits(old(arena), ptr - HDR_SIZE, Need(size)) then old(arena)
                       else old(arena)[old(brk) := Block(Grow(Need(size)) - HDR_SIZE, false)],
                       arena, ptr - HDR_SIZE, Need(size))
      ensures ptr != 0 ==> Need(size) <= arena[ptr - HDR_SIZE].size < Need(size) + MIN_SPLIT
    {
      hide Tiled, Aligned, Headers, Chain, Lists, Mapped, Coalesced, OnlyBefore, LiveKept, Grow, Served, Carved,
        Align8;
      var need := Align8(if size == 0 then 1 else size);
      AlignUp(if size == 0 then 1 else size);
      ghost var arena0, mem0, brk0 := arena, mem, brk;
      NullIsNoBlock(arena0, base, brk0);
      KeptSelf(arena0, mem0, 0);
      var prev: Word, block: Word;
      ghost var p, grown;
      prev, block, p, grown := Search(need);
      if block == 0 {
        return 0;
      }
      ghost var arena1, mem1, except: Word := arena, mem, if grown then block else 0;
      StartsAligned(arena, base, brk, block);
      SizeReads(arena, mem, block);
      if mem[block + SIZE] >= need + MIN_SPLIT {
        CarveFront(prev, block, need, p);
      } else {
        CarveWhole(prev, block, need, p);
      }
      CarvedTight(arena1, arena, block, need);
      KeptTwice(arena0, arena1, arena, mem0, mem1, mem, except, 0);
      ServedFrom(arena0, arena, mem0, mem, except, block, size);
      ptr := block + HDR_SIZE;
    }

    /** `memset(p, 0, n)` over the payload of a block in use. */
    method Clear(p: Word, n: Word)
      requires Valid() && p >= HDR_SIZE && Live(arena, p - HDR_SIZE) && n <= arena[p - HDR_SIZE].size
      modifies this`mem
      ensures Valid() && LiveKept(arena, arena, old(mem), mem, p - HDR_SIZE)
      ensures Zeroed(mem, p, n)
    {
      hide Tiled, Aligned, Headers, Chain, Lists, Coalesced, LiveKept, Mapped, ClearLow, ByteOf;
      ghost var a: Word := p - HDR_SIZE;
      ghost var mem0 := mem;
      var k := 0;
      while 4 * k + 4 <= n
        invariant 0 <= k && 4 * k <= n
        invariant PayloadOnly(arena, a, mem0, mem)
        invariant forall j: nat :: j < k ==> p + 4 * j in mem && WordAt(mem, p, j) == 0
      {
        PayloadMapped(arena, base, brk, mem0, a, k);
        mem := mem[p + 4 * k := 0];
        k := k + 1;
      }
      ghost var mem1 := mem;
      if 4 * k < n {
        PayloadMapped(arena, base, brk, mem0, a, k);
        mem := mem[p + 4 * k := ClearLow(mem[p + 4 * k], n - 4 * k)];
      }
      forall j: nat, r: nat | r < 4 && 4 * j + r < n
        ensures p + 4 * j in mem && ByteOf(WordAt(mem, p, j), r) == 0
      {
        if j < k {
          ZeroByte(r);
        } else {
          ClearedBytes(mem1[p + 4 * k], n - 4 * k, r);
        }
      }
      PayloadStore(arena, base, brk, mem0, mem, free, freeList, a);
    }

    /** Zeroed memory for `count * size` bytes; refuses exactly the products that do
        not fit 32 bits, and then as `malloc` does. */
    method Calloc(count: Word, size: Word) returns (ptr: Word)
      requires Valid() && (Product(count, size) < U32 ==> Servable(Product(count, size)))
      modifies this`mem, this`brk, this`freeList, this`arena, this`free
      ensures Valid()
      ensures ptr == 0 ==> mem == old(mem) && arena == old(arena) && brk == old(brk) && freeList == old(freeList)
      ensures ptr == 0 <==>
                || Product(count, size) >= U32
                || Exhausted(old(arena), old(brk), Product(count, size))
      ensures ptr != 0 ==>
                && ptr >= HDR_SIZE && ptr % 8 == 0
                && Served(old(arena), arena, old(mem), mem, ptr - HDR_SIZE, Product(count, size))
                && Zeroed(mem, ptr, Product(count, size))
                && arena[ptr - HDR_SIZE].size < Need(Product(count, size)) + MIN_SPLIT
    {
      hide Tiled, Aligned, Headers, Chain, Lists, Mapped, Coalesced, Grow, Zeroed, Need, Product;
      ProductFits(count, size);
      if count != 0 && size > 0xFFFF_FFFF / count {
        return 0;
      }
      var bytes: Word := Product(count, size);
      ptr := Malloc(bytes);
      if ptr != 0 {
        ghost var mem1 := mem;
        Clear(ptr, bytes);
        ServedThenStored(old(arena), arena, old(mem), mem1, mem, ptr - HDR_SIZE, bytes);
      }
    }

    /** `memcpy` of whole dwords from one payload to another. */
    method Copy(to: Word, from: Word, n: Word)
      requires Valid() && to >= HDR_SIZE && from >= HDR_SIZE && to != from && n % 4 == 0
      requires Live(arena, to - HDR_SIZE) && n <= arena[to - HDR_SIZE].size
      requires Live(arena, from - HDR_SIZE) && n <= arena[from - HDR_SIZE].size
      modifies this`mem
      ensures Valid() && LiveKept(arena, arena, old(mem), mem, to - HDR_SIZE)
      ensures Copied(old(mem), from, mem, to, n)
    {
      hide Tiled, Aligned, Headers, Chain, Lists, Coalesced, LiveKept, Mapped;
      ghost var a: Word, b: Word := to - HDR_SIZE, from - HDR_SIZE;
      ghost var mem0 := mem;
      BlocksApart(arena, base, brk, a, b);
      var k := 0;
      while 4 * k < n
        invariant 0 <= k && 4 * k <= n
        invariant PayloadOnly(arena, a, mem0, mem)
        invariant forall j: nat :: j < k ==> from + 4 * j in mem0 && to + 4 * j in mem && WordAt(mem, to, j) == WordAt(mem0, from, j)
      {
        PayloadMapped(arena, base, brk, mem0, a, k);
        PayloadMapped(arena, base, brk, mem0, b, k);
        mem := mem[to + 4 * k := mem[from + 4 * k]];
        k := k + 1;
      }
      PayloadStore(arena, base, brk, mem0, mem, free, freeList, a);
    }

    /** The copy into the new block, and the release of the old one. `arena0` and `mem0` are
        from before the new block was handed out. */
    method MoveInto(r: Word, ptr: Word, size: Word, ghost arena0: Arena, ghost mem0: Mem)
      requires Valid() && r != ptr && r >= HDR_SIZE && ptr >= HDR_SIZE
      requires Live(arena, ptr - HDR_SIZE) && Live(arena, r - HDR_SIZE) && size <= arena[r - HDR_SIZE].size
      requires arena[ptr - HDR_SIZE].size <= size && arena[ptr - HDR_SIZE].size % 8 == 0
      requires !Live(arena0, r - HDR_SIZE) && Live(arena0, ptr - HDR_SIZE) && arena0[ptr - HDR_SIZE] == arena[ptr - HDR_SIZE]
      requires PayloadThere(arena0, ptr - HDR_SIZE, mem0) && SamePayload(arena0, ptr - HDR_SIZE, mem0, mem)
      requires LiveKept(arena0, arena, mem0, mem, ptr - HDR_SIZE)
      modifies this`mem, this`freeList, this`arena, this`free
      ensures Valid() && SameLive(old(arena), arena, ptr - HDR_SIZE) && !Live(arena, ptr - HDR_SIZE)
      ensures Live(arena, r - HDR_SIZE) && arena[r - HDR_SIZE] == old(arena)[r - HDR_SIZE]
      ensures LiveKept(arena0, arena, mem0, mem, ptr - HDR_SIZE)
      ensures Copied(mem0, ptr, mem, r, arena0[ptr - HDR_SIZE].size)
    {
      hide Tiled, Aligned, Headers, Chain, Lists, Mapped, Coalesced, Copied, LiveKept, SamePayload, PayloadThere;
      var block: Word := ptr - HDR_SIZE;
      ghost var arena1, mem1 := arena, mem;
      SizeReads(arena, mem, block);
      Copy(r, ptr, if mem[block + SIZE] < size then mem[block + SIZE] else size);
      ghost var mem2 := mem;
      CopiedFrom(arena0, block, mem0, mem1, mem2, r, arena0[block].size);
      KeptTwice(arena0, arena1, arena1, mem0, mem1, mem2, block, r - HDR_SIZE);
      UsedMagic(arena, mem, block);
      Free(ptr);
      CopySurvives(arena1, arena, r - HDR_SIZE, mem0, ptr, mem2, mem, arena0[block].size, block);
      KeptTwice(arena0, arena1, arena, mem0, mem2, mem, block, block);
    }

    /** The part of `realloc` that needs a larger block: a new one, the copy, the old one freed. */
    method Move(ptr: Word, size: Word) returns (r: Word)
      requires Valid() && Servable(size) && size != 0
      requires ptr >= HDR_SIZE && Live(arena, ptr - HDR_SIZE) && arena[ptr - HDR_SIZE].size < Align8(size)
      modifies this`mem, this`brk, this`freeList, this`arena, this`free
      ensures Valid() && r != ptr
      ensures r == 0 <==> Exhausted(old(arena), old(brk), size)
      ensures r == 0 ==> arena == old(arena) && mem == old(mem)
      ensures r != 0 ==>
                && r >= HDR_SIZE && r % 8 == 0
                && !Live(old(arena), r - HDR_SIZE) && Live(arena, r - HDR_SIZE) && size <= arena[r - HDR_SIZE].size < Need(size) + MIN_SPLIT
                && !Live(arena, ptr - HDR_SIZE)
                && (forall a :: a != r - HDR_SIZE && a != ptr - HDR_SIZE ==> (Live(old(arena), a) <==> Live(arena, a)))
                && LiveKept(old(arena), arena, old(mem), mem, ptr - HDR_SIZE)
                && Copied(old(mem), ptr, mem, r, old(arena)[ptr - HDR_SIZE].size)
    {
      hide Tiled, Aligned, Headers, Chain, Lists, Mapped, Coalesced, Grow, Copied, LiveKept, Exhausted, Carved, Fits, Need,
        Served, SamePayload, PayloadThere;
      ghost var arena0, mem0 := arena, mem;
      ghost var block: Word := ptr - HDR_SIZE;
      StartsAligned(arena, base, brk, block);
      SizeAligned(arena, block);
      AlignUp(size);
      PayloadAllMapped(arena, base, brk, mem, block);
      r := Malloc(size);
      if r == 0 {
        return;
      }
      ServedKeeps(arena0, arena, mem0, mem, r - HDR_SIZE, size, block);
      MoveInto(r, ptr, size, arena0, mem0);
    }

    /** Resizes a block in use. A block that is already large enough stays; otherwise
        a new one holds everything the old one held, and only then is the old one
        freed. On NULL for a positive size the block is still there, unchanged. */
    method Realloc(ptr: Word, size: Word) returns (r: Word)
      requires Valid() && Freeable(ptr) && Servable(size)
      modifies this`mem, this`brk, this`freeList, this`arena, this`free
      ensures Valid()
      ensures ptr == 0 ==> (r == 0 <==> Exhausted(old(arena), old(brk), size))
      ensures ptr != 0 && size != 0 && Live(old(arena), ptr - HDR_SIZE) && old(arena)[ptr - HDR_SIZE].size < Align8(size) ==>
                (r == 0 <==> Exhausted(old(arena), old(brk), size))
      ensures ptr == 0 && r != 0 ==>
                && r >= HDR_SIZE && Served(old(arena), arena, old(mem), mem, r - HDR_SIZE, size)
                && arena[r - HDR_SIZE].size < Need(size) + MIN_SPLIT
      ensures ptr != 0 && size == 0 ==> r == 0
      ensures ptr != 0 && size == 0 && Live(old(arena), ptr - HDR_SIZE) ==>
                LiveKept(old(arena), arena, old(mem), mem, ptr - HDR_SIZE) && SameLive(old(arena), arena, ptr - HDR_SIZE)
                && !Live(arena, ptr - HDR_SIZE)
      ensures ptr != 0 && !Live(old(arena), ptr - HDR_SIZE) ==> r == 0 && arena == old(arena) && mem == old(mem)
      ensures r == 0 && (size != 0 || ptr == 0) ==> arena == old(arena) && mem == old(mem)
      ensures r == ptr && ptr != 0 <==> ptr != 0 && size != 0 && Live(old(arena), ptr - HDR_SIZE) && old(arena)[ptr - HDR_SIZE].size >= Align8(size)
      ensures r == ptr && ptr != 0 ==> arena == old(arena) && mem == old(mem) && arena[r - HDR_SIZE].size >= size
      ensures ptr != 0 && r != 0 && r != ptr ==>
                && r >= HDR_SIZE && r % 8 == 0
                && !Live(old(arena), r - HDR_SIZE) && Live(arena, r - HDR_SIZE) && size <= arena[r - HDR_SIZE].size < Need(size) + MIN_SPLIT
                && Live(old(arena), ptr - HDR_SIZE) && !Live(arena, ptr - HDR_SIZE)
                && (forall a :: a != r - HDR_SIZE && a != ptr - HDR_SIZE ==> (Live(old(arena), a) <==> Live(arena, a)))
                && LiveKept(old(arena), arena, old(mem), mem, ptr - HDR_SIZE)
                && Copied(old(mem), ptr, mem, r, old(arena)[ptr - HDR_SIZE].size)
    {
      hide Tiled, Aligned, Headers, Chain, Lists, Mapped, Coalesced, Grow, Copied, LiveKept, Exhausted;
      if ptr == 0 {
        r := Malloc(size);
        return;
      }
      if size == 0 {
        Free(ptr);
        return 0;
      }
      var block: Word := ptr - HDR_SIZE;
      UsedMagic(arena, mem, block);
      if mem[block + MAGIC] != BLK_USED {
        return 0;
      }
      AlignUp(size);
      SizeReads(arena, mem, block);
      if mem[block + SIZE] >= Align8(size) {
        return ptr;
      }
      r := Move(ptr, size);
    }
  }
}
