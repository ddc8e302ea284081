/** The arena of the C runtime's heap, as values: blocks keyed by the address of
    their header, and the address-sorted free list threaded through them. */
module HeapModel {
  type Word = w: int | 0 <= w < 0x1_0000_0000

  const U32: nat := 0x1_0000_0000
  const BLK_USED: Word := 0x5A5A_5A5A
  const BLK_FREE: Word := 0
  const HDR_SIZE: nat := 16
  const MIN_SPLIT: nat := 24
  const GROW_MIN: nat := 4096

  // Byte offsets of the header's fields.
  const SIZE: nat := 0
  const MAGIC: nat := 4
  const NEXT: nat := 8

  datatype Block = Block(size: nat, used: bool)
  type Arena = map<Word, Block>

  /** Dwords of memory by byte address. */
  type Mem = map<nat, Word>

  function End(arena: Arena, a: Word): nat
    requires a in arena
  {
    a + HDR_SIZE + arena[a].size
  }

  /** Headers and payloads tile `[base, brk)`: the first block starts at the base,
      each block ends where another starts or at the break, and none overlap. */
  ghost predicate Tiled(arena: Arena, base: Word, brk: nat) {
    && base <= brk
    && (base < brk ==> base in arena)
    && Bounded(arena, base, brk)
    && Apart(arena)
    && (forall a {:trigger End(arena, a)} :: a in arena ==> End(arena, a) == brk || End(arena, a) in arena)
  }

  ghost predicate Bounded(arena: Arena, base: Word, brk: nat) {
    forall a :: a in arena ==>
      base <= a && arena[a].size >= 8 && a + HDR_SIZE + arena[a].size <= brk
  }

  /** Headers, and so payloads, start on 8-byte boundaries. */
  ghost predicate Aligned(arena: Arena) {
    forall a :: a in arena ==> a % 8 == 0 && arena[a].size % 8 == 0
  }

  ghost predicate Apart(arena: Arena) {
    forall a, b :: a in arena && b in arena && a < b ==> a + HDR_SIZE + arena[a].size <= b
  }

  /** No two free blocks touch. */
  ghost predicate Coalesced(arena: Arena) {
    forall a, b :: a in arena && b in arena && !arena[a].used && !arena[b].used ==>
      a + HDR_SIZE + arena[a].size != b
  }

  ghost predicate Mapped(mem: Mem, base: nat, brk: nat) {
    forall a :: base <= a < brk && a % 4 == 0 ==> a in mem
  }

  ghost predicate HeaderAt(mem: Mem, a: Word, b: Block) {
    && a + SIZE in mem && mem[a + SIZE] == b.size
    && a + MAGIC in mem && mem[a + MAGIC] == (if b.used then BLK_USED else BLK_FREE)
    && a + NEXT in mem
  }

  ghost predicate Headers(arena: Arena, mem: Mem) {
    forall a :: a in arena ==> HeaderAt(mem, a, arena[a])
  }

  /** The element at a position of the list, NULL past its end. */
  function At(free: seq<Word>, i: nat): Word {
    if i < |free| then free[i] else 0
  }

  ghost predicate LinkAt(free: seq<Word>, mem: Mem, i: nat)
    requires i < |free|
  {
    Next(mem, free[i], At(free, i + 1))
  }

  /** `head` and the next fields spell out the list `free`. */
  ghost predicate Chain(free: seq<Word>, mem: Mem, head: Word) {
    && head == At(free, 0)
    && (forall i {:trigger LinkAt(free, mem, i)} :: 0 <= i < |free| ==> LinkAt(free, mem, i))
  }

  /** The list is strictly sorted and holds exactly the blocks not in use. */
  ghost predicate Lists(free: seq<Word>, arena: Arena) {
    && Sorted(free)
    && (forall i :: 0 <= i < |free| ==> free[i] in arena && !arena[free[i]].used && free[i] > 0)
    && (forall a :: a in arena && !arena[a].used ==> a in free)
  }

  ghost predicate Sorted(free: seq<Word>) {
    forall i, j :: 0 <= i < j < |free| ==> free[i] < free[j]
  }

  /** A memory that agrees on every payload dword of the block at `a`. */
  ghost predicate SamePayload(arena: Arena, a: Word, mem: Mem, mem': Mem)
    requires a in arena
  {
    forall x :: a + HDR_SIZE <= x < End(arena, a) && x in mem ==> x in mem' && mem'[x] == mem[x]
  }

  ghost predicate Live(arena: Arena, a: Word) {
    a in arena && arena[a].used
  }

  /** No block in use other than `except` changed, moved or lost its contents. */
  ghost predicate LiveKept(arena: Arena, arena': Arena, mem: Mem, mem': Mem, except: Word) {
    && (forall a :: Live(arena, a) && a != except ==> a in arena' && arena'[a] == arena[a])
    && (forall a :: Live(arena, a) && a != except ==> SamePayload(arena, a, mem, mem'))
  }

  // ----- sizes -------------------------------------------------------------

  /** The C expression `(n + 7u) & ~7u`. */
  function Align8(n: Word): Word {
    ((n + 7) % U32) / 8 * 8
  }

  lemma {:induction false} AlignUp(n: Word)
    ensures Align8(n) % 8 == 0
    ensures n <= U32 - 8 ==> n <= Align8(n) < n + 8
    ensures n > U32 - 8 ==> Align8(n) == 0
  {
  }

  function Need(size: Word): Word {
    Align8(if size == 0 then 1 else size)
  }

  function Grow(need: Word): Word {
    var grow: Word := (need + HDR_SIZE) % U32;
    Align8(if grow < GROW_MIN then GROW_MIN else grow)
  }

  /** Rounding a request up serves it exactly when the sum does not wrap. */
  lemma {:induction false} NeedCovers(size: Word)
    ensures Need(size) >= size <==> size <= U32 - 8
  {
    AlignUp(if size == 0 then 1 else size);
  }

  lemma {:induction false} GrowCovers(need: Word)
    requires need + HDR_SIZE < U32 && need % 8 == 0
    ensures Grow(need) >= need + HDR_SIZE && Grow(need) >= GROW_MIN && Grow(need) % 8 == 0
  {
    AlignUp(if need + HDR_SIZE < GROW_MIN then GROW_MIN else need + HDR_SIZE);
  }

  /** All that adding a block needs to know about how much is asked for. */
  lemma {:induction false} GrowAligned(need: Word, brk: Word)
    requires need + HDR_SIZE < U32 && need % 8 == 0 && brk % 8 == 0
    ensures need + HDR_SIZE <= Grow(need) && GROW_MIN <= Grow(need) && (brk + Grow(need)) % 8 == 0
    ensures (Grow(need) - HDR_SIZE) % 8 == 0 && Grow(need) - HDR_SIZE >= 8
    ensures Grow(need) == if need + HDR_SIZE < GROW_MIN then GROW_MIN else need + HDR_SIZE
  {
    hide Grow;
    GrowCovers(need);
    GrowIs(need);
  }

  /** Where SYS_SBRK would put the break, and whether it accepts. */
  function Target(brk: Word, increment: Word): Word { (brk + increment) % U32 }

  predicate MovesBack(brk: Word, low: Word, limit: Word, increment: Word) {
    low <= Target(brk, increment) <= limit && Target(brk, increment) < brk
  }

  /** A request is grown for as intended, by enough and upwards, exactly when size, header
      and the distance to the window's start fit 32 bits together; beyond that the sum in
      the allocator or the one in the kernel wraps. */
  lemma {:induction false} GrowsForward(brk: Word, low: Word, limit: Word, need: Word)
    requires 0 < low <= brk <= limit < 0x8000_0000 && need % 8 == 0
    ensures need + HDR_SIZE + (brk - low) < U32
            <==> Grow(need) >= need + HDR_SIZE && !MovesBack(brk, low, limit, Grow(need))
  {
    if need + HDR_SIZE < U32 {
      GrowCovers(need);
      GrowIs(need);
    } else {
      assert Grow(need) < U32;
    }
  }

  /** Below the point where the kernel's sum wraps into the window, the break moves up by
      the increment or stays. */
  lemma {:induction false} TargetAhead(brk: Word, low: Word, limit: Word, increment: Word)
    requires 0 < low <= brk <= limit < 0x8000_0000 && brk + increment < U32 + low
    ensures low <= Target(brk, increment) <= limit <==> brk + increment <= limit
    ensures brk + increment <= limit ==> Target(brk, increment) == brk + increment
  {
  }

  lemma {:induction false} GrowIs(need: Word)
    requires need + HDR_SIZE < U32 && need % 8 == 0
    ensures Grow(need) == if need + HDR_SIZE < GROW_MIN then GROW_MIN else need + HDR_SIZE
  {
    AlignUp(if need + HDR_SIZE < GROW_MIN then GROW_MIN else need + HDR_SIZE);
  }

  /** A request for which growing goes wrong is one no block could serve. */
  lemma {:induction false} NothingServes(arena: Arena, base: Word, brk: Word, low: Word, need: Word, a: Word)
    requires Tiled(arena, base, brk) && 0 < low <= base <= brk < 0x8000_0000
    requires need + HDR_SIZE + (brk - low) >= U32 && a in arena
    ensures arena[a].size < need
  {
    assert Bounded(arena, base, brk);
  }

  // The window of the break in this kernel: one page above where programs load, and up to
  // the guard page of the user stack.
  const PROGRAM_BASE: Word := 0x50_0000
  const PROGRAM_END: Word := 0x60_0000
  const BREAK_LOW: Word := PROGRAM_BASE + 0x1000
  const BREAK_LIMIT: Word := PROGRAM_END - 64 * 4096

  /** A request near 2^32 that the kernel answers by moving the break down. */
  lemma {:induction false} GrowsBackward()
    ensures MovesBack(0x58_0000, BREAK_LOW, BREAK_LIMIT, Grow(Need(0xFFFC_0000)))
  {
    GrowIs(0xFFFC_0000);
  }

  function Product(count: Word, size: Word): nat { count * size }

  /** The division test refuses exactly the products of 2^32 and more. */
  lemma {:induction false} ProductFits(count: Word, size: Word)
    ensures count != 0 && size > 0xFFFF_FFFF / count <==> Product(count, size) >= U32
  {
    if count != 0 {
      var q := 0xFFFF_FFFF / count;
      assert count * q <= 0xFFFF_FFFF < count * q + count;
      if size > q {
        assert count * size >= count * (q + 1);
      } else {
        assert count * size <= count * q;
      }
    }
  }

  // ----- consequences of the invariant --------------------------------------

  /** Every address of the arena lies in exactly one block. */
  lemma {:induction false} OneBlockPerAddress(arena: Arena, base: Word, brk: nat, from: Word, x: nat) returns (a: Word)
    requires Tiled(arena, base, brk) && brk < U32 && from in arena && from <= x < brk
    ensures a in arena && a <= x < End(arena, a)
    ensures forall b :: b in arena && b <= x < End(arena, b) ==> b == a
    decreases x - from
  {
    if x < End(arena, from) {
      a := from;
    } else {
      a := OneBlockPerAddress(arena, base, brk, End(arena, from), x);
    }
  }

  /** Freeing everything leaves one block covering the arena. */
  lemma {:induction false} AllFreeIsOneBlock(arena: Arena, base: Word, brk: nat)
    requires Tiled(arena, base, brk) && Coalesced(arena) && base < brk
    requires forall a :: a in arena ==> !arena[a].used
    ensures arena == map[base := Block(brk - base - HDR_SIZE, false)]
  {
    assert End(arena, base) == brk;
    forall a | a in arena
      ensures a == base
    {
      if a != base {
        assert false;
      }
    }
  }

  // ----- header writes ------------------------------------------------------

  /** Storing into one block's header disturbs no other header field and no
      payload of another block. */
  lemma {:induction false} NextFrame(arena: Arena, base: Word, brk: nat, mem: Mem, a: Word, v: Word)
    requires Tiled(arena, base, brk) && a in arena && Headers(arena, mem)
    ensures Headers(arena, mem[a + NEXT := v])
    ensures forall b :: b in arena ==> SamePayload(arena, b, mem, mem[a + NEXT := v])
  {
  }

  ghost predicate Next(mem: Mem, a: Word, v: Word) {
    a + NEXT in mem && mem[a + NEXT] == v
  }

  // ----- list surgery -------------------------------------------------------

  function With(free: seq<Word>, p: nat, block: Word): (r: seq<Word>)
    requires p <= |free|
    ensures |r| == |free| + 1 && r[p] == block
    ensures forall i :: 0 <= i < p ==> r[i] == free[i]
    ensures forall i :: p < i < |r| ==> r[i] == free[i - 1]
  {
    free[..p] + [block] + free[p..]
  }

  function Without(free: seq<Word>, q: nat): (r: seq<Word>)
    requires q < |free|
    ensures |r| == |free| - 1
    ensures forall i :: 0 <= i < q ==> r[i] == free[i]
    ensures forall i :: q <= i < |r| ==> r[i] == free[i + 1]
  {
    free[..q] + free[q + 1..]
  }

  /** Splicing a block into the list at its place. */
  lemma {:induction false} InsertChain(free: seq<Word>, mem: Mem, head: Word, p: nat, block: Word, mem': Mem, head': Word)
    requires p <= |free| && Chain(free, mem, head)
    requires forall i {:trigger LinkAt(free, mem', i)} :: 0 <= i < |free| && i + 1 != p ==> LinkAt(free, mem', i)
    requires Next(mem', block, At(free, p))
    requires if p == 0 then head' == block else head' == head && Next(mem', free[p - 1], block)
    ensures Chain(With(free, p, block), mem', head')
  {
    hide With;
    var free' := With(free, p, block);
    forall i | 0 <= i < |free'|
      ensures LinkAt(free', mem', i)
    {
      if i < p {
        assert i + 1 < p ==> LinkAt(free, mem', i);
      } else if i > p {
        assert LinkAt(free, mem', i - 1);
      }
    }
  }

  /** Unlinking position `q`. */
  lemma {:induction false} RemoveChain(free: seq<Word>, mem: Mem, head: Word, q: nat, mem': Mem, head': Word)
    requires q < |free| && Chain(free, mem, head)
    requires forall i {:trigger LinkAt(free, mem', i)} :: 0 <= i < |free| && i != q && i + 1 != q ==> LinkAt(free, mem', i)
    requires if q == 0 then head' == At(free, 1) else head' == head && Next(mem', free[q - 1], At(free, q + 1))
    ensures Chain(Without(free, q), mem', head')
  {
    hide Without;
    var free' := Without(free, q);
    forall i | 0 <= i < |free'|
      ensures LinkAt(free', mem', i)
    {
      if i < q {
        assert i + 1 < q ==> LinkAt(free, mem', i);
      } else {
        assert LinkAt(free, mem', i + 1);
      }
    }
  }

  /** Putting another block in the place of position `q`. */
  lemma {:induction false} ReplaceChain(free: seq<Word>, mem: Mem, head: Word, q: nat, block: Word, mem': Mem, head': Word)
    requires q < |free| && Chain(free, mem, head)
    requires forall i {:trigger LinkAt(free, mem', i)} :: 0 <= i < |free| && i != q && i + 1 != q ==> LinkAt(free, mem', i)
    requires Next(mem', block, At(free, q + 1))
    requires if q == 0 then head' == block else head' == head && Next(mem', free[q - 1], block)
    ensures Chain(free[q := block], mem', head')
  {
    var free' := free[q := block];
    forall i | 0 <= i < |free'|
      ensures LinkAt(free', mem', i)
    {
      if i != q {
        assert i + 1 != q ==> LinkAt(free, mem', i);
      }
    }
  }

  lemma {:induction false} SortedWith(free: seq<Word>, p: nat, block: Word)
    requires p <= |free| && Sorted(free)
    requires forall i :: 0 <= i < |free| ==> free[i] != block
    requires p > 0 ==> free[p - 1] < block
    requires p < |free| ==> block <= free[p]
    ensures Sorted(With(free, p, block))
  {
    hide With;
    var r := With(free, p, block);
    forall i, j | 0 <= i < j < |r|
      ensures r[i] < r[j]
    {
      if i < p <= j {
        assert free[i] <= free[p - 1];
      }
      if i <= p < j {
        assert free[p] <= free[j - 1];
      }
    }
  }

  lemma {:induction false} SortedWithout(free: seq<Word>, q: nat)
    requires q < |free| && Sorted(free)
    ensures Sorted(Without(free, q))
  {
    hide Without;
  }

  lemma {:induction false} MemberWith(free: seq<Word>, p: nat, block: Word, a: Word)
    requires p <= |free|
    ensures a in With(free, p, block) <==> a == block || a in free
  {
  }

  lemma {:induction false} MemberWithout(free: seq<Word>, q: nat, a: Word)
    requires q < |free| && a in free && a != free[q]
    ensures a in Without(free, q)
  {
    var i :| 0 <= i < |free| && free[i] == a;
    assert Without(free, q)[if i < q then i else i - 1] == a;
  }

  lemma {:induction false} InsertLists(free: seq<Word>, arena: Arena, p: nat, block: Word)
    requires p <= |free| && Lists(free, arena) && Live(arena, block) && block > 0
    requires forall i :: 0 <= i < p ==> free[i] < block
    requires p < |free| ==> block <= free[p]
    ensures Lists(With(free, p, block), arena[block := Block(arena[block].size, false)])
  {
    hide With, Sorted;
    InsertSorted(free, arena, p, block);
    var free', arena' := With(free, p, block), arena[block := Block(arena[block].size, false)];
    forall a | a in arena' && !arena'[a].used
      ensures a in free'
    {
      MemberWith(free, p, block, a);
    }
    forall i | 0 <= i < |free'|
      ensures free'[i] in arena' && !arena'[free'[i]].used && free'[i] > 0
    {
      MemberWith(free, p, block, free'[i]);
      assert free'[i] != block ==> exists j :: 0 <= j < |free| && free[j] == free'[i];
    }
  }

  lemma {:induction false} InsertSorted(free: seq<Word>, arena: Arena, p: nat, block: Word)
    requires p <= |free| && Lists(free, arena) && Live(arena, block) && block > 0
    requires forall i :: 0 <= i < p ==> free[i] < block
    requires p < |free| ==> block <= free[p]
    ensures Sorted(With(free, p, block))
  {
    SortedWith(free, p, block);
  }

  lemma {:induction false} RemoveLists(free: seq<Word>, arena: Arena, q: nat, arena': Arena)
    requires q < |free| && Lists(free, arena)
    requires forall i :: 0 <= i < |free| && i != q ==> free[i] in arena' && !arena'[free[i]].used
    requires forall a :: a in arena' && !arena'[a].used ==> a in arena && !arena[a].used && a != free[q]
    ensures Lists(Without(free, q), arena')
  {
    SortedWithout(free, q);
    hide Without, Sorted;
    forall a | a in arena' && !arena'[a].used
      ensures a in Without(free, q)
    {
      MemberWithout(free, q, a);
    }
  }

  /** Memory after `list_insert`, the block going in before position `p`. */
  function Linked(mem: Mem, free: seq<Word>, p: nat, block: Word): Mem
    requires p <= |free|
  {
    var m := mem[block + MAGIC := BLK_FREE][block + NEXT := At(free, p)];
    if p == 0 then m else m[free[p - 1] + NEXT := block]
  }

  lemma {:induction false} LinkedChain(arena: Arena, base: Word, brk: nat, mem: Mem, free: seq<Word>, head: Word, p: nat, block: Word)
    requires p <= |free| && Tiled(arena, base, brk) && Lists(free, arena) && Chain(free, mem, head)
    requires Live(arena, block)
    ensures Chain(With(free, p, block), Linked(mem, free, p, block), if p == 0 then block else head)
  {
    var mem' := Linked(mem, free, p, block);
    forall i | 0 <= i < |free| && i + 1 != p
      ensures LinkAt(free, mem', i)
    {
      assert LinkAt(free, mem, i);
    }
    InsertChain(free, mem, head, p, block, mem', if p == 0 then block else head);
  }

  /** Header fields of different blocks are different dwords. */
  lemma {:induction false} HeadersApart(arena: Arena, base: Word, brk: nat, a: Word, b: Word)
    requires Tiled(arena, base, brk) && a in arena && b in arena && a != b
    ensures a + NEXT < b || b + NEXT < a
  {
  }

  lemma {:induction false} FreedHeaders(arena: Arena, base: Word, brk: nat, mem: Mem, block: Word, next: Word)
    requires Tiled(arena, base, brk) && block in arena
    requires block + SIZE in mem && mem[block + SIZE] == arena[block].size
    requires Headers(arena - {block}, mem)
    ensures Headers(arena[block := Block(arena[block].size, false)], mem[block + MAGIC := BLK_FREE][block + NEXT := next])
  {
    var m := mem[block + MAGIC := BLK_FREE][block + NEXT := next];
    var arena' := arena[block := Block(arena[block].size, false)];
    forall a | a in arena' && a != block
      ensures HeaderAt(m, a, arena'[a])
    {
      assert a in arena - {block};
      HeadersApart(arena, base, brk, a, block);
    }
  }

  lemma {:induction false} LinkedHeaders(arena: Arena, base: Word, brk: nat, mem: Mem, free: seq<Word>, p: nat, block: Word)
    requires p <= |free| && Tiled(arena, base, brk) && Lists(free, arena) && Live(arena, block)
    requires block + SIZE in mem && mem[block + SIZE] == arena[block].size
    requires Headers(arena - {block}, mem)
    ensures Headers(arena[block := Block(arena[block].size, false)], Linked(mem, free, p, block))
  {
    hide Tiled, Headers;
    var arena' := arena[block := Block(arena[block].size, false)];
    FreedHeaders(arena, base, brk, mem, block, At(free, p));
    StillTiled(arena, base, brk, block, false);
    if p > 0 {
      NextFrame(arena', base, brk, mem[block + MAGIC := BLK_FREE][block + NEXT := At(free, p)], free[p - 1], block);
    }
  }

  lemma {:induction false} StillTiled(arena: Arena, base: Word, brk: nat, block: Word, used: bool)
    requires Tiled(arena, base, brk) && block in arena
    ensures Tiled(arena[block := Block(arena[block].size, used)], base, brk)
  {
    var arena' := arena[block := Block(arena[block].size, used)];
    assert Bounded(arena', base, brk) && Apart(arena');
    forall a | a in arena'
      ensures End(arena', a) == brk || End(arena', a) in arena'
    {
      assert End(arena', a) == End(arena, a);
    }
  }

  lemma {:induction false} LinkedPayloads(arena: Arena, base: Word, brk: nat, mem: Mem, free: seq<Word>, p: nat, block: Word, a: Word)
    requires p <= |free| && Tiled(arena, base, brk) && Lists(free, arena) && Live(arena, block) && Live(arena, a) && a != block
    ensures SamePayload(arena, a, mem, Linked(mem, free, p, block))
  {
  }

  lemma {:induction false} HeadOf(free: seq<Word>, mem: Mem, head: Word)
    requires Chain(free, mem, head)
    ensures head == At(free, 0)
  {
  }

  /** What a walk finds at position `p` of the list, and in which order. */
  lemma {:induction false} Walk(arena: Arena, mem: Mem, free: seq<Word>, head: Word, p: nat)
    requires Lists(free, arena) && Chain(free, mem, head) && p < |free|
    ensures free[p] > 0 && free[p] in arena && !arena[free[p]].used
    ensures Next(mem, free[p], At(free, p + 1))
    ensures p + 1 < |free| ==> free[p] < free[p + 1]
  {
    assert LinkAt(free, mem, p);
  }

  ghost predicate Insertable(arena: Arena, base: Word, brk: nat, mem: Mem, free: seq<Word>, head: Word, block: Word) {
    && Live(arena, block) && block > 0
    && Mapped(mem, base, brk) && Tiled(arena, base, brk) && Aligned(arena)
    && block + SIZE in mem && mem[block + SIZE] == arena[block].size
    && Headers(arena - {block}, mem)
    && Lists(free, arena) && Chain(free, mem, head)
  }

  lemma {:induction false} InsertEffect(arena: Arena, base: Word, brk: nat, mem: Mem, free: seq<Word>, head: Word, p: nat, block: Word)
    requires Insertable(arena, base, brk, mem, free, head, block)
    requires p <= |free| && (forall i :: 0 <= i < p ==> free[i] < block) && (p < |free| ==> block <= free[p])
    ensures var arena' := arena[block := Block(arena[block].size, false)];
      var free' := With(free, p, block);
      var mem' := Linked(mem, free, p, block);
      && Tiled(arena', base, brk) && Aligned(arena') && Mapped(mem', base, brk) && Headers(arena', mem')
      && Lists(free', arena') && Chain(free', mem', if p == 0 then block else head)
      && LiveKept(arena, arena', mem, mem', block)
  {
    hide Tiled, Headers, Chain;
    LinkedChain(arena, base, brk, mem, free, head, p, block);
    LinkedHeaders(arena, base, brk, mem, free, p, block);
    forall a | Live(arena, a) && a != block
      ensures SamePayload(arena, a, mem, Linked(mem, free, p, block))
    {
      LinkedPayloads(arena, base, brk, mem, free, p, block, a);
    }
    StillTiled(arena, base, brk, block, false);
    InsertLists(free, arena, p, block);
  }

  lemma {:induction false} SizeReads(arena: Arena, mem: Mem, a: Word)
    requires Headers(arena, mem) && a in arena
    ensures HeaderAt(mem, a, arena[a])
  {
  }

  lemma {:induction false} UsedMagic(arena: Arena, mem: Mem, a: Word)
    requires Headers(arena, mem)
    ensures Live(arena, a) ==> HeaderAt(mem, a, arena[a]) && mem[a + MAGIC] == BLK_USED
  {
  }

  /** Where a free block stands in the list. */
  ghost function ListedAt(free: seq<Word>, arena: Arena, a: Word): (i: nat)
    requires Lists(free, arena) && a in arena && !arena[a].used
    ensures i < |free| && free[i] == a
  {
    var i :| 0 <= i < |free| && free[i] == a;
    i
  }

  // ----- bytes -----------------------------------------------------------------

  function Shift(k: nat): nat
    requires k < 4
  {
    if k == 0 then 1 else if k == 1 then 0x100 else if k == 2 then 0x1_0000 else 0x100_0000
  }

  /** Byte `r` of a little-endian dword. */
  function ByteOf(w: Word, r: nat): nat
    requires r < 4
  {
    w / Shift(r) % 0x100
  }

  /** The `k`-th dword from address `p`. */
  function WordAt(mem: Mem, p: Word, k: nat): Word
    requires p + 4 * k in mem
  {
    mem[p + 4 * k]
  }

  /** The first `n` bytes from `p` are zero. */
  ghost predicate Zeroed(mem: Mem, p: Word, n: nat) {
    forall k: nat, r: nat :: r < 4 && 4 * k + r < n ==> p + 4 * k in mem && ByteOf(WordAt(mem, p, k), r) == 0
  }

  /** A dword with its `k` lowest bytes cleared. */
  function ClearLow(w: Word, k: nat): Word
    requires k < 4
  {
    w / Shift(k) * Shift(k)
  }

  lemma {:induction false} ClearedBytes(w: Word, k: nat, j: nat)
    requires j < k < 4
    ensures ByteOf(ClearLow(w, k), j) == 0
  {
    var q := w / Shift(k);
    if k == 1 {
      LowBytes(q);
    } else if k == 2 {
      LowBytes(q);
      LowBytes(q * 0x100);
    } else {
      LowBytes(q);
      LowBytes(q * 0x100);
      LowBytes(q * 0x1_0000);
    }
  }

  lemma {:induction false} LowBytes(q: nat)
    ensures q * 0x100 % 0x100 == 0 && q * 0x100 / 0x100 == q
    ensures q * 0x1_0000 / 0x1_0000 == q
  {
  }

  lemma {:induction false} ZeroByte(r: nat)
    requires r < 4
    ensures ByteOf(0, r) == 0
  {
  }

  /** Every dword of a payload is mapped. */
  lemma {:induction false} PayloadMapped(arena: Arena, base: Word, brk: nat, mem: Mem, a: Word, k: nat)
    requires Tiled(arena, base, brk) && Aligned(arena) && Mapped(mem, base, brk)
    requires a in arena && 4 * k < arena[a].size
    ensures a + HDR_SIZE + 4 * k in mem
  {
    hide Tiled, Aligned, Mapped;
    BlockInside(arena, base, brk, a);
    DwordAligned(a, k);
    MappedAt(mem, base, brk, a + HDR_SIZE + 4 * k);
  }

  lemma {:induction false} BlockInside(arena: Arena, base: Word, brk: nat, a: Word)
    requires Tiled(arena, base, brk) && Aligned(arena) && a in arena
    ensures base <= a && a + HDR_SIZE + arena[a].size <= brk && a % 8 == 0
  {
  }

  lemma {:induction false} DwordAligned(a: Word, k: nat)
    requires a % 8 == 0
    ensures (a + HDR_SIZE + 4 * k) % 4 == 0
  {
    assert a + HDR_SIZE + 4 * k == 4 * (2 * (a / 8) + 4 + k);
    Fourfold(2 * (a / 8) + 4 + k);
  }

  lemma {:induction false} Fourfold(x: nat)
    ensures 4 * x % 4 == 0
  {
  }

  lemma {:induction false} MappedAt(mem: Mem, base: nat, brk: nat, p: nat)
    requires Mapped(mem, base, brk) && base <= p < brk && p % 4 == 0
    ensures p in mem
  {
  }

  ghost predicate PayloadThere(arena: Arena, a: Word, mem: Mem)
    requires a in arena
  {
    forall k: nat :: 4 * k < arena[a].size ==> a + HDR_SIZE + 4 * k in mem
  }

  lemma {:induction false} PayloadAllMapped(arena: Arena, base: Word, brk: nat, mem: Mem, a: Word)
    requires Tiled(arena, base, brk) && Aligned(arena) && Mapped(mem, base, brk) && a in arena
    ensures PayloadThere(arena, a, mem)
  {
    hide Tiled, Aligned, Mapped;
    forall k: nat | 4 * k < arena[a].size
      ensures a + HDR_SIZE + 4 * k in mem
    {
      PayloadMapped(arena, base, brk, mem, a, k);
    }
  }
}
