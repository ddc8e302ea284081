/** CRC-32C twice over: the bit-at-a-time loop of the volume builder, the
  * table-driven loop of the checker, and the checksum field that both keep in
  * every metadata run.
  *
  * The register is a `bv32` and data is a sequence of `bv8`, so every shift and
  * exclusive-or below is the machine operation. */
module Crc {
  const POLYNOMIAL: bv32 := 0x82F6_3B78
  const ONES: bv32 := 0xFFFF_FFFF

  type Bytes = seq<bv8>

  // ---------------------------------------------------------------- reference

  function Xor(a: bv32, b: bv32): bv32 { a ^ b }

  function Down(c: bv32): bv32 { c >> 8 }

  function Low(c: bv32): bv32 { c & 0xFF }

  /** One bit of the reflected division. */
  function Shift(c: bv32): bv32 {
    if c & 1 == 1 then (c >> 1) ^ POLYNOMIAL else c >> 1
  }

  function Shifts(n: nat, c: bv32): bv32 {
    if n == 0 then c else Shift(Shifts(n - 1, c))
  }

  function Absorb(c: bv32, b: bv8): bv32 {
    Shifts(8, Xor(c, b as bv32))
  }

  /** The register after the bytes of `data`, starting from `c`. */
  function Register(c: bv32, data: Bytes): bv32 {
    if data == [] then c else Absorb(Register(c, data[..|data| - 1]), data[|data| - 1])
  }

  function Crc32c(data: Bytes): bv32 {
    Xor(Register(ONES, data), ONES)
  }

  // ------------------------------------------------------- the shift is linear

  predicate Odd(c: bv32) { c & 1 == 1 }

  function Half(c: bv32): bv32 { c >> 1 }

  lemma {:induction false} OddXor(a: bv32, b: bv32)
    ensures Odd(Xor(a, b)) <==> Odd(a) != Odd(b)
  {
    assert (a ^ b) & 1 == (a & 1) ^ (b & 1);
    assert (a & 1 == 0 || a & 1 == 1) && (b & 1 == 0 || b & 1 == 1);
  }

  lemma {:induction false} HalfXor(a: bv32, b: bv32)
    ensures Half(Xor(a, b)) == Xor(Half(a), Half(b))
  {}

  lemma {:induction false} XorAssociates(a: bv32, b: bv32, c: bv32)
    ensures Xor(a, Xor(b, c)) == Xor(Xor(a, b), c)
  {}

  lemma {:induction false} XorCommutes(a: bv32, b: bv32)
    ensures Xor(a, b) == Xor(b, a) && Xor(a, a) == 0 && Xor(a, 0) == a
  {}

  lemma {:induction false} XorSwap(a: bv32, b: bv32, p: bv32)
    ensures Xor(Xor(a, p), Xor(b, p)) == Xor(a, b)
    ensures Xor(Xor(a, p), b) == Xor(Xor(a, b), p)
    ensures Xor(a, Xor(b, p)) == Xor(Xor(a, b), p)
  {
    hide Xor;
    XorCommutes(a, b);
    XorCommutes(b, p);
    XorCommutes(p, p);
    XorAssociates(a, b, p);
    XorAssociates(a, p, b);
    XorAssociates(Xor(a, p), p, b);
    XorAssociates(a, p, p);
  }

  lemma {:induction false} ShiftIs(c: bv32)
    ensures Shift(c) == if Odd(c) then Xor(Half(c), POLYNOMIAL) else Half(c)
  {}

  lemma {:induction false} ShiftLinear(a: bv32, b: bv32)
    ensures Shift(Xor(a, b)) == Xor(Shift(a), Shift(b))
  {
    hide Shift, Xor, Odd, Half;
    ShiftIs(a);
    ShiftIs(b);
    ShiftIs(Xor(a, b));
    OddXor(a, b);
    HalfXor(a, b);
    XorSwap(Half(a), Half(b), POLYNOMIAL);
  }

  lemma {:induction false} ShiftsLinear(n: nat, a: bv32, b: bv32)
    ensures Shifts(n, Xor(a, b)) == Xor(Shifts(n, a), Shifts(n, b))
  {
    hide Shift, Xor;
    if n > 0 {
      ShiftsLinear(n - 1, a, b);
      ShiftLinear(Shifts(n - 1, a), Shifts(n - 1, b));
    }
  }

  lemma {:induction false} ShiftsAdd(m: nat, n: nat, c: bv32)
    ensures Shifts(m + n, c) == Shifts(m, Shifts(n, c))
  {
    hide Shift;
    if m > 0 {
      ShiftsAdd(m - 1, n, c);
    }
  }

  /** The polynomial has its top bit set, so the bit shifted out can be read back. */
  lemma {:induction false} ShiftInjective(a: bv32, b: bv32)
    requires Shift(a) == Shift(b)
    ensures a == b
  {}

  lemma {:induction false} ShiftsInjective(n: nat, a: bv32, b: bv32)
    requires Shifts(n, a) == Shifts(n, b)
    ensures a == b
  {
    hide Shift;
    if n > 0 {
      ShiftInjective(Shifts(n - 1, a), Shifts(n - 1, b));
      ShiftsInjective(n - 1, a, b);
    }
  }

  lemma {:induction false} EvenShift(c: bv32)
    requires c & 1 == 0
    ensures Shift(c) == c >> 1
  {}

  lemma {:induction false} ClearPair(c: bv32)
    requires c & 3 == 0
    ensures Shift(Shift(c)) == c >> 2
  {
    EvenShift(c);
    EvenShift(c >> 1);
  }

  lemma {:induction false} ClearHalf(c: bv32)
    requires c & 0xF == 0
    ensures Shift(Shift(Shift(Shift(c)))) == c >> 4
  {
    hide Shift;
    assert c & 3 == 0 && (c >> 2) & 3 == 0 && (c >> 2) >> 2 == c >> 4;
    ClearPair(c);
    ClearPair(c >> 2);
  }

  /** Eight shifts of a register whose low byte is clear only move it down. */
  lemma {:induction false} ClearByte(c: bv32)
    requires Low(c) == 0
    ensures Shifts(8, c) == Down(c)
  {
    EightShifts(c);
    hide Shift;
    assert c & 0xF == 0 && (c >> 4) & 0xF == 0 && (c >> 4) >> 4 == c >> 8;
    ClearHalf(c);
    ClearHalf(c >> 4);
  }

  lemma {:induction false} TwoShifts(n: nat, c: bv32)
    ensures Shifts(n + 2, c) == Shift(Shift(Shifts(n, c)))
  {
    hide Shift;
    assert Shifts(n + 2, c) == Shift(Shifts(n + 1, c));
  }

  lemma {:induction false} EightShifts(c: bv32)
    ensures Shifts(8, c) == Shift(Shift(Shift(Shift(Shift(Shift(Shift(Shift(c))))))))
  {
    hide Shift, Shifts;
    TwoShifts(0, c);
    TwoShifts(2, c);
    TwoShifts(4, c);
    TwoShifts(6, c);
    ShiftsNone(c);
  }

  lemma {:induction false} ShiftsNone(c: bv32)
    ensures Shifts(0, c) == c
  {}

  lemma {:induction false} Halves(c: bv32, high: bv32)
    requires high == c & 0xFFFF_FF00
    ensures c == Xor(Low(c), high) && Low(high) == 0 && Down(high) == Down(c)
  {}

  /** Eight bit steps are one table step: the low byte picks a remainder, the rest moves down. */
  lemma {:induction false} ByteStep(c: bv32)
    ensures Shifts(8, c) == Xor(Shifts(8, Low(c)), Down(c))
  {
    hide Shifts, Xor, Down, Low;
    var high := c & 0xFFFF_FF00;
    Halves(c, high);
    ShiftsLinear(8, Low(c), high);
    ClearByte(high);
  }

  // --------------------------------------------------------- the two loops

  /** The builder's crc32c. */
  method BitwiseCrc(data: Bytes) returns (crc: bv32)
    ensures crc == Crc32c(data)
  {
    crc := ONES;
    for i := 0 to |data|
      invariant crc == Register(ONES, data[..i])
    {
      ghost var before := crc;
      crc := crc ^ (data[i] as bv32);
      ghost var mixed := crc;
      for k := 0 to 8
        invariant crc == Shifts(k, mixed)
      {
        crc := if crc & 1 == 1 then (crc >> 1) ^ 0x82F6_3B78 else crc >> 1;
      }
      assert data[..i + 1][..i] == data[..i];
      assert crc == Absorb(before, data[i]);
    }
    assert data[..|data|] == data;
    crc := crc ^ ONES;
  }

  predicate IsTable(table: seq<bv32>) {
    && |table| == 256
    && forall i :: 0 <= i < 256 ==> table[i] == Shifts(8, i as bv32)
  }

  /** The checker's table. */
  method Crc32cTable() returns (table: seq<bv32>)
    ensures IsTable(table)
  {
    table := [];
    for value := 0 to 256
      invariant |table| == value
      invariant forall i :: 0 <= i < value ==> table[i] == Shifts(8, i as bv32)
    {
      var crc := value as bv32;
      for k := 0 to 8
        invariant crc == Shifts(k, value as bv32)
      {
        crc := if crc & 1 == 1 then (crc >> 1) ^ 0x82F6_3B78 else crc >> 1;
      }
      table := table + [crc];
    }
  }

  function Index(c: bv32): (i: nat)
    ensures i < 256 && i as bv32 == Low(c)
  {
    (c & 0xFF) as nat
  }

  lemma {:induction false} XorDown(c: bv32, b: bv8)
    ensures Down(Xor(c, b as bv32)) == Down(c)
  {}

  lemma {:induction false} TableStep(c: bv32, b: bv8, table: seq<bv32>)
    requires IsTable(table)
    ensures |table| == 256
    ensures Xor(table[Index(Xor(c, b as bv32))], Down(c)) == Absorb(c, b)
  {
    hide Shifts, Xor, Down, Low, Index;
    var x := Xor(c, b as bv32);
    XorDown(c, b);
    ByteStep(x);
    assert table[Index(x)] == Shifts(8, Index(x) as bv32);
  }

  /** The checker's crc32c: with the table it built, the same value on every byte string. */
  method TableCrc(table: seq<bv32>, data: Bytes) returns (crc: bv32)
    requires IsTable(table)
    ensures crc == Crc32c(data)
  {
    hide Absorb, IsTable, Xor, Down, Index;
    crc := ONES;
    for i := 0 to |data|
      invariant crc == Register(ONES, data[..i])
    {
      TableStep(crc, data[i], table);
      crc := Xor(table[Index(Xor(crc, data[i] as bv32))], Down(crc));
      assert data[..i + 1][..i] == data[..i];
    }
    assert data[..|data|] == data;
    crc := Xor(crc, ONES);
  }

  // ------------------------------------------------------------ what it detects

  lemma {:induction false} RegisterAppend(c: bv32, a: Bytes, b: Bytes)
    ensures Register(c, a + b) == Register(Register(c, a), b)
    decreases |b|
  {
    hide Absorb;
    if b == [] {
      assert a + b == a;
    } else {
      var short := b[..|b| - 1];
      assert (a + b)[..|a + b| - 1] == a + short;
      RegisterAppend(c, a, short);
    }
  }

  lemma {:induction false} XorCancels(x: bv32, y: bv32, b: bv32)
    requires Xor(x, b) == Xor(y, b)
    ensures x == y
  {}

  /** The same bytes never bring two different registers together. */
  lemma {:induction false} RegisterInjective(c: bv32, d: bv32, data: Bytes)
    requires Register(c, data) == Register(d, data)
    ensures c == d
    decreases |data|
  {
    hide Shifts, Xor;
    if data != [] {
      var short, b := data[..|data| - 1], data[|data| - 1] as bv32;
      var x, y := Register(c, short), Register(d, short);
      ShiftsInjective(8, Xor(x, b), Xor(y, b));
      XorCancels(x, y, b);
      RegisterInjective(c, d, short);
    }
  }

  /** A byte with `r` above it. */
  function Over(b: bv8, r: bv32): bv32 {
    (b as bv32) | (r << 8)
  }

  /** The little-endian word of four bytes. */
  function Word(b0: bv8, b1: bv8, b2: bv8, b3: bv8): bv32 {
    Over(b0, Over(b1, Over(b2, b3 as bv32)))
  }

  predicate Fits24(r: bv32) { r & 0xFF00_0000 == 0 }

  lemma {:induction false} Peel(c: bv32, b: bv8, rest: bv32)
    requires Low(rest) == 0
    ensures Shifts(8, Xor(Xor(c, b as bv32), rest)) == Xor(Absorb(c, b), Down(rest))
  {
    hide Shifts, Xor, Down, Low;
    ShiftsLinear(8, Xor(c, b as bv32), rest);
    ClearByte(rest);
  }

  lemma {:induction false} OverIsXor(b: bv8, r: bv32)
    requires Fits24(r)
    ensures Over(b, r) == Xor(b as bv32, r << 8)
    ensures Low(r << 8) == 0 && Down(r << 8) == r
  {}

  /** Eight shifts use up the byte at the bottom. */
  lemma {:induction false} OverStep(c: bv32, b: bv8, r: bv32)
    requires Fits24(r)
    ensures Shifts(8, Xor(c, Over(b, r))) == Xor(Absorb(c, b), r)
  {
    hide Shifts, Xor, Down, Low, Absorb, Over, Fits24;
    OverIsXor(b, r);
    XorAssociates(c, b as bv32, r << 8);
    Peel(c, b, r << 8);
  }

  lemma {:induction false} Fitting(b1: bv8, b2: bv8, b3: bv8)
    ensures Fits24(b3 as bv32)
    ensures Fits24(Over(b2, b3 as bv32))
    ensures Fits24(Over(b1, Over(b2, b3 as bv32)))
  {}

  /** Four bytes enter the register as one word: mix it in, then shift 32 times. */
  lemma {:induction false} WordStep(c: bv32, b0: bv8, b1: bv8, b2: bv8, b3: bv8)
    ensures Register(c, [b0, b1, b2, b3]) == Shifts(32, Xor(c, Word(b0, b1, b2, b3)))
  {
    hide Shifts, Register, Xor, Absorb, Over, Fits24;
    var two := Over(b2, b3 as bv32);
    var three := Over(b1, two);
    var whole := Xor(c, Over(b0, three));
    Fitting(b1, b2, b3);
    FourBytes(c, b0, b1, b2, b3);
    OverStep(c, b0, three);
    OverStep(Absorb(c, b0), b1, two);
    OverStep(Absorb(Absorb(c, b0), b1), b2, b3 as bv32);
    LastByte(Absorb(Absorb(Absorb(c, b0), b1), b2), b3);
    ShiftsAdd(8, 8, whole);
    ShiftsAdd(8, 16, whole);
    ShiftsAdd(8, 24, whole);
  }

  lemma {:induction false} LastByte(c: bv32, b: bv8)
    ensures Shifts(8, Xor(c, b as bv32)) == Absorb(c, b)
  {}

  lemma {:induction false} FourBytes(c: bv32, b0: bv8, b1: bv8, b2: bv8, b3: bv8)
    ensures Register(c, [b0, b1, b2, b3]) == Absorb(Absorb(Absorb(Absorb(c, b0), b1), b2), b3)
  {
    hide Absorb;
    assert [b0, b1, b2, b3][..3] == [b0, b1, b2];
    assert [b0, b1, b2][..2] == [b0, b1];
    assert [b0, b1][..1] == [b0];
    assert [b0][..0] == [];
    assert Register(c, [b0]) == Absorb(c, b0);
    assert Register(c, [b0, b1]) == Absorb(Absorb(c, b0), b1);
    assert Register(c, [b0, b1, b2]) == Absorb(Absorb(Absorb(c, b0), b1), b2);
  }

  lemma {:induction false} WordInjective(a0: bv8, a1: bv8, a2: bv8, a3: bv8, b0: bv8, b1: bv8, b2: bv8, b3: bv8)
    requires Word(a0, a1, a2, a3) == Word(b0, b1, b2, b3)
    ensures a0 == b0 && a1 == b1 && a2 == b2 && a3 == b3
  {}

  lemma {:induction false} XorCancelsLeft(c: bv32, x: bv32, y: bv32)
    requires Xor(c, x) == Xor(c, y)
    ensures x == y
  {}

  lemma {:induction false} FourInjective(c: bv32, a: Bytes, b: Bytes)
    requires |a| == |b| == 4
    requires Register(c, a) == Register(c, b)
    ensures a == b
  {
    hide Register, Shifts, Xor, Word;
    assert a == [a[0], a[1], a[2], a[3]];
    assert b == [b[0], b[1], b[2], b[3]];
    WordStep(c, a[0], a[1], a[2], a[3]);
    WordStep(c, b[0], b[1], b[2], b[3]);
    var x, y := Word(a[0], a[1], a[2], a[3]), Word(b[0], b[1], b[2], b[3]);
    ShiftsInjective(32, Xor(c, x), Xor(c, y));
    XorCancelsLeft(c, x, y);
    WordInjective(a[0], a[1], a[2], a[3], b[0], b[1], b[2], b[3]);
  }

  lemma {:induction false} ShortInjective(c: bv32, a: Bytes, b: Bytes)
    requires |a| == |b| <= 4
    requires Register(c, a) == Register(c, b)
    ensures a == b
  {
    hide Register;
    var pad: Bytes := seq(4 - |a|, _ => 0);
    RegisterAppend(c, a, pad);
    RegisterAppend(c, b, pad);
    FourInjective(c, a + pad, b + pad);
    assert a == (a + pad)[..|a|] && b == (b + pad)[..|a|];
  }

  /** Two byte strings that agree outside some window of four bytes. */
  predicate AgreeOutside(a: Bytes, b: Bytes, i: nat, k: nat) {
    && k <= 4
    && i + k <= |a| == |b|
    && a[..i] == b[..i]
    && a[i + k..] == b[i + k..]
  }

  /** A change confined to four neighbouring bytes always changes the checksum. */
  lemma {:induction false} BurstDetected(a: Bytes, b: Bytes, i: nat, k: nat)
    requires AgreeOutside(a, b, i, k)
    requires a != b
    ensures Crc32c(a) != Crc32c(b)
  {
    hide Register, Xor;
    var head, tail := a[..i], a[i + k..];
    var x, y := a[i..i + k], b[i..i + k];
    assert a == head + x + tail && b == head + y + tail;
    RegisterAppend(ONES, head + x, tail);
    RegisterAppend(ONES, head + y, tail);
    RegisterAppend(ONES, head, x);
    RegisterAppend(ONES, head, y);
    if Crc32c(a) == Crc32c(b) {
      XorCancels(Register(ONES, a), Register(ONES, b), ONES);
      RegisterInjective(Register(ONES, head + x), Register(ONES, head + y), tail);
      ShortInjective(Register(ONES, head), x, y);
    }
  }

  // ------------------------------------------------------------ checksum fields

  const FIELD: nat := 4

  function LittleEndian(v: bv32): (b: Bytes)
    ensures |b| == FIELD
  {
    [(v & 0xFF) as bv8, ((v >> 8) & 0xFF) as bv8, ((v >> 16) & 0xFF) as bv8, (v >> 24) as bv8]
  }

  /** The value kept in the four bytes at `at`. */
  function Stored(run: Bytes, at: nat): bv32
    requires at + FIELD <= |run|
  {
    Word(run[at], run[at + 1], run[at + 2], run[at + 3])
  }

  function WithField(run: Bytes, at: nat, field: Bytes): (r: Bytes)
    requires at + FIELD <= |run| && |field| == FIELD
    ensures |r| == |run|
  {
    run[..at] + field + run[at + FIELD..]
  }

  /** The checksum of a run: its own field reads as zero. */
  function Computed(run: Bytes, at: nat): bv32
    requires at + FIELD <= |run|
  {
    Crc32c(WithField(run, at, [0, 0, 0, 0]))
  }

  function Stamped(run: Bytes, at: nat): (r: Bytes)
    requires at + FIELD <= |run|
    ensures |r| == |run|
  {
    WithField(run, at, LittleEndian(Computed(run, at)))
  }

  predicate Sealed(run: Bytes, at: nat) {
    && at + FIELD <= |run|
    && Stored(run, at) == Computed(run, at)
  }

  lemma {:induction false} WordOfBytes(v: bv32)
    ensures Word((v & 0xFF) as bv8, ((v >> 8) & 0xFF) as bv8, ((v >> 16) & 0xFF) as bv8, (v >> 24) as bv8) == v
  {}

  lemma {:induction false} ComputedIgnoresField(run: Bytes, at: nat, field: Bytes)
    requires at + FIELD <= |run| && |field| == FIELD
    ensures Computed(WithField(run, at, field), at) == Computed(run, at)
  {
    hide Crc32c, WithField;
    FieldReplaced(run, at, field, [0, 0, 0, 0]);
  }

  /** Stamping gives a run that checks, changes nothing outside the field, and is
    * the only way a run can check: a run checks exactly when stamping leaves it alone. */
  lemma {:induction false} StampSeals(run: Bytes, at: nat)
    requires at + FIELD <= |run|
    ensures Sealed(Stamped(run, at), at)
    ensures Stamped(run, at)[..at] == run[..at]
    ensures Stamped(run, at)[at + FIELD..] == run[at + FIELD..]
    ensures Stamped(Stamped(run, at), at) == Stamped(run, at)
    ensures Sealed(run, at) <==> Stamped(run, at) == run
  {
    hide Stored, LittleEndian, WithField, Computed;
    var v := Computed(run, at);
    var r := Stamped(run, at);
    ComputedIgnoresField(run, at, LittleEndian(v));
    StoredIs(run, at, v);
    FieldReplaced(run, at, LittleEndian(v), LittleEndian(v));
    if Sealed(run, at) {
      FieldBytes(run, r, at);
    }
  }

  lemma {:induction false} FieldReplaced(run: Bytes, at: nat, field: Bytes, next: Bytes)
    requires at + FIELD <= |run| && |field| == |next| == FIELD
    ensures WithField(WithField(run, at, field), at, next) == WithField(run, at, next)
    ensures WithField(run, at, field)[..at] == run[..at]
    ensures WithField(run, at, field)[at + FIELD..] == run[at + FIELD..]
    ensures forall k :: 0 <= k < FIELD ==> WithField(run, at, field)[at + k] == field[k]
  {}

  lemma {:induction false} StoredIs(run: Bytes, at: nat, v: bv32)
    requires at + FIELD <= |run|
    ensures Stored(WithField(run, at, LittleEndian(v)), at) == v
  {
    hide Word, WithField;
    FieldReplaced(run, at, LittleEndian(v), LittleEndian(v));
    var r := WithField(run, at, LittleEndian(v));
    var b := LittleEndian(v);
    assert r[at + 0] == b[0] && r[at + 1] == b[1] && r[at + 2] == b[2] && r[at + 3] == b[3];
    WordOfBytes(v);
  }

  lemma {:induction false} FieldBytes(a: Bytes, b: Bytes, at: nat)
    requires at + FIELD <= |a| == |b|
    requires a[..at] == b[..at] && a[at + FIELD..] == b[at + FIELD..]
    requires Stored(a, at) == Stored(b, at)
    ensures a == b
  {
    hide Word;
    WordInjective(a[at], a[at + 1], a[at + 2], a[at + 3], b[at], b[at + 1], b[at + 2], b[at + 3]);
    forall j | 0 <= j < |a|
      ensures a[j] == b[j]
    {
      if j < at {
        assert a[j] == a[..at][j] && b[j] == b[..at][j];
      } else if j >= at + FIELD {
        assert a[j] == a[at + FIELD..][j - at - FIELD] && b[j] == b[at + FIELD..][j - at - FIELD];
      }
    }
  }

  lemma {:induction false} WindowOutsideField(run: Bytes, hurt: Bytes, at: nat, i: nat, k: nat)
    requires at + FIELD <= |run| && AgreeOutside(run, hurt, i, k) && run != hurt
    requires i + k <= at || at + FIELD <= i
    ensures Stored(run, at) == Stored(hurt, at)
    ensures AgreeOutside(WithField(run, at, [0, 0, 0, 0]), WithField(hurt, at, [0, 0, 0, 0]), i, k)
    ensures WithField(run, at, [0, 0, 0, 0]) != WithField(hurt, at, [0, 0, 0, 0])
  {
    hide Word;
    AgreeAt(run, hurt, i, k);
    var a, b := WithField(run, at, [0, 0, 0, 0]), WithField(hurt, at, [0, 0, 0, 0]);
    forall j | 0 <= j < |run| && !(i <= j < i + k)
      ensures a[j] == b[j]
    {}
    var j :| 0 <= j < |run| && run[j] != hurt[j];
    assert a[j] != b[j];
  }

  lemma {:induction false} AgreeAt(a: Bytes, b: Bytes, i: nat, k: nat)
    requires AgreeOutside(a, b, i, k)
    ensures forall j :: 0 <= j < |a| && !(i <= j < i + k) ==> a[j] == b[j]
  {
    forall j | 0 <= j < |a| && !(i <= j < i + k)
      ensures a[j] == b[j]
    {
      if j < i {
        assert a[j] == a[..i][j] && b[j] == b[..i][j];
      } else {
        assert a[j] == a[i + k..][j - i - k] && b[j] == b[i + k..][j - i - k];
      }
    }
  }

  /** Damage to a run that checks, confined to four neighbouring bytes on one side
    * of the field's edges, always shows: the run no longer checks. */
  lemma {:induction false} DamageDetected(run: Bytes, hurt: Bytes, at: nat, i: nat, k: nat)
    requires Sealed(run, at)
    requires AgreeOutside(run, hurt, i, k) && run != hurt
    requires i + k <= at || at + FIELD <= i || (at <= i && i + k <= at + FIELD)
    ensures !Sealed(hurt, at)
  {
    hide Crc32c, Word;
    if i + k <= at || at + FIELD <= i {
      WindowOutsideField(run, hurt, at, i, k);
      BurstDetected(WithField(run, at, [0, 0, 0, 0]), WithField(hurt, at, [0, 0, 0, 0]), i, k);
    } else {
      AgreeAt(run, hurt, i, k);
      assert run[..at] == hurt[..at] && run[at + FIELD..] == hurt[at + FIELD..];
      assert WithField(run, at, [0, 0, 0, 0]) == WithField(hurt, at, [0, 0, 0, 0]);
      if Sealed(hurt, at) {
        FieldBytes(run, hurt, at);
      }
    }
  }

  /** Any one byte of a stamped run, its trailer included. */
  lemma {:induction false} OneByteDetected(run: Bytes, at: nat, i: nat, b: bv8)
    requires Sealed(run, at)
    requires i < |run| && b != run[i]
    ensures !Sealed(run[i := b], at)
  {
    hide Sealed;
    var hurt := run[i := b];
    assert hurt[i] != run[i];
    assert AgreeOutside(run, hurt, i, 1);
    DamageDetected(run, hurt, at, i, 1);
  }

  /** The builder's stamp_run_checksum: the trailer is the last four bytes. */
  method StampRunChecksum(run: array<bv8>) returns (value: bv32)
    requires run.Length >= FIELD
    modifies run
    ensures run[..] == Stamped(old(run[..]), run.Length - FIELD)
    ensures value == Stored(run[..], run.Length - FIELD)
    ensures Sealed(run[..], run.Length - FIELD)
  {
    hide Crc32c, Word, Stored, LittleEndian, WithField;
    var offset := run.Length - FIELD;
    ghost var was := run[..];
    PackDword(run, offset, 0);
    ZeroBytes();
    value := BitwiseCrc(run[..]);
    FieldReplaced(was, offset, LittleEndian(0), LittleEndian(value));
    PackDword(run, offset, value);
    StampSeals(was, offset);
    StoredIs(was, offset, value);
  }

  lemma {:induction false} ZeroBytes()
    ensures LittleEndian(0) == [0, 0, 0, 0]
  {}

  /** Packs a little-endian dword in place. */
  method PackDword(run: array<bv8>, at: nat, v: bv32)
    requires at + FIELD <= run.Length
    modifies run
    ensures run[..] == WithField(old(run[..]), at, LittleEndian(v))
  {
    hide LittleEndian;
    ghost var was := run[..];
    var b := LittleEndian(v);
    run[at] := b[0];
    run[at + 1] := b[1];
    run[at + 2] := b[2];
    run[at + 3] := b[3];
    assert run[..] == was[..at] + b + was[at + FIELD..];
  }

  /** The checker's comparison of one region: what is stored against what is recomputed. */
  method Compare(table: seq<bv32>, run: Bytes, at: nat) returns (stored: bv32, computed: bv32)
    requires IsTable(table) && at + FIELD <= |run|
    ensures stored == computed <==> Sealed(run, at)
    ensures stored == Stored(run, at) && computed == Computed(run, at)
  {
    hide Crc32c, Word, IsTable;
    stored := Stored(run, at);
    computed := TableCrc(table, run[..at] + [0, 0, 0, 0] + run[at + FIELD..]);
  }

  /** One more byte of `data`, on known register values. */
  lemma {:induction false} Enter(data: Bytes, i: nat, before: bv32, after: bv32)
    requires i < |data| && Register(ONES, data[..i]) == before
    requires Shift(Shift(Shift(Shift(Shift(Shift(Shift(Shift(Xor(before, data[i] as bv32))))))))) == after
    ensures Register(ONES, data[..i + 1]) == after
  {
    hide Shift, Shifts, Xor;
    EightShifts(Xor(before, data[i] as bv32));
    assert data[..i + 1][..i] == data[..i];
  }

  const NINE_DIGITS: Bytes := [0x31, 0x32, 0x33, 0x34, 0x35, 0x36, 0x37, 0x38, 0x39]

  lemma {:induction false} FirstThreeDigits()
    ensures Register(ONES, NINE_DIGITS[..3]) == 0xEF84_D04D
  {
    hide Shifts;
    Enter(NINE_DIGITS, 0, 0xFFFF_FFFF, 0x6F0A_661C);
    Enter(NINE_DIGITS, 1, 0x6F0A_661C, 0x8CAA_3B9F);
    Enter(NINE_DIGITS, 2, 0x8CAA_3B9F, 0xEF84_D04D);
  }

  lemma {:induction false} FirstSixDigits()
    ensures Register(ONES, NINE_DIGITS[..6]) == 0xBECA_8E79
  {
    hide Shifts;
    FirstThreeDigits();
    Enter(NINE_DIGITS, 3, 0xEF84_D04D, 0x09C5_0B11);
    Enter(NINE_DIGITS, 4, 0x09C5_0B11, 0xE72E_DCCA);
    Enter(NINE_DIGITS, 5, 0xE72E_DCCA, 0xBECA_8E79);
  }

  /** The catalogue value for the nine digits. */
  lemma {:induction false} CatalogueValue()
    ensures Crc32c(NINE_DIGITS) == 0xE306_9283
  {
    hide Shifts;
    FirstSixDigits();
    Enter(NINE_DIGITS, 6, 0xBECA_8E79, 0xEDBD_6815);
    Enter(NINE_DIGITS, 7, 0xEDBD_6815, 0x9F78_7F65);
    Enter(NINE_DIGITS, 8, 0x9F78_7F65, 0x1CF9_6D7C);
    assert NINE_DIGITS[..9] == NINE_DIGITS;
  }
}
