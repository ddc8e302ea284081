/** The Unicode boundary: UTF-8 and UTF-16 as the runtime's codec reads and writes
  * them. Bytes, 16-bit units and code points are bit vectors, so shifts, masks and
  * truncating casts are the machine's.
  *
  * The reference for what is a UTF-8 sequence is the byte grammar of section 4 of
  * RFC 3629; the codec itself decides by prefix bits and by the value decoded. */
module Utf {
  type Byte = bv8
  type Unit = bv16
  type Code = bv32

  const REPLACEMENT: Code := 0xFFFD

  predicate Surrogate(cp: Code) { 0xD800 <= cp <= 0xDFFF }

  predicate Scalar(cp: Code) { cp <= 0x10_FFFF && !Surrogate(cp) }

  // -------------------------------------------------------------- the grammar

  predicate Tail(b: Byte) { 0x80 <= b <= 0xBF }

  predicate Lead3(b0: Byte, b1: Byte) {
    || (b0 == 0xE0 && 0xA0 <= b1 <= 0xBF)
    || (0xE1 <= b0 <= 0xEC && Tail(b1))
    || (b0 == 0xED && 0x80 <= b1 <= 0x9F)
    || (0xEE <= b0 <= 0xEF && Tail(b1))
  }

  predicate Lead4(b0: Byte, b1: Byte) {
    || (b0 == 0xF0 && 0x90 <= b1 <= 0xBF)
    || (0xF1 <= b0 <= 0xF3 && Tail(b1))
    || (b0 == 0xF4 && 0x80 <= b1 <= 0x8F)
  }

  /** The length of the UTF-8 sequence that `t` starts with, 0 when it starts with none. */
  function SequenceLength(t: seq<Byte>): (n: nat)
    ensures n <= |t| && n <= 4
  {
    if |t| >= 1 && t[0] <= 0x7F then 1
    else if |t| >= 2 && 0xC2 <= t[0] <= 0xDF && Tail(t[1]) then 2
    else if |t| >= 3 && Lead3(t[0], t[1]) && Tail(t[2]) then 3
    else if |t| >= 4 && Lead4(t[0], t[1]) && Tail(t[2]) && Tail(t[3]) then 4
    else 0
  }

  function Bits(b: Byte, mask: Byte): Code { (b & mask) as Code }

  /** Six more bits from a continuation byte. */
  function Join(cp: Code, b: Byte): Code { (cp << 6) | Bits(b, 0x3F) }

  function Value2(b0: Byte, b1: Byte): Code { Join(Bits(b0, 0x1F), b1) }

  function Value3(b0: Byte, b1: Byte, b2: Byte): Code { Join(Join(Bits(b0, 0x0F), b1), b2) }

  function Value4(b0: Byte, b1: Byte, b2: Byte, b3: Byte): Code {
    Join(Join(Join(Bits(b0, 0x07), b1), b2), b3)
  }

  function Value(t: seq<Byte>): Code
    requires SequenceLength(t) > 0
  {
    match SequenceLength(t)
    case 1 => t[0] as Code
    case 2 => Value2(t[0], t[1])
    case 3 => Value3(t[0], t[1], t[2])
    case _ => Value4(t[0], t[1], t[2], t[3])
  }

  datatype Point = Point(code: Code, used: nat)

  /** One code point off the front of `t`; anything that is no sequence costs one byte. */
  function Read(t: seq<Byte>): (p: Point)
    requires t != []
    ensures 1 <= p.used <= |t|
  {
    if SequenceLength(t) == 0 then Point(REPLACEMENT, 1)
    else Point(Value(t), SequenceLength(t))
  }

  // -------------------------------------------------------------- the encoder

  function Low8(x: Code): Byte { (x & 0xFF) as Byte }

  function Encode2(cp: Code): seq<Byte> {
    [Low8(0xC0 | (cp >> 6)), Low8(0x80 | (cp & 0x3F))]
  }

  function Encode3(cp: Code): seq<Byte> {
    [Low8(0xE0 | (cp >> 12)), Low8(0x80 | ((cp >> 6) & 0x3F)), Low8(0x80 | (cp & 0x3F))]
  }

  function Encode4(cp: Code): seq<Byte> {
    [Low8(0xF0 | (cp >> 18)), Low8(0x80 | ((cp >> 12) & 0x3F)),
     Low8(0x80 | ((cp >> 6) & 0x3F)), Low8(0x80 | (cp & 0x3F))]
  }

  function Encode(cp: Code): (r: seq<Byte>)
    ensures 1 <= |r| <= 4
  {
    if cp < 0x80 then [Low8(cp)]
    else if cp < 0x800 then Encode2(cp)
    else if cp < 0x1_0000 then Encode3(cp)
    else Encode4(cp)
  }

  // ------------------------------------------------------ grammar and encoder

  lemma {:induction false} Grammar2(b0: Byte, b1: Byte)
    requires 0xC2 <= b0 <= 0xDF && Tail(b1)
    ensures 0x80 <= Value2(b0, b1) < 0x800
    ensures Encode2(Value2(b0, b1)) == [b0, b1]
  {}

  lemma {:induction false} Bytes3(b0: Byte, b1: Byte, b2: Byte, v: Code)
    requires 0xE0 <= b0 <= 0xEF && Tail(b1) && Tail(b2)
    requires v == Value3(b0, b1, b2)
    ensures Low8(0xE0 | (v >> 12)) == b0
    ensures Low8(0x80 | ((v >> 6) & 0x3F)) == b1
    ensures Low8(0x80 | (v & 0x3F)) == b2
  {}

  lemma {:induction false} Range3(b0: Byte, b1: Byte, b2: Byte)
    requires Lead3(b0, b1)
    ensures 0x800 <= Value3(b0, b1, b2) < 0x1_0000 && !Surrogate(Value3(b0, b1, b2))
    ensures 0xE0 <= b0 <= 0xEF && Tail(b1)
  {}

  lemma {:induction false} Grammar3(b0: Byte, b1: Byte, b2: Byte)
    requires Lead3(b0, b1) && Tail(b2)
    ensures 0x800 <= Value3(b0, b1, b2) < 0x1_0000 && !Surrogate(Value3(b0, b1, b2))
    ensures Encode3(Value3(b0, b1, b2)) == [b0, b1, b2]
  {
    hide Value3, Low8, Lead3, Tail;
    Range3(b0, b1, b2);
    Bytes3(b0, b1, b2, Value3(b0, b1, b2));
  }

  lemma {:induction false} Bytes4(b0: Byte, b1: Byte, b2: Byte, b3: Byte, v: Code)
    requires 0xF0 <= b0 <= 0xF7 && Tail(b1) && Tail(b2) && Tail(b3)
    requires v == Value4(b0, b1, b2, b3)
    ensures Low8(0xF0 | (v >> 18)) == b0
    ensures Low8(0x80 | ((v >> 12) & 0x3F)) == b1
    ensures Low8(0x80 | ((v >> 6) & 0x3F)) == b2
    ensures Low8(0x80 | (v & 0x3F)) == b3
  {}

  lemma {:induction false} Range4(b0: Byte, b1: Byte, b2: Byte, b3: Byte)
    requires Lead4(b0, b1)
    ensures 0x1_0000 <= Value4(b0, b1, b2, b3) <= 0x10_FFFF
    ensures 0xF0 <= b0 <= 0xF7 && Tail(b1)
  {}

  lemma {:induction false} Grammar4(b0: Byte, b1: Byte, b2: Byte, b3: Byte)
    requires Lead4(b0, b1) && Tail(b2) && Tail(b3)
    ensures 0x1_0000 <= Value4(b0, b1, b2, b3) <= 0x10_FFFF
    ensures Encode4(Value4(b0, b1, b2, b3)) == [b0, b1, b2, b3]
  {
    hide Value4, Low8, Lead4, Tail;
    Range4(b0, b1, b2, b3);
    Bytes4(b0, b1, b2, b3, Value4(b0, b1, b2, b3));
  }

  /** Every sequence of the grammar is the encoding of its value, a Unicode scalar. */
  lemma {:induction false} SequenceEncodes(t: seq<Byte>)
    requires SequenceLength(t) > 0
    ensures Scalar(Value(t))
    ensures Encode(Value(t)) == t[..SequenceLength(t)]
  {
    hide Value2, Value3, Value4, Encode2, Encode3, Encode4;
    match SequenceLength(t)
    case 1 => assert Encode(t[0] as Code) == [t[0]];
    case 2 => Grammar2(t[0], t[1]);
    case 3 => Grammar3(t[0], t[1], t[2]);
    case _ => Grammar4(t[0], t[1], t[2], t[3]);
  }

  lemma {:induction false} Encoding2(cp: Code)
    requires 0x80 <= cp < 0x800
    ensures var e := Encode2(cp); 0xC2 <= e[0] <= 0xDF && Tail(e[1]) && Value2(e[0], e[1]) == cp
  {}

  lemma {:induction false} Encoding3(cp: Code)
    requires 0x800 <= cp < 0x1_0000 && !Surrogate(cp)
    ensures var e := Encode3(cp); Lead3(e[0], e[1]) && Tail(e[2]) && Value3(e[0], e[1], e[2]) == cp
    ensures var e := Encode3(cp); e[0] >= 0xE0
  {}

  lemma {:induction false} Encoding4(cp: Code)
    requires 0x1_0000 <= cp <= 0x10_FFFF
    ensures var e := Encode4(cp);
            Lead4(e[0], e[1]) && Tail(e[2]) && Tail(e[3]) && Value4(e[0], e[1], e[2], e[3]) == cp
    ensures var e := Encode4(cp); e[0] >= 0xF0
  {}

  /** Reading an encoded scalar gives it back, whatever follows. */
  lemma {:induction false} EncodeReads(cp: Code, rest: seq<Byte>)
    requires Scalar(cp)
    ensures Read(Encode(cp) + rest) == Point(cp, |Encode(cp)|)
  {
    hide Value2, Value3, Value4;
    var t := Encode(cp) + rest;
    if cp < 0x80 {
      assert t[0] == Low8(cp);
    } else if cp < 0x800 {
      Encoding2(cp);
    } else if cp < 0x1_0000 {
      Encoding3(cp);
    } else {
      Encoding4(cp);
    }
  }

  // -------------------------------------------------------------- UTF-16 units

  predicate HighUnit(u: Unit) { 0xD800 <= u <= 0xDBFF }

  predicate LowUnit(u: Unit) { 0xDC00 <= u <= 0xDFFF }

  function Low16(x: Code): Unit { (x & 0xFFFF) as Unit }

  function HighHalf(cp: Code): Unit { Low16(0xD800 + ((cp - 0x1_0000) >> 10)) }

  function LowHalf(cp: Code): Unit { Low16(0xDC00 + ((cp - 0x1_0000) & 0x3FF)) }

  /** A code point in UTF-16: a surrogate pair above the first plane. */
  function Units(cp: Code): (r: seq<Unit>)
    ensures 1 <= |r| <= 2
  {
    if cp > 0xFFFF then [HighHalf(cp), LowHalf(cp)] else [Low16(cp)]
  }

  function Combine(high: Unit, low: Unit): Code {
    0x1_0000 + (((high as Code) - 0xD800) << 10) + ((low as Code) - 0xDC00)
  }

  /** One code point off the front; a surrogate without its partner is replaced. */
  function ReadWide(w: seq<Unit>): (p: Point)
    requires w != []
    ensures 1 <= p.used <= |w|
  {
    if HighUnit(w[0]) then
      if |w| >= 2 && LowUnit(w[1]) then Point(Combine(w[0], w[1]), 2) else Point(REPLACEMENT, 1)
    else if LowUnit(w[0]) then Point(REPLACEMENT, 1)
    else Point(w[0] as Code, 1)
  }

  lemma {:induction false} WidenedUnit(u: Unit)
    ensures HighUnit(u) <==> 0xD800 <= u as Code <= 0xDBFF
    ensures LowUnit(u) <==> 0xDC00 <= u as Code <= 0xDFFF
    ensures u == 0 <==> u as Code == 0
  {}

  lemma {:induction false} NarrowedUnit(x: Code)
    requires x <= 0xFFFF
    ensures Low16(x) as Code == x
  {}

  lemma {:induction false} HalfRanges(cp: Code, high: Code, low: Code)
    requires 0xFFFF < cp <= 0x10_FFFF
    requires high == 0xD800 + ((cp - 0x1_0000) >> 10)
    requires low == 0xDC00 + ((cp - 0x1_0000) & 0x3FF)
    ensures 0xD800 <= high <= 0xDBFF && 0xDC00 <= low <= 0xDFFF
    ensures 0x1_0000 + ((high - 0xD800) << 10) + (low - 0xDC00) == cp
  {}

  lemma {:induction false} PairCombines(cp: Code)
    requires 0xFFFF < cp <= 0x10_FFFF
    ensures HighUnit(HighHalf(cp)) && LowUnit(LowHalf(cp))
    ensures Combine(HighHalf(cp), LowHalf(cp)) == cp
  {
    hide Low16, HighUnit, LowUnit;
    var high, low := 0xD800 + ((cp - 0x1_0000) >> 10), 0xDC00 + ((cp - 0x1_0000) & 0x3FF);
    HalfRanges(cp, high, low);
    NarrowedUnit(high);
    NarrowedUnit(low);
    WidenedUnit(HighHalf(cp));
    WidenedUnit(LowHalf(cp));
  }

  lemma {:induction false} CombineSplits(high: Unit, low: Unit)
    requires HighUnit(high) && LowUnit(low)
    ensures 0xFFFF < Combine(high, low) <= 0x10_FFFF
    ensures HighHalf(Combine(high, low)) == high && LowHalf(Combine(high, low)) == low
  {}

  lemma {:induction false} PlainUnit(cp: Code)
    requires Scalar(cp) && cp <= 0xFFFF
    ensures !HighUnit(Low16(cp)) && !LowUnit(Low16(cp)) && Low16(cp) as Code == cp
  {
    hide Low16, HighUnit, LowUnit;
    NarrowedUnit(cp);
    WidenedUnit(Low16(cp));
  }

  lemma {:induction false} UnitsRead(cp: Code, rest: seq<Unit>)
    requires Scalar(cp)
    ensures ReadWide(Units(cp) + rest) == Point(cp, |Units(cp)|)
  {
    hide Combine, HighHalf, LowHalf, Low16;
    if cp > 0xFFFF {
      PairCombines(cp);
    } else {
      PlainUnit(cp);
    }
  }

  // -------------------------------------------------------------------- decode

  /** A NUL-terminated buffer: nothing beyond the NUL exists, so an index is a proof
    * that the code does not read past it. */
  predicate CString(s: seq<Byte>) {
    && s != []
    && s[|s| - 1] == 0
    && forall i :: 0 <= i < |s| - 1 ==> s[i] != 0
  }

  function Text(s: seq<Byte>): seq<Byte>
    requires s != []
  {
    s[..|s| - 1]
  }

  /** How many continuation bytes a first byte announces; 0 when it announces none. */
  function Announced(b: Byte): (n: nat)
    ensures n <= 3
  {
    if b & 0xE0 == 0xC0 then 1 else if b & 0xF0 == 0xE0 then 2 else if b & 0xF8 == 0xF0 then 3 else 0
  }

  lemma {:induction false} AnnouncedRange(b: Byte)
    ensures Announced(b) == 1 <==> 0xC0 <= b <= 0xDF
    ensures Announced(b) == 2 <==> 0xE0 <= b <= 0xEF
    ensures Announced(b) == 3 <==> 0xF0 <= b <= 0xF7
  {}

  lemma {:induction false} TailBits(b: Byte)
    ensures b & 0xC0 == 0x80 <==> Tail(b)
    ensures Tail(b) ==> b != 0
  {}

  /** A missing continuation byte: no sequence of the grammar starts here. */
  lemma {:induction false} Cut(t: seq<Byte>, i: nat)
    requires t != [] && t[0] >= 0x80 && 1 <= i <= Announced(t[0])
    requires i < |t| ==> !Tail(t[i])
    ensures SequenceLength(t) == 0
  {
    hide Announced;
    AnnouncedRange(t[0]);
  }

  lemma {:induction false} Unannounced(t: seq<Byte>)
    requires t != [] && t[0] >= 0x80 && Announced(t[0]) == 0
    ensures SequenceLength(t) == 0
  {
    hide Announced;
    AnnouncedRange(t[0]);
  }

  /** What the codec refuses by value: overlong forms, surrogates, and what is above Unicode. */
  predicate Refused(need: nat, cp: Code) {
    (need == 2 && cp < 0x800) || (need == 3 && cp < 0x1_0000) || cp > 0x10_FFFF || Surrogate(cp)
  }

  lemma {:induction false} Judge2(b0: Byte, b1: Byte)
    requires 0xC0 <= b0 <= 0xDF
    ensures Bits(b0, 0x1F) < 2 <==> b0 < 0xC2
    ensures !Refused(1, Value2(b0, b1))
  {}

  lemma {:induction false} Judge3(b0: Byte, b1: Byte, b2: Byte)
    requires 0xE0 <= b0 <= 0xEF && Tail(b1) && Tail(b2)
    ensures Refused(2, Value3(b0, b1, b2)) <==> !Lead3(b0, b1)
  {}

  lemma {:induction false} Judge4(b0: Byte, b1: Byte, b2: Byte, b3: Byte)
    requires 0xF0 <= b0 <= 0xF7 && Tail(b1) && Tail(b2) && Tail(b3)
    ensures Refused(3, Value4(b0, b1, b2, b3)) <==> !Lead4(b0, b1)
  {}

  /** The bits gathered after the first byte `b` and the continuation bytes `bs`. */
  function Gathered(cp: Code, bs: seq<Byte>): Code {
    if bs == [] then cp else Join(Gathered(cp, bs[..|bs| - 1]), bs[|bs| - 1])
  }

  lemma {:induction false} GatheredIs(b0: Byte, bs: seq<Byte>)
    ensures |bs| == 1 ==> Gathered(Bits(b0, 0x1F), bs) == Value2(b0, bs[0])
    ensures |bs| == 2 ==> Gathered(Bits(b0, 0x0F), bs) == Value3(b0, bs[0], bs[1])
    ensures |bs| == 3 ==> Gathered(Bits(b0, 0x07), bs) == Value4(b0, bs[0], bs[1], bs[2])
  {
    hide Bits, Join, Gathered;
    if 1 <= |bs| <= 3 {
      var c := Bits(b0, if |bs| == 1 then 0x1F else if |bs| == 2 then 0x0F else 0x07);
      NoGather(c);
      GatherEnd(c, bs[..1]);
      assert bs[..1][..0] == [];
      if |bs| == 1 {
        assert bs[..1] == bs;
      } else {
        GatherEnd(c, bs[..2]);
        assert bs[..2][..1] == bs[..1];
        if |bs| == 2 {
          assert bs[..2] == bs;
        } else {
          GatherEnd(c, bs);
        }
      }
    }
  }

  lemma {:induction false} GatherEnd(cp: Code, bs: seq<Byte>)
    requires bs != []
    ensures Gathered(cp, bs) == Join(Gathered(cp, bs[..|bs| - 1]), bs[|bs| - 1])
  {}

  /** All announced bytes are there: the codec's refusals are exactly the grammar's. */
  lemma {:induction false} Judged(t: seq<Byte>, need: nat, cp: Code)
    requires t != [] && need == Announced(t[0]) && 1 <= need < |t|
    requires forall k :: 1 <= k <= need ==> Tail(t[k])
    requires cp == Gathered(Bits(t[0], if need == 1 then 0x1F else if need == 2 then 0x0F else 0x07), t[1..need + 1])
    requires need == 1 ==> t[0] >= 0xC2
    ensures SequenceLength(t) == 0 <==> Refused(need, cp)
    ensures SequenceLength(t) > 0 ==> SequenceLength(t) == need + 1 && Value(t) == cp
  {
    hide Bits, Value2, Value3, Value4, Refused, Announced, Tail, Lead3, Lead4, Gathered;
    AnnouncedRange(t[0]);
    GatheredIs(t[0], t[1..need + 1]);
    LeadRanges(t);
    if need == 1 {
      Judge2(t[0], t[1]);
    } else if need == 2 {
      Judge3(t[0], t[1], t[2]);
    } else {
      Judge4(t[0], t[1], t[2], t[3]);
    }
  }

  lemma {:induction false} LeadRanges(t: seq<Byte>)
    requires |t| >= 2
    ensures Lead3(t[0], t[1]) ==> 0xE0 <= t[0] <= 0xEF
    ensures Lead4(t[0], t[1]) ==> 0xF0 <= t[0] <= 0xF4
  {}

  /** `mv_utf8_decode`. At the terminator it returns 0; elsewhere exactly one code point
    * of the text, and it never steps over the terminator. */
  method Decode(s: seq<Byte>, at: nat) returns (cp: Code, len: nat)
    requires CString(s) && at < |s|
    ensures at == |s| - 1 ==> cp == 0 && len == 1
    ensures at < |s| - 1 ==> Point(cp, len) == Read(Text(s)[at..]) && at + len <= |s| - 1
  {
    hide Bits, Value, Tail, Lead3, Lead4, Surrogate, SequenceLength, Announced, Gathered, Join;
    ghost var t := Text(s)[at..];
    var b0 := s[at];
    if b0 < 0x80 {
      Ascii(t, at, s);
      return b0 as Code, 1;
    }
    assert t != [] && t[0] == b0;
    var need;
    AnnouncedIs(b0);
    AnnouncedRange(b0);
    if b0 & 0xE0 == 0xC0 {
      cp := Bits(b0, 0x1F);
      need := 1;
      Judge2(b0, 0);
      if cp < 0x02 {
        Overlong2(t);
        return REPLACEMENT, 1;
      }
    } else if b0 & 0xF0 == 0xE0 {
      cp := Bits(b0, 0x0F);
      need := 2;
    } else if b0 & 0xF8 == 0xF0 {
      cp := Bits(b0, 0x07);
      need := 3;
    } else {
      Unannounced(t);
      return REPLACEMENT, 1;
    }
    ghost var lead := cp;
    var i := 1;
    NoGather(lead);
    assert t[1..1] == [];
    while i <= need
      invariant 1 <= i <= need + 1
      invariant i <= |t|
      invariant forall k :: 1 <= k < i ==> Tail(t[k])
      invariant cp == Gathered(lead, t[1..i])
    {
      TailBits(s[at + i]);
      if s[at + i] & 0xC0 != 0x80 {
        Cut(t, i);
        return REPLACEMENT, 1;
      }
      assert at + i < |s| - 1 && t[i] == s[at + i];
      GatherOne(lead, t, i);
      cp := Join(cp, s[at + i]);
      i := i + 1;
    }
    Judged(t, need, cp);
    if (need == 2 && cp < 0x800) || (need == 3 && cp < 0x1_0000) || cp > 0x10_FFFF || Surrogate(cp) {
      return REPLACEMENT, 1;
    }
    len := need + 1;
  }

  lemma {:induction false} Ascii(t: seq<Byte>, at: nat, s: seq<Byte>)
    requires CString(s) && at < |s| && t == Text(s)[at..] && s[at] < 0x80
    ensures at == |s| - 1 ==> s[at] as Code == 0
    ensures at < |s| - 1 ==> Read(t) == Point(s[at] as Code, 1)
  {}

  lemma {:induction false} AnnouncedIs(b: Byte)
    ensures b & 0xE0 == 0xC0 ==> Announced(b) == 1
    ensures b & 0xF0 == 0xE0 ==> Announced(b) == 2
    ensures b & 0xF8 == 0xF0 ==> Announced(b) == 3
    ensures b & 0xE0 != 0xC0 && b & 0xF0 != 0xE0 && b & 0xF8 != 0xF0 ==> Announced(b) == 0
  {}

  lemma {:induction false} Overlong2(t: seq<Byte>)
    requires t != [] && 0xC0 <= t[0] < 0xC2
    ensures SequenceLength(t) == 0
  {}

  lemma {:induction false} NoGather(lead: Code)
    ensures Gathered(lead, []) == lead
  {}

  lemma {:induction false} GatherOne(lead: Code, t: seq<Byte>, i: nat)
    requires 1 <= i < |t|
    ensures Gathered(lead, t[1..i + 1]) == Join(Gathered(lead, t[1..i]), t[i])
  {
    hide Join;
    assert t[1..i + 1][..i - 1] == t[1..i];
  }
}
