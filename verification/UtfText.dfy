/** Whole strings across the Unicode boundary: what the conversions write, when they
  * stop, and which strings survive the crossing in both directions. */
module UtfText {
  import opened Utf

  // -------------------------------------------------------------- code points

  /** The code points of a text in UTF-8, malformed bytes replaced one by one. */
  function Points(t: seq<Byte>): seq<Code>
    decreases |t|
  {
    if t == [] then [] else [Read(t).code] + Points(t[Read(t).used..])
  }

  /** The code points of a text in UTF-16, lone surrogates replaced. */
  function WidePoints(w: seq<Unit>): seq<Code>
    decreases |w|
  {
    if w == [] then [] else [ReadWide(w).code] + WidePoints(w[ReadWide(w).used..])
  }

  function Narrow(ps: seq<Code>): seq<Byte> {
    if ps == [] then [] else Narrow(ps[..|ps| - 1]) + Encode(ps[|ps| - 1])
  }

  function Wide(ps: seq<Code>): seq<Unit> {
    if ps == [] then [] else Wide(ps[..|ps| - 1]) + Units(ps[|ps| - 1])
  }

  predicate Scalars(ps: seq<Code>) {
    forall i :: 0 <= i < |ps| ==> Scalar(ps[i])
  }

  /** A text that is sequences of the grammar from end to end. */
  predicate WellFormed(t: seq<Byte>)
    decreases |t|
  {
    t == [] || (SequenceLength(t) > 0 && WellFormed(t[SequenceLength(t)..]))
  }

  /** A UTF-16 text without lone surrogates. */
  predicate Paired(w: seq<Unit>)
    decreases |w|
  {
    || w == []
    || (HighUnit(w[0]) && |w| >= 2 && LowUnit(w[1]) && Paired(w[2..]))
    || (!HighUnit(w[0]) && !LowUnit(w[0]) && Paired(w[1..]))
  }

  // ------------------------------------------------------------- one at a time

  lemma {:induction false} NarrowCons(p: Code, ps: seq<Code>)
    ensures Narrow([p] + ps) == Encode(p) + Narrow(ps)
    decreases |ps|
  {
    hide Encode;
    var all := [p] + ps;
    if ps == [] {
      assert all[..0] == [] && Narrow(all) == [] + Encode(p);
    } else {
      assert all[..|all| - 1] == [p] + ps[..|ps| - 1];
      NarrowCons(p, ps[..|ps| - 1]);
    }
  }

  lemma {:induction false} WideCons(p: Code, ps: seq<Code>)
    ensures Wide([p] + ps) == Units(p) + Wide(ps)
    decreases |ps|
  {
    hide Units;
    var all := [p] + ps;
    if ps == [] {
      assert all[..0] == [] && Wide(all) == [] + Units(p);
    } else {
      assert all[..|all| - 1] == [p] + ps[..|ps| - 1];
      WideCons(p, ps[..|ps| - 1]);
    }
  }

  lemma {:induction false} NarrowNext(ps: seq<Code>, k: nat)
    requires k < |ps|
    ensures Narrow(ps[..k + 1]) == Narrow(ps[..k]) + Encode(ps[k])
  {
    hide Encode;
    assert ps[..k + 1][..k] == ps[..k];
  }

  lemma {:induction false} WideNext(ps: seq<Code>, k: nat)
    requires k < |ps|
    ensures Wide(ps[..k + 1]) == Wide(ps[..k]) + Units(ps[k])
  {
    hide Units;
    assert ps[..k + 1][..k] == ps[..k];
  }

  lemma {:induction false} NarrowGrows(ps: seq<Code>, k: nat, m: nat)
    requires k <= m <= |ps|
    ensures |Narrow(ps[..k])| + (m - k) <= |Narrow(ps[..m])|
    decreases m
  {
    hide Encode, Narrow;
    if k < m {
      NarrowGrows(ps, k, m - 1);
      NarrowNext(ps, m - 1);
    }
  }

  lemma {:induction false} WideGrows(ps: seq<Code>, k: nat, m: nat)
    requires k <= m <= |ps|
    ensures |Wide(ps[..k])| + (m - k) <= |Wide(ps[..m])|
    decreases m
  {
    hide Units, Wide;
    if k < m {
      WideGrows(ps, k, m - 1);
      WideNext(ps, m - 1);
    }
  }

  // ------------------------------------------------------ what is read is there

  lemma {:induction false} ReadScalar(t: seq<Byte>)
    requires t != []
    ensures Scalar(Read(t).code)
    ensures SequenceLength(t) > 0 ==> Encode(Read(t).code) == t[..Read(t).used]
    ensures t[0] != 0 ==> Read(t).code != 0
  {
    hide Value, Encode, SequenceLength;
    if SequenceLength(t) > 0 {
      SequenceEncodes(t);
      EncodeZero(Read(t).code);
    }
  }

  lemma {:induction false} EncodeZero(cp: Code)
    ensures cp == 0 ==> Encode(cp) == [0]
    ensures Scalar(cp) && cp != 0 ==> 0 !in Encode(cp)
  {
    if 0 < cp < 0x80 {
      assert Low8(cp) != 0;
    } else if 0x80 <= cp < 0x800 {
      Encoding2(cp);
    } else if 0x800 <= cp < 0x1_0000 && Scalar(cp) {
      Encoding3(cp);
    } else if 0x1_0000 <= cp && Scalar(cp) {
      Encoding4(cp);
    }
  }

  lemma {:induction false} PointsScalar(t: seq<Byte>)
    ensures Scalars(Points(t))
    ensures 0 !in t ==> 0 !in Points(t)
    decreases |t|
  {
    hide Read, Scalar;
    if t != [] {
      ReadScalar(t);
      PointsScalar(t[Read(t).used..]);
    }
  }

  lemma {:induction false} ReadWideScalar(w: seq<Unit>)
    requires w != []
    ensures Scalar(ReadWide(w).code)
    ensures w[0] != 0 ==> ReadWide(w).code != 0
  {
    hide Combine;
    WidenedUnit(w[0]);
    if HighUnit(w[0]) && |w| >= 2 && LowUnit(w[1]) {
      CombineSplits(w[0], w[1]);
    } else if !HighUnit(w[0]) && !LowUnit(w[0]) {
      UnitBelow(w[0]);
    }
  }

  lemma {:induction false} UnitBelow(u: Unit)
    ensures u as Code <= 0xFFFF
  {}

  lemma {:induction false} WidePointsScalar(w: seq<Unit>)
    ensures Scalars(WidePoints(w))
    ensures 0 !in w ==> 0 !in WidePoints(w)
    decreases |w|
  {
    hide ReadWide, Scalar;
    if w != [] {
      ReadWideScalar(w);
      WidePointsScalar(w[ReadWide(w).used..]);
    }
  }

  // -------------------------------------------------------------- round trips

  lemma {:induction false} Front(ps: seq<Code>)
    requires ps != []
    ensures ps == [ps[0]] + ps[1..]
  {}

  lemma {:induction false} PointsOfNarrow(ps: seq<Code>)
    requires Scalars(ps)
    ensures Points(Narrow(ps)) == ps
  {
    hide Read, Encode, Scalar, Narrow;
    if ps == [] {
      NothingNarrow();
    } else {
      var e, rest := Encode(ps[0]), Narrow(ps[1..]);
      Front(ps);
      NarrowCons(ps[0], ps[1..]);
      PointsOfNarrow(ps[1..]);
      EncodeReads(ps[0], rest);
      assert (e + rest)[|e|..] == rest;
    }
  }

  lemma {:induction false} PointsOfWide(ps: seq<Code>)
    requires Scalars(ps)
    ensures WidePoints(Wide(ps)) == ps
  {
    hide ReadWide, Units, Scalar, Wide;
    if ps == [] {
      NothingNarrow();
    } else {
      var e, rest := Units(ps[0]), Wide(ps[1..]);
      Front(ps);
      WideCons(ps[0], ps[1..]);
      PointsOfWide(ps[1..]);
      UnitsRead(ps[0], rest);
      assert (e + rest)[|e|..] == rest;
    }
  }

  lemma {:induction false} NothingNarrow()
    ensures Narrow([]) == [] && Wide([]) == []
  {}

  lemma {:induction false} Prefixed<T>(a: seq<T>, b: seq<T>, t: seq<T>)
    requires |a| <= |t| && a == t[..|a|]
    ensures a + b == t <==> b == t[|a|..]
  {
    assert t == t[..|a|] + t[|a|..];
    assert (a + b)[|a|..] == b;
  }

  /** Decoding and encoding again gives the text back exactly when it was well formed. */
  lemma {:induction false} NarrowOfPoints(t: seq<Byte>)
    ensures Narrow(Points(t)) == t <==> WellFormed(t)
    decreases |t|
  {
    hide Read, Encode, Scalar, Narrow, SequenceLength;
    if t == [] {
      NothingNarrow();
    } else {
      var p := Read(t);
      var rest := t[p.used..];
      NarrowCons(p.code, Points(rest));
      NarrowOfPoints(rest);
      ReadScalar(t);
      ReadIs(t);
      if SequenceLength(t) > 0 {
        Prefixed(Encode(p.code), Narrow(Points(rest)), t);
      } else {
        EncodeReads(p.code, Narrow(Points(rest)));
        LongReplacement();
      }
    }
  }

  lemma {:induction false} ReadIs(t: seq<Byte>)
    requires t != []
    ensures SequenceLength(t) > 0 ==> Read(t).used == SequenceLength(t)
    ensures SequenceLength(t) == 0 ==> Read(t) == Point(REPLACEMENT, 1)
  {}

  lemma {:induction false} LongReplacement()
    ensures |Encode(REPLACEMENT)| == 3
    ensures Units(REPLACEMENT) == [0xFFFD]
  {}

  lemma {:induction false} WideOfPoints(w: seq<Unit>)
    ensures Wide(WidePoints(w)) == w <==> Paired(w)
    decreases |w|
  {
    hide Units, Scalar, Wide, HighUnit, LowUnit, Combine;
    if w == [] {
      NothingNarrow();
    } else {
      var p := ReadWide(w);
      var rest := w[p.used..];
      WideCons(p.code, WidePoints(rest));
      WideOfPoints(rest);
      UnitsOfRead(w);
      if Lone(w) {
        LongReplacement();
        assert Wide(WidePoints(w))[0] == 0xFFFD;
      } else {
        Prefixed(Units(p.code), Wide(WidePoints(rest)), w);
      }
    }
  }

  /** The text starts with a surrogate that has no partner. */
  predicate Lone(w: seq<Unit>)
    requires w != []
  {
    LowUnit(w[0]) || (HighUnit(w[0]) && !(|w| >= 2 && LowUnit(w[1])))
  }

  lemma {:induction false} UnitsOfRead(w: seq<Unit>)
    requires w != []
    ensures !Lone(w) ==> Units(ReadWide(w).code) == w[..ReadWide(w).used]
    ensures Lone(w) ==> ReadWide(w) == Point(REPLACEMENT, 1) && w[0] != 0xFFFD
    ensures HighUnit(w[0]) ==> !LowUnit(w[0])
  {
    hide Combine, HighHalf, LowHalf;
    if HighUnit(w[0]) && |w| >= 2 && LowUnit(w[1]) {
      CombineSplits(w[0], w[1]);
    } else if !HighUnit(w[0]) && !LowUnit(w[0]) {
      SingleUnit(w[0]);
    }
  }

  lemma {:induction false} SingleUnit(u: Unit)
    ensures Units(u as Code) == [u]
  {
    UnitBelow(u);
  }

  /** UTF-8 to UTF-16 and back is the identity exactly on well-formed text. */
  lemma {:induction false} CrossingFromUtf8(t: seq<Byte>)
    ensures Narrow(WidePoints(Wide(Points(t)))) == t <==> WellFormed(t)
  {
    PointsScalar(t);
    PointsOfWide(Points(t));
    NarrowOfPoints(t);
  }

  /** UTF-16 to UTF-8 and back is the identity exactly on text without lone surrogates. */
  lemma {:induction false} CrossingFromUtf16(w: seq<Unit>)
    ensures Wide(Points(Narrow(WidePoints(w)))) == w <==> Paired(w)
  {
    WidePointsScalar(w);
    PointsOfNarrow(WidePoints(w));
    WideOfPoints(w);
  }

  /** The well-formed texts are exactly the encodings of scalars. */
  lemma {:induction false} WellFormedIsEncoded(t: seq<Byte>)
    ensures WellFormed(t) <==> exists ps :: Scalars(ps) && t == Narrow(ps)
  {
    NarrowOfPoints(t);
    PointsScalar(t);
    if WellFormed(t) {
      assert Scalars(Points(t)) && t == Narrow(Points(t));
    }
    if ps :| Scalars(ps) && t == Narrow(ps) {
      PointsOfNarrow(ps);
    }
  }

  // ------------------------------------------------------------- NUL-free output

  lemma {:induction false} UnitsZero(cp: Code)
    requires Scalar(cp) && cp != 0
    ensures 0 !in Units(cp)
  {
    hide Combine, HighHalf, LowHalf, Low16;
    if cp > 0xFFFF {
      PairCombines(cp);
    } else {
      PlainUnit(cp);
    }
  }

  lemma {:induction false} WideHasNoZero(ps: seq<Code>)
    requires Scalars(ps) && 0 !in ps
    ensures 0 !in Wide(ps)
  {
    hide Units, Scalar;
    if ps != [] {
      WideHasNoZero(ps[..|ps| - 1]);
      UnitsZero(ps[|ps| - 1]);
    }
  }

  lemma {:induction false} NarrowHasNoZero(ps: seq<Code>)
    requires Scalars(ps) && 0 !in ps
    ensures 0 !in Narrow(ps)
  {
    hide Encode, Scalar;
    if ps != [] {
      NarrowHasNoZero(ps[..|ps| - 1]);
      EncodeZero(ps[|ps| - 1]);
    }
  }

  // ------------------------------------------------------------ the conversions

  lemma {:induction false} PointsStep(t: seq<Byte>, at: nat, ps: seq<Code>, k: nat)
    requires at < |t| && k <= |ps| && Points(t[at..]) == ps[k..]
    ensures k < |ps| && Read(t[at..]).code == ps[k]
    ensures at + Read(t[at..]).used <= |t|
    ensures Points(t[at + Read(t[at..]).used..]) == ps[k + 1..]
  {
    hide Read;
    var used := Read(t[at..]).used;
    assert t[at..][used..] == t[at + used..];
    assert ps[k] == ps[k..][0] && ps[k..][1..] == ps[k + 1..];
  }

  lemma {:induction false} WidePointsStep(w: seq<Unit>, at: nat, ps: seq<Code>, k: nat)
    requires at < |w| && k <= |ps| && WidePoints(w[at..]) == ps[k..]
    ensures k < |ps| && ReadWide(w[at..]).code == ps[k]
    ensures at + ReadWide(w[at..]).used <= |w|
    ensures WidePoints(w[at + ReadWide(w[at..]).used..]) == ps[k + 1..]
  {
    hide ReadWide;
    var used := ReadWide(w[at..]).used;
    assert w[at..][used..] == w[at + used..];
    assert ps[k] == ps[k..][0] && ps[k..][1..] == ps[k + 1..];
  }

  /** `mv_utf16_len`: the units the whole text needs. */
  method Utf16Len(s: seq<Byte>) returns (units: nat)
    requires CString(s)
    ensures units == |Wide(Points(Text(s)))|
  {
    hide Read, Wide, Points;
    ghost var t := Text(s);
    ghost var ps := Points(t);
    ghost var k := 0;
    var at := 0;
    units := 0;
    NothingNarrow();
    assert t[0..] == t && ps[0..] == ps && ps[..0] == [];
    while s[at] != 0
      invariant at <= |t| && k <= |ps|
      invariant Points(t[at..]) == ps[k..]
      invariant units == |Wide(ps[..k])|
      decreases |t| - at
    {
      PointsStep(t, at, ps, k);
      WideNext(ps, k);
      var cp, used := Decode(s, at);
      at := at + used;
      units := units + (if cp > 0xFFFF then 2 else 1);
      k := k + 1;
    }
    NoPoints(t[at..]);
    assert ps[..k] == ps;
  }

  lemma {:induction false} NoPoints(t: seq<Byte>)
    requires t == []
    ensures Points(t) == []
  {}

  /** The first `k` code points are the most that fit in `cap` units with a terminator. */
  ghost predicate WideFits(ps: seq<Code>, k: nat, cap: nat) {
    && k <= |ps|
    && (k > 0 ==> |Wide(ps[..k])| < cap)
    && forall m :: k < m <= |ps| ==> |Wide(ps[..m])| >= cap
  }

  ghost predicate NarrowFits(ps: seq<Code>, k: nat, cap: nat) {
    && k <= |ps|
    && (k > 0 ==> |Narrow(ps[..k])| < cap)
    && forall m :: k < m <= |ps| ==> |Narrow(ps[..m])| >= cap
  }

  lemma {:induction false} WideStops(ps: seq<Code>, k: nat, cap: nat)
    requires k <= |ps| && (k > 0 ==> |Wide(ps[..k])| < cap)
    requires k < |ps| ==> |Wide(ps[..k])| + |Units(ps[k])| >= cap
    ensures WideFits(ps, k, cap)
  {
    hide Wide, Units;
    forall m | k < m <= |ps|
      ensures |Wide(ps[..m])| >= cap
    {
      WideNext(ps, k);
      WideGrows(ps, k + 1, m);
    }
  }

  lemma {:induction false} NarrowStops(ps: seq<Code>, k: nat, cap: nat)
    requires k <= |ps| && (k > 0 ==> |Narrow(ps[..k])| < cap)
    requires k < |ps| ==> |Narrow(ps[..k])| + |Encode(ps[k])| >= cap
    ensures NarrowFits(ps, k, cap)
  {
    hide Narrow, Encode;
    forall m | k < m <= |ps|
      ensures |Narrow(ps[..m])| >= cap
    {
      NarrowNext(ps, k);
      NarrowGrows(ps, k + 1, m);
    }
  }

  lemma {:induction false} UnitCount()
    ensures forall cp {:trigger Units(cp)} :: |Units(cp)| == if cp > 0xFFFF then 2 else 1
  {}

  /** Both halves of a pair. */
  method PutPair(cp: Code, out: array<Unit>, at: nat)
    requires cp > 0xFFFF && at + 2 <= out.Length
    modifies out
    ensures out[..at + 2] == old(out[..at]) + Units(cp)
    ensures forall q :: at + 2 <= q < out.Length ==> out[q] == old(out[q])
  {
    hide HighHalf, LowHalf;
    out[at] := HighHalf(cp);
    out[at + 1] := LowHalf(cp);
    assert out[..at + 2] == old(out[..at]) + [HighHalf(cp), LowHalf(cp)];
  }

  method PutSingle(cp: Code, out: array<Unit>, at: nat)
    requires cp <= 0xFFFF && at + 1 <= out.Length
    modifies out
    ensures out[..at + 1] == old(out[..at]) + Units(cp)
    ensures forall q :: at + 1 <= q < out.Length ==> out[q] == old(out[q])
  {
    hide Low16;
    out[at] := Low16(cp);
    assert out[..at + 1] == old(out[..at]) + [Low16(cp)];
  }

  /** `mv_utf8_to_utf16`: writes the longest run of whole code points that fits, then a
    * terminator, and nothing else of the buffer. */
  method Utf8ToUtf16(s: seq<Byte>, out: array<Unit>, cap: nat) returns (written: nat, ghost k: nat)
    requires CString(s) && cap <= out.Length
    modifies out
    ensures WideFits(Points(Text(s)), k, cap)
    ensures written <= out.Length && out[..written] == Wide(Points(Text(s))[..k])
    ensures cap > 0 ==> written < cap && out[written] == 0
    ensures forall q :: written + (if cap > 0 then 1 else 0) <= q < out.Length ==> out[q] == old(out[q])
    ensures |Wide(Points(Text(s)))| < cap ==> written == |Wide(Points(Text(s)))|
  {
    hide Read, Wide, Points, Units;
    UnitCount();
    ghost var t := Text(s);
    ghost var ps := Points(t);
    var at := 0;
    written, k := 0, 0;
    NothingNarrow();
    assert t[0..] == t && ps[0..] == ps && ps[..0] == [];
    while s[at] != 0
      invariant at <= |t| && k <= |ps|
      invariant Points(t[at..]) == ps[k..]
      invariant written == |Wide(ps[..k])|
      invariant written <= out.Length && (k == 0 || written < cap)
      invariant out[..written] == Wide(ps[..k])
      invariant forall q :: written <= q < out.Length ==> out[q] == old(out[q])
      decreases |t| - at
    {
      PointsStep(t, at, ps, k);
      WideNext(ps, k);
      var cp, used := Decode(s, at);
      if cp > 0xFFFF {
        if written + 2 >= cap {
          break;
        }
        PutPair(cp, out, written);
        written := written + 2;
      } else {
        if written + 1 >= cap {
          break;
        }
        PutSingle(cp, out, written);
        written := written + 1;
      }
      at := at + used;
      k := k + 1;
    }
    if s[at] == 0 {
      NoPoints(t[at..]);
    }
    WideStops(ps, k, cap);
    assert ps[..|ps|] == ps;
    ghost var done := out[..written];
    if cap != 0 {
      out[written] := 0;
    }
    assert out[..written] == done;
  }

  predicate CWide(w: seq<Unit>) {
    && w != []
    && w[|w| - 1] == 0
    && forall i :: 0 <= i < |w| - 1 ==> w[i] != 0
  }

  lemma {:induction false} ReadsAhead(t: seq<Unit>, a: Unit, b: Unit)
    requires t != [] && t[0] == a && (|t| >= 2 ==> t[1] == b) && (|t| < 2 ==> !LowUnit(b))
    ensures HighUnit(a) && LowUnit(b) ==> ReadWide(t) == Point(Combine(a, b), 2)
    ensures HighUnit(a) && !LowUnit(b) ==> ReadWide(t) == Point(REPLACEMENT, 1)
    ensures !HighUnit(a) && LowUnit(a) ==> ReadWide(t) == Point(REPLACEMENT, 1)
    ensures !HighUnit(a) && !LowUnit(a) ==> ReadWide(t) == Point(a as Code, 1)
  {
    hide Combine, HighUnit, LowUnit;
  }

  lemma {:induction false} NulIsPlain(u: Unit)
    requires u == 0
    ensures !LowUnit(u)
  {}

  lemma {:induction false} Ahead(w: seq<Unit>, at: nat)
    requires CWide(w) && at < |w| - 1
    ensures w[at..|w| - 1][0] == w[at]
    ensures at + 1 < |w| - 1 ==> w[at..|w| - 1][1] == w[at + 1]
    ensures at + 1 == |w| - 1 ==> !LowUnit(w[at + 1])
  {
    hide LowUnit;
    if at + 1 == |w| - 1 {
      NulIsPlain(w[at + 1]);
    }
  }

  /** One code point of a NUL-terminated wide string: looks one unit ahead, never past the NUL. */
  method ReadUnit(w: seq<Unit>, at: nat) returns (cp: Code, used: nat)
    requires CWide(w) && at < |w| - 1
    ensures Point(cp, used) == ReadWide(w[at..|w| - 1])
  {
    hide Combine, HighUnit, LowUnit, ReadWide, CWide;
    Ahead(w, at);
    var unit := w[at];
    ReadsAhead(w[at..|w| - 1], unit, w[at + 1]);
    used := 1;
    if HighUnit(unit) {
      var low := w[at + 1];
      if LowUnit(low) {
        used := 2;
        cp := Combine(unit, low);
      } else {
        cp := REPLACEMENT;
      }
    } else if LowUnit(unit) {
      cp := REPLACEMENT;
    } else {
      cp := unit as Code;
    }
  }

  /** `mv_utf16_to_utf8`, with the same promise in the other direction. */
  method Utf16ToUtf8(w: seq<Unit>, out: array<Byte>, cap: nat) returns (written: nat, ghost k: nat)
    requires CWide(w) && cap <= out.Length
    modifies out
    ensures NarrowFits(WidePoints(w[..|w| - 1]), k, cap)
    ensures written <= out.Length && out[..written] == Narrow(WidePoints(w[..|w| - 1])[..k])
    ensures cap > 0 ==> written < cap && out[written] == 0
    ensures forall q :: written + (if cap > 0 then 1 else 0) <= q < out.Length ==> out[q] == old(out[q])
    ensures |Narrow(WidePoints(w[..|w| - 1]))| < cap ==> written == |Narrow(WidePoints(w[..|w| - 1]))|
  {
    hide ReadWide, Narrow, WidePoints, Encode;
    ghost var t := w[..|w| - 1];
    ghost var ps := WidePoints(t);
    var at := 0;
    written, k := 0, 0;
    NothingNarrow();
    assert t[0..] == t && ps[0..] == ps && ps[..0] == [];
    while w[at] != 0
      invariant at <= |t| && k <= |ps|
      invariant WidePoints(t[at..]) == ps[k..]
      invariant written == |Narrow(ps[..k])|
      invariant written <= out.Length && (k == 0 || written < cap)
      invariant out[..written] == Narrow(ps[..k])
      invariant forall q :: written <= q < out.Length ==> out[q] == old(out[q])
      decreases |t| - at
    {
      WidePointsStep(t, at, ps, k);
      NarrowNext(ps, k);
      assert w[at..|w| - 1] == t[at..];
      var cp, used := ReadUnit(w, at);
      var buf := Encode(cp);
      if written + |buf| >= cap {
        break;
      }
      CopyBytes(buf, out, written);
      written := written + |buf|;
      at := at + used;
      k := k + 1;
    }
    if w[at] == 0 {
      NoWidePoints(t[at..]);
    }
    NarrowStops(ps, k, cap);
    assert ps[..|ps|] == ps;
    ghost var done := out[..written];
    if cap != 0 {
      out[written] := 0;
    }
    assert out[..written] == done;
  }

  lemma {:induction false} NoWidePoints(w: seq<Unit>)
    requires w == []
    ensures WidePoints(w) == []
  {}

  method CopyBytes(buf: seq<Byte>, out: array<Byte>, at: nat)
    requires at + |buf| <= out.Length
    modifies out
    ensures out[..at + |buf|] == old(out[..at]) + buf
    ensures forall q :: at + |buf| <= q < out.Length ==> out[q] == old(out[q])
  {
    for i := 0 to |buf|
      invariant out[..at + i] == old(out[..at]) + buf[..i]
      invariant forall q :: at + i <= q < out.Length ==> out[q] == old(out[q])
    {
      out[at + i] := buf[i];
      assert out[..at + i + 1] == out[..at + i] + [buf[i]];
    }
    assert buf[..|buf|] == buf;
  }

  lemma {:induction false} FullFit(ps: seq<Code>, k: nat, cap: nat)
    requires cap > 0
    ensures WideFits(ps, k, cap) && |Wide(ps)| < cap ==> k == |ps|
    ensures NarrowFits(ps, k, cap) && |Narrow(ps)| < cap ==> k == |ps|
  {
    hide Wide, Narrow;
    assert ps[..|ps|] == ps;
  }

  lemma {:induction false} TextHasNoZero(s: seq<Byte>)
    requires CString(s)
    ensures 0 !in Text(s)
  {}

  /** With room in both buffers, a well-formed string comes back from UTF-16 byte for
    * byte, terminator included. */
  method ThereAndBack(s: seq<Byte>, wide: array<Unit>, out: array<Byte>) returns (written: nat)
    requires CString(s) && WellFormed(Text(s))
    requires |Wide(Points(Text(s)))| < wide.Length && |Text(s)| < out.Length
    modifies wide, out
    ensures written == |Text(s)| && out[..written + 1] == s
  {
    hide Wide, Points, WidePoints, Narrow, WellFormed, WideFits, NarrowFits, Scalars;
    ghost var ps := Points(Text(s));
    var units, k := Utf8ToUtf16(s, wide, wide.Length);
    FullFit(ps, k, wide.Length);
    assert ps[..k] == ps;
    PointsScalar(Text(s));
    TextHasNoZero(s);
    WideHasNoZero(ps);
    var w := wide[..units + 1];
    assert w[..|w| - 1] == Wide(ps);
    assert forall i :: 0 <= i < |w| - 1 ==> w[i] == Wide(ps)[i];
    PointsOfWide(ps);
    NarrowOfPoints(Text(s));
    ghost var m;
    written, m := Utf16ToUtf8(w, out, out.Length);
    FullFit(ps, m, out.Length);
    assert ps[..m] == ps;
    assert out[..written + 1] == Text(s) + [0];
  }
}
