/** The byte shapes of an HBX image's tables: little-endian dwords and NUL-terminated
  * names, and how they read back from any place in an image. */
module HbxFormat {
  type Byte = x: int | 0 <= x < 256
  type Name = seq<Byte>

  const LIMIT: int := 0x1_0000_0000

  predicate Proper(n: Name) { 0 !in n }

  function Le4(w: nat): (b: seq<Byte>)
    ensures |b| == 4
  {
    [w % 256, w / 256 % 256, w / 65536 % 256, w / 16777216 % 256]
  }

  function Dword(b: seq<Byte>, at: nat): nat
    requires at + 4 <= |b|
  {
    var b0: int, b1: int, b2: int, b3: int := b[at], b[at + 1], b[at + 2], b[at + 3];
    b0 + 256 * b1 + 65536 * b2 + 16777216 * b3
  }

  lemma {:induction false} Le4Value(w: nat)
    requires w < LIMIT
    ensures w % 256 + 256 * (w / 256 % 256) + 65536 * (w / 65536 % 256) + 16777216 * (w / 16777216 % 256) == w
  {
    var a := w / 256;
    var b := a / 256;
    assert w / 65536 == b;
    var c := b / 256;
    assert w / 16777216 == c && c < 256;
  }

  /** A run of dwords. */
  function Words(ws: seq<nat>): (b: seq<Byte>)
    ensures |b| == 4 * |ws|
  {
    if ws == [] then [] else Words(ws[..|ws| - 1]) + Le4(ws[|ws| - 1])
  }

  lemma {:induction false} WordsAppend(a: seq<nat>, b: seq<nat>)
    ensures Words(a + b) == Words(a) + Words(b)
    decreases |b|
  {
    hide Le4;
    if b == [] {
      assert a + b == a;
    } else {
      var short := b[..|b| - 1];
      assert (a + b)[..|a + b| - 1] == a + short;
      WordsAppend(a, short);
    }
  }

  lemma {:induction false} WordsSlice(ws: seq<nat>, k: nat)
    requires k < |ws|
    ensures Words(ws)[4 * k..4 * k + 4] == Le4(ws[k])
  {
    hide Le4;
    var n := |ws| - 1;
    if k < n {
      WordsSlice(ws[..n], k);
      assert Words(ws)[4 * k..4 * k + 4] == Words(ws[..n])[4 * k..4 * k + 4];
    } else {
      assert Words(ws)[4 * k..4 * k + 4] == Le4(ws[k]);
    }
  }

  /** Word `k` of a run, read from an image that holds the run at `at`. */
  lemma {:induction false} WordReads(image: seq<Byte>, at: nat, ws: seq<nat>, k: nat)
    requires at + 4 * |ws| <= |image| && image[at..at + 4 * |ws|] == Words(ws)
    requires k < |ws| && ws[k] < LIMIT
    ensures at + 4 * k + 4 <= |image| && Dword(image, at + 4 * k) == ws[k]
  {
    hide Words, Le4;
    WordsSlice(ws, k);
    var p := at + 4 * k;
    var run := image[at..at + 4 * |ws|];
    SliceOfSlice(image, at, at + 4 * |ws|, 4 * k, 4 * k + 4);
    assert p + 4 == at + (4 * k + 4);
    Le4Reads(image, p, ws[k]);
  }

  lemma {:induction false} SliceOfSlice(b: seq<Byte>, from: nat, to: nat, i: nat, j: nat)
    requires from <= to <= |b| && i <= j <= to - from
    ensures b[from..to][i..j] == b[from + i..from + j]
  {
    var part := b[from..to];
    var x, y := part[i..j], b[from + i..from + j];
    assert |x| == |y|;
    forall k | 0 <= k < |x|
      ensures x[k] == y[k]
    {
      assert x[k] == part[i + k] == b[from + i + k];
    }
    assert x == y;
  }

  lemma {:induction false} Le4Reads(image: seq<Byte>, p: nat, w: nat)
    requires p + 4 <= |image| && image[p..p + 4] == Le4(w) && w < LIMIT
    ensures Dword(image, p) == w
  {
    Le4Value(w);
    var b := image[p..p + 4];
    assert b[0] == image[p] && b[1] == image[p + 1] && b[2] == image[p + 2] && b[3] == image[p + 3];
  }

  // ------------------------------------------------------------------- names

  /** Names one after another, each with its terminator. */
  function Strings(ns: seq<Name>): seq<Byte> {
    if ns == [] then [] else Strings(ns[..|ns| - 1]) + ns[|ns| - 1] + [0]
  }

  lemma {:induction false} StringsAppend(a: seq<Name>, b: seq<Name>)
    ensures Strings(a + b) == Strings(a) + Strings(b)
    decreases |b|
  {
    if b == [] {
      assert a + b == a;
    } else {
      var short, last := b[..|b| - 1], b[|b| - 1];
      assert (a + b)[..|a + b| - 1] == a + short;
      StringsAppend(a, short);
      assert Strings(a) + Strings(short) + last + [0] == Strings(a) + (Strings(short) + last + [0]);
    }
  }

  /** Where name `k` starts. */
  function Offset(ns: seq<Name>, k: nat): nat
    requires k <= |ns|
  {
    |Strings(ns[..k])|
  }

  lemma {:induction false} StringsSlice(ns: seq<Name>, k: nat)
    requires k < |ns|
    ensures Offset(ns, k) + |ns[k]| + 1 == Offset(ns, k + 1) <= |Strings(ns)|
    ensures Strings(ns)[Offset(ns, k)..Offset(ns, k) + |ns[k]| + 1] == ns[k] + [0]
  {
    var upto := ns[..k + 1];
    assert upto[..k] == ns[..k];
    assert ns == upto + ns[k + 1..];
    StringsAppend(upto, ns[k + 1..]);
    var o := Offset(ns, k);
    assert Strings(upto) == Strings(ns[..k]) + ns[k] + [0];
    assert Strings(ns)[o..o + |ns[k]| + 1] == Strings(upto)[o..o + |ns[k]| + 1];
  }

  /** The first NUL at or after `at`, or -1: what `find` returns. */
  function NulAfter(b: seq<Byte>, at: nat): (z: int)
    ensures z == -1 || (at <= z < |b| && b[z] == 0)
    ensures forall i :: at <= i < (if z == -1 then |b| else z) ==> b[i] != 0
    decreases |b| - at
  {
    if at >= |b| then -1
    else if b[at] == 0 then at
    else NulAfter(b, at + 1)
  }

  /** The name at `at`. Without a terminator the slice runs to -1 and so loses the last byte. */
  function RawName(b: seq<Byte>, at: nat): Name
    requires at < |b|
  {
    var z := NulAfter(b, at);
    if z >= 0 then b[at..z] else b[at..|b| - 1]
  }

  lemma {:induction false} RawNameIs(image: seq<Byte>, at: nat, n: Name)
    requires Proper(n) && at + |n| + 1 <= |image| && image[at..at + |n| + 1] == n + [0]
    ensures at < |image| && RawName(image, at) == n
  {
    var s := image[at..at + |n| + 1];
    forall i | at <= i < at + |n|
      ensures image[i] == n[i - at] && image[i] != 0
    {
      assert s[i - at] == image[i];
    }
    assert s[|n|] == image[at + |n|] == 0;
    FirstNul(image, at, at + |n|);
    assert image[at..at + |n|] == n;
  }

  lemma {:induction false} FirstNul(b: seq<Byte>, at: nat, z: nat)
    requires at <= z < |b| && b[z] == 0
    requires forall i :: at <= i < z ==> b[i] != 0
    ensures NulAfter(b, at) == z
    decreases z - at
  {
    if at < z {
      FirstNul(b, at + 1, z);
    }
  }

  /** Name `k` of a run of names, read from an image that holds the run at `at`. */
  lemma {:induction false} NameReads(image: seq<Byte>, at: nat, ns: seq<Name>, k: nat)
    requires at + |Strings(ns)| <= |image| && image[at..at + |Strings(ns)|] == Strings(ns)
    requires k < |ns| && Proper(ns[k])
    ensures at + Offset(ns, k) < |image| && RawName(image, at + Offset(ns, k)) == ns[k]
  {
    hide Strings, Offset;
    StringsSlice(ns, k);
    var o := Offset(ns, k);
    var run := image[at..at + |Strings(ns)|];
    assert image[at + o..at + o + |ns[k]| + 1] == run[o..o + |ns[k]| + 1];
    RawNameIs(image, at + o, ns[k]);
  }

  // ------------------------------------------------------------------- pairs

  datatype Pair = Pair(first: nat, second: nat)

  function Pairs(ps: seq<Pair>): (ws: seq<nat>)
    ensures |ws| == 2 * |ps|
  {
    if ps == [] then [] else Pairs(ps[..|ps| - 1]) + [ps[|ps| - 1].first, ps[|ps| - 1].second]
  }

  lemma {:induction false} PairAt(ps: seq<Pair>, k: nat)
    requires k < |ps|
    ensures Pairs(ps)[2 * k] == ps[k].first && Pairs(ps)[2 * k + 1] == ps[k].second
  {
    var n := |ps| - 1;
    if k < n {
      PairAt(ps[..n], k);
    }
  }
}
