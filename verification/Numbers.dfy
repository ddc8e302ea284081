/** Printing a number with the runtime's printf and reading it back with strtol or
  * strtoul. Machine words are integers with the wrap-around written out. */
module Numbers {
  const TWO_32: int := 0x1_0000_0000
  const TWO_31: int := 0x8000_0000

  type Word = x: int | 0 <= x < TWO_32
  type Signed = x: int | -TWO_31 <= x < TWO_31

  function ToSigned(x: Word): Signed { if x < TWO_31 then x else x - TWO_32 }

  function ToWord(x: int): Word { x % TWO_32 }

  // ------------------------------------------------------------------- digits

  predicate PrintBase(base: nat) { base == 8 || base == 10 || base == 16 }

  function DigitChar(d: nat, upper: bool): char
    requires d < 16
  {
    if upper then "0123456789ABCDEF"[d] else "0123456789abcdef"[d]
  }

  function DigitValue(c: char): nat {
    if '0' <= c <= '9' then c as nat - '0' as nat
    else if 'a' <= c <= 'z' then c as nat - 'a' as nat + 10
    else if 'A' <= c <= 'Z' then c as nat - 'A' as nat + 10
    else 99
  }

  lemma {:induction false} DigitCharValue(d: nat, upper: bool)
    requires d < 16
    ensures DigitValue(DigitChar(d, upper)) == d
  {}

  /** The digits of `m`, most significant first; one digit for zero. */
  function Digits(m: nat, base: nat, upper: bool): string
    requires PrintBase(base)
  {
    if m < base then [DigitChar(m, upper)]
    else Digits(m / base, base, upper) + [DigitChar(m % base, upper)]
  }

  /** The number a string of digits denotes, unbounded. */
  function Number(ds: string, base: nat): nat {
    if ds == [] then 0 else Number(ds[..|ds| - 1], base) * base + DigitValue(ds[|ds| - 1])
  }

  predicate AllDigits(ds: string, base: nat) {
    forall i :: 0 <= i < |ds| ==> DigitValue(ds[i]) < base
  }

  /** Printed digits denote the number they were printed from. */
  lemma {:induction false} DigitsDenote(m: nat, base: nat, upper: bool)
    requires PrintBase(base)
    ensures Number(Digits(m, base, upper), base) == m
    ensures AllDigits(Digits(m, base, upper), base)
    ensures Digits(m, base, upper) != []
    decreases m
  {
    if m < base {
      DigitCharValue(m, upper);
      OneDigit(DigitChar(m, upper), base);
    } else {
      DigitsDenote(m / base, base, upper);
      DigitCharValue(m % base, upper);
      NumberPush(Digits(m / base, base, upper), DigitChar(m % base, upper), base);
    }
  }

  lemma {:induction false} NumberPush(ds: string, c: char, base: nat)
    ensures Number(ds + [c], base) == Number(ds, base) * base + DigitValue(c)
  {
    assert (ds + [c])[..|ds|] == ds;
  }

  lemma {:induction false} OneDigit(c: char, base: nat)
    ensures Number([c], base) == DigitValue(c)
  {
    assert [c][..0] == [];
  }

  function Repeated(c: char, n: nat): (r: string)
    ensures |r| == n
    ensures forall i :: 0 <= i < n ==> r[i] == c
  {
    if n == 0 then [] else Repeated(c, n - 1) + [c]
  }

  lemma {:induction false} ZerosAreZero(n: nat, base: nat)
    ensures Number(Repeated('0', n), base) == 0
  {
    hide Number;
    if n == 0 {
      NoNumber(base);
    } else {
      ZerosAreZero(n - 1, base);
      NumberPush(Repeated('0', n - 1), '0', base);
    }
  }

  lemma {:induction false} NoNumber(base: nat)
    ensures Number([], base) == 0
  {}

  /** Leading zeros change nothing. */
  lemma {:induction false} ZerosDenote(n: nat, ds: string, base: nat)
    ensures Number(Repeated('0', n) + ds, base) == Number(ds, base)
    decreases |ds|
  {
    hide Number, DigitValue, Repeated;
    var zs := Repeated('0', n);
    if ds == [] {
      assert zs + ds == zs;
      ZerosAreZero(n, base);
      NoNumber(base);
    } else {
      var short, c := ds[..|ds| - 1], ds[|ds| - 1];
      ZerosDenote(n, short, base);
      NumberPush(zs + short, c, base);
      NumberPush(short, c, base);
      assert zs + short + [c] == zs + ds && short + [c] == ds;
    }
  }

  // -------------------------------------------------------------- the parser

  predicate Space(c: char) {
    c == ' ' || c == '\t' || c == '\n' || c == '\r' || c as nat == 11 || c as nat == 12
  }

  function Spaces(s: string): (n: nat)
    ensures n <= |s|
  {
    if s != [] && Space(s[0]) then 1 + Spaces(s[1..]) else 0
  }

  /** How many characters from the front are digits of the base. */
  function Run(s: string, base: int): (n: nat)
    ensures n <= |s|
  {
    if s != [] && DigitValue(s[0]) < base then 1 + Run(s[1..], base) else 0
  }

  /** Bases for which the terminator is no digit: for any above, its value 99 is one, and
    * the loop would run past it. */
  predicate ParseBase(base: int) { base <= 99 }

  predicate HexPrefix(u: string, base: int) {
    && (base == 0 || base == 16)
    && |u| >= 3 && u[0] == '0' && (u[1] == 'x' || u[1] == 'X') && DigitValue(u[2]) < 16
  }

  function BaseOf(u: string, base: int): int {
    if HexPrefix(u, base) then 16
    else if base == 0 && u != [] && u[0] == '0' then 8
    else if base == 0 then 10
    else base
  }

  function SignLength(t: string): nat { if t != [] && (t[0] == '+' || t[0] == '-') then 1 else 0 }

  /** `Overflow` is the negation of the most negative value, which C leaves undefined. */
  datatype Parsed = Parsed(value: Signed, end: nat) | NoDigits | Overflow

  /** What `strtol` returns and where it stops, on the text before the terminator. */
  function Strtol(s: string, base: int): Parsed {
    SignedPart(s[Spaces(s)..], base, Spaces(s))
  }

  function SignedPart(t: string, base: int, at: nat): Parsed {
    NumberPart(t[SignLength(t)..], base, SignLength(t) == 1 && t[0] == '-', at + SignLength(t))
  }

  /** A base as a multiplier; one below zero has no digits to multiply. */
  function Radix(base: int): nat { if base < 0 then 0 else base }

  function NumberPart(u: string, base: int, negative: bool, at: nat): Parsed {
    var skip := if HexPrefix(u, base) then 2 else 0;
    var n := Run(u[skip..], BaseOf(u, base));
    if n == 0 then NoDigits
    else Finished(negative, ToWord(Number(u[skip..skip + n], Radix(BaseOf(u, base)))), at + skip + n)
  }

  function Finished(negative: bool, value: Word, end: nat): Parsed {
    if !negative then Parsed(ToSigned(value), end)
    else if value == TWO_31 then Overflow
    else Parsed(-ToSigned(value), end)
  }

  // -------------------------------------------------------------- the printer

  /** What `out_number` puts out. */
  function Printed(m: Word, prefix: string, base: nat, upper: bool, width: Word, precision: Word,
                   padZero: bool, left: bool): string
    requires PrintBase(base) && |prefix| <= 2
  {
    var ds := Digits(m, base, upper);
    var zeros := if precision > |ds| then precision - |ds| else 0;
    var shown := ToWord(|ds| + zeros + |prefix|);
    var gap := if width > shown then width - shown else 0;
    Laid(if !left && !padZero then gap else 0, prefix,
         if !left && padZero && precision == 0 then gap else 0, zeros, ds,
         if left then gap else 0)
  }

  /** Blanks, prefix, filling zeros, precision zeros, digits, blanks. */
  function Laid(before: nat, prefix: string, fill: nat, zeros: nat, ds: string, after: nat): string {
    Repeated(' ', before) + prefix + Repeated('0', fill) + Repeated('0', zeros) + ds + Repeated(' ', after)
  }

  datatype Flags = Flags(left: bool, padZero: bool, plus: bool, space: bool, alt: bool, width: Word, precision: Word)

  datatype Conversion = Decimal(v: Signed) | Unsigned(m: Word) | Octal(m: Word) | Hex(m: Word, upper: bool)

  function Prefix(c: Conversion, f: Flags): string {
    match c
    case Decimal(v) => if v < 0 then "-" else if f.plus then "+" else if f.space then " " else ""
    case Unsigned(_) => ""
    case Octal(_) => if f.alt then "0" else ""
    case Hex(_, upper) => if !f.alt then "" else if upper then "0X" else "0x"
  }

  function Absolute(v: int): nat { if v < 0 then -v else v }

  function Magnitude(c: Conversion): Word {
    match c
    case Decimal(v) => Absolute(v)
    case Unsigned(m) => m
    case Octal(m) => m
    case Hex(m, _) => m
  }

  function Base(c: Conversion): (b: nat)
    ensures PrintBase(b)
  {
    match c
    case Decimal(_) => 10
    case Unsigned(_) => 10
    case Octal(_) => 8
    case Hex(_, _) => 16
  }

  /** The text of one integer conversion of `printf`. */
  function Format(c: Conversion, f: Flags): string {
    Printed(Magnitude(c), Prefix(c, f), Base(c), c.Hex? && c.upper, f.width, f.precision, f.padZero, f.left)
  }

  // ------------------------------------------------------------ reading it back

  const WHITESPACE: string := [' ', '\t', '\n', 11 as char, 12 as char, '\r']

  predicate Blank(w: string) {
    forall i :: 0 <= i < |w| ==> w[i] in WHITESPACE
  }

  lemma {:induction false} SpacesOf(w: string, rest: string)
    requires Blank(w) && (rest == [] || rest[0] !in WHITESPACE)
    ensures Spaces(w + rest) == |w|
  {
    var s := w + rest;
    if w == [] {
      assert s == rest;
      if rest != [] {
        SpaceIs(rest[0]);
      }
    } else {
      SpaceIs(w[0]);
      SpacesOf(w[1..], rest);
      assert s[0] == w[0] && s[1..] == w[1..] + rest;
    }
  }

  lemma {:induction false} SpaceIs(c: char)
    ensures Space(c) <==> c in WHITESPACE
  {
    assert WHITESPACE[0] == ' ' && WHITESPACE[1] == '\t' && WHITESPACE[2] == '\n' && WHITESPACE[5] == '\r';
    assert WHITESPACE[3] as nat == 11 && WHITESPACE[4] as nat == 12;
  }

  /** What cannot carry on a number in any base. */
  predicate Ends(tail: string) { tail == [] || DigitValue(tail[0]) == 99 }

  /** What ends a number in one base. */
  predicate Stops(tail: string, base: nat) { tail == [] || DigitValue(tail[0]) >= base }

  lemma {:induction false} RunOf(ds: string, tail: string, base: nat)
    requires AllDigits(ds, base) && Stops(tail, base)
    ensures Run(ds + tail, base) == |ds|
  {
    if ds == [] {
      assert ds + tail == tail;
    } else {
      assert (ds + tail)[1..] == ds[1..] + tail;
      RunOf(ds[1..], tail, base);
    }
  }

  /** A digit string is not taken for a hexadecimal prefix. */
  lemma {:induction false} NotPrefix(body: string, tail: string, base: int)
    requires body != [] && AllDigits(body, 16) && Ends(tail)
    ensures !HexPrefix(body + tail, base)
  {
    var u := body + tail;
    if |u| >= 2 {
      if |body| >= 2 {
        assert u[1] == body[1];
      } else {
        assert u[1] == tail[0];
      }
    }
  }

  predicate Marked(mark: string, body: string, base: nat, b: nat) {
    || (mark == "" && base == b && 2 <= b <= 36)
    || ((mark == "0x" || mark == "0X") && b == 16 && (base == 16 || base == 0))
    || (mark == "" && base == 0 && body != [] && b == if body[0] == '0' then 8 else 10)
  }

  /** Digits and what ends them, not to be taken for a prefix. */
  predicate Body(mark: string, body: string, tail: string, base: nat, b: nat) {
    && body != [] && AllDigits(body, b) && Stops(tail, b)
    && (mark == "" && body == "0" && |tail| >= 2 && (tail[0] == 'x' || tail[0] == 'X') ==>
          (base != 0 && base != 16) || DigitValue(tail[1]) >= 16)
  }

  /** After the sign: the prefix is recognised and the digits are read in the right base. */
  lemma {:induction false} ReadsBody(mark: string, body: string, tail: string, base: nat, b: nat)
    requires Marked(mark, body, base, b) && Body(mark, body, tail, base, b)
    ensures var u := mark + body + tail;
            && HexPrefix(u, base) == (mark != "")
            && BaseOf(u, base) == b
            && u[|mark|..] == body + tail
            && Run(body + tail, b) == |body|
            && u[|mark|..|mark| + |body|] == body
  {
    hide DigitValue, Stops, Run, HexPrefix, BaseOf;
    var u := mark + body + tail;
    RunOf(body, tail, b);
    assert u[|mark|..] == body + tail && u[|mark|..|mark| + |body|] == body;
    if mark == "" {
      assert u == body + tail;
      PlainBase(body, tail, base, b);
    } else {
      MarkedBase(mark, body, tail, base);
    }
  }

  lemma {:induction false} PlainBase(body: string, tail: string, base: nat, b: nat)
    requires Marked("", body, base, b) && Body("", body, tail, base, b)
    ensures !HexPrefix(body + tail, base) && BaseOf(body + tail, base) == b
  {
    var u := body + tail;
    assert u[0] == body[0];
    if |body| >= 2 {
      assert u[1] == body[1];
    } else {
      assert |tail| >= 1 ==> u[1] == tail[0];
      assert |tail| >= 2 ==> u[2] == tail[1];
      assert body[0] == '0' ==> body == "0";
    }
  }

  lemma {:induction false} MarkedBase(mark: string, body: string, tail: string, base: nat)
    requires (mark == "0x" || mark == "0X") && (base == 16 || base == 0) && body != [] && AllDigits(body, 16)
    ensures HexPrefix(mark + body + tail, base) && BaseOf(mark + body + tail, base) == 16
  {
    hide DigitValue;
    var u := mark + body + tail;
    assert u[0] == mark[0] && u[1] == mark[1] && u[2] == body[0];
  }

  predicate Sign(sign: string) { sign == "" || sign == "+" || sign == "-" }

  lemma {:induction false} FirstChar(mark: string, body: string, tail: string, b: nat)
    requires (mark == "" || mark[0] == '0') && body != [] && AllDigits(body, b) && b <= 36
    ensures var u := mark + body + tail; u != [] && !Space(u[0]) && u[0] != '+' && u[0] != '-'
  {
    var u := mark + body + tail;
    if mark == "" {
      assert u[0] == body[0];
    } else {
      assert u[0] == mark[0];
    }
  }

  /** White space, a sign, a prefix, digits of any base from 2 to 36, and something that ends
    * the number. */
  lemma {:induction false} ReadsShape(w: string, sign: string, mark: string, body: string, tail: string, base: nat, b: nat)
    requires Blank(w) && Sign(sign) && Marked(mark, body, base, b) && Body(mark, body, tail, base, b)
    ensures Strtol(w + (sign + (mark + body + tail)), base)
         == Finished(sign == "-", ToWord(Number(body, b)), |w| + |sign| + |mark| + |body|)
  {
    hide AllDigits, Stops, Space, Spaces, SignedPart, HexPrefix;
    var u := mark + body + tail;
    var t := sign + u;
    var s := w + t;
    MarkIsZero(mark, body, base, b);
    FirstChar(mark, body, tail, b);
    if sign != "" {
      SignIsNoSpace(sign);
    }
    assert t != [] && t[0] == if sign == "" then u[0] else sign[0];
    SpaceIs(t[0]);
    SpacesOf(w, t);
    assert s[|w|..] == t;
    ReadsSigned(sign, mark, body, tail, base, b, |w|);
  }

  lemma {:induction false} MarkIsZero(mark: string, body: string, base: nat, b: nat)
    requires Marked(mark, body, base, b)
    ensures mark == "" || mark[0] == '0'
  {}

  lemma {:induction false} ReadsSigned(sign: string, mark: string, body: string, tail: string, base: nat, b: nat, at: nat)
    requires Sign(sign) && Marked(mark, body, base, b) && Body(mark, body, tail, base, b)
    ensures SignedPart(sign + (mark + body + tail), base, at)
         == Finished(sign == "-", ToWord(Number(body, b)), at + |sign| + |mark| + |body|)
  {
    hide AllDigits, Stops, NumberPart, Space, HexPrefix;
    var u := mark + body + tail;
    var t := sign + u;
    MarkIsZero(mark, body, base, b);
    FirstChar(mark, body, tail, b);
    assert t != [] && t[0] == if sign == "" then u[0] else sign[0];
    assert SignLength(t) == |sign| && t[|sign|..] == u;
    ReadsNumber(mark, body, tail, base, b, sign == "-", at + |sign|);
  }

  lemma {:induction false} ReadsNumber(mark: string, body: string, tail: string, base: nat, b: nat, negative: bool, at: nat)
    requires Marked(mark, body, base, b) && Body(mark, body, tail, base, b)
    ensures NumberPart(mark + body + tail, base, negative, at)
         == Finished(negative, ToWord(Number(body, b)), at + |mark| + |body|)
  {
    hide AllDigits, Stops, HexPrefix, BaseOf, Run, Number, ToWord, Finished;
    ReadsBody(mark, body, tail, base, b);
    assert mark == "" || |mark| == 2;
  }

  /** Printed digits before something that is no digit in any base. */
  lemma {:induction false} DigitsAreBody(mark: string, body: string, tail: string, base: nat, b: nat)
    requires PrintBase(b) && body != [] && AllDigits(body, b) && Ends(tail)
    ensures Body(mark, body, tail, base, b)
  {
    NotPrefix(body, tail, base);
  }

  /** Nothing that could be a number after white space and a sign. */
  lemma {:induction false} NothingRead(w: string, sign: string, tail: string, base: nat)
    requires Blank(w) && Sign(sign) && (base == 0 || 2 <= base <= 36) && Stops(tail, if base == 0 then 10 else base)
    requires sign == "" && tail != [] ==> tail[0] !in WHITESPACE && tail[0] != '+' && tail[0] != '-'
    ensures Strtol(w + (sign + tail), base) == NoDigits
  {
    hide DigitValue, Space, Spaces;
    var t := sign + tail;
    assert t != [] ==> t[0] == if sign == "" then tail[0] else sign[0];
    if sign != "" {
      SignIsNoSpace(sign);
      SpaceIs(sign[0]);
    }
    SpacesOf(w, t);
    assert (w + t)[|w|..] == t && t[|sign|..] == tail;
    NoPrefixHere(tail, base);
  }

  lemma {:induction false} NoPrefixHere(tail: string, base: nat)
    requires (base == 0 || 2 <= base <= 36) && Stops(tail, if base == 0 then 10 else base)
    ensures !HexPrefix(tail, base) && Run(tail, BaseOf(tail, base)) == 0
  {
  }

  const FIGURES: string := "0123456789"
  const SMALL: string := "abcdefghijklmnopqrstuvwxyz"
  const CAPITAL: string := "ABCDEFGHIJKLMNOPQRSTUVWXYZ"

  /** The digits are the ten figures and then the letters in order, small or capital; nothing
    * else is one in any base. */
  lemma {:induction false} DigitTable(c: char)
    ensures forall k :: 0 <= k < 10 ==> (c == FIGURES[k] <==> DigitValue(c) == k)
    ensures forall k :: 0 <= k < 26 ==> (c == SMALL[k] || c == CAPITAL[k] <==> DigitValue(c) == 10 + k)
    ensures c !in FIGURES && c !in SMALL && c !in CAPITAL <==> DigitValue(c) == 99
  {
    FiguresAre();
    LettersAre();
    if '0' <= c <= '9' {
      assert FIGURES[c as nat - '0' as nat] == c;
    } else if 'a' <= c <= 'z' {
      assert SMALL[c as nat - 'a' as nat] == c;
    } else if 'A' <= c <= 'Z' {
      assert CAPITAL[c as nat - 'A' as nat] == c;
    }
  }

  lemma {:induction false} FiguresAre()
    ensures |FIGURES| == 10 && forall k :: 0 <= k < 10 ==> FIGURES[k] as nat == '0' as nat + k
  {
  }

  lemma {:induction false} LettersAre()
    ensures |SMALL| == 26 && forall k :: 0 <= k < 26 ==> SMALL[k] as nat == 'a' as nat + k
    ensures |CAPITAL| == 26 && forall k :: 0 <= k < 26 ==> CAPITAL[k] as nat == 'A' as nat + k
  {
  }

  lemma {:induction false} SignIsNoSpace(sign: string)
    requires Sign(sign) && sign != ""
    ensures !Space(sign[0])
  {}

  // --------------------------------------------------------------- round trips

  /** The printed text as leading spaces, prefix, digits with their leading zeros, and
    * trailing spaces. */
  lemma {:induction false} PrintedShape(m: Word, prefix: string, base: nat, upper: bool, width: Word, precision: Word,
                     padZero: bool, left: bool) returns (before: nat, zeros: nat, after: nat)
    requires PrintBase(base) && |prefix| <= 2
    ensures Printed(m, prefix, base, upper, width, precision, padZero, left)
         == Repeated(' ', before) + prefix + (Repeated('0', zeros) + Digits(m, base, upper)) + Repeated(' ', after)
    ensures before > 0 ==> !left && !padZero
    ensures after > 0 ==> left
    ensures zeros + |Digits(m, base, upper)| >= precision
    ensures zeros > 0 && (left || !padZero || precision > 0) ==> zeros + |Digits(m, base, upper)| == precision
  {
    hide Digits, Repeated, Laid;
    var ds := Digits(m, base, upper);
    var extra := if precision > |ds| then precision - |ds| else 0;
    var shown := ToWord(|ds| + extra + |prefix|);
    var gap := if width > shown then width - shown else 0;
    before := if !left && !padZero then gap else 0;
    var fill := if !left && padZero && precision == 0 then gap else 0;
    after := if left then gap else 0;
    zeros := fill + extra;
    LaidShape(before, prefix, fill, extra, ds, after);
  }

  lemma {:induction false} LaidShape(before: nat, prefix: string, fill: nat, zeros: nat, ds: string, after: nat)
    ensures Laid(before, prefix, fill, zeros, ds, after)
         == Repeated(' ', before) + prefix + (Repeated('0', fill + zeros) + ds) + Repeated(' ', after)
  {
    hide Repeated;
    RepeatedJoins('0', fill, zeros);
    Gather(Repeated(' ', before) + prefix, Repeated('0', fill), Repeated('0', zeros), ds);
  }

  lemma {:induction false} RepeatedJoins(c: char, m: nat, n: nat)
    ensures Repeated(c, m) + Repeated(c, n) == Repeated(c, m + n)
  {}

  /** The digits with their zeros: still digits, still denoting `m`. */
  lemma {:induction false} BodyDenotes(zeros: nat, m: nat, base: nat, upper: bool)
    requires PrintBase(base)
    ensures var body := Repeated('0', zeros) + Digits(m, base, upper);
            body != [] && AllDigits(body, base) && Number(body, base) == m
  {
    hide Digits, Number;
    DigitsDenote(m, base, upper);
    ZerosDenote(zeros, Digits(m, base, upper), base);
  }

  lemma {:induction false} SpacesEnd(n: nat, rest: string)
    requires Ends(rest)
    ensures Ends(Repeated(' ', n) + rest)
  {
    if n == 0 {
      assert Repeated(' ', n) + rest == rest;
    }
  }

  /** The bases that read a conversion back: its own, or 0 when `#` marked it. */
  predicate Readable(c: Conversion, f: Flags, base: nat) {
    base == Base(c) || (base == 0 && f.alt && (c.Octal? || c.Hex?))
  }

  /** How the parser sees the printed prefix: a blank is one more space, an octal mark one
    * more digit. */
  lemma {:induction false} Split(c: Conversion, f: Flags, base: nat, before: nat, body: string)
      returns (k: nat, sign: string, mark: string, digits: string)
    requires Readable(c, f, base) && body != [] && AllDigits(body, Base(c))
    ensures Repeated(' ', before) + Prefix(c, f) + body == Repeated(' ', k) + sign + mark + digits
    ensures Sign(sign) && (sign == "-" <==> c.Decimal? && c.v < 0)
    ensures Marked(mark, digits, base, Base(c))
    ensures digits != [] && AllDigits(digits, Base(c)) && Number(digits, Base(c)) == Number(body, Base(c))
  {
    hide Number;
    k, sign, mark, digits := before, "", "", body;
    match c {
      case Decimal(v) =>
        if Prefix(c, f) == " " {
          k := before + 1;
          RepeatedJoins(' ', before, 1);
          assert Repeated(' ', 1) == " ";
        } else {
          sign := Prefix(c, f);
        }
      case Unsigned(_) =>
      case Octal(_) =>
        if f.alt {
          digits := "0" + body;
          assert Repeated('0', 1) == "0";
          ZerosDenote(1, body, 8);
        }
      case Hex(_, _) =>
        mark := Prefix(c, f);
    }
  }

  /** What the parser makes of the magnitude it read. */
  lemma {:induction false} Recovered(c: Conversion, end: nat)
    ensures var r := Finished(c.Decimal? && c.v < 0, ToWord(Magnitude(c)), end);
            && (c.Decimal? ==> (r == Overflow <==> c.v == -TWO_31))
            && (c.Decimal? && c.v > -TWO_31 ==> r == Parsed(c.v, end))
            && (!c.Decimal? ==> r.Parsed? && ToWord(r.value) == c.m && r.end == end)
  {}

  /** Print, then read: the value comes back, and reading stops right after the digits.
    * The one exception is the most negative %d, whose negation `strtol` leaves undefined. */
  lemma {:induction false} PrintParse(c: Conversion, f: Flags, base: nat, rest: string)
    requires Readable(c, f, base) && Ends(rest)
    ensures var r := Strtol(Format(c, f) + rest, base);
            && (c.Decimal? ==> (r == Overflow <==> c.v == -TWO_31))
            && (c.Decimal? && c.v > -TWO_31 ==> r.Parsed? && r.value == c.v)
            && (!c.Decimal? ==> r.Parsed? && ToWord(r.value) == c.m)
            && (r.Parsed? ==> r.end <= |Format(c, f)| && Ends((Format(c, f) + rest)[r.end..]))
  {
    hide Strtol, Printed, Digits, Number, AllDigits, Ends, Finished, Marked, ToWord;
    var b, upper := Base(c), c.Hex? && c.upper;
    var before, zeros, after :=
      PrintedShape(Magnitude(c), Prefix(c, f), b, upper, f.width, f.precision, f.padZero, f.left);
    var body := Repeated('0', zeros) + Digits(Magnitude(c), b, upper);
    BodyDenotes(zeros, Magnitude(c), b, upper);
    SpacesEnd(after, rest);
    var tail := Repeated(' ', after) + rest;
    var k, sign, mark, digits := Split(c, f, base, before, body);
    DigitsAreBody(mark, digits, tail, base, b);
    ReadsShape(Repeated(' ', k), sign, mark, digits, tail, base, b);
    var end := k + |sign| + |mark| + |digits|;
    Recovered(c, end);
    Joined(Repeated(' ', before) + Prefix(c, f) + body, Repeated(' ', after), rest);
    Regroup(Repeated(' ', k), sign, mark, digits, tail);
    assert Format(c, f) + rest == Repeated(' ', k) + (sign + (mark + digits + tail));
  }

  lemma {:induction false} Joined(a: string, b: string, c: string)
    ensures (a + b) + c == a + (b + c)
    ensures (a + (b + c))[|a|..] == b + c
  {}

  lemma {:induction false} Regroup(a: string, b: string, c: string, d: string, e: string)
    ensures a + b + c + d + e == a + (b + (c + d + e))
  {}

  lemma {:induction false} Gather(a: string, b: string, c: string, d: string)
    ensures a + b + c + d == a + (b + c + d)
  {}

  lemma {:induction false} LaidLength(before: nat, prefix: string, fill: nat, zeros: nat, ds: string, after: nat)
    ensures |Laid(before, prefix, fill, zeros, ds, after)| == before + |prefix| + fill + zeros + |ds| + after
  {}

  /** The field is filled to its width exactly unless the `0` flag meets a precision: then
    * nothing pads it, and it comes out short whenever padding was needed. */
  lemma {:induction false} FieldWidth(m: Word, prefix: string, base: nat, upper: bool, width: Word, precision: Word,
                   padZero: bool, left: bool)
    requires PrintBase(base) && |prefix| <= 2
    requires |Digits(m, base, upper)| + precision + |prefix| < TWO_32
    ensures var n := |Digits(m, base, upper)|;
            var shown := (if precision > n then precision else n) + |prefix|;
            var length := |Printed(m, prefix, base, upper, width, precision, padZero, left)|;
            && shown <= length
            && (length == (if width > shown then width else shown)
                <==> left || !padZero || precision == 0 || width <= shown)
  {
    hide Digits, Laid;
    var ds := Digits(m, base, upper);
    var zeros := if precision > |ds| then precision - |ds| else 0;
    var shown := ToWord(|ds| + zeros + |prefix|);
    assert shown == |ds| + zeros + |prefix|;
    var gap := if width > shown then width - shown else 0;
    LaidLength(if !left && !padZero then gap else 0, prefix,
               if !left && padZero && precision == 0 then gap else 0, zeros, ds, if left then gap else 0);
  }

  /** The mark before the digits: a sign for %d, what `#` asks for else. */
  predicate MarkOf(c: Conversion, f: Flags, mark: string) {
    match c
    case Decimal(v) =>
      && (mark == "-" <==> v < 0) && (mark == "+" <==> v >= 0 && f.plus)
      && (mark == " " <==> v >= 0 && !f.plus && f.space) && (mark == "" <==> v >= 0 && !f.plus && !f.space)
    case Unsigned(_) => mark == ""
    case Octal(_) => mark == if f.alt then "0" else ""
    case Hex(_, upper) => mark == if !f.alt then "" else if upper then "0X" else "0x"
  }

  /** Digits written the usual way: no zero in front, letters all of one case. */
  predicate Canonical(ds: string, m: nat, base: nat, upper: bool) {
    && ds != [] && Number(ds, base) == m && (|ds| > 1 ==> ds[0] != '0')
    && forall i :: 0 <= i < |ds| ==> DigitValue(ds[i]) < base && OneCase(ds[i], upper)
  }

  lemma {:induction false} DigitsCanonical(m: nat, base: nat, upper: bool)
    requires PrintBase(base)
    ensures Canonical(Digits(m, base, upper), m, base, upper)
    ensures m > 0 ==> Digits(m, base, upper)[0] != '0'
    decreases m
  {
    hide Number, DigitChar, DigitValue, PrintBase;
    DigitsDenote(m, base, upper);
    DigitsWritten(m, base, upper);
  }

  predicate OneCase(c: char, upper: bool) {
    !(if upper then 'a' <= c <= 'z' else 'A' <= c <= 'Z')
  }

  lemma {:induction false} DigitsWritten(m: nat, base: nat, upper: bool)
    requires PrintBase(base)
    ensures var ds := Digits(m, base, upper);
      && ds != [] && (m > 0 ==> ds[0] != '0') && (|ds| > 1 ==> ds[0] != '0')
      && forall i :: 0 <= i < |ds| ==> OneCase(ds[i], upper)
    decreases m
  {
    hide DigitChar, OneCase;
    CharCase(if m < base then m else m % base, upper);
    if m >= base {
      DigitsWritten(m / base, base, upper);
    }
  }

  lemma {:induction false} CharCase(d: nat, upper: bool)
    requires d < 16
    ensures (DigitChar(d, upper) == '0' <==> d == 0) && OneCase(DigitChar(d, upper), upper)
  {
  }

  lemma {:induction false} MarkIs(c: Conversion, f: Flags)
    ensures MarkOf(c, f, Prefix(c, f)) && |Prefix(c, f)| <= 2
  {
  }

  /** Every field: blanks, the mark, zeros, the digits, blanks. Blanks go in front only without
    * the `-` and `0` flags and behind only with `-`; zeros are those the precision asks for,
    * and with the `0` flag, no `-` and no precision also those that fill the width. */
  lemma {:induction false} FieldExact(c: Conversion, f: Flags) returns (before: nat, mark: string, zeros: nat, ds: string, after: nat)
    ensures Format(c, f) == Repeated(' ', before) + mark + (Repeated('0', zeros) + ds) + Repeated(' ', after)
    ensures MarkOf(c, f, mark) && Canonical(ds, Magnitude(c), Base(c), c.Hex? && c.upper)
    ensures before > 0 ==> !f.left && !f.padZero
    ensures after > 0 ==> f.left
    ensures zeros > 0 && (f.left || !f.padZero || f.precision > 0) ==> zeros + |ds| == f.precision
    ensures zeros + |ds| >= f.precision
  {
    hide Digits, Repeated, Printed, Canonical, MarkOf, Prefix;
    var base, upper := Base(c), c.Hex? && c.upper;
    mark, ds := Prefix(c, f), Digits(Magnitude(c), base, upper);
    MarkIs(c, f);
    DigitsCanonical(Magnitude(c), base, upper);
    before, zeros, after := PrintedShape(Magnitude(c), mark, base, upper, f.width, f.precision, f.padZero, f.left);
  }

  /** One such field: five in base ten with `%08.3d` takes three characters, not eight. */
  lemma {:induction false} ShortField()
    ensures Format(Decimal(5), Flags(false, true, false, false, false, 8, 3)) == "005"
  {
    assert Digits(5, 10, false) == "5";
    assert Repeated('0', 2) == "00";
    assert Repeated(' ', 0) == "" && Repeated('0', 0) == "";
  }
}
