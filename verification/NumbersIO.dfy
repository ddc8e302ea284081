/** The loops behind the conversions: the digit buffer and the output cursor of printf,
  * and the walk of strtol over its string. */
module NumbersIO {
  import opened Numbers

  // ------------------------------------------------------------------ printing

  lemma {:induction false} DigitsShort(m: nat, base: nat, upper: bool, k: nat)
    requires PrintBase(base) && 1 <= k && m < Power(k)
    ensures |Digits(m, base, upper)| <= k
    decreases k
  {
    if m >= base {
      assert k > 1;
      assert m / base <= m / 8 < Power(k - 1);
      DigitsShort(m / base, base, upper, k - 1);
    }
  }

  /** 8 to the `k`. */
  function Power(k: nat): nat { if k == 0 then 1 else 8 * Power(k - 1) }

  lemma {:induction false} WordsAreShort()
    ensures Power(11) > TWO_32
  {
    assert Power(3) == 512;
    assert Power(6) == 512 * 512;
    assert Power(9) == 512 * 512 * 512;
  }

  function Reversed(s: string): (r: string)
    ensures |r| == |s|
  {
    if s == [] then [] else [s[|s| - 1]] + Reversed(s[..|s| - 1])
  }

  const OUT_CHUNK: nat := 256

  /** Formatted output. Into a caller's buffer of `cap` characters everything is counted,
    * what does not fit is dropped, and one place stays free for the terminator. To a stream
    * the characters gather in a chunk that is handed on when it is full. */
  class Out {
    const buf: array?<char>        // null for a stream
    const cap: nat
    var len: nat
    const tmp: array<char>
    var used: nat
    var sent: string               // what was handed to the stream
    ghost var text: string

    ghost predicate Valid()
      reads this, buf, tmp
    {
      if buf != null then
        && cap <= buf.Length
        && len == |text|
        && forall i :: 0 <= i < len && i + 1 < cap ==> buf[i] == text[i]
      else
        && used < OUT_CHUNK == tmp.Length
        && sent + tmp[..used] == text
    }

    constructor (buffer: array?<char>, size: nat)
      requires buffer != null ==> size <= buffer.Length
      ensures Valid() && buf == buffer && cap == size && text == "" && fresh(tmp)
      ensures sent == ""
    {
      buf, cap, len, text := buffer, size, 0, "";
      tmp := new char[OUT_CHUNK];
      used, sent := 0, "";
    }

    /** Hands on the chunk. */
    method OutFlush()
      requires buf == null && used <= tmp.Length && sent + tmp[..used] == text
      modifies this
      ensures used == 0 && sent == text == old(text)
    {
      if used == 0 {
        return;
      }
      sent := sent + tmp[..used];
      used := 0;
    }

    method OutChar(c: char)
      requires Valid()
      modifies this, buf, tmp
      ensures Valid() && text == old(text) + [c]
    {
      text := text + [c];
      if buf != null {
        if len + 1 < cap {
          buf[len] := c;
        }
        len := len + 1;
        return;
      }
      tmp[used] := c;
      used := used + 1;
      assert tmp[..used] == old(tmp[..used]) + [c];
      if used == OUT_CHUNK {
        OutFlush();
      }
    }

    method OutText(s: string)
      requires Valid()
      modifies this, buf, tmp
      ensures Valid() && text == old(text) + s
    {
      for i := 0 to |s|
        invariant Valid() && text == old(text) + s[..i]
      {
        OutChar(s[i]);
        assert s[..i + 1] == s[..i] + [s[i]];
      }
      assert s[..|s|] == s;
    }

    method OutRepeat(c: char, count: nat)
      requires Valid()
      modifies this, buf, tmp
      ensures Valid() && text == old(text) + Repeated(c, count)
    {
      var left: nat := count;
      while left != 0
        invariant left <= count
        invariant Valid() && text == old(text) + Repeated(c, count - left)
        decreases left
      {
        OutChar(c);
        left := left - 1;
      }
    }

    /** The digits from the buffer, last written first. */
    method OutBackwards(digits: array<char>, count: nat)
      requires Valid() && count <= digits.Length && digits != buf && digits != tmp
      modifies this, buf, tmp
      ensures Valid() && text == old(text) + Reversed(digits[..count])
    {
      var n: nat := count;
      ghost var start := text;
      ghost var all := digits[..count];
      assert all[..n] == all;
      while n != 0
        invariant n <= count && all == digits[..count]
        invariant Valid() && text + Reversed(all[..n]) == start + Reversed(all)
        decreases n
      {
        n := n - 1;
        assert all[..n + 1][..n] == all[..n];
        assert Reversed(all[..n + 1]) == [all[n]] + Reversed(all[..n]);
        OutChar(digits[n]);
      }
      assert all[..0] == [] && text + [] == text;
    }
  }

  function Lowest(m: nat, base: nat): (d: nat)
    requires PrintBase(base)
    ensures d < 16
  {
    m % base
  }

  function Higher(m: nat, base: nat): (h: nat)
    requires PrintBase(base)
    ensures m > 0 ==> h < m
  {
    m / base
  }

  /** Fills the digit buffer, least significant first. The 32 places are always enough. */
  method FillDigits(m: Word, base: nat, upper: bool, tmp: array<char>) returns (n: nat)
    requires PrintBase(base) && tmp.Length == 32
    modifies tmp
    ensures 1 <= n <= 11 && Reversed(tmp[..n]) == Digits(m, base, upper)
  {
    hide Digits, DigitChar, Reversed, Lowest, Higher, PrintBase, AllDigits;
    WordsAreShort();
    DigitsShort(m, base, upper, 11);
    ghost var goal := Digits(m, base, upper);
    var magnitude: nat := m;
    tmp[0] := DigitChar(Lowest(magnitude, base), upper);
    n := 1;
    magnitude := Higher(magnitude, base);
    assert tmp[..1] == [tmp[0]];
    FirstDigit(m, base, upper, tmp[..1]);
    while magnitude != 0
      invariant 1 <= n <= 11
      invariant magnitude == 0 ==> Reversed(tmp[..n]) == goal
      invariant magnitude != 0 ==> Digits(magnitude, base, upper) + Reversed(tmp[..n]) == goal
      decreases magnitude
    {
      ghost var done, now := tmp[..n], magnitude;
      DigitsDenote(magnitude, base, upper);
      tmp[n] := DigitChar(Lowest(magnitude, base), upper);
      n := n + 1;
      magnitude := Higher(magnitude, base);
      assert tmp[..n] == done + [tmp[n - 1]];
      NextDigit(now, base, upper, done, tmp[..n], goal);
    }
  }

  lemma {:induction false} FirstDigit(m: nat, base: nat, upper: bool, tmp: string)
    requires PrintBase(base) && tmp == [DigitChar(Lowest(m, base), upper)]
    ensures Higher(m, base) == 0 ==> Reversed(tmp) == Digits(m, base, upper)
    ensures Higher(m, base) != 0 ==> Digits(Higher(m, base), base, upper) + Reversed(tmp) == Digits(m, base, upper)
  {
    hide DigitChar;
    assert tmp[..0] == [];
    assert Reversed(tmp) == tmp;
  }

  lemma {:induction false} NextDigit(m: nat, base: nat, upper: bool, done: string, tmp: string, goal: string)
    requires PrintBase(base) && Digits(m, base, upper) + Reversed(done) == goal
    requires tmp == done + [DigitChar(Lowest(m, base), upper)]
    ensures Higher(m, base) == 0 ==> Reversed(tmp) == goal
    ensures Higher(m, base) != 0 ==> Digits(Higher(m, base), base, upper) + Reversed(tmp) == goal
  {
    hide DigitChar;
    assert tmp[..|tmp| - 1] == done;
    assert Reversed(tmp) == [DigitChar(Lowest(m, base), upper)] + Reversed(done);
  }

  /** Padding up to the width, where this kind of padding applies. */
  method OutPad(o: Out, applies: bool, c: char, width: nat, shown: nat)
    requires o.Valid()
    modifies o, o.buf, o.tmp
    ensures o.Valid() && o.text == old(o.text) + Repeated(c, if applies && width > shown then width - shown else 0)
  {
    hide Repeated;
    NoneRepeated(c);
    if applies && width > shown {
      o.OutRepeat(c, width - shown);
    }
  }

  /** The parts of the field in order, around the digits already in the buffer. */
  method OutParts(o: Out, tmp: array<char>, n: nat, prefix: string, zeros: nat, width: nat, shown: nat,
                  outside: bool, inside: bool, left: bool)
    requires o.Valid() && n <= tmp.Length && tmp != o.buf && tmp != o.tmp
    modifies o, o.buf, o.tmp
    ensures o.Valid()
    ensures var gap := if width > shown then width - shown else 0;
            o.text == old(o.text) + Laid(if outside then gap else 0, prefix, if inside then gap else 0, zeros,
                                         Reversed(old(tmp[..n])), if left then gap else 0)
  {
    hide Repeated, Reversed;
    ghost var start := o.text;
    OutPad(o, outside, ' ', width, shown);
    o.OutText(prefix);
    OutPad(o, inside, '0', width, shown);
    o.OutRepeat('0', zeros);
    o.OutBackwards(tmp, n);
    OutPad(o, left, ' ', width, shown);
    ghost var gap := if width > shown then width - shown else 0;
    FromStart(start, Repeated(' ', if outside then gap else 0), prefix, Repeated('0', if inside then gap else 0),
              Repeated('0', zeros), Reversed(old(tmp[..n])), Repeated(' ', if left then gap else 0));
  }

  /** `out_number`. */
  method OutNumber(o: Out, m: Word, prefix: string, base: nat, upper: bool, width: Word, precision: Word,
                   padZero: bool, left: bool)
    requires o.Valid() && PrintBase(base) && |prefix| <= 2
    modifies o, o.buf, o.tmp
    ensures o.Valid() && o.text == old(o.text) + Printed(m, prefix, base, upper, width, precision, padZero, left)
  {
    hide Digits, Laid, PrintBase, Reversed;
    var tmp := new char[32];
    var n := FillDigits(m, base, upper, tmp);
    SameLength(tmp[..n]);
    var zeros := if precision > n then precision - n else 0;
    var shown := ToWord(n + zeros + |prefix|);
    OutParts(o, tmp, n, prefix, zeros, width, shown, !left && !padZero, !left && padZero && precision == 0, left);
  }

  lemma {:induction false} SameLength(s: string)
    ensures |Reversed(s)| == |s|
  {}

  lemma {:induction false} NoneRepeated(c: char)
    ensures Repeated(c, 0) == []
  {}

  lemma {:induction false} FromStart(s: string, a: string, b: string, c: string, d: string, e: string, f: string)
    ensures s + a + b + c + d + e + f == s + (a + b + c + d + e + f)
  {}

  /** The d, u, o, x and X branches of the format loop. */
  method FormatInteger(o: Out, c: Conversion, f: Flags)
    requires o.Valid()
    modifies o, o.buf, o.tmp
    ensures o.Valid() && o.text == old(o.text) + Format(c, f)
  {
    match c {
      case Decimal(v) =>
        var prefix := "";
        if v < 0 {
          prefix := "-";
        } else if f.plus {
          prefix := "+";
        } else if f.space {
          prefix := " ";
        }
        OutNumber(o, if v < 0 then Absolute(v) else v, prefix, 10, false, f.width, f.precision, f.padZero, f.left);
      case Unsigned(m) =>
        OutNumber(o, m, "", 10, false, f.width, f.precision, f.padZero, f.left);
      case Octal(m) =>
        OutNumber(o, m, if f.alt then "0" else "", 8, false, f.width, f.precision, f.padZero, f.left);
      case Hex(m, upper) =>
        OutNumber(o, m, if !f.alt then "" else if upper then "0X" else "0x", 16, upper,
                  f.width, f.precision, f.padZero, f.left);
    }
  }

  // ------------------------------------------------------------------- parsing

  predicate CString(s: string) {
    && s != []
    && s[|s| - 1] == '\0'
    && forall i :: 0 <= i < |s| - 1 ==> s[i] != '\0'
  }

  function Text(s: string): string
    requires s != []
  {
    s[..|s| - 1]
  }

  lemma {:induction false} SpacesFrom(t: string, p: nat)
    requires p <= |t|
    ensures Spaces(t[p..]) == if p < |t| && Space(t[p]) then 1 + Spaces(t[p + 1..]) else 0
  {
    if p < |t| {
      assert t[p..][0] == t[p] && t[p..][1..] == t[p + 1..];
    }
  }

  /** `skip_space`. */
  method SkipSpace(s: string) returns (p: nat)
    requires CString(s)
    ensures p == Spaces(Text(s))
  {
    hide Spaces;
    ghost var t := Text(s);
    p := 0;
    assert t[0..] == t;
    while Space(s[p])
      invariant p <= |t|
      invariant Spaces(t) == p + Spaces(t[p..])
      decreases |t| - p
    {
      assert p < |t| && t[p] == s[p];
      SpacesFrom(t, p);
      p := p + 1;
    }
    SpacesFrom(t, p);
  }

  lemma {:induction false} WrapStep(x: nat, base: nat, d: nat)
    ensures ToWord(ToWord(x) * base + d) == ToWord(x * base + d)
  {
    var q := x / TWO_32;
    assert x == q * TWO_32 + ToWord(x);
    Distribute(q, TWO_32, ToWord(x), base);
    ModMultiple(ToWord(x) * base + d, q * base);
  }

  lemma {:induction false} Distribute(q: nat, n: nat, r: nat, base: nat)
    ensures (q * n + r) * base == q * base * n + r * base
  {}

  lemma {:induction false} ModMultiple(y: nat, k: nat)
    ensures (y + k * TWO_32) % TWO_32 == y % TWO_32
  {}

  /** One more digit, in machine arithmetic. */
  function Horner(value: Word, base: nat, d: nat): Word { ToWord(value * base + d) }

  lemma {:induction false} DigitStep(t: string, from: nat, p: nat, base: nat)
    requires from <= p < |t|
    ensures Horner(ToWord(Number(t[from..p], base)), base, DigitValue(t[p])) == ToWord(Number(t[from..p + 1], base))
  {
    hide Number, DigitValue, ToWord;
    assert t[from..p + 1] == t[from..p] + [t[p]];
    NumberPush(t[from..p], t[p], base);
    WrapStep(Number(t[from..p], base), base, DigitValue(t[p]));
  }

  lemma {:induction false} RunStep(t: string, p: nat, base: int)
    requires p < |t|
    ensures Run(t[p..], base) == if DigitValue(t[p]) < base then 1 + Run(t[p + 1..], base) else 0
  {
    hide DigitValue;
    assert t[p..][0] == t[p] && t[p..][1..] == t[p + 1..];
  }

  /** The digit loop: the machine word is the number read so far, wrapped. */
  method ReadDigits(s: string, from: nat, base: int) returns (value: Word, p: nat)
    requires CString(s) && from <= |Text(s)| && ParseBase(base)
    ensures p == from + Run(Text(s)[from..], base)
    ensures value == ToWord(Number(Text(s)[from..p], Radix(base)))
  {
    hide DigitValue, Number, ToWord, Horner, Run;
    ghost var t := Text(s);
    p, value := from, 0;
    NoNumber(Radix(base));
    ZeroWord();
    NulIsNoDigit();
    assert t[from..from] == [];
    while DigitValue(s[p]) < base
      invariant from <= p <= |t|
      invariant Run(t[from..], base) == (p - from) + Run(t[p..], base)
      invariant value == ToWord(Number(t[from..p], Radix(base)))
      decreases |t| - p
    {
      assert p < |t| && t[p] == s[p];
      RunStep(t, p, base);
      DigitStep(t, from, p, Radix(base));
      value := Horner(value, base, DigitValue(s[p]));
      p := p + 1;
    }
    if p < |t| {
      RunStep(t, p, base);
    } else {
      NoRun(t[p..], base);
    }
  }

  lemma {:induction false} NoRun(t: string, base: int)
    requires t == []
    ensures Run(t, base) == 0
  {}

  lemma {:induction false} ZeroWord()
    ensures ToWord(0) == 0
  {}

  lemma {:induction false} NulIsNoDigit()
    ensures DigitValue('\0') == 99
  {}

  lemma {:induction false} CharAt(s: string, p: nat)
    requires CString(s) && p <= |Text(s)|
    ensures var u := Text(s)[p..];
            && s[p] == (if |u| == 0 then '\0' else u[0])
            && (|u| >= 1 ==> s[p + 1] == if |u| == 1 then '\0' else u[1])
            && (|u| >= 2 ==> s[p + 2] == if |u| == 2 then '\0' else u[2])
  {}

  /** The optional prefix: where the digits start and in which base. Each character is
    * looked at only when the one before it was not the terminator. */
  method ReadPrefix(s: string, at: nat, radix: int) returns (p: nat, base: int)
    requires CString(s) && at <= |Text(s)| && ParseBase(radix)
    ensures base == BaseOf(Text(s)[at..], radix) && ParseBase(base)
    ensures p == at + (if HexPrefix(Text(s)[at..], radix) then 2 else 0) && p <= |Text(s)|
  {
    hide DigitValue;
    p, base := at, radix;
    CharAt(s, at);
    NulIsNoDigit();
    if (base == 0 || base == 16) && s[p] == '0' && (s[p + 1] == 'x' || s[p + 1] == 'X') && DigitValue(s[p + 2]) < 16 {
      p := p + 2;
      base := 16;
    } else if base == 0 && s[p] == '0' {
      base := 8;
    } else if base == 0 {
      base := 10;
    }
  }

  method ReadSign(s: string, at: nat) returns (p: nat, negative: bool)
    requires CString(s) && at <= |Text(s)|
    ensures var t := Text(s)[at..];
            && p == at + SignLength(t)
            && (negative <==> SignLength(t) == 1 && t[0] == '-')
  {
    CharAt(s, at);
    p, negative := at, false;
    if s[p] == '+' || s[p] == '-' {
      negative := s[p] == '-';
      p := p + 1;
    }
  }

  /** `strtol`. */
  method ParseLong(s: string, radix: int) returns (r: Parsed)
    requires CString(s) && ParseBase(radix)
    ensures r == Strtol(Text(s), radix)
  {
    hide DigitValue, Number, ToWord, Run, Finished, Spaces, HexPrefix, BaseOf;
    ghost var text := Text(s);
    var start := SkipSpace(s);
    ghost var t := text[start..];
    var at, negative := ReadSign(s, start);
    assert text[at..] == t[SignLength(t)..];
    var p, base := ReadPrefix(s, at, radix);
    ghost var u := text[at..];
    assert text[p..] == u[p - at..];
    var value, end := ReadDigits(s, p, base);
    assert text[p..end] == u[p - at..end - at];
    if end == p {
      return NoDigits;
    }
    r := Finish(negative, value, end);
  }

  /** Conversion to `long` and the sign. */
  method Finish(negative: bool, value: Word, end: nat) returns (r: Parsed)
    ensures r == Finished(negative, value, end)
  {
    if negative && value == TWO_31 {
      return Overflow;
    }
    var v := ToSigned(value);
    return Parsed(if negative then -v else v, end);
  }

  /** Printed with room to spare, terminated, and read again: the same value. */
  method ThereAndBack(c: Conversion, f: Flags, buf: array<char>) returns (r: Parsed)
    requires |Format(c, f)| < buf.Length
    modifies buf
    ensures buf[..|Format(c, f)| + 1] == Format(c, f) + ['\0']
    ensures c.Decimal? && c.v > -TWO_31 ==> r.Parsed? && r.value == c.v
    ensures !c.Decimal? ==> r.Parsed? && ToWord(r.value) == c.m
  {
    hide Format, Strtol, Base;
    var o := new Out(buf, buf.Length);
    FormatInteger(o, c, f);
    ghost var text := Format(c, f);
    assert o.text == text;
    buf[o.len] := '\0';
    assert buf[..o.len + 1] == text + ['\0'];
    FormatHasNoNul(c, f);
    var s := buf[..o.len + 1];
    assert Text(s) == text;
    BaseParses(c);
    r := ParseLong(s, Base(c));
    PrintParse(c, f, Base(c), []);
    assert text + [] == text;
  }

  lemma {:induction false} BaseParses(c: Conversion)
    ensures ParseBase(Base(c))
  {}

  lemma {:induction false} FormatHasNoNul(c: Conversion, f: Flags)
    ensures '\0' !in Format(c, f)
  {
    hide Digits, Number, Printed;
    var b, upper := Base(c), c.Hex? && c.upper;
    var before, zeros, after :=
      PrintedShape(Magnitude(c), Prefix(c, f), b, upper, f.width, f.precision, f.padZero, f.left);
    DigitsDenote(Magnitude(c), b, upper);
    DigitsHaveNoNul(Digits(Magnitude(c), b, upper), b);
  }

  lemma {:induction false} DigitsHaveNoNul(ds: string, base: nat)
    requires AllDigits(ds, base) && base <= 16
    ensures '\0' !in ds
  {
    NulIsNoDigit();
  }
}
