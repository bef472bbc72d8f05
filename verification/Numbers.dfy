/** Numbers to text: itoa, strrev and the %#x conversion of student-distrib/lib.c. */
module Numbers {
  import opened Bytes

  const WORD := 0x1_0000_0000
  const MAX_DIGITS := 32

  /** The lookup table: the ten decimal digits and then the capital letters. */
  function Lookup(i: nat): byte
    requires i < 36
  {
    if i < 10 then 48 + i else 55 + i
  }

  lemma LookupTable()
    ensures forall i | 0 <= i < 36 :: Lookup(i) == "0123456789ABCDEFGHIJKLMNOPQRSTUVWXYZ"[i] as int
  {
  }

  // ----- Reading a numeral.

  /** The value of a digit character; 36 and above for anything else. */
  function DigitValue(c: byte): nat
  {
    if 48 <= c <= 57 then c - 48 else if 65 <= c <= 90 then c - 55 else 36 + c
  }

  predicate Numeral(s: seq<byte>, radix: nat)
  {
    s != [] && forall i | 0 <= i < |s| :: DigitValue(s[i]) < radix
  }

  /** The number a numeral stands for, most significant digit first. */
  function Value(s: seq<byte>, radix: nat): nat
  {
    if s == [] then 0 else radix * Value(s[..|s| - 1], radix) + DigitValue(s[|s| - 1])
  }

  predicate NoLeadingZero(s: seq<byte>)
  {
    |s| > 1 ==> s[0] != 48
  }

  /** The same, least significant digit first. */
  function LowValue(s: seq<byte>, radix: nat): nat
  {
    if s == [] then 0 else DigitValue(s[0]) + radix * LowValue(s[1..], radix)
  }

  function Reversed(s: seq<byte>): (r: seq<byte>)
    ensures |r| == |s| && forall i | 0 <= i < |s| :: r[i] == s[|s| - 1 - i]
  {
    seq(|s|, i requires 0 <= i < |s| => s[|s| - 1 - i])
  }

  lemma {:induction false} ValueReversed(s: seq<byte>, radix: nat)
    ensures Value(Reversed(s), radix) == LowValue(s, radix)
  {
    if s != [] {
      ValueReversed(s[1..], radix);
      assert Reversed(s)[..|s| - 1] == Reversed(s[1..]);
      assert Reversed(s)[|s| - 1] == s[0];
    }
  }

  function Power(b: nat, e: nat): nat
  {
    if e == 0 then 1 else b * Power(b, e - 1)
  }

  lemma {:induction false} LowValueSnoc(s: seq<byte>, c: byte, radix: nat)
    ensures LowValue(s + [c], radix) == LowValue(s, radix) + DigitValue(c) * Power(radix, |s|)
  {
    if s == [] {
      assert [c][1..] == [];
    } else {
      assert (s + [c])[1..] == s[1..] + [c];
      LowValueSnoc(s[1..], c, radix);
      var d, p := DigitValue(c), Power(radix, |s| - 1);
      assert radix * (LowValue(s[1..], radix) + d * p) == radix * LowValue(s[1..], radix) + d * (radix * p) by {
        Distribute(radix, LowValue(s[1..], radix), d, p);
      }
    }
  }

  lemma Distribute(r: nat, a: nat, d: nat, p: nat)
    ensures r * (a + d * p) == r * a + d * (r * p)
  {
  }

  lemma {:induction false} PowerGrows(radix: nat, k: nat)
    requires radix >= 2
    ensures Power(radix, k) >= Power(2, k) >= 1
  {
    if k > 0 {
      PowerGrows(radix, k - 1);
      assert radix * Power(radix, k - 1) >= 2 * Power(2, k - 1);
    }
  }

  lemma PowersOfTwo()
    ensures Power(2, 32) == WORD
  {
    assert Power(2, 8) == 256;
    assert Power(2, 16) == 65536;
    assert Power(2, 24) == 16777216;
  }

  lemma {:induction false} PowerMonotone(b: nat, k: nat, m: nat)
    requires b >= 2 && k <= m
    ensures Power(b, k) <= Power(b, m)
    decreases m
  {
    if k < m {
      PowerMonotone(b, k, m - 1);
      PowerGrows(b, m - 1);
    }
  }

  // ----- The program.

  lemma ReversedSlice(now: seq<byte>, was: seq<byte>, at: nat, len: nat)
    requires |now| == |was| && at + len <= |now|
    requires forall j | at <= j < at + len :: now[j] == was[2 * at + len - 1 - j]
    ensures now[at..at + len] == Reversed(was[at..at + len])
  {
  }

  /** In-place reversal of the string of a given length at a position. */
  method Strrev(buf: array<byte>, at: nat, len: nat)
    requires at + len <= buf.Length
    modifies buf
    ensures buf[at..at + len] == Reversed(old(buf[at..at + len]))
    ensures buf[..at] == old(buf[..at]) && buf[at + len..] == old(buf[at + len..])
  {
    ghost var was := buf[..];
    var beg, end := 0, len - 1;
    while beg < end
      invariant 0 <= beg <= len && beg + end == len - 1
      invariant forall j | at <= j < at + beg || at + end < j < at + len :: buf[j] == was[2 * at + len - 1 - j]
      invariant forall j | 0 <= j < at || at + beg <= j <= at + end || at + len <= j < buf.Length :: buf[j] == was[j]
    {
      buf[at + end], buf[at + beg] := buf[at + beg], buf[at + end];
      beg, end := beg + 1, end - 1;
    }
    ReversedSlice(buf[..], was, at, len);
  }

  /** What conversion leaves behind at a position: a numeral of the value without leading zeros, and NUL. */
  ghost predicate Converted(buf: seq<byte>, at: nat, len: nat, value: nat, radix: nat)
  {
    && 1 <= len <= MAX_DIGITS && at + len < |buf| && buf[at + len] == NUL
    && var s := buf[at..at + len];
       Numeral(s, radix) && NoLeadingZero(s) && Value(s, radix) == value
  }

  /** The digits written so far, least significant first, and what is left of the value. */
  ghost predicate Converting(digits: seq<byte>, left: nat, value: nat, radix: nat)
  {
    && (forall i | 0 <= i < |digits| :: DigitValue(digits[i]) < radix)
    && LowValue(digits, radix) + left * Power(radix, |digits|) == value
    && left * Power(2, |digits|) <= value
    && (left == 0 && digits != [] ==> digits[|digits| - 1] != 48)
  }

  function NextDigit(left: nat, radix: nat): byte
    requires 2 <= radix <= 36
  {
    Lookup(left % radix)
  }

  function Quotient(left: nat, radix: nat): (q: nat)
    requires 2 <= radix
  {
    left / radix
  }

  lemma QuotientSmaller(left: nat, radix: nat)
    requires left > 0 && radix >= 2
    ensures Quotient(left, radix) < left
  {
  }

  lemma ConvertStep(digits: seq<byte>, left: nat, value: nat, radix: nat)
    requires 2 <= radix <= 36 && left > 0 && value < WORD && Converting(digits, left, value, radix)
    ensures |digits| < MAX_DIGITS
    ensures Converting(digits + [NextDigit(left, radix)], Quotient(left, radix), value, radix)
  {
    var c, k := Lookup(left % radix), |digits|;
    var after := digits + [c];
    TooManyDigits(left, k);
    LowValueSnoc(digits, c, radix);
    DivideStep(left, radix, Power(radix, k), LowValue(digits, radix), value);
    HalveStep(left, radix, Power(2, k), value);
    assert left / radix == 0 ==> left % radix == left;
  }

  lemma TooManyDigits(left: nat, k: nat)
    ensures left > 0 && k >= MAX_DIGITS ==> left * Power(2, k) >= WORD
  {
    if left > 0 && k >= MAX_DIGITS {
      PowersOfTwo();
      PowerMonotone(2, MAX_DIGITS, k);
      assert left * Power(2, k) >= Power(2, k);
    }
  }

  lemma DivideStep(left: nat, radix: nat, p: nat, low: nat, value: nat)
    requires radix > 0 && low + left * p == value
    ensures low + (left % radix) * p + (left / radix) * (radix * p) == value
  {
  }

  lemma HalveStep(left: nat, radix: nat, p: nat, value: nat)
    requires radix >= 2 && left * p <= value
    ensures (left / radix) * (2 * p) <= value
  {
  }

  lemma ConvertEnds(digits: seq<byte>, value: nat, radix: nat)
    requires Converting(digits, 0, value, radix) && digits != []
    ensures var s := Reversed(digits); Numeral(s, radix) && NoLeadingZero(s) && Value(s, radix) == value
  {
    ValueReversed(digits, radix);
  }

  lemma ConvertStarts(value: nat, radix: nat)
    ensures Converting([], value, value, radix)
  {
  }

  lemma ZeroNumeral(radix: nat)
    requires radix >= 2
    ensures Numeral([48], radix) && NoLeadingZero([48]) && Value([48], radix) == 0
  {
  }

  /** itoa into a buffer at a position, with room for 32 digits and the terminator; reports the length. */
  method Itoa(value: nat, buf: array<byte>, at: nat, radix: nat) returns (len: nat)
    requires value < WORD && 2 <= radix <= 36 && at + MAX_DIGITS < buf.Length
    modifies buf
    ensures Converted(buf[..], at, len, value, radix)
    ensures buf[..at] == old(buf[..at]) && buf[at + len + 1..] == old(buf[at + len + 1..])
  {
    if value == 0 {
      ZeroNumeral(radix);
      hide Value, Numeral, NoLeadingZero;
      buf[at], buf[at + 1] := 48, NUL;
      assert buf[at..at + 1] == [48];
      return 1;
    }
    hide Value, Numeral, NoLeadingZero, Reversed, Converting;
    ghost var digits;
    len, digits := WriteDigits(value, buf, at, radix);
    ConvertEnds(digits, value, radix);
    buf[at + len] := NUL;
    assert buf[at..at + len] == digits;
    Strrev(buf, at, len);
    assert buf[at + len] == buf[at + len..][0];
  }

  /** The digit loop, student-distrib/lib.c:313-318. */
  method WriteDigits(value: nat, buf: array<byte>, at: nat, radix: nat) returns (n: nat, ghost digits: seq<byte>)
    requires 0 < value < WORD && 2 <= radix <= 36 && at + MAX_DIGITS < buf.Length
    modifies buf
    ensures 1 <= n <= MAX_DIGITS && Converting(digits, 0, value, radix) && digits != []
    ensures buf[at..at + n] == digits && buf[..at] == old(buf[..at]) && buf[at + n..] == old(buf[at + n..])
  {
    hide Converting, NextDigit, Quotient;
    ConvertStarts(value, radix);
    n, digits := 0, [];
    var left: nat := value;
    while left > 0
      invariant n <= MAX_DIGITS && |digits| == n && Converting(digits, left, value, radix)
          && (n == 0 ==> left == value)
      invariant buf[at..at + n] == digits && buf[..at] == old(buf[..at]) && buf[at + n..] == old(buf[at + n..])
      decreases left
    {
      ConvertStep(digits, left, value, radix);
      QuotientSmaller(left, radix);
      buf[at + n] := NextDigit(left, radix);
      digits := digits + [NextDigit(left, radix)];
      assert buf[at..at + n + 1] == buf[at..at + n] + [buf[at + n]];
      n, left := n + 1, Quotient(left, radix);
    }
  }

  // ----- A numeral without leading zeros is the only one of its value.

  lemma {:induction false} ValueBelow(s: seq<byte>, radix: nat)
    requires radix >= 2 && forall i | 0 <= i < |s| :: DigitValue(s[i]) < radix
    ensures Value(s, radix) < Power(radix, |s|)
  {
    if s != [] {
      var t := s[..|s| - 1];
      ValueBelow(t, radix);
      StepBelow(radix, Value(t, radix), DigitValue(s[|s| - 1]), Power(radix, |t|));
    }
  }

  lemma StepBelow(r: nat, v: nat, d: nat, p: nat)
    requires v < p && d < r
    ensures r * v + d < r * p
  {
    MulMonotone(r, v + 1, p);
    assert r * (v + 1) == r * v + r;
  }

  lemma {:induction false} ValueAbove(s: seq<byte>, radix: nat)
    requires radix >= 2 && s != [] && s[0] != 48
    ensures Value(s, radix) >= Power(radix, |s| - 1)
  {
    var t := s[..|s| - 1];
    if |s| > 1 {
      assert t[0] == s[0];
      ValueAbove(t, radix);
      MulMonotone(radix, Power(radix, |t| - 1), Value(t, radix));
    } else {
      assert DigitValue(s[0]) >= 1;
      assert Power(radix, 0) == 1;
    }
  }

  lemma MulMonotone(r: nat, a: nat, b: nat)
    requires a <= b
    ensures r * a <= r * b
  {
  }

  /** itoa's output is determined: two numerals of one value without leading zeros are equal. */
  lemma {:induction false} NumeralUnique(a: seq<byte>, b: seq<byte>, radix: nat)
    requires 2 <= radix <= 36 && Numeral(a, radix) && Numeral(b, radix) && NoLeadingZero(a) && NoLeadingZero(b)
    requires Value(a, radix) == Value(b, radix)
    ensures a == b
    decreases |a|
  {
    var m, n := |a| - 1, |b| - 1;
    var x, y, d, e := Value(a[..m], radix), Value(b[..n], radix), DigitValue(a[m]), DigitValue(b[n]);
    SameQuotient(radix, x, d, y, e);
    assert a[m] == b[n];
    if m == 0 || n == 0 {
      ShortNumeral(a, radix);
      ShortNumeral(b, radix);
    } else {
      NumeralUnique(a[..m], b[..n], radix);
    }
    assert a == a[..m] + [a[m]] && b == b[..n] + [b[n]];
  }

  lemma ShortNumeral(a: seq<byte>, radix: nat)
    requires 2 <= radix <= 36 && Numeral(a, radix) && NoLeadingZero(a)
    ensures Value(a[..|a| - 1], radix) == 0 <==> |a| == 1
  {
    if |a| > 1 {
      var t := a[..|a| - 1];
      assert t[0] == a[0];
      ValueAbove(t, radix);
      PowerGrows(radix, |t| - 1);
    }
  }

  lemma SameQuotient(r: nat, x: nat, d: nat, y: nat, e: nat)
    requires r > 0 && d < r && e < r && r * x + d == r * y + e
    ensures x == y && d == e
  {
    if x < y {
      MulMonotone(r, x + 1, y);
    } else if y < x {
      MulMonotone(r, y + 1, x);
    }
  }

  // ----- %#x.

  lemma SixteenPowers()
    ensures Power(16, 8) == WORD
  {
  }

  lemma HexLength(s: seq<byte>)
    requires Numeral(s, 16) && NoLeadingZero(s) && Value(s, 16) < WORD
    ensures |s| <= 8
  {
    SixteenPowers();
    if |s| > 8 {
      ValueAbove(s, 16);
      PowerMonotone(16, 8, |s| - 1);
    }
  }

  lemma {:induction false} PaddedValue(n: nat, s: seq<byte>, radix: nat)
    requires radix >= 2 && Numeral(s, radix)
    ensures Numeral(Repeat(48, n) + s, radix) && Value(Repeat(48, n) + s, radix) == Value(s, radix)
    decreases |s|
  {
    var p := Repeat(48, n) + s;
    forall i | 0 <= i < |p| ensures DigitValue(p[i]) < radix {
      if i >= n { assert p[i] == s[i - n]; }
    }
    assert p[..|p| - 1] == Repeat(48, n) + s[..|s| - 1];
    if |s| > 1 {
      PaddedValue(n, s[..|s| - 1], radix);
    } else {
      assert p[..|p| - 1] == Repeat(48, n);
      ZerosValue(n, radix);
    }
  }

  lemma ZerosValue(n: nat, radix: nat)
    ensures Value(Repeat(48, n), radix) == 0
  {
    if n > 0 {
      assert Repeat(48, n)[..n - 1] == Repeat(48, n - 1);
      ZerosValue(n - 1, radix);
    }
  }

  lemma SplitAt(s: seq<byte>, a: nat, b: nat, c: nat)
    requires a <= b <= c <= |s|
    ensures s[a..c] == s[a..b] + s[b..c]
  {
  }

  /** strlen of a string whose terminator is known to be at z. */
  method Strlen(buf: array<byte>, at: nat, ghost z: nat) returns (len: nat)
    requires at <= z < buf.Length && buf[z] == NUL && forall j | at <= j < z :: buf[j] != NUL
    ensures at + len == z
  {
    len := 0;
    while buf[at + len] != NUL
      invariant at + len <= z
      decreases z - len
    {
      len := len + 1;
    }
  }

  lemma NumeralNulFree(s: seq<byte>, radix: nat)
    requires Numeral(s, radix) && radix <= 36
    ensures NulFree(s)
  {
  }

  /** The alternate hexadecimal conversion of printf: the string handed to puts has exactly eight digits. */
  method AlternateHex(value: nat, buf: array<byte>) returns (start: nat)
    requires value < WORD && buf.Length == 64
    modifies buf
    ensures start <= 8 && buf[start + 8] == NUL
    ensures var shown := buf[start..start + 8]; Numeral(shown, 16) && Value(shown, 16) == value
  {
    hide Value, Numeral, NoLeadingZero;
    var len := Itoa(value, buf, 8, 16);
    ghost var digits := buf[8..8 + len];
    HexLength(digits);
    NumeralNulFree(digits, 16);
    assert forall j | 8 <= j < 8 + len :: buf[j] == digits[j - 8];
    start := Strlen(buf, 8, 8 + len);
    var i := start;
    assert buf[start..i] == Repeat(48, 0);
    while i < 8
      invariant start <= i <= 8
      invariant buf[start..i] == Repeat(48, i - start)
      invariant buf[8..8 + len] == digits && buf[8 + len] == NUL
    {
      buf[i] := 48;
      assert buf[start..i + 1] == buf[start..i] + [48];
      i := i + 1;
    }
    assert start + 8 == 8 + len;
    SplitAt(buf[..], start, 8, 8 + len);
    assert buf[start..8 + len] == Repeat(48, 8 - len) + digits;
    PaddedValue(8 - len, digits, 16);
  }
}
