/**
 Decimal text of 64-bit integers: the output of sprintf("%lld") and the reading of
 strtoll in base 10.
 */
module Decimal {
  import opened Engine

  const INT64_MAX := 0x7FFF_FFFF_FFFF_FFFF
  const INT64_MIN := -0x8000_0000_0000_0000

  const ZERO: Byte := 48
  const MINUS: Byte := 45
  const PLUS: Byte := 43
  const NUL: Byte := 0

  function Digits(n: nat): (r: Bytes)
    ensures |r| >= 1
  {
    if n < 10 then [ZERO + n] else Digits(n / 10) + [ZERO + n % 10]
  }

  /** sprintf(buff, "%" PRId64, n) */
  function Print(n: int): (r: Bytes)
    ensures |r| >= 1
  {
    if n < 0 then [MINUS] + Digits(-n) else Digits(n)
  }

  predicate IsDigit(b: Byte) { ZERO <= b <= ZERO + 9 }

  /** isspace in the C locale */
  predicate IsSpace(b: Byte) { b == 32 || 9 <= b <= 13 }

  function SkipSpaces(s: Bytes, i: nat): (r: nat)
    requires i <= |s|
    ensures i <= r <= |s|
    decreases |s| - i
  {
    if i < |s| && IsSpace(s[i]) then SkipSpaces(s, i + 1) else i
  }

  /** The end of the digits that start at `i`. */
  function DigitsEnd(s: Bytes, i: nat): (r: nat)
    requires i <= |s|
    ensures i <= r <= |s|
    decreases |s| - i
  {
    if i < |s| && IsDigit(s[i]) then DigitsEnd(s, i + 1) else i
  }

  /** The number that a digit string denotes. */
  function Value(s: Bytes): int {
    if s == [] then 0 else 10 * Value(s[..|s| - 1]) + (s[|s| - 1] - ZERO)
  }

  function Clamp(n: int): int {
    if n > INT64_MAX then INT64_MAX else if n < INT64_MIN then INT64_MIN else n
  }

  datatype Parsed = Parsed(value: int, end: nat)

  /** strtoll(s, &end, 10): without any digit the value is 0 and the end is the start. */
  function StrToLL(s: Bytes): (r: Parsed)
    ensures r.end <= |s|
  {
    var i := SkipSpaces(s, 0);
    var signed := i < |s| && (s[i] == MINUS || s[i] == PLUS);
    var d := if signed then i + 1 else i;
    var e := DigitsEnd(s, d);
    if e == d then Parsed(0, 0)
    else
      var v := Value(s[d..e]);
      Parsed(Clamp(if signed && s[i] == MINUS then -v else v), e)
  }

  /** The text up to its terminator. */
  function CString(s: Bytes): (r: Bytes)
    ensures |r| <= |s|
  {
    if s == [] || s[0] == NUL then [] else [s[0]] + CString(s[1..])
  }

  // ----- printing and reading back

  lemma {:induction false} DigitsAreDigits(n: nat)
    ensures forall i :: 0 <= i < |Digits(n)| ==> IsDigit(Digits(n)[i])
    ensures Value(Digits(n)) == n
  {
    if n < 10 {
      assert Digits(n)[..0] == [];
    } else {
      DigitsAreDigits(n / 10);
      assert Digits(n)[..|Digits(n)| - 1] == Digits(n / 10);
    }
  }

  lemma {:induction false} DigitsEndAll(s: Bytes, i: nat)
    requires i <= |s| && forall k :: i <= k < |s| ==> IsDigit(s[k])
    ensures DigitsEnd(s, i) == |s|
    decreases |s| - i
  {
    if i < |s| {
      DigitsEndAll(s, i + 1);
    }
  }

  /** Reading back a printed 64-bit number gives the number and consumes all of its text. */
  lemma PrintParse(n: int)
    requires INT64_MIN <= n <= INT64_MAX
    ensures StrToLL(Print(n)) == Parsed(n, |Print(n)|)
  {
    var s := Print(n);
    var m := if n < 0 then -n else n;
    DigitsAreDigits(m);
    if n < 0 {
      assert s[1..] == Digits(m);
      assert forall k :: 1 <= k < |s| ==> s[k] == Digits(m)[k - 1];
      DigitsEndAll(s, 1);
      assert s[1..|s|] == s[1..];
    } else {
      assert IsDigit(s[0]);
      DigitsEndAll(s, 0);
      assert s[0..|s|] == s;
    }
  }

  /** A printed number contains no terminator. */
  lemma PrintCString(n: int)
    ensures CString(Print(n)) == Print(n)
  {
    DigitsAreDigits(if n < 0 then -n else n);
    NoNul(Print(n));
  }

  lemma {:induction false} NoNul(s: Bytes)
    requires forall i :: 0 <= i < |s| ==> s[i] != NUL
    ensures CString(s) == s
  {
    if s != [] {
      NoNul(s[1..]);
    }
  }

  function Pow10(k: nat): nat { if k == 0 then 1 else 10 * Pow10(k - 1) }

  lemma {:induction false} DigitsLength(n: nat, k: nat)
    requires 1 <= k && n < Pow10(k)
    ensures |Digits(n)| <= k
  {
    if n >= 10 {
      assert k > 1;
      DigitsLength(n / 10, k - 1);
    }
  }

  /** A printed 64-bit number and its terminator fit the 24-byte buffer. */
  lemma PrintFits(n: int)
    requires INT64_MIN <= n <= INT64_MAX
    ensures |Print(n)| <= 20
  {
    assert Pow10(19) == 10_000_000_000_000_000_000 by {
      assert Pow10(4) == 10_000;
      assert Pow10(8) == 100_000_000;
      assert Pow10(12) == 1_000_000_000_000;
      assert Pow10(16) == 10_000_000_000_000_000;
    }
    DigitsLength(if n < 0 then -n else n, 19);
  }

  // ----- the texts that are numbers

  /** A blank in the C locale: a space, or a character from tab to carriage return. */
  predicate Blank(b: Byte) { b == 32 || b == 9 || b == 10 || b == 11 || b == 12 || b == 13 }

  /** Blanks up to `i`, at most one sign up to `j`, and then nothing but digits, at least one. */
  ghost predicate Numeral(t: Bytes, i: nat, j: nat) {
    && i <= j < |t| && (forall k :: 0 <= k < i ==> Blank(t[k]))
    && (j == i || (j == i + 1 && (t[i] == 43 || t[i] == 45)))
    && (forall k :: j <= k < |t| ==> 48 <= t[k] <= 57)
  }

  /** The text is a number as a whole; the empty text counts. */
  ghost predicate Whole(t: Bytes) { t == [] || exists i: nat, j: nat :: Numeral(t, i, j) }

  lemma {:induction false} SkipSpacesStops(s: Bytes, i: nat)
    requires i <= |s|
    ensures var r := SkipSpaces(s, i);
      (forall k :: i <= k < r ==> Blank(s[k])) && (r < |s| ==> !Blank(s[r]))
    decreases |s| - i
  {
    if i < |s| && IsSpace(s[i]) {
      SkipSpacesStops(s, i + 1);
    }
  }

  lemma {:induction false} DigitsEndStops(s: Bytes, i: nat)
    requires i <= |s|
    ensures var r := DigitsEnd(s, i);
      (forall k :: i <= k < r ==> 48 <= s[k] <= 57) && (r < |s| ==> !(48 <= s[r] <= 57))
    decreases |s| - i
  {
    if i < |s| && IsDigit(s[i]) {
      DigitsEndStops(s, i + 1);
    }
  }

  /** Where a numeral's blanks and digits are is where the reading finds them. */
  lemma NumeralRead(t: Bytes, i: nat, j: nat)
    requires Numeral(t, i, j)
    ensures SkipSpaces(t, 0) == i && DigitsEnd(t, j) == |t|
    ensures (i < |t| && (t[i] == MINUS || t[i] == PLUS)) <==> j == i + 1
  {
    SkipSpacesStops(t, 0);
    DigitsEndStops(t, j);
  }

  /** The whole text is consumed iff it is empty or a numeral. */
  lemma WholeIff(t: Bytes)
    ensures StrToLL(t).end == |t| <==> Whole(t)
    ensures StrToLL(t).end == 0 ==> StrToLL(t).value == 0
  {
    if t != [] && Whole(t) {
      var i: nat, j: nat :| Numeral(t, i, j);
      NumeralRead(t, i, j);
    }
    if t != [] && StrToLL(t).end == |t| {
      var i := SkipSpaces(t, 0);
      SkipSpacesStops(t, 0);
      var j := if i < |t| && (t[i] == MINUS || t[i] == PLUS) then i + 1 else i;
      DigitsEndStops(t, j);
      assert Numeral(t, i, j);
    }
  }

  /** Reading stops at the first NUL. */
  lemma {:induction false} CStringStops(s: Bytes)
    ensures var n := |CString(s)|;
      CString(s) == s[..n] && (forall i :: 0 <= i < n ==> s[i] != 0) && (n < |s| ==> s[n] == 0)
  {
    if s != [] && s[0] != NUL {
      CStringStops(s[1..]);
      var n := |CString(s[1..])|;
      assert s[..n + 1] == [s[0]] + s[1..][..n];
      assert forall i :: 0 < i < n + 1 ==> s[i] == s[1..][i - 1];
      assert n + 1 < |s| ==> s[n + 1] == s[1..][n];
    }
  }

  // ----- the numbers that texts denote

  function Zeros(z: nat): (r: Bytes)
    ensures |r| == z && forall i :: 0 <= i < z ==> r[i] == 48
  {
    seq(z, _ => 48)
  }

  lemma {:induction false} ValueZeros(z: nat)
    ensures Value(Zeros(z)) == 0
  {
    if z > 0 {
      ValueZeros(z - 1);
      assert Zeros(z)[..z - 1] == Zeros(z - 1);
    }
  }

  lemma {:induction false} ValueLead(z: nat, d: Bytes)
    ensures Value(Zeros(z) + d) == Value(d)
    decreases |d|
  {
    if d == [] {
      ValueZeros(z);
      assert Zeros(z) + d == Zeros(z);
    } else {
      var n := |d| - 1;
      assert (Zeros(z) + d)[..z + n] == Zeros(z) + d[..n];
      ValueLead(z, d[..n]);
    }
  }

  /** The digits of a number are characters '0' to '9', most significant first. */
  lemma DigitChars(n: nat)
    ensures forall i :: 0 <= i < |Digits(n)| ==> 48 <= Digits(n)[i] <= 57
    ensures n < 10 ==> Digits(n) == [48 + n]
    ensures n >= 10 ==> Digits(n) == Digits(n / 10) + [48 + n % 10]
    ensures Print(n) == Digits(n) && (n > 0 ==> Print(0 - n) == [45] + Digits(n))
  {
    DigitsAreDigits(n);
  }

  /**
   Blanks, an optional sign, zeros and the digits of `n` read as `n`, or `-n` after
   a minus, cut to 64 bits; the whole text is consumed.
   */
  lemma NumeralValue(blanks: Bytes, sign: Bytes, z: nat, n: nat)
    requires (forall i :: 0 <= i < |blanks| ==> Blank(blanks[i])) && (sign == [] || sign == [43] || sign == [45])
    ensures var t := blanks + sign + Zeros(z) + Digits(n); var v := if sign == [45] then 0 - n else n;
      StrToLL(t) == Parsed(if v > 9223372036854775807 then 9223372036854775807
                           else if v < -9223372036854775808 then -9223372036854775808 else v, |t|)
  {
    hide Digits, StrToLL, SkipSpaces, DigitsEnd, Value;
    var d := Zeros(z) + Digits(n);
    DigitsAreDigits(n);
    DigitChars(n);
    ValueLead(z, Digits(n));
    assert blanks + sign + Zeros(z) + Digits(n) == blanks + sign + d;
    NumeralParsed(blanks, sign, d);
  }

  lemma NumeralParsed(blanks: Bytes, sign: Bytes, d: Bytes)
    requires (forall i :: 0 <= i < |blanks| ==> Blank(blanks[i])) && (sign == [] || sign == [43] || sign == [45])
    requires d != [] && forall i :: 0 <= i < |d| ==> 48 <= d[i] <= 57
    ensures var t := blanks + sign + d;
      StrToLL(t) == Parsed(Clamp(if sign == [45] then 0 - Value(d) else Value(d)), |t|)
  {
    hide Value;
    var t := blanks + sign + d;
    var i, j := |blanks|, |blanks| + |sign|;
    assert forall k :: 0 <= k < i ==> t[k] == blanks[k];
    assert forall k :: j <= k < |t| ==> t[k] == d[k - j];
    assert sign != [] ==> t[i] == sign[0];
    assert Numeral(t, i, j);
    NumeralRead(t, i, j);
    assert t[j..|t|] == d;
  }
}
