/**
 Numbers: how much of a text `strtod` converts, the exact value of what it converts,
 and the decimal text of integers.
 */
module JsonNumber {
  import opened Octets
  import opened ByteText

  const NUMBER_MAX := 63      // what fits into the buffer of parse_number

  predicate IsDigit(b: byte) { 48 <= b <= 57 }
  predicate IsSign(b: byte) { b == PLUS || b == MINUS }
  predicate IsExp(b: byte) { b == 101 || b == 69 }
  predicate NumberByte(b: byte) { IsDigit(b) || IsSign(b) || IsExp(b) || b == DOT }

  /** How many bytes `parse_number` copies. */
  function Run(t: Bytes, limit: nat): (n: nat)
    ensures n <= |t| && n <= limit
  {
    if limit > 0 && t != [] && NumberByte(t[0]) then 1 + Run(t[1..], limit - 1) else 0
  }

  function Digits(t: Bytes): (n: nat)
    ensures n <= |t|
  {
    if t != [] && IsDigit(t[0]) then 1 + Digits(t[1..]) else 0
  }

  function Sign(t: Bytes): (n: nat)
    ensures n <= |t|
  {
    if t != [] && IsSign(t[0]) then 1 else 0
  }

  /** The length of a sign, digits with an optional point, at least one digit; else 0. */
  function Mantissa(t: Bytes): (n: nat)
    ensures n <= |t|
  {
    var s := Sign(t);
    var i := Digits(t[s..]);
    if s + i < |t| && t[s + i] == DOT then
      var f := Digits(t[s + i + 1..]);
      if i + f == 0 then 0 else s + i + 1 + f
    else if i == 0 then 0 else s + i
  }

  /** The length of an exponent part, or 0 if there is no complete one. */
  function Exponent(t: Bytes): (n: nat)
    ensures n <= |t|
  {
    if t != [] && IsExp(t[0]) then
      var s := Sign(t[1..]);
      var d := Digits(t[1 + s..]);
      if d == 0 then 0 else 1 + s + d
    else 0
  }

  /** How much of `t` `strtod` converts. */
  function Converted(t: Bytes): (n: nat)
    ensures n <= |t|
  {
    var m := Mantissa(t);
    if m == 0 then 0 else m + Exponent(t[m..])
  }

  // ----- values -----

  function Decimal(t: Bytes): nat {
    if t == [] then 0 else Decimal(t[..|t| - 1]) * 10 + (if IsDigit(t[|t| - 1]) then t[|t| - 1] - 48 else 0)
  }

  /** `m` times ten to the power of `e`. */
  function Scale(m: int, e: int): real
    decreases if e < 0 then -e else e
  {
    if e == 0 then m as real else if e > 0 then 10.0 * Scale(m, e - 1) else Scale(m, e + 1) / 10.0
  }

  function Signed(t: Bytes, v: int): int {
    if t != [] && t[0] == MINUS then -v else v
  }

  /** The digits before the point, those behind it, and the exponent. */
  function Whole(t: Bytes): Bytes {
    t[Sign(t)..Sign(t) + Digits(t[Sign(t)..])]
  }

  function Fraction(t: Bytes): Bytes {
    var p := Sign(t) + Digits(t[Sign(t)..]);
    if p < |t| && t[p] == DOT && Mantissa(t) > p then t[p + 1..Mantissa(t)] else []
  }

  function Power(t: Bytes): int {
    var x := if Mantissa(t) < |t| then t[Mantissa(t) + 1..] else [];
    Signed(x, Decimal(x[Sign(x)..]))
  }

  /** The value of a text that is converted completely. */
  function Value(t: Bytes): real {
    Scale(Signed(t, Decimal(Whole(t) + Fraction(t))), Power(t) - |Fraction(t)|)
  }

  // ----- what is converted is converted again -----

  lemma {:induction false} DigitsCut(t: Bytes, n: nat)
    requires n <= |t|
    ensures Digits(t[..n]) == if n < Digits(t) then n else Digits(t)
  {
    if n > 0 && IsDigit(t[0]) {
      DigitsCut(t[1..], n - 1);
      assert t[..n][1..] == t[1..][..n - 1];
    }
  }

  /** Cutting behind an offset. */
  lemma CutFrom(t: Bytes, k: nat, n: nat)
    requires k <= n <= |t|
    ensures t[..n][k..] == t[k..][..n - k]
  {
  }

  lemma DigitsFrom(t: Bytes, k: nat, n: nat)
    requires k <= |t| && k + Digits(t[k..]) <= n <= |t|
    ensures Digits(t[..n][k..]) == Digits(t[k..])
  {
    CutFrom(t, k, n);
    DigitsCut(t[k..], n - k);
  }

  lemma Pointed(u: Bytes, s: nat, i: nat, f: nat)
    requires s == Sign(u) && i == Digits(u[s..]) && s + i < |u| && u[s + i] == DOT && f == Digits(u[s + i + 1..])
    ensures Mantissa(u) == if i + f == 0 then 0 else s + i + 1 + f
  {
  }

  lemma PointedCut(t: Bytes, n: nat, s: nat, i: nat, f: nat)
    requires s == Sign(t) && i == Digits(t[s..]) && s + i < |t| && t[s + i] == DOT && f == Digits(t[s + i + 1..])
    requires i + f > 0 && s + i + 1 + f <= n <= |t|
    ensures Mantissa(t[..n]) == s + i + 1 + f
  {
    DigitsFrom(t, s, n);
    DigitsFrom(t, s + i + 1, n);
    Pointed(t[..n], s, i, f);
  }

  lemma MantissaCut(t: Bytes, n: nat)
    requires 0 < Mantissa(t) <= n <= |t|
    ensures Mantissa(t[..n]) == Mantissa(t) && Sign(t[..n]) == Sign(t)
  {
    var s := Sign(t);
    var i := Digits(t[s..]);
    if s + i < |t| && t[s + i] == DOT {
      Pointed(t, s, i, Digits(t[s + i + 1..]));
      PointedCut(t, n, s, i, Digits(t[s + i + 1..]));
    } else {
      DigitsFrom(t, s, n);
    }
  }

  lemma ExponentCut(t: Bytes, n: nat)
    requires n == Exponent(t)
    ensures Exponent(t[..n]) == n
  {
    if n > 0 {
      var s := Sign(t[1..]);
      CutFrom(t, 1, n);
      CutFrom(t, 1 + s, n);
      DigitsCut(t[1 + s..], n - 1 - s);
    }
  }

  lemma ConvertedCut(t: Bytes)
    ensures Converted(t[..Converted(t)]) == Converted(t)
  {
    var n, m := Converted(t), Mantissa(t);
    if m > 0 {
      MantissaCut(t, n);
      CutFrom(t, m, n);
      ExponentCut(t[m..], n - m);
    } else {
      assert t[..0] == [];
    }
  }

  // ----- number tokens -----

  /** A text that `parse_number` takes as a whole. */
  ghost predicate NumberText(t: Bytes) {
    && 0 < |t| <= NUMBER_MAX && (t[0] == MINUS || IsDigit(t[0]))
    && (forall k :: 0 <= k < |t| ==> NumberByte(t[k]))
    && Converted(t) == |t|
  }

  lemma {:induction false} RunWhole(t: Bytes, rest: Bytes, limit: nat)
    requires |t| <= limit && (forall k :: 0 <= k < |t| ==> NumberByte(t[k]))
    requires rest != [] ==> !NumberByte(rest[0])
    ensures Run(t + rest, limit) == |t|
    decreases |t|
  {
    if t == [] {
      assert t + rest == rest;
    } else {
      assert (t + rest)[1..] == t[1..] + rest;
      RunWhole(t[1..], rest, limit - 1);
    }
  }

  lemma {:induction false} RunBytes(t: Bytes, limit: nat)
    ensures forall k :: 0 <= k < Run(t, limit) ==> NumberByte(t[k])
    decreases limit
  {
    if limit > 0 && t != [] && NumberByte(t[0]) {
      RunBytes(t[1..], limit - 1);
      assert forall k :: 1 <= k < Run(t, limit) ==> t[k] == t[1..][k - 1];
    }
  }

  lemma TokenOf(run: Bytes)
    requires |run| <= NUMBER_MAX && (forall k :: 0 <= k < |run| ==> NumberByte(run[k]))
    requires Converted(run) > 0 && (run[0] == MINUS || IsDigit(run[0]))
    ensures NumberText(run[..Converted(run)])
  {
    ConvertedCut(run);
  }

  // ----- integers -----

  function NatText(n: nat): (t: Bytes)
    ensures t != [] && forall k :: 0 <= k < |t| ==> IsDigit(t[k])
  {
    if n < 10 then [48 + n] else NatText(n / 10) + [48 + n % 10]
  }

  function IntText(n: int): Bytes {
    if n < 0 then [MINUS] + NatText(-n) else NatText(n)
  }

  lemma {:induction false} NatTextValue(n: nat)
    ensures Decimal(NatText(n)) == n
  {
    var t := NatText(n);
    if n >= 10 {
      NatTextValue(n / 10);
      assert t[..|t| - 1] == NatText(n / 10);
    } else {
      assert Decimal(t[..0]) == 0;
    }
  }

  lemma {:induction false} NatTextShort(n: nat, d: nat)
    requires n < Power10(d) && d > 0
    ensures |NatText(n)| <= d
    decreases d
  {
    if n >= 10 { NatTextShort(n / 10, d - 1); }
  }

  lemma FifteenDigits()
    ensures Power10(15) == INT_LIMIT
  {
    assert Power10(5) == 100_000;
    assert Power10(10) == 10_000_000_000;
  }

  function Power10(d: nat): nat {
    if d == 0 then 1 else 10 * Power10(d - 1)
  }

  lemma {:induction false} AllDigits(t: Bytes)
    requires forall k :: 0 <= k < |t| ==> IsDigit(t[k])
    ensures Digits(t) == |t|
  {
    if t != [] { AllDigits(t[1..]); }
  }

  const INT_LIMIT := 1_000_000_000_000_000

  /** The text of an integer has no fraction and no exponent. */
  lemma IntTextParts(t: Bytes, d: Bytes)
    requires d != [] && (forall k :: 0 <= k < |d| ==> IsDigit(d[k])) && (t == d || t == [MINUS] + d)
    ensures Sign(t) + |d| == |t| && Digits(t[Sign(t)..]) == |d| && Mantissa(t) == |t|
    ensures Whole(t) == d && Fraction(t) == []
  {
    AllDigits(d);
    assert t[Sign(t)..] == d;
  }

  lemma IntTextValue(t: Bytes, d: Bytes)
    requires d != [] && (forall k :: 0 <= k < |d| ==> IsDigit(d[k])) && (t == d || t == [MINUS] + d)
    ensures Converted(t) == |t| && Value(t) == Signed(t, Decimal(d)) as real
  {
    IntTextParts(t, d);
    assert d + [] == d;
    assert Power(t) == 0;
    assert Exponent(t[|t|..]) == 0;
  }

  lemma IntBytes(n: int)
    ensures var t := IntText(n); t != [] && (t[0] == MINUS || IsDigit(t[0])) && forall k :: 0 <= k < |t| ==> NumberByte(t[k])
  {
  }

  /** Integers of at most 15 digits are printed as number tokens with their value. */
  lemma IntTextGood(n: int)
    requires -INT_LIMIT < n < INT_LIMIT
    ensures NumberText(IntText(n)) && Value(IntText(n)) == n as real && |IntText(n)| <= 16
  {
    var a: nat := if n < 0 then -n else n;
    IntTextValue(IntText(n), NatText(a));
    NatTextValue(a);
    FifteenDigits();
    NatTextShort(a, 15);
    IntBytes(n);
  }
}
