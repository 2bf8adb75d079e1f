/**
 Numbers as section 6 of RFC 8259 writes them, in numbers: a sign, digits, a fraction and
 an exponent, and the value they have.
 */
module JsonDecimal {
  import opened Octets
  import opened ByteText
  import opened JsonNumber

  /** `exp` is 101 or 69, or 0 without an exponent; its sign is 43, 45, or 0 for none. */
  datatype Numeral = Numeral(neg: bool, whole: Bytes, point: bool, frac: Bytes, exp: byte, sign: byte, power: Bytes)

  predicate AllDecimal(t: Bytes) { forall k :: 0 <= k < |t| ==> 48 <= t[k] <= 57 }

  predicate IsNumeral(d: Numeral) {
    && d.whole != [] && AllDecimal(d.whole) && AllDecimal(d.frac) && AllDecimal(d.power)
    && (!d.point ==> d.frac == [])
    && (if d.exp == 0 then d.sign == 0 && d.power == [] else d.exp in [69, 101] && d.sign in [0, 43, 45] && d.power != [])
  }

  function Fractional(d: Numeral): Bytes { if d.point then [46] + d.frac else [] }
  function Exponential(d: Numeral): Bytes { if d.exp == 0 then [] else [d.exp] + (if d.sign == 0 then [] else [d.sign]) + d.power }

  function Written(d: Numeral): Bytes {
    (if d.neg then [45] else []) + (d.whole + (Fractional(d) + Exponential(d)))
  }

  // ----- the value -----

  /** The decimal point of `x` moved by `e` places. */
  function Shift(x: real, e: int): real
    decreases if e < 0 then -e else e
  {
    if e == 0 then x else if e > 0 then Shift(10.0 * x, e - 1) else Shift(x / 10.0, e + 1)
  }

  /** Digits read from left to right, behind those that make `n`. */
  function Read(n: nat, t: Bytes): int
    requires AllDecimal(t)
    decreases |t|
  {
    if t == [] then n else Read(10 * n + (t[0] - 48), t[1..])
  }

  function Exp(d: Numeral): int
    requires IsNumeral(d)
  {
    if d.sign == 45 then -Read(0, d.power) else Read(0, d.power)
  }

  /** All digits as one number, with the point moved to its place and by the exponent. */
  function Amount(d: Numeral): real
    requires IsNumeral(d)
  {
    var m := Read(0, d.whole + d.frac);
    Shift((if d.neg then -m else m) as real, Exp(d) - |d.frac|)
  }

  lemma {:induction false} ShiftTen(x: real, e: int)
    ensures Shift(10.0 * x, e) == 10.0 * Shift(x, e)
    decreases if e < 0 then -e else e
  {
    if e > 0 { ShiftTen(10.0 * x, e - 1); } else if e < 0 { ShiftTen(x / 10.0, e + 1); assert 10.0 * (x / 10.0) == 10.0 * x / 10.0; }
  }

  lemma {:induction false} ScaleShift(m: int, e: int)
    ensures Scale(m, e) == Shift(m as real, e)
    decreases if e < 0 then -e else e
  {
    if e > 0 {
      ScaleShift(m, e - 1);
      ShiftTen(m as real, e - 1);
    } else if e < 0 {
      ScaleShift(m, e + 1);
      ShiftTen(m as real / 10.0, e + 1);
      assert 10.0 * (m as real / 10.0) == m as real;
    }
  }

  lemma {:induction false} ReadMore(n: nat, t: Bytes, b: byte)
    requires AllDecimal(t) && 48 <= b <= 57
    ensures Read(n, t + [b]) == 10 * Read(n, t) + (b - 48)
    decreases |t|
  {
    if t == [] {
      assert [b][1..] == [] && t + [b] == [b];
    } else {
      ReadMore(10 * n + (t[0] - 48), t[1..], b);
      assert (t + [b])[1..] == t[1..] + [b];
    }
  }

  lemma {:induction false} DecimalRead(t: Bytes)
    requires AllDecimal(t)
    ensures Decimal(t) == Read(0, t)
  {
    if t != [] {
      var n := |t| - 1;
      DecimalRead(t[..n]);
      ReadMore(0, t[..n], t[n]);
      assert t == t[..n] + [t[n]];
    }
  }

  // ----- the parts are found -----

  lemma {:induction false} DigitsThen(w: Bytes, rest: Bytes)
    requires AllDecimal(w) && (rest != [] ==> !(48 <= rest[0] <= 57))
    ensures Digits(w + rest) == |w|
  {
    if w == [] {
      assert w + rest == rest;
    } else {
      DigitsThen(w[1..], rest);
      assert (w + rest)[1..] == w[1..] + rest;
    }
  }

  lemma SignOf(x: Bytes, sign: byte, p: Bytes)
    requires x == (if sign == 0 then [] else [sign]) + p && sign in [0, 43, 45] && p != [] && 48 <= p[0] <= 57
    ensures x != [] && x[Sign(x)..] == p && (x[0] == 45 <==> sign == 45)
  {
  }

  lemma ExponentOf(t: Bytes, x: Bytes, p: Bytes)
    requires t != [] && t[0] in [69, 101] && t[1..] == x && x[Sign(x)..] == p && p != [] && AllDecimal(p)
    ensures Exponent(t) == |t|
  {
    assert t[1 + Sign(x)..] == t[1..][Sign(x)..];
    assert p + [] == p;
    DigitsThen(p, []);
  }

  lemma SignedIs(d: Numeral, x: Bytes)
    requires IsNumeral(d) && x != [] && x[Sign(x)..] == d.power && (x[0] == 45 <==> d.sign == 45)
    ensures Signed(x, Decimal(x[Sign(x)..])) == Exp(d)
  {
    DecimalRead(d.power);
  }

  lemma ExponentIs(d: Numeral)
    requires IsNumeral(d)
    ensures Exponent(Exponential(d)) == |Exponential(d)|
    ensures d.exp != 0 ==> var x := Exponential(d)[1..]; Signed(x, Decimal(x[Sign(x)..])) == Exp(d)
  {
    if d.exp != 0 {
      var x := (if d.sign == 0 then [] else [d.sign]) + d.power;
      assert Exponential(d) == [d.exp] + x && Exponential(d)[1..] == x;
      SignOf(x, d.sign, d.power);
      ExponentOf(Exponential(d), x, d.power);
      SignedIs(d, x);
    }
  }

  /** Where the parts of a text stand. */
  ghost predicate PartsAt(t: Bytes, d: Numeral, s: nat, i: nat, m: nat) {
    && s == (if d.neg then 1 else 0) && i == s + |d.whole| && m == i + |Fractional(d)|
    && |t| == m + |Exponential(d)| && t[s..i] == d.whole && t[i..m] == Fractional(d) && t[m..] == Exponential(d)
    && (d.neg ==> t[0] == 45)
  }

  lemma Slices(t: Bytes, a: Bytes, b: Bytes, c: Bytes, e: Bytes, s: nat, i: nat, m: nat)
    requires t == a + (b + (c + e)) && s == |a| && i == s + |b| && m == i + |c|
    ensures |t| == m + |e| && t[..s] == a && t[s..i] == b && t[i..m] == c && t[m..] == e
  {
  }

  lemma WrittenParts(d: Numeral, s: nat, i: nat, m: nat)
    requires IsNumeral(d) && s == (if d.neg then 1 else 0) && i == s + |d.whole| && m == i + |Fractional(d)|
    ensures PartsAt(Written(d), d, s, i, m)
  {
    var t := Written(d);
    Slices(t, if d.neg then [45] else [], d.whole, Fractional(d), Exponential(d), s, i, m);
    assert d.neg ==> t[0] == t[..s][0];
  }

  lemma Cut(t: Bytes, s: nat, i: nat)
    requires s <= i <= |t|
    ensures t[s..] == t[s..i] + t[i..]
  {
  }

  lemma WholeIs(t: Bytes, d: Numeral, s: nat, i: nat, m: nat)
    requires IsNumeral(d) && PartsAt(t, d, s, i, m)
    ensures Sign(t) == s && Digits(t[s..]) == |d.whole| && (d.point <==> i < |t| && t[i] == 46)
  {
    assert t[s] == t[s..i][0];
    Cut(t, s, i);
    assert i < m ==> t[i] == t[i..m][0];
    assert m < |t| ==> t[m] == t[m..][0];
    DigitsThen(d.whole, t[i..]);
  }

  lemma FractionDigits(t: Bytes, i: nat, m: nat, f: Bytes, x: Bytes)
    requires i < m <= |t| && t[i..m] == [46] + f && t[m..] == x && AllDecimal(f) && (x != [] ==> !(48 <= x[0] <= 57))
    ensures Digits(t[i + 1..]) == |f|
  {
    assert t[i + 1..m] == t[i..m][1..] && t[i + 1..] == f + x;
    DigitsThen(f, x);
  }

  lemma MantissaIs(t: Bytes, d: Numeral, s: nat, i: nat, m: nat)
    requires IsNumeral(d) && PartsAt(t, d, s, i, m)
    ensures Sign(t) == s && Digits(t[s..]) == |d.whole| && Mantissa(t) == m
  {
    WholeIs(t, d, s, i, m);
    if d.point {
      FractionDigits(t, i, m, d.frac, Exponential(d));
      Pointed(t, s, |d.whole|, |d.frac|);
    }
  }

  lemma FractionIs(t: Bytes, d: Numeral, s: nat, i: nat, m: nat)
    requires PartsAt(t, d, s, i, m) && Sign(t) == s && Digits(t[s..]) == |d.whole| && Mantissa(t) == m
    requires d.point || d.frac == []
    ensures Whole(t) == d.whole && Fraction(t) == d.frac
  {
    if d.point {
      assert t[i] == t[i..m][0] && t[i + 1..m] == t[i..m][1..];
    }
  }

  lemma PowerOf(t: Bytes, m: nat, x: Bytes)
    requires Mantissa(t) == m && x == if m < |t| then t[m + 1..] else []
    ensures Power(t) == Signed(x, Decimal(x[Sign(x)..]))
  {
  }

  lemma PowerIs(t: Bytes, d: Numeral, m: nat)
    requires IsNumeral(d) && m <= |t| && t[m..] == Exponential(d) && Mantissa(t) == m
    ensures Power(t) == Exp(d)
  {
    ExponentIs(d);
    if m < |t| {
      assert t[m + 1..] == t[m..][1..];
      PowerOf(t, m, t[m + 1..]);
    } else {
      PowerOf(t, m, []);
    }
  }

  lemma ValueIs(t: Bytes, w: Bytes, f: Bytes, e: int)
    requires Whole(t) == w && Fraction(t) == f && Power(t) == e
    ensures Value(t) == Scale(Signed(t, Decimal(w + f)), e - |f|)
  {
  }

  lemma AmountIs(d: Numeral, m: int)
    requires IsNumeral(d) && m == (if d.neg then -1 * Decimal(d.whole + d.frac) else Decimal(d.whole + d.frac))
    ensures Scale(m, Exp(d) - |d.frac|) == Amount(d)
  {
    DecimalRead(d.whole + d.frac);
    ScaleShift(m, Exp(d) - |d.frac|);
  }

  lemma {:induction false} NumeralBytes(d: Numeral)
    requires IsNumeral(d)
    ensures forall k :: 0 <= k < |Written(d)| ==> NumberByte(Written(d)[k])
    ensures Written(d) != [] && (d.neg <==> Written(d)[0] == 45) && (d.neg || 48 <= Written(d)[0] <= 57)
  {
    AllBytes(Fractional(d), Exponential(d));
    AllBytes(d.whole, Fractional(d) + Exponential(d));
    AllBytes(if d.neg then [45] else [], d.whole + (Fractional(d) + Exponential(d)));
  }

  lemma AllBytes(a: Bytes, b: Bytes)
    ensures (forall k :: 0 <= k < |a| ==> NumberByte(a[k])) && (forall k :: 0 <= k < |b| ==> NumberByte(b[k])) ==>
      forall k :: 0 <= k < |a + b| ==> NumberByte((a + b)[k])
  {
  }

  lemma NumeralValue(t: Bytes, d: Numeral)
    requires IsNumeral(d) && t != [] && (d.neg <==> t[0] == 45)
    requires Whole(t) == d.whole && Fraction(t) == d.frac && Power(t) == Exp(d)
    ensures Value(t) == Amount(d)
  {
    ValueIs(t, d.whole, d.frac, Exp(d));
    AmountIs(d, Signed(t, Decimal(d.whole + d.frac)));
  }

  lemma NumeralWhole(t: Bytes, d: Numeral, m: nat)
    requires IsNumeral(d) && 0 < m <= |t| && t[m..] == Exponential(d) && Mantissa(t) == m
    ensures Converted(t) == |t|
  {
    ExponentIs(d);
  }

  /** Numerals have their value, and just those of at most 63 bytes are number tokens. */
  lemma Numerals(d: Numeral)
    requires IsNumeral(d)
    ensures Converted(Written(d)) == |Written(d)| && Value(Written(d)) == Amount(d)
    ensures |Written(d)| <= 63 <==> NumberText(Written(d))
  {
    var t, s := Written(d), if d.neg then 1 else 0;
    NumeralBytes(d);
    WrittenParts(d, s, s + |d.whole|, s + |d.whole| + |Fractional(d)|);
    NumeralToken(t, d, s, s + |d.whole|, s + |d.whole| + |Fractional(d)|);
  }

  lemma NumeralToken(t: Bytes, d: Numeral, s: nat, i: nat, m: nat)
    requires IsNumeral(d) && PartsAt(t, d, s, i, m) && t != [] && (d.neg <==> t[0] == 45)
    ensures Converted(t) == |t| && Value(t) == Amount(d)
  {
    MantissaIs(t, d, s, i, m);
    FractionIs(t, d, s, i, m);
    PowerIs(t, d, m);
    NumeralValue(t, d);
    NumeralWhole(t, d, m);
  }
}
