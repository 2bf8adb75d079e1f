/**
 String literals: the two passes of `parse_string` as functions, the escapes they
 stand for as a list of tokens, UTF-8, and what `print_string_ptr` writes.
 */
module JsonString {
  import opened Octets
  import opened ByteText

  // ----- first pass: where the literal ends -----

  /** The closing quote of a literal whose contents start at `p`. */
  function Close(buf: Bytes, p: nat): (e: Option<nat>)
    ensures e.Some? ==> p <= e.value < |buf| && buf[e.value] == QUOTE
    decreases |buf| - p
  {
    if p >= |buf| then None
    else if buf[p] == QUOTE then Some(p)
    else if buf[p] == BACKSLASH then (if p + 1 >= |buf| then None else Close(buf, p + 2))
    else Close(buf, p + 1)
  }

  /** Contents of a literal: every quote is escaped and no escape is left open. */
  predicate Closed(body: Bytes) {
    if body == [] then true
    else if body[0] == QUOTE then false
    else if body[0] == BACKSLASH then |body| >= 2 && Closed(body[2..])
    else Closed(body[1..])
  }

  lemma {:induction false} CloseComplete(buf: Bytes, p: nat, body: Bytes)
    requires Closed(body) && At(buf, p, body + [QUOTE])
    ensures Close(buf, p) == Some(p + |body|)
    decreases |body|
  {
    var t := body + [QUOTE];
    AtIndex(buf, p, t, 0);
    if body != [] {
      var n := if body[0] == BACKSLASH then 2 else 1;
      assert t[n..] == body[n..] + [QUOTE];
      CloseComplete(buf, p + n, body[n..]);
    }
  }

  lemma {:induction false} CloseSound(buf: Bytes, p: nat)
    requires Close(buf, p).Some?
    ensures Closed(buf[p..Close(buf, p).value])
    decreases |buf| - p
  {
    var e := Close(buf, p).value;
    if buf[p] != QUOTE {
      var n := if buf[p] == BACKSLASH then 2 else 1;
      CloseSound(buf, p + n);
      assert buf[p..e][n..] == buf[p + n..e];
    }
  }

  // ----- UTF-16 escapes -----

  /** The value of a hexadecimal digit, or -1. */
  function HexDigit(b: byte): (d: int)
    ensures -1 <= d < 16
  {
    if 48 <= b <= 57 then b - 48
    else if 65 <= b <= 70 then b - 55
    else if 97 <= b <= 102 then b - 87
    else -1
  }

  /** `parse_hex4`: four digits read as a number, and 0 if one of them is none. */
  function Hex4(a: byte, b: byte, c: byte, d: byte): (v: nat)
    ensures v < 0x10000
  {
    var w, x, y, z := HexDigit(a), HexDigit(b), HexDigit(c), HexDigit(d);
    if w < 0 || x < 0 || y < 0 || z < 0 then 0 else w * 4096 + x * 256 + y * 16 + z
  }

  predicate IsHex(h: Bytes) {
    |h| == 4 && HexDigit(h[0]) >= 0 && HexDigit(h[1]) >= 0 && HexDigit(h[2]) >= 0 && HexDigit(h[3]) >= 0
  }

  /** The number that four hexadecimal digits spell. */
  function Unit(h: Bytes): nat
    requires IsHex(h)
  {
    Hex4(h[0], h[1], h[2], h[3])
  }

  predicate HighSurrogate(c: nat) { 0xD800 <= c <= 0xDBFF }
  predicate LowSurrogate(c: nat) { 0xDC00 <= c <= 0xDFFF }

  /** A Unicode scalar value. */
  predicate Scalar(c: nat) { c <= 0x10FFFF && !HighSurrogate(c) && !LowSurrogate(c) }

  /** Section 2.2 of RFC 2781. */
  function Combine(hi: nat, lo: nat): (c: nat)
    requires HighSurrogate(hi) && LowSurrogate(lo)
    ensures 0x10000 <= c <= 0x10FFFF
  {
    0x10000 + (hi - 0xD800) * 0x400 + (lo - 0xDC00)
  }

  /** Section 3 of RFC 3629. */
  function Utf8(c: nat): (s: Bytes)
    requires c <= 0x10FFFF
    ensures 1 <= |s| <= 4 && (c < 0x10000 ==> |s| <= 3)
  {
    if c < 0x80 then [c]
    else if c < 0x800 then [0xC0 + c / 0x40, 0x80 + c % 0x40]
    else if c < 0x10000 then [0xE0 + c / 0x1000, 0x80 + c / 0x40 % 0x40, 0x80 + c % 0x40]
    else [0xF0 + c / 0x40000, 0x80 + c / 0x1000 % 0x40, 0x80 + c / 0x40 % 0x40, 0x80 + c % 0x40]
  }

  /** The payload of a byte that starts with the bits of `mark`. */
  function Bits(b: byte, mark: byte): int { b - mark }

  /** Reading UTF-8 by its lead byte; the shortest form only, no surrogates. */
  function FirstScalar(s: Bytes): Option<(nat, nat)> {
    if s == [] then None
    else if s[0] < 0x80 then Some((s[0], 1))
    else
      var n := if 0xC0 <= s[0] < 0xE0 then 2 else if 0xE0 <= s[0] < 0xF0 then 3 else if 0xF0 <= s[0] < 0xF8 then 4 else 1;
      if n == 1 || |s| < n || exists k :: 1 <= k < n && !(0x80 <= s[k] < 0xC0) then None
      else
        var c := if n == 2 then Bits(s[0], 0xC0) * 0x40 + Bits(s[1], 0x80)
                 else if n == 3 then Bits(s[0], 0xE0) * 0x1000 + Bits(s[1], 0x80) * 0x40 + Bits(s[2], 0x80)
                 else Bits(s[0], 0xF0) * 0x40000 + Bits(s[1], 0x80) * 0x1000 + Bits(s[2], 0x80) * 0x40 + Bits(s[3], 0x80);
        var least: int := if n == 2 then 0x80 else if n == 3 then 0x800 else 0x10000;
        if c < least || !Scalar(c) then None else Some((c, n))
  }

  lemma Utf8Reads(c: nat, rest: Bytes)
    requires Scalar(c)
    ensures FirstScalar(Utf8(c) + rest) == Some((c, |Utf8(c)|))
  {
    var s := Utf8(c) + rest;
    assert c / 0x1000 == c / 0x40 / 0x40 && c / 0x40000 == c / 0x40 / 0x40 / 0x40;
    assert forall k :: 1 <= k < |Utf8(c)| ==> 0x80 <= s[k] < 0xC0;
  }

  /** `utf16_literal_to_utf8` on the rest of a literal, closing quote included: how many
      bytes it reads, 0 for failure, and what it writes. */
  function Utf16(lit: Bytes): (r: (nat, Bytes))
    ensures r.0 == 0 || (r.0 == 6 && 1 <= |r.1| <= 3) || (r.0 == 12 && |r.1| == 4)
    ensures (r.0 < |lit| || r.0 == 0) && (r.0 == 0 ==> r.1 == [])
  {
    if |lit| < 7 then (0, [])
    else
      var first := Hex4(lit[2], lit[3], lit[4], lit[5]);
      if LowSurrogate(first) then (0, [])
      else if HighSurrogate(first) then
        if |lit| < 13 || lit[6] != BACKSLASH || lit[7] != LETTER_U then (0, [])
        else
          var second := Hex4(lit[8], lit[9], lit[10], lit[11]);
          if !LowSurrogate(second) then (0, []) else (12, Utf8(Combine(first, second)))
      else (6, Utf8(first))
  }

  // ----- second pass: what the literal stands for -----

  function Onto(s: Bytes, r: Option<Bytes>): Option<Bytes> {
    if r.Some? then Some(s + r.value) else None
  }

  lemma OntoTwice(a: Bytes, b: Bytes, r: Option<Bytes>)
    ensures Onto(a, Onto(b, r)) == Onto(a + b, r)
  {
    if r.Some? { assert a + (b + r.value) == a + b + r.value; }
  }

  lemma OntoNothing(r: Option<Bytes>)
    ensures Onto([], r) == r
  {
    if r.Some? { assert [] + r.value == r.value; }
  }

  /** What a one-character escape stands for. */
  function Short(c: byte): Option<byte> {
    if c == LETTER_B then Some(BACKSPACE)
    else if c == LETTER_F then Some(FF)
    else if c == LETTER_N then Some(LF)
    else if c == LETTER_R then Some(CR)
    else if c == LETTER_T then Some(TAB)
    else if c == QUOTE || c == BACKSLASH || c == SLASH then Some(c)
    else None
  }

  /** The bytes written for the rest of a literal, whose last byte is the closing quote. */
  function Unescape(lit: Bytes): Option<Bytes>
    decreases |lit|
  {
    if |lit| <= 1 then Some([])
    else if lit[0] != BACKSLASH then Onto([lit[0]], Unescape(lit[1..]))
    else if lit[1] == LETTER_U then
      var (n, out) := Utf16(lit);
      if n == 0 then None else Onto(out, Unescape(lit[n..]))
    else if Short(lit[1]).Some? then Onto([Short(lit[1]).value], Unescape(lit[2..]))
    else None
  }

  /** The string a literal denotes for its users, who read up to the first NUL. */
  function Denotes(body: Bytes): Option<Bytes> {
    var out := Unescape(body + [QUOTE]);
    if out.Some? then Some(CString(out.value)) else None
  }

  // ----- tokens -----

  /** The one-character escapes of section 7 of RFC 8259, in numbers. */
  const LETTERS: map<byte, byte> := map[34 := 34, 92 := 92, 47 := 47, 98 := 8, 102 := 12, 110 := 10, 114 := 13, 116 := 9]

  /** A character of a literal, as section 7 of RFC 8259 lists them. */
  datatype Token = Plain(b: byte) | Letter(c: byte) | Code(h: Bytes) | Pair(hi: Bytes, lo: Bytes)

  ghost predicate GoodToken(t: Token) {
    match t
    case Plain(b) => b != QUOTE && b != BACKSLASH
    case Letter(c) => c in LETTERS
    case Code(h) => IsHex(h) && Scalar(Unit(h))
    case Pair(hi, lo) => IsHex(hi) && IsHex(lo) && HighSurrogate(Unit(hi)) && LowSurrogate(Unit(lo))
  }

  function Spelling(t: Token): Bytes {
    match t
    case Plain(b) => [b]
    case Letter(c) => [BACKSLASH, c]
    case Code(h) => [BACKSLASH, LETTER_U] + h
    case Pair(hi, lo) => [BACKSLASH, LETTER_U] + hi + [BACKSLASH, LETTER_U] + lo
  }

  ghost function Meaning(t: Token): Bytes
    requires GoodToken(t)
  {
    match t
    case Plain(b) => [b]
    case Letter(c) => [LETTERS[c]]
    case Code(h) => Utf8(Unit(h))
    case Pair(hi, lo) => Utf8(Combine(Unit(hi), Unit(lo)))
  }

  function SpellAll(ts: seq<Token>): Bytes {
    if ts == [] then [] else Spelling(ts[0]) + SpellAll(ts[1..])
  }

  ghost predicate GoodTokens(ts: seq<Token>) {
    forall k :: 0 <= k < |ts| ==> GoodToken(ts[k])
  }

  ghost function MeanAll(ts: seq<Token>): Bytes
    requires GoodTokens(ts)
  {
    if ts == [] then [] else Meaning(ts[0]) + MeanAll(ts[1..])
  }

  lemma {:induction false} PlainClosed(s: Bytes, rest: Bytes)
    requires forall k :: 0 <= k < |s| ==> s[k] != QUOTE && s[k] != BACKSLASH
    ensures Closed(s + rest) == Closed(rest)
    decreases |s|
  {
    if s == [] {
      assert s + rest == rest;
    } else {
      assert (s + rest)[1..] == s[1..] + rest;
      PlainClosed(s[1..], rest);
    }
  }

  lemma HexPlain(h: Bytes)
    requires IsHex(h)
    ensures forall k :: 0 <= k < |h| ==> h[k] != QUOTE && h[k] != BACKSLASH
  {
    assert HexDigit(QUOTE) < 0 && HexDigit(BACKSLASH) < 0;
    assert h == [h[0], h[1], h[2], h[3]];
  }

  lemma CodeClosed(h: Bytes, rest: Bytes)
    requires IsHex(h)
    ensures Closed([BACKSLASH, LETTER_U] + h + rest) == Closed(rest)
  {
    HexPlain(h);
    PlainClosed(h, rest);
    assert ([BACKSLASH, LETTER_U] + h + rest)[2..] == h + rest;
  }

  lemma PairClosed(hi: Bytes, lo: Bytes, rest: Bytes)
    requires IsHex(hi) && IsHex(lo)
    ensures Closed([BACKSLASH, LETTER_U] + hi + [BACKSLASH, LETTER_U] + lo + rest) == Closed(rest)
  {
    var u := [BACKSLASH, LETTER_U] + lo + rest;
    CodeClosed(lo, rest);
    CodeClosed(hi, u);
    assert [BACKSLASH, LETTER_U] + hi + [BACKSLASH, LETTER_U] + lo + rest == [BACKSLASH, LETTER_U] + hi + u;
  }

  lemma LetterClosed(c: byte, rest: Bytes)
    ensures Closed([BACKSLASH, c] + rest) == Closed(rest)
  {
    assert ([BACKSLASH, c] + rest)[2..] == rest;
  }

  lemma TokenClosed(t: Token, rest: Bytes)
    requires GoodToken(t)
    ensures Closed(Spelling(t) + rest) == Closed(rest)
  {
    match t
    case Plain(b) => PlainClosed([b], rest);
    case Letter(c) => LetterClosed(c, rest);
    case Code(h) => CodeClosed(h, rest);
    case Pair(hi, lo) => PairClosed(hi, lo, rest);
  }

  lemma LetterRead(c: byte, rest: Bytes)
    requires Short(c).Some? && rest != []
    ensures Unescape([BACKSLASH, c] + rest) == Onto([Short(c).value], Unescape(rest))
  {
    assert ([BACKSLASH, c] + rest)[2..] == rest;
  }

  lemma CodeRead(h: Bytes, rest: Bytes)
    requires IsHex(h) && Scalar(Unit(h)) && rest != []
    ensures Unescape([BACKSLASH, LETTER_U] + h + rest) == Onto(Utf8(Unit(h)), Unescape(rest))
  {
    assert ([BACKSLASH, LETTER_U] + h + rest)[6..] == rest;
  }

  lemma PairRead(hi: Bytes, lo: Bytes, rest: Bytes)
    requires IsHex(hi) && IsHex(lo) && HighSurrogate(Unit(hi)) && LowSurrogate(Unit(lo)) && rest != []
    ensures Unescape([BACKSLASH, LETTER_U] + hi + [BACKSLASH, LETTER_U] + lo + rest) ==
      Onto(Utf8(Combine(Unit(hi), Unit(lo))), Unescape(rest))
  {
    var s := [BACKSLASH, LETTER_U] + hi + [BACKSLASH, LETTER_U] + lo + rest;
    assert s[6] == BACKSLASH && s[7] == LETTER_U;
    assert s[12..] == rest;
    assert Utf16(s) == (12, Utf8(Combine(Unit(hi), Unit(lo))));
  }

  lemma TokenRead(t: Token, rest: Bytes)
    requires GoodToken(t) && rest != []
    ensures Unescape(Spelling(t) + rest) == Onto(Meaning(t), Unescape(rest))
  {
    match t
    case Plain(b) => assert ([b] + rest)[1..] == rest;
    case Letter(c) => LetterRead(c, rest);
    case Code(h) => CodeRead(h, rest);
    case Pair(hi, lo) => PairRead(hi, lo, rest);
  }

  lemma TokenFirst(t: Token, body: Bytes, out: Bytes)
    requires GoodToken(t) && Closed(body) && Unescape(body + [QUOTE]) == Some(out)
    ensures Closed(Spelling(t) + body) && Unescape(Spelling(t) + body + [QUOTE]) == Some(Meaning(t) + out)
  {
    TokenClosed(t, body);
    TokenRead(t, body + [QUOTE]);
    assert Spelling(t) + body + [QUOTE] == Spelling(t) + (body + [QUOTE]);
  }

  /** Both passes read a list of tokens as it is meant. */
  lemma {:induction false} TokensRead(ts: seq<Token>)
    requires GoodTokens(ts)
    ensures Closed(SpellAll(ts)) && Unescape(SpellAll(ts) + [QUOTE]) == Some(MeanAll(ts))
  {
    if ts != [] {
      TokensRead(ts[1..]);
      TokenFirst(ts[0], SpellAll(ts[1..]), MeanAll(ts[1..]));
    }
  }

  /** An escape that is half of a surrogate pair, the other half not following. */
  ghost predicate Lone(h: Bytes, rest: Bytes) {
    && IsHex(h)
    && (LowSurrogate(Unit(h))
        || (HighSurrogate(Unit(h))
            && !(|rest| >= 6 && rest[0] == BACKSLASH && rest[1] == LETTER_U && LowSurrogate(Hex4(rest[2], rest[3], rest[4], rest[5])))))
  }

  lemma LoneFails(h: Bytes, rest: Bytes)
    requires Lone(h, rest)
    ensures Unescape(Spelling(Code(h)) + (rest + [QUOTE])) == None
  {
    var tail := Spelling(Code(h)) + (rest + [QUOTE]);
    assert tail[0] == BACKSLASH && tail[1] == LETTER_U;
    assert tail[2] == h[0] && tail[3] == h[1] && tail[4] == h[2] && tail[5] == h[3];
    if |rest| >= 6 {
      assert forall k :: 0 <= k < 6 ==> tail[6 + k] == rest[k];
    }
    assert Utf16(tail).0 == 0;
  }

  lemma {:induction false} FailsAfter(ts: seq<Token>, tail: Bytes)
    requires GoodTokens(ts) && tail != [] && Unescape(tail) == None
    ensures Unescape(SpellAll(ts) + tail) == None
  {
    if ts == [] {
      assert SpellAll(ts) + tail == tail;
    } else {
      FailsAfter(ts[1..], tail);
      TokenRead(ts[0], SpellAll(ts[1..]) + tail);
      assert SpellAll(ts) + tail == Spelling(ts[0]) + (SpellAll(ts[1..]) + tail);
    }
  }

  /** A lone surrogate after any tokens makes the literal fail, whatever follows. */
  lemma LoneSurrogate(ts: seq<Token>, h: Bytes, rest: Bytes)
    requires GoodTokens(ts) && Lone(h, rest)
    ensures Denotes(SpellAll(ts) + Spelling(Code(h)) + rest) == None
  {
    var tail := Spelling(Code(h)) + (rest + [QUOTE]);
    LoneFails(h, rest);
    FailsAfter(ts, tail);
    Assoc4(SpellAll(ts), Spelling(Code(h)), rest, [QUOTE]);
  }

  /** Every `\u` that the first pass meets is followed by four hexadecimal digits. */
  predicate HexEscapes(body: Bytes) {
    if body == [] then true
    else if body[0] == BACKSLASH && |body| >= 2 then
      (body[1] == LETTER_U ==> |body| >= 6 && IsHex(body[2..6])) && HexEscapes(body[2..])
    else HexEscapes(body[1..])
  }

  lemma {:induction false} PlainHex(s: Bytes, rest: Bytes)
    requires forall k :: 0 <= k < |s| ==> s[k] != BACKSLASH
    ensures HexEscapes(s + rest) == HexEscapes(rest)
    decreases |s|
  {
    if s == [] {
      assert s + rest == rest;
    } else {
      assert (s + rest)[1..] == s[1..] + rest;
      PlainHex(s[1..], rest);
    }
  }

  lemma CodeHex(h: Bytes, rest: Bytes)
    requires IsHex(h)
    ensures HexEscapes([BACKSLASH, LETTER_U] + h + rest) == HexEscapes(rest)
  {
    var s := [BACKSLASH, LETTER_U] + h + rest;
    HexPlain(h);
    PlainHex(h, rest);
    assert s[2..] == h + rest && s[2..6] == h;
  }

  lemma LetterHex(c: byte, rest: Bytes)
    requires c != LETTER_U
    ensures HexEscapes([BACKSLASH, c] + rest) == HexEscapes(rest)
  {
    assert ([BACKSLASH, c] + rest)[2..] == rest;
  }

  lemma TokenHex(t: Token, rest: Bytes)
    requires GoodToken(t)
    ensures HexEscapes(Spelling(t) + rest) == HexEscapes(rest)
  {
    match t
    case Plain(b) => PlainHex([b], rest);
    case Letter(c) => LetterHex(c, rest);
    case Code(h) => CodeHex(h, rest);
    case Pair(hi, lo) =>
      var u := [BACKSLASH, LETTER_U] + lo + rest;
      CodeHex(lo, rest);
      CodeHex(hi, u);
      assert [BACKSLASH, LETTER_U] + hi + [BACKSLASH, LETTER_U] + lo + rest == [BACKSLASH, LETTER_U] + hi + u;
  }

  lemma {:induction false} TokensHex(ts: seq<Token>)
    requires GoodTokens(ts)
    ensures HexEscapes(SpellAll(ts))
  {
    if ts != [] {
      TokensHex(ts[1..]);
      TokenHex(ts[0], SpellAll(ts[1..]));
    }
  }

  /** What a literal that both passes accept starts with, if its escapes have digits. */
  ghost predicate Accepted(body: Bytes) {
    Closed(body) && Unescape(body + [QUOTE]).Some? && HexEscapes(body)
  }

  lemma FirstPlain(body: Bytes)
    requires Accepted(body) && body != [] && body[0] != BACKSLASH
    ensures GoodToken(Plain(body[0])) && Accepted(body[1..])
  {
    assert (body + [QUOTE])[1..] == body[1..] + [QUOTE];
  }

  lemma FirstLetter(body: Bytes)
    requires Accepted(body) && body != [] && body[0] == BACKSLASH && body[1] != LETTER_U
    ensures GoodToken(Letter(body[1])) && Accepted(body[2..])
  {
    assert (body + [QUOTE])[2..] == body[2..] + [QUOTE];
  }

  lemma FirstCode(body: Bytes) returns (t: Token, rest: Bytes)
    requires Accepted(body) && body != [] && body[0] == BACKSLASH && body[1] == LETTER_U
    ensures GoodToken(t) && body == Spelling(t) + rest && |rest| < |body| && Accepted(rest)
  {
    var lit, h, r := body + [QUOTE], body[2..6], body[6..];
    assert body == [BACKSLASH, LETTER_U] + h + r;
    CodeClosed(h, r);
    CodeHex(h, r);
    assert Utf16(lit).0 != 0;
    if HighSurrogate(Unit(h)) {
      t, rest := SecondCode(body, h, r);
    } else {
      t, rest := Code(h), r;
      assert lit[6..] == r + [QUOTE];
    }
  }

  lemma SecondCode(body: Bytes, h: Bytes, r: Bytes) returns (t: Token, rest: Bytes)
    requires IsHex(h) && HighSurrogate(Unit(h)) && body == [BACKSLASH, LETTER_U] + h + r
    requires Closed(r) && HexEscapes(r) && Unescape(body + [QUOTE]).Some?
    ensures GoodToken(t) && body == Spelling(t) + rest && |rest| < |body| && Accepted(rest)
  {
    var lit := body + [QUOTE];
    assert lit[2] == h[0] && lit[3] == h[1] && lit[4] == h[2] && lit[5] == h[3];
    assert Utf16(lit).0 == 12 && lit[6] == BACKSLASH && lit[7] == LETTER_U;
    assert r[0] == lit[6] && r[1] == lit[7];
    var lo := r[2..6];
    rest := r[6..];
    assert r == [BACKSLASH, LETTER_U] + lo + rest;
    CodeClosed(lo, rest);
    CodeHex(lo, rest);
    assert lit[8] == lo[0] && lit[9] == lo[1] && lit[10] == lo[2] && lit[11] == lo[3];
    t := Pair(h, lo);
    assert lit[12..] == rest + [QUOTE];
  }

  /** Such a literal is a list of tokens. */
  lemma {:induction false} Tokenised(body: Bytes) returns (ts: seq<Token>)
    requires Accepted(body)
    ensures GoodTokens(ts) && SpellAll(ts) == body
    decreases |body|
  {
    if body == [] {
      ts := [];
    } else if body[0] != BACKSLASH {
      FirstPlain(body);
      var more := Tokenised(body[1..]);
      ts := [Plain(body[0])] + more;
      assert body == [body[0]] + body[1..];
    } else if body[1] != LETTER_U {
      FirstLetter(body);
      var more := Tokenised(body[2..]);
      ts := [Letter(body[1])] + more;
      assert body == [BACKSLASH, body[1]] + body[2..];
    } else {
      var t, rest := FirstCode(body);
      var more := Tokenised(rest);
      ts := [t] + more;
    }
  }

  /** When the passes agree: a literal that both accept is a list of tokens, and is read
      as one, exactly if its escapes have digits. */
  lemma InStep(body: Bytes)
    requires Closed(body) && Unescape(body + [QUOTE]).Some?
    ensures HexEscapes(body) <==> exists ts :: GoodTokens(ts) && SpellAll(ts) == body
    ensures HexEscapes(body) ==>
      exists ts :: GoodTokens(ts) && SpellAll(ts) == body && Unescape(body + [QUOTE]) == Some(MeanAll(ts))
  {
    if HexEscapes(body) {
      var ts := Tokenised(body);
      TokensRead(ts);
      assert GoodTokens(ts) && SpellAll(ts) == body;
    }
    if ts :| GoodTokens(ts) && SpellAll(ts) == body {
      TokensHex(ts);
    }
  }

  /** Bad digits put the passes out of step: in the literal "\uABC\\" the first pass sees an
      escaped backslash before the closing quote, the second an escaped quote, after the
      six bytes of an escape that stands for NUL. */
  lemma OutOfStep()
    ensures var body: Bytes := [BACKSLASH, LETTER_U, 65, 66, 67, BACKSLASH, BACKSLASH];
      Closed(body) && !HexEscapes(body) && Unescape(body + [QUOTE]) == Some([0, QUOTE])
  {
    var body: Bytes := [BACKSLASH, LETTER_U, 65, 66, 67, BACKSLASH, BACKSLASH];
    var tail: Bytes := [65, 66, 67];
    assert body == [BACKSLASH, LETTER_U] + (tail + [BACKSLASH, BACKSLASH]);
    LetterClosed(LETTER_U, tail + [BACKSLASH, BACKSLASH]);
    PlainClosed(tail, [BACKSLASH, BACKSLASH]);
    LetterClosed(BACKSLASH, []);
    assert [BACKSLASH, BACKSLASH] + [] == [BACKSLASH, BACKSLASH];
    var lit := body + [QUOTE];
    assert lit[6..] == [BACKSLASH, QUOTE];
    var end: Bytes := [BACKSLASH, QUOTE];
    assert end[2..] == [] && Unescape([]) == Some([]) && [QUOTE] + [] == [QUOTE];
    assert Unescape(end) == Onto([QUOTE], Unescape(end[2..]));
    assert body[2..6][3] == BACKSLASH && HexDigit(BACKSLASH) < 0;
    assert Utf16(lit) == (6, [0]);
    assert [0] + [QUOTE] == [0, QUOTE];
  }

  // ----- every scalar value can be escaped -----

  function HexChar(d: nat): byte
    requires d < 16
  {
    if d < 10 then 48 + d else 87 + d
  }

  /** `%04x`. */
  function HexText(c: nat): Bytes
    requires c < 0x10000
  {
    [HexChar(c / 4096), HexChar(c / 256 % 16), HexChar(c / 16 % 16), HexChar(c % 16)]
  }

  lemma HexTextReads(c: nat)
    requires c < 0x10000
    ensures IsHex(HexText(c)) && Unit(HexText(c)) == c
  {
    assert c / 256 == c / 16 / 16 && c / 4096 == c / 16 / 16 / 16;
  }

  function EscapeOf(c: nat): Token
    requires Scalar(c)
  {
    if c < 0x10000 then Code(HexText(c))
    else Pair(HexText(0xD800 + (c - 0x10000) / 0x400), HexText(0xDC00 + (c - 0x10000) % 0x400))
  }

  lemma Surrogates(c: nat)
    requires 0x10000 <= c <= 0x10FFFF
    ensures var hi, lo := 0xD800 + (c - 0x10000) / 0x400, 0xDC00 + (c - 0x10000) % 0x400;
      HighSurrogate(hi) && LowSurrogate(lo) && Combine(hi, lo) == c
  {
  }

  lemma EscapeOfGood(c: nat)
    requires Scalar(c)
    ensures GoodToken(EscapeOf(c)) && Meaning(EscapeOf(c)) == Utf8(c)
  {
    if c < 0x10000 {
      HexTextReads(c);
    } else {
      Surrogates(c);
      HexTextReads(0xD800 + (c - 0x10000) / 0x400);
      HexTextReads(0xDC00 + (c - 0x10000) % 0x400);
    }
  }

  ghost predicate Scalars(cs: seq<nat>) {
    forall k :: 0 <= k < |cs| ==> cs[k] != 0 && Scalar(cs[k])
  }

  ghost function Escapes(cs: seq<nat>): Bytes
    requires Scalars(cs)
  {
    if cs == [] then [] else Spelling(EscapeOf(cs[0])) + Escapes(cs[1..])
  }

  ghost function Utf8All(cs: seq<nat>): Bytes
    requires Scalars(cs)
  {
    if cs == [] then [] else Utf8(cs[0]) + Utf8All(cs[1..])
  }

  /** Reading UTF-8 to the end. */
  function ReadScalars(s: Bytes): Option<seq<nat>>
    decreases |s|
  {
    if s == [] then Some([])
    else
      var f := FirstScalar(s);
      if f == None then None
      else
        var r := ReadScalars(s[f.value.1..]);
        if r == None then None else Some([f.value.0] + r.value)
  }

  /** Any non-zero scalar values, escaped, denote their UTF-8 encoding, which reads back. */
  lemma {:induction false} EscapesDenote(cs: seq<nat>)
    requires Scalars(cs)
    ensures Closed(Escapes(cs)) && Denotes(Escapes(cs)) == Some(Utf8All(cs))
    ensures ReadScalars(Utf8All(cs)) == Some(cs)
  {
    EscapesUnescape(cs);
    Utf8AllReads(cs);
    CStringWhole(Utf8All(cs));
  }

  lemma Utf8NulFree(c: nat)
    requires 0 < c <= 0x10FFFF
    ensures 0 !in Utf8(c)
  {
  }

  lemma {:induction false} EscapesUnescape(cs: seq<nat>)
    requires Scalars(cs)
    ensures Closed(Escapes(cs)) && Unescape(Escapes(cs) + [QUOTE]) == Some(Utf8All(cs)) && 0 !in Utf8All(cs)
  {
    if cs != [] {
      EscapesUnescape(cs[1..]);
      EscapeOfGood(cs[0]);
      Utf8NulFree(cs[0]);
      TokenFirst(EscapeOf(cs[0]), Escapes(cs[1..]), Utf8All(cs[1..]));
    }
  }

  lemma {:induction false} Utf8AllReads(cs: seq<nat>)
    requires Scalars(cs)
    ensures ReadScalars(Utf8All(cs)) == Some(cs)
  {
    if cs != [] {
      Utf8AllReads(cs[1..]);
      Utf8Reads(cs[0], Utf8All(cs[1..]));
      assert Utf8All(cs)[|Utf8(cs[0])|..] == Utf8All(cs[1..]);
      assert cs == [cs[0]] + cs[1..];
    }
  }

  // ----- printing -----

  /** What `print_string_ptr` writes for one byte. */
  function TokenFor(b: byte): Token {
    if b == QUOTE || b == BACKSLASH then Letter(b)
    else if b == BACKSPACE then Letter(LETTER_B)
    else if b == FF then Letter(LETTER_F)
    else if b == LF then Letter(LETTER_N)
    else if b == CR then Letter(LETTER_R)
    else if b == TAB then Letter(LETTER_T)
    else if b < 32 then Code(HexText(b))
    else Plain(b)
  }

  function Escape(s: Bytes): Bytes {
    if s == [] then [] else Spelling(TokenFor(s[0])) + Escape(s[1..])
  }

  lemma TokenForGood(b: byte)
    ensures GoodToken(TokenFor(b)) && Meaning(TokenFor(b)) == [b] && 0 !in Spelling(TokenFor(b))
  {
    if TokenFor(b).Code? {
      HexTextReads(b);
      HexTextNulFree(b);
    }
  }

  lemma HexTextNulFree(c: nat)
    requires c < 0x10000
    ensures 0 !in HexText(c)
  {
  }

  lemma {:induction false} EscapeUnescape(s: Bytes)
    ensures Closed(Escape(s)) && Unescape(Escape(s) + [QUOTE]) == Some(s)
    ensures 0 !in s ==> 0 !in Escape(s)
  {
    if s != [] {
      EscapeUnescape(s[1..]);
      TokenForGood(s[0]);
      TokenFirst(TokenFor(s[0]), Escape(s[1..]), s[1..]);
      assert s == [s[0]] + s[1..];
    }
  }

  /** Printing a string and reading it back. */
  lemma EscapeDenotes(s: Bytes)
    requires 0 !in s
    ensures Closed(Escape(s)) && 0 !in Escape(s) && Denotes(Escape(s)) == Some(s)
  {
    EscapeUnescape(s);
    CStringWhole(s);
  }
}
