/**
 The language in numbers: the bytes that RFC 8259 lists for words, escapes, brackets and
 white space, and what the parser and the printer make of them.  No name of a byte
 occurs here.
 */
module JsonBytes {
  import opened Octets
  import opened ByteText
  import opened JsonString
  import opened JsonNumber
  import opened JsonGrammar
  import opened JsonShape
  import opened JsonParse
  import opened JsonDecimal

  // ----- literals -----

  /** Section 7: what the escape of one character stands for. */
  lemma LetterEscapes(x: byte)
    requires x != 117
    ensures Unescape([92, x, 34]) ==
      if x == 34 then Some([34]) else if x == 92 then Some([92]) else if x == 47 then Some([47])
      else if x == 98 then Some([8]) else if x == 102 then Some([12]) else if x == 110 then Some([10])
      else if x == 114 then Some([13]) else if x == 116 then Some([9]) else None
  {
    var lit := [92, x, 34];
    assert lit[2..] == [34] && Unescape([34]) == Some([]);
    assert forall b: byte :: [b] + [] == [b];
  }

  /** The value of a hexadecimal digit in either case. */
  lemma HexDigits(b: byte)
    ensures HexDigit(b) ==
      if 48 <= b <= 57 then b - 48 else if 65 <= b <= 70 then b - 65 + 10 else if 97 <= b <= 102 then b - 97 + 10 else -1
  {
  }

  /** Four digits outside the surrogates stand for the UTF-8 of their number. */
  lemma HexEscape(h: Bytes)
    requires IsHex(h)
    ensures var n := ((HexDigit(h[0]) * 16 + HexDigit(h[1])) * 16 + HexDigit(h[2])) * 16 + HexDigit(h[3]);
      n >= 0 && Unescape([92, 117] + h + [34]) == if 0xD800 <= n < 0xE000 then None else Some(Utf8(n))
  {
    var lit := [92, 117] + h + [34];
    assert lit[6..] == [34] && Unescape([34]) == Some([]);
    assert Utf8(Unit(h)) + [] == Utf8(Unit(h));
    assert [lit[2], lit[3], lit[4], lit[5]] == h;
  }

  /** What is printed for each byte: the escapes of section 7 where it has a letter, four
      digits for the other control characters, and the byte itself. */
  lemma EscapedByte(b: byte)
    ensures Escape([b]) ==
      if b == 34 then [92, 34] else if b == 92 then [92, 92]
      else if b == 8 then [92, 98] else if b == 12 then [92, 102] else if b == 10 then [92, 110]
      else if b == 13 then [92, 114] else if b == 9 then [92, 116]
      else if b < 32 then [92, 117, 48, 48, 48 + b / 16, if b % 16 < 10 then 48 + b % 16 else 97 + b % 16 - 10]
      else [b]
  {
    EscapedFirst(b, []);
    assert [b] + [] == [b] && Spelling(TokenFor(b)) + [] == Spelling(TokenFor(b));
  }

  lemma EscapedFirst(b: byte, s: Bytes)
    ensures Escape([]) == [] && Escape([b] + s) == Spelling(TokenFor(b)) + Escape(s)
  {
    assert ([b] + s)[1..] == s;
  }

  /** A string is printed byte by byte. */
  lemma EscapedMore(b: byte, s: Bytes)
    ensures Escape([]) == [] && Escape([b] + s) == Escape([b]) + Escape(s)
  {
    EscapedFirst(b, s);
    EscapedFirst(b, []);
    assert [b] + [] == [b] && Spelling(TokenFor(b)) + [] == Spelling(TokenFor(b));
  }

  /** The code points that escapes and UTF-8 are about. */
  lemma Scalars(c: nat)
    ensures Scalar(c) <==> c <= 0x10FFFF && !(0xD800 <= c <= 0xDFFF)
  {
  }

  // ----- integers -----

  /** An integer is printed in decimal without leading zeros, with a sign if negative. */
  lemma {:induction false} IntegerText(n: nat)
    ensures IntText(0) == [48] && (n > 0 ==> IntText(n)[0] != 48 && IntText(-(n as int)) == [45] + IntText(n))
    ensures forall k :: 0 <= k < |IntText(n)| ==> 48 <= IntText(n)[k] <= 57
    ensures n >= 10 ==> IntText(n) == IntText(n / 10) + [48 + n % 10]
  {
    if n >= 10 { IntegerText(n / 10); }
  }

  // ----- words -----

  lemma Bare(t: Bytes)
    ensures t == [] + t + []
  {
  }

  lemma InLexicon(text: Bytes, v: Json)
    requires IsLeaf(text, v)
    ensures Good(Lex(), Leaf(text, v))
  {
    assert (text, v) in Lex().leaves;
  }

  lemma LeafDocument(lex: Lexicon, text: Bytes, v: Json)
    requires Good(lex, Leaf(text, v))
    ensures Document(lex, text, [], Leaf(text, v), [], v)
  {
    Bare(text);
  }

  lemma Word(text: Bytes, v: Json)
    requires IsLeaf(text, v) && 0 !in text
    ensures CText(text + [0]) && ParseDoc(text + [0]) == Some(v)
  {
    InLexicon(text, v);
    LeafDocument(Lex(), text, v);
    DocComplete(text, [], Leaf(text, v), [], v);
  }

  lemma WordEnd(text: Bytes, buf: Bytes, v: Json)
    requires IsLeaf(text, v) && 0 !in text && buf == text + [0]
    ensures CText(buf) && ParseDoc(buf) == Some(v)
  {
    Word(text, v);
  }

  /** Section 3. */
  lemma Words(buf: Bytes)
    ensures buf == [116, 114, 117, 101, 0] ==> CText(buf) && ParseDoc(buf) == Some(True)
    ensures buf == [102, 97, 108, 115, 101, 0] ==> CText(buf) && ParseDoc(buf) == Some(False)
    ensures buf == [110, 117, 108, 108, 0] ==> CText(buf) && ParseDoc(buf) == Some(Null)
  {
    if buf == [116, 114, 117, 101, 0] {
      WordEnd([116, 114, 117, 101], buf, True);
    } else if buf == [102, 97, 108, 115, 101, 0] {
      WordEnd([102, 97, 108, 115, 101], buf, False);
    } else if buf == [110, 117, 108, 108, 0] {
      WordEnd([110, 117, 108, 108], buf, Null);
    }
  }

  /** Section 6: a numeral that fits into the buffer has its value. */
  lemma NumeralParsed(d: Numeral)
    requires IsNumeral(d) && |Written(d)| <= 63
    ensures CText(Written(d) + [0]) && ParseDoc(Written(d) + [0]) == Some(Json.Number(Amount(d)))
  {
    Numerals(d);
    NumeralBytes(d);
    NumberParsed(Written(d), Amount(d));
  }

  lemma NumberParsed(t: Bytes, n: real)
    requires NumberText(t) && Value(t) == n
    ensures CText(t + [0]) && ParseDoc(t + [0]) == Some(Json.Number(n))
  {
    NoNul(t);
    Word(t, Json.Number(n));
  }

  lemma NoNul(t: Bytes)
    requires forall k :: 0 <= k < |t| ==> NumberByte(t[k])
    ensures 0 !in t
  {
  }

  // ----- lists -----

  /** Section 2: the texts of arrays and objects; `cJSON` takes every control character
      for white space. */
  lemma Lists(w: Bytes, h: Head, c: Syntax, after: Bytes, next: Entries)
    ensures Text(List(false, w, Stop)) == [91] + w + [93] && Text(List(true, w, Stop)) == [123] + w + [125]
    ensures Text(List(false, w, Entry(h, c, after, next))) == [91] + EntriesText(false, Entry(h, c, after, next))
    ensures Text(List(true, w, Entry(h, c, after, next))) == [123] + EntriesText(true, Entry(h, c, after, next))
    ensures EntriesText(false, Entry(h, c, after, next)) ==
      h.before + Text(c) + after + if next.Stop? then [93] else [44] + EntriesText(false, next)
    ensures EntriesText(true, Entry(h, c, after, next)) ==
      h.before + h.quoted + h.left + [58] + h.right + Text(c) + after + if next.Stop? then [125] else [44] + EntriesText(true, next)
    ensures White(w) <==> forall k :: 0 <= k < |w| ==> 1 <= w[k] <= 32
  {
    assert [91] + (w + [93]) == [91] + w + [93] && [123] + (w + [125]) == [123] + w + [125];
  }
}
