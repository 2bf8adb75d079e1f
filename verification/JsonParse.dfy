/**
 What `cJSON_ParseWithOpts` computes: the words, strings and numbers that its token
 readers find at each offset, and over them the recursive descent.  It accepts
 exactly the texts of the grammar, with their meaning.
 */
module JsonParse {
  import opened Octets
  import opened ByteText
  import opened JsonString
  import opened JsonNumber
  import opened JsonGrammar
  import opened JsonShape

  const NULL_TEXT: Bytes := [110, 117, 108, 108]
  const FALSE_TEXT: Bytes := [102, 97, 108, 115, 101]
  const TRUE_TEXT: Bytes := [116, 114, 117, 101]

  // ----- the lexicon -----

  function Quoted(body: Bytes): Bytes { [QUOTE] + body + [QUOTE] }

  function Body(text: Bytes): Bytes
    requires |text| >= 2
  {
    text[1..|text| - 1]
  }

  ghost predicate IsString(text: Bytes, s: Bytes) {
    && |text| >= 2 && text[0] == QUOTE && text[|text| - 1] == QUOTE
    && Closed(Body(text)) && Denotes(Body(text)) == Some(s)
  }

  ghost predicate IsNumber(text: Bytes, n: real) {
    NumberText(text) && n == Value(text)
  }

  ghost predicate IsLeaf(text: Bytes, v: Json) {
    match v
    case Null => text == NULL_TEXT
    case False => text == FALSE_TEXT
    case True => text == TRUE_TEXT
    case String(s) => IsString(text, s)
    case Number(n) => IsNumber(text, n)
    case _ => false
  }

  ghost function Lex(): Lexicon {
    Lexicon(iset p: (Bytes, Json) | IsLeaf(p.0, p.1), iset p: (Bytes, Bytes) | IsString(p.0, p.1))
  }

  // ----- the token readers -----

  /** The first pass of `parse_string`: the text of a literal, with its quotes. */
  function LiteralAt(buf: Bytes, i: nat): (r: Option<Bytes>)
    requires CText(buf) && i < |buf|
    ensures r.Some? ==> 2 <= |r.value| < |buf| - i
  {
    if buf[i] != QUOTE || Close(buf, i + 1).None? then None else Some(buf[i..Close(buf, i + 1).value + 1])
  }

  /** `parse_string`. */
  function StringToken(buf: Bytes, i: nat): (r: Option<(Bytes, Bytes)>)
    requires CText(buf) && i < |buf|
    ensures r.Some? ==> 0 < |r.value.0| && i + |r.value.0| < |buf|
  {
    var text := LiteralAt(buf, i);
    if text.None? then None
    else
      var s := Denotes(Body(text.value));
      if s.None? then None else Some((text.value, s.value))
  }

  /** The bytes that `parse_number` copies. */
  function NumberRun(buf: Bytes, i: nat): (run: Bytes)
    requires CText(buf) && i < |buf|
    ensures i + |run| < |buf|
  {
    NumberEnds(buf, i);
    buf[i..i + Run(buf[i..], NUMBER_MAX)]
  }

  /** `parse_number`. */
  function NumberToken(buf: Bytes, i: nat): (r: Option<(Bytes, real)>)
    requires CText(buf) && i < |buf|
    ensures r.Some? ==> 0 < |r.value.0| && i + |r.value.0| < |buf|
  {
    var run := NumberRun(buf, i);
    var n := Converted(run);
    if n == 0 then None else Some((run[..n], Value(run[..n])))
  }

  function WordToken(buf: Bytes, i: nat): (r: Option<(Bytes, Json)>)
    requires CText(buf) && i < |buf|
    ensures r.Some? ==> 0 < |r.value.0| && i + |r.value.0| < |buf|
  {
    if At(buf, i, NULL_TEXT) then WordEnds(buf, i, NULL_TEXT); Some((NULL_TEXT, Null))
    else if At(buf, i, FALSE_TEXT) then WordEnds(buf, i, FALSE_TEXT); Some((FALSE_TEXT, False))
    else if At(buf, i, TRUE_TEXT) then WordEnds(buf, i, TRUE_TEXT); Some((TRUE_TEXT, True))
    else None
  }

  /** The values without children in `parse_value`. */
  function LeafToken(buf: Bytes, i: nat): (r: Option<(Bytes, Json)>)
    requires CText(buf) && i < |buf|
    ensures r.Some? ==> 0 < |r.value.0| && i + |r.value.0| < |buf|
  {
    if WordToken(buf, i).Some? then WordToken(buf, i)
    else if buf[i] == QUOTE then
      var s := StringToken(buf, i);
      if s.None? then None else Some((s.value.0, String(s.value.1)))
    else if buf[i] == MINUS || IsDigit(buf[i]) then
      var x := NumberToken(buf, i);
      if x.None? then None else Some((x.value.0, Number(x.value.1)))
    else None
  }

  function TokensOf(buf: Bytes): (t: Tokens)
    requires CText(buf)
    ensures TokensOk(t, buf)
  {
    Tokens(map i: nat | i < |buf| && LeafToken(buf, i).Some? :: LeafToken(buf, i).value,
           map i: nat | i < |buf| && StringToken(buf, i).Some? :: StringToken(buf, i).value)
  }

  /** `cJSON_ParseWithOpts` with `require_null_terminated`. */
  function ParseDoc(buf: Bytes): Option<Json>
    requires CText(buf)
  {
    ParseText(TokensOf(buf), buf)
  }

  lemma NumberEnds(buf: Bytes, i: nat)
    requires CText(buf) && i < |buf|
    ensures i + Run(buf[i..], NUMBER_MAX) < |buf|
  {
    var n := Run(buf[i..], NUMBER_MAX);
    RunBytes(buf[i..], NUMBER_MAX);
    if n > 0 { assert buf[i..][n - 1] == buf[i + n - 1]; }
  }

  lemma WordEnds(buf: Bytes, i: nat, t: Bytes)
    requires CText(buf) && At(buf, i, t) && t != [] && t[|t| - 1] != 0
    ensures i + |t| < |buf|
  {
    AtIndex(buf, i, t, |t| - 1);
  }

  // ----- the readers find the lexicon -----

  /** Quotes around the contents of a literal. */
  ghost predicate IsLiteral(text: Bytes) {
    |text| >= 2 && text[0] == QUOTE && text[|text| - 1] == QUOTE && Closed(Body(text))
  }

  lemma LiteralSourced(buf: Bytes, i: nat, text: Bytes)
    requires CText(buf) && i < |buf| && LiteralAt(buf, i) == Some(text)
    ensures IsLiteral(text) && At(buf, i, text)
  {
    var e := Close(buf, i + 1).value;
    CloseSound(buf, i + 1);
    AtSlice(buf, i, text);
    assert Body(text) == buf[i + 1..e];
  }

  lemma LiteralCovered(buf: Bytes, i: nat, text: Bytes)
    requires CText(buf) && IsLiteral(text) && At(buf, i, text)
    ensures i < |buf| && buf[i] == QUOTE && LiteralAt(buf, i) == Some(text)
  {
    AtIndex(buf, i, text, 0);
    AtSlice(buf, i, text);
    BodyAt(buf, i, text);
    CloseComplete(buf, i + 1, Body(text));
  }

  lemma BodyAt(buf: Bytes, i: nat, text: Bytes)
    requires IsLiteral(text) && At(buf, i, text)
    ensures At(buf, i + 1, Body(text) + [QUOTE])
  {
    var rest := Body(text) + [QUOTE];
    forall k | 0 <= k < |rest| ensures buf[i + 1 + k] == rest[k] {
      assert rest[k] == text[k + 1];
    }
  }

  lemma StringSourced(buf: Bytes, i: nat, text: Bytes, s: Bytes)
    requires CText(buf) && i < |buf| && StringToken(buf, i) == Some((text, s))
    ensures IsString(text, s) && At(buf, i, text)
  {
    LiteralSourced(buf, i, text);
  }

  lemma StringCovered(buf: Bytes, i: nat, text: Bytes, s: Bytes)
    requires CText(buf) && IsString(text, s) && At(buf, i, text)
    ensures i < |buf| && buf[i] == QUOTE && StringToken(buf, i) == Some((text, s))
  {
    LiteralCovered(buf, i, text);
  }

  lemma NumberRunBytes(buf: Bytes, i: nat)
    requires CText(buf) && i < |buf|
    ensures var run := NumberRun(buf, i);
      At(buf, i, run) && |run| <= NUMBER_MAX && forall k :: 0 <= k < |run| ==> NumberByte(run[k])
  {
    RunBytes(buf[i..], NUMBER_MAX);
    AtSlice(buf, i, NumberRun(buf, i));
  }

  lemma NumberSourced(buf: Bytes, i: nat, text: Bytes, n: real)
    requires CText(buf) && i < |buf| && NumberToken(buf, i) == Some((text, n)) && (buf[i] == MINUS || IsDigit(buf[i]))
    ensures IsNumber(text, n) && At(buf, i, text)
  {
    var run := NumberRun(buf, i);
    NumberRunBytes(buf, i);
    TokenOf(run);
    AtFirst(buf, i, run, |text|);
  }

  lemma NumberRunIs(buf: Bytes, i: nat, t: Bytes)
    requires CText(buf) && At(buf, i, t) && |t| <= NUMBER_MAX && i + |t| < |buf| && !NumberByte(buf[i + |t|])
    requires forall k :: 0 <= k < |t| ==> NumberByte(t[k])
    ensures NumberRun(buf, i) == t
  {
    AtTail(buf, i, t);
    RunWhole(t, buf[i + |t|..], NUMBER_MAX);
  }

  lemma NumberCovered(buf: Bytes, i: nat, text: Bytes, n: real)
    requires CText(buf) && IsNumber(text, n) && At(buf, i, text) && i + |text| < |buf| && Ends(buf[i + |text|])
    ensures NumberToken(buf, i) == Some((text, n)) && (buf[i] == MINUS || IsDigit(buf[i]))
  {
    NumberStands(buf, i, text);
    NumberWhole(buf, i, text);
  }

  lemma NumberStands(buf: Bytes, i: nat, text: Bytes)
    requires CText(buf) && NumberText(text) && At(buf, i, text) && i + |text| < |buf| && Ends(buf[i + |text|])
    ensures NumberRun(buf, i) == text && (buf[i] == MINUS || IsDigit(buf[i]))
  {
    NumberRunIs(buf, i, text);
    AtIndex(buf, i, text, 0);
  }

  lemma NumberWhole(buf: Bytes, i: nat, text: Bytes)
    requires CText(buf) && i < |buf| && NumberRun(buf, i) == text != [] && Converted(text) == |text|
    ensures NumberToken(buf, i) == Some((text, Value(text)))
  {
    assert text[..|text|] == text;
  }

  lemma NotWord(buf: Bytes, i: nat, t: Bytes)
    requires i < |buf| && t != [] && buf[i] != t[0]
    ensures !At(buf, i, t)
  {
  }

  lemma NoWords(buf: Bytes, i: nat)
    requires i < |buf| && (buf[i] == QUOTE || buf[i] == MINUS || IsDigit(buf[i]))
    ensures !At(buf, i, NULL_TEXT) && !At(buf, i, FALSE_TEXT) && !At(buf, i, TRUE_TEXT)
  {
    NotWord(buf, i, NULL_TEXT);
    NotWord(buf, i, FALSE_TEXT);
    NotWord(buf, i, TRUE_TEXT);
  }

  lemma LeafSourced(buf: Bytes, i: nat, text: Bytes, v: Json)
    requires CText(buf) && i < |buf| && LeafToken(buf, i) == Some((text, v))
    ensures IsLeaf(text, v) && At(buf, i, text)
  {
    if WordToken(buf, i).Some? {
      WordSourced(buf, i, text, v);
    } else if buf[i] == QUOTE {
      StringSourced(buf, i, text, v.s);
    } else {
      NumberSourced(buf, i, text, v.n);
    }
  }

  lemma WordSourced(buf: Bytes, i: nat, text: Bytes, v: Json)
    requires CText(buf) && i < |buf| && WordToken(buf, i) == Some((text, v))
    ensures IsLeaf(text, v) && At(buf, i, text)
  {
  }

  lemma LeafCovered(buf: Bytes, i: nat, text: Bytes, v: Json)
    requires CText(buf) && IsLeaf(text, v) && At(buf, i, text) && i + |text| < |buf| && Ends(buf[i + |text|])
    ensures LeafToken(buf, i) == Some((text, v))
  {
    match v
    case String(s) => StringCovered(buf, i, text, s); NoWords(buf, i);
    case Number(n) => NumberCovered(buf, i, text, n); NoWords(buf, i);
    case Null =>
    case False => AtIndex(buf, i, text, 0); NotWord(buf, i, NULL_TEXT);
    case True => AtIndex(buf, i, text, 0); NotWord(buf, i, NULL_TEXT); NotWord(buf, i, FALSE_TEXT);
  }

  lemma TokensSourced(buf: Bytes)
    requires CText(buf)
    ensures Sourced(Lex(), TokensOf(buf), buf)
  {
    var t := TokensOf(buf);
    forall i | i in t.leaf ensures IsLeaf(t.leaf[i].0, t.leaf[i].1) && At(buf, i, t.leaf[i].0) {
      LeafSourced(buf, i, t.leaf[i].0, t.leaf[i].1);
    }
    forall i | i in t.names ensures IsString(t.names[i].0, t.names[i].1) && At(buf, i, t.names[i].0) {
      StringSourced(buf, i, t.names[i].0, t.names[i].1);
    }
  }

  lemma LeafFirst(text: Bytes, v: Json)
    requires IsLeaf(text, v)
    ensures text != [] && LeafStart(text[0])
  {
  }

  lemma TokensCovered(buf: Bytes)
    requires CText(buf)
    ensures Covered(Lex(), TokensOf(buf), buf)
  {
    var t := TokensOf(buf);
    forall p: (Bytes, Json) | IsLeaf(p.0, p.1) ensures p.0 != [] && LeafStart(p.0[0]) {
      LeafFirst(p.0, p.1);
    }
    forall i: nat, p: (Bytes, Json) {:trigger IsLeaf(p.0, p.1), At(buf, i, p.0)}
      | IsLeaf(p.0, p.1) && At(buf, i, p.0) && i + |p.0| < |buf| && Ends(buf[i + |p.0|])
      ensures i in t.leaf && t.leaf[i] == p
    {
      LeafFirst(p.0, p.1);
      LeafCovered(buf, i, p.0, p.1);
    }
    forall i: nat, p: (Bytes, Bytes) {:trigger IsString(p.0, p.1), At(buf, i, p.0)} | IsString(p.0, p.1) && At(buf, i, p.0)
      ensures i in t.names && t.names[i] == p
    {
      StringCovered(buf, i, p.0, p.1);
    }
  }

  // ----- documents -----

  /** Every text of the grammar is accepted, with its meaning. */
  lemma DocComplete(s: Bytes, w0: Bytes, c: Syntax, w1: Bytes, v: Json)
    requires 0 !in s && Document(Lex(), s, w0, c, w1, v)
    ensures CText(s + [0]) && ParseDoc(s + [0]) == Some(v)
  {
    TerminatedText(s);
    TokensCovered(s + [0]);
    TextComplete(Lex(), TokensOf(s + [0]), s, w0, c, w1, v);
  }

  /** Whatever is accepted is a text of the grammar with that meaning. */
  lemma DocSound(s: Bytes, v: Json) returns (w0: Bytes, c: Syntax, w1: Bytes)
    requires 0 !in s && CText(s + [0]) && ParseDoc(s + [0]) == Some(v)
    ensures Document(Lex(), s, w0, c, w1, v)
  {
    TokensSourced(s + [0]);
    w0, c, w1 := TextSound(Lex(), TokensOf(s + [0]), s, v);
  }

  /** `cJSON_ParseWithOpts` accepts exactly the documents. */
  lemma ParseExact(s: Bytes, v: Json)
    requires 0 !in s
    ensures CText(s + [0])
    ensures ParseDoc(s + [0]) == Some(v) <==> exists w0, c, w1 :: Document(Lex(), s, w0, c, w1, v)
  {
    TerminatedText(s);
    if ParseDoc(s + [0]) == Some(v) {
      var w0, c, w1 := DocSound(s, v);
      assert Document(Lex(), s, w0, c, w1, v);
    }
    if w0, c, w1 :| Document(Lex(), s, w0, c, w1, v) {
      DocComplete(s, w0, c, w1, v);
    }
  }

  // ----- strings as lists of tokens -----

  /** A quoted list of tokens and what it means: strings without a view to how they are
      decoded. */
  ghost predicate IsTokens(text: Bytes, s: Bytes) {
    exists ts :: GoodTokens(ts) && text == Quoted(SpellAll(ts)) && s == CString(MeanAll(ts))
  }

  /** They are the strings of the lexicon whose escapes have digits. */
  lemma StringsExact(text: Bytes, s: Bytes)
    ensures IsTokens(text, s) <==> IsString(text, s) && HexEscapes(Body(text))
  {
    if IsTokens(text, s) {
      var ts :| GoodTokens(ts) && text == Quoted(SpellAll(ts)) && s == CString(MeanAll(ts));
      TokensQuoted(ts);
    }
    if IsString(text, s) && HexEscapes(Body(text)) {
      var ts := QuotedTokens(text, s);
    }
  }

  lemma QuotedBody(body: Bytes)
    ensures Body(Quoted(body)) == body
  {
  }

  lemma BodyQuoted(text: Bytes)
    requires |text| >= 2 && text[0] == QUOTE && text[|text| - 1] == QUOTE
    ensures Quoted(Body(text)) == text
  {
  }

  lemma TokensQuoted(ts: seq<Token>)
    requires GoodTokens(ts)
    ensures var text := Quoted(SpellAll(ts)); IsString(text, CString(MeanAll(ts))) && HexEscapes(Body(text))
  {
    TokensRead(ts);
    TokensHex(ts);
    QuotedBody(SpellAll(ts));
  }

  lemma QuotedTokens(text: Bytes, s: Bytes) returns (ts: seq<Token>)
    requires IsString(text, s) && HexEscapes(Body(text))
    ensures GoodTokens(ts) && text == Quoted(SpellAll(ts)) && s == CString(MeanAll(ts))
  {
    ts := Tokenised(Body(text));
    TokensRead(ts);
    BodyQuoted(text);
  }

  ghost predicate IsStrictLeaf(text: Bytes, v: Json) {
    if v.String? then IsTokens(text, v.s) else IsLeaf(text, v)
  }

  ghost function StrictLex(): Lexicon {
    Lexicon(iset p: (Bytes, Json) | IsStrictLeaf(p.0, p.1), iset p: (Bytes, Bytes) | IsTokens(p.0, p.1))
  }

  /** All literals in a syntax tree have digits in their escapes. */
  ghost predicate HexIn(c: Syntax)
    decreases c
  {
    match c
    case Leaf(text, v) => v.String? ==> |text| >= 2 && HexEscapes(Body(text))
    case List(obj, _, e) => HexInAll(obj, e)
  }

  ghost predicate HexInAll(obj: bool, e: Entries)
    decreases e
  {
    match e
    case Stop => true
    case Entry(h, c, _, next) => (obj ==> |h.quoted| >= 2 && HexEscapes(Body(h.quoted))) && HexIn(c) && HexInAll(obj, next)
  }

  lemma {:induction false} StrictGood(c: Syntax)
    ensures Good(StrictLex(), c) <==> Good(Lex(), c) && HexIn(c)
    decreases c
  {
    match c
    case Leaf(text, v) => if v.String? { StringsExact(text, v.s); }
    case List(obj, _, e) => StrictGoodAll(obj, e);
  }

  lemma {:induction false} StrictGoodAll(obj: bool, e: Entries)
    ensures GoodAll(StrictLex(), obj, e) <==> GoodAll(Lex(), obj, e) && HexInAll(obj, e)
    decreases e
  {
    if e.Entry? {
      StringsExact(e.head.quoted, e.head.name);
      StrictGood(e.value);
      StrictGoodAll(obj, e.next);
    }
  }

  /** A text is a document of the grammar with token strings exactly if it is accepted
      with that meaning and its literals have digits in their escapes. */
  lemma ParseStrict(s: Bytes, w0: Bytes, c: Syntax, w1: Bytes, v: Json)
    requires 0 !in s
    ensures CText(s + [0])
    ensures Document(StrictLex(), s, w0, c, w1, v) <==> Document(Lex(), s, w0, c, w1, v) && HexIn(c)
    ensures Document(StrictLex(), s, w0, c, w1, v) ==> ParseDoc(s + [0]) == Some(v)
  {
    TerminatedText(s);
    StrictGood(c);
    if Document(Lex(), s, w0, c, w1, v) { DocComplete(s, w0, c, w1, v); }
  }
}
