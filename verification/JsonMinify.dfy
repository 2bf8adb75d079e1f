/**
 `cJSON_Minify`: it takes blanks and comments out of a text in place.  On every text
 that the parser accepts it stays inside the text and keeps the meaning.
 */
module JsonMinify {
  import opened Octets
  import opened ByteText
  import opened JsonString
  import opened JsonNumber
  import opened JsonGrammar
  import opened JsonShape
  import opened JsonParse

  predicate Blank(b: byte) { b == SPACE || b == TAB || b == CR || b == LF }

  /** The rest of a text from the end of the line, and from behind a comment, on. */
  function SkipLine(s: Bytes): (r: Bytes)
    ensures |r| <= |s| && (s != [] && s[0] != LF ==> |r| < |s|)
  {
    if s == [] || s[0] == LF then s else SkipLine(s[1..])
  }

  function SkipBlock(s: Bytes): (r: Option<Bytes>)
    ensures r.Some? ==> |r.value| < |s|
  {
    if s == [] then None
    else if s[0] == STAR && |s| > 1 && s[1] == SLASH then Some(s[2..])
    else SkipBlock(s[1..])
  }

  /** The text that remains, or None if the scan runs past the terminator, which it does
      in an unfinished literal or comment. */
  function Minified(s: Bytes): Option<Bytes>
    decreases |s|
  {
    if s == [] then Some([])
    else if Blank(s[0]) then Minified(s[1..])
    else if s[0] == SLASH && |s| > 1 && s[1] == SLASH then Minified(SkipLine(s))
    else if s[0] == SLASH && |s| > 1 && s[1] == STAR then
      (if SkipBlock(s).None? then None else Minified(SkipBlock(s).value))
    else if s[0] == QUOTE then
      var e := Close(s, 1);
      if e.None? then None else Onto(s[..e.value + 1], Minified(s[e.value + 1..]))
    else Onto([s[0]], Minified(s[1..]))
  }

  // ----- on texts of the grammar -----

  function Kept(w: Bytes): Bytes {
    if w == [] then [] else if Blank(w[0]) then Kept(w[1..]) else [w[0]] + Kept(w[1..])
  }

  lemma {:induction false} KeptWhite(w: Bytes)
    requires White(w)
    ensures White(Kept(w))
  {
    if w != [] { KeptWhite(w[1..]); }
  }

  lemma MinWhiteStep(w: Bytes, rest: Bytes)
    requires White(w) && w != []
    ensures Minified(w + rest) == if Blank(w[0]) then Minified(w[1..] + rest) else Onto([w[0]], Minified(w[1..] + rest))
  {
    assert (w + rest)[0] == w[0] && (w + rest)[1..] == w[1..] + rest;
  }

  lemma {:induction false} MinWhite(w: Bytes, rest: Bytes)
    requires White(w)
    ensures Minified(w + rest) == Onto(Kept(w), Minified(rest))
  {
    if w == [] {
      assert w + rest == rest;
      OntoNothing(Minified(rest));
    } else {
      MinWhite(w[1..], rest);
      MinWhiteStep(w, rest);
      OntoTwice([w[0]], Kept(w[1..]), Minified(rest));
    }
  }

  predicate Solid(b: byte) { !Blank(b) && b != SLASH && b != QUOTE }

  lemma {:induction false} MinSolid(t: Bytes, rest: Bytes)
    requires forall k :: 0 <= k < |t| ==> Solid(t[k])
    ensures Minified(t + rest) == Onto(t, Minified(rest))
  {
    if t == [] {
      assert t + rest == rest;
      OntoNothing(Minified(rest));
    } else {
      MinSolid(t[1..], rest);
      assert (t + rest)[1..] == t[1..] + rest;
      OntoTwice([t[0]], t[1..], Minified(rest));
      assert t == [t[0]] + t[1..];
    }
  }

  lemma MinByte(b: byte, rest: Bytes)
    requires Solid(b)
    ensures Minified([b] + rest) == Onto([b], Minified(rest))
  {
    MinSolid([b], rest);
  }

  lemma MinLiteral(text: Bytes, rest: Bytes)
    requires IsLiteral(text)
    ensures Minified(text + rest) == Onto(text, Minified(rest))
  {
    var s, e := text + rest, |text| - 1;
    AtSlice(s, 0, text);
    BodyAt(s, 0, text);
    CloseComplete(s, 1, Body(text));
    assert s[..e + 1] == text && s[e + 1..] == rest;
  }

  lemma MinLeaf(text: Bytes, v: Json, rest: Bytes)
    requires IsLeaf(text, v)
    ensures Minified(text + rest) == Onto(text, Minified(rest))
  {
    if v.String? {
      MinLiteral(text, rest);
    } else {
      LeafSolid(text, v);
      MinSolid(text, rest);
    }
  }

  lemma LeafSolid(text: Bytes, v: Json)
    requires IsLeaf(text, v) && !v.String?
    ensures forall k :: 0 <= k < |text| ==> Solid(text[k])
  {
    if v.Number? { NumberSolid(text); }
  }

  lemma NumberSolid(text: Bytes)
    requires forall k :: 0 <= k < |text| ==> NumberByte(text[k])
    ensures forall k :: 0 <= k < |text| ==> Solid(text[k])
  {
  }

  /** Tokens stay as they are. */
  ghost predicate TokensPass(lex: Lexicon) {
    && (forall p, rest {:trigger p in lex.leaves, p.0 + rest} ::
          p in lex.leaves ==> Minified(p.0 + rest) == Onto(p.0, Minified(rest)))
    && (forall p, rest {:trigger p in lex.names, p.0 + rest} ::
          p in lex.names ==> Minified(p.0 + rest) == Onto(p.0, Minified(rest)))
  }

  lemma LexPasses()
    ensures TokensPass(Lex())
  {
    forall p: (Bytes, Json), rest: Bytes {:trigger IsLeaf(p.0, p.1), p.0 + rest} | IsLeaf(p.0, p.1)
      ensures Minified(p.0 + rest) == Onto(p.0, Minified(rest))
    {
      MinLeaf(p.0, p.1, rest);
    }
    forall p: (Bytes, Bytes), rest: Bytes {:trigger IsString(p.0, p.1), p.0 + rest} | IsString(p.0, p.1)
      ensures Minified(p.0 + rest) == Onto(p.0, Minified(rest))
    {
      MinLiteral(p.0, rest);
    }
  }

  /** The syntax tree without the blanks. */
  function MinHead(h: Head): Head {
    Head(Kept(h.before), h.quoted, h.name, Kept(h.left), Kept(h.right))
  }

  function Min(c: Syntax): Syntax {
    match c
    case Leaf(_, _) => c
    case List(obj, blank, e) => List(obj, Kept(blank), MinAll(e))
  }

  function MinAll(e: Entries): Entries {
    match e
    case Stop => Stop
    case Entry(h, c, after, next) => Entry(MinHead(h), Min(c), Kept(after), MinAll(next))
  }

  /** It is still a good tree and means the same. */
  lemma {:induction false} MinKeeps(lex: Lexicon, c: Syntax)
    requires Good(lex, c)
    ensures Good(lex, Min(c)) && Means(Min(c)) == Means(c) && Nesting(Min(c)) == Nesting(c)
    decreases c
  {
    if c.List? {
      KeptWhite(c.blank);
      MinAllKeeps(lex, c.obj, c.entries);
    }
  }

  lemma {:induction false} MinAllKeeps(lex: Lexicon, obj: bool, e: Entries)
    requires GoodAll(lex, obj, e)
    ensures GoodAll(lex, obj, MinAll(e)) && MeansAll(obj, MinAll(e)) == MeansAll(obj, e)
    ensures NestingAll(MinAll(e)) == NestingAll(e)
    decreases e
  {
    if e.Entry? {
      KeptWhite(e.head.before);
      KeptWhite(e.head.left);
      KeptWhite(e.head.right);
      KeptWhite(e.after);
      MinKeeps(lex, e.value);
      MinAllKeeps(lex, obj, e.next);
    }
  }

  // Texts are split from the right: what is behind `x` first.

  lemma Behind(a: Bytes, a': Bytes, b: Bytes, b': Bytes, rest: Bytes)
    requires Minified(a + (b + rest)) == Onto(a', Minified(b + rest))
    requires Minified(b + rest) == Onto(b', Minified(rest))
    ensures Minified(a + b + rest) == Onto(a' + b', Minified(rest))
  {
    assert a + b + rest == a + (b + rest);
    OntoTwice(a', b', Minified(rest));
  }

  lemma MinHeadText(lex: Lexicon, obj: bool, h: Head, rest: Bytes)
    requires TokensPass(lex) && GoodHead(lex, obj, h)
    ensures Minified(HeadText(obj, h) + rest) == Onto(HeadText(obj, MinHead(h)), Minified(rest))
  {
    if obj {
      var a, b := h.before + h.quoted, h.before + h.quoted + h.left;
      var a', b' := Kept(h.before) + h.quoted, Kept(h.before) + h.quoted + Kept(h.left);
      NameAndSpace(lex, h, [COLON] + (h.right + rest));
      MinByte(COLON, h.right + rest);
      Behind(b, b', [COLON], [COLON], h.right + rest);
      MinWhite(h.right, rest);
      Behind(b + [COLON], b' + [COLON], h.right, Kept(h.right), rest);
    } else {
      MinWhite(h.before, rest);
    }
  }

  lemma NameAndSpace(lex: Lexicon, h: Head, rest: Bytes)
    requires TokensPass(lex) && GoodHead(lex, true, h)
    ensures Minified(h.before + h.quoted + h.left + rest) == Onto(Kept(h.before) + h.quoted + Kept(h.left), Minified(rest))
  {
    MinWhite(h.before, h.quoted + (h.left + rest));
    assert (h.quoted, h.name).0 + (h.left + rest) == h.quoted + (h.left + rest);
    Behind(h.before, Kept(h.before), h.quoted, h.quoted, h.left + rest);
    MinWhite(h.left, rest);
    Behind(h.before + h.quoted, Kept(h.before) + h.quoted, h.left, Kept(h.left), rest);
  }

  lemma {:induction false} MinText(lex: Lexicon, c: Syntax, rest: Bytes)
    requires TokensPass(lex) && Good(lex, c)
    ensures Minified(Text(c) + rest) == Onto(Text(Min(c)), Minified(rest))
    decreases c, 0
  {
    match c
    case Leaf(text, v) => assert (text, v).0 + rest == text + rest;
    case List(obj, blank, e) =>
      var o := [Opening(obj)];
      if e.Stop? {
        MinByte(Closing(obj), rest);
        MinWhite(blank, [Closing(obj)] + rest);
        Behind(blank, Kept(blank), [Closing(obj)], [Closing(obj)], rest);
        MinByte(Opening(obj), blank + [Closing(obj)] + rest);
        Behind(o, o, blank + [Closing(obj)], Kept(blank) + [Closing(obj)], rest);
      } else {
        MinEntriesText(lex, obj, e, rest);
        MinByte(Opening(obj), EntriesText(obj, e) + rest);
        Behind(o, o, EntriesText(obj, e), EntriesText(obj, MinAll(e)), rest);
      }
  }

  lemma {:induction false} MinEntriesText(lex: Lexicon, obj: bool, e: Entries, rest: Bytes)
    requires TokensPass(lex) && e.Entry? && GoodAll(lex, obj, e)
    ensures Minified(EntriesText(obj, e) + rest) == Onto(EntriesText(obj, MinAll(e)), Minified(rest))
    decreases e, 0
  {
    var h, t, n := HeadText(obj, e.head), Text(e.value), Rest(obj, e.next);
    var h', t', n' := HeadText(obj, MinHead(e.head)), Text(Min(e.value)), Rest(obj, MinAll(e.next));
    MinRestText(lex, obj, e.next, rest);
    MinWhite(e.after, n + rest);
    MinText(lex, e.value, e.after + (n + rest));
    MinHeadText(lex, obj, e.head, t + (e.after + (n + rest)));
    Behind(h, h', t, t', e.after + (n + rest));
    Behind(h + t, h' + t', e.after, Kept(e.after), n + rest);
    Behind(h + t + e.after, h' + t' + Kept(e.after), n, n', rest);
  }

  lemma {:induction false} MinRestText(lex: Lexicon, obj: bool, e: Entries, rest: Bytes)
    requires TokensPass(lex) && GoodAll(lex, obj, e)
    ensures Minified(Rest(obj, e) + rest) == Onto(Rest(obj, MinAll(e)), Minified(rest))
    decreases e, 1
  {
    if e.Stop? {
      MinByte(Closing(obj), rest);
    } else {
      MinEntriesText(lex, obj, e, rest);
      MinByte(COMMA, EntriesText(obj, e) + rest);
      Behind([COMMA], [COMMA], EntriesText(obj, e), EntriesText(obj, MinAll(e)), rest);
    }
  }

  lemma {:induction false} MinifiedNulFree(s: Bytes)
    requires 0 !in s && Minified(s).Some?
    ensures 0 !in Minified(s).value && |Minified(s).value| <= |s|
    decreases |s|
  {
    if s != [] {
      if Blank(s[0]) {
        MinifiedNulFree(s[1..]);
      } else if s[0] == SLASH && |s| > 1 && s[1] == SLASH {
        LineSuffix(s);
        MinifiedNulFree(SkipLine(s));
      } else if s[0] == SLASH && |s| > 1 && s[1] == STAR {
        BlockSuffix(s);
        MinifiedNulFree(SkipBlock(s).value);
      } else if s[0] == QUOTE {
        var e := Close(s, 1).value;
        MinifiedNulFree(s[e + 1..]);
      } else {
        MinifiedNulFree(s[1..]);
      }
    }
  }

  lemma {:induction false} LineSuffix(s: Bytes)
    ensures SkipLine(s) == s[|s| - |SkipLine(s)|..]
  {
    if s != [] && s[0] != LF { LineSuffix(s[1..]); }
  }

  lemma {:induction false} BlockSuffix(s: Bytes)
    requires SkipBlock(s).Some?
    ensures SkipBlock(s).value == s[|s| - |SkipBlock(s).value|..]
  {
    if !(s[0] == STAR && |s| > 1 && s[1] == SLASH) { BlockSuffix(s[1..]); }
  }

  /** An accepted text is minified to an accepted text with the same tree. */
  lemma MinifyPreserves(s: Bytes, v: Json)
    requires 0 !in s && CText(s + [0]) && ParseDoc(s + [0]) == Some(v)
    ensures Minified(s).Some?
    ensures var m := Minified(s).value;
      0 !in m && |m| <= |s| && CText(m + [0]) && ParseDoc(m + [0]) == Some(v)
  {
    var w0, c, w1 := DocSound(s, v);
    var m := Kept(w0) + Text(Min(c)) + Kept(w1);
    MinDocument(Lex(), s, w0, c, w1, v);
    MinifiedNulFree(s);
    DocComplete(m, Kept(w0), Min(c), Kept(w1), v);
  }

  lemma MinDocument(lex: Lexicon, s: Bytes, w0: Bytes, c: Syntax, w1: Bytes, v: Json)
    requires lex == Lex() && Document(lex, s, w0, c, w1, v)
    ensures var m := Kept(w0) + Text(Min(c)) + Kept(w1);
      Minified(s) == Some(m) && Document(lex, m, Kept(w0), Min(c), Kept(w1), v)
  {
    LexPasses();
    MinDocText(lex, w0, c, w1);
    KeptWhite(w0);
    KeptWhite(w1);
    MinKeeps(lex, c);
  }

  lemma MinDocText(lex: Lexicon, w0: Bytes, c: Syntax, w1: Bytes)
    requires TokensPass(lex) && Good(lex, c) && White(w0) && White(w1)
    ensures Minified(w0 + Text(c) + w1) == Some(Kept(w0) + Text(Min(c)) + Kept(w1))
  {
    MinWhite(w1, []);
    assert w1 + [] == w1;
    MinText(lex, c, w1);
    MinWhite(w0, Text(c) + w1);
    Behind(w0, Kept(w0), Text(c), Text(Min(c)), w1);
    assert Kept(w1) + [] == Kept(w1);
  }
}
