/**
 The layout of printed texts, told without the printer: unformatted text has no blank
 outside its literals, and formatted text is the unformatted one with line ends, tabs
 and spaces put in by a scan from left to right.
 */
module JsonLayout {
  import opened Octets
  import opened ByteText
  import opened JsonString
  import opened JsonNumber
  import opened JsonGrammar
  import opened JsonShape
  import opened JsonParse
  import opened JsonPrint
  import opened JsonMinify

  // ----- no blanks -----

  lemma {:induction false} KeptBlank(w: Bytes)
    requires forall k :: 0 <= k < |w| ==> Blank(w[k])
    ensures Kept(w) == []
  {
    if w != [] { KeptBlank(w[1..]); }
  }

  lemma LayoutKept(fmt: bool, n: nat)
    ensures Kept(Newline(fmt) + Indent(fmt, n)) == [] && Kept(AfterColon(fmt)) == [] && Kept(AfterComma(fmt)) == [] && Kept([]) == []
  {
    KeptBlank(Newline(fmt) + Indent(fmt, n));
    KeptBlank(AfterColon(fmt));
    KeptBlank(AfterComma(fmt));
  }

  /** Unformatted text does not depend on the depth. */
  lemma {:induction false} FlatRender(v: Json, depth: nat)
    ensures Render(v, false, depth) == Render(v, false, 0)
    decreases v
  {
    match v
    case Array(child) => FlatElements(child, depth + 1, []);
    case Object(child) => FlatMembers(child, depth + 1);
    case _ =>
  }

  lemma {:induction false} FlatElements(items: Items, d: nat, before: Bytes)
    ensures RenderElements(items, false, d, before) == RenderElements(items, false, 1, before)
    decreases items
  {
    if items.Item? {
      FlatRender(items.value, d);
      FlatRender(items.value, 1);
      FlatElements(items.next, d, AfterComma(false));
    }
  }

  lemma {:induction false} FlatMembers(items: Items, d: nat)
    requires d > 0
    ensures RenderMembers(items, false, d) == RenderMembers(items, false, 1)
    decreases items
  {
    if items.Item? {
      FlatRender(items.value, d);
      FlatRender(items.value, 1);
      FlatMembers(items.next, d);
    }
  }

  /** Without their blanks the two layouts are one. */
  lemma {:induction false} MinRender(v: Json, fmt: bool, depth: nat)
    ensures Min(Render(v, fmt, depth)) == Render(v, false, 0)
    decreases v
  {
    match v
    case Array(child) => MinElements(child, fmt, depth + 1, []);
    case Object(child) =>
      LayoutKept(fmt, depth);
      MinMembers(child, fmt, depth + 1);
    case _ =>
  }

  lemma {:induction false} MinElements(items: Items, fmt: bool, d: nat, before: Bytes)
    requires Kept(before) == []
    ensures MinAll(RenderElements(items, fmt, d, before)) == RenderElements(items, false, 1, [])
    decreases items
  {
    if items.Item? {
      LayoutKept(fmt, d);
      MinRender(items.value, fmt, d);
      FlatRender(items.value, 1);
      MinElements(items.next, fmt, d, AfterComma(fmt));
    }
  }

  lemma {:induction false} MinMembers(items: Items, fmt: bool, d: nat)
    requires d > 0
    ensures MinAll(RenderMembers(items, fmt, d)) == RenderMembers(items, false, 1)
    decreases items
  {
    if items.Item? {
      LayoutKept(fmt, d);
      LayoutKept(fmt, d - 1);
      MinRender(items.value, fmt, d);
      FlatRender(items.value, 1);
      MinMembers(items.next, fmt, d);
    }
  }

  /** Unformatted text has no blank outside its literals, and minifying the formatted
      text gives it. */
  lemma Compact(v: Json, fmt: bool, depth: nat)
    requires Printable(v)
    ensures Minified(Printed(v, fmt, depth)) == Some(Printed(v, false, 0))
  {
    LexPasses();
    RenderGood(v, fmt, depth);
    RenderText(v, fmt, depth);
    RenderText(v, false, 0);
    MinRender(v, fmt, depth);
    MinText(Lex(), Render(v, fmt, depth), []);
    assert Printed(v, fmt, depth) + [] == Printed(v, fmt, depth);
    assert Printed(v, false, 0) + [] == Printed(v, false, 0);
  }

  // ----- line ends, tabs and spaces -----

  function Tab(n: nat): Bytes { seq(n, _ => 9) }

  /** The formatted text of an unformatted one: a scan that knows which brackets are open,
      true for a brace.  An opening brace ends its line; members stand on lines of their
      own, indented by the number of open brackets; a closing brace stands on its own line,
      indented by one less; a tab follows a colon, and a space a comma between elements. */
  function Pretty(s: Bytes, open: seq<bool>): Bytes
    decreases |s|
  {
    var n := |open|;
    if s == [] then []
    else if s[0] == 34 then
      (if Close(s, 1).None? then s else s[..Close(s, 1).value + 1] + Pretty(s[Close(s, 1).value + 1..], open))
    else if s[0] == 123 && |s| > 1 && s[1] == 125 then [123, 10] + Tab(n) + [125] + Pretty(s[2..], open)
    else if s[0] == 123 then [123, 10] + Tab(n + 1) + Pretty(s[1..], open + [true])
    else if s[0] == 91 then [91] + Pretty(s[1..], open + [false])
    else if s[0] == 125 && n > 0 then [10] + Tab(n - 1) + [125] + Pretty(s[1..], open[..n - 1])
    else if s[0] == 93 && n > 0 then [93] + Pretty(s[1..], open[..n - 1])
    else if s[0] == 44 && n > 0 && open[n - 1] then [44, 10] + Tab(n) + Pretty(s[1..], open)
    else if s[0] == 44 then [44, 32] + Pretty(s[1..], open)
    else if s[0] == 58 then [58, 9] + Pretty(s[1..], open)
    else [s[0]] + Pretty(s[1..], open)
  }

  /** The scan makes `a'` of `a`, and goes on with `o'` open. */
  ghost predicate Turns(a: Bytes, o: seq<bool>, a': Bytes, o': seq<bool>) {
    forall rest {:trigger Pretty(a + rest, o)} :: Pretty(a + rest, o) == a' + Pretty(rest, o')
  }

  lemma TurnBoth(a: Bytes, o: seq<bool>, a': Bytes, p: seq<bool>, b: Bytes, b': Bytes, q: seq<bool>)
    requires Turns(a, o, a', p) && Turns(b, p, b', q)
    ensures Turns(a + b, o, a' + b', q)
  {
    forall rest ensures Pretty(a + b + rest, o) == a' + b' + Pretty(rest, q) {
      assert a + b + rest == a + (b + rest);
      assert a' + b' + Pretty(rest, q) == a' + (b' + Pretty(rest, q));
    }
  }

  lemma TurnNothing(o: seq<bool>)
    ensures Turns([], o, [], o)
  {
    forall rest ensures Pretty([] + rest, o) == [] + Pretty(rest, o) {
      assert [] + rest == rest;
    }
  }

  predicate Copied(b: byte) { b != 34 && b != 123 && b != 125 && b != 91 && b != 93 && b != 44 && b != 58 }

  lemma {:induction false} TurnCopied(t: Bytes, o: seq<bool>)
    requires forall k :: 0 <= k < |t| ==> Copied(t[k])
    ensures Turns(t, o, t, o)
  {
    if t == [] {
      TurnNothing(o);
    } else {
      TurnByte(t[0], o);
      TurnCopied(t[1..], o);
      TurnBoth([t[0]], o, [t[0]], o, t[1..], t[1..], o);
      assert [t[0]] + t[1..] == t;
    }
  }

  lemma TurnByte(b: byte, o: seq<bool>)
    requires Copied(b)
    ensures Turns([b], o, [b], o)
  {
    forall rest ensures Pretty([b] + rest, o) == [b] + Pretty(rest, o) {
      assert ([b] + rest)[1..] == rest;
    }
  }

  lemma TurnQuoted(body: Bytes, o: seq<bool>)
    requires Closed(body)
    ensures Turns([34] + body + [34], o, [34] + body + [34], o)
  {
    var t := [34] + body + [34];
    forall rest ensures Pretty(t + rest, o) == t + Pretty(rest, o) {
      var s := t + rest;
      AtSlice(s, 1, body + [34]);
      assert s[1..|body| + 2] == body + [34];
      CloseComplete(s, 1, body);
      assert s[..|t|] == t && s[|t|..] == rest;
    }
  }

  lemma TurnOpen(o: seq<bool>)
    ensures Turns([91], o, [91], o + [false]) && Turns([93], o + [false], [93], o)
  {
    forall rest ensures Pretty([91] + rest, o) == [91] + Pretty(rest, o + [false]) {
      assert ([91] + rest)[1..] == rest;
    }
    forall rest ensures Pretty([93] + rest, o + [false]) == [93] + Pretty(rest, o) {
      assert ([93] + rest)[1..] == rest && (o + [false])[..|o|] == o;
    }
  }

  lemma TurnComma(o: seq<bool>)
    ensures Turns([44], o + [false], [44, 32], o + [false])
    ensures Turns([44], o + [true], [44, 10] + Tab(|o| + 1), o + [true])
    ensures Turns([58], o, [58, 9], o)
  {
    forall rest, p ensures Pretty([44] + rest, o + [p]) == (if p then [44, 10] + Tab(|o| + 1) else [44, 32]) + Pretty(rest, o + [p]) {
      assert ([44] + rest)[1..] == rest;
    }
    forall rest ensures Pretty([58] + rest, o) == [58, 9] + Pretty(rest, o) {
      assert ([58] + rest)[1..] == rest;
    }
  }

  lemma TurnClose(o: seq<bool>)
    ensures Turns([125], o + [true], [10] + Tab(|o|) + [125], o)
    ensures Turns([123, 125], o, [123, 10] + Tab(|o|) + [125], o)
  {
    forall rest ensures Pretty([125] + rest, o + [true]) == [10] + Tab(|o|) + [125] + Pretty(rest, o) {
      assert ([125] + rest)[1..] == rest && (o + [true])[..|o|] == o;
    }
    forall rest ensures Pretty([123, 125] + rest, o) == [123, 10] + Tab(|o|) + [125] + Pretty(rest, o) {
      assert ([123, 125] + rest)[2..] == rest;
    }
  }

  lemma TurnBrace(x: Bytes, o: seq<bool>, x': Bytes, o': seq<bool>)
    requires x != [] && x[0] == 34 && Turns(x, o + [true], x', o')
    ensures Turns([123] + x, o, [123, 10] + Tab(|o| + 1) + x', o')
  {
    forall rest ensures Pretty([123] + x + rest, o) == [123, 10] + Tab(|o| + 1) + x' + Pretty(rest, o') {
      var s := [123] + x + rest;
      assert s[1..] == x + rest && s[1] == 34;
      assert [123, 10] + Tab(|o| + 1) + x' + Pretty(rest, o') == [123, 10] + Tab(|o| + 1) + (x' + Pretty(rest, o'));
    }
  }

  lemma FlatPrinted(v: Json, depth: nat)
    ensures Printed(v, false, depth) == Printed(v, false, 0)
  {
    RenderText(v, false, depth);
    RenderText(v, false, 0);
    FlatRender(v, depth);
  }

  lemma TurnLeaf(v: Json, o: seq<bool>)
    requires !v.Array? && !v.Object?
    ensures Turns(Printed(v, false, 0), o, Printed(v, true, |o|), o)
  {
    if v.String? {
      EscapeUnescape(v.s);
      TurnQuoted(Escape(v.s), o);
    } else {
      if v.Number? { IntBytes(v.n.Floor); }
      TurnCopied(Printed(v, false, 0), o);
    }
  }

  lemma {:induction false} TurnValue(v: Json, o: seq<bool>)
    ensures Turns(Printed(v, false, 0), o, Printed(v, true, |o|), o)
    decreases v
  {
    match v
    case Array(child) => TurnArray(child, o);
    case Object(child) => TurnObject(child, o);
    case _ => TurnLeaf(v, o);
  }

  lemma {:induction false} TurnArray(child: Items, o: seq<bool>)
    ensures Turns(Printed(Array(child), false, 0), o, Printed(Array(child), true, |o|), o)
    decreases child, 2
  {
    var a, a', p := PrintedElements(child, false, 1), PrintedElements(child, true, |o| + 1), o + [false];
    TurnOpen(o);
    TurnElements(child, o);
    TurnBoth([91], o, [91], p, a, a', p);
    TurnBoth([91] + a, o, [91] + a', p, [93], [93], o);
  }

  lemma {:induction false} TurnElements(items: Items, o: seq<bool>)
    ensures Turns(PrintedElements(items, false, 1), o + [false], PrintedElements(items, true, |o| + 1), o + [false])
    decreases items, 0
  {
    var p := o + [false];
    if items.End? {
      TurnNothing(p);
    } else {
      var v, v' := Printed(items.value, false, 1), Printed(items.value, true, |o| + 1);
      FlatPrinted(items.value, 1);
      TurnValue(items.value, p);
      if items.next.End? {
        assert v + [] == v && v' + [] == v';
      } else {
        var a, a' := PrintedElements(items.next, false, 1), PrintedElements(items.next, true, |o| + 1);
        TurnElements(items.next, o);
        TurnComma(o);
        TurnBoth([44], p, [44, 32], p, a, a', p);
        TurnBoth(v, p, v', p, [44] + a, [44, 32] + a', p);
        assert [COMMA] + AfterComma(false) + a == [44] + a && [COMMA] + AfterComma(true) + a' == [44, 32] + a';
      }
    }
  }

  lemma {:induction false} TurnObject(child: Items, o: seq<bool>)
    ensures Turns(Printed(Object(child), false, 0), o, Printed(Object(child), true, |o|), o)
    decreases child, 2
  {
    if child.End? {
      TurnClose(o);
      EmptyObject(|o|);
    } else {
      TurnMembers(child, o);
      BlockText(child, |o| + 1);
      FirstQuote(child);
      TurnBrace(PrintedMembers(child, false, 1) + [125], o, Block(child, |o| + 1), o);
      ObjectFlat(child);
      ObjectFormatted(child, |o|, Block(child, |o| + 1));
    }
  }

  lemma EmptyObject(n: nat)
    ensures Printed(Object(End), false, 0) == [123, 125] && Printed(Object(End), true, n) == [123, 10] + Tab(n) + [125]
  {
  }

  /** The members from the name of the first one on, and the closing brace. */
  function Block(items: Items, n: nat): Bytes
    requires items.Item? && n > 0
    decreases items
  {
    [34] + Escape(items.name) + [34] + [58, 9] + Printed(items.value, true, n)
    + if items.next.End? then [10] + Tab(n - 1) + [125] else [44, 10] + Tab(n) + Block(items.next, n)
  }

  lemma {:induction false} BlockText(items: Items, n: nat)
    requires items.Item? && n > 0
    ensures Tab(n) + Block(items, n) == PrintedMembers(items, true, n) + Tab(n - 1) + [125]
    decreases items
  {
    var q, v := Quoted(Escape(items.name)), Printed(items.value, true, n);
    assert Indent(true, n) == Tab(n) && MemberHead(items.name, true, n) == Tab(n) + q + [58] + [9];
    if items.next.End? {
      LastBlock(Tab(n), q, v, Tab(n - 1));
    } else {
      BlockText(items.next, n);
      MoreBlock(Tab(n), q, v, Block(items.next, n), PrintedMembers(items.next, true, n), Tab(n - 1));
    }
  }

  lemma LastBlock(t: Bytes, q: Bytes, v: Bytes, u: Bytes)
    ensures t + (q + [58, 9] + v + ([10] + u + [125])) == t + q + [58] + [9] + v + ([] + [10]) + [] + u + [125]
  {
  }

  lemma MoreBlock(t: Bytes, q: Bytes, v: Bytes, b: Bytes, m: Bytes, u: Bytes)
    requires t + b == m + u + [125]
    ensures t + (q + [58, 9] + v + ([44, 10] + t + b)) == t + q + [58] + [9] + v + ([44] + [10]) + m + u + [125]
  {
    assert [44, 10] + t + b == [44, 10] + (m + u + [125]);
  }

  lemma ObjectFlat(child: Items)
    ensures Printed(Object(child), false, 0) == [123] + (PrintedMembers(child, false, 1) + [125])
  {
    AroundFlat(PrintedMembers(child, false, 1));
  }

  lemma ObjectFormatted(child: Items, n: nat, block: Bytes)
    requires Tab(n + 1) + block == PrintedMembers(child, true, n + 1) + Tab(n) + [125]
    ensures Printed(Object(child), true, n) == [123, 10] + Tab(n + 1) + block
  {
    Around(PrintedMembers(child, true, n + 1), Tab(n), Tab(n + 1), block);
  }

  lemma Around(m: Bytes, t: Bytes, u: Bytes, b: Bytes)
    requires u + b == m + t + [125]
    ensures [123] + [10] + m + t + [125] == [123, 10] + u + b
  {
    assert [123] + [10] + m + t + [125] == [123, 10] + (m + t + [125]);
    assert [123, 10] + u + b == [123, 10] + (u + b);
  }

  lemma AroundFlat(m: Bytes)
    ensures [123] + [] + m + [] + [125] == [123] + (m + [125])
  {
  }

  lemma FirstQuote(child: Items)
    requires child.Item?
    ensures PrintedMembers(child, false, 1) != [] && PrintedMembers(child, false, 1)[0] == 34
  {
  }

  lemma {:induction false} TurnMembers(items: Items, o: seq<bool>)
    requires items.Item?
    ensures Turns(PrintedMembers(items, false, 1) + [125], o + [true], Block(items, |o| + 1), o)
    decreases items, 1
  {
    var h, h' := MemberFlat(items), MemberBlock(items, |o| + 1);
    TurnMember(items, o);
    MemberTexts(items, |o| + 1);
    if items.next.End? {
      TurnClose(o);
      TurnBoth(h, o + [true], h', o + [true], [125], [10] + Tab(|o|) + [125], o);
    } else {
      TurnMembers(items.next, o);
      TurnNext(o, PrintedMembers(items.next, false, 1) + [125], Block(items.next, |o| + 1));
      TurnBoth(h, o + [true], h', o + [true], [44] + (PrintedMembers(items.next, false, 1) + [125]),
               [44, 10] + Tab(|o| + 1) + Block(items.next, |o| + 1), o);
    }
  }

  lemma TurnNext(o: seq<bool>, m: Bytes, b: Bytes)
    requires Turns(m, o + [true], b, o)
    ensures Turns([44] + m, o + [true], [44, 10] + Tab(|o| + 1) + b, o)
  {
    TurnComma(o);
    TurnBoth([44], o + [true], [44, 10] + Tab(|o| + 1), o + [true], m, b, o);
  }

  /** The name and the value of the first member. */
  function MemberFlat(items: Items): Bytes
    requires items.Item?
  {
    Quoted(Escape(items.name)) + [58] + Printed(items.value, false, 1)
  }

  function MemberBlock(items: Items, n: nat): Bytes
    requires items.Item?
  {
    Quoted(Escape(items.name)) + [58, 9] + Printed(items.value, true, n)
  }

  lemma MemberTexts(items: Items, n: nat)
    requires items.Item? && n > 0
    ensures PrintedMembers(items, false, 1) + [125] ==
      MemberFlat(items) + if items.next.End? then [125] else [44] + (PrintedMembers(items.next, false, 1) + [125])
    ensures Block(items, n) ==
      MemberBlock(items, n) + if items.next.End? then [10] + Tab(n - 1) + [125] else [44, 10] + Tab(n) + Block(items.next, n)
  {
    var q, v := Quoted(Escape(items.name)), Printed(items.value, false, 1);
    FlatJoin(q, v, PrintedMembers(items.next, false, 1));
  }

  lemma FlatJoin(q: Bytes, v: Bytes, m: Bytes)
    ensures [] + q + [58] + [] + v + ([44] + []) + m + [125] == q + [58] + v + ([44] + (m + [125]))
    ensures [] + q + [58] + [] + v + ([] + []) + [] + [125] == q + [58] + v + [125]
  {
  }

  lemma {:induction false} TurnMember(items: Items, o: seq<bool>)
    requires items.Item?
    ensures Turns(MemberFlat(items), o + [true], MemberBlock(items, |o| + 1), o + [true])
    decreases items, 0
  {
    var p := o + [true];
    TurnHead(items.name, p);
    FlatPrinted(items.value, 1);
    TurnValue(items.value, p);
    TurnBoth(Quoted(Escape(items.name)) + [58], p, Quoted(Escape(items.name)) + [58, 9], p,
             Printed(items.value, false, 1), Printed(items.value, true, |o| + 1), p);
  }

  lemma TurnHead(name: Bytes, p: seq<bool>)
    ensures Turns(Quoted(Escape(name)) + [58], p, Quoted(Escape(name)) + [58, 9], p)
  {
    EscapeUnescape(name);
    TurnQuoted(Escape(name), p);
    TurnColon(p);
    TurnBoth(Quoted(Escape(name)), p, Quoted(Escape(name)), p, [58], [58, 9], p);
  }

  lemma TurnColon(p: seq<bool>)
    ensures Turns([58], p, [58, 9], p)
  {
    TurnComma(p);
  }

  /** The formatted text of every tree is the scan's. */
  lemma Formatted(v: Json)
    ensures Printed(v, true, 0) == Pretty(Printed(v, false, 0), [])
  {
    TurnValue(v, []);
    assert Pretty(Printed(v, false, 0) + [], []) == Printed(v, true, 0) + [];
    assert Printed(v, false, 0) + [] == Printed(v, false, 0) && Printed(v, true, 0) + [] == Printed(v, true, 0);
  }
}
