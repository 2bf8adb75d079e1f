/**
 What `cJSON_Print` and `cJSON_PrintUnformatted` write: as a function of the tree, as
 a syntax tree of the grammar, and hence that parsing it gives the tree back.
 */
module JsonPrint {
  import opened Octets
  import opened ByteText
  import opened JsonString
  import opened JsonNumber
  import opened JsonGrammar
  import opened JsonShape
  import opened JsonParse

  // ----- the text -----

  function Tabs(n: nat): Bytes { seq(n, _ => TAB) }
  function Newline(fmt: bool): Bytes { if fmt then [LF] else [] }
  function Indent(fmt: bool, n: nat): Bytes { if fmt then Tabs(n) else [] }
  function AfterColon(fmt: bool): Bytes { if fmt then [TAB] else [] }
  function AfterComma(fmt: bool): Bytes { if fmt then [SPACE] else [] }

  /** `print_value` at a nesting depth. */
  function Printed(v: Json, fmt: bool, depth: nat): Bytes
    decreases v
  {
    match v
    case Null => NULL_TEXT
    case False => FALSE_TEXT
    case True => TRUE_TEXT
    case Number(n) => IntText(n.Floor)
    case String(s) => Quoted(Escape(s))
    case Array(child) => [LBRACKET] + PrintedElements(child, fmt, depth + 1) + [RBRACKET]
    case Object(child) =>
      [LBRACE] + Newline(fmt) + PrintedMembers(child, fmt, depth + 1) + Indent(fmt, depth) + [RBRACE]
  }

  function PrintedElements(items: Items, fmt: bool, d: nat): Bytes
    decreases items
  {
    match items
    case End => []
    case Item(_, v, next) =>
      Printed(v, fmt, d) + if next.End? then [] else [COMMA] + AfterComma(fmt) + PrintedElements(next, fmt, d)
  }

  function PrintedMembers(items: Items, fmt: bool, d: nat): Bytes
    decreases items
  {
    match items
    case End => []
    case Item(name, v, next) =>
      MemberHead(name, fmt, d) + Printed(v, fmt, d) + MemberTail(next, fmt) + PrintedMembers(next, fmt, d)
  }

  function MemberHead(name: Bytes, fmt: bool, d: nat): Bytes {
    Indent(fmt, d) + Quoted(Escape(name)) + [COLON] + AfterColon(fmt)
  }

  function MemberTail(next: Items, fmt: bool): Bytes {
    (if next.End? then [] else [COMMA]) + Newline(fmt)
  }

  // ----- the syntax tree -----

  function Render(v: Json, fmt: bool, depth: nat): Syntax
    decreases v
  {
    match v
    case Array(child) => List(false, [], RenderElements(child, fmt, depth + 1, []))
    case Object(child) => List(true, Newline(fmt) + Indent(fmt, depth), RenderMembers(child, fmt, depth + 1))
    case _ => Leaf(Printed(v, fmt, depth), v)
  }

  function RenderElements(items: Items, fmt: bool, d: nat, before: Bytes): Entries
    decreases items
  {
    match items
    case End => Stop
    case Item(_, v, next) =>
      Entry(Head(before, [], [], [], []), Render(v, fmt, d), [], RenderElements(next, fmt, d, AfterComma(fmt)))
  }

  function RenderMembers(items: Items, fmt: bool, d: nat): Entries
    requires d > 0
    decreases items
  {
    match items
    case End => Stop
    case Item(name, v, next) =>
      Entry(Head(Newline(fmt) + Indent(fmt, d), Quoted(Escape(name)), name, [], AfterColon(fmt)), Render(v, fmt, d),
            if next.End? then Newline(fmt) + Indent(fmt, d - 1) else [], RenderMembers(next, fmt, d))
  }

  lemma {:induction false} RenderText(v: Json, fmt: bool, depth: nat)
    ensures Text(Render(v, fmt, depth)) == Printed(v, fmt, depth)
    decreases v
  {
    match v
    case Array(child) =>
      if child.Item? { ElementsText(child, fmt, depth + 1, []); }
      Bracketed([LBRACKET], PrintedElements(child, fmt, depth + 1), [RBRACKET]);
    case Object(child) =>
      if child.Item? { MembersText(child, fmt, depth + 1); }
      Braced([LBRACE], Newline(fmt), PrintedMembers(child, fmt, depth + 1), Indent(fmt, depth), [RBRACE]);
    case _ =>
  }

  // Rearranging brackets.

  lemma Bracketed(o: Bytes, p: Bytes, c: Bytes)
    ensures o + ([] + p + c) == o + p + c && o + ([] + c) == o + [] + c
  {
  }

  lemma Braced(o: Bytes, n: Bytes, p: Bytes, i: Bytes, c: Bytes)
    ensures o + (n + p + i + c) == o + n + p + i + c && o + (n + i + c) == o + n + [] + i + c
  {
  }

  lemma HeadJoin(n: Bytes, i: Bytes, q: Bytes, c: Bytes, a: Bytes)
    ensures n + i + q + [] + c + a == n + (i + q + c + a)
  {
  }

  lemma LastJoin(n: Bytes, h: Bytes, v: Bytes, i: Bytes, c: Bytes)
    ensures n + h + v + (n + i) + c == n + (h + v + ([] + n) + []) + i + c
  {
  }

  lemma MoreJoin(n: Bytes, h: Bytes, v: Bytes, k: Bytes, m: Bytes, i: Bytes, c: Bytes)
    ensures n + h + v + [] + (k + (n + m + i + c)) == n + (h + v + (k + n) + m) + i + c
  {
  }

  lemma {:induction false} ElementsText(items: Items, fmt: bool, d: nat, before: Bytes)
    requires items.Item?
    ensures EntriesText(false, RenderElements(items, fmt, d, before)) == before + PrintedElements(items, fmt, d) + [RBRACKET]
    decreases items
  {
    RenderText(items.value, fmt, d);
    if items.next.Item? {
      ElementsText(items.next, fmt, d, AfterComma(fmt));
      ElementJoin(before, Printed(items.value, fmt, d), [COMMA], AfterComma(fmt), PrintedElements(items.next, fmt, d), [RBRACKET]);
    } else {
      LastElement(before, Printed(items.value, fmt, d), [RBRACKET]);
    }
  }

  lemma ElementJoin(b: Bytes, v: Bytes, k: Bytes, s: Bytes, p: Bytes, c: Bytes)
    ensures b + v + [] + (k + (s + p + c)) == b + (v + (k + s + p)) + c
  {
  }

  lemma LastElement(b: Bytes, v: Bytes, c: Bytes)
    ensures b + v + [] + c == b + (v + []) + c
  {
  }

  lemma {:induction false} MembersText(items: Items, fmt: bool, d: nat)
    requires items.Item? && d > 0
    ensures EntriesText(true, RenderMembers(items, fmt, d)) ==
      Newline(fmt) + PrintedMembers(items, fmt, d) + Indent(fmt, d - 1) + [RBRACE]
    decreases items
  {
    var n, h, v := Newline(fmt), MemberHead(items.name, fmt, d), Printed(items.value, fmt, d);
    RenderText(items.value, fmt, d);
    HeadJoin(n, Indent(fmt, d), Quoted(Escape(items.name)), [COLON], AfterColon(fmt));
    if items.next.Item? {
      MembersText(items.next, fmt, d);
      MoreJoin(n, h, v, [COMMA], PrintedMembers(items.next, fmt, d), Indent(fmt, d - 1), [RBRACE]);
    } else {
      LastJoin(n, h, v, Indent(fmt, d - 1), [RBRACE]);
    }
  }

  // ----- the round trip -----

  /** What the property is stated for: C strings, integers of at most 15 digits, and no
      names on array elements. */
  ghost predicate Printable(v: Json)
    decreases v
  {
    match v
    case Number(n) => -INT_LIMIT < n.Floor < INT_LIMIT && n == n.Floor as real
    case String(s) => 0 !in s
    case Array(child) => PrintableItems(child, false)
    case Object(child) => PrintableItems(child, true)
    case _ => true
  }

  ghost predicate PrintableItems(items: Items, obj: bool)
    decreases items
  {
    match items
    case End => true
    case Item(name, v, next) => 0 !in name && (!obj ==> name == []) && Printable(v) && PrintableItems(next, obj)
  }

  function Depth(v: Json): nat
    decreases v
  {
    match v
    case Array(child) => 1 + DepthAll(child)
    case Object(child) => 1 + DepthAll(child)
    case _ => 0
  }

  function DepthAll(items: Items): nat
    decreases items
  {
    if items.End? then 0 else Max(Depth(items.value), DepthAll(items.next))
  }

  lemma LayoutWhite(fmt: bool, n: nat)
    ensures White(Newline(fmt) + Indent(fmt, n)) && White(AfterColon(fmt)) && White(AfterComma(fmt))
  {
  }

  lemma QuotedIsString(s: Bytes)
    requires 0 !in s
    ensures IsString(Quoted(Escape(s)), s) && 0 !in Quoted(Escape(s))
  {
    EscapeDenotes(s);
    assert Body(Quoted(Escape(s))) == Escape(s);
  }

  lemma LeafGood(v: Json, fmt: bool, depth: nat)
    requires Printable(v) && !v.Array? && !v.Object?
    ensures IsLeaf(Printed(v, fmt, depth), v) && 0 !in Printed(v, fmt, depth)
  {
    match v
    case String(s) => QuotedIsString(s);
    case Number(n) => IntegerGood(n.Floor);
    case _ =>
  }

  lemma IntegerGood(n: int)
    requires -INT_LIMIT < n < INT_LIMIT
    ensures IsNumber(IntText(n), n as real) && 0 !in IntText(n) && |IntText(n)| <= 16
  {
    IntTextGood(n);
    IntBytes(n);
    NumberNulFree(IntText(n));
  }

  lemma NumberNulFree(t: Bytes)
    requires forall k :: 0 <= k < |t| ==> NumberByte(t[k])
    ensures 0 !in t
  {
  }

  /** The syntax tree is good, means the tree it was made from, and is as deeply nested. */
  lemma {:induction false} RenderGood(v: Json, fmt: bool, depth: nat)
    requires Printable(v)
    ensures Good(Lex(), Render(v, fmt, depth)) && Means(Render(v, fmt, depth)) == v && Nesting(Render(v, fmt, depth)) == Depth(v)
    decreases v
  {
    match v
    case Array(child) => ElementsGood(child, fmt, depth + 1, []);
    case Object(child) => LayoutWhite(fmt, depth); MembersGood(child, fmt, depth + 1);
    case _ => LeafGood(v, fmt, depth);
  }

  lemma {:induction false} ElementsGood(items: Items, fmt: bool, d: nat, before: Bytes)
    requires PrintableItems(items, false) && White(before)
    ensures var e := RenderElements(items, fmt, d, before);
      GoodAll(Lex(), false, e) && MeansAll(false, e) == items && NestingAll(e) == DepthAll(items)
    decreases items
  {
    if items.Item? {
      LayoutWhite(fmt, d);
      RenderGood(items.value, fmt, d);
      ElementsGood(items.next, fmt, d, AfterComma(fmt));
    }
  }

  lemma {:induction false} MembersGood(items: Items, fmt: bool, d: nat)
    requires PrintableItems(items, true) && d > 0
    ensures var e := RenderMembers(items, fmt, d);
      GoodAll(Lex(), true, e) && MeansAll(true, e) == items && NestingAll(e) == DepthAll(items)
    decreases items
  {
    if items.Item? {
      LayoutWhite(fmt, d);
      LayoutWhite(fmt, d - 1);
      QuotedIsString(items.name);
      RenderGood(items.value, fmt, d);
      MembersGood(items.next, fmt, d);
    }
  }

  lemma {:induction false} PrintedNulFree(v: Json, fmt: bool, depth: nat)
    requires Printable(v)
    ensures 0 !in Printed(v, fmt, depth)
    decreases v
  {
    match v
    case Array(child) => ElementsNulFree(child, fmt, depth + 1);
    case Object(child) => MembersNulFree(child, fmt, depth + 1);
    case _ => LeafGood(v, fmt, depth);
  }

  lemma {:induction false} ElementsNulFree(items: Items, fmt: bool, d: nat)
    requires PrintableItems(items, false)
    ensures 0 !in PrintedElements(items, fmt, d)
    decreases items
  {
    if items.Item? {
      PrintedNulFree(items.value, fmt, d);
      ElementsNulFree(items.next, fmt, d);
    }
  }

  lemma {:induction false} MembersNulFree(items: Items, fmt: bool, d: nat)
    requires PrintableItems(items, true)
    ensures 0 !in PrintedMembers(items, fmt, d)
    decreases items
  {
    if items.Item? {
      QuotedIsString(items.name);
      PrintedNulFree(items.value, fmt, d);
      MembersNulFree(items.next, fmt, d);
    }
  }

  lemma {:induction false} NestingIsDepth(c: Syntax)
    requires Good(Lex(), c)
    ensures Nesting(c) == Depth(Means(c))
    decreases c
  {
    if c.List? { NestingIsDepthAll(c.obj, c.entries); }
  }

  lemma {:induction false} NestingIsDepthAll(obj: bool, e: Entries)
    requires GoodAll(Lex(), obj, e)
    ensures NestingAll(e) == DepthAll(MeansAll(obj, e))
    decreases e
  {
    if e.Entry? {
      NestingIsDepth(e.value);
      NestingIsDepthAll(obj, e.next);
    }
  }

  /** Printing a tree, formatted or not, and parsing the text gives the tree back, with
      the order of members and any repeated names, unless it is nested too deeply. */
  lemma PrintParse(v: Json, fmt: bool)
    requires Printable(v)
    ensures var s := Printed(v, fmt, 0);
      0 !in s && CText(s + [0]) && (ParseDoc(s + [0]) == Some(v) <==> Depth(v) <= 1000)
  {
    var s, c := Printed(v, fmt, 0), Render(v, fmt, 0);
    PrintedNulFree(v, fmt, 0);
    TerminatedText(s);
    if Depth(v) <= NESTING_LIMIT {
      PrintedParses(v, fmt);
    }
    if ParseDoc(s + [0]) == Some(v) {
      var w0, c', w1 := DocSound(s, v);
      NestingIsDepth(c');
    }
  }

  lemma PrintedParses(v: Json, fmt: bool)
    requires Printable(v) && Depth(v) <= NESTING_LIMIT && 0 !in Printed(v, fmt, 0)
    ensures CText(Printed(v, fmt, 0) + [0]) && ParseDoc(Printed(v, fmt, 0) + [0]) == Some(v)
  {
    var s, c := Printed(v, fmt, 0), Render(v, fmt, 0);
    RenderText(v, fmt, 0);
    RenderGood(v, fmt, 0);
    assert [] + Text(c) + [] == Text(c);
    DocComplete(s, [], c, [], v);
  }
}
