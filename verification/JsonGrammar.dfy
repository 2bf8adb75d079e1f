/**
 JSON trees, and the grammar of the texts that `cJSON.c` reads.  A syntax tree keeps
 every byte of a text; `Text` writes it out, `Means` is the value it stands for, and
 `Placed` says that it is written at some place of a buffer.  The words, numbers and
 strings of the language are a parameter, the lexicon.
 */
module JsonGrammar {
  import opened Octets
  import opened ByteText

  const NESTING_LIMIT := 1000

  /** A `cJSON` item by its type; children form a list linked by `next`.  The name of an
      array element is empty. */
  datatype Json =
    | Null
    | False
    | True
    | Number(n: real)
    | String(s: Bytes)
    | Array(child: Items)
    | Object(child: Items)

  datatype Items = End | Item(name: Bytes, value: Json, next: Items)

  /** Lists are built by attaching items at the end. */
  function Append(a: Items, b: Items): Items {
    if a.End? then b else Item(a.name, a.value, Append(a.next, b))
  }

  lemma {:induction false} AppendOne(a: Items, name: Bytes, v: Json, b: Items)
    ensures Append(Append(a, Item(name, v, End)), b) == Append(a, Item(name, v, b))
  {
    if a.Item? { AppendOne(a.next, name, v, b); }
  }

  lemma {:induction false} AppendEnd(a: Items)
    ensures Append(a, End) == a
  {
    if a.Item? { AppendEnd(a.next); }
  }

  function Opening(obj: bool): byte { if obj then LBRACE else LBRACKET }
  function Closing(obj: bool): byte { if obj then RBRACE else RBRACKET }
  function Parent(obj: bool, child: Items): Json { if obj then Object(child) else Array(child) }

  /** The texts of values without children, and of member names. */
  datatype Lexicon = Lexicon(leaves: iset<(Bytes, Json)>, names: iset<(Bytes, Bytes)>)

  datatype Syntax = Leaf(text: Bytes, v: Json) | List(obj: bool, blank: Bytes, entries: Entries)

  /** The elements or members of a list, with the white space around them. */
  datatype Entries = Stop | Entry(head: Head, value: Syntax, after: Bytes, next: Entries)

  /** White space before an entry, and for a member its name and the space at the colon. */
  datatype Head = Head(before: Bytes, quoted: Bytes, name: Bytes, left: Bytes, right: Bytes)

  // ----- text -----

  function HeadText(obj: bool, h: Head): Bytes {
    if obj then h.before + h.quoted + h.left + [COLON] + h.right else h.before
  }

  function Text(c: Syntax): Bytes
    decreases c, 0
  {
    match c
    case Leaf(text, _) => text
    case List(obj, blank, e) => [Opening(obj)] + (if e.Stop? then blank + [Closing(obj)] else EntriesText(obj, e))
  }

  /** The entries and the closing bracket. */
  function EntriesText(obj: bool, e: Entries): Bytes
    requires e.Entry?
    decreases e, 0
  {
    HeadText(obj, e.head) + Text(e.value) + e.after + Rest(obj, e.next)
  }

  function Rest(obj: bool, e: Entries): Bytes
    decreases e, 1
  {
    if e.Stop? then [Closing(obj)] else [COMMA] + EntriesText(obj, e)
  }

  // ----- meaning -----

  function Means(c: Syntax): Json
    decreases c
  {
    match c
    case Leaf(_, v) => v
    case List(obj, _, e) => Parent(obj, MeansAll(obj, e))
  }

  function MeansAll(obj: bool, e: Entries): Items
    decreases e
  {
    match e
    case Stop => End
    case Entry(h, c, _, next) => Item(h.name, Means(c), MeansAll(obj, next))
  }

  ghost predicate GoodHead(lex: Lexicon, obj: bool, h: Head) {
    && White(h.before) && White(h.left) && White(h.right)
    && (obj ==> (h.quoted, h.name) in lex.names)
    && (!obj ==> h == Head(h.before, [], [], [], []))
  }

  ghost predicate Good(lex: Lexicon, c: Syntax)
    decreases c
  {
    match c
    case Leaf(text, v) => (text, v) in lex.leaves
    case List(obj, blank, e) => White(blank) && GoodAll(lex, obj, e)
  }

  ghost predicate GoodAll(lex: Lexicon, obj: bool, e: Entries)
    decreases e
  {
    match e
    case Stop => true
    case Entry(h, c, after, next) => GoodHead(lex, obj, h) && Good(lex, c) && White(after) && GoodAll(lex, obj, next)
  }

  function Max(a: nat, b: nat): nat { if a < b then b else a }

  function Nesting(c: Syntax): nat {
    if c.List? then 1 + NestingAll(c.entries) else 0
  }

  function NestingAll(e: Entries): nat {
    if e.Stop? then 0 else Max(Nesting(e.value), NestingAll(e.next))
  }

  // ----- place -----

  function HeadWidth(obj: bool, h: Head): nat {
    if obj then |h.before| + |h.quoted| + |h.left| + 1 + |h.right| else |h.before|
  }

  function Width(c: Syntax): nat
    decreases c, 0
  {
    match c
    case Leaf(text, _) => |text|
    case List(obj, blank, e) => if e.Stop? then |blank| + 2 else 1 + WidthAll(obj, e)
  }

  function WidthAll(obj: bool, e: Entries): nat
    requires e.Entry?
    decreases e, 0
  {
    HeadWidth(obj, e.head) + Width(e.value) + |e.after| + 1 + if e.next.Stop? then 0 else WidthAll(obj, e.next)
  }

  predicate ByteAt(buf: Bytes, i: nat, b: byte) { i < |buf| && buf[i] == b }

  predicate PlacedHead(buf: Bytes, i: nat, obj: bool, h: Head) {
    && At(buf, i, h.before)
    && (obj ==>
      var p := i + |h.before|;
      var q := p + |h.quoted|;
      var r := q + |h.left|;
      At(buf, p, h.quoted) && At(buf, q, h.left) && ByteAt(buf, r, COLON) && At(buf, r + 1, h.right))
  }

  predicate Placed(buf: Bytes, i: nat, c: Syntax)
    decreases c, 0
  {
    match c
    case Leaf(text, _) => At(buf, i, text)
    case List(obj, blank, e) =>
      && ByteAt(buf, i, Opening(obj))
      && if e.Stop? then At(buf, i + 1, blank) && ByteAt(buf, i + 1 + |blank|, Closing(obj)) else PlacedAll(buf, i + 1, obj, e)
  }

  predicate PlacedAll(buf: Bytes, i: nat, obj: bool, e: Entries)
    requires e.Entry?
    decreases e, 0
  {
    var j := i + HeadWidth(obj, e.head);
    var k := j + Width(e.value);
    PlacedHead(buf, i, obj, e.head) && Placed(buf, j, e.value) && At(buf, k, e.after) && PlacedRest(buf, k + |e.after|, obj, e.next)
  }

  predicate PlacedRest(buf: Bytes, r: nat, obj: bool, e: Entries)
    decreases e, 1
  {
    if e.Stop? then ByteAt(buf, r, Closing(obj)) else ByteAt(buf, r, COMMA) && PlacedAll(buf, r + 1, obj, e)
  }

  lemma HeadTextPlaced(buf: Bytes, i: nat, obj: bool, h: Head)
    ensures At(buf, i, HeadText(obj, h)) <==> PlacedHead(buf, i, obj, h)
    ensures |HeadText(obj, h)| == HeadWidth(obj, h)
  {
    if obj {
      var a := h.before + h.quoted + h.left;
      AtJoin3(buf, i, h.before, h.quoted, h.left);
      AtOne(buf, i + |a|, COLON);
      AtJoin3(buf, i, a, [COLON], h.right);
    }
  }

  lemma {:induction false} TextPlaced(buf: Bytes, i: nat, c: Syntax)
    ensures At(buf, i, Text(c)) <==> Placed(buf, i, c)
    ensures |Text(c)| == Width(c)
    decreases c, 0
  {
    if c.List? {
      if c.entries.Stop? {
        AtOne(buf, i + 1 + |c.blank|, Closing(c.obj));
        AtJoin(buf, i + 1, c.blank, [Closing(c.obj)]);
        AtOne(buf, i, Opening(c.obj));
        AtJoin(buf, i, [Opening(c.obj)], c.blank + [Closing(c.obj)]);
      } else {
        EntriesPlaced(buf, i + 1, c.obj, c.entries);
        AtOne(buf, i, Opening(c.obj));
        AtJoin(buf, i, [Opening(c.obj)], EntriesText(c.obj, c.entries));
      }
    }
  }

  lemma {:induction false} EntriesPlaced(buf: Bytes, i: nat, obj: bool, e: Entries)
    requires e.Entry?
    ensures At(buf, i, EntriesText(obj, e)) <==> PlacedAll(buf, i, obj, e)
    ensures |EntriesText(obj, e)| == WidthAll(obj, e)
    decreases e, 0
  {
    var head, t := HeadText(obj, e.head), Text(e.value);
    HeadTextPlaced(buf, i, obj, e.head);
    TextPlaced(buf, i + |head|, e.value);
    RestPlaced(buf, i + |head| + |t| + |e.after|, obj, e.next);
    AtJoin3(buf, i, head, t, e.after);
    AtJoin(buf, i, head + t + e.after, Rest(obj, e.next));
  }

  lemma {:induction false} RestPlaced(buf: Bytes, r: nat, obj: bool, e: Entries)
    ensures At(buf, r, Rest(obj, e)) <==> PlacedRest(buf, r, obj, e)
    ensures |Rest(obj, e)| == 1 + if e.Stop? then 0 else WidthAll(obj, e)
    decreases e, 1
  {
    if e.Stop? {
      AtOne(buf, r, Closing(obj));
    } else {
      EntriesPlaced(buf, r + 1, obj, e);
      AtOne(buf, r, COMMA);
      AtJoin(buf, r, [COMMA], EntriesText(obj, e));
    }
  }
}
