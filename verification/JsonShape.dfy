/**
 The recursive descent of `parse_value`, `parse_array` and `parse_object` over a
 buffer, given what stands for a value or a string at each offset; and that it
 accepts exactly the syntax trees placed there.
 */
module JsonShape {
  import opened Octets
  import opened ByteText
  import opened JsonGrammar

  type Result<T> = Option<(T, nat)>

  /** The texts that are read as a value without children, or as a string, at an offset. */
  datatype Tokens = Tokens(leaf: map<nat, (Bytes, Json)>, names: map<nat, (Bytes, Bytes)>)

  ghost predicate TokensOk(t: Tokens, buf: Bytes) {
    && CText(buf)
    && (forall i :: i in t.leaf ==> 0 < |t.leaf[i].0| && i + |t.leaf[i].0| < |buf|)
    && (forall i :: i in t.names ==> 0 < |t.names[i].0| && i + |t.names[i].0| < |buf|)
  }

  /** The name and colon before a member's value; nothing before an element. */
  function ParseHead(t: Tokens, buf: Bytes, i: nat, obj: bool): (r: Result<Bytes>)
    requires TokensOk(t, buf) && i < |buf|
    ensures r.Some? ==> i <= r.value.1 < |buf|
  {
    var p := Skip(buf, i);
    if !obj then Some(([], p))
    else if p !in t.names then None
    else
      var (quoted, s) := t.names[p];
      var q := Skip(buf, p + |quoted|);
      if buf[q] != COLON then None else Some((s, Skip(buf, q + 1)))
  }

  function ParseValue(t: Tokens, buf: Bytes, i: nat, depth: nat): (r: Result<Json>)
    requires TokensOk(t, buf) && i < |buf|
    ensures r.Some? ==> i < r.value.1 < |buf|
    decreases |buf| - i, 0
  {
    if buf[i] == LBRACKET then ParseList(t, buf, i, depth, false)
    else if buf[i] == LBRACE then ParseList(t, buf, i, depth, true)
    else if i in t.leaf then Some((t.leaf[i].1, i + |t.leaf[i].0|))
    else None
  }

  function ParseList(t: Tokens, buf: Bytes, i: nat, depth: nat, obj: bool): (r: Result<Json>)
    requires TokensOk(t, buf) && i < |buf| && buf[i] != 0
    ensures r.Some? ==> i < r.value.1 < |buf|
    decreases |buf| - i - 1, 2
  {
    if depth >= NESTING_LIMIT then None
    else
      var j := Skip(buf, i + 1);
      if buf[j] == Closing(obj) then Some((Parent(obj, End), j + 1))
      else
        var r := ParseItems(t, buf, i + 1, depth + 1, obj);
        if r.None? then None else Some((Parent(obj, r.value.0), r.value.1))
  }

  function ParseItems(t: Tokens, buf: Bytes, i: nat, depth: nat, obj: bool): (r: Result<Items>)
    requires TokensOk(t, buf) && i < |buf|
    ensures r.Some? ==> i < r.value.1 < |buf|
    decreases |buf| - i, 1
  {
    var h := ParseHead(t, buf, i, obj);
    if h.None? then None
    else
      var v := ParseValue(t, buf, h.value.1, depth);
      if v.None? then None
      else
        var r := Skip(buf, v.value.1);
        if buf[r] == COMMA then
          var more := ParseItems(t, buf, r + 1, depth, obj);
          if more.None? then None else Some((Item(h.value.0, v.value.0, more.value.0), more.value.1))
        else if buf[r] == Closing(obj) then Some((Item(h.value.0, v.value.0, End), r + 1))
        else None
  }

  /** A value with nothing but white space around it. */
  function ParseText(t: Tokens, buf: Bytes): Option<Json>
    requires TokensOk(t, buf)
  {
    var v := ParseValue(t, buf, Skip(buf, 0), 0);
    if v.None? then None
    else if buf[Skip(buf, v.value.1)] != 0 then None
    else Some(v.value.0)
  }

  // ----- tokens and lexicon -----

  /** What cannot be part of a number, and so ends every token. */
  predicate Ends(b: byte) { b <= SPACE || b == COMMA || b == RBRACKET || b == RBRACE }

  predicate LeafStart(b: byte) {
    b > SPACE && b != LBRACKET && b != LBRACE && b != RBRACKET && b != RBRACE
  }

  /** Every token of `buf` is in the lexicon. */
  ghost predicate Sourced(lex: Lexicon, t: Tokens, buf: Bytes) {
    && TokensOk(t, buf)
    && (forall i :: i in t.leaf ==> t.leaf[i] in lex.leaves && At(buf, i, t.leaf[i].0))
    && (forall i :: i in t.names ==> t.names[i] in lex.names && At(buf, i, t.names[i].0))
  }

  /** Every text of the lexicon that stands in `buf` is a token there. */
  ghost predicate Covered(lex: Lexicon, t: Tokens, buf: Bytes) {
    && TokensOk(t, buf)
    && (forall p :: p in lex.leaves ==> p.0 != [] && LeafStart(p.0[0]))
    && (forall p :: p in lex.names ==> p.0 != [] && p.0[0] == QUOTE)
    && (forall i: nat, p {:trigger p in lex.leaves, At(buf, i, p.0)} ::
          p in lex.leaves && At(buf, i, p.0) && i + |p.0| < |buf| && Ends(buf[i + |p.0|]) ==> i in t.leaf && t.leaf[i] == p)
    && (forall i: nat, p {:trigger p in lex.names, At(buf, i, p.0)} ::
          p in lex.names && At(buf, i, p.0) ==> i in t.names && t.names[i] == p)
  }

  // ----- completeness -----

  /** What the parser makes of a value, and of a list from one entry on. */
  ghost predicate Reads(t: Tokens, buf: Bytes, i: nat, depth: nat, v: Json, end: nat) {
    TokensOk(t, buf) && i < |buf| && ParseValue(t, buf, i, depth) == Some((v, end)) && end < |buf|
  }

  ghost predicate ReadsAll(t: Tokens, buf: Bytes, i: nat, depth: nat, obj: bool, items: Items, end: nat) {
    TokensOk(t, buf) && i < |buf| && ParseItems(t, buf, i, depth, obj) == Some((items, end))
  }

  ghost predicate ReadsHead(t: Tokens, buf: Bytes, i: nat, obj: bool, name: Bytes, end: nat) {
    TokensOk(t, buf) && i < |buf| && ParseHead(t, buf, i, obj) == Some((name, end)) && end < |buf|
  }

  lemma ValueStarts(lex: Lexicon, t: Tokens, buf: Bytes, i: nat, c: Syntax)
    requires Covered(lex, t, buf) && Good(lex, c) && Placed(buf, i, c)
    ensures i < |buf| && buf[i] > SPACE && buf[i] != RBRACKET && buf[i] != RBRACE
    ensures c.Leaf? ==> LeafStart(buf[i])
  {
    if c.Leaf? { AtIndex(buf, i, c.text, 0); }
  }

  lemma HeadComplete(lex: Lexicon, t: Tokens, buf: Bytes, i: nat, obj: bool, h: Head, j: nat)
    requires Covered(lex, t, buf) && GoodHead(lex, obj, h) && PlacedHead(buf, i, obj, h)
    requires j == i + HeadWidth(obj, h) && j < |buf| && buf[j] > SPACE && buf[j] != Closing(obj)
    ensures ReadsHead(t, buf, i, obj, h.name, j) && buf[Skip(buf, i)] != Closing(obj)
  {
    var p := i + |h.before|;
    if obj {
      assert h.quoted != [] && h.quoted[0] == QUOTE by { assert (h.quoted, h.name).0 == h.quoted; }
      AtIndex(buf, p, h.quoted, 0);
      var q := p + |h.quoted|;
      var r := q + |h.left|;
      SkipWhite(buf, i, h.before);
      NameRead(lex, t, buf, p, h.quoted, h.name);
      SkipWhite(buf, q, h.left);
      SkipWhite(buf, r + 1, h.right);
    } else {
      SkipWhite(buf, i, h.before);
    }
  }

  lemma NameRead(lex: Lexicon, t: Tokens, buf: Bytes, p: nat, quoted: Bytes, name: Bytes)
    requires Covered(lex, t, buf) && (quoted, name) in lex.names && At(buf, p, quoted)
    ensures p in t.names && t.names[p] == (quoted, name)
  {
    assert At(buf, p, (quoted, name).0);
  }

  lemma LeafRead(lex: Lexicon, t: Tokens, buf: Bytes, i: nat, text: Bytes, v: Json)
    requires Covered(lex, t, buf) && (text, v) in lex.leaves && At(buf, i, text)
    requires i + |text| < |buf| && Ends(buf[i + |text|])
    ensures i in t.leaf && t.leaf[i] == (text, v)
  {
    assert At(buf, i, (text, v).0);
  }

  /** A good syntax tree is written at `i`, not nested too deeply. */
  ghost predicate Here(lex: Lexicon, t: Tokens, buf: Bytes, i: nat, depth: nat, c: Syntax) {
    && Covered(lex, t, buf) && Good(lex, c) && Placed(buf, i, c)
    && i + Width(c) < |buf| && Ends(buf[i + Width(c)]) && depth + Nesting(c) <= NESTING_LIMIT
  }

  ghost predicate HereAll(lex: Lexicon, t: Tokens, buf: Bytes, i: nat, depth: nat, obj: bool, e: Entries) {
    && Covered(lex, t, buf) && e.Entry? && GoodAll(lex, obj, e) && PlacedAll(buf, i, obj, e)
    && i + WidthAll(obj, e) < |buf| && depth + NestingAll(e) <= NESTING_LIMIT
  }

  lemma {:induction false} Complete(lex: Lexicon, t: Tokens, buf: Bytes, i: nat, depth: nat, c: Syntax)
    requires Here(lex, t, buf, i, depth, c)
    ensures Reads(t, buf, i, depth, Means(c), i + Width(c))
    decreases c
  {
    if c.Leaf? {
      LeafComplete(lex, t, buf, i, depth, c);
    } else if c.entries.Entry? {
      EntriesHere(lex, t, buf, i, depth, c);
      ItemsComplete(lex, t, buf, i + 1, depth + 1, c.obj, c.entries);
      ListReads(t, buf, i, depth, c);
    } else {
      EmptyReads(lex, t, buf, i, depth, c);
    }
  }

  lemma LeafComplete(lex: Lexicon, t: Tokens, buf: Bytes, i: nat, depth: nat, c: Syntax)
    requires Here(lex, t, buf, i, depth, c) && c.Leaf?
    ensures Reads(t, buf, i, depth, Means(c), i + Width(c))
  {
    ValueStarts(lex, t, buf, i, c);
    LeafRead(lex, t, buf, i, c.text, c.v);
  }

  lemma EntriesHere(lex: Lexicon, t: Tokens, buf: Bytes, i: nat, depth: nat, c: Syntax)
    requires Here(lex, t, buf, i, depth, c) && c.List? && c.entries.Entry?
    ensures HereAll(lex, t, buf, i + 1, depth + 1, c.obj, c.entries)
    ensures ByteAt(buf, i, Opening(c.obj)) && depth < NESTING_LIMIT && i + Width(c) < |buf|
  {
  }

  lemma EmptyReads(lex: Lexicon, t: Tokens, buf: Bytes, i: nat, depth: nat, c: Syntax)
    requires Here(lex, t, buf, i, depth, c) && c.List? && c.entries.Stop?
    ensures Reads(t, buf, i, depth, Means(c), i + Width(c))
  {
    SkipWhite(buf, i + 1, c.blank);
  }

  lemma ListReads(t: Tokens, buf: Bytes, i: nat, depth: nat, c: Syntax)
    requires c.List? && c.entries.Entry? && ByteAt(buf, i, Opening(c.obj)) && depth < NESTING_LIMIT && i + Width(c) < |buf|
    requires Arrives(t, buf, i + 1, depth + 1, c.obj, c.entries)
    ensures Reads(t, buf, i, depth, Means(c), i + Width(c))
  {
  }

  /** The parser reads the entries as they are meant. */
  ghost predicate Arrives(t: Tokens, buf: Bytes, i: nat, depth: nat, obj: bool, e: Entries) {
    && e.Entry? && ReadsAll(t, buf, i, depth, obj, MeansAll(obj, e), i + WidthAll(obj, e))
    && buf[Skip(buf, i)] != Closing(obj)
  }

  lemma {:induction false} ItemsComplete(lex: Lexicon, t: Tokens, buf: Bytes, i: nat, depth: nat, obj: bool, e: Entries)
    requires HereAll(lex, t, buf, i, depth, obj, e)
    ensures Arrives(t, buf, i, depth, obj, e)
    decreases e
  {
    var j := i + HeadWidth(obj, e.head);
    var k := j + Width(e.value);
    EntryHere(lex, t, buf, i, depth, obj, e, j, k);
    Complete(lex, t, buf, j, depth, e.value);
    if e.next.Entry? {
      NextHere(lex, t, buf, i, depth, obj, e, k);
      ItemsComplete(lex, t, buf, k + |e.after| + 1, depth, obj, e.next);
      EntryMore(t, buf, i, depth, obj, e, j, k, k + |e.after|);
    } else {
      EntryLast(t, buf, i, depth, obj, e, j, k);
    }
  }

  lemma EntryHere(lex: Lexicon, t: Tokens, buf: Bytes, i: nat, depth: nat, obj: bool, e: Entries, j: nat, k: nat)
    requires HereAll(lex, t, buf, i, depth, obj, e) && j == i + HeadWidth(obj, e.head) && k == j + Width(e.value)
    ensures ReadsHead(t, buf, i, obj, e.head.name, j) && buf[Skip(buf, i)] != Closing(obj)
    ensures Here(lex, t, buf, j, depth, e.value)
    ensures Skip(buf, k) == k + |e.after| && ByteAt(buf, k + |e.after|, Separator(obj, e.next))
  {
    EntryHead(lex, t, buf, i, depth, obj, e, j);
    EntryTail(lex, t, buf, i, depth, obj, e, k);
  }

  function Separator(obj: bool, next: Entries): byte { if next.Stop? then Closing(obj) else COMMA }

  lemma EntryHead(lex: Lexicon, t: Tokens, buf: Bytes, i: nat, depth: nat, obj: bool, e: Entries, j: nat)
    requires HereAll(lex, t, buf, i, depth, obj, e) && j == i + HeadWidth(obj, e.head)
    ensures ReadsHead(t, buf, i, obj, e.head.name, j) && buf[Skip(buf, i)] != Closing(obj)
  {
    ValueStarts(lex, t, buf, j, e.value);
    HeadComplete(lex, t, buf, i, obj, e.head, j);
  }

  lemma EntryTail(lex: Lexicon, t: Tokens, buf: Bytes, i: nat, depth: nat, obj: bool, e: Entries, k: nat)
    requires HereAll(lex, t, buf, i, depth, obj, e) && k == i + HeadWidth(obj, e.head) + Width(e.value)
    ensures k < |buf| && Ends(buf[k]) && Skip(buf, k) == k + |e.after|
    ensures ByteAt(buf, k + |e.after|, Separator(obj, e.next))
  {
    TailEnds(buf, k, obj, e.after, e.next);
  }

  lemma NextHere(lex: Lexicon, t: Tokens, buf: Bytes, i: nat, depth: nat, obj: bool, e: Entries, k: nat)
    requires HereAll(lex, t, buf, i, depth, obj, e) && k == i + HeadWidth(obj, e.head) + Width(e.value) && e.next.Entry?
    ensures HereAll(lex, t, buf, k + |e.after| + 1, depth, obj, e.next)
  {
    assert PlacedRest(buf, k + |e.after|, obj, e.next);
  }

  lemma EntryLast(t: Tokens, buf: Bytes, i: nat, depth: nat, obj: bool, e: Entries, j: nat, k: nat)
    requires e.Entry? && e.next.Stop? && j == i + HeadWidth(obj, e.head) && k == j + Width(e.value)
    requires ReadsHead(t, buf, i, obj, e.head.name, j) && Reads(t, buf, j, depth, Means(e.value), k)
    requires Skip(buf, k) == k + |e.after| && ByteAt(buf, k + |e.after|, Separator(obj, e.next)) && buf[Skip(buf, i)] != Closing(obj)
    ensures Arrives(t, buf, i, depth, obj, e)
  {
    ItemsLast(t, buf, i, depth, obj, e.head.name, j, Means(e.value), k);
  }

  lemma EntryMore(t: Tokens, buf: Bytes, i: nat, depth: nat, obj: bool, e: Entries, j: nat, k: nat, r: nat)
    requires e.Entry? && e.next.Entry? && j == i + HeadWidth(obj, e.head) && k == j + Width(e.value) && r == k + |e.after|
    requires ReadsHead(t, buf, i, obj, e.head.name, j) && Reads(t, buf, j, depth, Means(e.value), k)
    requires Skip(buf, k) == r && ByteAt(buf, r, Separator(obj, e.next)) && buf[Skip(buf, i)] != Closing(obj)
    requires Arrives(t, buf, r + 1, depth, obj, e.next)
    ensures Arrives(t, buf, i, depth, obj, e)
  {
    var end := r + 1 + WidthAll(obj, e.next);
    ItemsMore(t, buf, i, depth, obj, e.head.name, j, Means(e.value), k, MeansAll(obj, e.next), end);
  }

  lemma TailEnds(buf: Bytes, k: nat, obj: bool, after: Bytes, next: Entries)
    requires CText(buf) && White(after) && At(buf, k, after) && PlacedRest(buf, k + |after|, obj, next)
    ensures k < |buf| && Ends(buf[k]) && Skip(buf, k) == k + |after|
  {
    if after != [] { AtIndex(buf, k, after, 0); }
    SkipWhite(buf, k, after);
  }

  lemma ItemsLast(t: Tokens, buf: Bytes, i: nat, depth: nat, obj: bool, name: Bytes, j: nat, v: Json, k: nat)
    requires ReadsHead(t, buf, i, obj, name, j) && Reads(t, buf, j, depth, v, k) && buf[Skip(buf, k)] == Closing(obj)
    ensures ReadsAll(t, buf, i, depth, obj, Item(name, v, End), Skip(buf, k) + 1)
  {
  }

  lemma ItemsMore(t: Tokens, buf: Bytes, i: nat, depth: nat, obj: bool, name: Bytes, j: nat, v: Json, k: nat, more: Items, end: nat)
    requires ReadsHead(t, buf, i, obj, name, j) && Reads(t, buf, j, depth, v, k)
    requires buf[Skip(buf, k)] == COMMA && ReadsAll(t, buf, Skip(buf, k) + 1, depth, obj, more, end)
    ensures ReadsAll(t, buf, i, depth, obj, Item(name, v, more), end)
  {
  }

  // ----- soundness -----

  /** `c` is written between `i` and `end`, and means `v`. */
  ghost predicate Spells(lex: Lexicon, buf: Bytes, i: nat, depth: nat, c: Syntax, v: Json, end: nat) {
    && Good(lex, c) && Placed(buf, i, c) && end == i + Width(c) && Means(c) == v
    && depth + Nesting(c) <= NESTING_LIMIT
  }

  ghost predicate SpellsAll(lex: Lexicon, buf: Bytes, i: nat, depth: nat, obj: bool, e: Entries, items: Items, end: nat) {
    && e.Entry? && GoodAll(lex, obj, e) && PlacedAll(buf, i, obj, e) && end == i + WidthAll(obj, e)
    && MeansAll(obj, e) == items && depth + NestingAll(e) <= NESTING_LIMIT
  }

  ghost predicate SpellsHead(lex: Lexicon, buf: Bytes, i: nat, obj: bool, h: Head, name: Bytes, end: nat) {
    GoodHead(lex, obj, h) && PlacedHead(buf, i, obj, h) && end == i + HeadWidth(obj, h) && h.name == name
  }

  lemma SkipSound(buf: Bytes, i: nat) returns (w: Bytes)
    requires CText(buf) && i < |buf|
    ensures White(w) && At(buf, i, w) && Skip(buf, i) == i + |w|
  {
    w := buf[i..Skip(buf, i)];
    SkipIsWhite(buf, i);
    AtSlice(buf, i, w);
  }

  lemma HeadSound(lex: Lexicon, t: Tokens, buf: Bytes, i: nat, obj: bool, name: Bytes, j: nat) returns (h: Head)
    requires Sourced(lex, t, buf) && ReadsHead(t, buf, i, obj, name, j)
    ensures SpellsHead(lex, buf, i, obj, h, name, j)
  {
    var before := SkipSound(buf, i);
    if obj {
      var p: nat := Skip(buf, i);
      var (quoted, name) := t.names[p];
      var q := p + |quoted|;
      var left := SkipSound(buf, q);
      var right := SkipSound(buf, Skip(buf, q) + 1);
      h := Head(before, quoted, name, left, right);
    } else {
      h := Head(before, [], [], [], []);
    }
  }

  lemma {:induction false} Sound(lex: Lexicon, t: Tokens, buf: Bytes, i: nat, depth: nat, v: Json, end: nat) returns (c: Syntax)
    requires Sourced(lex, t, buf) && depth <= NESTING_LIMIT && Reads(t, buf, i, depth, v, end)
    ensures Spells(lex, buf, i, depth, c, v, end)
    decreases |buf| - i, 0
  {
    if buf[i] == LBRACKET {
      c := ListSound(lex, t, buf, i, depth, false, v, end);
    } else if buf[i] == LBRACE {
      c := ListSound(lex, t, buf, i, depth, true, v, end);
    } else {
      c := Leaf(t.leaf[i].0, t.leaf[i].1);
    }
  }

  lemma {:induction false} ListSound(lex: Lexicon, t: Tokens, buf: Bytes, i: nat, depth: nat, obj: bool, v: Json, end: nat)
    returns (c: Syntax)
    requires Sourced(lex, t, buf) && ByteAt(buf, i, Opening(obj)) && ParseList(t, buf, i, depth, obj) == Some((v, end))
    ensures Spells(lex, buf, i, depth, c, v, end)
    decreases |buf| - i - 1, 2
  {
    if buf[Skip(buf, i + 1)] == Closing(obj) {
      var w := SkipSound(buf, i + 1);
      c := List(obj, w, Stop);
    } else {
      var e := ItemsSound(lex, t, buf, i + 1, depth + 1, obj, v.child, end);
      c := List(obj, [], e);
    }
  }

  /** What the result tells of the first entry, and of the others. */
  lemma FirstItem(t: Tokens, buf: Bytes, i: nat, depth: nat, obj: bool, items: Items, end: nat) returns (j: nat, k: nat)
    requires ReadsAll(t, buf, i, depth, obj, items, end)
    ensures items.Item? && ReadsHead(t, buf, i, obj, items.name, j) && Reads(t, buf, j, depth, items.value, k)
    ensures i <= j < k < |buf|
  {
    j := ParseHead(t, buf, i, obj).value.1;
    k := ParseValue(t, buf, j, depth).value.1;
  }

  lemma OtherItems(t: Tokens, buf: Bytes, i: nat, depth: nat, obj: bool, items: Items, end: nat, j: nat, k: nat)
    requires ReadsAll(t, buf, i, depth, obj, items, end)
    requires items.Item? && ReadsHead(t, buf, i, obj, items.name, j) && Reads(t, buf, j, depth, items.value, k)
    ensures var r := Skip(buf, k);
      if buf[r] == COMMA then ReadsAll(t, buf, r + 1, depth, obj, items.next, end)
      else buf[r] == Closing(obj) && items.next == End && end == r + 1
  {
  }

  lemma {:induction false} ItemsSound(lex: Lexicon, t: Tokens, buf: Bytes, i: nat, depth: nat, obj: bool, items: Items, end: nat)
    returns (e: Entries)
    requires Sourced(lex, t, buf) && depth <= NESTING_LIMIT && ReadsAll(t, buf, i, depth, obj, items, end)
    ensures SpellsAll(lex, buf, i, depth, obj, e, items, end)
    decreases |buf| - i, 1
  {
    var j, k := FirstItem(t, buf, i, depth, obj, items, end);
    OtherItems(t, buf, i, depth, obj, items, end, j, k);
    var h := HeadSound(lex, t, buf, i, obj, items.name, j);
    var c := Sound(lex, t, buf, j, depth, items.value, k);
    if buf[Skip(buf, k)] == COMMA {
      var next := ItemsSound(lex, t, buf, Skip(buf, k) + 1, depth, obj, items.next, end);
      e := MoreSound(lex, buf, i, depth, obj, h, c, j, k, next, items, end);
    } else {
      e := LastSound(lex, buf, i, depth, obj, h, c, j, k, items);
    }
  }

  lemma LastSound(lex: Lexicon, buf: Bytes, i: nat, depth: nat, obj: bool, h: Head, c: Syntax, j: nat, k: nat, items: Items)
    returns (e: Entries)
    requires items.Item? && SpellsHead(lex, buf, i, obj, h, items.name, j) && Spells(lex, buf, j, depth, c, items.value, k)
    requires CText(buf) && k < |buf| && buf[Skip(buf, k)] == Closing(obj) && items.next == End
    ensures SpellsAll(lex, buf, i, depth, obj, e, items, Skip(buf, k) + 1)
  {
    var after := SkipSound(buf, k);
    e := Entry(h, c, after, Stop);
    LastSpells(lex, buf, i, depth, obj, e, j, items, k, k + |after|);
  }

  lemma MoreSound(lex: Lexicon, buf: Bytes, i: nat, depth: nat, obj: bool, h: Head, c: Syntax, j: nat, k: nat,
                  next: Entries, items: Items, end: nat) returns (e: Entries)
    requires items.Item? && SpellsHead(lex, buf, i, obj, h, items.name, j) && Spells(lex, buf, j, depth, c, items.value, k)
    requires CText(buf) && k < |buf| && buf[Skip(buf, k)] == COMMA
    requires SpellsAll(lex, buf, Skip(buf, k) + 1, depth, obj, next, items.next, end)
    ensures SpellsAll(lex, buf, i, depth, obj, e, items, end)
  {
    var after := SkipSound(buf, k);
    e := Entry(h, c, after, next);
    MoreSpells(lex, buf, i, depth, obj, e, j, items, k, k + |after|, end);
  }

  lemma LastSpells(lex: Lexicon, buf: Bytes, i: nat, depth: nat, obj: bool, e: Entries, j: nat, items: Items, k: nat, r: nat)
    requires e.Entry? && items.Item? && SpellsHead(lex, buf, i, obj, e.head, items.name, j)
    requires Spells(lex, buf, j, depth, e.value, items.value, k) && White(e.after) && At(buf, k, e.after) && r == k + |e.after|
    requires e.next.Stop? && items.next == End && ByteAt(buf, r, Closing(obj))
    ensures SpellsAll(lex, buf, i, depth, obj, e, items, r + 1)
  {
  }

  lemma MoreSpells(lex: Lexicon, buf: Bytes, i: nat, depth: nat, obj: bool, e: Entries, j: nat, items: Items, k: nat, r: nat, end: nat)
    requires e.Entry? && items.Item? && SpellsHead(lex, buf, i, obj, e.head, items.name, j)
    requires Spells(lex, buf, j, depth, e.value, items.value, k) && White(e.after) && At(buf, k, e.after) && r == k + |e.after|
    requires ByteAt(buf, r, COMMA) && SpellsAll(lex, buf, r + 1, depth, obj, e.next, items.next, end)
    ensures SpellsAll(lex, buf, i, depth, obj, e, items, end)
  {
  }

  // ----- documents -----

  /** `s` is a text of the grammar, with white space around, and means `v`. */
  ghost predicate Document(lex: Lexicon, s: Bytes, w0: Bytes, c: Syntax, w1: Bytes, v: Json) {
    && s == w0 + Text(c) + w1 && White(w0) && White(w1)
    && Good(lex, c) && Nesting(c) <= NESTING_LIMIT && Means(c) == v
  }

  lemma TerminatedText(s: Bytes)
    requires 0 !in s
    ensures CText(s + [0])
  {
  }

  /** A tree and the white space around it stand in a buffer and fill it. */
  ghost predicate DocAt(buf: Bytes, w0: Bytes, c: Syntax, w1: Bytes) {
    var k := |w0| + Width(c);
    && CText(buf) && White(w0) && White(w1) && At(buf, 0, w0) && Placed(buf, |w0|, c)
    && At(buf, k, w1) && k + |w1| == |buf| - 1
  }

  lemma DocPlaced(s: Bytes, w0: Bytes, c: Syntax, w1: Bytes)
    requires 0 !in s && White(w0) && White(w1)
    ensures s == w0 + Text(c) + w1 <==> DocAt(s + [0], w0, c, w1)
  {
    TerminatedText(s);
    TextPlaced(s + [0], |w0|, c);
    AtJoin3(s + [0], 0, w0, Text(c), w1);
    TextFills(s, w0 + Text(c) + w1);
  }

  lemma TextFills(s: Bytes, t: Bytes)
    ensures s == t <==> At(s + [0], 0, t) && |t| == |s|
  {
    AtSlice(s + [0], 0, t);
    assert (s + [0])[0..|s|] == s;
  }

  lemma DocStarts(lex: Lexicon, t: Tokens, buf: Bytes, w0: Bytes, c: Syntax, w1: Bytes)
    requires Covered(lex, t, buf) && DocAt(buf, w0, c, w1) && Good(lex, c)
    ensures Skip(buf, 0) == |w0|
  {
    ValueStarts(lex, t, buf, |w0|, c);
    SkipWhite(buf, 0, w0);
  }

  lemma DocEnds(buf: Bytes, w0: Bytes, c: Syntax, w1: Bytes, k: nat)
    requires DocAt(buf, w0, c, w1) && k == |w0| + Width(c)
    ensures k < |buf| && Ends(buf[k]) && Skip(buf, k) == |buf| - 1
  {
    if w1 != [] { AtIndex(buf, k, w1, 0); }
    SkipWhite(buf, k, w1);
  }

  lemma DocReads(t: Tokens, buf: Bytes, i: nat, v: Json, k: nat)
    requires Reads(t, buf, i, 0, v, k) && Skip(buf, 0) == i
    ensures ParseText(t, buf) == if buf[Skip(buf, k)] == 0 then Some(v) else None
  {
  }

  lemma TextComplete(lex: Lexicon, t: Tokens, s: Bytes, w0: Bytes, c: Syntax, w1: Bytes, v: Json)
    requires 0 !in s && Covered(lex, t, s + [0]) && Document(lex, s, w0, c, w1, v)
    ensures ParseText(t, s + [0]) == Some(v)
  {
    DocPlaced(s, w0, c, w1);
    DocAccepted(lex, t, s + [0], w0, c, w1);
  }

  lemma DocAccepted(lex: Lexicon, t: Tokens, buf: Bytes, w0: Bytes, c: Syntax, w1: Bytes)
    requires Covered(lex, t, buf) && DocAt(buf, w0, c, w1) && Good(lex, c) && Nesting(c) <= NESTING_LIMIT
    ensures ParseText(t, buf) == Some(Means(c))
  {
    var k := |w0| + Width(c);
    DocStarts(lex, t, buf, w0, c, w1);
    DocEnds(buf, w0, c, w1, k);
    Complete(lex, t, buf, |w0|, 0, c);
    DocReads(t, buf, |w0|, Means(c), k);
  }

  lemma TextSound(lex: Lexicon, t: Tokens, s: Bytes, v: Json) returns (w0: Bytes, c: Syntax, w1: Bytes)
    requires 0 !in s && Sourced(lex, t, s + [0]) && ParseText(t, s + [0]) == Some(v)
    ensures Document(lex, s, w0, c, w1, v)
  {
    w0, c, w1 := DocFound(lex, t, s + [0], v);
    DocPlaced(s, w0, c, w1);
  }

  lemma DocFound(lex: Lexicon, t: Tokens, buf: Bytes, v: Json) returns (w0: Bytes, c: Syntax, w1: Bytes)
    requires Sourced(lex, t, buf) && ParseText(t, buf) == Some(v)
    ensures DocAt(buf, w0, c, w1) && Good(lex, c) && Nesting(c) <= NESTING_LIMIT && Means(c) == v
  {
    w0 := SkipSound(buf, 0);
    var k := ParseValue(t, buf, |w0|, 0).value.1;
    c := Sound(lex, t, buf, |w0|, 0, v, k);
    w1 := SkipSound(buf, k);
  }
}
