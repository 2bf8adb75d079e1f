/**
 The parser of `cJSON.c` as it runs: a buffer with a moving offset and a nesting
 depth, and loops that append to the list of children.
 */
module JsonParser {
  import opened Octets
  import opened ByteText
  import opened JsonString
  import opened JsonNumber
  import opened JsonGrammar
  import opened JsonShape
  import opened JsonParse
  import opened JsonDecoder

  // ----- lists under construction -----

  /** The result of a list whose first items are already there. */
  function Before(a: Items, r: Result<Items>): Result<Items> {
    if r.None? then None else Some((Append(a, r.value.0), r.value.1))
  }

  /** One round of the loops: an item, and the next byte that is no white space. */
  function OneItem(t: Tokens, buf: Bytes, i: nat, depth: nat, obj: bool): (r: Option<(Bytes, Json, nat)>)
    requires TokensOk(t, buf) && i < |buf|
    ensures r.Some? ==> i < r.value.2 < |buf|
  {
    var h := ParseHead(t, buf, i, obj);
    if h.None? then None
    else
      var v := ParseValue(t, buf, h.value.1, depth);
      if v.None? then None else Some((h.value.0, v.value.0, Skip(buf, v.value.1)))
  }

  /** What is left to read, given the items `a` that are there already. */
  ghost function Left(t: Tokens, buf: Bytes, i: nat, depth: nat, obj: bool, a: Items): Result<Items>
    requires TokensOk(t, buf) && i < |buf|
  {
    Before(a, ParseItems(t, buf, i, depth, obj))
  }

  /** What the loops keep: where they stand, and whether they go on. */
  ghost predicate Standing(t: Tokens, buf: Bytes, at: nat, depth: nat, obj: bool, a: Items, more: bool, all: Result<Items>)
    requires TokensOk(t, buf)
  {
    if more then at + 1 < |buf| && all == Left(t, buf, at + 1, depth, obj, a) else all == Ended(buf, at, obj, a)
  }

  lemma RoundDone(t: Tokens, buf: Bytes, i: nat, depth: nat, obj: bool, a: Items, name: Bytes, v: Json, r: nat, all: Result<Items>)
    requires TokensOk(t, buf) && i < |buf| && OneItem(t, buf, i, depth, obj) == Some((name, v, r)) && all == Left(t, buf, i, depth, obj, a)
    ensures Standing(t, buf, r, depth, obj, Append(a, Item(name, v, End)), buf[r] == COMMA, all)
  {
    if buf[r] == COMMA {
      RoundMore(t, buf, i, depth, obj, a, name, v, r);
    } else {
      RoundEnds(t, buf, i, depth, obj, a, name, v, r);
    }
  }

  lemma RoundFails(t: Tokens, buf: Bytes, i: nat, depth: nat, obj: bool, a: Items)
    requires TokensOk(t, buf) && i < |buf| && OneItem(t, buf, i, depth, obj) == None
    ensures Left(t, buf, i, depth, obj, a) == None
  {
  }

  lemma RoundMore(t: Tokens, buf: Bytes, i: nat, depth: nat, obj: bool, a: Items, name: Bytes, v: Json, r: nat)
    requires TokensOk(t, buf) && i < |buf| && OneItem(t, buf, i, depth, obj) == Some((name, v, r)) && ByteAt(buf, r, COMMA)
    ensures r + 1 < |buf| && Left(t, buf, i, depth, obj, a) == Left(t, buf, r + 1, depth, obj, Append(a, Item(name, v, End)))
  {
    var more := ParseItems(t, buf, r + 1, depth, obj);
    if more.Some? { AppendOne(a, name, v, more.value.0); }
  }

  lemma RoundEnds(t: Tokens, buf: Bytes, i: nat, depth: nat, obj: bool, a: Items, name: Bytes, v: Json, r: nat)
    requires TokensOk(t, buf) && i < |buf| && OneItem(t, buf, i, depth, obj) == Some((name, v, r)) && buf[r] != COMMA
    ensures Left(t, buf, i, depth, obj, a) == Ended(buf, r, obj, Append(a, Item(name, v, End)))
  {
  }

  /** The end of the list, if its bracket is there. */
  function Ended(buf: Bytes, r: nat, obj: bool, a: Items): Result<Items> {
    if ByteAt(buf, r, Closing(obj)) then Some((a, r + 1)) else None
  }

  lemma {:induction false} SkipTwice(buf: Bytes, i: nat)
    requires i < |buf|
    ensures Skip(buf, Skip(buf, i)) == Skip(buf, i)
    decreases |buf| - i
  {
    if i < |buf| - 1 && buf[i] <= SPACE { SkipTwice(buf, i + 1); }
  }

  /** White space before the first item has been skipped. */
  lemma Skipped(t: Tokens, buf: Bytes, i: nat, depth: nat, obj: bool)
    requires TokensOk(t, buf) && i < |buf|
    ensures ParseItems(t, buf, Skip(buf, i), depth, obj) == ParseItems(t, buf, i, depth, obj)
  {
    HeadSkipped(t, buf, i, obj);
  }

  lemma HeadSkipped(t: Tokens, buf: Bytes, i: nat, obj: bool)
    requires TokensOk(t, buf) && i < |buf|
    ensures ParseHead(t, buf, Skip(buf, i), obj) == ParseHead(t, buf, i, obj)
  {
    SkipTwice(buf, i);
  }

  /** The answer and the new offset are those of the specification. */
  ghost predicate Agrees<T(!new)>(spec: Result<T>, r: Option<T>, offset: nat) {
    match spec
    case None => r == None
    case Some((v, end)) => r == Some(v) && offset == end
  }

  /** `t` holds what the token readers find. */
  ghost predicate Right(t: Tokens, buf: Bytes) {
    && CText(buf)
    && (forall i: nat {:trigger LeafToken(buf, i)} :: i < |buf| ==>
          if i in t.leaf then LeafToken(buf, i) == Some(t.leaf[i]) else LeafToken(buf, i) == None)
    && (forall i: nat {:trigger StringToken(buf, i)} :: i < |buf| ==>
          if i in t.names then StringToken(buf, i) == Some(t.names[i]) else StringToken(buf, i) == None)
  }

  class ParseBuffer {
    const content: Bytes
    var offset: nat
    var depth: nat
    ghost const t: Tokens

    /** The buffer ends with the only NUL and `t` is what its tokens are. */
    ghost predicate Valid()
      reads this
    {
      TokensOk(t, content) && Right(t, content) && offset < |content| && depth <= NESTING_LIMIT
    }

    constructor (content: Bytes)
      requires CText(content)
      ensures Valid() && this.content == content && offset == 0 && depth == 0 && t == TokensOf(content)
    {
      this.content, offset, depth, t := content, 0, 0, TokensOf(content);
    }

    /** `buffer_skip_whitespace`. */
    method SkipWhitespace()
      requires Valid()
      modifies this`offset
      ensures Valid() && offset == Skip(content, old(offset))
    {
      ghost var last := |content| - 1;
      while offset < |content| && content[offset] <= SPACE
        invariant old(offset) <= offset <= |content|
        invariant offset < |content| ==> Skip(content, old(offset)) == Skip(content, offset)
        invariant offset == |content| ==> Skip(content, old(offset)) == last
      {
        offset := offset + 1;
      }
      if offset == |content| {
        offset := offset - 1;
      }
    }

    /** `parse_string`. */
    method ParseString() returns (r: Option<Bytes>)
      requires Valid()
      modifies this`offset
      ensures old(offset) in t.names ==>
        r == Some(t.names[old(offset)].1) && offset == old(offset) + |t.names[old(offset)].0| && Valid()
      ensures old(offset) !in t.names ==> r == None
    {
      ghost var token := StringToken(content, offset);
      r := None;
      if content[offset] != QUOTE {
        return;
      }
      var ok, end, skipped;
      ghost var esc;
      ok, end, skipped, esc := ScanLiteral(content, offset + 1);
      if !ok {
        return;
      }
      var out;
      ok, out := DecodeLiteral(content, offset + 1, end, end - offset - skipped, esc);
      LiteralToken(content, offset, end);
      if !ok {
        return;
      }
      r := Some(CString(out));
      offset := end + 1;
    }

    /** `parse_number`: up to 63 bytes are copied for `strtod`. */
    method ParseNumber() returns (r: Option<real>)
      requires Valid()
      modifies this`offset
      ensures NumberToken(content, old(offset)).Some? ==>
        var (text, n) := NumberToken(content, old(offset)).value; r == Some(n) && offset == old(offset) + |text| && Valid()
      ensures NumberToken(content, old(offset)).None? ==> r == None
    {
      var copy := CopyNumber(content[offset..]);
      RunSlice(content, offset);
      var n := Converted(copy);
      if n == 0 {
        return None;
      }
      r := Some(Value(copy[..n]));
      offset := offset + n;
    }

    /** The words, strings and numbers in `parse_value`. */
    method ParseLeaf() returns (r: Option<Json>)
      requires Valid()
      modifies this`offset
      ensures old(offset) in t.leaf ==>
        r == Some(t.leaf[old(offset)].1) && offset == old(offset) + |t.leaf[old(offset)].0| && Valid()
      ensures old(offset) !in t.leaf ==> r == None
    {
      ghost var token := LeafToken(content, offset);
      if At(content, offset, NULL_TEXT) {
        offset := offset + 4;
        return Some(Null);
      }
      if At(content, offset, FALSE_TEXT) {
        offset := offset + 5;
        return Some(False);
      }
      if At(content, offset, TRUE_TEXT) {
        offset := offset + 4;
        return Some(True);
      }
      if content[offset] == QUOTE {
        var s := ParseString();
        return if s.Some? then Some(String(s.value)) else None;
      }
      if content[offset] == MINUS || IsDigit(content[offset]) {
        var x := ParseNumber();
        return if x.Some? then Some(Number(x.value)) else None;
      }
      return None;
    }

    /** `parse_value`. */
    method ParseItem() returns (r: Option<Json>)
      requires Valid()
      modifies this`offset, this`depth
      ensures Agrees(ParseValue(t, content, old(offset), old(depth)), r, offset)
      ensures r.Some? ==> Valid() && depth == old(depth)
      decreases |content| - offset, 1
    {
      if content[offset] == LBRACKET {
        r := ParseArray();
      } else if content[offset] == LBRACE {
        r := ParseObject();
      } else {
        r := ParseLeaf();
      }
    }

    /** One round of the loop in `parse_array`. */
    method ParseElement() returns (r: Option<Json>)
      requires Valid() && offset + 1 < |content|
      modifies this`offset, this`depth
      ensures match OneItem(t, content, old(offset) + 1, old(depth), false)
        case None => r == None
        case Some((name, v, end)) => name == [] && r == Some(v) && offset == end && Valid() && depth == old(depth)
      decreases |content| - offset - 1, 2
    {
      offset := offset + 1;
      SkipWhitespace();
      r := ParseItem();
      if r.Some? {
        SkipWhitespace();
      }
    }

    /** The name of a member and its colon. */
    method ParseName() returns (r: Option<Bytes>)
      requires Valid()
      modifies this`offset
      ensures Agrees(ParseHead(t, content, old(offset), true), r, offset)
      ensures r.Some? ==> Valid() && old(offset) <= offset
    {
      SkipWhitespace();
      r := ParseString();
      if r.None? {
        return None;
      }
      SkipWhitespace();
      if content[offset] != COLON {
        return None;
      }
      offset := offset + 1;
      SkipWhitespace();
    }

    /** One round of the loop in `parse_object`. */
    method ParseMember() returns (r: Option<(Bytes, Json)>)
      requires Valid() && offset + 1 < |content|
      modifies this`offset, this`depth
      ensures match OneItem(t, content, old(offset) + 1, old(depth), true)
        case None => r == None
        case Some((name, v, end)) => r == Some((name, v)) && offset == end && Valid() && depth == old(depth)
      decreases |content| - offset - 1, 2
    {
      offset := offset + 1;
      var name := ParseName();
      if name.None? {
        return None;
      }
      var v := ParseItem();
      if v.None? {
        return None;
      }
      SkipWhitespace();
      return Some((name.value, v.value));
    }

    /** The loop of `parse_array`; it ends at the closing bracket. */
    method ParseElements() returns (r: Option<Items>)
      requires Valid() && offset + 1 < |content|
      modifies this`offset, this`depth
      ensures Agrees(ParseItems(t, content, old(offset) + 1, old(depth), false), r, offset + 1)
      ensures r.Some? ==> Valid() && depth == old(depth)
      decreases |content| - offset - 1, 3
    {
      ghost var all := ParseItems(t, content, offset + 1, depth, false);
      var head, more := End, true;
      while more
        invariant Valid() && old(offset) <= offset && depth == old(depth)
        invariant Standing(t, content, offset, depth, false, head, more, all)
        decreases |content| - offset, more
      {
        ghost var i := offset + 1;
        var v := ParseElement();
        if v.None? {
          RoundFails(t, content, i, old(depth), false, head);
          return None;
        }
        RoundDone(t, content, i, depth, false, head, [], v.value, offset, all);
        more := content[offset] == COMMA;
        head := Append(head, Item([], v.value, End));
      }
      return if content[offset] == RBRACKET then Some(head) else None;
    }

    /** The loop of `parse_object`. */
    method ParseMembers() returns (r: Option<Items>)
      requires Valid() && offset + 1 < |content|
      modifies this`offset, this`depth
      ensures Agrees(ParseItems(t, content, old(offset) + 1, old(depth), true), r, offset + 1)
      ensures r.Some? ==> Valid() && depth == old(depth)
      decreases |content| - offset - 1, 3
    {
      ghost var all := ParseItems(t, content, offset + 1, depth, true);
      var head, more := End, true;
      while more
        invariant Valid() && old(offset) <= offset && depth == old(depth)
        invariant Standing(t, content, offset, depth, true, head, more, all)
        decreases |content| - offset, more
      {
        ghost var i := offset + 1;
        var m := ParseMember();
        if m.None? {
          RoundFails(t, content, i, old(depth), true, head);
          return None;
        }
        RoundDone(t, content, i, depth, true, head, m.value.0, m.value.1, offset, all);
        more := content[offset] == COMMA;
        head := Append(head, Item(m.value.0, m.value.1, End));
      }
      return if content[offset] == RBRACE then Some(head) else None;
    }

    /** `parse_array`. */
    method ParseArray() returns (r: Option<Json>)
      requires Valid() && content[offset] == LBRACKET
      modifies this`offset, this`depth
      ensures Agrees(ParseList(t, content, old(offset), old(depth), false), r, offset)
      ensures r.Some? ==> Valid() && depth == old(depth)
      decreases |content| - offset, 0
    {
      if depth >= NESTING_LIMIT {
        return None;
      }
      depth := depth + 1;
      offset := offset + 1;
      Skipped(t, content, offset, depth, false);
      SkipWhitespace();
      var head := Some(End);
      if content[offset] != RBRACKET {
        offset := offset - 1;
        head := ParseElements();
      }
      if head.None? {
        return None;
      }
      depth := depth - 1;
      offset := offset + 1;
      return Some(Array(head.value));
    }

    /** `parse_object`. */
    method ParseObject() returns (r: Option<Json>)
      requires Valid() && content[offset] == LBRACE
      modifies this`offset, this`depth
      ensures Agrees(ParseList(t, content, old(offset), old(depth), true), r, offset)
      ensures r.Some? ==> Valid() && depth == old(depth)
      decreases |content| - offset, 0
    {
      if depth >= NESTING_LIMIT {
        return None;
      }
      depth := depth + 1;
      offset := offset + 1;
      Skipped(t, content, offset, depth, true);
      SkipWhitespace();
      var head := Some(End);
      if content[offset] != RBRACE {
        offset := offset - 1;
        head := ParseMembers();
      }
      if head.None? {
        return None;
      }
      depth := depth - 1;
      offset := offset + 1;
      return Some(Object(head.value));
    }
  }

  /** The item at the start of a text, whatever follows. */
  function ParseFront(buf: Bytes): Option<Json>
    requires CText(buf)
  {
    var v := ParseValue(TokensOf(buf), buf, Skip(buf, 0), 0);
    if v.None? then None else Some(v.value.0)
  }

  /** `cJSON_ParseWithOpts`: `value` is a C string, `required` asks for its end after the item. */
  method Parse(value: Bytes, required: bool) returns (r: Option<Json>)
    requires 0 !in value
    ensures CText(value + [0])
    ensures r == if required then ParseDoc(value + [0]) else ParseFront(value + [0])
  {
    TerminatedText(value);
    var buffer := new ParseBuffer(value + [0]);
    buffer.SkipWhitespace();
    r := buffer.ParseItem();
    if r.Some? && required {
      buffer.SkipWhitespace();
      if buffer.content[buffer.offset] != 0 {
        r := None;
      }
    }
  }

  /** The bytes of a number, for `strtod`. */
  method CopyNumber(rest: Bytes) returns (copy: Bytes)
    ensures copy == rest[..Run(rest, NUMBER_MAX)]
  {
    copy := [];
    var i := 0;
    while i < NUMBER_MAX && i < |rest| && NumberByte(rest[i])
      invariant 0 <= i <= NUMBER_MAX && i <= |rest| && copy == rest[..i]
      invariant Run(rest, NUMBER_MAX) == i + Run(rest[i..], NUMBER_MAX - i)
    {
      assert rest[i..][1..] == rest[i + 1..];
      copy := copy + [rest[i]];
      i := i + 1;
    }
  }

  lemma RunSlice(buf: Bytes, i: nat)
    requires CText(buf) && i < |buf|
    ensures buf[i..][..Run(buf[i..], NUMBER_MAX)] == NumberRun(buf, i)
  {
  }

  lemma LiteralToken(buf: Bytes, i: nat, end: nat)
    requires CText(buf) && i < |buf| && buf[i] == QUOTE && Close(buf, i + 1) == Some(end)
    ensures end + 1 < |buf|
    ensures StringToken(buf, i) == match Unescape(buf[i + 1..end + 1])
      case None => None
      case Some(out) => Some((buf[i..end + 1], CString(out)))
  {
    Contents(buf, i, end);
  }

  lemma Contents(buf: Bytes, i: nat, end: nat)
    requires i < end < |buf|
    ensures Body(buf[i..end + 1]) == buf[i + 1..end] && buf[i + 1..end] + [buf[end]] == buf[i + 1..end + 1]
  {
    var text, body := buf[i..end + 1], buf[i + 1..end];
    forall k | 0 <= k < |body| ensures Body(text)[k] == body[k] {
      assert Body(text)[k] == text[k + 1] == buf[i + 1 + k];
    }
    assert Body(text) == body;
  }
}
