/**
 The printer of `cJSON.c` as it runs: it writes into a buffer that grows on demand,
 and some of its functions leave moving the offset to their caller.  The text is the
 specified one, and printing fails exactly if the buffer cannot get large enough.
 */
module JsonPrinter {
  import opened Octets
  import opened ByteText
  import opened JsonString
  import opened JsonNumber
  import opened JsonGrammar
  import opened JsonParse
  import opened JsonPrint

  const INT_MAX := 0x7FFF_FFFF

  /** `s` with `p` written over it from `i` on. */
  function Splice(s: Bytes, i: nat, p: Bytes): (r: Bytes)
    requires i + |p| <= |s|
    ensures |r| == |s| && r[..i + |p|] == s[..i] + p
  {
    s[..i] + p + s[i + |p|..]
  }

  /** Other contents, `fill`, where `s` ends. */
  function Resized(s: Bytes, n: nat, fill: byte): (r: Bytes)
    ensures |r| == n && forall i :: 0 <= i <= n && i <= |s| ==> r[..i] == s[..i]
  {
    if n <= |s| then s[..n] else s + seq(n - |s|, _ => fill)
  }

  class PrintBuffer {
    var buffer: Bytes
    var length: nat
    var offset: nat
    var depth: nat
    const noalloc: bool
    const format: bool
    const fill: byte                  // what newly allocated memory holds

    ghost predicate Valid()
      reads this
    {
      length <= |buffer| && length <= INT_MAX && (if length == 0 then offset == 0 else offset < length)
    }

    /** What has been printed up to the offset. */
    ghost function Done(): Bytes
      requires Valid()
      reads this
    {
      buffer[..offset]
    }

    /** How far the buffer can reach. */
    ghost function Limit(): nat
      reads this
    {
      if noalloc then length else INT_MAX
    }

    /** The buffer starts with `s` and a terminator, and the offset stands in `s`. */
    ghost predicate Holds(s: Bytes)
      reads this
    {
      Valid() && |s| < length && offset <= |s| && buffer[..|s| + 1] == s + [0]
    }

    /** `cJSON_PrintPreallocated` gives the buffer and its length, `print` starts with length 0. */
    constructor (buffer: Bytes, length: nat, noalloc: bool, format: bool, fill: byte)
      requires length <= |buffer| && length <= INT_MAX
      ensures Valid() && Done() == [] && depth == 0 && this.length == length
      ensures this.noalloc == noalloc && this.format == format
    {
      this.buffer, this.length, offset, depth := buffer, length, 0, 0;
      this.noalloc, this.format, this.fill := noalloc, format, fill;
    }

    /** `ensure`. */
    method Ensure(needed: nat) returns (ok: bool)
      requires Valid()
      modifies this`buffer, this`length
      ensures Valid() && Limit() == old(Limit()) && Done() == old(Done())
      ensures ok <==> offset + needed + 1 <= Limit()
      ensures ok ==> offset + needed + 1 <= length
    {
      if needed > INT_MAX {
        return false;
      }
      var total := needed + offset + 1;
      if total <= length {
        return true;
      }
      if noalloc {
        return false;
      }
      var newsize;
      if total > INT_MAX / 2 {
        if total <= INT_MAX {
          newsize := INT_MAX;
        } else {
          return false;
        }
      } else {
        newsize := total * 2;
      }
      buffer := Resized(buffer, newsize, fill);
      length := newsize;
      return true;
    }

    /** Bytes written from the offset on. */
    method Write(p: Bytes)
      requires Valid() && offset + |p| <= length
      modifies this`buffer
      ensures Valid() && buffer[..offset + |p|] == old(Done()) + p && Done() == old(Done())
    {
      buffer := Splice(buffer, offset, p);
    }

    /** `update_offset`: on to the terminator. */
    method UpdateOffset(ghost s: Bytes)
      requires Holds(s) && 0 !in s
      modifies this`offset
      ensures Valid() && Done() == s
    {
      ghost var whole := buffer[..|s| + 1];
      while buffer[offset] != 0
        invariant offset <= |s| && Valid()
        decreases |s| - offset
      {
        assert buffer[offset] == whole[offset];
        offset := offset + 1;
      }
      assert buffer[offset] == whole[offset];
      assert forall k :: 0 <= k < |s| ==> s[k] in s;
      assert buffer[..offset] == whole[..offset];
    }

    /** The words in `print_value`. */
    method PrintWord(word: Bytes) returns (ok: bool)
      requires Valid() && 0 !in word
      modifies this`buffer, this`length
      ensures Limit() == old(Limit()) && (ok <==> old(offset) + |word| + 2 <= Limit())
      ensures ok ==> Holds(old(Done()) + word)
    {
      ok := Ensure(|word| + 1);
      if ok {
        Write(word + [0]);
        assert old(Done()) + (word + [0]) == old(Done()) + word + [0];
      }
    }

    /** `print_number`; `text` is what `sprintf` makes of the number. */
    method PrintNumber(text: Bytes) returns (ok: bool)
      requires Valid() && 0 !in text && |text| <= 25
      modifies this`buffer, this`length, this`offset
      ensures Limit() == old(Limit()) && (ok <==> old(offset) + |text| + 1 <= Limit())
      ensures ok ==> Holds(old(Done()) + text)
    {
      ok := Ensure(|text|);
      if ok {
        Write(text + [0]);
        assert old(Done()) + (text + [0]) == old(Done()) + text + [0];
        offset := offset + |text|;
      }
    }

    /** Bytes written at some place. */
    method Poke(at: nat, p: Bytes)
      requires Valid() && offset <= at && at + |p| <= length
      modifies this`buffer
      ensures Valid() && Done() == old(Done()) && buffer[..at + |p|] == old(buffer[..at]) + p
    {
      ghost var before := buffer[..at];
      buffer := Splice(buffer, at, p);
      assert buffer[..offset] == buffer[..at + |p|][..offset] == before[..offset];
    }

    /** `print_string_ptr`. */
    method PrintString(s: Bytes) returns (ok: bool)
      requires Valid() && 0 !in s
      modifies this`buffer, this`length
      ensures Limit() == old(Limit()) && (ok <==> old(offset) + |Quoted(Escape(s))| + 2 <= Limit())
      ensures ok ==> Holds(old(Done()) + Quoted(Escape(s)))
    {
      var escapes := CountEscapes(s);
      var n := |s| + escapes;
      ok := Ensure(n + 3);
      if !ok {
        return;
      }
      QuotedEnds(old(Done()), Escape(s));
      if escapes == 0 {
        NothingEscaped(s);
        Write([QUOTE] + s + [QUOTE, 0]);
      } else {
        WriteQuoted(s, n);
      }
    }

    method WriteQuoted(s: Bytes, n: nat)
      requires Valid() && n == |Escape(s)| && offset + n + 3 <= length
      modifies this`buffer
      ensures Valid() && Done() == old(Done())
      ensures buffer[..offset + n + 3] == old(Done()) + [QUOTE] + Escape(s) + [QUOTE, 0]
    {
      ghost var done := Done();
      Write([QUOTE]);
      WriteEscaped(s, done);
      var at := offset + 1 + n;
      ghost var before := buffer[..at];
      assert before == done + [QUOTE] + Escape(s);
      Poke(at, [QUOTE, 0]);
      assert buffer[..at + 2] == before + [QUOTE, 0];
    }

    /** The loop that copies and escapes. */
    method WriteEscaped(s: Bytes, ghost done: Bytes)
      requires Valid() && offset + 1 + |Escape(s)| <= length && buffer[..offset + 1] == done + [QUOTE]
      modifies this`buffer
      ensures Valid() && Done() == old(Done()) && buffer[..offset + 1 + |Escape(s)|] == done + [QUOTE] + Escape(s)
    {
      var at := offset + 1;
      assert s[..0] == [] && done + [QUOTE] + [] == done + [QUOTE];
      for k := 0 to |s|
        invariant Valid() && Done() == old(Done()) && at <= offset + 1 + |Escape(s)| <= length
        invariant at == offset + 1 + |Escape(s[..k])| && buffer[..at] == done + [QUOTE] + Escape(s[..k])
      {
        var token := Spelling(TokenFor(s[k]));
        Spelled(done + [QUOTE], s, k, token);
        Poke(at, token);
        at := at + |token|;
      }
      assert s[..|s|] == s;
    }

    /** `print_value`. */
    method PrintValue(item: Json) returns (ok: bool)
      requires Valid() && Printable(item) && 0 !in Done()
      modifies this
      ensures Limit() == old(Limit()) && (ok <==> old(offset) + |Printed(item, format, old(depth))| + Margin(item) <= Limit())
      ensures ok ==> Holds(old(Done()) + Printed(item, format, old(depth))) && depth == old(depth)
      decreases item, 1
    {
      match item {
        case Null => ok := PrintWord(NULL_TEXT);
        case False => ok := PrintWord(FALSE_TEXT);
        case True => ok := PrintWord(TRUE_TEXT);
        case Number(n) =>
          IntegerGood(n.Floor);
          ok := PrintNumber(IntText(n.Floor));
        case String(s) => ok := PrintString(s);
        case Array(child) => ok := PrintArray(child);
        case Object(child) => ok := PrintObject(child);
      }
    }

    /** `print_value` and `update_offset`, as they are called inside arrays and objects. */
    method PrintChild(item: Json) returns (ok: bool)
      requires Valid() && Printable(item) && 0 !in Done()
      modifies this
      ensures Limit() == old(Limit())
      ensures !ok ==> old(offset) + |Printed(item, format, old(depth))| + 2 > Limit()
      ensures ok ==> Valid() && Done() == old(Done()) + Printed(item, format, old(depth)) && 0 !in Done() && depth == old(depth)
      decreases item, 2
    {
      ok := PrintValue(item);
      if ok {
        PrintedNulFree(item, format, old(depth));
        UpdateOffset(old(Done()) + Printed(item, format, old(depth)));
      }
    }

    /** Punctuation, behind which the offset moves; `nul` asks for a terminator. */
    method PrintMark(p: Bytes, reserve: nat, nul: bool) returns (ok: bool)
      requires Valid() && 0 !in p && 0 !in Done() && |p| <= reserve <= |p| + 1
      modifies this`buffer, this`length, this`offset
      ensures Limit() == old(Limit())
      ensures !ok ==> old(offset) + |p| + 2 > Limit()
      ensures ok ==> Valid() && Done() == old(Done()) + p && 0 !in Done()
    {
      ok := Ensure(reserve);
      if ok {
        Write(p);
        if nul {
          Poke(offset + |p|, [0]);
          assert buffer[..offset + |p|] == buffer[..offset + |p| + 1][..offset + |p|];
        }
        offset := offset + |p|;
      }
    }

    /** The end of `print_array` and `print_object`: the offset stays. */
    method PrintEnd(p: Bytes) returns (ok: bool)
      requires Valid()
      modifies this`buffer, this`length
      ensures Limit() == old(Limit()) && (ok <==> old(offset) + |p| + 2 <= Limit())
      ensures ok ==> Holds(old(Done()) + p)
    {
      ok := Ensure(|p| + 1);
      if ok {
        Write(p + [0]);
        assert old(Done()) + (p + [0]) == old(Done()) + p + [0];
      }
    }

    /** One round of the loop in `print_array`; `all` is what the array prints in the end. */
    method PrintElement(items: Items, ghost end: Bytes, ghost all: Bytes) returns (ok: bool)
      requires Valid() && items.Item? && PrintableItems(items, false) && 0 !in Done() && end != []
      requires all == Done() + PrintedElements(items, format, depth) + end
      modifies this
      ensures Limit() == old(Limit()) && (!ok ==> |all| + 2 > Limit())
      ensures ok ==> Valid() && 0 !in Done() && depth == old(depth) && all == Done() + PrintedElements(items.next, format, depth) + end
      decreases items, 3
    {
      ElementRound(Done(), items, format, depth, end);
      ok := PrintChild(items.value);
      if ok && items.next.Item? {
        ok := PrintMark([COMMA] + AfterComma(format), |AfterComma(format)| + 2, true);
      }
    }

    /** The loop of `print_array`. */
    method PrintElements(child: Items, ghost end: Bytes, ghost all: Bytes) returns (ok: bool)
      requires Valid() && PrintableItems(child, false) && 0 !in Done() && end != []
      requires all == Done() + PrintedElements(child, format, depth) + end
      modifies this
      ensures Limit() == old(Limit()) && (!ok ==> |all| + 2 > Limit())
      ensures ok ==> Valid() && depth == old(depth) && all == Done() + end
      decreases child, 4
    {
      var current := child;
      ok := true;
      while current.Item?
        invariant Valid() && PrintableItems(current, false) && 0 !in Done() && depth == old(depth) && Limit() == old(Limit())
        invariant ok && all == Done() + PrintedElements(current, format, depth) + end
        decreases current
      {
        ok := PrintElement(current, end, all);
        if !ok {
          return;
        }
        current := current.next;
      }
      assert Done() + [] == Done();
    }

    /** The start of `print_array`. */
    method OpenArray(child: Items, ghost end: Bytes, ghost all: Bytes) returns (ok: bool)
      requires Valid() && 0 !in Done() && end == [RBRACKET]
      requires all == Done() + Printed(Array(child), format, depth)
      modifies this
      ensures Limit() == old(Limit()) && (!ok ==> |all| + 2 > Limit())
      ensures ok ==> Valid() && 0 !in Done() && depth == old(depth) + 1 && all == Done() + PrintedElements(child, format, depth) + end
    {
      Regroup(Done(), [LBRACKET], PrintedElements(child, format, depth + 1), end);
      ok := PrintMark([LBRACKET], 1, false);
      depth := depth + 1;
    }

    /** `print_array`. */
    method PrintArray(child: Items) returns (ok: bool)
      requires Valid() && PrintableItems(child, false) && 0 !in Done()
      modifies this
      ensures Limit() == old(Limit())
      ensures ok <==> old(offset) + |Printed(Array(child), format, old(depth))| + 2 <= Limit()
      ensures ok ==> Holds(old(Done()) + Printed(Array(child), format, old(depth))) && depth == old(depth)
      decreases child, 5
    {
      ghost var end := [RBRACKET];
      ghost var all := old(Done()) + Printed(Array(child), format, old(depth));
      ok := OpenArray(child, end, all);
      if ok {
        ok := PrintElements(child, end, all);
        if ok {
          ok := PrintEnd([RBRACKET]);
          depth := depth - 1;
        }
      }
    }

    /** The indentation, the name and the colon of a member. */
    method PrintName(name: Bytes) returns (ok: bool)
      requires Valid() && 0 !in name && 0 !in Done()
      modifies this`buffer, this`length, this`offset
      ensures Limit() == old(Limit())
      ensures !ok ==> old(offset) + |MemberHead(name, format, depth)| + 2 > Limit()
      ensures ok ==> Valid() && Done() == old(Done()) + MemberHead(name, format, depth) && 0 !in Done()
    {
      HeadParts(old(Done()), name, format, depth);
      if format {
        ok := PrintMark(Tabs(depth), depth, false);
        if !ok {
          return;
        }
      }
      assert Done() == old(Done()) + Indent(format, depth);
      ghost var before := Done();
      QuotedIsString(name);
      ok := PrintString(name);
      if !ok {
        return;
      }
      UpdateOffset(before + Quoted(Escape(name)));
      ok := PrintMark([COLON] + AfterColon(format), 1 + |AfterColon(format)|, false);
    }

    /** One round of the loop in `print_object`; `end` is what follows the members. */
    method PrintMember(items: Items, ghost end: Bytes, ghost all: Bytes) returns (ok: bool)
      requires Valid() && items.Item? && PrintableItems(items, true) && 0 !in Done() && end != []
      requires all == Done() + PrintedMembers(items, format, depth) + end
      modifies this
      ensures Limit() == old(Limit()) && (!ok ==> |all| + 2 > Limit())
      ensures ok ==> Valid() && 0 !in Done() && depth == old(depth) && all == Done() + PrintedMembers(items.next, format, depth) + end
      decreases items, 3
    {
      MemberRound(Done(), items, format, depth, end);
      ok := PrintName(items.name);
      if !ok {
        return;
      }
      ok := PrintChild(items.value);
      if !ok {
        return;
      }
      ok := PrintMark(MemberTail(items.next, format), |MemberTail(items.next, format)| + 1, true);
    }

    /** The loop of `print_object`. */
    method PrintMembers(child: Items, ghost end: Bytes, ghost all: Bytes) returns (ok: bool)
      requires Valid() && PrintableItems(child, true) && 0 !in Done() && end != []
      requires all == Done() + PrintedMembers(child, format, depth) + end
      modifies this
      ensures Limit() == old(Limit()) && (!ok ==> |all| + 2 > Limit())
      ensures ok ==> Valid() && depth == old(depth) && all == Done() + end
      decreases child, 4
    {
      var current := child;
      ok := true;
      while current.Item?
        invariant Valid() && PrintableItems(current, true) && 0 !in Done() && depth == old(depth) && Limit() == old(Limit())
        invariant ok && all == Done() + PrintedMembers(current, format, depth) + end
        decreases current
      {
        ok := PrintMember(current, end, all);
        if !ok {
          return;
        }
        current := current.next;
      }
      assert Done() + [] == Done();
    }

    /** The start of `print_object`. */
    method OpenObject(child: Items, ghost end: Bytes, ghost all: Bytes) returns (ok: bool)
      requires Valid() && 0 !in Done() && end == Indent(format, depth) + [RBRACE]
      requires all == Done() + Printed(Object(child), format, depth)
      modifies this
      ensures Limit() == old(Limit()) && (!ok ==> |all| + 2 > Limit())
      ensures ok ==> Valid() && 0 !in Done() && depth == old(depth) + 1 && all == Done() + PrintedMembers(child, format, depth) + end
    {
      ObjectParts(Done(), [LBRACE], Newline(format), PrintedMembers(child, format, depth + 1), Indent(format, depth), [RBRACE]);
      ok := PrintMark([LBRACE] + Newline(format), |Newline(format)| + 2, false);
      depth := depth + 1;
    }

    /** `print_object`. */
    method PrintObject(child: Items) returns (ok: bool)
      requires Valid() && PrintableItems(child, true) && 0 !in Done()
      modifies this
      ensures Limit() == old(Limit())
      ensures ok <==> old(offset) + |Printed(Object(child), format, old(depth))| + 2 <= Limit()
      ensures ok ==> Holds(old(Done()) + Printed(Object(child), format, old(depth))) && depth == old(depth)
      decreases child, 5
    {
      ghost var end := Indent(format, old(depth)) + [RBRACE];
      ghost var all := old(Done()) + Printed(Object(child), format, old(depth));
      ok := OpenObject(child, end, all);
      if ok {
        ok := PrintMembers(child, end, all);
        if ok {
          ok := PrintEnd(Indent(format, depth - 1) + [RBRACE]);
          depth := depth - 1;
        }
      }
    }
  }

  lemma Spelled(done: Bytes, s: Bytes, k: nat, token: Bytes)
    requires k < |s| && token == Spelling(TokenFor(s[k]))
    ensures done + Escape(s[..k]) + token == done + Escape(s[..k + 1])
    ensures |Escape(s[..k])| + |token| == |Escape(s[..k + 1])| <= |Escape(s)|
  {
    EscapeNext(s, k);
    EscapeFits(s, k + 1);
    assert done + Escape(s[..k]) + token == done + (Escape(s[..k]) + token);
  }

  /** The first loop of `print_string_ptr`. */
  method CountEscapes(s: Bytes) returns (n: nat)
    ensures |s| + n == |Escape(s)|
  {
    n := 0;
    for k := 0 to |s|
      invariant k + n == |Escape(s[..k])|
    {
      EscapeNext(s, k);
      if s[k] == QUOTE || s[k] == BACKSLASH || s[k] == BACKSPACE || s[k] == FF || s[k] == LF || s[k] == CR || s[k] == TAB {
        n := n + 1;
      } else if s[k] < 32 {
        n := n + 5;
      }
    }
    assert s[..|s|] == s;
  }

  lemma {:induction false} EscapeSplit(s: Bytes, t: Bytes)
    ensures Escape(s + t) == Escape(s) + Escape(t)
  {
    if s == [] {
      assert s + t == t;
    } else {
      assert (s + t)[1..] == s[1..] + t;
      EscapeSplit(s[1..], t);
    }
  }

  lemma EscapeNext(s: Bytes, k: nat)
    requires k < |s|
    ensures Escape(s[..k + 1]) == Escape(s[..k]) + Spelling(TokenFor(s[k]))
  {
    assert s[..k + 1] == s[..k] + [s[k]];
    EscapeSplit(s[..k], [s[k]]);
    assert Escape([s[k]]) == Spelling(TokenFor(s[k])) + Escape([]);
  }

  lemma EscapeFits(s: Bytes, k: nat)
    requires k <= |s|
    ensures |Escape(s[..k])| <= |Escape(s)|
  {
    assert s[..k] + s[k..] == s;
    EscapeSplit(s[..k], s[k..]);
  }

  lemma {:induction false} EscapeGrows(s: Bytes)
    ensures |Escape(s)| >= |s|
  {
    if s != [] { EscapeGrows(s[1..]); }
  }

  /** Nothing to escape, nothing changed. */
  lemma {:induction false} NothingEscaped(s: Bytes)
    requires |Escape(s)| == |s|
    ensures Escape(s) == s
  {
    if s != [] {
      EscapeGrows(s[1..]);
      NothingEscaped(s[1..]);
    }
  }

  lemma QuotedEnds(done: Bytes, e: Bytes)
    ensures done + ([QUOTE] + e + [QUOTE, 0]) == done + Quoted(e) + [0]
    ensures done + [QUOTE] + e + [QUOTE, 0] == done + Quoted(e) + [0]
  {
  }

  /** How much longer than its text the buffer must be for a value. */
  function Margin(v: Json): nat { if v.Number? then 1 else 2 }

  lemma Regroup(x: Bytes, a: Bytes, b: Bytes, c: Bytes)
    ensures x + (a + b + c) == x + a + b + c
  {
  }

  lemma ElementRound(done: Bytes, items: Items, fmt: bool, d: nat, end: Bytes)
    requires items.Item?
    ensures var p, rest := Printed(items.value, fmt, d), PrintedElements(items.next, fmt, d);
      done + PrintedElements(items, fmt, d) + end ==
        if items.next.End? then done + p + rest + end else done + p + ([COMMA] + AfterComma(fmt)) + rest + end
  {
    var p, rest := Printed(items.value, fmt, d), PrintedElements(items.next, fmt, d);
    ElementParts(done, p, [COMMA] + AfterComma(fmt), rest, end);
  }

  lemma ElementParts(x: Bytes, p: Bytes, k: Bytes, r: Bytes, e: Bytes)
    ensures x + (p + (k + r)) + e == x + p + k + r + e && x + (p + []) + e == x + p + [] + e
  {
  }

  lemma ObjectParts(x: Bytes, o: Bytes, n: Bytes, p: Bytes, i: Bytes, c: Bytes)
    ensures x + (o + n + p + i + c) == x + (o + n) + p + (i + c)
  {
  }

  lemma HeadParts(x: Bytes, name: Bytes, fmt: bool, d: nat)
    ensures x + MemberHead(name, fmt, d) == x + Indent(fmt, d) + Quoted(Escape(name)) + ([COLON] + AfterColon(fmt))
    ensures x + Indent(false, d) == x
  {
    ObjectHead(x, Indent(fmt, d), Quoted(Escape(name)), [COLON], AfterColon(fmt));
  }

  lemma ObjectHead(x: Bytes, i: Bytes, q: Bytes, c: Bytes, a: Bytes)
    ensures x + (i + q + c + a) == x + i + q + (c + a)
  {
  }

  lemma MemberRound(done: Bytes, items: Items, fmt: bool, d: nat, end: Bytes)
    requires items.Item?
    ensures done + PrintedMembers(items, fmt, d) + end ==
      done + MemberHead(items.name, fmt, d) + Printed(items.value, fmt, d) + MemberTail(items.next, fmt) + PrintedMembers(items.next, fmt, d) + end
  {
    MemberParts(done, MemberHead(items.name, fmt, d), Printed(items.value, fmt, d), MemberTail(items.next, fmt), PrintedMembers(items.next, fmt, d), end);
  }

  lemma MemberParts(x: Bytes, h: Bytes, v: Bytes, t: Bytes, p: Bytes, e: Bytes)
    ensures x + (h + v + t + p) + e == x + h + v + t + p + e
  {
  }

  /** `cJSON_Print` and `cJSON_PrintUnformatted`; what `memory` and `fill` hold does not matter. */
  method Print(item: Json, format: bool, memory: Bytes, fill: byte) returns (r: Option<Bytes>)
    requires Printable(item) && |memory| == 256
    ensures r == if |Printed(item, format, 0)| + Margin(item) <= 0x7FFF_FFFF then Some(Printed(item, format, 0)) else None
  {
    var p := new PrintBuffer(memory, 0, false, format, fill);
    var ok := p.PrintValue(item);
    if !ok {
      return None;
    }
    PrintedNulFree(item, format, 0);
    ghost var text := Printed(item, format, 0);
    assert [] + text == text;
    p.UpdateOffset(text);
    return Some(p.buffer[..p.offset]);
  }

  /** `cJSON_PrintPreallocated` succeeds exactly if there is room for two bytes more than
      the text, for a number one; the text ends with a terminator. */
  method PrintPreallocated(item: Json, memory: Bytes, format: bool) returns (ok: bool, after: Bytes)
    requires Printable(item) && |memory| <= INT_MAX
    ensures ok <==> |Printed(item, format, 0)| + Margin(item) <= |memory|
    ensures ok ==> CString(after) == Printed(item, format, 0)
  {
    var p := new PrintBuffer(memory, |memory|, true, format, 0);
    ok := p.PrintValue(item);
    after := p.buffer;
    if ok {
      ghost var text := Printed(item, format, 0);
      PrintedNulFree(item, format, 0);
      assert [] + text == text;
      TextSeen(after, text);
    }
  }

  /** A text with its terminator at the front of an array is what its users see. */
  lemma TextSeen(a: Bytes, text: Bytes)
    requires 0 !in text && |text| < |a| && a[..|text| + 1] == text + [0]
    ensures CString(a) == text
  {
    assert a[|text|] == a[..|text| + 1][|text|];
    assert a[..|text|] == a[..|text| + 1][..|text|];
    CStringCut(a, |text|);
    CStringWhole(text);
  }
}
