/** `cJSON_Minify` at work on the array that holds the text. */
module JsonMinifier {
  import opened Octets
  import opened ByteText
  import opened JsonString
  import opened JsonMinify

  /** The text `s` has been read up to `pos`, written up to `into`, which never passes
      `pos`, and the part not yet read is untouched. */
  ghost predicate Working(json: array<byte>, s: Bytes, pos: nat, into: nat)
    reads json
  {
    && json.Length == |s| + 1 && into <= pos <= |s| && json[|s|] == 0
    && forall k :: pos <= k < |s| ==> json[k] == s[k]
  }

  method LineComment(json: array<byte>, start: nat, ghost s: Bytes, ghost into: nat) returns (pos: nat)
    requires Working(json, s, start, into) && 0 !in s
    ensures start <= pos && Working(json, s, pos, into) && SkipLine(s[start..]) == s[pos..]
  {
    pos := start;
    while json[pos] != 0 && json[pos] != LF
      invariant start <= pos && Working(json, s, pos, into)
      invariant SkipLine(s[start..]) == SkipLine(s[pos..])
      decreases |s| - pos
    {
      assert s[pos..][1..] == s[pos + 1..];
      pos := pos + 1;
    }
    if json[pos] == 0 { AtTerminator(json, s, pos, into); }
  }

  method BlockComment(json: array<byte>, start: nat, ghost s: Bytes, ghost into: nat) returns (pos: nat, past: bool)
    requires Working(json, s, start, into) && 0 !in s
    ensures past <==> SkipBlock(s[start..]).None?
    ensures !past ==> start <= pos && Working(json, s, pos, into) && SkipBlock(s[start..]) == Some(s[pos..])
  {
    pos, past := start, false;
    while json[pos] != 0 && !(json[pos] == STAR && json[pos + 1] == SLASH)
      invariant start <= pos && Working(json, s, pos, into)
      invariant SkipBlock(s[start..]) == SkipBlock(s[pos..])
      decreases |s| - pos
    {
      assert s[pos..][1..] == s[pos + 1..];
      pos := pos + 1;
    }
    if json[pos] == 0 {
      AtTerminator(json, s, pos, into);
      past := true;
      return;
    }
    assert s[pos..][2..] == s[pos + 2..];
    pos := pos + 2;
  }

  /** Copying one byte. */
  method Copy(json: array<byte>, pos: nat, into: nat, ghost s: Bytes)
    requires Working(json, s, pos, into) && pos < |s|
    modifies json
    ensures Working(json, s, pos + 1, into + 1) && json[..into + 1] == old(json[..into]) + [s[pos]]
  {
    json[into] := json[pos];
  }

  /** The literal that starts at `start`, quotes included. */
  method CopyLiteral(json: array<byte>, start: nat, into0: nat, ghost s: Bytes) returns (pos: nat, into: nat, past: bool)
    requires Working(json, s, start, into0) && 0 !in s && start < |s| && s[start] == QUOTE
    modifies json
    ensures past <==> Close(s, start + 1).None?
    ensures !past ==>
      && Working(json, s, pos, into) && Close(s, start + 1) == Some(pos - 1) && start < pos
      && json[..into] == old(json[..into0]) + s[start..pos]
  {
    ghost var done := json[..into0];
    Copy(json, start, into0, s);
    pos, into, past := start + 1, into0 + 1, false;
    while json[pos] != 0 && json[pos] != QUOTE
      invariant start < pos && Working(json, s, pos, into)
      invariant json[..into] == done + s[start..pos]
      invariant Close(s, start + 1) == Close(s, pos)
      decreases |s| - pos
    {
      var next;
      next, into, past := CopyUnit(json, pos, into, s);
      if past {
        return;
      }
      Grow(done, s, start, pos, next);
      pos := next;
    }
    if json[pos] == 0 {
      AtTerminator(json, s, pos, into);
      past := true;
      return;
    }
    Copy(json, pos, into, s);
    assert [s[pos]] == s[pos..pos + 1];
    Grow(done, s, start, pos, pos + 1);
    pos, into := pos + 1, into + 1;
  }

  /** The body of its loop: an escape takes two bytes. */
  method CopyUnit(json: array<byte>, start: nat, into0: nat, ghost s: Bytes) returns (pos: nat, into: nat, past: bool)
    requires Working(json, s, start, into0) && 0 !in s && start < |s| && s[start] != QUOTE
    modifies json
    ensures past ==> Close(s, start).None?
    ensures !past ==>
      && Working(json, s, pos, into) && Close(s, start) == Close(s, pos) && start < pos
      && json[..into] == old(json[..into0]) + s[start..pos]
  {
    ghost var done := json[..into0];
    pos, into, past := start, into0, false;
    OneAndTwo(done, s, start);
    if json[pos] == BACKSLASH {
      Copy(json, pos, into, s);
      pos, into := pos + 1, into + 1;
      if json[pos] == 0 {
        AtTerminator(json, s, pos, into);
        past := true;
        return;
      }
    }
    Copy(json, pos, into, s);
    pos, into := pos + 1, into + 1;
  }

  lemma OneAndTwo(done: Bytes, s: Bytes, a: nat)
    requires a < |s|
    ensures done + [s[a]] == done + s[a..a + 1]
    ensures a + 1 < |s| ==> done + [s[a]] + [s[a + 1]] == done + s[a..a + 2]
  {
  }

  lemma Grow(done: Bytes, s: Bytes, a: nat, b: nat, c: nat)
    requires a <= b <= c <= |s|
    ensures done + s[a..b] + s[b..c] == done + s[a..c]
  {
  }

  lemma AtTerminator(json: array<byte>, s: Bytes, pos: nat, into: nat)
    requires Working(json, s, pos, into) && 0 !in s && json[pos] == 0
    ensures pos == |s| && s[pos..] == []
  {
    assert forall k :: 0 <= k < |s| ==> s[k] in s;
  }

  /** What is written, and what will come of the rest, is the minified text `m`. */
  ghost predicate Progress(json: array<byte>, s: Bytes, pos: nat, into: nat, m: Option<Bytes>)
    reads json
  {
    Working(json, s, pos, into) && 0 !in s && m == Onto(json[..into], Minified(s[pos..]))
  }

  // The branches of the loop.

  method TakeBlank(json: array<byte>, start: nat, ghost into: nat, ghost s: Bytes, ghost m: Option<Bytes>) returns (pos: nat)
    requires Progress(json, s, start, into, m) && start < |s| && Blank(s[start])
    ensures pos == start + 1 && Progress(json, s, pos, into, m)
  {
    assert s[start..][1..] == s[start + 1..];
    pos := start + 1;
  }

  method TakeComment(json: array<byte>, start: nat, ghost into: nat, ghost s: Bytes, ghost m: Option<Bytes>)
    returns (pos: nat, past: bool)
    requires Progress(json, s, start, into, m) && start + 1 < |s| && s[start] == SLASH
    requires s[start + 1] == SLASH || s[start + 1] == STAR
    ensures past ==> m.None?
    ensures !past ==> start < pos && Progress(json, s, pos, into, m)
  {
    if json[start + 1] == SLASH {
      past := false;
      pos := LineComment(json, start, s, into);
    } else {
      pos, past := BlockComment(json, start, s, into);
    }
  }

  method TakeLiteral(json: array<byte>, start: nat, into0: nat, ghost s: Bytes, ghost m: Option<Bytes>)
    returns (pos: nat, into: nat, past: bool)
    requires Progress(json, s, start, into0, m) && start < |s| && s[start] == QUOTE
    modifies json
    ensures past ==> m.None?
    ensures !past ==> start < pos && Progress(json, s, pos, into, m)
  {
    ghost var done := json[..into0];
    pos, into, past := CopyLiteral(json, start, into0, s);
    if past {
      LiteralOpen(s, start, done, m);
    } else {
      LiteralStep(s, start, pos, done, m);
    }
  }

  method TakeByte(json: array<byte>, start: nat, into0: nat, ghost s: Bytes, ghost m: Option<Bytes>) returns (pos: nat, into: nat)
    requires Progress(json, s, start, into0, m) && start < |s| && !Blank(s[start]) && s[start] != QUOTE
    requires s[start] == SLASH ==> start + 1 == |s| || (s[start + 1] != SLASH && s[start + 1] != STAR)
    modifies json
    ensures pos == start + 1 && Progress(json, s, pos, into, m)
  {
    ByteStep(s, start, json[..into0], m);
    Copy(json, start, into0, s);
    pos, into := start + 1, into0 + 1;
  }

  /** The loop; `past` tells that it would go on behind the terminator. */
  method Minify(json: array<byte>) returns (past: bool)
    requires CText(json[..])
    modifies json
    ensures past <==> Minified(old(json[..json.Length - 1])).None?
    ensures !past ==> CString(json[..]) == Minified(old(json[..json.Length - 1])).value
  {
    ghost var s := json[..json.Length - 1];
    ghost var m := Minified(s);
    var pos: nat, into: nat := 0, 0;
    assert s[0..] == s;
    OntoNothing(m);
    while json[pos] != 0
      invariant Progress(json, s, pos, into, m)
      decreases |s| - pos
    {
      if Blank(json[pos]) {
        pos := TakeBlank(json, pos, into, s, m);
      } else if json[pos] == SLASH && (json[pos + 1] == SLASH || json[pos + 1] == STAR) {
        pos, past := TakeComment(json, pos, into, s, m);
        if past {
          return;
        }
      } else if json[pos] == QUOTE {
        pos, into, past := TakeLiteral(json, pos, into, s, m);
        if past {
          return;
        }
      } else {
        pos, into := TakeByte(json, pos, into, s, m);
      }
    }
    AtTerminator(json, s, pos, into);
    Finish(json, into, s);
    past := false;
  }

  /** The terminator behind the text that remains. */
  method Finish(json: array<byte>, into: nat, ghost s: Bytes)
    requires into < json.Length && 0 !in s && Minified(s) == Onto(json[..into], Minified([]))
    modifies json
    ensures Minified(s) == Some(CString(json[..]))
  {
    ghost var m := json[..into];
    assert m + [] == m;
    MinifiedNulFree(s);
    json[into] := 0;
    assert json[..into] == m;
    CStringCut(json[..], into);
    CStringWhole(m);
  }

  lemma LiteralOpen(s: Bytes, start: nat, done: Bytes, m: Option<Bytes>)
    requires start < |s| && s[start] == QUOTE && m == Onto(done, Minified(s[start..])) && Close(s, start + 1).None?
    ensures m.None?
  {
    CloseShift(s, start, 1);
  }

  lemma LiteralStep(s: Bytes, start: nat, pos: nat, done: Bytes, m: Option<Bytes>)
    requires start < pos <= |s| && s[start] == QUOTE && m == Onto(done, Minified(s[start..]))
    requires Close(s, start + 1) == Some(pos - 1)
    ensures m == Onto(done + s[start..pos], Minified(s[pos..]))
  {
    CloseShift(s, start, 1);
    Slices(s, start, pos);
    LiteralJoin(s[start..], pos - start, s[start..pos], s[pos..], done, m);
  }

  lemma LiteralJoin(rest: Bytes, n: nat, lit: Bytes, tail: Bytes, done: Bytes, m: Option<Bytes>)
    requires 0 < n <= |rest| && rest[..n] == lit && rest[n..] == tail && rest[0] == QUOTE
    requires Close(rest, 1) == Some(n - 1) && m == Onto(done, Minified(rest))
    ensures m == Onto(done + lit, Minified(tail))
  {
    MinifiedLiteral(rest, n);
    OntoTwice(done, lit, Minified(tail));
  }

  lemma Slices(s: Bytes, a: nat, b: nat)
    requires a <= b <= |s|
    ensures s[a..][..b - a] == s[a..b] && s[a..][b - a..] == s[b..]
  {
  }

  lemma MinifiedLiteral(s: Bytes, n: nat)
    requires 0 < n <= |s| && s[0] == QUOTE && Close(s, 1) == Some(n - 1)
    ensures Minified(s) == Onto(s[..n], Minified(s[n..]))
  {
  }

  lemma ByteStep(s: Bytes, start: nat, done: Bytes, m: Option<Bytes>)
    requires start < |s| && !Blank(s[start]) && s[start] != QUOTE && m == Onto(done, Minified(s[start..]))
    requires s[start] == SLASH ==> start + 1 == |s| || (s[start + 1] != SLASH && s[start + 1] != STAR)
    ensures m == Onto(done + [s[start]], Minified(s[start + 1..]))
  {
    assert s[start..][1..] == s[start + 1..];
    OntoTwice(done, [s[start]], Minified(s[start + 1..]));
  }

  lemma {:induction false} CloseShift(s: Bytes, p: nat, k: nat)
    requires p <= |s|
    ensures Close(s, p + k).None? <==> Close(s[p..], k).None?
    ensures Close(s[p..], k).Some? ==> Close(s, p + k) == Some(p + Close(s[p..], k).value)
    decreases |s| - p - k
  {
    if p + k < |s| && s[p + k] != QUOTE {
      CloseShift(s, p, if s[p + k] == BACKSLASH then k + 2 else k + 1);
    }
  }
}
