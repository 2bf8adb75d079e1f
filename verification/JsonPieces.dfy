/**
 What `cJSON_Minify` takes a text apart into, and so when it stays inside the text: it
 does exactly if every literal and every comment that it meets is finished.
 */
module JsonPieces {
  import opened Octets
  import opened ByteText
  import opened JsonString
  import opened JsonParse
  import opened JsonMinify

  datatype Piece =
    | Gap(b: byte)
    | LineComment(t: Bytes)
    | BlockComment(t: Bytes)
    | Literal(t: Bytes)
    | Other(b: byte)

  function PieceText(p: Piece): Bytes {
    match p
    case Gap(b) => [b]
    case LineComment(t) => t
    case BlockComment(t) => t
    case Literal(t) => t
    case Other(b) => [b]
  }

  /** `*` and `/` side by side. */
  predicate EndsAt(t: Bytes, k: nat) { k + 1 < |t| && t[k] == 42 && t[k + 1] == 47 }

  /** Up to the first end behind the opening slash; "/" "*" "/" is a whole comment. */
  ghost predicate FinishedComment(t: Bytes) {
    && |t| >= 3 && t[0] == 47 && t[1] == 42 && EndsAt(t, |t| - 2)
    && forall k: nat {:trigger EndsAt(t, k)} :: 1 <= k < |t| - 2 ==> !EndsAt(t, k)
  }

  predicate StartsComment(s: Bytes) { |s| >= 2 && s[0] == 47 && s[1] == 42 }

  /** A piece in front of `rest`. */
  ghost predicate GoodPiece(p: Piece, rest: Bytes) {
    match p
    case Gap(b) => b == 32 || b == 9 || b == 13 || b == 10
    case LineComment(t) => |t| >= 2 && t[0] == t[1] == 47 && 10 !in t && (rest == [] || rest[0] == 10)
    case BlockComment(t) => FinishedComment(t)
    case Literal(t) => IsLiteral(t)
    case Other(b) =>
      b !in [32, 9, 13, 10, 34] && (b == 47 ==> rest == [] || (rest[0] != 47 && rest[0] != 42))
  }

  function PiecesText(ps: seq<Piece>, tail: Bytes): Bytes {
    if ps == [] then tail else PieceText(ps[0]) + PiecesText(ps[1..], tail)
  }

  ghost predicate GoodPieces(ps: seq<Piece>, tail: Bytes) {
    ps == [] || (GoodPiece(ps[0], PiecesText(ps[1..], tail)) && GoodPieces(ps[1..], tail))
  }

  /** Blanks and comments go. */
  function KeptText(ps: seq<Piece>): Bytes {
    if ps == [] then []
    else (if ps[0].Literal? || ps[0].Other? then PieceText(ps[0]) else []) + KeptText(ps[1..])
  }

  /** A literal or a comment without an end. */
  ghost predicate Unfinished(s: Bytes) {
    || (s != [] && s[0] == QUOTE && forall n: nat {:trigger s[..n]} :: n <= |s| ==> !IsLiteral(s[..n]))
    || (StartsComment(s) && forall k: nat {:trigger EndsAt(s, k)} :: 1 <= k ==> !EndsAt(s, k))
  }

  // ----- comments -----

  lemma {:induction false} LineSkipped(t: Bytes, rest: Bytes)
    requires LF !in t && (rest == [] || rest[0] == LF)
    ensures SkipLine(t + rest) == rest
    decreases |t|
  {
    if t == [] {
      assert t + rest == rest;
    } else {
      assert t[0] in t && (t + rest)[1..] == t[1..] + rest;
      LineSkipped(t[1..], rest);
    }
  }

  lemma {:induction false} LineCut(s: Bytes) returns (t: Bytes)
    ensures s == t + SkipLine(s) && LF !in t && (SkipLine(s) == [] || SkipLine(s)[0] == LF)
  {
    if s == [] || s[0] == LF {
      t := [];
    } else {
      var u := LineCut(s[1..]);
      t := [s[0]] + u;
      assert s == [s[0]] + s[1..];
    }
  }

  /** The scan for the end from `k` on finds the first one. */
  lemma {:induction false} BlockSkipped(s: Bytes, k: nat, e: nat)
    requires k <= e && EndsAt(s, e) && forall j: nat {:trigger EndsAt(s, j)} :: k <= j < e ==> !EndsAt(s, j)
    ensures SkipBlock(s[k..]) == Some(s[e + 2..])
    decreases e - k
  {
    var u := s[k..];
    assert u[0] == s[k] && u[1] == s[k + 1];
    if k == e {
      assert u[2..] == s[e + 2..];
    } else {
      assert !EndsAt(s, k);
      assert u[1..] == s[k + 1..];
      BlockSkipped(s, k + 1, e);
    }
  }

  lemma {:induction false} BlockEnd(s: Bytes, k: nat) returns (e: nat)
    requires k <= |s| && SkipBlock(s[k..]).Some?
    ensures k <= e && EndsAt(s, e) && forall j: nat {:trigger EndsAt(s, j)} :: k <= j < e ==> !EndsAt(s, j)
    ensures SkipBlock(s[k..]).value == s[e + 2..]
    decreases |s| - k
  {
    var u := s[k..];
    assert u[0] == s[k] && (|u| > 1 ==> u[1] == s[k + 1]);
    if EndsAt(s, k) {
      e := k;
      assert u[2..] == s[k + 2..];
    } else {
      assert u[1..] == s[k + 1..];
      e := BlockEnd(s, k + 1);
    }
  }

  lemma {:induction false} BlockOpen(s: Bytes, k: nat)
    requires k <= |s| && SkipBlock(s[k..]).None?
    ensures forall j: nat {:trigger EndsAt(s, j)} :: k <= j ==> !EndsAt(s, j)
    decreases |s| - k
  {
    if k < |s| {
      var u := s[k..];
      assert u[0] == s[k] && (|u| > 1 ==> u[1] == s[k + 1]);
      assert u[1..] == s[k + 1..];
      BlockOpen(s, k + 1);
    }
  }

  /** The opening slash is no end, so the scan may as well start behind it. */
  lemma FromStar(s: Bytes)
    requires StartsComment(s)
    ensures SkipBlock(s) == SkipBlock(s[1..])
  {
  }

  // ----- one piece -----

  lemma CommentSkipped(t: Bytes, rest: Bytes)
    requires FinishedComment(t)
    ensures SkipBlock(t + rest) == Some(rest)
  {
    var s, e := t + rest, |t| - 2;
    FromStar(s);
    assert EndsAt(s, e);
    forall j: nat {:trigger EndsAt(s, j)} | 1 <= j < e ensures !EndsAt(s, j) {
      assert !EndsAt(t, j);
    }
    BlockSkipped(s, 1, e);
    assert s[e + 2..] == rest;
  }

  lemma PieceMinified(p: Piece, rest: Bytes)
    requires GoodPiece(p, rest)
    ensures Minified(PieceText(p) + rest) ==
      if p.Literal? || p.Other? then Onto(PieceText(p), Minified(rest)) else Minified(rest)
  {
    var s := PieceText(p) + rest;
    match p
    case Gap(b) => assert s[1..] == rest;
    case LineComment(t) => LineSkipped(t, rest);
    case BlockComment(t) => CommentSkipped(t, rest);
    case Literal(t) => MinLiteral(t, rest);
    case Other(b) => assert s[1..] == rest;
  }

  lemma {:induction false} PiecesMinified(ps: seq<Piece>, tail: Bytes)
    requires GoodPieces(ps, tail)
    ensures Minified(PiecesText(ps, tail)) == Onto(KeptText(ps), Minified(tail))
  {
    if ps == [] {
      OntoNothing(Minified(tail));
    } else {
      PieceMinified(ps[0], PiecesText(ps[1..], tail));
      PiecesMinified(ps[1..], tail);
      if ps[0].Literal? || ps[0].Other? {
        OntoTwice(PieceText(ps[0]), KeptText(ps[1..]), Minified(tail));
      } else {
        assert [] + KeptText(ps[1..]) == KeptText(ps[1..]);
      }
    }
  }

  // ----- taking apart -----

  lemma LiteralCut(s: Bytes, e: nat)
    requires s != [] && s[0] == QUOTE && Close(s, 1) == Some(e)
    ensures IsLiteral(s[..e + 1]) && s == s[..e + 1] + s[e + 1..]
  {
    CloseSound(s, 1);
    assert Body(s[..e + 1]) == s[1..e];
  }

  lemma LiteralOpen(s: Bytes)
    requires s != [] && s[0] == QUOTE && Close(s, 1).None?
    ensures Unfinished(s)
  {
    forall n: nat {:trigger s[..n]} | n <= |s| ensures !IsLiteral(s[..n]) {
      if IsLiteral(s[..n]) {
        AtSlice(s, 0, s[..n]);
        BodyAt(s, 0, s[..n]);
        CloseComplete(s, 1, Body(s[..n]));
      }
    }
  }

  lemma CommentCut(s: Bytes) returns (t: Bytes)
    requires StartsComment(s) && SkipBlock(s).Some?
    ensures FinishedComment(t) && s == t + SkipBlock(s).value
  {
    FromStar(s);
    var e := BlockEnd(s, 1);
    t := s[..e + 2];
    assert EndsAt(t, |t| - 2);
    forall k: nat {:trigger EndsAt(t, k)} | 1 <= k < |t| - 2 ensures !EndsAt(t, k) {
      assert !EndsAt(s, k);
    }
  }

  lemma CommentOpen(s: Bytes)
    requires StartsComment(s) && SkipBlock(s).None?
    ensures Unfinished(s)
  {
    FromStar(s);
    BlockOpen(s, 1);
  }

  /** The first piece of a text, unless it is unfinished. */
  lemma FirstPiece(s: Bytes) returns (unfinished: bool, p: Piece, rest: Bytes)
    requires s != []
    ensures unfinished ==> Unfinished(s)
    ensures !unfinished ==> s == PieceText(p) + rest && |rest| < |s| && GoodPiece(p, rest)
  {
    unfinished, p, rest := false, Gap(s[0]), s[1..];
    assert s == [s[0]] + s[1..];
    if Blank(s[0]) {
    } else if |s| > 1 && s[0] == SLASH && s[1] == SLASH {
      var t := LineCut(s);
      p, rest := LineComment(t), SkipLine(s);
    } else if StartsComment(s) {
      if SkipBlock(s).None? {
        CommentOpen(s);
        unfinished := true;
      } else {
        var t := CommentCut(s);
        p, rest := BlockComment(t), SkipBlock(s).value;
      }
    } else if s[0] == QUOTE {
      if Close(s, 1).None? {
        LiteralOpen(s);
        unfinished := true;
      } else {
        var e := Close(s, 1).value;
        LiteralCut(s, e);
        p, rest := Literal(s[..e + 1]), s[e + 1..];
      }
    } else {
      p := Other(s[0]);
    }
  }

  /** Every text is pieces, and then nothing or something unfinished. */
  lemma {:induction false} TakenApart(s: Bytes) returns (ps: seq<Piece>, tail: Bytes)
    ensures s == PiecesText(ps, tail) && GoodPieces(ps, tail) && (tail == [] || Unfinished(tail))
    decreases |s|
  {
    ps, tail := [], s;
    if s != [] {
      var unfinished, p, rest := FirstPiece(s);
      if !unfinished {
        ps, tail := TakenApart(rest);
        ps := [p] + ps;
      }
    }
  }

  /** Something unfinished makes the scan run past the terminator. */
  lemma UnfinishedFails(s: Bytes)
    requires Unfinished(s)
    ensures Minified(s) == None
  {
    if s[0] == QUOTE {
      if Close(s, 1).Some? { LiteralCut(s, Close(s, 1).value); }
    } else {
      FromStar(s);
      if SkipBlock(s).Some? { var e := BlockEnd(s, 1); }
    }
  }

  /** The minifier stays inside a text exactly if the text is a sequence of finished
      pieces, and then it keeps the literals and the other bytes; it runs past the
      terminator exactly if behind some pieces something is unfinished. */
  lemma MinifiedExact(s: Bytes)
    ensures Minified(s).Some? <==> exists ps :: GoodPieces(ps, []) && s == PiecesText(ps, [])
    ensures Minified(s).None? <==> exists ps, tail :: GoodPieces(ps, tail) && s == PiecesText(ps, tail) && Unfinished(tail)
    ensures forall ps :: GoodPieces(ps, []) && s == PiecesText(ps, []) ==> Minified(s) == Some(KeptText(ps))
  {
    var ps, tail := TakenApart(s);
    PiecesMinified(ps, tail);
    if tail != [] { UnfinishedFails(tail); }
    assert GoodPieces(ps, tail) && s == PiecesText(ps, tail);
    forall qs | GoodPieces(qs, []) && s == PiecesText(qs, []) ensures Minified(s) == Some(KeptText(qs)) {
      PiecesMinified(qs, []);
      assert KeptText(qs) + [] == KeptText(qs);
    }
    forall qs, t | GoodPieces(qs, t) && s == PiecesText(qs, t) && Unfinished(t) ensures Minified(s).None? {
      PiecesMinified(qs, t);
      UnfinishedFails(t);
    }
  }

  /** A lone quote, or a lone opening of a comment, is enough. */
  lemma LoneQuote()
    ensures Unfinished([QUOTE]) && Minified([QUOTE]) == None
    ensures Unfinished([SLASH, STAR]) && Minified([SLASH, STAR]) == None
  {
    LiteralOpen([QUOTE]);
    assert [SLASH, STAR][1..] == [STAR] && [STAR][1..] == [];
    CommentOpen([SLASH, STAR]);
  }
}
