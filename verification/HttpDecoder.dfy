/**
 `hs_decoder` and the index updates of `hs_io_read`: requests arrive in chunks of any
 size, the decoder resumes where it stopped, and the handler is called when the body
 is complete.
 */
module HttpDecoder {
  import opened Octets
  import opened ByteText
  import opened HttpRequest

  /** A call of the content handler: the size it is given and what the pointer points to. */
  datatype Call = Call(size: int, data: Bytes)

  class Channel {
    const buffer: array<byte>
    var readIndex: nat
    var processingNow: int
    var decodeIndex: nat
    var isLine: bool
    var isHead: bool
    var isBody: bool
    var isKey: bool
    var isReadDone: bool
    var isContentLength: bool
    var bodySize: int
    var keyStart: int
    var valueStart: int
    var bodyStart: int
    var calls: seq<Call>

    /** `hs_init_channel`. */
    constructor (buffer: array<byte>)
      ensures this.buffer == buffer && readIndex == 0 && decodeIndex == 0 && processingNow == -1
      ensures Matches(START, 0) && isBody && !isReadDone && calls == []
    {
      this.buffer, readIndex, processingNow, decodeIndex := buffer, 0, -1, 0;
      isLine, isHead, isBody, isKey, isReadDone, isContentLength := true, true, true, true, false, false;
      bodySize, keyStart, valueStart, bodyStart, calls := 0, -1, -1, 0, [];
    }

    /** The flags and indices say where the scanner is at `pos`. */
    ghost predicate Matches(s: Scan, pos: nat)
      reads this`isLine, this`isHead, this`isKey, this`isContentLength, this`bodySize, this`keyStart, this`valueStart, this`bodyStart, buffer
    {
      && pos <= buffer.Length
      && isLine == (s.zone == Line) && isHead == (s.zone != Body) && isKey == (s.zone != Value)
      && isContentLength == s.flag && bodySize == s.size
      && (s.zone == Key ==> 0 <= keyStart && keyStart + |s.acc| == pos && buffer[keyStart..pos] == s.acc)
      && (s.zone == Value && s.flag ==> 0 <= valueStart && valueStart + |s.acc| == pos && buffer[valueStart..pos] == s.acc)
      && (s.zone == Body ==> bodyStart == s.count)
    }

    /** `hs_content_handler_thread`. */
    method CallHandler()
      requires 0 <= processingNow + 1 < buffer.Length
      modifies this`calls, buffer
      ensures forall k :: 0 <= k < buffer.Length && k != processingNow + 1 ==> buffer[k] == old(buffer[k])
      ensures buffer[processingNow + 1] == 0
      ensures calls == old(calls) + [Call(bodySize, if 0 <= bodyStart <= buffer.Length then buffer[bodyStart..] else [])]
    {
      buffer[processingNow + 1] := 0;
      calls := calls + [Call(bodySize, if 0 <= bodyStart <= buffer.Length then buffer[bodyStart..] else [])];
    }

    /** `hs_tolower` on the string that starts at `at`. */
    method LowerString(at: nat)
      requires at <= buffer.Length
      modifies buffer
      ensures var n := |CString(old(buffer[at..]))|;
        && at + n <= buffer.Length && buffer[at..at + n] == Lower(CString(old(buffer[at..])))
        && forall k :: 0 <= k < buffer.Length && !(at <= k < at + n) ==> buffer[k] == old(buffer[k])
    {
      ghost var s := CString(buffer[at..]);
      CStringPrefix(buffer[at..]);
      var n := |CString(buffer[at..])|;
      ghost var before := buffer[at..];
      for i := 0 to n
        invariant forall k :: 0 <= k < i ==> buffer[at + k] == ToLower(s[k])
        invariant forall k :: i <= k < n ==> buffer[at + k] == s[k]
        invariant forall k :: 0 <= k < buffer.Length && !(at <= k < at + n) ==> buffer[k] == old(buffer[k])
      {
        buffer[at + i] := ToLower(buffer[at + i]);
      }
    }

    /** What has been received behind the byte being decoded stays as it is. */
    twostate predicate RestKept()
      reads this, buffer
    {
      forall k :: decodeIndex < k <= processingNow && k < buffer.Length ==> buffer[k] == old(buffer[k])
    }

    /** A byte of the request line.  Its end puts a NUL at index 3, whatever stands there. */
    method DecodeLine(c: byte, ghost s: Scan)
      requires s.zone == Line && Matches(s, decodeIndex) && decodeIndex < buffer.Length && buffer[decodeIndex] == c
      requires decodeIndex <= processingNow < buffer.Length - 1 && 3 < buffer.Length
      modifies this`isLine, this`keyStart, this`calls, buffer
      ensures Matches(Step(s, c), decodeIndex + 1)
      ensures c != CR ==> buffer[..] == old(buffer[..])
      ensures c == CR && decodeIndex < 3 ==> buffer[3] == 0 && calls == old(calls)
      ensures c == CR && decodeIndex < 3 ==>
        forall k :: decodeIndex < k < buffer.Length && k != 3 ==> buffer[k] == old(buffer[k])
      ensures c != CR || decodeIndex >= 3 ==> RestKept()
      ensures |calls| == |old(calls)| + if c == CR && decodeIndex >= 3 && old(buffer[..3]) == GET then 1 else 0
      ensures c != CR || old(buffer[..3]) != GET ==> calls == old(calls)
    {
      if c == CR {
        buffer[decodeIndex] := 0;
        buffer[3] := 0;
        var name := CString(buffer[..]);
        IsGet(buffer[..]);
        assert decodeIndex < 3 ==> buffer[..][..3][decodeIndex] == 0 && GET[decodeIndex] != 0;
        assert decodeIndex >= 3 ==> buffer[..][..3] == old(buffer[..3]);
        if name == GET {
          CallHandler();
        }
        return;
      }
      if c == LF {
        isLine := false;
        keyStart := decodeIndex + 1;
      }
    }

    /** A byte of a header field's name. */
    method DecodeKey(c: byte, ghost s: Scan)
      requires s.zone == Key && Matches(s, decodeIndex) && decodeIndex < buffer.Length && buffer[decodeIndex] == c
      modifies this`isKey, this`isHead, this`valueStart, this`bodyStart, this`isContentLength, buffer
      requires s.count == decodeIndex
      ensures Matches(Step(s, c), decodeIndex + 1) && RestKept()
    {
      if c == COLON {
        isKey := false;
        buffer[decodeIndex] := 0;
        valueStart := decodeIndex + 1;
        var length := LowerKey(s);
        if length {
          isContentLength := true;
        }
        return;
      }
      if c == CR {
        return;
      }
      if c == LF {
        isHead := false;
        bodyStart := decodeIndex + 1;
      }
    }

    /** Is the name, now with a terminator behind it, that of the length? */
    method LowerKey(ghost s: Scan) returns (length: bool)
      requires 0 <= keyStart && keyStart + |s.acc| == decodeIndex < buffer.Length
      requires buffer[keyStart..decodeIndex] == s.acc && buffer[decodeIndex] == 0
      modifies buffer
      ensures length == IsLength(s.acc) && RestKept()
    {
      ghost var tail := buffer[keyStart..];
      CStringCut(tail, |s.acc|);
      CStringPrefix(s.acc);
      assert tail[..|s.acc|] == s.acc;
      ghost var name := CString(s.acc);
      assert CString(tail) == name && tail[|name|] == 0;
      LowerString(keyStart);
      ghost var now := buffer[keyStart..];
      assert now[..|name|] == Lower(name) && now[|name|] == tail[|name|];
      CStringCut(now, |name|);
      LowerNulFree(name);
      CStringWhole(Lower(name));
      length := CString(buffer[keyStart..]) == CONTENT_LENGTH;
    }

    /** A byte of a header field's value. */
    method DecodeValue(c: byte, ghost s: Scan)
      requires s.zone == Value && Matches(s, decodeIndex) && decodeIndex < buffer.Length && buffer[decodeIndex] == c
      modifies this`isKey, this`keyStart, this`isContentLength, this`bodySize, buffer
      ensures Matches(Step(s, c), decodeIndex + 1) && RestKept()
    {
      if c == CR {
        if isContentLength {
          isContentLength := false;
          buffer[decodeIndex] := 0;
          ghost var tail := buffer[valueStart..];
          CStringCut(tail, |s.acc|);
          assert tail[..|s.acc|] == s.acc;
          bodySize := Atoi(CString(buffer[valueStart..]));
        }
        return;
      }
      if c == LF {
        isKey := true;
        keyStart := decodeIndex + 1;
      }
    }

    /** `e` bytes of the request have been received, and `d` of them decoded. */
    ghost predicate Tracks(p: Plan, d: nat, e: nat)
      reads this`isLine, this`isHead, this`isKey, this`isContentLength, this`bodySize, this`keyStart, this`valueStart, this`bodyStart, buffer,
        this`processingNow, this`readIndex, this`isBody, this`isReadDone, this`calls
    {
      && GoodPlan(p) && d <= e <= |p.text| < buffer.Length && processingNow == e - 1 && readIndex == e
      && (forall k :: d <= k < e ==> buffer[k] == p.text[k])
      && isBody && !isReadDone && calls == []
      && (d <= p.head ==> Matches(After(p.text, d), d))
      && (d <= p.line ==> forall k :: 0 <= k < d ==> buffer[k] == p.text[k])
      && (d > p.head ==> InBody(p) && forall k :: p.head <= k < e ==> buffer[k] == p.text[k])
    }

    ghost predicate InBody(p: Plan)
      reads this`isLine, this`isHead, this`bodyStart, this`bodySize
    {
      !isLine && !isHead && bodyStart == p.head && bodySize == |p.text| - p.head
    }

    /** The whole request is there. */
    ghost predicate Full(p: Plan)
      reads this`isLine, this`isHead, this`bodyStart, this`bodySize, this`processingNow, this`readIndex, this`isReadDone, this`calls, buffer
    {
      && p.head <= |p.text| < buffer.Length && processingNow == |p.text| - 1 && readIndex == |p.text|
      && isReadDone && calls == [] && InBody(p)
      && forall k :: p.head <= k < |p.text| ==> buffer[k] == p.text[k]
    }

    /** The handler has been called, once, with the body. */
    ghost predicate Answered(p: Plan)
      reads this
    {
      && p.head <= |p.text| && |calls| == 1 && isReadDone && readIndex == |p.text|
      && var body := p.text[p.head..];
        calls[0].size == |body| < |calls[0].data| && calls[0].data[..|body|] == body && calls[0].data[|body|] == 0
    }

    /** A byte of the head, by what it is part of. */
    method LineByte(ghost p: Plan, d: nat, ghost e: nat)
      requires decodeIndex == d && Tracks(p, d, e) && d < e && d < p.head && isLine
      modifies this`isLine, this`keyStart, this`calls, buffer
      ensures Tracks(p, d + 1, e)
    {
      AfterNext(p.text, d);
      assert d <= p.line + 1;
      var c := buffer[d];
      if c == CR {
        assert d == p.line;
        assert buffer[..3] == p.text[..3];
      }
      DecodeLine(c, After(p.text, d));
    }

    method KeyByte(ghost p: Plan, d: nat, ghost e: nat)
      requires decodeIndex == d && Tracks(p, d, e) && d < e && d < p.head && !isLine && isKey
      modifies this`isKey, this`isHead, this`valueStart, this`bodyStart, this`isContentLength, buffer
      ensures Tracks(p, d + 1, e)
    {
      AfterNext(p.text, d);
      DecodeKey(buffer[d], After(p.text, d));
    }

    method ValueByte(ghost p: Plan, d: nat, ghost e: nat)
      requires decodeIndex == d && Tracks(p, d, e) && d < e && d < p.head && !isLine && !isKey
      modifies this`isKey, this`keyStart, this`isContentLength, this`bodySize, buffer
      ensures Tracks(p, d + 1, e)
    {
      AfterNext(p.text, d);
      DecodeValue(buffer[d], After(p.text, d));
    }

    method DecodeHead(ghost p: Plan, d: nat, ghost e: nat)
      requires decodeIndex == d && Tracks(p, d, e) && d < e && d < p.head
      modifies this`isLine, this`keyStart, this`calls, this`isKey, this`isHead, this`valueStart, this`bodyStart,
        this`isContentLength, this`bodySize, buffer
      ensures Tracks(p, d + 1, e)
    {
      if isLine {
        LineByte(p, d, e);
      } else if isKey {
        KeyByte(p, d, e);
      } else {
        ValueByte(p, d, e);
      }
    }

    /** Bytes of the body. */
    method DecodeBody(ghost p: Plan, ghost e: nat)
      requires Tracks(p, decodeIndex, e) && p.head <= decodeIndex < e
      modifies this`decodeIndex, this`isBody, this`isReadDone
      ensures decodeIndex == e - 1
      ensures e == |p.text| ==> Full(p)
      ensures e < |p.text| ==> Tracks(p, e, e)
    {
      decodeIndex := processingNow;
      if processingNow - bodyStart + 1 == bodySize {
        isBody := false;
        isReadDone := true;
      }
    }

    /** One round of the loop in `hs_decoder`, in the head and in the body. */
    method NextInHead(ghost p: Plan, d: nat, ghost e: nat)
      requires decodeIndex == d && Tracks(p, d, e) && d < e && d < p.head
      modifies this, buffer
      ensures decodeIndex == d + 1 && Tracks(p, d + 1, e)
    {
      DecodeHead(p, d, e);
      decodeIndex := decodeIndex + 1;
    }

    method NextInBody(ghost p: Plan, ghost e: nat)
      requires Tracks(p, decodeIndex, e) && p.head <= decodeIndex < e
      modifies this`decodeIndex, this`isBody, this`isReadDone
      ensures decodeIndex == e
      ensures e == |p.text| ==> Full(p)
      ensures e < |p.text| ==> Tracks(p, e, e)
    {
      DecodeBody(p, e);
      decodeIndex := decodeIndex + 1;
    }

    method DecodeNext(ghost p: Plan, ghost e: nat)
      requires Tracks(p, decodeIndex, e) && decodeIndex < e
      modifies this, buffer
      ensures old(decodeIndex) < decodeIndex <= e && processingNow == e - 1 && Progress(p, e)
    {
      InHead(p, decodeIndex, e);
      if isLine || isHead {
        NextInHead(p, decodeIndex, e);
      } else if isBody {
        NextInBody(p, e);
      }
    }

    ghost predicate Progress(p: Plan, e: nat)
      reads this, buffer
    {
      if isReadDone then e == |p.text| && decodeIndex == e && Full(p)
      else Tracks(p, decodeIndex, e) && (decodeIndex == e ==> e < |p.text|)
    }

    /** `hs_decoder`. */
    method Decode(ghost p: Plan, ghost e: nat)
      requires Tracks(p, decodeIndex, e) && (decodeIndex == e ==> e < |p.text|)
      modifies this, buffer
      ensures e < |p.text| ==> Tracks(p, e, e) && decodeIndex == e
      ensures e == |p.text| ==> Answered(p)
    {
      while decodeIndex <= processingNow
        invariant processingNow == e - 1 && decodeIndex <= e && Progress(p, e)
        decreases e - decodeIndex
      {
        DecodeNext(p, e);
      }
      if isReadDone {
        Answer(p);
      }
    }

    method Answer(ghost p: Plan)
      requires Full(p)
      modifies this`calls, buffer
      ensures Answered(p)
    {
      CallHandler();
      ghost var n := |p.text| - p.head;
      ghost var data, body := buffer[p.head..], p.text[p.head..];
      assert data[n] == buffer[p.head + n] == 0;
      assert data[..n] == body;
    }

    /** `hs_io_read`: the next part of the request is received and decoded. */
    method IoRead(chunk: Bytes, ghost p: Plan)
      requires Tracks(p, readIndex, readIndex) && decodeIndex == readIndex < |p.text|
      requires readIndex + |chunk| <= |p.text| && p.text[readIndex..readIndex + |chunk|] == chunk
      modifies this, buffer
      ensures readIndex == old(readIndex) + |chunk|
      ensures readIndex < |p.text| ==> Tracks(p, readIndex, readIndex) && decodeIndex == readIndex
      ensures readIndex == |p.text| ==> Answered(p)
    {
      Fill(chunk, p);
      Decode(p, readIndex);
    }

    method Fill(chunk: Bytes, ghost p: Plan)
      requires Tracks(p, readIndex, readIndex) && readIndex + |chunk| <= |p.text|
      requires p.text[readIndex..readIndex + |chunk|] == chunk
      modifies this`readIndex, this`isReadDone, this`processingNow, buffer
      ensures readIndex == old(readIndex) + |chunk| && Tracks(p, old(readIndex), readIndex)
    {
      ghost var n := readIndex;
      assert forall k :: n <= k < n + |chunk| ==> chunk[k - n] == p.text[k];
      Receive(chunk);
      if n <= p.head {
        ghost var s := After(p.text, n);
        assert s.zone == Key ==> buffer[keyStart..n] == old(buffer[keyStart..n]);
        assert s.zone == Value && s.flag ==> buffer[valueStart..n] == old(buffer[valueStart..n]);
      }
      readIndex := readIndex + |chunk|;
      isReadDone := isReadDone || readIndex >= buffer.Length;
      processingNow := readIndex - 1;
    }

    /** `recv`. */
    method Receive(chunk: Bytes)
      requires readIndex + |chunk| <= buffer.Length
      modifies buffer
      ensures forall k :: 0 <= k < readIndex ==> buffer[k] == old(buffer[k])
      ensures forall k :: readIndex <= k < readIndex + |chunk| ==> buffer[k] == chunk[k - readIndex]
    {
      for i := 0 to |chunk|
        invariant forall k :: 0 <= k < readIndex ==> buffer[k] == old(buffer[k])
        invariant forall k :: readIndex <= k < readIndex + i ==> buffer[k] == chunk[k - readIndex]
      {
        buffer[readIndex + i] := chunk[i];
      }
    }

    /** Head or body, as the flags tell. */
    lemma InHead(p: Plan, d: nat, e: nat)
      requires Tracks(p, d, e) && d < e
      ensures (isLine || isHead) == (d < p.head)
    {
      if d < p.head { assert After(p.text, d).zone != Body; }
    }
  }

  // ----- what is to come -----

  /** The text of a request, and where its line and its head end. */
  datatype Plan = Plan(text: Bytes, line: nat, head: nat)

  ghost function After(t: Bytes, d: nat): Scan
    requires d <= |t|
  {
    Run(START, t[..d])
  }

  lemma AfterNext(t: Bytes, d: nat)
    requires d < |t|
    ensures After(t, d + 1) == Step(After(t, d), t[d])
  {
    assert t[..d + 1][..d] == t[..d];
  }

  ghost predicate GoodPlan(p: Plan) {
    && 3 <= p.line && p.line + 2 <= p.head < |p.text| && p.text[..3] != GET
    && (forall k :: 0 <= k < p.line ==> p.text[k] != CR && p.text[k] != LF)
    && p.text[p.line] == CR && p.text[p.line + 1] == LF
    && (forall d {:trigger After(p.text, d)} :: 0 <= d < p.head ==>
          After(p.text, d).zone != Body && After(p.text, d).count == d && (After(p.text, d).zone == Line <==> d <= p.line + 1))
    && After(p.text, p.head) == Scan(Body, false, [], |p.text| - p.head, p.head)
  }

  ghost function PlanOf(r: Request): Plan { Plan(RequestText(r), |r.line|, |HeadText(r)|) }

  lemma {:induction false} NeverLine(s: Scan, t: Bytes)
    requires s.zone != Line
    ensures Run(s, t).zone != Line
    decreases |t|
  {
    if t != [] { NeverLine(s, t[..|t| - 1]); }
  }

  lemma {:induction false} LineOnly(r: Request, d: nat)
    requires GoodRequest(r) && d < |HeadText(r)|
    ensures After(RequestText(r), d).zone == Line <==> d <= |r.line| + 1
  {
    var t, n := RequestText(r), |r.line|;
    if d <= n {
      RunLine(r.line[..d], 0);
      assert t[..d] == r.line[..d];
    } else if d == n + 1 {
      RunLine(r.line, 0);
      RunOne(Scan(Line, false, [], 0, n), CR);
      RunThen(START, r.line, Scan(Line, false, [], 0, n), [CR], Scan(Line, false, [], 0, n + 1));
      assert t[..d] == r.line + [CR];
    } else {
      RunLine(r.line, 0);
      LineEnd(n);
      RunThen(START, r.line, Scan(Line, false, [], 0, n), CRLF, Scan(Key, false, [], 0, n + 2));
      assert t[..d] == r.line + CRLF + t[n + 2..d];
      RunJoin(START, r.line + CRLF, t[n + 2..d]);
      NeverLine(Scan(Key, false, [], 0, n + 2), t[n + 2..d]);
    }
  }

  lemma InsideHead(r: Request, d: nat)
    requires GoodRequest(r) && d < |HeadText(r)|
    ensures After(RequestText(r), d).zone != Body && After(RequestText(r), d).count == d
  {
    HeadNotOver(r, d);
    assert RequestText(r)[..d] == HeadText(r)[..d];
    CountBelow(RequestText(r)[..d]);
  }

  /** Every well-formed request can be followed. */
  lemma PlanGood(r: Request)
    requires GoodRequest(r)
    ensures GoodPlan(PlanOf(r)) && RequestText(r)[|HeadText(r)|..] == r.body
  {
    var t, h, n := RequestText(r), |HeadText(r)|, |r.line|;
    HeadScanned(r);
    assert t[..h] == HeadText(r) && t[h..] == r.body;
    LineText(r);
    forall d | 0 <= d < h
      ensures After(t, d).zone != Body && After(t, d).count == d && (After(t, d).zone == Line <==> d <= n + 1)
    {
      InsideHead(r, d);
      LineOnly(r, d);
    }
  }

  lemma LineText(r: Request)
    requires GoodRequest(r)
    ensures var t, n := RequestText(r), |r.line|;
      && n + 2 <= |HeadText(r)| && t[..3] != GET && t[n] == CR && t[n + 1] == LF
      && forall k :: 0 <= k < n ==> t[k] != CR && t[k] != LF
  {
    var t, n := RequestText(r), |r.line|;
    assert forall k :: 0 <= k < n ==> t[k] == r.line[k];
    assert t[..3] == r.line[..3];
  }

  // ----- whole requests -----

  lemma ChunkAt(chunks: seq<Bytes>, i: nat, t: Bytes)
    requires i < |chunks| && t == Join(chunks)
    ensures var n := |Join(chunks[..i])|;
      n + |chunks[i]| == |Join(chunks[..i + 1])| <= |t| && t[n..n + |chunks[i]|] == chunks[i]
  {
    JoinNext(chunks, i);
    JoinPrefix(chunks, i + 1);
    var a, b := Join(chunks[..i]), Join(chunks[..i + 1]);
    assert t[..|b|] == b && b[|a|..] == chunks[i];
    assert t[|a|..|b|] == t[..|b|][|a|..];
  }

  /** However a request is cut into chunks, the handler is called once, with exactly its
      body, and by the chunk that completes it; the connection is not read from again. */
  method Serve(buffer: array<byte>, chunks: seq<Bytes>, ghost r: Request) returns (calls: seq<Call>, last: nat)
    requires GoodRequest(r) && |RequestText(r)| < buffer.Length && Join(chunks) == RequestText(r)
    modifies buffer
    ensures last < |chunks| && Join(chunks[..last + 1]) == RequestText(r) && |Join(chunks[..last])| < |RequestText(r)|
    ensures |calls| == 1 && calls[0].size == |r.body| < |calls[0].data|
    ensures calls[0].data[..|r.body|] == r.body && calls[0].data[|r.body|] == 0
  {
    ghost var p := PlanOf(r);
    PlanGood(r);
    var channel := new Channel(buffer);
    assert p.text[..0] == [];
    last := Connection(channel, chunks, p);
    JoinPrefix(chunks, last + 1);
    calls := channel.calls;
  }

  /** Reading until the request is complete. */
  method Connection(channel: Channel, chunks: seq<Bytes>, ghost p: Plan) returns (last: nat)
    requires channel.readIndex == channel.decodeIndex == 0 && channel.Tracks(p, 0, 0) && Join(chunks) == p.text
    modifies channel, channel.buffer
    ensures last < |chunks| && channel.Answered(p)
    ensures |Join(chunks[..last + 1])| == |p.text| && |Join(chunks[..last])| < |p.text|
  {
    last := 0;
    assert chunks[..0] == [];
    while last < |chunks|
      invariant last <= |chunks| && channel.readIndex == |Join(chunks[..last])| < |p.text|
      invariant last == |chunks| ==> chunks[..last] == chunks
      invariant channel.decodeIndex == channel.readIndex && channel.Tracks(p, channel.readIndex, channel.readIndex)
    {
      ChunkAt(chunks, last, p.text);
      channel.IoRead(chunks[last], p);
      if channel.isReadDone {
        return;
      }
      last := last + 1;
    }
    assert false;
  }

  lemma IsGet(b: Bytes)
    requires |b| > 3 && b[3] == 0
    ensures CString(b) == GET <==> b[..3] == GET
  {
    CStringCut(b, 3);
    CStringPrefix(b[..3]);
    if b[..3] == GET { CStringWhole(GET); }
  }

  lemma LowerNulFree(s: Bytes)
    requires 0 !in s
    ensures 0 !in Lower(s)
  {
    forall k | 0 <= k < |s| ensures Lower(s)[k] != 0 { assert s[k] in s; }
  }

  lemma {:induction false} CStringPrefix(s: Bytes)
    ensures |CString(s)| <= |s| && CString(s) == s[..|CString(s)|]
    ensures |CString(s)| < |s| ==> s[|CString(s)|] == 0
  {
    if s != [] && s[0] != 0 {
      CStringPrefix(s[1..]);
      var n := |CString(s[1..])|;
      assert s[..n + 1] == [s[0]] + s[1..][..n];
    }
  }
}
