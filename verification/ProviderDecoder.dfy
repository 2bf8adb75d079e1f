/**
 `ProviderAgentAdvanceDecoder` and `ProviderAgentEncoder`: the provider's side of
 the agent channel.  The decoder keeps its state across reads, so that the
 stream may be cut anywhere.
 */
module ProviderDecoder {
  import opened Octets
  import opened Frames
  import opened FrameCodecs

  /** A complete header whose length field is negative as a Java int. */
  predicate Corrupt(s: seq<byte>) {
    |s| >= HEAD_SIZE && HeadLen(s) >= TWO31
  }

  lemma Cut<T>(h: seq<T>, t: seq<T>, n: nat)
    requires n <= |t|
    ensures (h + t)[|h|..|h| + n] == t[..n] && (h + t)[|h| + n..] == t[n..]
  {
  }

  lemma CutWithin<T>(h: seq<T>, t: seq<T>, i: nat, j: nat)
    requires i <= j <= |h|
    ensures (h + t)[i..j] == h[i..j]
  {
  }

  /** Only the first twelve bytes matter for the header fields. */
  lemma HeadOf(h: seq<byte>, t: seq<byte>)
    requires |h| == HEAD_SIZE
    ensures HeadId(h + t) == HeadId(h) && HeadLen(h + t) == HeadLen(h)
  {
    CutWithin(h, t, 0, 8);
    CutWithin(h, t, 8, 12);
    assert (h + t)[..8] == (h + t)[0..8] && h[..8] == h[0..8];
  }

  /** Header `h` and data so far `d`, with `r` still to read: the next step of decoding. */
  lemma FrameStep(h: seq<byte>, d: seq<byte>, r: seq<byte>)
    requires |h| == HEAD_SIZE && HeadLen(h) < TWO31 && |d| <= HeadLen(h)
    ensures var need := HeadLen(h) - |d|;
      if |r| >= need then
        && Ready(h + d + r) && Head(h + d + r) == Msg(HeadId(h), d + r[..need])
        && Tail(h + d + r) == r[need..]
      else Decode(h + d + r) == ([], h + d + r) && !Corrupt(h + d + r)
  {
    Assoc(h, d, r);
    HeadOf(h, d + r);
    var need := HeadLen(h) - |d|;
    if |r| >= need {
      Cut(h, d + r, HeadLen(h));
      Cut(d, r, need);
      assert (d + r)[..HeadLen(h)] == d + r[..need];
    }
  }

  class Decoder {
    var isHeader: bool
    var decodeIndex: nat
    const header: array<byte>
    var requestId: int
    var dataLength: int
    var data: seq<byte>

    /** The bytes of the current frame that have been read. */
    ghost function Pending(): seq<byte>
      reads this, header
      requires header.Length == HEAD_SIZE && (isHeader ==> decodeIndex <= HEAD_SIZE)
    {
      if isHeader then header[..decodeIndex] else header[..] + data
    }

    ghost predicate Valid()
      reads this, header
    {
      && header.Length == HEAD_SIZE
      && (isHeader ==> decodeIndex < HEAD_SIZE)
      && (!isHeader ==>
            && decodeIndex == HEAD_SIZE + |data| && |data| < dataLength < TWO31
            && requestId == HeadId(header[..]) && dataLength == HeadLen(header[..]))
    }

    constructor ()
      ensures Valid() && fresh(header) && Pending() == []
    {
      isHeader, decodeIndex := true, 0;
      header := new byte[HEAD_SIZE];
      requestId, dataLength, data := 0, 0, [];
    }

    /** The inner loop of `channelRead`. */
    method ReadHeader(input: seq<byte>) returns (rest: seq<byte>)
      requires Valid() && isHeader
      modifies this`decodeIndex, header
      ensures isHeader && decodeIndex <= HEAD_SIZE && Pending() + rest == old(Pending()) + input
      ensures if decodeIndex < HEAD_SIZE then rest == [] else |rest| < |input|
    {
      rest := input;
      while decodeIndex < HEAD_SIZE && rest != []
        invariant decodeIndex <= HEAD_SIZE && |rest| <= |input| && (rest == input ==> decodeIndex < HEAD_SIZE)
        invariant rest == input || |rest| < |input|
        invariant Pending() + rest == old(Pending()) + input
        decreases |rest|
      {
        ghost var p, r := Pending(), rest;
        header[decodeIndex] := rest[0];
        decodeIndex := decodeIndex + 1;
        rest := rest[1..];
        assert Pending() == p + [r[0]] && r == [r[0]] + rest;
      }
    }

    /** The part of `channelRead` after the header: one frame completed, or all input used. */
    method ReadData(input: seq<byte>) returns (rest: seq<byte>, out: seq<Msg>)
      requires header.Length == HEAD_SIZE && !isHeader
      requires decodeIndex == HEAD_SIZE + |data| && |data| <= dataLength < TWO31
      requires requestId == HeadId(header[..]) && dataLength == HeadLen(header[..])
      modifies this
      ensures Valid()
      ensures var s := old(Pending()) + input;
        if out == [] then rest == [] && Pending() == s && Decode(s) == ([], s) && !Corrupt(s)
        else Ready(s) && out == [Head(s)] && rest == Tail(s) && Pending() == []
      ensures |rest| <= |input|
      ensures old(|data| < dataLength) && out != [] ==> |rest| < |input|
    {
      FrameStep(header[..], data, input);
      var needReadLen := dataLength + HEAD_SIZE - decodeIndex;
      if |input| >= needReadLen {
        decodeIndex := decodeIndex + needReadLen;
        data := data + input[..needReadLen];
        rest, out := input[needReadLen..], [Msg(requestId, data)];
        isHeader := true;
        decodeIndex := 0;
      } else {
        decodeIndex := decodeIndex + |input|;
        data := data + input;
        rest, out := [], [];
        Assoc(header[..], old(data), input);
      }
    }

    /** One round of the outer loop of `channelRead`. */
    method ReadFrame(input: seq<byte>) returns (rest: seq<byte>, out: seq<Msg>, ok: bool)
      requires Valid()
      modifies this, header
      ensures var s := old(Pending()) + input;
        if !ok then out == [] && Corrupt(s)
        else if out == [] then Valid() && Pending() == s && Decode(s) == ([], s) && !Corrupt(s)
        else Valid() && Ready(s) && out == [Head(s)] && Pending() + rest == Tail(s) && |rest| < |input|
    {
      rest, out, ok := input, [], true;
      if isHeader {
        rest := ReadHeader(rest);
        if decodeIndex < HEAD_SIZE {
          assert Pending() == Pending() + rest;
          return;
        }
        assert header[..] == Pending();
        HeadOf(header[..], rest);
        assert header[..][0..8] == header[..][..8];
        requestId := JavaBytes2Long(header[..], 0);
        dataLength := JavaBytes2Int(header[..], 8);
        if dataLength < 0 {
          return rest, [], false;
        }
        FromBEBound(header[..][8..12]);
        Powers();
        data := [];
        isHeader := false;
        assert header[..] + data == header[..];
      }
      rest, out := ReadData(rest);
      assert [] + rest == rest;
    }

    /** `channelRead`; `ok` is false when allocating a buffer of negative size throws. */
    method ChannelRead(input: seq<byte>) returns (out: seq<Msg>, ok: bool)
      requires Valid()
      modifies this, header
      ensures out == Decode(old(Pending()) + input).0
      ensures ok <==> !Corrupt(Decode(old(Pending()) + input).1)
      ensures ok ==> Valid() && Pending() == Decode(old(Pending()) + input).1
    {
      var rest := input;
      ghost var all := Pending() + input;
      out, ok := [], true;
      assert [] + Decode(all).0 == Decode(all).0;
      while true
        invariant Valid()
        invariant Decode(all) == (out + Decode(Pending() + rest).0, Decode(Pending() + rest).1)
        decreases |rest|
      {
        var more;
        rest, more, ok := ReadFrame(rest);
        if more == [] {
          assert out + [] == out;
          return;
        }
        Assoc(out, more, Decode(Pending() + rest).0);
        out := out + more;
      }
    }
  }

  // ----- whole streams -----

  /** No prefix of a stream of frames ends in a corrupt header. */
  lemma {:induction false} NeverCorrupt(ms: seq<Msg>, s: seq<byte>)
    requires AllSendable(ms) && s <= Stream(ms)
    ensures !Corrupt(Decode(s).1) && Decode(s).0 <= ms
    ensures s == Stream(ms) ==> Decode(s) == (ms, [])
    decreases |ms|
  {
    if ms == [] {
      assert s == [];
    } else {
      var f, t := Frame(ms[0]), Stream(ms[1..]);
      if |s| < |f| {
        assert s == f[..|s|];
        PrefixNotReady(ms[0], |s|);
        if |s| >= HEAD_SIZE {
          Powers();
          assert s[8..12] == ToBE(4, |ms[0].data|);
          BERoundTrip(4, |ms[0].data|);
        }
      } else {
        var r := s[|f|..];
        assert s == f + r && r <= t;
        FrameHead(ms[0], r);
        NeverCorrupt(ms[1..], r);
        assert s == Stream(ms) ==> r == t;
        assert [ms[0]] + ms[1..] == ms;
      }
    }
  }

  /** However a stream of frames is cut into reads, and wherever it stands, exactly the
      messages received completely have come out, in order. */
  method ReceiveAll(chunks: seq<seq<byte>>, ghost ms: seq<Msg>) returns (out: seq<Msg>, ok: bool)
    requires AllSendable(ms) && Join(chunks) <= Stream(ms)
    ensures ok && out == Decode(Join(chunks)).0 && out <= ms
    ensures Join(chunks) == Stream(ms) ==> out == ms
  {
    var d := new Decoder();
    out, ok := [], true;
    for i := 0 to |chunks|
      invariant ok && d.Valid() && fresh(d) && fresh(d.header)
      invariant (out, d.Pending()) == Decode(Join(chunks[..i]))
    {
      JoinNext(chunks, i);
      JoinPrefix(chunks, i + 1);
      DecodeResume(Join(chunks[..i]), chunks[i]);
      NeverCorrupt(ms, Join(chunks[..i + 1]));
      var more;
      more, ok := d.ChannelRead(chunks[i]);
      out := out + more;
    }
    assert chunks[..|chunks|] == chunks;
    NeverCorrupt(ms, Join(chunks));
  }

  // ----- ProviderAgentEncoder -----

  class Encoder {
    const header: array<byte>

    constructor ()
      ensures header.Length == HEAD_SIZE && fresh(header)
    {
      header := new byte[HEAD_SIZE];
    }

    /** `encode` appends one frame, whatever the reused header array held. */
    method Encode(m: Msg, buffer: seq<byte>) returns (out: seq<byte>)
      requires header.Length == HEAD_SIZE && Sendable(m)
      modifies header
      ensures out == buffer + Frame(m)
    {
      Powers();
      JavaLong2Bytes(m.id, header, 0);
      ghost var id := header[..8];
      JavaInt2Bytes(|m.data|, header, 8);
      assert header[..8] == id == header[0..8];
      assert header[..] == header[..8] + header[8..12];
      out := buffer + header[..];
      out := out + m.data;
      Assoc(buffer, header[..], m.data);
    }
  }
}
