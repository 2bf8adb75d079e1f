/**
 The two directions of the agent channel from end to end: the bytes that the
 writer threads put on the wire, cut anywhere, and read by the other side.
 */
module AgentLink {
  import opened Octets
  import opened Frames
  import opened AgentChannel
  import opened AgentWire
  import opened ProviderDecoder

  /** A run in which no request is put over bytes still to send, and no data send meets
      EAGAIN. */
  predicate Faultless(s: State, run: seq<Step>) {
    Init(s) && Possible(s, run) && After(s, run).lost == 0 && After(s, run).faults == 0
  }

  /** The wire is at any time a prefix of the frames of all queued requests. */
  lemma WireIsPrefix(s: State, run: seq<Step>)
    requires Faultless(s, run)
    ensures var z := After(s, run);
      && AllSendable(z.history) && z.head <= |z.history|
      && Stream(z.history[..z.head]) <= z.wire <= Stream(z.history)
  {
    WireIntact(s, run);
    var z := After(s, run);
    var h := z.history;
    assert h == h[..z.head] + h[z.head..];
    StreamCat(h[..z.head], h[z.head..]);
    if z.head < Filled(z) {
      HeadSlot(z);
      assert h[z.head..][0] == h[z.head];
      assert Frame(h[z.head])[..Progress(z)] <= Stream(h[z.head..]);
    }
  }

  /** In every such interleaving, with every pattern of short sends, the wire decodes to
      every dequeued request, and only to queued requests, in the order of the queue. */
  lemma RequestsArrive(s: State, run: seq<Step>)
    requires Faultless(s, run)
    ensures var z := After(s, run);
      z.head <= |z.history| && z.history[..z.head] <= Decode(z.wire).0 <= z.history && !Corrupt(Decode(z.wire).1)
  {
    WireIsPrefix(s, run);
    var z := After(s, run);
    PrefixDecodes(z.history, z.head, z.wire);
  }

  lemma PrefixDecodes(h: seq<Msg>, n: nat, wire: seq<byte>)
    requires AllSendable(h) && n <= |h| && Stream(h[..n]) <= wire <= Stream(h)
    ensures h[..n] <= Decode(wire).0 <= h && !Corrupt(Decode(wire).1)
  {
    NeverCorrupt(h, wire);
    var done := h[..n];
    var rest := wire[|Stream(done)|..];
    assert wire == Stream(done) + rest;
    DecodeStream(done, rest);
  }

  /** From end to end: in every interleaving, with every pattern of short sends, and
      however the wire is cut into reads, the provider's decoder fires every dequeued
      request, and only queued requests, in the order of the queue. */
  method Deliver(ghost s: State, ghost run: seq<Step>, chunks: seq<seq<byte>>) returns (out: seq<Msg>, ok: bool)
    requires Faultless(s, run) && Join(chunks) == After(s, run).wire
    ensures ok
    ensures var z := After(s, run); z.head <= |z.history| && z.history[..z.head] <= out <= z.history
  {
    WireIsPrefix(s, run);
    RequestsArrive(s, run);
    out, ok := ReceiveAll(chunks, After(s, run).history);
  }

  /** The provider's encoder, called once for each response. */
  method EncodeAll(ms: seq<Msg>) returns (wire: seq<byte>)
    requires AllSendable(ms)
    ensures wire == Stream(ms)
  {
    var e := new Encoder();
    wire := [];
    for i := 0 to |ms|
      invariant e.header.Length == HEAD_SIZE && fresh(e.header)
      invariant wire == Stream(ms[..i])
    {
      assert ms[..i + 1] == ms[..i] + [ms[i]];
      StreamCat(ms[..i], [ms[i]]);
      StreamOne(ms[i]);
      wire := e.Encode(ms[i], wire);
    }
    assert ms[..|ms|] == ms;
  }
}
