/** Bytes, results that may be missing, and byte sequences that arrive in chunks. */
module Octets {

  type byte = x: int | 0 <= x < 256

  datatype Option<T> = None | Some(value: T)

  function Join(chunks: seq<seq<byte>>): seq<byte> {
    if chunks == [] then [] else Join(chunks[..|chunks| - 1]) + chunks[|chunks| - 1]
  }

  lemma JoinNext(chunks: seq<seq<byte>>, i: nat)
    requires i < |chunks|
    ensures Join(chunks[..i + 1]) == Join(chunks[..i]) + chunks[i]
  {
    assert chunks[..i + 1][..i] == chunks[..i];
  }

  lemma {:induction false} JoinPrefix(chunks: seq<seq<byte>>, i: nat)
    requires i <= |chunks|
    ensures Join(chunks[..i]) <= Join(chunks)
    decreases |chunks| - i
  {
    if i == |chunks| {
      assert chunks[..i] == chunks;
    } else {
      JoinPrefix(chunks, i + 1);
      JoinNext(chunks, i);
    }
  }
}
