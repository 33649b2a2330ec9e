/** Frame reading: a frame is whatever arrives up to and including the first
    chunk shorter than ChunkSize. The input stream is a sequence of chunks
    and a position in it; running out of chunks reads as the peer closing. */
module Framing {
  import opened Wire

  /** The bytes of consecutive chunks, in order. */
  function Concat(cs: seq<Chunk>): seq<byte> {
    if cs == [] then [] else cs[0] + Concat(cs[1..])
  }

  /** A chunk that ends the frame: shorter than a full read (empty included). */
  predicate Short(c: Chunk) {
    |c| < ChunkSize
  }

  /** Reading from `pos` yields `data` and leaves the stream at `next`:
      the chunks consumed are exactly chunks[pos..next], all but the last of
      them full, the last one short unless the stream ran out, and `data` is
      their concatenation. */
  ghost predicate IsRead(chunks: seq<Chunk>, pos: nat, data: seq<byte>, next: nat) {
    && pos <= next <= |chunks|
    && data == Concat(chunks[pos..next])
    && (forall j :: pos <= j && j + 1 < next ==> !Short(chunks[j]))
    && (next == pos ==> pos == |chunks|)
    && (pos < next ==> Short(chunks[next - 1]) || next == |chunks|)
  }

  /** The frame read starting at `pos`, and the position after it. */
  function ReadSpec(chunks: seq<Chunk>, pos: nat): (r: (seq<byte>, nat))
    requires pos <= |chunks|
    ensures IsRead(chunks, pos, r.0, r.1)
    decreases |chunks| - pos
  {
    if pos == |chunks| then ([], pos)
    else if |chunks[pos]| == 0 then
      assert chunks[pos..pos + 1] == [chunks[pos]];
      ([], pos + 1)
    else if Short(chunks[pos]) then
      assert chunks[pos..pos + 1] == [chunks[pos]];
      (chunks[pos], pos + 1)
    else
      var rest := ReadSpec(chunks, pos + 1);
      assert chunks[pos..rest.1][0] == chunks[pos];
      assert chunks[pos..rest.1][1..] == chunks[pos + 1..rest.1];
      (chunks[pos] + rest.0, rest.1)
  }

  /** IsRead pins the result down: there is exactly one way to read a frame. */
  lemma ReadIsUnique(chunks: seq<Chunk>, pos: nat, d1: seq<byte>, n1: nat, d2: seq<byte>, n2: nat)
    requires IsRead(chunks, pos, d1, n1) && IsRead(chunks, pos, d2, n2)
    ensures d1 == d2 && n1 == n2
  {
  }

  /** `read_message`: extend a buffer chunk by chunk, stopping after an empty
      or short chunk. */
  method ReadMessage(chunks: seq<Chunk>, pos: nat) returns (data: seq<byte>, next: nat)
    requires pos <= |chunks|
    ensures (data, next) == ReadSpec(chunks, pos)
    ensures IsRead(chunks, pos, data, next)
  {
    var buffer: seq<byte> := [];
    next := pos;
    while true
      invariant pos <= next <= |chunks|
      invariant ReadSpec(chunks, pos).0 == buffer + ReadSpec(chunks, next).0
      invariant ReadSpec(chunks, pos).1 == ReadSpec(chunks, next).1
      decreases |chunks| - next
    {
      if next == |chunks| {
        assert buffer + [] == buffer;
        break;
      }
      var chunk := chunks[next];
      next := next + 1;
      if |chunk| == 0 {
        assert buffer + [] == buffer;
        break;
      }
      buffer := buffer + chunk;
      if |chunk| < ChunkSize {
        break;
      }
    }
    data := buffer;
  }
}
