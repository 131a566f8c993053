/** A connection's zlib stream as an abstract, lossless, order-preserving channel of slices. */
module Zlib {
  import opened Bytes

  /** Both ends' codec: a slice depends on everything that went through the same stream before it. */
  datatype Codec = Codec(
    deflate: (seq<seq<byte>>, seq<byte>) -> seq<byte>,
    inflate: (seq<seq<byte>>, seq<byte>) -> Option<seq<byte>>)

  /** The slices a fresh stream makes of a list of plain inputs. */
  function Slices(z: Codec, plains: seq<seq<byte>>): (s: seq<seq<byte>>)
    ensures |s| == |plains|
  {
    if |plains| == 0 then []
    else
      var before := plains[..|plains| - 1];
      Slices(z, before) + [z.deflate(before, plains[|plains| - 1])]
  }

  /** An inflater fed every slice in order, and never reset, gives back every input. */
  ghost predicate Lossless(z: Codec) {
    forall plains, next :: z.inflate(Slices(z, plains), z.deflate(plains, next)) == Some(next)
  }

  lemma SlicesNext(z: Codec, plains: seq<seq<byte>>, next: seq<byte>)
    ensures Slices(z, plains + [next]) == Slices(z, plains) + [z.deflate(plains, next)]
  {
    assert (plains + [next])[..|plains|] == plains;
  }
}
