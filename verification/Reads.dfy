/** Results of reading from the front of a byte string. */
module Reads {
  import opened Bytes

  /** Why the client gave up on what it was reading. */
  datatype Error =
    | Protocol                       // malformed bytes
    | UnsupportedEncoding(code: int) // a rect in an encoding the client never advertised
    | Ended                          // the stream stopped short: an I/O error or a timeout

  datatype Result<+T> = Ok(value: T) | Err(error: Error)

  /** A value and the bytes after it, or the reason there is none. */
  datatype Read<+T> = Got(value: T, rest: seq<byte>) | Bad(error: Error)

  /** The next `n` bytes; `short` is what running off the end means to the caller. */
  function Take(data: seq<byte>, n: nat, short: Error): (r: Read<seq<byte>>)
    ensures r.Got? ==> |r.value| == n && r.value + r.rest == data
  {
    if n <= |data| then Got(data[..n], data[n..]) else Bad(short)
  }

  lemma TakeFront(a: seq<byte>, b: seq<byte>, short: Error)
    ensures Take(a + b, |a|, short) == Got(a, b)
  {
    assert (a + b)[..|a|] == a && (a + b)[|a|..] == b;
  }
}
