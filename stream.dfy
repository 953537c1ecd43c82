/**
 * The underlying byte stream (stdin) as fread sees it. A call
 * `fread(ybuf, 1, capacity, stdin)` fills as much of the buffer as the stream
 * can give before its end; it returns fewer bytes only at an end of input.
 *
 * yscanf3.h stops at the first zero-length read, so for it the stream is the
 * bytes before that read. yscanf2.h keeps calling fread, and an interactive
 * stdin can deliver more bytes after a zero-length read; for it the stream is
 * a sequence of symbols in which EOF marks each zero-length read.
 */
module Stream {
  import opened Bytes

  /** fread on a stream with the bytes `rest` still to deliver: the bytes read and what is left. */
  function Fread(rest: seq<byte>, capacity: nat): (r: (seq<byte>, seq<byte>))
    requires capacity > 0
    ensures r.0 + r.1 == rest
    ensures |r.0| == if |rest| < capacity then |rest| else capacity
    ensures r.0 == [] <==> rest == []
  {
    if |rest| <= capacity then (rest, []) else (rest[..capacity], rest[capacity..])
  }

  /**
   * fread on a stream of symbols: a zero-length read when the stream is over
   * or its next symbol marks one (which it uses up); otherwise the bytes up to
   * the next mark, at most `capacity` of them.
   */
  function FreadSymbols(rest: seq<symbol>, capacity: nat): (r: (seq<byte>, seq<symbol>))
    requires capacity > 0
    ensures |r.0| <= capacity
    ensures r.0 == [] <==> rest == [] || rest[0] == EOF
    ensures r.0 == [] ==> r.1 == Drop(rest, 1)
    ensures r.0 != [] ==> r.0 + r.1 == rest
  {
    if rest == [] || rest[0] == EOF then ([], Drop(rest, 1))
    else
      var n := Run(rest, Byte);
      RunMaximal(rest, Byte);
      var m := if n < capacity then n else capacity;
      (rest[..m], rest[m..])
  }
}
