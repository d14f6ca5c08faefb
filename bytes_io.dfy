/**
 * The in-memory byte buffer (Python's io.BytesIO) that a block uses as its
 * plaintext buffer, as a value: its bytes and its cursor. The cursor may lie
 * past the end of the bytes.
 */
module BytesIO {
  import opened Wrappers

  type byte = bv8

  function Zeros(n: nat): (r: seq<byte>)
    ensures |r| == n
    ensures forall i :: 0 <= i < n ==> r[i] == 0
  {
    seq(n, _ => 0)
  }

  /** The whence values of the os module. */
  const SEEK_SET: int := 0
  const SEEK_CUR: int := 1
  const SEEK_END: int := 2

  datatype Stream = Stream(data: seq<byte>, pos: nat)

  /**
   * Writes `b` at the cursor, overwriting and extending the bytes; a cursor
   * past the end is first padded up to with zero bytes. An empty write
   * changes nothing, not even the padding.
   */
  function Write(s: Stream, b: seq<byte>): (r: Stream)
    ensures r.pos == s.pos + |b|
    ensures |b| == 0 ==> r == s
    ensures |b| > 0 ==> |r.data| == Max(|s.data|, s.pos + |b|)
    ensures |b| > 0 ==> r.data[s.pos..s.pos + |b|] == b
    ensures forall i :: 0 <= i < |s.data| && !(s.pos <= i < s.pos + |b|) ==> r.data[i] == s.data[i]
    ensures |b| > 0 ==> forall i :: |s.data| <= i < s.pos ==> r.data[i] == 0
  {
    if |b| == 0 then s
    else
      var padded := if s.pos > |s.data| then s.data + Zeros(s.pos - |s.data|) else s.data;
      var tail := if s.pos + |b| < |padded| then padded[s.pos + |b|..] else [];
      Stream(padded[..s.pos] + b + tail, s.pos + |b|)
  }

  /** Bytes between the cursor and the end (none when the cursor is past the end). */
  function Available(s: Stream): nat
  {
    if s.pos < |s.data| then |s.data| - s.pos else 0
  }

  /**
   * Reads at most `size` bytes from the cursor, or everything up to the end
   * when `size` is negative, and moves the cursor past what was read.
   */
  function Read(s: Stream, size: int): (r: (seq<byte>, Stream))
    ensures size >= 0 ==> |r.0| == Min(size, Available(s))
    ensures size < 0 ==> |r.0| == Available(s)
    ensures |r.0| > 0 ==> r.0 == s.data[s.pos..s.pos + |r.0|]
    ensures r.1 == Stream(s.data, s.pos + |r.0|)
  {
    var n := if size < 0 || size > Available(s) then Available(s) else size;
    if n == 0 then ([], s) else (s.data[s.pos..s.pos + n], Stream(s.data, s.pos + n))
  }

  /**
   * Moves the cursor. An absolute position must not be negative; a relative
   * one that would fall before the start stops at 0; any whence other than
   * SET, CUR or END is a ValueError.
   */
  function Seek(s: Stream, offset: int, whence: int): (r: Result<Stream, Error>)
    ensures r.Success? <==> (whence == SEEK_SET && offset >= 0) || whence == SEEK_CUR || whence == SEEK_END
    ensures r.Failure? ==> r.error == ValueError
    ensures r.Success? ==> r.value.data == s.data
    ensures r.Success? && whence == SEEK_SET ==> r.value.pos == offset
    ensures r.Success? && whence == SEEK_CUR ==> r.value.pos == Max(0, s.pos + offset)
    ensures r.Success? && whence == SEEK_END ==> r.value.pos == Max(0, |s.data| + offset)
  {
    if whence == SEEK_SET then
      if offset < 0 then Failure(ValueError) else Success(Stream(s.data, offset))
    else if whence == SEEK_CUR then
      Success(Stream(s.data, Max(0, s.pos + offset)))
    else if whence == SEEK_END then
      Success(Stream(s.data, Max(0, |s.data| + offset)))
    else
      Failure(ValueError)
  }

  /**
   * Cuts the bytes at `size` (the cursor when absent) and returns that size;
   * never extends them and never moves the cursor.
   */
  function Truncate(s: Stream, size: Option<int>): (r: Result<(nat, Stream), Error>)
    ensures r.Success? <==> size.None? || size.value >= 0
    ensures r.Failure? ==> r.error == ValueError
    ensures r.Success? ==> r.value.0 == (if size.None? then s.pos else size.value)
    ensures r.Success? ==> r.value.1.pos == s.pos
    ensures r.Success? ==> r.value.1.data == s.data[..Min(r.value.0, |s.data|)]
  {
    var n := if size.None? then s.pos else size.value;
    if n < 0 then Failure(ValueError)
    else Success((n, Stream(if n < |s.data| then s.data[..n] else s.data, s.pos)))
  }

  /** What was written at a position reads back from that position. */
  lemma WriteThenRead(s: Stream, b: seq<byte>)
    ensures Read(Stream(Write(s, b).data, s.pos), |b|).0 == b
  {
    var w := Write(s, b);
    if |b| > 0 {
      assert Available(Stream(w.data, s.pos)) >= |b|;
    }
  }
}
