/**
 * The virtual file's address space, as values. An Image gives the plaintext
 * of every existing block by block number; block n covers the absolute
 * positions [n * blockSize, (n + 1) * blockSize). The functions here state
 * what each file operation does to the image, following the control flow of
 * the file's methods, and the file's methods are proved against them.
 */
module Layout {
  import opened Wrappers
  import opened BytesIO

  type Image = map<nat, seq<byte>>

  const DEFAULT_BLOCK_SIZE: nat := 1024 * 1024 * 16

  lemma {:induction false} MulMonotone(a: nat, b: nat, k: nat)
    requires a <= b
    ensures a * k <= b * k
  {
  }

  /**
   * The block that holds an absolute position: how many whole blocks lie
   * before it. It is written by repeated subtraction, not as
   * `position / blockSize`, so that proofs about it go by induction on the
   * position and need no nonlinear arithmetic; BlockBounds shows that it is
   * that quotient all the same.
   */
  function BlockNumber(position: nat, blockSize: nat): nat
    requires blockSize > 0
    decreases position
  {
    if position < blockSize then 0 else 1 + BlockNumber(position - blockSize, blockSize)
  }

  /**
   * The position's offset inside its block: `position % blockSize`
   * (BlockBounds), written by repeated subtraction like BlockNumber.
   */
  function BlockOffset(position: nat, blockSize: nat): (r: nat)
    requires blockSize > 0
    ensures r < blockSize
    decreases position
  {
    if position < blockSize then position else BlockOffset(position - blockSize, blockSize)
  }

  /** The offset of a position from the start of block n (negative before it). */
  function LocalPosition(position: nat, n: nat, blockSize: nat): int
  {
    position - n * blockSize
  }

  /** Block number and offset split a position: n * blockSize + offset. */
  lemma {:induction false} BlockSplit(position: nat, blockSize: nat)
    requires blockSize > 0
    ensures BlockNumber(position, blockSize) * blockSize + BlockOffset(position, blockSize) == position
    decreases position
  {
    if position >= blockSize {
      var n := BlockNumber(position - blockSize, blockSize);
      BlockSplit(position - blockSize, blockSize);
      assert (n + 1) * blockSize == n * blockSize + blockSize;
    }
  }

  /** Euclidean division has one quotient and one remainder. */
  lemma {:induction false} DivUnique(position: nat, blockSize: nat, n: nat, r: nat)
    requires blockSize > 0 && r < blockSize && n * blockSize + r == position
    ensures n == position / blockSize && r == position % blockSize
  {
    var q := position / blockSize;
    assert q * blockSize + position % blockSize == position;
    if n < q {
      MulMonotone(n + 1, q, blockSize);
    } else if q < n {
      MulMonotone(q + 1, n, blockSize);
    }
  }

  /**
   * The block number is the position divided by the block size, rounded
   * down, and the offset is the position's local position in that block.
   */
  lemma {:induction false} BlockBounds(position: nat, blockSize: nat)
    requires blockSize > 0
    ensures BlockNumber(position, blockSize) == position / blockSize
    ensures BlockOffset(position, blockSize) == position % blockSize
    ensures LocalPosition(position, BlockNumber(position, blockSize), blockSize) == BlockOffset(position, blockSize)
  {
    BlockSplit(position, blockSize);
    DivUnique(position, blockSize, BlockNumber(position, blockSize), BlockOffset(position, blockSize));
  }

  /** Moving inside a block keeps the block number and shifts the offset. */
  lemma {:induction false} SameBlock(position: nat, d: nat, blockSize: nat)
    requires blockSize > 0 && BlockOffset(position, blockSize) + d < blockSize
    ensures BlockNumber(position + d, blockSize) == BlockNumber(position, blockSize)
    ensures BlockOffset(position + d, blockSize) == BlockOffset(position, blockSize) + d
    decreases position
  {
    if position >= blockSize {
      SameBlock(position - blockSize, d, blockSize);
    }
  }

  /** The end of the position's block is the start of the next block. */
  lemma {:induction false} NextBlock(position: nat, blockSize: nat)
    requires blockSize > 0
    ensures var next := position + (blockSize - BlockOffset(position, blockSize));
      BlockNumber(next, blockSize) == BlockNumber(position, blockSize) + 1
      && BlockOffset(next, blockSize) == 0
    decreases position
  {
    if position >= blockSize {
      NextBlock(position - blockSize, blockSize);
    } else {
      assert BlockNumber(0, blockSize) == 0 && BlockOffset(0, blockSize) == 0;
    }
  }

  lemma {:induction false} BlockNumberMonotone(p: nat, q: nat, blockSize: nat)
    requires blockSize > 0 && p <= q
    ensures BlockNumber(p, blockSize) <= BlockNumber(q, blockSize)
    decreases p
  {
    if p >= blockSize {
      BlockNumberMonotone(p - blockSize, q - blockSize, blockSize);
    }
  }

  lemma {:induction false} MaxExists(keys: set<nat>)
    requires keys != {}
    ensures exists m :: m in keys && forall k :: k in keys ==> k <= m
  {
    var x :| x in keys;
    if keys != {x} {
      MaxExists(keys - {x});
      var m :| m in keys - {x} && forall k :: k in keys - {x} ==> k <= m;
      var top := if x > m then x else m;
      forall k | k in keys
        ensures k <= top
      {
        if k != x {
          assert k in keys - {x};
        }
      }
    }
  }

  lemma {:induction false} MaxKeyIs(keys: set<nat>, m: nat)
    requires m in keys && forall k :: k in keys ==> k <= m
    ensures MaxKey(keys) == Some(m)
  {
  }

  /** The largest block number in use, None when there is none. */
  ghost function MaxKey(keys: set<nat>): (r: Option<nat>)
    ensures r.None? <==> keys == {}
    ensures r.Some? ==> r.value in keys && forall k :: k in keys ==> k <= r.value
  {
    if keys == {} then None
    else
      MaxExists(keys);
      var m :| m in keys && forall k :: k in keys ==> k <= m;
      Some(m)
  }

  /** No block holds more than blockSize bytes. */
  ghost predicate WellSized(img: Image, blockSize: nat)
  {
    forall n :: n in img ==> |img[n]| <= blockSize
  }

  /**
   * A block's plaintext after writing `chunk` at offset `local` of it: the
   * chunk's bytes over [local, local + |chunk|), the old bytes elsewhere and
   * zero bytes in any gap between the old end and `local`. An empty chunk
   * changes nothing.
   */
  function WriteInBlock(data: seq<byte>, local: nat, chunk: seq<byte>): seq<byte>
  {
    if |chunk| == 0 then data
    else
      seq(Max(|data|, local + |chunk|), i requires 0 <= i < Max(|data|, local + |chunk|) =>
        if local <= i < local + |chunk| then chunk[i - local]
        else if i < |data| then data[i]
        else 0)
  }

  /** The block's plaintext is what its buffer holds after the buffer's write at that offset. */
  lemma {:induction false} WriteInBlockBuffer(data: seq<byte>, local: nat, chunk: seq<byte>)
    ensures WriteInBlock(data, local, chunk) == BytesIO.Write(Stream(data, local), chunk).data
  {
    if |chunk| > 0 {
      var w := BytesIO.Write(Stream(data, local), chunk).data;
      var r := WriteInBlock(data, local, chunk);
      forall i | 0 <= i < |r|
        ensures r[i] == w[i]
      {
        if local <= i < local + |chunk| {
          assert w[local..local + |chunk|][i - local] == chunk[i - local];
        }
      }
    }
  }

  /** The last block a write of `len` bytes at `position` touches. */
  function LastBlock(position: nat, len: nat, blockSize: nat): nat
    requires blockSize > 0
  {
    if len == 0 then BlockNumber(position, blockSize)
    else BlockNumber(position + len - 1, blockSize)
  }

  lemma {:induction false} LastBlockFrom(position: nat, len: nat, blockSize: nat)
    requires blockSize > 0
    ensures BlockNumber(position, blockSize) <= LastBlock(position, len, blockSize)
  {
    if len > 0 {
      BlockNumberMonotone(position, position + len - 1, blockSize);
    }
  }

  /**
   * The image after writing `b` at `position`: the part that fits in the
   * position's block goes there (creating the block if absent) and the rest
   * is written from the start of the next block on.
   */
  function WriteSpec(img: Image, blockSize: nat, position: nat, b: seq<byte>): Image
    requires blockSize > 0
    decreases |b|
  {
    var n := BlockNumber(position, blockSize);
    var local := BlockOffset(position, blockSize);
    var data := if n in img then img[n] else [];
    if local + |b| > blockSize then
      var k := blockSize - local;
      WriteSpec(img[n := WriteInBlock(data, local, b[..k])], blockSize, position + k, b[k..])
    else
      img[n := WriteInBlock(data, local, b)]
  }

  /** Where a write that spills over its first block continues. */
  lemma {:induction false} SplitStep(position: nat, len: nat, blockSize: nat, n: nat, k: nat)
    requires blockSize > 0
    requires n == BlockNumber(position, blockSize) && k == blockSize - BlockOffset(position, blockSize)
    requires BlockOffset(position, blockSize) + len > blockSize
    ensures 0 < k < len
    ensures BlockNumber(position + k, blockSize) == n + 1 && BlockOffset(position + k, blockSize) == 0
    ensures LastBlock(position + k, len - k, blockSize) == LastBlock(position, len, blockSize)
    ensures n + 1 <= LastBlock(position, len, blockSize)
  {
    NextBlock(position, blockSize);
    BlockNumberMonotone(position + k, position + len - 1, blockSize);
  }

  /** A write that fits in its block ends in that block. */
  lemma {:induction false} FitStep(position: nat, len: nat, blockSize: nat)
    requires blockSize > 0
    requires BlockOffset(position, blockSize) + len <= blockSize
    ensures LastBlock(position, len, blockSize) == BlockNumber(position, blockSize)
  {
    if len > 0 {
      SameBlock(position, len - 1, blockSize);
    }
  }

  /**
   * A write creates blocks only from the position's block to the last block
   * it touches and always leaves the position's block present.
   */
  lemma {:induction false} WriteSpecKeys(img: Image, blockSize: nat, position: nat, b: seq<byte>)
    requires blockSize > 0
    ensures img.Keys <= WriteSpec(img, blockSize, position, b).Keys
    ensures BlockNumber(position, blockSize) in WriteSpec(img, blockSize, position, b)
    ensures forall n :: n in WriteSpec(img, blockSize, position, b) && n !in img ==>
      BlockNumber(position, blockSize) <= n <= LastBlock(position, |b|, blockSize)
    decreases |b|
  {
    var n := BlockNumber(position, blockSize);
    var local := BlockOffset(position, blockSize);
    var data := if n in img then img[n] else [];
    if local + |b| > blockSize {
      var k := blockSize - local;
      SplitStep(position, |b|, blockSize, n, k);
      WriteSpecKeys(img[n := WriteInBlock(data, local, b[..k])], blockSize, position + k, b[k..]);
    } else {
      FitStep(position, |b|, blockSize);
    }
  }

  /** A write changes no block outside the range of blocks it touches. */
  lemma {:induction false} WriteSpecUnchanged(img: Image, blockSize: nat, position: nat, b: seq<byte>)
    requires blockSize > 0
    ensures forall n :: n in img && !(BlockNumber(position, blockSize) <= n <= LastBlock(position, |b|, blockSize)) ==>
      n in WriteSpec(img, blockSize, position, b) && WriteSpec(img, blockSize, position, b)[n] == img[n]
    decreases |b|
  {
    var n := BlockNumber(position, blockSize);
    var local := BlockOffset(position, blockSize);
    var data := if n in img then img[n] else [];
    if local + |b| > blockSize {
      var k := blockSize - local;
      SplitStep(position, |b|, blockSize, n, k);
      WriteSpecUnchanged(img[n := WriteInBlock(data, local, b[..k])], blockSize, position + k, b[k..]);
    } else {
      FitStep(position, |b|, blockSize);
    }
  }

  /** A write never makes a block longer than blockSize. */
  lemma {:induction false} WriteSpecWellSized(img: Image, blockSize: nat, position: nat, b: seq<byte>)
    requires blockSize > 0 && WellSized(img, blockSize)
    ensures WellSized(WriteSpec(img, blockSize, position, b), blockSize)
    decreases |b|
  {
    var n := BlockNumber(position, blockSize);
    var local := BlockOffset(position, blockSize);
    var data := if n in img then img[n] else [];
    if local + |b| > blockSize {
      var k := blockSize - local;
      WriteSpecWellSized(img[n := WriteInBlock(data, local, b[..k])], blockSize, position + k, b[k..]);
    }
  }

  /** One step of a write that spills over: the first part, then the rest from the next block. */
  lemma {:induction false} WriteSpecSplit(img: Image, blockSize: nat, position: nat, b: seq<byte>, n: nat, local: nat, data: seq<byte>)
    requires blockSize > 0
    requires n == BlockNumber(position, blockSize) && local == BlockOffset(position, blockSize)
    requires data == if n in img then img[n] else []
    requires local + |b| > blockSize
    ensures WriteSpec(img, blockSize, position, b)
      == WriteSpec(img[n := WriteInBlock(data, local, b[..blockSize - local])], blockSize,
                   position + (blockSize - local), b[blockSize - local..])
  {
  }

  /**
   * A split write: its first part (k bytes into block n) takes img to mid,
   * and the write ends where the rest, written from next on, takes mid.
   */
  lemma {:induction false} WriteSpecChain(img: Image, blockSize: nat, position: nat, b: seq<byte>, n: nat, local: nat, data: seq<byte>,
                       k: nat, mid: Image, next: nat, rest: seq<byte>)
    requires blockSize > 0
    requires n == BlockNumber(position, blockSize) && local == BlockOffset(position, blockSize)
    requires data == if n in img then img[n] else []
    requires local + |b| > blockSize && k == blockSize - local
    requires mid == img[n := WriteInBlock(data, local, b[..k])]
    requires next == position + k && rest == b[k..]
    ensures WriteSpec(img, blockSize, position, b) == WriteSpec(mid, blockSize, next, rest)
  {
  }

  /** A write that fits in the position's block touches that block only. */
  lemma {:induction false} WriteSpecFits(img: Image, blockSize: nat, position: nat, b: seq<byte>, n: nat, local: nat, data: seq<byte>)
    requires blockSize > 0
    requires n == BlockNumber(position, blockSize) && local == BlockOffset(position, blockSize)
    requires data == if n in img then img[n] else []
    requires local + |b| <= blockSize
    ensures WriteSpec(img, blockSize, position, b) == img[n := WriteInBlock(data, local, b)]
  {
  }

  /** The size argument passed on to a block read: -1 reads to the end. */
  function SizeArg(size: Option<nat>): int
  {
    if size.None? then -1 else size.value
  }

  /**
   * What reading a block from offset `local` yields: its bytes from there to
   * its end, at most `size` of them when a size is given; nothing from an
   * offset at or past the end.
   */
  function ReadInBlock(data: seq<byte>, local: nat, size: Option<nat>): seq<byte>
  {
    if local >= |data| then []
    else data[local..if size.None? then |data| else Min(|data|, local + size.value)]
  }

  /** The block's bytes read at an offset are what its buffer's read returns from that cursor. */
  lemma {:induction false} ReadInBlockBuffer(data: seq<byte>, local: nat, size: Option<nat>)
    ensures ReadInBlock(data, local, size) == BytesIO.Read(Stream(data, local), SizeArg(size)).0
  {
  }

  function Remaining(size: Option<nat>, k: nat): Option<nat>
    requires size.None? || k <= size.value
  {
    if size.None? then None else Some(size.value - k)
  }

  /** The end of the largest block's span: no read goes on from there. */
  ghost function ReadBound(img: Image, blockSize: nat): nat
  {
    match MaxKey(img.Keys)
    case None => 0
    case Some(m) => (m + 1) * blockSize
  }

  /** A position in block n or before it lies before the end of block m, for n <= m. */
  lemma {:induction false} BelowBound(position: nat, blockSize: nat, m: nat)
    requires blockSize > 0 && BlockNumber(position, blockSize) <= m
    ensures position < (m + 1) * blockSize
  {
    BlockSplit(position, blockSize);
    MulMonotone(BlockNumber(position, blockSize) + 1, m + 1, blockSize);
  }

  /**
   * What reading `size` bytes (all of them when None) from `position`
   * returns, and the position after it. Block by block: an existing block is
   * read from the position's offset, and a read that yields nothing ends it;
   * a missing block below the largest existing one reads as zero bytes up to
   * its end; a missing block at or above it is the end of the file.
   */
  ghost function ReadSpec(img: Image, blockSize: nat, position: nat, size: Option<nat>): (r: (seq<byte>, nat))
    requires blockSize > 0
    ensures r.1 == position + |r.0|
    ensures size.Some? ==> |r.0| <= size.value
    decreases ReadBound(img, blockSize) - position
  {
    if size == Some(0) then ([], position)
    else
      var n := BlockNumber(position, blockSize);
      var local := BlockOffset(position, blockSize);
      var m := MaxKey(img.Keys);
      if n !in img then
        if m.None? || n >= m.value then ([], position)
        else
          var k := if size.None? then blockSize - local else Min(size.value, blockSize - local);
          BelowBound(position, blockSize, m.value);
          var rest := ReadSpec(img, blockSize, position + k, Remaining(size, k));
          (Zeros(k) + rest.0, rest.1)
      else
        var data := ReadInBlock(img[n], local, size);
        if |data| == 0 then ([], position)
        else
          BelowBound(position, blockSize, m.value);
          var rest := ReadSpec(img, blockSize, position + |data|, Remaining(size, |data|));
          (data + rest.0, rest.1)
  }

  /** A read ends, returning nothing, on a zero size, past the last block, or on an exhausted block. */
  lemma {:induction false} ReadSpecEnd(img: Image, blockSize: nat, position: nat, size: Option<nat>)
    requires blockSize > 0 && WellSized(img, blockSize)
    requires var n := BlockNumber(position, blockSize);
      var m := MaxKey(img.Keys);
      size == Some(0)
      || (n !in img && (m.None? || n >= m.value))
      || (n in img && |ReadInBlock(img[n], BlockOffset(position, blockSize), size)| == 0)
    ensures ReadSpec(img, blockSize, position, size) == ([], position)
  {
  }

  /** A missing block below the largest one reads as k zero bytes, then the read goes on. */
  lemma {:induction false} ReadSpecHole(img: Image, blockSize: nat, position: nat, size: Option<nat>, k: nat, next: nat)
    requires blockSize > 0 && WellSized(img, blockSize) && size != Some(0)
    requires var n := BlockNumber(position, blockSize);
      var m := MaxKey(img.Keys);
      n !in img && m.Some? && n < m.value
    requires var room := blockSize - BlockOffset(position, blockSize);
      k == if size.None? then room else Min(size.value, room)
    requires next == position + k
    ensures 0 < k <= blockSize - BlockOffset(position, blockSize)
    ensures var rest := ReadSpec(img, blockSize, next, Remaining(size, k));
      ReadSpec(img, blockSize, position, size) == (Zeros(k) + rest.0, rest.1)
  {
    var rest := ReadSpec(img, blockSize, position + k, Remaining(size, k));
    assert ReadSpec(img, blockSize, position, size) == (Zeros(k) + rest.0, rest.1);
  }

  /** An existing block yields what its buffer reads from the offset, then the read goes on. */
  lemma {:induction false} ReadSpecBlock(img: Image, blockSize: nat, position: nat, size: Option<nat>, chunk: seq<byte>, next: nat)
    requires blockSize > 0 && WellSized(img, blockSize) && size != Some(0)
    requires var n := BlockNumber(position, blockSize);
      n in img && chunk == ReadInBlock(img[n], BlockOffset(position, blockSize), size)
    requires |chunk| > 0 && next == position + |chunk|
    ensures 0 < |chunk| <= blockSize - BlockOffset(position, blockSize)
    ensures size.None? || |chunk| <= size.value
    ensures var rest := ReadSpec(img, blockSize, next, Remaining(size, |chunk|));
      ReadSpec(img, blockSize, position, size) == (chunk + rest.0, rest.1)
  {
  }

  /**
   * One round of a read at `position` with `size` bytes still wanted (all
   * of them when None): the bytes it yields and whether the read is over.
   * It is over on a zero size, at a missing block at or above the largest
   * existing one, and at an existing block that yields nothing from the
   * offset; a missing block below the largest one yields zero bytes up to
   * its end.
   */
  ghost function ReadRound(img: Image, blockSize: nat, position: nat, size: Option<nat>): (r: (seq<byte>, bool))
    requires blockSize > 0
    ensures r.1 ==> r.0 == []
    ensures size.Some? ==> |r.0| <= size.value
  {
    if size == Some(0) then ([], true)
    else
      var n := BlockNumber(position, blockSize);
      var local := BlockOffset(position, blockSize);
      if n !in img then
        var m := MaxKey(img.Keys);
        if m.None? || n >= m.value then ([], true)
        else (Zeros(if size.None? then blockSize - local else Min(size.value, blockSize - local)), false)
      else
        var data := ReadInBlock(img[n], local, size);
        (data, |data| == 0)
  }

  /**
   * A read is its first round followed by the read of what is still wanted
   * from where that round stops; a round that ends the read yields nothing.
   */
  lemma {:induction false} ReadSpecRound(img: Image, blockSize: nat, position: nat, size: Option<nat>,
                                         chunk: seq<byte>, done: bool)
    requires blockSize > 0 && WellSized(img, blockSize)
    requires (chunk, done) == ReadRound(img, blockSize, position, size)
    ensures done ==> chunk == [] && ReadSpec(img, blockSize, position, size) == ([], position)
    ensures !done ==>
      0 < |chunk| <= blockSize - BlockOffset(position, blockSize)
      && (size.None? || |chunk| <= size.value)
      && ReadSpec(img, blockSize, position, size)
         == (chunk + ReadSpec(img, blockSize, position + |chunk|, Remaining(size, |chunk|)).0,
             ReadSpec(img, blockSize, position + |chunk|, Remaining(size, |chunk|)).1)
  {
    var n := BlockNumber(position, blockSize);
    if done {
      ReadSpecEnd(img, blockSize, position, size);
    } else if n !in img {
      ReadSpecHole(img, blockSize, position, size, |chunk|, position + |chunk|);
    } else {
      ReadSpecBlock(img, blockSize, position, size, chunk, position + |chunk|);
    }
  }

  /** A block's plaintext cut at offset `local` (never extended). */
  function CutBlock(data: seq<byte>, local: nat): (r: seq<byte>)
    ensures r == data[..Min(local, |data|)]
  {
    BytesIO.Truncate(Stream(data, local), None).value.1.data
  }

  /**
   * The image after truncating at `position`: every block above the
   * position's block is gone and that block, if present, is cut at the
   * position's offset.
   */
  function TruncateSpec(img: Image, blockSize: nat, position: nat): (r: Image)
    requires blockSize > 0
    ensures r.Keys == set n | n in img && n <= BlockNumber(position, blockSize)
    ensures forall n :: n in r && n < BlockNumber(position, blockSize) ==> r[n] == img[n]
    ensures BlockNumber(position, blockSize) in r ==>
      var n := BlockNumber(position, blockSize);
      r[n] == img[n][..Min(BlockOffset(position, blockSize), |img[n]|)]
  {
    var n := BlockNumber(position, blockSize);
    var kept := map k | k in img && k <= n :: img[k];
    if n in kept then kept[n := CutBlock(kept[n], BlockOffset(position, blockSize))] else kept
  }

  /** The entries of img that a drop of every block above n keeps while the numbers in `rest` are still to be visited. */
  ghost function Kept<V>(img: map<nat, V>, n: nat, rest: set<nat>): map<nat, V>
  {
    map k | k in img && (k <= n || k in rest) :: img[k]
  }

  /** Visiting k drops it when it is above n. */
  lemma {:induction false} KeptStep<V>(img: map<nat, V>, n: nat, rest: set<nat>, k: nat)
    requires k in rest
    ensures var cur := Kept(img, n, rest);
      Kept(img, n, rest - {k}) == if k > n && k in cur then cur - {k} else cur
  {
  }

  /** The file size as seek-to-end sees it: end of the largest block; None without blocks. */
  ghost function EndOfFile(img: Image, blockSize: nat): (r: Option<nat>)
    ensures r.None? <==> img.Keys == {}
  {
    match MaxKey(img.Keys)
    case None => None
    case Some(m) => Some(m * blockSize + |img[m]|)
  }

  /**
   * The position that seek(offset, whence) moves to: SET takes the offset,
   * CUR adds it, END subtracts it from the file size (and stays put when
   * there are no blocks); any other whence is a ValueError.
   */
  ghost function SeekSpec(img: Image, blockSize: nat, position: nat, offset: int, whence: int): (r: Result<int, Error>)
    ensures r.Failure? <==> whence !in {SEEK_SET, SEEK_CUR, SEEK_END}
    ensures r.Failure? ==> r.error == ValueError
  {
    if whence == SEEK_SET then Success(offset)
    else if whence == SEEK_END then
      match EndOfFile(img, blockSize)
      case None => Success(position)
      case Some(size) => Success(size - offset)
    else if whence == SEEK_CUR then Success(position + offset)
    else Failure(ValueError)
  }
}
