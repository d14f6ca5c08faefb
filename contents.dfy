/**
 * The file's logical contents. An image is dense for a byte string c when the
 * blocks hold c cut into blockSize pieces: every position of c is in its
 * block, and every block holds exactly the part of c that falls in it (so a
 * block can only be empty when it starts where c ends). The lemmas here show
 * that a write at or before the end of c, and a truncation, keep the image
 * dense for the expected string, and that a read returns a slice of c.
 */
module Contents {
  import opened Wrappers
  import opened BytesIO
  import opened Layout

  /**
   * Where block n starts: n * blockSize, written as repeated addition so
   * that the proofs here stay linear.
   */
  function StartOf(n: nat, blockSize: nat): nat
  {
    if n == 0 then 0 else StartOf(n - 1, blockSize) + blockSize
  }

  lemma {:induction false} StartOfBlock(n: nat, i: nat, blockSize: nat)
    requires blockSize > 0 && i < blockSize
    ensures BlockNumber(StartOf(n, blockSize) + i, blockSize) == n
    ensures BlockOffset(StartOf(n, blockSize) + i, blockSize) == i
  {
    if n > 0 {
      StartOfBlock(n - 1, i, blockSize);
    }
  }

  lemma {:induction false} StartOfPosition(position: nat, blockSize: nat)
    requires blockSize > 0
    ensures StartOf(BlockNumber(position, blockSize), blockSize) + BlockOffset(position, blockSize) == position
    decreases position
  {
    if position >= blockSize {
      StartOfPosition(position - blockSize, blockSize);
    }
  }

  lemma {:induction false} StartOfMonotone(a: nat, b: nat, blockSize: nat)
    requires a < b
    ensures StartOf(a, blockSize) + blockSize <= StartOf(b, blockSize)
    decreases b
  {
    if a < b - 1 {
      StartOfMonotone(a, b - 1, blockSize);
    }
  }

  /** Position p of c is in its block, holding c's byte. */
  ghost predicate InBlock(img: Image, blockSize: nat, c: seq<byte>, p: nat)
    requires blockSize > 0
  {
    p < |c| ==>
      BlockNumber(p, blockSize) in img
      && BlockOffset(p, blockSize) < |img[BlockNumber(p, blockSize)]|
      && img[BlockNumber(p, blockSize)][BlockOffset(p, blockSize)] == c[p]
  }

  /** Every position of c is in its block, holding c's byte. */
  ghost predicate Covers(img: Image, blockSize: nat, c: seq<byte>)
    requires blockSize > 0
  {
    forall p: nat :: InBlock(img, blockSize, c, p)
  }

  lemma {:induction false} CoversAt(img: Image, blockSize: nat, c: seq<byte>, p: nat)
    requires blockSize > 0 && Covers(img, blockSize, c) && p < |c|
    ensures BlockNumber(p, blockSize) in img
    ensures BlockOffset(p, blockSize) < |img[BlockNumber(p, blockSize)]|
    ensures img[BlockNumber(p, blockSize)][BlockOffset(p, blockSize)] == c[p]
  {
    assert InBlock(img, blockSize, c, p);
  }

  /** Block n starts within c and is as long as the part of c it covers. */
  ghost predicate Fits(img: Image, blockSize: nat, c: seq<byte>, n: nat)
  {
    n in img ==> StartOf(n, blockSize) <= |c| && |img[n]| == Min(blockSize, |c| - StartOf(n, blockSize))
  }

  /** Every block starts within c and is as long as the part of c it covers. */
  ghost predicate Bounded(img: Image, blockSize: nat, c: seq<byte>)
  {
    forall n: nat :: Fits(img, blockSize, c, n)
  }

  lemma {:induction false} BoundedAt(img: Image, blockSize: nat, c: seq<byte>, n: nat)
    requires Bounded(img, blockSize, c) && n in img
    ensures StartOf(n, blockSize) <= |c| && |img[n]| == Min(blockSize, |c| - StartOf(n, blockSize))
  {
    assert Fits(img, blockSize, c, n);
  }

  ghost predicate Dense(img: Image, blockSize: nat, c: seq<byte>)
    requires blockSize > 0
  {
    Covers(img, blockSize, c) && Bounded(img, blockSize, c)
  }

  /** The empty file: no blocks, no bytes. */
  lemma {:induction false} EmptyDense(blockSize: nat)
    requires blockSize > 0
    ensures Dense(map[], blockSize, [])
  {
  }

  lemma {:induction false} DenseWellSized(img: Image, blockSize: nat, c: seq<byte>)
    requires blockSize > 0 && Bounded(img, blockSize, c)
    ensures WellSized(img, blockSize)
  {
    forall n | n in img
      ensures |img[n]| <= blockSize
    {
      BoundedAt(img, blockSize, c, n);
    }
  }

  /** The byte at offset i of block n is c's byte at the block's start plus i. */
  lemma {:induction false} ByteAt(img: Image, blockSize: nat, c: seq<byte>, n: nat, i: nat)
    requires blockSize > 0 && Dense(img, blockSize, c)
    requires n in img && i < |img[n]|
    ensures StartOf(n, blockSize) + i < |c| && img[n][i] == c[StartOf(n, blockSize) + i]
  {
    BoundedAt(img, blockSize, c, n);
    StartOfBlock(n, i, blockSize);
    CoversAt(img, blockSize, c, StartOf(n, blockSize) + i);
  }

  /** The bytes of an existing block from the position's offset on are c's from the position on. */
  lemma {:induction false} BlockBytes(img: Image, blockSize: nat, c: seq<byte>, position: nat, j: nat)
    requires blockSize > 0 && Dense(img, blockSize, c)
    requires var n := BlockNumber(position, blockSize);
      n in img && BlockOffset(position, blockSize) + j <= |img[n]|
    ensures position + j <= |c|
    ensures var n := BlockNumber(position, blockSize);
      var local := BlockOffset(position, blockSize);
      img[n][local..local + j] == c[position..position + j]
  {
    var n := BlockNumber(position, blockSize);
    var local := BlockOffset(position, blockSize);
    StartOfPosition(position, blockSize);
    BoundedAt(img, blockSize, c, n);
    if j > 0 {
      ByteAt(img, blockSize, c, n, local + j - 1);
    }
    var inBlock := img[n][local..local + j];
    var inContents := c[position..position + j];
    forall i | 0 <= i < j
      ensures inBlock[i] == inContents[i]
    {
      ByteAt(img, blockSize, c, n, local + i);
    }
    assert inBlock == inContents;
  }

  /** c with b written over it from `position` on (extending it when b runs past its end). */
  function Overwrite(c: seq<byte>, position: nat, b: seq<byte>): (r: seq<byte>)
    requires position <= |c|
    ensures |r| == Max(|c|, position + |b|)
    ensures forall i :: position <= i < position + |b| ==> r[i] == b[i - position]
    ensures forall i :: 0 <= i < |c| && !(position <= i < position + |b|) ==> r[i] == c[i]
  {
    c[..position] + b + (if position + |b| < |c| then c[position + |b|..] else [])
  }

  /** Writing at the end appends. */
  lemma {:induction false} OverwriteAtEnd(c: seq<byte>, b: seq<byte>)
    ensures Overwrite(c, |c|, b) == c + b
  {
  }

  /** Writing a prefix of b, then the rest right after it, writes b. */
  lemma {:induction false} OverwriteSplit(c: seq<byte>, position: nat, b: seq<byte>, k: nat)
    requires position <= |c| && k <= |b|
    ensures position + k <= |Overwrite(c, position, b[..k])|
    ensures Overwrite(Overwrite(c, position, b[..k]), position + k, b[k..]) == Overwrite(c, position, b)
  {
    var once := Overwrite(c, position, b[..k]);
    var twice := Overwrite(once, position + k, b[k..]);
    var whole := Overwrite(c, position, b);
    assert |twice| == |whole|;
    forall i | 0 <= i < |whole|
      ensures twice[i] == whole[i]
    {
      if position + k <= i < position + |b| {
        assert twice[i] == b[k..][i - position - k];
      } else if position <= i < position + k {
        assert twice[i] == once[i] == b[..k][i - position];
      }
    }
  }

  /** A missing block past the start of c can only be the one where c ends, at its start. */
  lemma {:induction false} MissingBlock(img: Image, blockSize: nat, c: seq<byte>, position: nat)
    requires blockSize > 0 && Dense(img, blockSize, c) && position <= |c|
    requires BlockNumber(position, blockSize) !in img
    ensures position == |c| && BlockOffset(position, blockSize) == 0
    ensures forall m :: m in img ==> m < BlockNumber(position, blockSize)
  {
    var n := BlockNumber(position, blockSize);
    var local := BlockOffset(position, blockSize);
    StartOfPosition(position, blockSize);
    StartOfBlock(n, 0, blockSize);
    if StartOf(n, blockSize) < |c| {
      CoversAt(img, blockSize, c, StartOf(n, blockSize) + 0);
    }
    forall m | m in img
      ensures m < n
    {
      if m > n {
        BoundedAt(img, blockSize, c, m);
        StartOfMonotone(n, m, blockSize);
      }
    }
  }

  lemma {:induction false} SliceSplit(c: seq<byte>, a: nat, b: nat, d: nat)
    requires a <= b <= d <= |c|
    ensures c[a..d] == c[a..b] + c[b..d]
  {
  }

  /** How many bytes a read of `size` (everything when None) yields when `available` are left. */
  function ReadLength(size: Option<nat>, available: nat): nat
  {
    if size.None? then available else Min(size.value, available)
  }

  /**
   * On a dense image, a read from a position within c returns the next
   * bytes of c: `size` of them, or all up to the end of c when there are
   * fewer or when no size is given.
   */
  lemma {:induction false} ReadDense(img: Image, blockSize: nat, c: seq<byte>, position: nat, size: Option<nat>)
    requires blockSize > 0 && Dense(img, blockSize, c) && position <= |c|
    ensures WellSized(img, blockSize)
      && var k := ReadLength(size, |c| - position);
      ReadSpec(img, blockSize, position, size) == (c[position..position + k], position + k)
    decreases |c| - position, 1
  {
    DenseWellSized(img, blockSize, c);
    var n := BlockNumber(position, blockSize);
    var local := BlockOffset(position, blockSize);
    if size == Some(0) || n !in img || |ReadInBlock(img[n], local, size)| == 0 {
      ReadDenseEnd(img, blockSize, c, position, size);
      assert c[position..position] == [];
    } else {
      ReadDenseBlock(img, blockSize, c, position, size);
    }
  }

  /** ReadDense when the read starts with a non-empty chunk of the position's existing block. */
  lemma {:induction false} ReadDenseBlock(img: Image, blockSize: nat, c: seq<byte>, position: nat, size: Option<nat>)
    requires blockSize > 0 && Dense(img, blockSize, c) && position <= |c| && WellSized(img, blockSize)
    requires size != Some(0) && BlockNumber(position, blockSize) in img
    requires |ReadInBlock(img[BlockNumber(position, blockSize)], BlockOffset(position, blockSize), size)| > 0
    ensures var k := ReadLength(size, |c| - position);
      ReadSpec(img, blockSize, position, size) == (c[position..position + k], position + k)
    decreases |c| - position, 0
  {
    var chunk := ReadInBlock(img[BlockNumber(position, blockSize)], BlockOffset(position, blockSize), size);
    BlockBytes(img, blockSize, c, position, |chunk|);
    ReadDense(img, blockSize, c, position + |chunk|, Remaining(size, |chunk|));
    ReadDenseStep(img, blockSize, c, position, size, chunk);
  }

  /** A read on a dense image that starts with a chunk of the position's block, then goes on. */
  lemma {:induction false} ReadDenseStep(img: Image, blockSize: nat, c: seq<byte>, position: nat, size: Option<nat>, chunk: seq<byte>)
    requires blockSize > 0 && WellSized(img, blockSize) && size != Some(0)
    requires var n := BlockNumber(position, blockSize);
      n in img && chunk == ReadInBlock(img[n], BlockOffset(position, blockSize), size)
    requires 0 < |chunk| && position + |chunk| <= |c|
    requires chunk == c[position..position + |chunk|]
    requires var next := position + |chunk|;
      var k := ReadLength(Remaining(size, |chunk|), |c| - next);
      ReadSpec(img, blockSize, next, Remaining(size, |chunk|)) == (c[next..next + k], next + k)
    ensures var k := ReadLength(size, |c| - position);
      ReadSpec(img, blockSize, position, size) == (c[position..position + k], position + k)
  {
    var next := position + |chunk|;
    ReadSpecBlock(img, blockSize, position, size, chunk, next);
    var k := ReadLength(size, |c| - position);
    var rest := ReadLength(Remaining(size, |chunk|), |c| - next);
    assert k == |chunk| + rest;
    SliceSplit(c, position, next, next + rest);
    var tail := ReadSpec(img, blockSize, next, Remaining(size, |chunk|));
    assert tail == (c[next..next + rest], next + rest);
    assert ReadSpec(img, blockSize, position, size) == (chunk + tail.0, tail.1);
  }

  /** The cases where a read on a dense image ends at once: there is nothing left to read there. */
  lemma {:induction false} ReadDenseEnd(img: Image, blockSize: nat, c: seq<byte>, position: nat, size: Option<nat>)
    requires blockSize > 0 && Dense(img, blockSize, c) && position <= |c|
    requires var n := BlockNumber(position, blockSize);
      size == Some(0) || n !in img
      || |ReadInBlock(img[n], BlockOffset(position, blockSize), size)| == 0
    ensures WellSized(img, blockSize)
    ensures ReadLength(size, |c| - position) == 0
    ensures ReadSpec(img, blockSize, position, size) == ([], position)
  {
    DenseWellSized(img, blockSize, c);
    var n := BlockNumber(position, blockSize);
    if size != Some(0) {
      if n !in img {
        MissingBlock(img, blockSize, c, position);
      } else {
        BoundedAt(img, blockSize, c, n);
        StartOfPosition(position, blockSize);
      }
    }
    ReadSpecEnd(img, blockSize, position, size);
  }

  /** The block a write at `position` goes to, before the write: its plaintext, or nothing. */
  function OldBlock(img: Image, blockSize: nat, position: nat): seq<byte>
    requires blockSize > 0
  {
    var n := BlockNumber(position, blockSize);
    if n in img then img[n] else []
  }

  /**
   * On a dense image the position's block starts at or before the position
   * and holds at least the bytes up to it; a missing block starts where c
   * ends, at the position.
   */
  lemma {:induction false} OldBlockFacts(img: Image, blockSize: nat, c: seq<byte>, position: nat)
    requires blockSize > 0 && Dense(img, blockSize, c) && position <= |c|
    ensures var n := BlockNumber(position, blockSize);
      var start := StartOf(n, blockSize);
      start + BlockOffset(position, blockSize) == position
      && BlockOffset(position, blockSize) <= |OldBlock(img, blockSize, position)|
      && |OldBlock(img, blockSize, position)| == Min(blockSize, |c| - start)
  {
    StartOfPosition(position, blockSize);
    if BlockNumber(position, blockSize) !in img {
      MissingBlock(img, blockSize, c, position);
    } else {
      BoundedAt(img, blockSize, c, BlockNumber(position, blockSize));
    }
  }

  /** Block n after a write of `chunk`, which fits in it, at `position`. */
  function NewBlock(img: Image, blockSize: nat, position: nat, chunk: seq<byte>): seq<byte>
    requires blockSize > 0
  {
    WriteInBlock(OldBlock(img, blockSize, position), BlockOffset(position, blockSize), chunk)
  }

  /** A byte the write put down sits in the written block, at its offset. */
  lemma {:induction false} WrittenByte(img: Image, blockSize: nat, position: nat, chunk: seq<byte>, q: nat)
    requires blockSize > 0 && BlockOffset(position, blockSize) + |chunk| <= blockSize
    requires position <= q < position + |chunk|
    ensures BlockNumber(q, blockSize) == BlockNumber(position, blockSize)
    ensures var w := NewBlock(img, blockSize, position, chunk);
      BlockOffset(q, blockSize) < |w| && w[BlockOffset(q, blockSize)] == chunk[q - position]
  {
    var n := BlockNumber(position, blockSize);
    var local := BlockOffset(position, blockSize);
    var w := NewBlock(img, blockSize, position, chunk);
    StartOfPosition(position, blockSize);
    StartOfBlock(n, local + (q - position), blockSize);
    assert w[local..local + |chunk|][q - position] == chunk[q - position];
  }

  /** A byte the write did not touch is still in its block, which the write may have changed elsewhere. */
  lemma {:induction false} KeptByte(img: Image, blockSize: nat, c: seq<byte>, position: nat, chunk: seq<byte>, q: nat)
    requires blockSize > 0 && Dense(img, blockSize, c) && position <= |c|
    requires BlockOffset(position, blockSize) + |chunk| <= blockSize
    requires q < |c| && !(position <= q < position + |chunk|)
    ensures var img' := img[BlockNumber(position, blockSize) := NewBlock(img, blockSize, position, chunk)];
      BlockNumber(q, blockSize) in img'
      && BlockOffset(q, blockSize) < |img'[BlockNumber(q, blockSize)]|
      && img'[BlockNumber(q, blockSize)][BlockOffset(q, blockSize)] == c[q]
  {
    CoversAt(img, blockSize, c, q);
    if BlockNumber(q, blockSize) == BlockNumber(position, blockSize) {
      OldBlockFacts(img, blockSize, c, position);
      StartOfPosition(q, blockSize);
    }
  }

  /** After writing a chunk into its block, every position of the new contents is in its block. */
  lemma {:induction false} CoversStep(img: Image, blockSize: nat, c: seq<byte>, position: nat, chunk: seq<byte>)
    requires blockSize > 0 && Dense(img, blockSize, c) && position <= |c|
    requires BlockOffset(position, blockSize) + |chunk| <= blockSize
    ensures Covers(img[BlockNumber(position, blockSize) := NewBlock(img, blockSize, position, chunk)],
                   blockSize, Overwrite(c, position, chunk))
  {
    var img' := img[BlockNumber(position, blockSize) := NewBlock(img, blockSize, position, chunk)];
    var c' := Overwrite(c, position, chunk);
    forall q | 0 <= q < |c'|
      ensures BlockNumber(q, blockSize) in img'
      ensures BlockOffset(q, blockSize) < |img'[BlockNumber(q, blockSize)]|
      ensures img'[BlockNumber(q, blockSize)][BlockOffset(q, blockSize)] == c'[q]
    {
      if position <= q < position + |chunk| {
        WrittenByte(img, blockSize, position, chunk, q);
      } else {
        KeptByte(img, blockSize, c, position, chunk, q);
      }
    }
  }

  /** The written block ends where the new contents end, or at a full block. */
  lemma {:induction false} WrittenBlockLength(img: Image, blockSize: nat, c: seq<byte>, position: nat, chunk: seq<byte>)
    requires blockSize > 0 && Dense(img, blockSize, c) && position <= |c|
    requires BlockOffset(position, blockSize) + |chunk| <= blockSize
    ensures var start := StartOf(BlockNumber(position, blockSize), blockSize);
      var c' := Overwrite(c, position, chunk);
      start <= |c'| && |NewBlock(img, blockSize, position, chunk)| == Min(blockSize, |c'| - start)
  {
    OldBlockFacts(img, blockSize, c, position);
  }

  /** A block the write did not go to keeps its length, which is still its share of the new contents. */
  lemma {:induction false} OtherBlockLength(img: Image, blockSize: nat, c: seq<byte>, position: nat, chunk: seq<byte>, m: nat)
    requires blockSize > 0 && Bounded(img, blockSize, c) && position <= |c|
    requires BlockOffset(position, blockSize) + |chunk| <= blockSize
    requires m in img && m != BlockNumber(position, blockSize)
    ensures var c' := Overwrite(c, position, chunk);
      StartOf(m, blockSize) <= |c'| && |img[m]| == Min(blockSize, |c'| - StartOf(m, blockSize))
  {
    var n := BlockNumber(position, blockSize);
    StartOfPosition(position, blockSize);
    BoundedAt(img, blockSize, c, m);
    if m < n {
      StartOfMonotone(m, n, blockSize);
    } else {
      StartOfMonotone(n, m, blockSize);
    }
  }

  /** After writing a chunk into its block, every block still holds exactly its part of the new contents. */
  lemma {:induction false} BoundedStep(img: Image, blockSize: nat, c: seq<byte>, position: nat, chunk: seq<byte>)
    requires blockSize > 0 && Dense(img, blockSize, c) && position <= |c|
    requires BlockOffset(position, blockSize) + |chunk| <= blockSize
    ensures Bounded(img[BlockNumber(position, blockSize) := NewBlock(img, blockSize, position, chunk)],
                    blockSize, Overwrite(c, position, chunk))
  {
    var n := BlockNumber(position, blockSize);
    var img' := img[n := NewBlock(img, blockSize, position, chunk)];
    var c' := Overwrite(c, position, chunk);
    forall m | m in img'
      ensures StartOf(m, blockSize) <= |c'| && |img'[m]| == Min(blockSize, |c'| - StartOf(m, blockSize))
    {
      if m == n {
        WrittenBlockLength(img, blockSize, c, position, chunk);
      } else {
        OtherBlockLength(img, blockSize, c, position, chunk, m);
      }
    }
  }

  /** Writing a chunk that fits in its block at a position within c keeps the image dense. */
  lemma {:induction false} WriteBlockDense(img: Image, blockSize: nat, c: seq<byte>, position: nat, chunk: seq<byte>)
    requires blockSize > 0 && Dense(img, blockSize, c) && position <= |c|
    requires BlockOffset(position, blockSize) + |chunk| <= blockSize
    ensures Dense(img[BlockNumber(position, blockSize) := NewBlock(img, blockSize, position, chunk)],
                  blockSize, Overwrite(c, position, chunk))
  {
    CoversStep(img, blockSize, c, position, chunk);
    BoundedStep(img, blockSize, c, position, chunk);
  }

  /**
   * On a dense image, a write at a position within c leaves the image dense
   * for c with the bytes written over it: what a later read sees is exactly
   * the old contents overwritten and extended by the write.
   */
  lemma {:induction false} WriteDense(img: Image, blockSize: nat, c: seq<byte>, position: nat, b: seq<byte>)
    requires blockSize > 0 && Dense(img, blockSize, c) && position <= |c|
    ensures Dense(WriteSpec(img, blockSize, position, b), blockSize, Overwrite(c, position, b))
    decreases |b|
  {
    var local := BlockOffset(position, blockSize);
    if local + |b| > blockSize {
      var k := blockSize - local;
      var img1 := img[BlockNumber(position, blockSize) := NewBlock(img, blockSize, position, b[..k])];
      var c1 := Overwrite(c, position, b[..k]);
      WriteDenseFirst(img, blockSize, c, position, b, k, img1, c1);
      WriteDense(img1, blockSize, c1, position + k, b[k..]);
    } else {
      WriteDenseLast(img, blockSize, c, position, b);
    }
  }

  /**
   * A write that spills over its block: after its first chunk the image is
   * dense, and the image is dense after the whole write once it is after the
   * rest.
   */
  lemma {:induction false} WriteDenseFirst(img: Image, blockSize: nat, c: seq<byte>, position: nat, b: seq<byte>, k: nat,
                        img1: Image, c1: seq<byte>)
    requires blockSize > 0 && Dense(img, blockSize, c) && position <= |c|
    requires BlockOffset(position, blockSize) + |b| > blockSize && k == blockSize - BlockOffset(position, blockSize)
    requires img1 == img[BlockNumber(position, blockSize) := NewBlock(img, blockSize, position, b[..k])]
    requires c1 == Overwrite(c, position, b[..k])
    ensures Dense(img1, blockSize, c1) && position + k <= |c1|
    ensures Dense(WriteSpec(img1, blockSize, position + k, b[k..]), blockSize, Overwrite(c1, position + k, b[k..])) ==>
      Dense(WriteSpec(img, blockSize, position, b), blockSize, Overwrite(c, position, b))
  {
    var n := BlockNumber(position, blockSize);
    var local := BlockOffset(position, blockSize);
    WriteBlockDense(img, blockSize, c, position, b[..k]);
    WriteSpecSplit(img, blockSize, position, b, n, local, OldBlock(img, blockSize, position));
    var img' := WriteSpec(img1, blockSize, position + k, b[k..]);
    assert img' == WriteSpec(img, blockSize, position, b);
    OverwriteSplit(c, position, b, k);
    var c' := Overwrite(c1, position + k, b[k..]);
    assert c' == Overwrite(c, position, b);
  }

  /** A write that fits in its block keeps the image dense. */
  lemma {:induction false} WriteDenseLast(img: Image, blockSize: nat, c: seq<byte>, position: nat, b: seq<byte>)
    requires blockSize > 0 && Dense(img, blockSize, c) && position <= |c|
    requires BlockOffset(position, blockSize) + |b| <= blockSize
    ensures Dense(WriteSpec(img, blockSize, position, b), blockSize, Overwrite(c, position, b))
  {
    WriteSpecFits(img, blockSize, position, b, BlockNumber(position, blockSize), BlockOffset(position, blockSize),
                  OldBlock(img, blockSize, position));
    WriteBlockDense(img, blockSize, c, position, b);
  }

  /** Writing at the end of c keeps the image dense for c followed by the bytes written. */
  lemma {:induction false} AppendDense(img: Image, blockSize: nat, c: seq<byte>, b: seq<byte>)
    requires blockSize > 0 && Dense(img, blockSize, c)
    ensures Dense(WriteSpec(img, blockSize, |c|, b), blockSize, c + b)
  {
    WriteDense(img, blockSize, c, |c|, b);
    OverwriteAtEnd(c, b);
  }

  /** On a dense image, what a write put down reads back from where it was written. */
  lemma {:induction false} WriteThenReadDense(img: Image, blockSize: nat, c: seq<byte>, position: nat, b: seq<byte>)
    requires blockSize > 0 && Dense(img, blockSize, c) && position <= |c|
    ensures var img' := WriteSpec(img, blockSize, position, b);
      WellSized(img', blockSize) && ReadSpec(img', blockSize, position, Some(|b|)) == (b, position + |b|)
  {
    var img' := WriteSpec(img, blockSize, position, b);
    var c' := Overwrite(c, position, b);
    WriteDense(img, blockSize, c, position, b);
    ReadDense(img', blockSize, c', position, Some(|b|));
    assert c'[position..position + |b|] == b;
  }

  /** Reading a whole dense image from the start returns c and ends at its end. */
  lemma {:induction false} ReadAllDense(img: Image, blockSize: nat, c: seq<byte>)
    requires blockSize > 0 && Dense(img, blockSize, c)
    ensures WellSized(img, blockSize) && ReadSpec(img, blockSize, 0, None) == (c, |c|)
  {
    ReadDense(img, blockSize, c, 0, None);
    assert c[0..|c|] == c;
  }

  /**
   * A read of `size` bytes followed by a read of the rest returns c from the
   * position on, whatever the size: reading in chunks loses and repeats
   * nothing.
   */
  lemma {:induction false} ReadInChunksDense(img: Image, blockSize: nat, c: seq<byte>, position: nat, size: nat)
    requires blockSize > 0 && Dense(img, blockSize, c) && position <= |c|
    ensures WellSized(img, blockSize)
      && var first := ReadSpec(img, blockSize, position, Some(size));
      var rest := ReadSpec(img, blockSize, first.1, None);
      first.1 <= |c| && first.0 + rest.0 == c[position..] && rest.1 == |c|
  {
    var k := ReadLength(Some(size), |c| - position);
    ReadDense(img, blockSize, c, position, Some(size));
    assert ReadSpec(img, blockSize, position, Some(size)) == (c[position..position + k], position + k);
    ReadDense(img, blockSize, c, position + k, None);
    assert ReadSpec(img, blockSize, position + k, None) == (c[position + k..|c|], |c|);
    SliceSplit(c, position, position + k, |c|);
    assert c[position..] == c[position..|c|];
  }

  /** Every block of a dense image starts before the end of c or at it, so no block is past the one holding |c|. */
  lemma {:induction false} BlocksUpToEnd(img: Image, blockSize: nat, c: seq<byte>, position: nat)
    requires blockSize > 0 && Bounded(img, blockSize, c) && |c| <= position
    ensures forall m :: m in img ==> m <= BlockNumber(position, blockSize)
  {
    var n := BlockNumber(position, blockSize);
    StartOfPosition(position, blockSize);
    forall m | m in img
      ensures m <= n
    {
      if m > n {
        BoundedAt(img, blockSize, c, m);
        StartOfMonotone(n, m, blockSize);
      }
    }
  }

  /** A read on a dense image at or past the end of c returns nothing and does not move. */
  lemma {:induction false} ReadPastEndDense(img: Image, blockSize: nat, c: seq<byte>, position: nat, size: Option<nat>)
    requires blockSize > 0 && Dense(img, blockSize, c) && |c| <= position
    ensures WellSized(img, blockSize) && ReadSpec(img, blockSize, position, size) == ([], position)
  {
    DenseWellSized(img, blockSize, c);
    var n := BlockNumber(position, blockSize);
    BlocksUpToEnd(img, blockSize, c, position);
    StartOfPosition(position, blockSize);
    if n in img {
      BoundedAt(img, blockSize, c, n);
    }
    ReadSpecEnd(img, blockSize, position, size);
  }

  lemma {:induction false} StartOfProduct(n: nat, blockSize: nat)
    ensures StartOf(n, blockSize) == n * blockSize
  {
    if n > 0 {
      StartOfProduct(n - 1, blockSize);
      assert n * blockSize == (n - 1) * blockSize + blockSize;
    }
  }

  /**
   * The end of file that seek-to-end computes is the length of c: a dense
   * image has a block exactly when c is not empty or an empty block 0 was
   * kept, and its largest block ends where c ends.
   */
  lemma {:induction false} EndOfFileDense(img: Image, blockSize: nat, c: seq<byte>)
    requires blockSize > 0 && Dense(img, blockSize, c)
    ensures |c| > 0 ==> img != map[]
    ensures EndOfFile(img, blockSize) == if img == map[] then None else Some(|c|)
  {
    if |c| > 0 {
      CoversAt(img, blockSize, c, 0);
    }
    if img != map[] {
      var m := MaxKey(img.Keys).value;
      StartOfProduct(m, blockSize);
      BoundedAt(img, blockSize, c, m);
      if |c| - StartOf(m, blockSize) > blockSize {
        StartOfBlock(m + 1, 0, blockSize);
        CoversAt(img, blockSize, c, StartOf(m + 1, blockSize) + 0);
      }
    }
  }

  /** The blocks a truncation keeps below the position's block are unchanged and full. */
  lemma {:induction false} TruncateKeptBlock(img: Image, blockSize: nat, c: seq<byte>, position: nat, m: nat)
    requires blockSize > 0 && Bounded(img, blockSize, c) && position <= |c|
    requires m in img && m < BlockNumber(position, blockSize)
    ensures StartOf(m, blockSize) <= position && |img[m]| == Min(blockSize, position - StartOf(m, blockSize))
  {
    StartOfPosition(position, blockSize);
    StartOfMonotone(m, BlockNumber(position, blockSize), blockSize);
    BoundedAt(img, blockSize, c, m);
  }

  /** Truncating a dense image at a position within c leaves it dense for c cut at the position. */
  lemma {:induction false} TruncateDense(img: Image, blockSize: nat, c: seq<byte>, position: nat)
    requires blockSize > 0 && Dense(img, blockSize, c) && position <= |c|
    ensures Dense(TruncateSpec(img, blockSize, position), blockSize, c[..position])
  {
    var n := BlockNumber(position, blockSize);
    var t := TruncateSpec(img, blockSize, position);
    var c' := c[..position];
    OldBlockFacts(img, blockSize, c, position);
    forall m | m in t
      ensures StartOf(m, blockSize) <= |c'| && |t[m]| == Min(blockSize, |c'| - StartOf(m, blockSize))
    {
      if m < n {
        TruncateKeptBlock(img, blockSize, c, position, m);
      }
    }
    forall q | 0 <= q < |c'|
      ensures BlockNumber(q, blockSize) in t
      ensures BlockOffset(q, blockSize) < |t[BlockNumber(q, blockSize)]|
      ensures t[BlockNumber(q, blockSize)][BlockOffset(q, blockSize)] == c'[q]
    {
      CoversAt(img, blockSize, c, q);
      StartOfPosition(q, blockSize);
      if BlockNumber(q, blockSize) > n {
        StartOfMonotone(n, BlockNumber(q, blockSize), blockSize);
      }
    }
  }
}
