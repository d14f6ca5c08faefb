/**
 * The encrypted temporary file: a seekable virtual file made of separately
 * encrypted blocks of `blockSize` bytes, kept in a sparse map from block
 * number to block.
 */
module EncTempFile {
  import opened Wrappers
  import opened BytesIO
  import opened Layout
  import opened Blocks

  /** Every block of `before` is still there, under the same number, in `after`. */
  ghost predicate Keeps(before: map<nat, Block>, after: map<nat, Block>)
  {
    forall j :: j in before ==> j in after && after[j] == before[j]
  }

  lemma {:induction false} KeepsTrans(a: map<nat, Block>, b: map<nat, Block>, c: map<nat, Block>)
    requires Keeps(a, b) && Keeps(b, c)
    ensures Keeps(a, c)
  {
    forall j | j in a
      ensures j in c && c[j] == a[j]
    {
      assert j in b && b[j] == a[j];
    }
  }

  /** Putting back the block a number already has, or a block under a new number, keeps every block. */
  lemma {:induction false} KeepsUpdate(m: map<nat, Block>, n: nat, b: Block)
    requires n in m ==> m[n] == b
    ensures Keeps(m, m[n := b])
  {
  }

  class TemporaryFile {
    const blockSize: nat
    var blocks: map<nat, Block>
    var position: nat
    var closed: bool
    /** How many block keys were generated so far; the next key is this number. */
    var keysIssued: nat
    /** The plaintext of every block, by block number. */
    ghost var Image: Image
    /** The block objects this file owns. */
    ghost var Repr: set<Block>

    /**
     * Every block is owned by the file, knows its own number (so no block
     * object serves two numbers), is valid, has the file's block size and a
     * live key, and holds at most blockSize bytes, which Image records.
     */
    ghost predicate Valid()
      reads this`blocks, this`Image, this`Repr, Repr
    {
      blockSize > 0
      && Image.Keys == blocks.Keys
      && forall n :: n in blocks ==>
           blocks[n] in Repr && blocks[n].Number == n && blocks[n].Valid() && blocks[n].blockSize == blockSize
           && blocks[n].key.Some? && Image[n] == blocks[n].Contents && |Image[n]| <= blockSize
    }

    /**
     * Every block a write of len bytes at `at` runs past the end of (the
     * block it starts in, then each following block it fills, but not the
     * block it ends in) exists and is flushed.
     */
    ghost predicate SpilledFlushed(at: nat, len: nat)
      requires blockSize > 0
      reads this`blocks, this`Repr, Repr
      decreases len
    {
      var n := BlockNumber(at, blockSize);
      var local := BlockOffset(at, blockSize);
      local + len > blockSize ==>
        n in blocks && blocks[n] in Repr && blocks[n].buffer.None?
        && SpilledFlushed(at + (blockSize - local), len - (blockSize - local))
    }

    /** One step of SpilledFlushed: the first block is flushed and so is every later one the write runs past. */
    lemma {:induction false} SpilledFlushedStep(at: nat, len: nat, n: nat, rest: nat, restLen: nat)
      requires blockSize > 0
      requires n == BlockNumber(at, blockSize) && BlockOffset(at, blockSize) + len > blockSize
      requires rest == at + (blockSize - BlockOffset(at, blockSize)) && restLen == len - (blockSize - BlockOffset(at, blockSize))
      requires n in blocks && blocks[n] in Repr && blocks[n].buffer.None?
      requires SpilledFlushed(rest, restLen)
      ensures SpilledFlushed(at, len)
    {
    }

    /**
     * SpilledFlushed read as a range: every block from the one the write
     * starts in up to (not including) the one it ends in exists and is
     * flushed.
     */
    lemma {:induction false} SpilledFlushedRange(at: nat, len: nat)
      requires blockSize > 0 && SpilledFlushed(at, len)
      ensures forall j :: BlockNumber(at, blockSize) <= j < LastBlock(at, len, blockSize) ==>
        j in blocks && blocks[j].buffer.None?
      decreases len
    {
      var n := BlockNumber(at, blockSize);
      var local := BlockOffset(at, blockSize);
      if local + len > blockSize {
        var k := blockSize - local;
        SplitStep(at, len, blockSize, n, k);
        SpilledFlushedRange(at + k, len - k);
      } else {
        FitStep(at, len, blockSize);
      }
    }

    lemma {:induction false} ImageWellSized()
      requires Valid()
      ensures WellSized(Image, blockSize)
    {
    }

    constructor (blockSize: nat)
      requires blockSize > 0
      ensures Valid() && this.blockSize == blockSize
      ensures blocks == map[] && position == 0 && !closed && Repr == {}
    {
      this.blockSize := blockSize;
      blocks := map[];
      position := 0;
      closed := false;
      keysIssued := 0;
      Image := map[];
      Repr := {};
    }

    /** The largest block number in use, by a scan over all of them. */
    method GetMaxBlockNumber() returns (r: Option<nat>)
      ensures r == MaxKey(blocks.Keys)
    {
      r := None;
      ghost var before := blocks;
      var rest := blocks.Keys;
      while rest != {}
        invariant rest <= blocks.Keys
        invariant r == MaxKey(blocks.Keys - rest)
        decreases rest
      {
        var k :| k in rest;
        ghost var seen := blocks.Keys - rest;
        if r.None? || k > r.value {
          r := Some(k);
        }
        rest := rest - {k};
        assert blocks.Keys - rest == seen + {k};
        MaxKeyIs(seen + {k}, r.value);
      }
      assert blocks.Keys - rest == blocks.Keys;
    }

    /**
     * Adds a new empty block under number n with a fresh key; a number that
     * is already in use is an implementation error and adds nothing.
     */
    method CreateBlock(n: nat) returns (r: Option<Block>)
      requires Valid()
      modifies this`blocks, this`Image, this`Repr, this`keysIssued
      ensures Valid()
      ensures r.Some? <==> n !in old(blocks)
      ensures r.None? ==> blocks == old(blocks)
      ensures r.Some? ==> fresh(r.value) && blocks == old(blocks)[n := r.value]
      ensures r.Some? ==> Image == old(Image)[n := []]
      ensures old(Repr) <= Repr && fresh(Repr - old(Repr))
    {
      var block := new Block(blockSize, keysIssued, n);
      keysIssued := keysIssued + 1;
      if n in blocks {
        return None;
      }
      blocks := blocks[n := block];
      Image := Image[n := []];
      Repr := Repr + {block};
      return Some(block);
    }

    /**
     * The block under number n, created (empty, with a fresh key) when there
     * is none yet.
     */
    method GetOrCreateBlock(n: nat) returns (current: Block)
      requires Valid()
      modifies this`blocks, this`Image, this`Repr, this`keysIssued
      ensures Valid()
      ensures blocks == old(blocks)[n := current] && current.Number == n
      ensures old(Repr) <= Repr && fresh(Repr - old(Repr))
      ensures n in old(blocks) ==> current == old(blocks)[n] && Image == old(Image)
      ensures n !in old(blocks) ==> fresh(current) && Image == old(Image)[n := []]
    {
      if n in blocks {
        current := blocks[n];
      } else {
        var created := CreateBlock(n);
        current := created.value;
      }
    }

    /**
     * Writes `chunk` into block n at offset `local`, then flushes the block
     * when `flush` is set; the chunk must fit in the block.
     */
    method WriteIntoBlock(current: Block, n: nat, local: nat, chunk: seq<byte>, flush: bool)
      requires Valid() && n in blocks && current == blocks[n]
      requires local + |chunk| <= blockSize
      modifies this`Image, current
      ensures Valid()
      ensures Image == old(Image)[n := WriteInBlock(old(Image)[n], local, chunk)]
      ensures flush ==> current.buffer.None?
    {
      WriteAt(current, local, chunk);
      Image := Image[n := current.Contents];
      if flush {
        FlushBlock(current, n);
      }
    }

    /** Seeks a block's buffer to `local` and writes `chunk` there, which fits in the block. */
    static method WriteAt(current: Block, local: nat, chunk: seq<byte>)
      requires current.Valid() && |current.Contents| <= current.blockSize && local + |chunk| <= current.blockSize
      modifies current
      ensures current.Valid() && current.key == old(current.key)
      ensures current.Contents == WriteInBlock(old(current.Contents), local, chunk)
      ensures |current.Contents| <= current.blockSize
    {
      var sought := current.Seek(local, SEEK_SET);
      WriteInBlockBuffer(old(current.Contents), local, chunk);
      var ok := current.Write(chunk);
      assert ok;  // the block never outgrows blockSize
    }

    /** Flushes block n: its plaintext moves to the backing store, unchanged. */
    method FlushBlock(current: Block, n: nat)
      requires Valid() && n in blocks && current == blocks[n]
      modifies current
      ensures Valid() && current.buffer.None?
    {
      var written := current.Flush();
    }

    /**
     * The block-level part of a write: `chunk`, which fits in block n from
     * offset `local` on, goes into that block (created if needed), which is
     * then flushed when `flush` is set. `data` is the block's plaintext
     * before, empty for a block that does not exist yet.
     */
    method WriteChunk(n: nat, local: nat, ghost data: seq<byte>, chunk: seq<byte>, flush: bool) returns (current: Block)
      requires Valid()
      requires data == if n in Image then Image[n] else []
      requires local + |chunk| <= blockSize
      modifies this`blocks, this`Image, this`Repr, this`keysIssued
      modifies set o | o in Repr && o.Number == n
      ensures Valid()
      ensures old(Repr) <= Repr && fresh(Repr - old(Repr))
      ensures Image == old(Image)[n := WriteInBlock(data, local, chunk)]
      ensures blocks == old(blocks)[n := current] && current.Number == n
      ensures n in old(blocks) ==> current == old(blocks)[n]
      ensures flush ==> current.buffer.None?
    {
      current := GetOrCreateBlock(n);
      WriteIntoBlock(current, n, local, chunk, flush);
    }

    /**
     * Writes `b` at the position and moves the position past it. The part
     * that fits in the position's block is written there; when more is left,
     * that block is flushed and the rest is written from the next block's
     * start. Blocks are created as needed and none grows past blockSize.
     */
    method Write(b: seq<byte>)
      requires Valid()
      modifies this`blocks, this`Image, this`Repr, this`keysIssued, this`position
      modifies set o | o in Repr && o.Number >= BlockNumber(position, blockSize)
      decreases |b|, 1
      ensures Valid()
      ensures position == old(position) + |b|
      ensures old(Repr) <= Repr && fresh(Repr - old(Repr))
      ensures Image == WriteSpec(old(Image), blockSize, old(position), b)
      ensures Keeps(old(blocks), blocks)
      ensures SpilledFlushed(old(position), |b|)
    {
      var n := BlockNumber(position, blockSize);
      var local := BlockOffset(position, blockSize);
      if local + |b| > blockSize {
        WriteSpill(b, n, local);
      } else {
        WriteWithin(b, n, local);
      }
    }

    /**
     * A write that spills over the position's block: the part of `b` that
     * fits fills that block, which is then flushed, and the rest is written
     * from the next block's start.
     */
    method WriteSpill(b: seq<byte>, n: nat, local: nat)
      requires Valid()
      requires n == BlockNumber(position, blockSize) && local == BlockOffset(position, blockSize)
      requires local + |b| > blockSize
      modifies this`blocks, this`Image, this`Repr, this`keysIssued, this`position
      modifies set o | o in Repr && o.Number >= n
      decreases |b|, 0
      ensures Valid()
      ensures position == old(position) + |b|
      ensures old(Repr) <= Repr && fresh(Repr - old(Repr))
      ensures Image == WriteSpec(old(Image), blockSize, old(position), b)
      ensures Keeps(old(blocks), blocks)
      ensures SpilledFlushed(old(position), |b|)
    {
      var k := blockSize - local;
      NextBlock(position, blockSize);
      assert |b[k..]| == |b| - k;
      var current := FillBlock(b, n, local, k);
      ghost var at := position;
      assert BlockNumber(at, blockSize) == n + 1;
      label Filled:
      WriteAfterFlushed(b[k..], n, current);
      KeepsTrans(old(blocks), old@Filled(blocks), blocks);
      SpilledFlushedStep(old(position), |b|, n, at, |b[k..]|);
    }

    /**
     * The rest of a spilling write, from the start of the block after block
     * n: block n, already flushed, stays in place and flushed.
     */
    method WriteAfterFlushed(b: seq<byte>, ghost n: nat, ghost current: Block)
      requires Valid()
      requires n in blocks && blocks[n] == current && current.buffer.None?
      requires n < BlockNumber(position, blockSize)
      modifies this`blocks, this`Image, this`Repr, this`keysIssued, this`position
      modifies set o | o in Repr && o.Number >= BlockNumber(position, blockSize)
      decreases |b|, 2
      ensures Valid()
      ensures position == old(position) + |b|
      ensures old(Repr) <= Repr && fresh(Repr - old(Repr))
      ensures Image == WriteSpec(old(Image), blockSize, old(position), b)
      ensures Keeps(old(blocks), blocks)
      ensures SpilledFlushed(old(position), |b|)
      ensures n in blocks && blocks[n] == current && current in Repr && current.buffer.None?
    {
      Write(b);
      assert n in old(blocks);
    }

    /**
     * A write that fits in the position's block from the position on: `b`
     * goes into that block, which is not flushed, and the position moves
     * past it.
     */
    method WriteWithin(b: seq<byte>, n: nat, local: nat)
      requires Valid()
      requires n == BlockNumber(position, blockSize) && local == BlockOffset(position, blockSize)
      requires local + |b| <= blockSize
      modifies this`blocks, this`Image, this`Repr, this`keysIssued, this`position
      modifies set o | o in Repr && o.Number == n
      ensures Valid()
      ensures old(Repr) <= Repr && fresh(Repr - old(Repr))
      ensures position == old(position) + |b|
      ensures Image == WriteSpec(old(Image), blockSize, old(position), b)
      ensures Keeps(old(blocks), blocks)
      ensures SpilledFlushed(old(position), |b|)
    {
      ghost var data := if n in Image then Image[n] else [];
      WriteSpecFits(Image, blockSize, position, b, n, local, data);
      var current := WriteChunk(n, local, data, b, false);
      KeepsUpdate(old(blocks), n, current);
      position := position + |b|;
    }

    /**
     * The first step of a write that spills over the position's block: the
     * first k bytes of `b` fill that block, which is then flushed, and the
     * position moves to the next block's start, where the rest of `b` goes.
     */
    method FillBlock(b: seq<byte>, n: nat, local: nat, k: nat) returns (current: Block)
      requires Valid()
      requires n == BlockNumber(position, blockSize) && local == BlockOffset(position, blockSize)
      requires local + |b| > blockSize && k == blockSize - local
      modifies this`blocks, this`Image, this`Repr, this`keysIssued, this`position
      modifies set o | o in Repr && o.Number == n
      ensures Valid()
      ensures old(Repr) <= Repr && fresh(Repr - old(Repr))
      ensures position == old(position) + k
      ensures WriteSpec(Image, blockSize, position, b[k..]) == WriteSpec(old(Image), blockSize, old(position), b)
      ensures Keeps(old(blocks), blocks) && n in blocks && blocks[n] == current
      ensures current.Number == n && current.buffer.None?
    {
      ghost var data := if n in Image then Image[n] else [];
      ghost var img := Image;
      current := WriteChunk(n, local, data, b[..k], true);
      KeepsUpdate(old(blocks), n, current);
      position := position + k;
      WriteSpecChain(img, blockSize, old(position), b, n, local, data, k, Image, position, b[k..]);
    }

    /**
     * Reads from block n at offset `local`, after seeking the block's buffer
     * there; the block's plaintext is unchanged.
     */
    method ReadFromBlock(current: Block, n: nat, local: nat, size: Option<nat>) returns (chunk: seq<byte>)
      requires Valid() && n in blocks && current == blocks[n]
      modifies current
      ensures Valid()
      ensures chunk == ReadInBlock(Image[n], local, size)
    {
      var sought := current.Seek(local, SEEK_SET);
      chunk := current.Read(SizeArg(size));
      ReadInBlockBuffer(Image[n], local, size);
    }

    /**
     * One round of a read at the position with `rest` bytes still wanted:
     * either the read is over (done) or `chunk`, which is not empty, is what
     * this round yields and the position has moved past it. An existing block
     * is read from the position's offset and yields nothing at its end; a
     * missing block below the largest existing one yields zero bytes up to
     * its end; a missing block at or above it ends the read.
     */
    method ReadStep(rest: Option<nat>) returns (chunk: seq<byte>, done: bool)
      requires Valid()
      modifies this`position, Repr
      ensures Valid() && WellSized(Image, blockSize)
      ensures done ==> position == old(position) && ReadSpec(Image, blockSize, position, rest) == ([], position)
      ensures !done ==>
        |chunk| > 0 && position == old(position) + |chunk| && (rest.None? || |chunk| <= rest.value)
        && ReadSpec(Image, blockSize, old(position), rest)
           == (chunk + ReadSpec(Image, blockSize, position, Remaining(rest, |chunk|)).0,
               ReadSpec(Image, blockSize, position, Remaining(rest, |chunk|)).1)
    {
      ImageWellSized();
      ghost var start := position;
      chunk, done := ReadRoundAt(rest);
      ReadSpecRound(Image, blockSize, start, rest, chunk, done);
    }

    /** One round of a read at the position, as ReadRound states it, moving the position past what it yields. */
    method ReadRoundAt(rest: Option<nat>) returns (chunk: seq<byte>, done: bool)
      requires Valid()
      modifies this`position, Repr
      ensures Valid()
      ensures (chunk, done) == ReadRound(Image, blockSize, old(position), rest)
      ensures position == old(position) + |chunk|
    {
      if rest == Some(0) {
        return [], true;
      }
      var n := BlockNumber(position, blockSize);
      var local := BlockOffset(position, blockSize);
      if n !in blocks {
        var m := GetMaxBlockNumber();
        assert m == MaxKey(Image.Keys);
        if m.None? || n >= m.value {
          return [], true;
        }
        var k := if rest.None? then blockSize - local else Min(rest.value, blockSize - local);
        chunk := Zeros(k);
      } else {
        chunk := ReadFromBlock(blocks[n], n, local, rest);
        if |chunk| == 0 {
          return [], true;
        }
      }
      position := position + |chunk|;
      done := false;
    }

    /**
     * Reads `size` bytes (everything when None) from the position, round by
     * round, and moves the position past them.
     */
    method Read(size: Option<nat>) returns (data: seq<byte>)
      requires Valid()
      modifies this`position, Repr
      ensures Valid()
      ensures (data, position) == ReadSpec(Image, blockSize, old(position), size)
    {
      ImageWellSized();
      ghost var tail := ReadSpec(Image, blockSize, position, size);
      ghost var total := tail;
      data := [];
      var rest := size;
      while true
        invariant Valid()
        invariant tail == ReadSpec(Image, blockSize, position, rest)
        invariant total.0 == data + tail.0 && total.1 == tail.1
        invariant position <= total.1
        decreases total.1 - position
      {
        var chunk, done := ReadStep(rest);
        if done {
          assert data + [] == data;
          return;
        }
        rest := Remaining(rest, |chunk|);
        ghost var next := ReadSpec(Image, blockSize, position, rest);
        assert data + tail.0 == (data + chunk) + next.0;
        data := data + chunk;
        tail := next;
      }
    }

    /**
     * The file size as seeking to the end sees it (None without blocks): the
     * largest block's length, found through its buffer whose cursor is then
     * put back, plus the bytes of all the blocks before it. No block changes
     * in any way a later access sees.
     */
    method EndOfFileSize() returns (size: Option<nat>)
      requires Valid()
      modifies Repr
      ensures Valid() && size == EndOfFile(Image, blockSize)
      ensures forall k :: k in blocks ==> blocks[k].View() == old(blocks[k].View())
    {
      var m := GetMaxBlockNumber();
      if m.None? {
        return None;
      }
      var maxBlockSize := BlockLength(blocks[m.value]);
      return Some(maxBlockSize + m.value * blockSize);
    }

    /**
     * A block's length, found by seeking its buffer to the end and reading
     * the cursor, after which the cursor is put back where it was.
     */
    static method BlockLength(current: Block) returns (len: nat)
      requires current.Valid()
      modifies current
      ensures current.Valid() && current.key == old(current.key) && current.fp == old(current.fp)
      ensures current.Contents == old(current.Contents) && current.View() == old(current.View())
      ensures len == |current.Contents|
    {
      var saved := current.Tell();
      var _ := current.Seek(0, SEEK_END);
      len := current.Tell();
      var _ := current.Seek(saved, SEEK_SET);
    }

    /**
     * Moves the position as SeekSpec says, leaving every block as a later
     * access sees it. The caller must not move the position before the start
     * of the file.
     */
    method Seek(offset: int, whence: int) returns (r: Outcome<Error>)
      requires Valid()
      requires SeekSpec(Image, blockSize, position, offset, whence).Success? ==>
        SeekSpec(Image, blockSize, position, offset, whence).value >= 0
      modifies this`position, Repr
      ensures Valid()
      ensures SeekSpec(Image, blockSize, old(position), offset, whence).Success? ==>
        r == Pass && position == SeekSpec(Image, blockSize, old(position), offset, whence).value
      ensures SeekSpec(Image, blockSize, old(position), offset, whence).Failure? ==>
        r == Fail(ValueError) && position == old(position)
      ensures forall k :: k in blocks ==> blocks[k].View() == old(blocks[k].View())
    {
      if whence == SEEK_SET {
        position := offset;
      } else if whence == SEEK_END {
        var size := EndOfFileSize();
        if size.None? {
          return Pass;
        }
        position := size.value - offset;
      } else if whence == SEEK_CUR {
        position := position + offset;
      } else {
        return Fail(ValueError);
      }
      return Pass;
    }

    /** Flushes every block, so that no block keeps a plaintext buffer. */
    method Flush()
      requires Valid()
      modifies Repr
      ensures Valid()
      ensures forall k :: k in blocks ==> blocks[k].buffer.None?
    {
      ghost var before := blocks;
      var rest := blocks.Keys;
      while rest != {}
        invariant Valid() && rest <= blocks.Keys
        invariant forall k :: k in blocks && k !in rest ==> blocks[k].buffer.None?
        decreases rest
      {
        var k :| k in rest;
        var _ := blocks[k].Flush();
        rest := rest - {k};
      }
    }

    /**
     * Closes every block, which discards its backing store and its key, then
     * forgets all blocks and marks the file closed. The file is left valid and
     * empty, so closing again is harmless.
     */
    method Close()
      requires Valid()
      modifies this`blocks, this`Image, this`Repr, this`closed, Repr
      ensures Valid() && closed && blocks == map[] && Image == map[]
      ensures forall k :: k in old(blocks) ==> old(blocks)[k].key.None? && old(blocks)[k].fp.None? && old(blocks)[k].buffer.None?
    {
      ghost var before := blocks;
      var rest := blocks.Keys;
      while rest != {}
        invariant rest <= blocks.Keys && blocks == old(blocks)
        invariant forall k :: k in blocks ==> blocks[k] in Repr && blocks[k].Number == k
        invariant forall k :: k in blocks && k !in rest ==> blocks[k].key.None? && blocks[k].fp.None? && blocks[k].buffer.None?
        decreases rest
      {
        var k :| k in rest;
        blocks[k].Close();
        rest := rest - {k};
      }
      blocks := map[];
      Image := map[];
      Repr := {};
      closed := true;
    }

    /** Closes block k, which discards its key and backing store, and drops it. */
    method DropBlock(k: nat)
      requires Valid() && k in blocks
      modifies this`blocks, this`Image, blocks[k]
      ensures Valid() && blocks == old(blocks) - {k} && Image == old(Image) - {k}
      ensures old(blocks)[k].key.None? && old(blocks)[k].fp.None?
    {
      blocks[k].Close();
      blocks := blocks - {k};
      Image := Image - {k};
    }

    /**
     * Closes and drops every block above block n, visiting the block numbers
     * of a snapshot taken before any is dropped.
     */
    method DropBlocksAbove(n: nat)
      requires Valid()
      modifies this`blocks, this`Image, Repr
      ensures Valid() && Image == map k | k in old(Image) && k <= n :: old(Image)[k]
      ensures blocks == map k | k in old(blocks) && k <= n :: old(blocks)[k]
      ensures forall j :: j in old(blocks) && j > n ==> old(blocks)[j].key.None? && old(blocks)[j].fp.None?
    {
      var rest := blocks.Keys;
      while rest != {}
        invariant Valid()
        invariant Image == Kept(old(Image), n, rest)
        invariant blocks == Kept(old(blocks), n, rest)
        invariant forall j :: j in old(blocks) && j > n && j !in rest ==>
          old(blocks)[j].key.None? && old(blocks)[j].fp.None?
        decreases rest
      {
        var k :| k in rest;
        VisitBlock(k, n, rest, old(Image), old(blocks));
        rest := rest - {k};
      }
    }

    /**
     * One turn of DropBlocksAbove's loop: block k is closed and dropped when
     * it is above block n, and the blocks dropped before stay closed.
     */
    method VisitBlock(k: nat, n: nat, ghost rest: set<nat>, ghost img: Image, ghost before: map<nat, Block>)
      requires Valid() && k in rest
      requires Image == Kept(img, n, rest) && blocks == Kept(before, n, rest)
      requires forall j :: j in before ==> before[j].Number == j
      requires forall j :: j in before && j > n && j !in rest ==> before[j].key.None? && before[j].fp.None?
      modifies this`blocks, this`Image, set o | o in Repr && o.Number == k
      ensures Valid()
      ensures Image == Kept(img, n, rest - {k}) && blocks == Kept(before, n, rest - {k})
      ensures forall j :: j in before && j > n && j !in rest - {k} ==> before[j].key.None? && before[j].fp.None?
    {
      DropIfAbove(k, n);
      KeptStep(img, n, rest, k);
      KeptStep(before, n, rest, k);
    }

    /** Closes and drops block k when it is above block n and still present. */
    method DropIfAbove(k: nat, n: nat)
      requires Valid()
      modifies this`blocks, this`Image, set o | o in Repr && o.Number == k
      ensures Valid()
      ensures blocks == if k > n && k in old(blocks) then old(blocks) - {k} else old(blocks)
      ensures Image == if k > n && k in old(Image) then old(Image) - {k} else old(Image)
      ensures k > n && k in old(blocks) ==> old(blocks)[k].key.None? && old(blocks)[k].fp.None?
    {
      if k > n && k in blocks {
        DropBlock(k);
      }
    }

    /** Cuts block n at offset `local` through its buffer, then flushes it. */
    method CutBlockAt(n: nat, local: nat)
      requires Valid() && n in blocks
      modifies this`Image, blocks[n]
      ensures Valid() && Image == old(Image)[n := CutBlock(old(Image)[n], local)]
      ensures blocks[n].buffer.None?
    {
      CutAt(blocks[n], local);
      Image := Image[n := blocks[n].Contents];
    }

    /** Seeks a block's buffer to `local`, truncates it there and flushes the block. */
    static method CutAt(current: Block, local: nat)
      requires current.Valid() && current.key.Some?
      modifies current
      ensures current.Valid() && current.key == old(current.key) && current.buffer.None?
      ensures current.Contents == CutBlock(old(current.Contents), local)
    {
      var _ := current.Seek(local, SEEK_SET);
      var _ := current.Truncate(None);
      var _ := current.Flush();
    }

    /**
     * Truncates the file at the position: every block above the position's
     * block is closed and dropped, and that block, when present, is cut at
     * the position's offset and flushed.
     */
    method TruncateBlocks()
      requires Valid()
      modifies this`blocks, this`Image, Repr
      ensures Valid() && Image == TruncateSpec(old(Image), blockSize, position)
      ensures BlockNumber(position, blockSize) in blocks ==> blocks[BlockNumber(position, blockSize)].buffer.None?
      ensures forall j :: j in old(blocks) && j > BlockNumber(position, blockSize) ==>
        old(blocks)[j].key.None? && old(blocks)[j].fp.None?
    {
      var n := BlockNumber(position, blockSize);
      DropBlocksAbove(n);
      if n in blocks {
        CutBlockAt(n, BlockOffset(position, blockSize));
      }
    }

    /**
     * truncate(size): with no size the file is truncated at the position,
     * which is left as it was; a size fails with AttributeError before
     * anything changes, since that path reads an attribute the file does not
     * have.
     */
    method Truncate(size: Option<int>) returns (r: Outcome<Error>)
      requires Valid()
      modifies this`blocks, this`Image, this`position, Repr
      ensures Valid() && position == old(position)
      ensures size.Some? ==> r == Fail(AttributeError) && blocks == old(blocks) && Image == old(Image)
      ensures size.None? ==> r == Pass && Image == TruncateSpec(old(Image), blockSize, position)
      ensures size.None? && BlockNumber(position, blockSize) in blocks ==> blocks[BlockNumber(position, blockSize)].buffer.None?
      ensures size.None? ==> forall j :: j in old(blocks) && j > BlockNumber(position, blockSize) ==>
        old(blocks)[j].key.None? && old(blocks)[j].fp.None?
    {
      var saved := position;
      if size.Some? {
        return Fail(AttributeError);
      }
      TruncateBlocks();
      position := saved;
      return Pass;
    }

    /**
     * truncate(size) as evidently intended: the file is truncated at the
     * absolute position `size`, and the position is left as it was.
     */
    method TruncateTo(size: nat)
      requires Valid()
      modifies this`blocks, this`Image, this`position, Repr
      ensures Valid() && position == old(position)
      ensures Image == TruncateSpec(old(Image), blockSize, size)
      ensures BlockNumber(size, blockSize) in blocks ==> blocks[BlockNumber(size, blockSize)].buffer.None?
      ensures forall j :: j in old(blocks) && j > BlockNumber(size, blockSize) ==>
        old(blocks)[j].key.None? && old(blocks)[j].fp.None?
    {
      var saved := position;
      position := size;
      TruncateBlocks();
      position := saved;
    }

    method Tell() returns (p: nat)
      ensures p == position
    {
      return position;
    }
  }
}
