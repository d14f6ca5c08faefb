/**
 * Whole-file behaviour of TemporaryFile, as its test suite exercises it: a
 * file written from the start reads back exactly what was written, whole or
 * a byte at a time, in chunks of any sizes followed by the remainder, and an
 * untouched file reads as empty.
 */
module Scenarios {
  import opened Wrappers
  import opened BytesIO
  import opened Layout
  import opened Contents
  import opened EncTempFile

  /** The five bytes of "hello". */
  function Hello(): (r: seq<byte>)
    ensures |r| == 5
  {
    [0x68, 0x65, 0x6c, 0x6c, 0x6f]
  }

  /** The chunks laid end to end. */
  function Concat(chunks: seq<seq<byte>>): (r: seq<byte>)
    ensures |chunks| == 0 ==> r == []
  {
    if |chunks| == 0 then [] else Concat(chunks[..|chunks| - 1]) + chunks[|chunks| - 1]
  }

  /**
   * Writes "hello" to a new file with the default block size, flushes,
   * rewinds and reads everything; then rewinds and reads one byte six
   * times.
   */
  method Basic() returns (whole: seq<byte>, singles: seq<seq<byte>>)
    ensures whole == Hello()
    ensures singles == [[0x68], [0x65], [0x6c], [0x6c], [0x6f], []]
  {
    var f := new TemporaryFile(DEFAULT_BLOCK_SIZE);
    f.Write(Hello());
    ghost var img := f.Image;
    HelloDense(img);
    f.Flush();
    var r := f.Seek(0, SEEK_SET);
    whole := f.Read(None);
    ReadAllDense(img, DEFAULT_BLOCK_SIZE, Hello());
    r := f.Seek(0, SEEK_SET);
    singles := ReadSingles(f, img);
  }

  /** After writing "hello" to a new file, its image is dense for "hello". */
  lemma {:induction false} HelloDense(img: Image)
    requires img == WriteSpec(map[], DEFAULT_BLOCK_SIZE, 0, Hello())
    ensures Dense(img, DEFAULT_BLOCK_SIZE, Hello())
  {
    EmptyDense(DEFAULT_BLOCK_SIZE);
    AppendDense(map[], DEFAULT_BLOCK_SIZE, [], Hello());
    assert [] + Hello() == Hello();
  }

  /** Six reads of one byte from the start of a file that holds "hello". */
  method ReadSingles(f: TemporaryFile, ghost img: Image) returns (singles: seq<seq<byte>>)
    requires f.Valid() && f.Image == img && f.blockSize == DEFAULT_BLOCK_SIZE && f.position == 0
    requires Dense(img, DEFAULT_BLOCK_SIZE, Hello())
    modifies f`position, f.Repr
    ensures singles == [[0x68], [0x65], [0x6c], [0x6c], [0x6f], []]
  {
    var b1 := ReadOne(f, img, 0);
    var b2 := ReadOne(f, img, 1);
    var b3 := ReadOne(f, img, 2);
    var b4 := ReadOne(f, img, 3);
    var b5 := ReadOne(f, img, 4);
    var b6 := ReadOne(f, img, 5);
    singles := [b1, b2, b3, b4, b5, b6];
  }

  /** One read of one byte at position i of a file that holds "hello": its byte, or nothing past the end. */
  method ReadOne(f: TemporaryFile, ghost img: Image, i: nat) returns (one: seq<byte>)
    requires f.Valid() && f.Image == img && f.blockSize == DEFAULT_BLOCK_SIZE && f.position == i <= 5
    requires Dense(img, DEFAULT_BLOCK_SIZE, Hello())
    modifies f`position, f.Repr
    ensures f.Valid() && f.position == Min(i + 1, 5)
    ensures one == if i < 5 then [Hello()[i]] else []
  {
    one := f.Read(Some(1));
    if i < 5 {
      ReadDense(img, DEFAULT_BLOCK_SIZE, Hello(), i, Some(1));
      assert ReadLength(Some(1), |Hello()| - i) == 1;
    } else {
      ReadPastEndDense(img, DEFAULT_BLOCK_SIZE, Hello(), i, Some(1));
    }
  }

  /** Reading everything from a new file gives nothing. */
  method Empty() returns (data: seq<byte>)
    ensures data == []
  {
    var f := new TemporaryFile(5000);
    EmptyDense(5000);
    data := f.Read(None);
    ReadAllDense(f.Image, 5000, []);
  }

  /** Writes the chunks one after the other from the start of an empty file. */
  method WriteAll(f: TemporaryFile, written: seq<seq<byte>>)
    requires f.Valid() && f.Image == map[] && f.position == 0
    modifies f`blocks, f`Image, f`Repr, f`keysIssued, f`position, f.Repr
    ensures f.Valid() && old(f.Repr) <= f.Repr && fresh(f.Repr - old(f.Repr))
    ensures Dense(f.Image, f.blockSize, Concat(written))
  {
    EmptyDense(f.blockSize);
    var i := 0;
    while i < |written|
      invariant 0 <= i <= |written| && f.Valid() && old(f.Repr) <= f.Repr && fresh(f.Repr - old(f.Repr))
      invariant f.position == |Concat(written[..i])| && Dense(f.Image, f.blockSize, Concat(written[..i]))
    {
      AppendDense(f.Image, f.blockSize, Concat(written[..i]), written[i]);
      f.Write(written[i]);
      assert written[..i + 1][..i] == written[..i];
      i := i + 1;
    }
    assert written[..|written|] == written;
  }

  /** Reads chunks of the given sizes from the start of a file whose image is dense for c. */
  method ReadChunks(f: TemporaryFile, ghost c: seq<byte>, sizes: seq<nat>) returns (pieces: seq<seq<byte>>)
    requires f.Valid() && Dense(f.Image, f.blockSize, c) && f.position == 0
    modifies f`position, f.Repr
    ensures f.Valid() && |pieces| == |sizes|
    ensures f.position <= |c| && Concat(pieces) == c[..f.position]
  {
    pieces := [];
    var j := 0;
    while j < |sizes|
      invariant 0 <= j <= |sizes| && |pieces| == j && f.Valid()
      invariant f.position <= |c| && Concat(pieces) == c[..f.position]
    {
      ghost var start := f.position;
      var chunk := f.Read(Some(sizes[j]));
      ReadDense(f.Image, f.blockSize, c, start, Some(sizes[j]));
      assert c[..f.position] == c[..start] + c[start..f.position];
      pieces := pieces + [chunk];
      assert pieces[..|pieces| - 1] == pieces[..j];
      j := j + 1;
    }
  }

  /**
   * Writes the chunks one after the other into a new file, rewinds, reads
   * chunks of the given sizes and then the remainder: what was read, laid
   * end to end, is what was written.
   */
  method WriteThenReadInChunks(blockSize: nat, written: seq<seq<byte>>, sizes: seq<nat>)
      returns (pieces: seq<seq<byte>>, remainder: seq<byte>)
    requires blockSize > 0
    ensures |pieces| == |sizes|
    ensures Concat(pieces) + remainder == Concat(written)
  {
    var f := new TemporaryFile(blockSize);
    WriteAll(f, written);
    ghost var c := Concat(written);
    var r := f.Seek(0, SEEK_SET);
    pieces := ReadChunks(f, c, sizes);
    ghost var at := f.position;
    remainder := ReadRemainder(f, c);
    assert c == c[..at] + c[at..|c|];
  }

  /** Reads everything from the position of a file whose image is dense for c: the rest of c. */
  method ReadRemainder(f: TemporaryFile, ghost c: seq<byte>) returns (remainder: seq<byte>)
    requires f.Valid() && Dense(f.Image, f.blockSize, c) && f.position <= |c|
    modifies f`position, f.Repr
    ensures remainder == c[old(f.position)..]
  {
    ghost var at := f.position;
    remainder := f.Read(None);
    ReadDense(f.Image, f.blockSize, c, at, None);
  }
}
