/**
 * The read loop and truncate's block deletion of TemporaryFile as the code
 * states them, beside the corrected behaviour the rest of the model uses,
 * with the inputs on which the two differ.
 */
module Findings {
  import opened Wrappers
  import opened BytesIO
  import opened Layout
  import opened Contents
  import Scenarios

  /** prefix followed by what the rest of the loop returns, if it returns. */
  function Then(prefix: seq<byte>, rest: Option<(seq<byte>, int)>): (r: Option<(seq<byte>, int)>)
    ensures r.Some? <==> rest.Some?
    ensures r.Some? ==> r.value == (prefix + rest.value.0, rest.value.1)
  {
    if rest.None? then None else Some((prefix + rest.value.0, rest.value.1))
  }

  /**
   * TemporaryFile.read as written, for at most `fuel` turns of its loop
   * (None: still looping). `size` is an int whose -1 means "to the end" but
   * which is decreased by every block read, the end test compares the
   * largest block number with the current one for equality, and a negative
   * zero-fill count moves the position back. Block number and offset are
   * floor division and remainder, which Dafny's `/` and `%` compute for a
   * positive block size.
   */
  ghost function ReadLoop(img: Image, blockSize: nat, position: int, size: int, fuel: nat): (r: Option<(seq<byte>, int)>)
    requires blockSize > 0
    decreases fuel
  {
    if fuel == 0 then None
    else if size == 0 then Some(([], position))
    else
      var n := position / blockSize;
      var local := position % blockSize;
      if n < 0 || n as nat !in img then
        var m := MaxKey(img.Keys);
        if m.None? || m.value == n then Some(([], position))
        else
          var room := blockSize - local;
          var toReturn := if size == -1 then room else Min(size, room);
          var size' := if size == -1 then size else size - toReturn;
          Then(Zeros(Max(0, toReturn)), ReadLoop(img, blockSize, position + toReturn, size', fuel - 1))
      else
        var data := BytesIO.Read(Stream(img[n as nat], local), size).0;
        if |data| == 0 then Some(([], position))
        else Then(data, ReadLoop(img, blockSize, position + |data|, size - |data|, fuel - 1))
  }

  /** One full block of five bytes, "hello", as block 0. */
  function HelloImage(): Image
  {
    map[0 := Scenarios.Hello()]
  }

  lemma {:induction false} HelloImageDense()
    ensures Dense(HelloImage(), 5, Scenarios.Hello())
  {
    var img := HelloImage();
    var c := Scenarios.Hello();
    forall p: nat
      ensures InBlock(img, 5, c, p)
    {
      if p < |c| {
        assert BlockNumber(p, 5) == 0 && BlockOffset(p, 5) == p;
      }
    }
    forall n: nat
      ensures Fits(img, 5, c, n)
    {
    }
  }

  /**
   * As written: reading ten bytes from the start of a file whose only block
   * is full returns the five bytes and then five zero bytes, because the
   * missing block after the last one is taken for a hole.
   */
  lemma {:induction false} ReadPastLastBlockAsWritten(fuel: nat)
    requires fuel >= 3
    ensures ReadLoop(HelloImage(), 5, 0, 10, fuel) == Some((Scenarios.Hello() + Zeros(5), 10))
  {
    var img := HelloImage();
    MaxKeyIs(img.Keys, 0);
    assert BytesIO.Read(Stream(img[0], 0), 10).0 == Scenarios.Hello();
    assert ReadLoop(img, 5, 10, 0, fuel - 2) == Some(([], 10));
    assert Zeros(5) + [] == Zeros(5);
    assert ReadLoop(img, 5, 5, 5, fuel - 1) == Some((Zeros(5), 10));
  }

  /** Corrected: the same read stops at the end of the last block. */
  lemma {:induction false} ReadPastLastBlockCorrected()
    ensures WellSized(HelloImage(), 5) && ReadSpec(HelloImage(), 5, 0, Some(10)) == (Scenarios.Hello(), 5)
  {
    HelloImageDense();
    ReadDense(HelloImage(), 5, Scenarios.Hello(), 0, Some(10));
    assert Scenarios.Hello()[0..5] == Scenarios.Hello();
  }

  /**
   * As written: a read to the end from the end of a file whose last block is
   * full never returns: every later block number is missing and none equals
   * the largest one, so the loop fills zeros forever.
   */
  lemma {:induction false} ReadAtEndAsWritten(position: int, fuel: nat)
    requires position >= 5
    ensures ReadLoop(HelloImage(), 5, position, -1, fuel) == None
    decreases fuel
  {
    if fuel > 0 {
      var img := HelloImage();
      MaxKeyIs(img.Keys, 0);
      var local := position % 5;
      ReadAtEndAsWritten(position + (5 - local), fuel - 1);
    }
  }

  /** Corrected: the same read returns nothing at once. */
  lemma {:induction false} ReadAtEndCorrected()
    ensures WellSized(HelloImage(), 5) && ReadSpec(HelloImage(), 5, 5, None) == ([], 5)
  {
    HelloImageDense();
    ReadPastEndDense(HelloImage(), 5, Scenarios.Hello(), 5, None);
  }

  /** "hello" in block 0, a hole at block 1, and "x" at the start of block 2. */
  function HoleImage(): Image
  {
    map[0 := Scenarios.Hello(), 2 := [0x78]]
  }

  /**
   * As written: read() from the start returns only "hello" and leaves the
   * position at -1: the first block read took size from -1 to -6, so the
   * hole's fill count is min(-6, 5), which empties size and moves the
   * position back six bytes.
   */
  lemma {:induction false} ReadAcrossHoleAsWritten(fuel: nat)
    requires fuel >= 3
    ensures ReadLoop(HoleImage(), 5, 0, -1, fuel) == Some((Scenarios.Hello(), -1))
  {
    var img := HoleImage();
    MaxKeyIs(img.Keys, 2);
    assert BytesIO.Read(Stream(img[0], 0), -1).0 == Scenarios.Hello();
    assert ReadLoop(img, 5, -1, 0, fuel - 2) == Some(([], -1));
    assert Zeros(0) + [] == [];
    assert ReadLoop(img, 5, 5, -6, fuel - 1) == Some(([], -1));
    assert Scenarios.Hello() + [] == Scenarios.Hello();
  }

  /** Corrected: read() returns "hello", five zero bytes for the hole, then "x", and ends after it. */
  lemma {:induction false} ReadAcrossHoleCorrected()
    ensures WellSized(HoleImage(), 5)
    ensures ReadSpec(HoleImage(), 5, 0, None) == (Scenarios.Hello() + Zeros(5) + [0x78], 11)
  {
    var img := HoleImage();
    HoleFromFive();
    assert BlockNumber(0, 5) == 0 && BlockOffset(0, 5) == 0;
    assert BytesIO.Read(Stream(img[0], 0), -1).0 == Scenarios.Hello();
    ReadSpecBlock(img, 5, 0, None, Scenarios.Hello(), 5);
    assert Scenarios.Hello() + (Zeros(5) + [0x78]) == Scenarios.Hello() + Zeros(5) + [0x78];
  }

  /** From the hole on, read() returns its five zero bytes and then "x". */
  lemma {:induction false} HoleFromFive()
    ensures WellSized(HoleImage(), 5)
    ensures ReadSpec(HoleImage(), 5, 5, None) == (Zeros(5) + [0x78], 11)
  {
    var img := HoleImage();
    HoleFromTen();
    MaxKeyIs(img.Keys, 2);
    assert BlockNumber(5, 5) == 1 && BlockOffset(5, 5) == 0;
    ReadSpecHole(img, 5, 5, None, 5, 10);
  }

  /** From the start of block 2 on, read() returns "x". */
  lemma {:induction false} HoleFromTen()
    ensures WellSized(HoleImage(), 5)
    ensures ReadSpec(HoleImage(), 5, 10, None) == ([0x78], 11)
  {
    var img := HoleImage();
    assert WellSized(img, 5);
    assert BlockNumber(11, 5) == 2 && BlockOffset(11, 5) == 1;
    ReadSpecEnd(img, 5, 11, None);
    assert BlockNumber(10, 5) == 2 && BlockOffset(10, 5) == 0;
    assert BytesIO.Read(Stream(img[2], 0), -1).0 == [0x78];
    ReadSpecBlock(img, 5, 10, None, [0x78], 11);
    var x: seq<byte> := [0x78];
    assert x + [] == x;
  }

  /**
   * A write past the end of the contents leaves a short block: with blocks
   * of five bytes, "ab" at 0 and then "x" at 10 give block 0 the two bytes
   * "ab" and block 2 the byte "x". read() from the start then returns only
   * "ab": the second round reads nothing from block 0 at offset 2, which
   * ends the read before the hole and block 2.
   */
  lemma {:induction false} ShortBlockHidesLater()
    ensures var ab: seq<byte> := [0x61, 0x62];
      var img := WriteSpec(WriteSpec(map[], 5, 0, ab), 5, 10, [0x78]);
      img == map[0 := ab, 2 := [0x78]] && WellSized(img, 5) && ReadSpec(img, 5, 0, None) == (ab, 2)
  {
    var ab: seq<byte> := [0x61, 0x62];
    assert BlockNumber(0, 5) == 0 && BlockOffset(0, 5) == 0;
    assert WriteInBlock([], 0, ab) == ab;
    assert WriteSpec(map[], 5, 0, ab) == map[0 := ab];
    assert BlockNumber(10, 5) == 2 && BlockOffset(10, 5) == 0;
    assert WriteInBlock([], 0, [0x78]) == [0x78];
    var img := map[0 := ab, 2 := [0x78]];
    assert WriteSpec(map[0 := ab], 5, 10, [0x78]) == img;
    assert WellSized(img, 5);
    assert BlockNumber(2, 5) == 0 && BlockOffset(2, 5) == 2;
    ReadSpecEnd(img, 5, 2, None);
    assert ReadInBlock(img[0], 0, None) == ab;
    ReadSpecBlock(img, 5, 0, None, ab, 2);
    assert ab + [] == ab;
  }

  /**
   * truncate's deletion loop as written: it walks the dict's keys in order
   * and deletes each one above n, and the iterator's next step after a
   * deletion raises, because the dict changed size. The result is the keys
   * left in the dict, with the error raised, if any: the first key above n
   * is already gone when RuntimeError is raised.
   */
  function DeleteAboveAsWritten(keys: seq<nat>, n: nat): (r: (seq<nat>, Option<Error>))
  {
    if |keys| == 0 then ([], None)
    else if keys[0] > n then (keys[1..], Some(RuntimeError))
    else
      var rest := DeleteAboveAsWritten(keys[1..], n);
      ([keys[0]] + rest.0, rest.1)
  }

  /** The loop raises exactly when some key is above n, and otherwise deletes nothing. */
  lemma {:induction false} DeleteAboveFails(keys: seq<nat>, n: nat)
    ensures DeleteAboveAsWritten(keys, n).1.Some? <==> exists i :: 0 <= i < |keys| && keys[i] > n
    ensures DeleteAboveAsWritten(keys, n).1.None? ==> DeleteAboveAsWritten(keys, n).0 == keys
  {
    if |keys| > 0 {
      DeleteAboveFails(keys[1..], n);
      if exists i :: 0 <= i < |keys[1..]| && keys[1..][i] > n {
        var i :| 0 <= i < |keys[1..]| && keys[1..][i] > n;
        assert keys[i + 1] > n;
      }
      if DeleteAboveAsWritten(keys[1..], n).1.None? {
        assert keys == [keys[0]] + keys[1..];
      }
    }
  }

  /**
   * When key i is the first above n, the loop raises RuntimeError with that
   * key deleted and every other key still in the dict.
   */
  lemma {:induction false} DeleteAboveFirst(keys: seq<nat>, n: nat, i: nat)
    requires i < |keys| && keys[i] > n
    requires forall j :: 0 <= j < i ==> keys[j] <= n
    ensures DeleteAboveAsWritten(keys, n) == (keys[..i] + keys[i + 1..], Some(RuntimeError))
  {
    if i > 0 {
      assert keys[0] <= n;
      DeleteAboveFirst(keys[1..], n, i - 1);
      var tail := keys[1..][..i - 1] + keys[1..][i..];
      assert DeleteAboveAsWritten(keys, n).0 == [keys[0]] + tail;
      assert keys[..i] == [keys[0]] + keys[1..][..i - 1];
      assert keys[i + 1..] == keys[1..][i..];
      assert [keys[0]] + tail == keys[..i] + keys[i + 1..];
      assert DeleteAboveAsWritten(keys, n).1 == Some(RuntimeError);
    } else {
      assert keys[..0] + keys[1..] == keys[1..];
    }
  }

  /**
   * As written: truncating at block 0 a file with blocks 0 and 1 raises
   * RuntimeError after block 1 has been deleted.
   */
  lemma {:induction false} TruncateTwoBlocksAsWritten()
    ensures DeleteAboveAsWritten([0, 1], 0) == ([0], Some(RuntimeError))
  {
    var keys: seq<nat> := [0, 1];
    DeleteAboveFirst(keys, 0, 1);
    assert keys[..1] + keys[2..] == [0];
  }
}
