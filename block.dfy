/**
 * One block of the virtual file: at most `blockSize` bytes of plaintext, held
 * either in a plaintext buffer (while the block is being accessed) or as one
 * encrypted token in a backing store (after a flush), or in neither (a block
 * that was never written or flushed).
 */
module Blocks {
  import opened Wrappers
  import opened BytesIO
  import Fernet

  class Block {
    const blockSize: nat
    /** Per-block key; None once the block is closed. */
    var key: Option<Fernet.Key>
    /** The plaintext buffer with its cursor, present only while materialised. */
    var buffer: Option<Stream>
    /** The backing store: the token written by the last flush. */
    var fp: Option<Fernet.Token>
    /** The block's authoritative plaintext: the buffer's bytes, or else the stored ones. */
    ghost var Contents: seq<byte>
    /** The number under which the owning file keeps this block. */
    ghost const Number: nat

    /**
     * The backing store, when present, decrypts under the block's key, and
     * Contents is the plaintext the next access sees.
     */
    ghost predicate Valid()
      reads this
    {
      (fp.Some? ==> key.Some? && Fernet.Decrypt(key.value, fp.value).Success?)
      && Contents == View().data
    }

    /** The plaintext held by the backing store (nothing when there is none). */
    ghost function Stored(): seq<byte>
      reads this
      requires fp.Some? ==> key.Some? && Fernet.Decrypt(key.value, fp.value).Success?
    {
      if fp.Some? then Fernet.Decrypt(key.value, fp.value).value else []
    }

    /**
     * The buffer as the next access sees it: the materialised one, or else the
     * one that materialising would build, holding the stored plaintext with
     * the cursor at 0.
     */
    ghost function View(): Stream
      reads this
      requires fp.Some? ==> key.Some? && Fernet.Decrypt(key.value, fp.value).Success?
    {
      if buffer.Some? then buffer.value else Stream(Stored(), 0)
    }

    constructor (blockSize: nat, key: Fernet.Key, ghost number: nat)
      ensures Valid() && this.blockSize == blockSize && Number == number
      ensures this.key == Some(key) && buffer.None? && fp.None?
      ensures View() == Stream([], 0)
    {
      this.blockSize := blockSize;
      this.key := Some(key);
      Number := number;
      buffer := None;
      fp := None;
      Contents := [];
    }

    /** Replaces the buffer's contents by the decrypted backing store and rewinds it. */
    method LoadBufferFromFp()
      requires Valid() && buffer.Some?
      modifies this
      ensures Valid() && key == old(key) && fp == old(fp)
      ensures buffer == if fp.Some? then Some(Stream(old(Stored()), 0)) else old(buffer)
    {
      if fp.None? {
        return;
      }
      var s := BytesIO.Seek(buffer.value, 0, SEEK_SET).value;
      s := BytesIO.Truncate(s, None).value.1;
      var decrypted := Fernet.Decrypt(key.value, fp.value).value;
      s := BytesIO.Write(s, decrypted);
      s := BytesIO.Seek(s, 0, SEEK_SET).value;
      buffer := Some(s);
      Contents := s.data;
      assert s.data == decrypted;
    }

    /** Creates the buffer when it is absent, loading it from the backing store. */
    method Materialise()
      requires Valid()
      modifies this
      ensures Valid() && key == old(key) && fp == old(fp)
      ensures buffer == Some(old(View()))
    {
      if buffer.None? {
        buffer := Some(Stream([], 0));
        Contents := [];
        LoadBufferFromFp();
      }
    }

    /**
     * Writes at the cursor. When the buffer then ends past `blockSize` the
     * write has happened but the call fails (ok is false) with the cursor
     * left at the end of the buffer.
     */
    method Write(b: seq<byte>) returns (ok: bool)
      requires Valid()
      modifies this
      ensures Valid() && key == old(key) && fp == old(fp)
      ensures ok <==> |BytesIO.Write(old(View()), b).data| <= blockSize
      ensures ok ==> buffer == Some(BytesIO.Write(old(View()), b))
      ensures !ok ==> buffer == Some(Stream(BytesIO.Write(old(View()), b).data, |BytesIO.Write(old(View()), b).data|))
    {
      Materialise();
      var s := BytesIO.Write(buffer.value, b);
      var currentPosition := s.pos;
      s := BytesIO.Seek(s, 0, SEEK_END).value;
      Contents := s.data;
      if s.pos > blockSize {
        buffer := Some(s);
        return false;
      }
      s := BytesIO.Seek(s, currentPosition, SEEK_SET).value;
      buffer := Some(s);
      return true;
    }

    method Seek(offset: int, whence: int) returns (r: Result<nat, Error>)
      requires Valid()
      modifies this
      ensures Valid() && key == old(key) && fp == old(fp)
      ensures BytesIO.Seek(old(View()), offset, whence).Success? ==>
        var s := BytesIO.Seek(old(View()), offset, whence).value;
        r == Success(s.pos) && buffer == Some(s)
      ensures BytesIO.Seek(old(View()), offset, whence).Failure? ==>
        r == Failure(ValueError) && buffer == Some(old(View()))
    {
      Materialise();
      var q := BytesIO.Seek(buffer.value, offset, whence);
      if q.Failure? {
        return Failure(q.error);
      }
      buffer := Some(q.value);
      return Success(q.value.pos);
    }

    method Read(size: int) returns (data: seq<byte>)
      requires Valid()
      modifies this
      ensures Valid() && key == old(key) && fp == old(fp)
      ensures data == BytesIO.Read(old(View()), size).0
      ensures buffer == Some(BytesIO.Read(old(View()), size).1)
    {
      Materialise();
      var q := BytesIO.Read(buffer.value, size);
      buffer := Some(q.1);
      return q.0;
    }

    method Tell() returns (pos: nat)
      requires Valid()
      modifies this
      ensures Valid() && key == old(key) && fp == old(fp)
      ensures pos == old(View()).pos && buffer == Some(old(View()))
    {
      Materialise();
      return buffer.value.pos;
    }

    method Truncate(size: Option<int>) returns (r: Result<nat, Error>)
      requires Valid()
      modifies this
      ensures Valid() && key == old(key) && fp == old(fp)
      ensures BytesIO.Truncate(old(View()), size).Success? ==>
        var t := BytesIO.Truncate(old(View()), size).value;
        r == Success(t.0) && buffer == Some(t.1)
      ensures BytesIO.Truncate(old(View()), size).Failure? ==>
        r == Failure(ValueError) && buffer == Some(old(View()))
    {
      Materialise();
      var q := BytesIO.Truncate(buffer.value, size);
      if q.Failure? {
        return Failure(q.error);
      }
      buffer := Some(q.value.1);
      Contents := q.value.1.data;
      return Success(q.value.0);
    }

    /**
     * Encrypts the whole buffer into a fresh token that replaces the backing
     * store, drops the buffer and returns the token's length; with no buffer
     * it does nothing and returns 0. Either way the next access sees the same
     * plaintext, with the cursor at 0. The length returned is that of a real
     * Fernet token for the plaintext (Fernet.TokenLength), not the length of
     * the stand-in token stored in `fp`.
     */
    method Flush() returns (n: nat)
      requires Valid() && (buffer.Some? ==> key.Some?)
      modifies this
      ensures Valid() && key == old(key) && buffer.None?
      ensures old(buffer).None? ==> n == 0 && fp == old(fp)
      ensures old(buffer).Some? ==>
        fp == Some(Fernet.Encrypt(key.value, old(buffer).value.data))
        && n == Fernet.TokenLength(|old(buffer).value.data|)
      ensures View() == Stream(old(View()).data, 0)
    {
      if buffer.None? {
        return 0;
      }
      var plaintext := buffer.value.data;
      var encrypted := Fernet.Encrypt(key.value, plaintext);
      fp := Some(encrypted);
      buffer := None;
      Fernet.DecryptEncrypt(key.value, plaintext);
      return Fernet.TokenLength(|plaintext|);
    }

    /** Releases the backing store and forgets the buffer and the key. */
    method Close()
      modifies this
      ensures Valid() && key.None? && buffer.None? && fp.None?
    {
      key := None;
      buffer := None;
      fp := None;
      Contents := [];
    }
  }
}
