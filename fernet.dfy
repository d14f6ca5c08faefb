/**
 * A stand-in for the Fernet authenticated-encryption primitive.
 *
 * The real cipher is an external library. The model only relies on what a
 * caller of an authenticated cipher may rely on: decrypting with the key that
 * encrypted returns the plaintext, and any other key is rejected. The token
 * carries a tag that binds it to its key (the part of a real token that the
 * HMAC check plays) and a body that is the plaintext masked by the key.
 */
module Fernet {
  import opened Wrappers
  import opened BytesIO

  type Key = nat

  datatype Token = Token(tag: Key, body: seq<byte>)

  function KeyByte(k: Key): byte { (k % 256) as byte }

  function Mask(k: Key, s: seq<byte>): (r: seq<byte>)
    ensures |r| == |s|
  {
    seq(|s|, i requires 0 <= i < |s| => s[i] ^ KeyByte(k))
  }

  function Encrypt(k: Key, plaintext: seq<byte>): (t: Token)
    ensures t.tag == k && |t.body| == |plaintext|
  {
    Token(k, Mask(k, plaintext))
  }

  /** Fails with InvalidToken exactly when the token was not made under `k`. */
  function Decrypt(k: Key, t: Token): (r: Result<seq<byte>, Error>)
    ensures r.Success? <==> t.tag == k
    ensures r.Failure? ==> r.error == InvalidToken
    ensures r.Success? ==> |r.value| == |t.body|
  {
    if t.tag != k then Failure(InvalidToken) else Success(Mask(k, t.body))
  }

  lemma {:induction false} DecryptEncrypt(k: Key, plaintext: seq<byte>)
    ensures Decrypt(k, Encrypt(k, plaintext)) == Success(plaintext)
  {
    var back := Mask(k, Mask(k, plaintext));
    forall i | 0 <= i < |plaintext|
      ensures back[i] == plaintext[i]
    {
      assert back[i] == (plaintext[i] ^ KeyByte(k)) ^ KeyByte(k);
    }
    assert back == plaintext;
  }

  lemma {:induction false} DecryptWrongKey(k: Key, other: Key, plaintext: seq<byte>)
    requires k != other
    ensures Decrypt(other, Encrypt(k, plaintext)) == Failure(InvalidToken)
  {
  }

  /**
   * Length of the url-safe base64 text of a Fernet token for `n` bytes of
   * plaintext: version (1), timestamp (8), IV (16), the PKCS7-padded AES
   * ciphertext (a multiple of 16, always at least one padding byte) and the
   * HMAC (32), base64-encoded with padding.
   */
  function TokenLength(n: nat): (r: nat)
    ensures r % 4 == 0 && r > n
  {
    var raw := 1 + 8 + 16 + 16 * (n / 16 + 1) + 32;
    4 * ((raw + 2) / 3)
  }
}
