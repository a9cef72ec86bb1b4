/**
 * The reversible obfuscation of stored profile fields (`simple_encrypt` and
 * `simple_decrypt`): the UTF-8 octets of the text are XORed with a repeating
 * 32-octet key and the result is Base64-encoded.
 *
 * The key is the SHA-256 digest of the application secret. Hashing is not
 * modelled: the key is a parameter, any 32 octets.
 */
module Obfuscation {
  import opened Wrappers
  import opened Bytes
  import Utf8
  import Base64

  const KEY_LENGTH: nat := 32

  /** A SHA-256 digest: 32 octets. */
  type Key = k: seq<byte> | |k| == KEY_LENGTH witness seq(KEY_LENGTH, i => 0)

  /** `bytes(b ^ key[i % len(key)] for i, b in enumerate(data))`. */
  function XorWithKey(data: seq<byte>, key: Key): (r: seq<byte>)
    ensures |r| == |data|
  {
    seq(|data|, i requires 0 <= i < |data| => Xor(data[i], key[i % KEY_LENGTH]))
  }

  /** The XOR stream is its own inverse. */
  lemma XorWithKeyInvolutive(data: seq<byte>, key: Key)
    ensures XorWithKey(XorWithKey(data, key), key) == data
  {
    var once := XorWithKey(data, key);
    forall i | 0 <= i < |data|
      ensures XorWithKey(once, key)[i] == data[i]
    {
      XorInvolutive(data[i], key[i % KEY_LENGTH]);
    }
  }

  /** `simple_encrypt(plaintext)`: Base64 of the XORed UTF-8 octets, which
      the Base64 decoder gives back. */
  function Encrypt(key: Key, plaintext: string): (c: string)
    ensures Base64.Decode(c) == Some(XorWithKey(Utf8.Encode(plaintext), key))
  {
    Base64.DecodeEncode(XorWithKey(Utf8.Encode(plaintext), key));
    Base64.Encode(XorWithKey(Utf8.Encode(plaintext), key))
  }

  /** `simple_decrypt(ciphertext)`: the text, or `""` whenever Python would
      raise, because the input is not Base64 or the XORed octets are not
      UTF-8. */
  function Decrypt(key: Key, ciphertext: string): (r: string)
    ensures Base64.Decode(ciphertext).None? ==> r == ""
    ensures (Base64.Decode(ciphertext).Some? &&
             Utf8.Decode(XorWithKey(Base64.Decode(ciphertext).value, key)).None?) ==> r == ""
  {
    match Base64.Decode(ciphertext)
    case None => ""
    case Some(data) =>
      match Utf8.Decode(XorWithKey(data, key))
      case None => ""
      case Some(text) => text
  }

  /** Round trip: every text decrypts back from its encryption. */
  lemma DecryptEncrypt(key: Key, plaintext: string)
    ensures Decrypt(key, Encrypt(key, plaintext)) == plaintext
  {
    var octets := Utf8.Encode(plaintext);
    Base64.DecodeEncode(XorWithKey(octets, key));
    XorWithKeyInvolutive(octets, key);
    Utf8.DecodeEncode(plaintext);
  }

  /** The ciphertext has four characters for every three octets of the
      UTF-8 text, rounded up: the XOR stage preserves the length. */
  lemma EncryptLength(key: Key, plaintext: string)
    ensures |Encrypt(key, plaintext)| == 4 * ((|Utf8.Encode(plaintext)| + 2) / 3)
  {
    Base64.EncodedLength(XorWithKey(Utf8.Encode(plaintext), key));
  }

  /** A non-empty answer is exact: the ciphertext carries the same octets
      as the encryption of that answer. */
  lemma DecryptSound(key: Key, ciphertext: string)
    requires Decrypt(key, ciphertext) != ""
    ensures Base64.Decode(ciphertext) == Base64.Decode(Encrypt(key, Decrypt(key, ciphertext)))
  {
    var data := Base64.Decode(ciphertext).value;
    var text := Decrypt(key, ciphertext);
    Utf8.EncodeDecode(XorWithKey(data, key));
    XorWithKeyInvolutive(data, key);
    Base64.DecodeEncode(XorWithKey(Utf8.Encode(text), key));
  }

  /** An instance of input that is not Base64: it decrypts to `""`. */
  lemma DecryptRejectsBadBase64(key: Key)
    ensures Decrypt(key, "QUJDQ") == ""
  {
    Base64.LoneCharacterExample();
  }

  /** For every key there is well-formed Base64 whose XORed octet is 0xFF,
      which is not UTF-8: it decrypts to `""`. */
  lemma DecryptRejectsBadUtf8(key: Key)
    ensures var c := Base64.Encode([Xor(0xFF, key[0])]);
      Base64.Decode(c).Some? && Utf8.Decode(XorWithKey(Base64.Decode(c).value, key)).None? &&
      Decrypt(key, c) == ""
  {
    var data: seq<byte> := [Xor(0xFF, key[0])];
    Base64.DecodeEncode(data);
    XorInvolutive(0xFF, key[0]);
    assert XorWithKey(data, key) == [0xFF];
  }
}
