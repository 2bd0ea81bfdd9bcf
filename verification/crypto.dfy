/** The cryptographic primitives and process-wide secrets the core uses.
    SHA-256 (FIPS 180-4) is not computed here: it is a field of `Env`, a
    function the model knows nothing about beyond its type, so every
    property proved below holds for whatever hash stands there. HMAC is
    built from it as section 2 of RFC 2104 defines it. */
module Crypto {
  import opened Wrappers
  import opened Text

  /** A SHA-256 output: 32 bytes. */
  type Digest = d: seq<byte> | |d| == 32 witness seq(32, _ => 0)

  /** The environment of a running service: its hash function and the
      three secrets of its configuration module. */
  datatype Env = Env(
    sha256: seq<byte> -> Digest,
    cookieSecretKey: string,
    passwordSalt: string,
    webhookSecretKey: string)

  /** The block size of SHA-256 in bytes, the B of RFC 2104. */
  const BlockSize := 64

  function XorByte(a: byte, b: byte): byte {
    ((a as bv8) ^ (b as bv8)) as int
  }

  /** The key padded with zero bytes to one block, after hashing a key
      longer than one block. */
  function BlockKey(h: seq<byte> -> Digest, key: seq<byte>): (k: seq<byte>)
    ensures |k| == BlockSize
  {
    var k0 := if |key| > BlockSize then h(key) else key;
    k0 + seq(BlockSize - |k0|, _ => 0)
  }

  function XorPad(k: seq<byte>, pad: byte): (r: seq<byte>)
    ensures |r| == |k|
  {
    seq(|k|, i requires 0 <= i < |k| => XorByte(k[i], pad))
  }

  /** HMAC-SHA-256: H(K xor opad, H(K xor ipad, text)). */
  function Hmac(h: seq<byte> -> Digest, key: seq<byte>, msg: seq<byte>): Digest {
    var k := BlockKey(h, key);
    h(XorPad(k, 0x5C) + h(XorPad(k, 0x36) + msg))
  }

  /** Python's `hmac.compare_digest` on two `str`: a TypeError (None)
      unless both are ASCII, otherwise plain equality (its constant-time
      behaviour is not modelled). */
  function CompareDigest(a: string, b: string): (r: Option<bool>)
    ensures r.Some? <==> IsAscii(a) && IsAscii(b)
    ensures r.Some? ==> (r.value <==> a == b)
  {
    if IsAscii(a) && IsAscii(b) then Some(a == b) else None
  }

  /** Section 2 of RFC 2104: a key longer than one block is replaced by its
      hash, so it authenticates exactly as its hash does. */
  lemma HmacLongKey(h: seq<byte> -> Digest, key: seq<byte>, msg: seq<byte>)
    requires |key| > BlockSize
    ensures Hmac(h, key, msg) == Hmac(h, h(key), msg)
  {
  }
}
