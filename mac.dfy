/**
 * `checkMAC` (api/translation.go:117-125). The keyed hash, HMAC (section 2 of
 * RFC 2104) over SHA-256, is not modelled: it is a parameter of type
 * `HmacFunction`, any function from (key, message) to a 32-byte digest, so
 * everything proved here holds for every such function.
 */
module Mac {
  import opened Wrappers
  import opened Bytes
  import Hex

  /** The size of a SHA-256 digest in bytes. */
  const DigestSize: nat := 32

  type HmacFunction = f: (seq<byte>, seq<byte>) -> seq<byte> | forall key, msg :: |f(key, msg)| == DigestSize
    witness (key: seq<byte>, msg: seq<byte>) => seq(32, i => 0)

  /** `"v0="`, the version prefix of a signature. */
  const SignaturePrefix: seq<byte> := Ascii("v0=")

  /**
   * The keyed hasher `hmac.New(sha256.New, key)`: it accumulates what is
   * written to it and `Sum` gives the tag of everything written so far.
   */
  class Hasher {
    const hmac: HmacFunction
    const key: seq<byte>
    var written: seq<byte>

    constructor (hmac: HmacFunction, key: seq<byte>)
      ensures this.hmac == hmac && this.key == key && written == []
    {
      this.hmac := hmac;
      this.key := key;
      written := [];
    }

    /** `mac.Write(p)`; a hash never returns an error from `Write`. */
    method Write(p: seq<byte>)
      modifies this
      ensures written == old(written) + p
    {
      written := written + p;
    }

    /** `mac.Sum(nil)`: the tag of what has been written, leaving the hasher as it is. */
    method Sum() returns (digest: seq<byte>)
      ensures digest == hmac(key, written)
      ensures |digest| == DigestSize
    {
      digest := hmac(key, written);
    }
  }

  /** The signature the verifier computes for `message`: `"v0=" + hex(HMAC(secret, message))`. */
  function SignatureFor(secret: seq<byte>, message: seq<byte>, hmac: HmacFunction): (sig: seq<byte>)
    ensures |sig| == |SignaturePrefix| + 2 * DigestSize == 67
    ensures sig[..3] == SignaturePrefix
    ensures forall i :: 3 <= i < |sig| ==> Hex.IsLowerHexDigit(sig[i])
    ensures Hex.Decode(sig[3..]) == Some(hmac(secret, message))
  {
    var digest := hmac(secret, message);
    Hex.DecodeEncode(digest);
    assert (SignaturePrefix + Hex.Encode(digest))[3..] == Hex.Encode(digest);
    SignaturePrefix + Hex.Encode(digest)
  }

  /** Two equal signatures carry the same digest. */
  lemma SignatureDeterminesDigest(k1: seq<byte>, m1: seq<byte>, k2: seq<byte>, m2: seq<byte>, hmac: HmacFunction)
    requires SignatureFor(k1, m1, hmac) == SignatureFor(k2, m2, hmac)
    ensures hmac(k1, m1) == hmac(k2, m2)
  {
    var s1, s2 := SignatureFor(k1, m1, hmac), SignatureFor(k2, m2, hmac);
    assert s1[3..] == s2[3..];
  }

  /**
   * `checkMAC(message, receivedMAC, secret)`. The comparison `hmac.Equal` is
   * constant-time in the source; here it is plain equality of byte sequences.
   */
  method CheckMAC(message: seq<byte>, receivedMAC: seq<byte>, secret: seq<byte>, hmac: HmacFunction)
    returns (ok: bool)
    ensures ok <==> receivedMAC == SignatureFor(secret, message, hmac)
  {
    var mac := new Hasher(hmac, secret);
    mac.Write(message);
    assert mac.written == message;
    var sum := mac.Sum();
    var calculatedMAC := SignaturePrefix + Hex.Encode(sum);
    ok := calculatedMAC == receivedMAC;
  }
}
