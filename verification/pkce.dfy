/**
  The PKCE pair and the `state` nonce of one authorization attempt
  (sections 4.1 and 4.2 of RFC 7636). Randomness and SHA-256 are inputs: the
  random bytes are passed in, and the digest is any function that returns 32
  bytes.
*/
module Pkce {
  import opened Wrappers
  import opened Encoding

  type Bytes32 = s: seq<Byte> | |s| == 32 witness seq(32, i => 0)
  type Bytes16 = s: seq<Byte> | |s| == 16 witness seq(16, i => 0)

  /** A message digest that yields 32 bytes, standing for SHA-256. */
  type Digest = seq<Byte> -> Bytes32

  /** True of a valid RFC 7636 verifier or challenge built here: 43 characters, unpadded base64url. */
  predicate IsUnpadded43(s: string) {
    && |s| == 43
    && AllBase64Url(s)
    && Pad !in s
  }

  /**
    The code verifier: the base64url encoding of 32 random bytes with the
    trailing `=` stripped. It keeps all 256 bits: decoding gives the bytes back.
  */
  function CodeVerifier(random: Bytes32): (v: string)
    ensures IsUnpadded43(v)
    ensures Base64UrlDecode(v) == Some(random)
  {
    EncodedLengthFormula(32);
    StripPaddingIsUnpadded(random);
    Base64UrlRoundTrip(random);
    NoPadIn(Base64UrlEncode(random));
    RStrip(Base64UrlEncodePadded(random), Pad)
  }

  /**
    The S256 code challenge: the base64url encoding, `=` stripped, of the
    digest of the verifier's UTF-8 bytes.
  */
  function CodeChallenge(sha256: Digest, verifier: string): (c: string)
    ensures IsUnpadded43(c)
    ensures Base64UrlDecode(c) == Some(sha256(Utf8Encode(verifier)))
  {
    var digest := sha256(Utf8Encode(verifier));
    EncodedLengthFormula(32);
    StripPaddingIsUnpadded(digest);
    Base64UrlRoundTrip(digest);
    NoPadIn(Base64UrlEncode(digest));
    RStrip(Base64UrlEncodePadded(digest), Pad)
  }

  /** The `state` nonce: 16 random bytes as 32 lower-case hexadecimal digits. */
  function StateNonce(random: Bytes16): (n: string)
    ensures |n| == 32
    ensures forall i :: 0 <= i < |n| ==> IsLowerHex(n[i])
    ensures HexDecode(n) == Some(random)
  {
    HexRoundTrip(random);
    HexEncode(random)
  }

  lemma NoPadIn(s: string)
    requires AllBase64Url(s)
    ensures Pad !in s
  {
  }

  /** Distinct random inputs give distinct verifiers. */
  lemma VerifierInjective(r1: Bytes32, r2: Bytes32)
    requires CodeVerifier(r1) == CodeVerifier(r2)
    ensures r1 == r2
  {
  }

  /**
    The challenge commits to the digest of the verifier: two verifiers share
    a challenge only if their digests agree.
  */
  lemma ChallengeDeterminesDigest(sha256: Digest, v1: string, v2: string)
    requires CodeChallenge(sha256, v1) == CodeChallenge(sha256, v2)
    ensures sha256(Utf8Encode(v1)) == sha256(Utf8Encode(v2))
  {
  }

  /** The verifier is ASCII, so the digest input is exactly its characters' code points. */
  lemma VerifierBytesAreItsCharacters(random: Bytes32)
    ensures var v := CodeVerifier(random);
            && |Utf8Encode(v)| == 43
            && forall i :: 0 <= i < 43 ==> Utf8Encode(v)[i] == v[i] as int
  {
    var v := CodeVerifier(random);
    forall i | 0 <= i < |v| ensures (v[i] as int) < 0x80 {
      assert IsBase64UrlChar(v[i]);
    }
    Utf8OfAscii(v);
  }
}
