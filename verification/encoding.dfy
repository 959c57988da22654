/**
  Byte-to-text encodings used by the PKCE flow: the URL- and filename-safe
  base64 alphabet of section 5 of RFC 4648 (with and without padding), the
  lower-case hexadecimal encoding used for the `state` nonce, and UTF-8 (the
  encoding Python applies to the verifier before hashing it).
*/
module Encoding {
  import opened Wrappers

  type Byte = x: int | 0 <= x < 256

  /** The padding character of RFC 4648. */
  const Pad: char := '='

  // ---------------------------------------------------------------------------
  // The base64url alphabet

  /** `c` is one of the 64 characters `[A-Za-z0-9-_]`. */
  predicate IsBase64UrlChar(c: char) {
    || ('A' <= c <= 'Z')
    || ('a' <= c <= 'z')
    || ('0' <= c <= '9')
    || c == '-'
    || c == '_'
  }

  /** Every character of `s` is a base64url character. */
  predicate AllBase64Url(s: string) {
    forall i :: 0 <= i < |s| ==> IsBase64UrlChar(s[i])
  }

  /** The character that encodes the 6-bit value `v` (table 2 of RFC 4648). */
  function Base64UrlChar(v: int): (c: char)
    requires 0 <= v < 64
    ensures IsBase64UrlChar(c)
  {
    if v < 26 then ('A' as int + v) as char
    else if v < 52 then ('a' as int + (v - 26)) as char
    else if v < 62 then ('0' as int + (v - 52)) as char
    else if v == 62 then '-'
    else '_'
  }

  /** The 6-bit value a base64url character stands for: the inverse of `Base64UrlChar`. */
  function SextetOf(c: char): (v: int)
    requires IsBase64UrlChar(c)
    ensures 0 <= v < 64 && Base64UrlChar(v) == c
  {
    if 'A' <= c <= 'Z' then c as int - 'A' as int
    else if 'a' <= c <= 'z' then c as int - 'a' as int + 26
    else if '0' <= c <= '9' then c as int - '0' as int + 52
    else if c == '-' then 62
    else 63
  }

  lemma SextetOfChar(v: int)
    requires 0 <= v < 64
    ensures SextetOf(Base64UrlChar(v)) == v
  {
  }

  // ---------------------------------------------------------------------------
  // Encoding

  /** Three bytes become four characters, most significant bits first. */
  function EncodeGroup(b0: Byte, b1: Byte, b2: Byte): seq<char> {
    [ Base64UrlChar(b0 / 4),
      Base64UrlChar(b0 % 4 * 16 + b1 / 16),
      Base64UrlChar(b1 % 16 * 4 + b2 / 64),
      Base64UrlChar(b2 % 64) ]
  }

  /** The final quantum of fewer than three bytes, without padding. */
  function EncodeTail(bs: seq<Byte>): seq<char>
    requires |bs| < 3
  {
    if |bs| == 0 then []
    else if |bs| == 1 then
      [Base64UrlChar(bs[0] / 4), Base64UrlChar(bs[0] % 4 * 16)]
    else
      [ Base64UrlChar(bs[0] / 4),
        Base64UrlChar(bs[0] % 4 * 16 + bs[1] / 16),
        Base64UrlChar(bs[1] % 16 * 4) ]
  }

  /** The padding that follows a final quantum of `n` bytes. */
  function Padding(n: nat): string
    requires n < 3
  {
    if n == 0 then "" else if n == 1 then "==" else "="
  }

  /**
    Base64url encoding as Python's `base64.urlsafe_b64encode` produces it:
    a final quantum of one or two bytes is padded with `=` to four characters.
  */
  function Base64UrlEncodePadded(bs: seq<Byte>): (s: string)
    ensures |s| % 4 == 0 && (|bs| == 0 <==> |s| == 0)
    ensures forall i :: 0 <= i < |s| ==> IsBase64UrlChar(s[i]) || s[i] == Pad
    decreases |bs|
  {
    if |bs| < 3 then EncodeTail(bs) + Padding(|bs|)
    else EncodeGroup(bs[0], bs[1], bs[2]) + Base64UrlEncodePadded(bs[3..])
  }

  /** The number of characters the unpadded encoding of `n` bytes has. */
  function EncodedLength(n: nat): (len: nat)
    ensures len % 4 != 1
  {
    if n == 0 then 0
    else if n == 1 then 2
    else if n == 2 then 3
    else 4 + EncodedLength(n - 3)
  }

  /** That length is the number of 6-bit characters the 8n bits need, ceil(8n/6). */
  lemma {:induction false} EncodedLengthFormula(n: nat)
    ensures EncodedLength(n) == (4 * n + 2) / 3
  {
    if n >= 3 {
      EncodedLengthFormula(n - 3);
      assert 4 * n + 2 == (4 * (n - 3) + 2) + 12;
    }
  }

  /**
    Base64url encoding without padding (section 3.2 of RFC 4648 allows
    omitting it; RFC 7636 requires it for the verifier and challenge).
  */
  function Base64UrlEncode(bs: seq<Byte>): (s: string)
    ensures |s| == EncodedLength(|bs|)
    ensures AllBase64Url(s)
    decreases |bs|
  {
    if |bs| < 3 then EncodeTail(bs)
    else EncodeGroup(bs[0], bs[1], bs[2]) + Base64UrlEncode(bs[3..])
  }

  /** The padded encoding is the unpadded one followed by the padding. */
  lemma {:induction false} PaddedIsUnpaddedPlusPadding(bs: seq<Byte>)
    ensures Base64UrlEncodePadded(bs) == Base64UrlEncode(bs) + Padding(|bs| % 3)
    decreases |bs|
  {
    if |bs| < 3 {
      assert |bs| % 3 == |bs|;
    } else {
      var rest := bs[3..];
      assert |rest| % 3 == |bs| % 3;
      PaddedIsUnpaddedPlusPadding(rest);
      var g := EncodeGroup(bs[0], bs[1], bs[2]);
      calc {
        Base64UrlEncodePadded(bs);
        g + Base64UrlEncodePadded(rest);
        g + (Base64UrlEncode(rest) + Padding(|bs| % 3));
        (g + Base64UrlEncode(rest)) + Padding(|bs| % 3);
        Base64UrlEncode(bs) + Padding(|bs| % 3);
      }
    }
  }

  // ---------------------------------------------------------------------------
  // Python's `str.rstrip(c)`

  /**
    Removes every trailing `c`: the result is the prefix of `s` that does not
    end in `c` and after which only `c` follows.
  */
  function RStrip(s: string, c: char): (r: string)
    ensures |r| <= |s| && r == s[..|r|]
    ensures |r| > 0 ==> r[|r| - 1] != c
    ensures forall i :: |r| <= i < |s| ==> s[i] == c
    decreases |s|
  {
    if |s| > 0 && s[|s| - 1] == c then RStrip(s[..|s| - 1], c) else s
  }

  /** Stripping `c` from `u + p` gives back `u` when `p` is all `c` and `u` has no `c` at all. */
  lemma RStripSuffix(u: string, p: string, c: char)
    requires forall i :: 0 <= i < |u| ==> u[i] != c
    requires forall i :: 0 <= i < |p| ==> p[i] == c
    ensures RStrip(u + p, c) == u
  {
    var s := u + p;
    var r := RStrip(s, c);
    if |u| > 0 {
      assert s[|u| - 1] == u[|u| - 1];
    }
    assert |r| == |u|;
    assert r == s[..|u|];
  }

  /** Stripping `=` from Python's padded output gives exactly the unpadded encoding. */
  lemma StripPaddingIsUnpadded(bs: seq<Byte>)
    ensures RStrip(Base64UrlEncodePadded(bs), Pad) == Base64UrlEncode(bs)
  {
    PaddedIsUnpaddedPlusPadding(bs);
    var u := Base64UrlEncode(bs);
    assert forall i :: 0 <= i < |u| ==> u[i] != Pad by {
      forall i | 0 <= i < |u| ensures u[i] != Pad {
        assert IsBase64UrlChar(u[i]);
      }
    }
    RStripSuffix(u, Padding(|bs| % 3), Pad);
  }

  // ---------------------------------------------------------------------------
  // Decoding (the inverse of the unpadded encoding)

  /** Decodes a string of base64url characters whose length is not 1 modulo 4. */
  function DecodeChars(s: string): seq<Byte>
    requires AllBase64Url(s) && |s| % 4 != 1
    decreases |s|
  {
    if |s| == 0 then []
    else if |s| == 2 then
      [SextetOf(s[0]) * 4 + SextetOf(s[1]) / 16]
    else if |s| == 3 then
      [ SextetOf(s[0]) * 4 + SextetOf(s[1]) / 16,
        SextetOf(s[1]) % 16 * 16 + SextetOf(s[2]) / 4 ]
    else
      [ SextetOf(s[0]) * 4 + SextetOf(s[1]) / 16,
        SextetOf(s[1]) % 16 * 16 + SextetOf(s[2]) / 4,
        SextetOf(s[2]) % 4 * 64 + SextetOf(s[3]) ]
      + DecodeChars(s[4..])
  }

  /**
    Unpadded base64url decoding: fails on a character outside the alphabet
    and on a length no byte string encodes to.
  */
  function Base64UrlDecode(s: string): (r: Option<seq<Byte>>)
    ensures r.Some? <==> AllBase64Url(s) && |s| % 4 != 1
  {
    if AllBase64Url(s) && |s| % 4 != 1 then Some(DecodeChars(s)) else None
  }

  lemma GroupRoundTrip(b0: Byte, b1: Byte, b2: Byte)
    ensures var d := EncodeGroup(b0, b1, b2);
            && SextetOf(d[0]) * 4 + SextetOf(d[1]) / 16 == b0
            && SextetOf(d[1]) % 16 * 16 + SextetOf(d[2]) / 4 == b1
            && SextetOf(d[2]) % 4 * 64 + SextetOf(d[3]) == b2
  {
    SextetOfChar(b0 / 4);
    SextetOfChar(b0 % 4 * 16 + b1 / 16);
    SextetOfChar(b1 % 16 * 4 + b2 / 64);
    SextetOfChar(b2 % 64);
  }

  lemma TailRoundTrip(bs: seq<Byte>)
    requires 0 < |bs| < 3
    ensures DecodeChars(EncodeTail(bs)) == bs
  {
    SextetOfChar(bs[0] / 4);
    if |bs| == 1 {
      SextetOfChar(bs[0] % 4 * 16);
    } else {
      SextetOfChar(bs[0] % 4 * 16 + bs[1] / 16);
      SextetOfChar(bs[1] % 16 * 4);
    }
  }

  /** Decoding a string that starts with a full group peels off that group's three bytes. */
  lemma DecodeCharsCons(g: string, rest: string)
    requires |g| == 4 && AllBase64Url(g) && AllBase64Url(rest) && |rest| % 4 != 1
    ensures AllBase64Url(g + rest) && |g + rest| % 4 != 1
    ensures DecodeChars(g + rest)
         == [ SextetOf(g[0]) * 4 + SextetOf(g[1]) / 16,
              SextetOf(g[1]) % 16 * 16 + SextetOf(g[2]) / 4,
              SextetOf(g[2]) % 4 * 64 + SextetOf(g[3]) ]
            + DecodeChars(rest)
  {
    var s := g + rest;
    assert s[4..] == rest;
    assert forall i :: 0 <= i < |s| ==> s[i] == (if i < 4 then g[i] else rest[i - 4]);
  }

  lemma {:induction false} DecodeEncodeChars(bs: seq<Byte>)
    ensures var s := Base64UrlEncode(bs); |s| % 4 != 1 && DecodeChars(s) == bs
    decreases |bs|
  {
    if |bs| == 0 {
    } else if |bs| < 3 {
      TailRoundTrip(bs);
    } else {
      DecodeEncodeChars(bs[3..]);
      DecodeEncodeStep(bs);
    }
  }

  /** One group of three bytes in front of a tail that already round-trips. */
  lemma DecodeEncodeStep(bs: seq<Byte>)
    requires |bs| >= 3
    requires var s := Base64UrlEncode(bs[3..]); |s| % 4 != 1 && DecodeChars(s) == bs[3..]
    ensures var s := Base64UrlEncode(bs); |s| % 4 != 1 && DecodeChars(s) == bs
  {
    var rest := bs[3..];
    assert Base64UrlEncode(bs) == EncodeGroup(bs[0], bs[1], bs[2]) + Base64UrlEncode(rest);
    DecodeGroupThenRest(bs[0], bs[1], bs[2], Base64UrlEncode(rest));
    assert bs == [bs[0], bs[1], bs[2]] + rest;
  }

  lemma DecodeGroupThenRest(b0: Byte, b1: Byte, b2: Byte, rest: string)
    requires AllBase64Url(rest) && |rest| % 4 != 1
    ensures var g := EncodeGroup(b0, b1, b2);
            AllBase64Url(g + rest) && |g + rest| % 4 != 1
            && DecodeChars(g + rest) == [b0, b1, b2] + DecodeChars(rest)
  {
    var g := EncodeGroup(b0, b1, b2);
    DecodeCharsCons(g, rest);
    GroupRoundTrip(b0, b1, b2);
  }

  /** Decoding inverts the unpadded encoding, so no byte string is lost or confused with another. */
  lemma Base64UrlRoundTrip(bs: seq<Byte>)
    ensures Base64UrlDecode(Base64UrlEncode(bs)) == Some(bs)
  {
    DecodeEncodeChars(bs);
  }

  // ---------------------------------------------------------------------------
  // Lower-case hexadecimal (Python's `bytes.hex()`)

  predicate IsLowerHex(c: char) {
    ('0' <= c <= '9') || ('a' <= c <= 'f')
  }

  function HexDigit(v: int): (c: char)
    requires 0 <= v < 16
    ensures IsLowerHex(c)
  {
    if v < 10 then ('0' as int + v) as char else ('a' as int + (v - 10)) as char
  }

  function HexValue(c: char): (v: int)
    requires IsLowerHex(c)
    ensures 0 <= v < 16 && HexDigit(v) == c
  {
    if '0' <= c <= '9' then c as int - '0' as int else c as int - 'a' as int + 10
  }

  /** Two hexadecimal digits per byte, high nibble first. */
  function HexEncode(bs: seq<Byte>): (s: string)
    ensures |s| == 2 * |bs|
    ensures forall i :: 0 <= i < |s| ==> IsLowerHex(s[i])
    decreases |bs|
  {
    if |bs| == 0 then ""
    else [HexDigit(bs[0] / 16), HexDigit(bs[0] % 16)] + HexEncode(bs[1..])
  }

  /** Decodes an even-length string of lower-case hexadecimal digits. */
  function HexDecode(s: string): (r: Option<seq<Byte>>)
    ensures r.Some? ==> |r.value| * 2 == |s|
    decreases |s|
  {
    if |s| == 0 then Some([])
    else if |s| == 1 || !IsLowerHex(s[0]) || !IsLowerHex(s[1]) then None
    else
      match HexDecode(s[2..])
      case None => None
      case Some(rest) => Some([HexValue(s[0]) * 16 + HexValue(s[1])] + rest)
  }

  lemma {:induction false} HexRoundTrip(bs: seq<Byte>)
    ensures HexDecode(HexEncode(bs)) == Some(bs)
    decreases |bs|
  {
    if |bs| > 0 {
      var s := HexEncode(bs);
      HexRoundTrip(bs[1..]);
      assert s[2..] == HexEncode(bs[1..]);
      assert HexValue(s[0]) == bs[0] / 16 && HexValue(s[1]) == bs[0] % 16;
      assert bs == [bs[0]] + bs[1..];
    }
  }

  // ---------------------------------------------------------------------------
  // UTF-8 (Python's `str.encode('utf-8')`)

  /** The UTF-8 bytes of one Unicode scalar value (section 3 of RFC 3629). */
  function Utf8Char(c: char): (bs: seq<Byte>)
    ensures 1 <= |bs| <= 4
    ensures |bs| == 1 <==> (c as int) < 0x80
  {
    var cp := c as int;
    if cp < 0x80 then [cp]
    else if cp < 0x800 then [0xC0 + cp / 0x40, 0x80 + cp % 0x40]
    else if cp < 0x10000 then [0xE0 + cp / 0x1000, 0x80 + cp / 0x40 % 0x40, 0x80 + cp % 0x40]
    else [0xF0 + cp / 0x40000, 0x80 + cp / 0x1000 % 0x40, 0x80 + cp / 0x40 % 0x40, 0x80 + cp % 0x40]
  }

  function Utf8Encode(s: string): (bs: seq<Byte>)
    ensures |bs| >= |s|
    decreases |s|
  {
    if |s| == 0 then [] else Utf8Char(s[0]) + Utf8Encode(s[1..])
  }

  /** On ASCII text, such as a base64url verifier, UTF-8 is one byte per character. */
  lemma {:induction false} Utf8OfAscii(s: string)
    requires forall i :: 0 <= i < |s| ==> (s[i] as int) < 0x80
    ensures |Utf8Encode(s)| == |s|
    ensures forall i :: 0 <= i < |s| ==> Utf8Encode(s)[i] == s[i] as int
    decreases |s|
  {
    if |s| > 0 {
      Utf8OfAscii(s[1..]);
    }
  }
}
