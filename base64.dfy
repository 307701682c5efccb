/** Base64 encoding as RFC 4648 defines it: section 4 (standard alphabet, `=`
    padding), which is what the `fromByteArray` function of the base64-js
    library produces, and section 5 (URL- and filename-safe alphabet), here
    without padding as section 3.2 allows. */
module Base64 {

  /** One element of a `Uint8Array`. */
  type byte = x: int | 0 <= x < 256

  const UPPER: string := "ABCDEFGHIJKLMNOPQRSTUVWXYZ"
  const LOWER: string := "abcdefghijklmnopqrstuvwxyz"
  const DIGITS: string := "0123456789"

  /** Values 0 to 61 of both alphabets: letters, then digits. */
  const ALPHANUMERIC: string := UPPER + LOWER + DIGITS

  /** The 64 characters of the standard alphabet (RFC 4648, section 4, table 1). */
  const STANDARD: string := ALPHANUMERIC + "+/"

  /** The 64 characters of the URL-safe alphabet (RFC 4648, section 5, table 2). */
  const URL_SAFE: string := ALPHANUMERIC + "-_"

  const PAD: char := '='

  predicate IsAlphanumeric(c: char)
  {
    'A' <= c <= 'Z' || 'a' <= c <= 'z' || '0' <= c <= '9'
  }

  lemma UpperOnly()
    ensures forall i :: 0 <= i < |UPPER| ==> 'A' <= UPPER[i] <= 'Z'
  {
  }

  lemma LowerOnly()
    ensures forall i :: 0 <= i < |LOWER| ==> 'a' <= LOWER[i] <= 'z'
  {
  }

  lemma DigitsOnly()
    ensures forall i :: 0 <= i < |DIGITS| ==> '0' <= DIGITS[i] <= '9'
  {
  }

  lemma AlphanumericOnly()
    ensures |ALPHANUMERIC| == 62
    ensures forall i :: 0 <= i < |ALPHANUMERIC| ==> IsAlphanumeric(ALPHANUMERIC[i])
  {
    UpperOnly();
    LowerOnly();
    DigitsOnly();
    forall i | 0 <= i < |ALPHANUMERIC|
      ensures IsAlphanumeric(ALPHANUMERIC[i])
    {
      if i < 26 {
        assert ALPHANUMERIC[i] == UPPER[i];
      } else if i < 52 {
        assert ALPHANUMERIC[i] == LOWER[i - 26];
      } else {
        assert ALPHANUMERIC[i] == DIGITS[i - 52];
      }
    }
  }

  /** The two alphabets differ only in values 62 and 63, and neither holds the pad. */
  lemma AlphabetsAgree(i: nat)
    requires i < 64
    ensures |STANDARD| == |URL_SAFE| == 64
    ensures i < 62 ==> STANDARD[i] == URL_SAFE[i] && STANDARD[i] !in "+/="
    ensures i == 62 ==> STANDARD[i] == '+' && URL_SAFE[i] == '-'
    ensures i == 63 ==> STANDARD[i] == '/' && URL_SAFE[i] == '_'
  {
    AlphanumericOnly();
    if i < 62 {
      assert STANDARD[i] == ALPHANUMERIC[i] == URL_SAFE[i];
      assert IsAlphanumeric(STANDARD[i]);
    }
  }

  /** Encodes `bs` with `alphabet`, three bytes to four characters; a final group
      of one or two bytes gives two or three characters, followed by `=` padding
      up to four when `padded` holds. */
  function EncodeWith(alphabet: string, padded: bool, bs: seq<byte>): (r: string)
    requires |alphabet| == 64
    ensures |r| == if padded then 4 * ((|bs| + 2) / 3) else (4 * |bs| + 2) / 3
    ensures forall i :: 0 <= i < |r| ==> r[i] in alphabet || (padded && r[i] == PAD)
    decreases |bs|
  {
    if |bs| == 0 then []
    else if |bs| == 1 then
      [alphabet[bs[0] / 4], alphabet[(bs[0] % 4) * 16]]
      + (if padded then [PAD, PAD] else [])
    else if |bs| == 2 then
      [alphabet[bs[0] / 4], alphabet[(bs[0] % 4) * 16 + bs[1] / 16], alphabet[(bs[1] % 16) * 4]]
      + (if padded then [PAD] else [])
    else
      [alphabet[bs[0] / 4], alphabet[(bs[0] % 4) * 16 + bs[1] / 16],
       alphabet[(bs[1] % 16) * 4 + bs[2] / 64], alphabet[bs[2] % 64]]
      + EncodeWith(alphabet, padded, bs[3..])
  }

  /** `base64.fromByteArray`: RFC 4648 section 4 with padding. */
  function Encode(bs: seq<byte>): (r: string)
    ensures |r| == 4 * ((|bs| + 2) / 3)
  {
    EncodeWith(STANDARD, true, bs)
  }

  /** RFC 4648 section 5 without padding: the `code_challenge` encoding of
      RFC 7636, section 4.2 ("BASE64URL-ENCODE"). */
  function EncodeUrlNoPad(bs: seq<byte>): string
  {
    EncodeWith(URL_SAFE, false, bs)
  }

  /** The first group of three bytes, and the value of each of its four sextets. */
  lemma EncodeGroup(bs: seq<byte>) returns (i: nat, j: nat, k: nat, l: nat)
    requires |bs| >= 3
    ensures i < 64 && j < 64 && k < 64 && l < 64
    ensures Encode(bs) == [STANDARD[i], STANDARD[j], STANDARD[k], STANDARD[l]] + Encode(bs[3..])
    ensures EncodeUrlNoPad(bs) == [URL_SAFE[i], URL_SAFE[j], URL_SAFE[k], URL_SAFE[l]] + EncodeUrlNoPad(bs[3..])
  {
    i, j := bs[0] / 4, (bs[0] % 4) * 16 + bs[1] / 16;
    k, l := (bs[1] % 16) * 4 + bs[2] / 64, bs[2] % 64;
  }

  /** A last group of one byte: two characters, padded with two `=`. */
  lemma EncodeOne(bs: seq<byte>) returns (i: nat, j: nat)
    requires |bs| == 1
    ensures i < 64 && j < 64
    ensures Encode(bs) == [STANDARD[i], STANDARD[j], PAD, PAD]
    ensures EncodeUrlNoPad(bs) == [URL_SAFE[i], URL_SAFE[j]]
  {
    i, j := bs[0] / 4, (bs[0] % 4) * 16;
  }

  /** A last group of two bytes: three characters, padded with one `=`. */
  lemma EncodeTwo(bs: seq<byte>) returns (i: nat, j: nat, k: nat)
    requires |bs| == 2
    ensures i < 64 && j < 64 && k < 64
    ensures Encode(bs) == [STANDARD[i], STANDARD[j], STANDARD[k], PAD]
    ensures EncodeUrlNoPad(bs) == [URL_SAFE[i], URL_SAFE[j], URL_SAFE[k]]
  {
    i, j, k := bs[0] / 4, (bs[0] % 4) * 16 + bs[1] / 16, (bs[1] % 16) * 4;
  }
}
