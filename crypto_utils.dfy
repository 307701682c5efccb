/** The PKCE support utilities of the default crypto provider (RFC 7636):
    random verifier strings drawn from a 62-character alphabet, the URL-safe
    rewrite of a Base64 encoding, and the guarded derivation of an S256 code
    challenge. The host's random source, SHA-256 digest and UTF-8 encoder are
    parameters. */
module CryptoUtils {
  import opened Wrappers
  import opened Base64

  /** The alphabet random strings are drawn from (crypto_utils.js, line 21). */
  const CHARSET: string := ALPHANUMERIC

  /** The character a random byte stands for: `CHARSET[byte % CHARSET.length]`. */
  function CharFor(b: byte): (c: char)
    ensures c in CHARSET
  {
    CHARSET[b % |CHARSET|]
  }

  /** The reduction modulo 62 is biased: each of the first eight characters
      (`A` to `H`) is picked by five of the 256 byte values, every other
      character by four. */
  lemma ModuloBias(k: nat)
    requires k < |CHARSET|
    ensures |set b: byte | b % |CHARSET| == k| == if k < 8 then 5 else 4
  {
    assert |CHARSET| == 62;
    ResidueCount(k);
  }

  /** The bytes whose remainder modulo 62 is `k`: `k`, `k + 62`, `k + 124`,
      `k + 186`, and `k + 248` when that is still a byte. */
  lemma ResidueCount(k: nat)
    requires k < 62
    ensures |set b: byte | b % 62 == k| == if k < 8 then 5 else 4
  {
    var picks := set b: byte | b % 62 == k;
    var four := {k, k + 62, k + 124, k + 186};
    forall b: byte | b % 62 == k
      ensures b in four || (k < 8 && b == k + 248)
    {
      var q := b / 62;
      assert b == 62 * q + k;
      assert 0 <= q <= 4;
    }
    if k < 8 {
      assert picks == four + {k + 248};
    } else {
      assert picks == four;
    }
  }

  /** Maps each byte of `buffer` to its `CHARSET` character, in order: character
      `i` is `CharFor(buffer[i])`, indexed into `CHARSET` as the source does. */
  method BufferToString(buffer: array<byte>) returns (s: string)
    ensures |s| == buffer.Length
    ensures forall i :: 0 <= i < |s| ==> s[i] == CHARSET[buffer[i] % |CHARSET|]
    ensures forall c :: c in s ==> c in CHARSET
  {
    var state: string := [];
    var i := 0;
    while i < buffer.Length
      invariant 0 <= i <= buffer.Length
      invariant |state| == i
      invariant forall j :: 0 <= j < i ==> state[j] == CHARSET[buffer[j] % |CHARSET|]
    {
      var index := buffer[i] % |CHARSET|;
      state := state + [CHARSET[index]];
      i := i + 1;
    }
    s := state;
  }

  // ---------------------------------------------------------------------------
  // Host capabilities, detected once when the module is loaded.

  /** What the host environment provides: a `window` object, `window.crypto`,
      `window.crypto.subtle` and a `TextEncoder` constructor. */
  datatype Host = Host(window: bool, windowCrypto: bool, subtle: bool, textEncoder: bool)

  /** The `Crypto` provider an authorization request handler is given. Only the
      default provider is modelled, and it is known by the host it runs on; its
      `generateRandom` and `deriveChallenge` are `GenerateRandom` and
      `DeriveChallenge` on that host. */
  datatype CryptoProvider = DefaultCrypto(host: Host)

  /** `HAS_CRYPTO`: `window.crypto` is looked at only when there is a `window`. */
  predicate HasCrypto(h: Host) { h.window && h.windowCrypto }

  /** `HAS_SUBTLE_CRYPTO`: subtle crypto counts only where crypto does. */
  predicate HasSubtleCrypto(h: Host) { HasCrypto(h) && h.subtle }

  /** `HAS_TEXT_ENCODER`: a `TextEncoder` counts only where there is a `window`. */
  predicate HasTextEncoder(h: Host) { h.window && h.textEncoder }

  // ---------------------------------------------------------------------------
  // Random strings.

  /** A value returned by `Math.random()`: a number in [0, 1). */
  type Fraction = r: real | 0.0 <= r < 1.0

  /** ECMAScript's ToUint8 on a finite number: truncate toward zero, then reduce
      modulo 2^8. This is what storing into a `Uint8Array` element does. */
  function ToUint8(x: real): (b: byte)
    ensures 0.0 <= x < 256.0 ==> b == x.Floor
  {
    var t := if x >= 0.0 then x.Floor else -((-x).Floor);
    t % 256
  }

  /** The fallback byte as written: `buffer[i] = Math.random()`. Storing a
      fraction truncates it to zero. */
  function FallbackByteAsWritten(r: Fraction): (b: byte)
    ensures b == 0
  {
    ToUint8(r)
  }

  /** Storing a fraction truncates it to zero, so the fallback buffer is all zeros. */
  lemma FallbackAsWrittenIsConstant(r: Fraction)
    ensures FallbackByteAsWritten(r) == 0
    ensures CharFor(FallbackByteAsWritten(r)) == 'A'
  {
    assert CHARSET[0] == 'A';
  }

  /** The fallback byte as evidently intended: `Math.floor(Math.random() * 256)`. */
  function FallbackByte(r: Fraction): (b: byte)
    ensures b == (r * 256.0).Floor
  {
    ToUint8(r * 256.0)
  }

  /** The corrected fallback is uniform: byte `b` comes out exactly for the
      fractions in [b / 256, (b + 1) / 256), an interval of width 1/256. */
  lemma FallbackByteUniform(r: Fraction, b: byte)
    ensures FallbackByte(r) == b <==> b as real <= r * 256.0 < (b + 1) as real
  {
  }

  /** Every byte value, and so every character of `CHARSET`, can come out of the
      corrected fallback. */
  lemma FallbackByteReachesEveryByte(b: byte)
    ensures 0.0 <= b as real / 256.0 < 1.0
    ensures FallbackByte(b as real / 256.0) == b
  {
    var r: Fraction := b as real / 256.0;
    assert r * 256.0 == b as real;
  }

  /** `DefaultCrypto.generateRandom(size)`: fills a zeroed buffer of `size` bytes
      from the secure source when the host has `window.crypto`, and otherwise
      byte by byte from `Math.random()`, then maps it to a string.
      `secureRandom(i)` is the byte `getRandomValues` stores at index `i`;
      `mathRandom(i)` is the value of the `i`-th call of `Math.random()`. */
  method GenerateRandom(size: nat, host: Host, secureRandom: nat -> byte, mathRandom: nat -> Fraction)
    returns (s: string)
    ensures |s| == size
    ensures forall c :: c in s ==> c in CHARSET
    ensures HasCrypto(host) ==> forall i :: 0 <= i < size ==> s[i] == CharFor(secureRandom(i))
    ensures !HasCrypto(host) ==> forall i :: 0 <= i < size ==> s[i] == CharFor(FallbackByte(mathRandom(i)))
  {
    var buffer := new byte[size];
    if HasCrypto(host) {
      forall i | 0 <= i < size {
        buffer[i] := secureRandom(i);
      }
    } else {
      var i := 0;
      while i < size
        invariant 0 <= i <= size
        invariant forall j :: 0 <= j < i ==> buffer[j] == FallbackByte(mathRandom(j))
      {
        buffer[i] := FallbackByte(mathRandom(i));
        i := i + 1;
      }
    }
    s := BufferToString(buffer);
  }

  // ---------------------------------------------------------------------------
  // The URL-safe rewrite of a Base64 encoding.

  /** `s.replace(/c/g, replacement)`: every occurrence of the character `c` in `s` is
      replaced by the string `replacement`; every other character is kept, in order. */
  function ReplaceAll(s: string, c: char, replacement: string): (r: string)
    ensures c !in s ==> r == s
  {
    if s == [] then []
    else (if s[0] == c then replacement else [s[0]]) + ReplaceAll(s[1..], c, replacement)
  }

  /** After the replacement no `c` is left unless the replacement brings one, and
      every character comes from the input (other than `c`) or from the replacement. */
  lemma {:induction false} ReplaceAllRemoves(s: string, c: char, replacement: string)
    ensures c !in replacement ==> c !in ReplaceAll(s, c, replacement)
    ensures forall x :: x in ReplaceAll(s, c, replacement) ==> (x in s && x != c) || x in replacement
  {
    if s != [] {
      ReplaceAllRemoves(s[1..], c, replacement);
      assert forall x :: x in s[1..] ==> x in s;
    }
  }

  /** The three replacements of `urlSafe`, applied to an already encoded string. */
  function ToUrlAlphabet(encoded: string): (r: string)
    ensures '+' !in encoded && '/' !in encoded && '=' !in encoded ==> r == encoded
  {
    ReplaceAll(ReplaceAll(ReplaceAll(encoded, '+', "-"), '/', "_"), '=', "")
  }

  /** The rewritten string holds no `+`, `/` or `=`. */
  lemma ToUrlAlphabetClean(encoded: string)
    ensures '+' !in ToUrlAlphabet(encoded) && '/' !in ToUrlAlphabet(encoded) && '=' !in ToUrlAlphabet(encoded)
  {
    var plus := ReplaceAll(encoded, '+', "-");
    var slash := ReplaceAll(plus, '/', "_");
    ReplaceAllRemoves(encoded, '+', "-");
    ReplaceAllRemoves(plus, '/', "_");
    ReplaceAllRemoves(slash, '=', "");
  }

  lemma {:induction false} ReplaceAllAppend(a: string, b: string, c: char, replacement: string)
    ensures ReplaceAll(a + b, c, replacement) == ReplaceAll(a, c, replacement) + ReplaceAll(b, c, replacement)
  {
    if a == [] {
      assert a + b == b;
    } else {
      var head := if a[0] == c then replacement else [a[0]];
      assert (a + b)[0] == a[0];
      assert (a + b)[1..] == a[1..] + b;
      ReplaceAllAppend(a[1..], b, c, replacement);
      calc {
        ReplaceAll(a + b, c, replacement);
        head + ReplaceAll(a[1..] + b, c, replacement);
        head + (ReplaceAll(a[1..], c, replacement) + ReplaceAll(b, c, replacement));
        (head + ReplaceAll(a[1..], c, replacement)) + ReplaceAll(b, c, replacement);
      }
    }
  }

  /** The rewrite works character by character. */
  lemma ToUrlAlphabetAppend(a: string, b: string)
    ensures ToUrlAlphabet(a + b) == ToUrlAlphabet(a) + ToUrlAlphabet(b)
  {
    ReplaceAllAppend(a, b, '+', "-");
    var a1, b1 := ReplaceAll(a, '+', "-"), ReplaceAll(b, '+', "-");
    ReplaceAllAppend(a1, b1, '/', "_");
    var a2, b2 := ReplaceAll(a1, '/', "_"), ReplaceAll(b1, '/', "_");
    ReplaceAllAppend(a2, b2, '=', "");
  }

  /** A standard-alphabet character becomes the URL-safe character of the same value. */
  lemma ToUrlAlphabetDigit(i: nat)
    requires i < 64
    ensures ToUrlAlphabet([STANDARD[i]]) == [URL_SAFE[i]]
  {
    AlphabetsAgree(i);
    var x := STANDARD[i];
    assert [x][1..] == [];
    if i < 62 {
      assert x != '+' && x != '/' && x != '=';
      assert ReplaceAll([x], '+', "-") == [x];
      assert ReplaceAll([x], '/', "_") == [x];
      assert ReplaceAll([x], '=', "") == [x];
    } else if i == 62 {
      assert ReplaceAll([x], '+', "-") == "-";
      assert "-"[1..] == [];
      assert ReplaceAll("-", '/', "_") == "-";
      assert ReplaceAll("-", '=', "") == "-";
    } else {
      assert ReplaceAll([x], '+', "-") == [x];
      assert ReplaceAll([x], '/', "_") == "_";
      assert "_"[1..] == [];
      assert ReplaceAll("_", '=', "") == "_";
    }
  }

  /** The pad character disappears. */
  lemma ToUrlAlphabetPad()
    ensures ToUrlAlphabet([PAD]) == []
  {
    var p: string := [PAD];
    assert p[0] == '=' && p[1..] == [];
    assert ReplaceAll(p, '+', "-") == p;
    assert ReplaceAll(p, '/', "_") == p;
    assert ReplaceAll(p, '=', "") == "" + ReplaceAll([], '=', "");
  }

  /** A group of four characters is rewritten one character at a time. */
  lemma ToUrlAlphabetFour(w: char, x: char, y: char, z: char, rw: string, rx: string, ry: string, rz: string)
    requires ToUrlAlphabet([w]) == rw && ToUrlAlphabet([x]) == rx
    requires ToUrlAlphabet([y]) == ry && ToUrlAlphabet([z]) == rz
    ensures ToUrlAlphabet([w, x, y, z]) == rw + rx + ry + rz
  {
    assert [w, x, y, z] == [w] + [x] + [y] + [z];
    ToUrlAlphabetAppend([w] + [x] + [y], [z]);
    ToUrlAlphabetAppend([w] + [x], [y]);
    ToUrlAlphabetAppend([w], [x]);
  }

  /** A last group of two characters and two `=` loses its padding. */
  lemma ToUrlAlphabetTwoPad(w: char, x: char, a: char, b: char)
    requires ToUrlAlphabet([w]) == [a] && ToUrlAlphabet([x]) == [b]
    ensures ToUrlAlphabet([w, x, PAD, PAD]) == [a, b]
  {
    ToUrlAlphabetPad();
    ToUrlAlphabetFour(w, x, PAD, PAD, [a], [b], [], []);
    assert [a] + [b] + [] + [] == [a, b];
  }

  /** A last group of three characters and one `=` loses its padding. */
  lemma ToUrlAlphabetThreePad(w: char, x: char, y: char, a: char, b: char, c: char)
    requires ToUrlAlphabet([w]) == [a] && ToUrlAlphabet([x]) == [b] && ToUrlAlphabet([y]) == [c]
    ensures ToUrlAlphabet([w, x, y, PAD]) == [a, b, c]
  {
    ToUrlAlphabetPad();
    ToUrlAlphabetFour(w, x, y, PAD, [a], [b], [c], []);
    assert [a] + [b] + [c] + [] == [a, b, c];
  }

  /** `urlSafe(buffer)`: the standard Base64 encoding of `buffer` with `+`
      turned into `-`, `/` into `_` and every `=` dropped. */
  function UrlSafe(buffer: seq<byte>): (r: string)
    ensures '+' !in r && '/' !in r && '=' !in r
  {
    ToUrlAlphabetClean(Encode(buffer));
    ToUrlAlphabet(Encode(buffer))
  }

  /** `urlSafe` is exactly the unpadded RFC 4648 section 5 encoding of its input. */
  lemma {:induction false} UrlSafeIsBase64Url(buffer: seq<byte>)
    ensures UrlSafe(buffer) == EncodeUrlNoPad(buffer)
    ensures |UrlSafe(buffer)| == (4 * |buffer| + 2) / 3
    decreases |buffer|
  {
    if |buffer| == 1 {
      UrlSafeOneByte(buffer);
    } else if |buffer| == 2 {
      UrlSafeTwoBytes(buffer);
    } else if |buffer| >= 3 {
      UrlSafeIsBase64Url(buffer[3..]);
      UrlSafeGroup(buffer);
    }
  }

  lemma UrlSafeOneByte(bs: seq<byte>)
    requires |bs| == 1
    ensures ToUrlAlphabet(Encode(bs)) == EncodeUrlNoPad(bs)
  {
    var i, j := EncodeOne(bs);
    ToUrlAlphabetDigit(i);
    ToUrlAlphabetDigit(j);
    ToUrlAlphabetTwoPad(STANDARD[i], STANDARD[j], URL_SAFE[i], URL_SAFE[j]);
  }

  lemma UrlSafeTwoBytes(bs: seq<byte>)
    requires |bs| == 2
    ensures ToUrlAlphabet(Encode(bs)) == EncodeUrlNoPad(bs)
  {
    var i, j, k := EncodeTwo(bs);
    ToUrlAlphabetDigit(i);
    ToUrlAlphabetDigit(j);
    ToUrlAlphabetDigit(k);
    ToUrlAlphabetThreePad(STANDARD[i], STANDARD[j], STANDARD[k], URL_SAFE[i], URL_SAFE[j], URL_SAFE[k]);
  }

  lemma UrlSafeGroup(bs: seq<byte>)
    requires |bs| >= 3
    requires ToUrlAlphabet(Encode(bs[3..])) == EncodeUrlNoPad(bs[3..])
    ensures ToUrlAlphabet(Encode(bs)) == EncodeUrlNoPad(bs)
  {
    var i, j, k, l := EncodeGroup(bs);
    ToUrlAlphabetDigit(i);
    ToUrlAlphabetDigit(j);
    ToUrlAlphabetDigit(k);
    ToUrlAlphabetDigit(l);
    ToUrlAlphabetGroup(STANDARD[i], STANDARD[j], STANDARD[k], STANDARD[l],
                       URL_SAFE[i], URL_SAFE[j], URL_SAFE[k], URL_SAFE[l],
                       Encode(bs[3..]), EncodeUrlNoPad(bs[3..]));
  }

  /** A rewritten group of four characters followed by a rewritten remainder. */
  lemma ToUrlAlphabetGroup(w: char, x: char, y: char, z: char, a: char, b: char, c: char, d: char,
                           rest: string, rest': string)
    requires ToUrlAlphabet([w]) == [a] && ToUrlAlphabet([x]) == [b]
    requires ToUrlAlphabet([y]) == [c] && ToUrlAlphabet([z]) == [d]
    requires ToUrlAlphabet(rest) == rest'
    ensures ToUrlAlphabet([w, x, y, z] + rest) == [a, b, c, d] + rest'
  {
    var group := [w, x, y, z];
    assert ToUrlAlphabet(group) == [a, b, c, d] by {
      ToUrlAlphabetFour(w, x, y, z, [a], [b], [c], [d]);
      assert [a] + [b] + [c] + [d] == [a, b, c, d];
    }
    ToUrlAlphabetAppend(group, rest);
  }

  // ---------------------------------------------------------------------------
  // The S256 code challenge.

  /** Why `deriveChallenge` rejects. The messages are those of the source. */
  datatype CryptoError =
    | InvalidCodeLength       // "Invalid code length."
    | SubtleCryptoUnavailable // "window.crypto.subtle is unavailable."
    | TextEncoderUnavailable  // "TextEncoder is unavailable."
    | DigestFailed            // the rejection of `crypto.subtle.digest`, passed on

  /** RFC 7636, section 4.1: a code verifier has 43 to 128 characters. */
  predicate ValidVerifierLength(code: string)
  {
    43 <= |code| <= 128
  }

  /** `DefaultCrypto.deriveChallenge(code)`. `encode` is `TextEncoder.encode`
      (UTF-8) and `digest` is `crypto.subtle.digest('SHA-256', ·)`, which may
      reject (`None`). */
  function DeriveChallenge(code: string, host: Host, encode: string -> seq<byte>,
                           digest: seq<byte> -> Option<seq<byte>>): (r: Result<string, CryptoError>)
    ensures !ValidVerifierLength(code) ==> r == Failure(InvalidCodeLength)
    ensures r.Success? ==> digest(encode(code)).Some? && r.value == UrlSafe(digest(encode(code)).value)
    ensures r.Success? ==> '+' !in r.value && '/' !in r.value && '=' !in r.value
  {
    if !ValidVerifierLength(code) then Failure(InvalidCodeLength)
    else if !HasSubtleCrypto(host) then Failure(SubtleCryptoUnavailable)
    else if !HasTextEncoder(host) then Failure(TextEncoderUnavailable)
    else
      match digest(encode(code))
      case Some(hash) => Success(UrlSafe(hash))
      case None => Failure(DigestFailed)
  }

  /** Where the length is valid the capability checks come in a fixed order:
      subtle crypto first, then the text encoder, and only then the digest. */
  lemma CapabilityChecksInOrder(code: string, host: Host, encode: string -> seq<byte>,
                                digest: seq<byte> -> Option<seq<byte>>)
    requires ValidVerifierLength(code)
    ensures !HasSubtleCrypto(host) ==> DeriveChallenge(code, host, encode, digest) == Failure(SubtleCryptoUnavailable)
    ensures HasSubtleCrypto(host) && !HasTextEncoder(host)
            ==> DeriveChallenge(code, host, encode, digest) == Failure(TextEncoderUnavailable)
    ensures HasSubtleCrypto(host) && HasTextEncoder(host)
            ==> DeriveChallenge(code, host, encode, digest)
                == if digest(encode(code)).Some? then Success(UrlSafe(digest(encode(code)).value))
                   else Failure(DigestFailed)
  {
  }

  /** What the host flags do to `deriveChallenge`. Without a `window` no flag
      holds, so a verifier of valid length is rejected for missing subtle crypto.
      A missing TextEncoder is reported only on a host that has `window`,
      `window.crypto` and `crypto.subtle`. A missing subtle crypto is reported
      only for a verifier of valid length on a host that lacks one of those. */
  lemma HostFlagsInDeriveChallenge(code: string, host: Host, encode: string -> seq<byte>,
                                   digest: seq<byte> -> Option<seq<byte>>)
    ensures !host.window && ValidVerifierLength(code)
            ==> DeriveChallenge(code, host, encode, digest) == Failure(SubtleCryptoUnavailable)
    ensures DeriveChallenge(code, host, encode, digest) == Failure(TextEncoderUnavailable)
            ==> host.window && host.windowCrypto && host.subtle && !host.textEncoder
    ensures DeriveChallenge(code, host, encode, digest) == Failure(SubtleCryptoUnavailable)
            ==> ValidVerifierLength(code) && !(host.window && host.windowCrypto && host.subtle)
  {
  }

  /** A rejection by a guard does not depend on the encoder or the digest: neither
      is used before all three guards pass. */
  lemma GuardsPrecedeDigest(code: string, host: Host,
                            encode: string -> seq<byte>, digest: seq<byte> -> Option<seq<byte>>,
                            encode': string -> seq<byte>, digest': seq<byte> -> Option<seq<byte>>)
    requires DeriveChallenge(code, host, encode, digest).Failure?
    requires DeriveChallenge(code, host, encode, digest).error != DigestFailed
    ensures DeriveChallenge(code, host, encode', digest') == DeriveChallenge(code, host, encode, digest)
  {
  }

  /** When every guard passes and the digest resolves, the challenge is
      BASE64URL(SHA256(verifier)) without padding (RFC 7636, section 4.2); a
      32-byte SHA-256 digest gives a 43-character challenge. */
  lemma ChallengeIsBase64UrlOfDigest(code: string, host: Host, encode: string -> seq<byte>,
                                     digest: seq<byte> -> Option<seq<byte>>)
    requires ValidVerifierLength(code) && HasSubtleCrypto(host) && HasTextEncoder(host)
    requires digest(encode(code)).Some?
    ensures DeriveChallenge(code, host, encode, digest) == Success(EncodeUrlNoPad(digest(encode(code)).value))
    ensures |digest(encode(code)).value| == 32 ==> |DeriveChallenge(code, host, encode, digest).value| == 43
  {
    UrlSafeIsBase64Url(digest(encode(code)).value);
  }

  /** The unreserved characters a code verifier may use (RFC 7636, section 4.1). */
  predicate IsUnreserved(c: char)
  {
    IsAlphanumeric(c) || c == '-' || c == '.' || c == '_' || c == '~'
  }

  /** A string drawn from `CHARSET` with 43 to 128 characters is a well-formed
      code verifier (RFC 7636, section 4.1). */
  lemma RandomStringIsVerifier(s: string)
    requires forall c :: c in s ==> c in CHARSET
    requires ValidVerifierLength(s)
    ensures forall i :: 0 <= i < |s| ==> IsUnreserved(s[i])
  {
    AlphanumericOnly();
    assert CHARSET == ALPHANUMERIC;
    forall i | 0 <= i < |s|
      ensures IsUnreserved(s[i])
    {
      assert s[i] in CHARSET;
      var k :| 0 <= k < |CHARSET| && CHARSET[k] == s[i];
    }
  }
}
