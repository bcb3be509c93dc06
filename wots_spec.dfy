/**
 * The WOTS+ one-time signature scheme of the Mochimo network (a variant of
 * RFC 8391) as pure definitions: the address words, the PRF and the chaining
 * function F, the Winternitz chain, base-w digits with their checksum, the
 * SHA-512 stream expander, and the address, signature and public key that
 * key generation, signing and verification compute. The imperative model of
 * the same operations is proved against these definitions.
 *
 * SHA-256 and SHA-512 are uninterpreted: every definition takes the pair of
 * hash functions `H` as a parameter, and only their output lengths are known.
 */
module WotsSpec {
  import opened Bytes
  import Constants
  import Util

  // ---------------------------------------------------------------------
  // Parameters.

  const PARAMSN: nat := 32
  const WOTSW: nat := 16
  const WOTSLOGW: nat := 4
  const WOTSLEN1: nat := 8 * PARAMSN / WOTSLOGW
  const WOTSLEN2: nat := 3
  const WOTSLEN: nat := WOTSLEN1 + WOTSLEN2
  const WOTSSIGBYTES: nat := WOTSLEN * PARAMSN
  const XMSS_HASH_PADDING_F: nat := 0
  const XMSS_HASH_PADDING_PRF: nat := 3
  const CSUM_ARRAY_LENGTH: nat := (WOTSLEN2 * WOTSLOGW + 7) / 8

  /** Offsets inside a 2208-byte WOTS+ address: public key, public seed, ADDR. */
  const SIGLEN: nat := WOTSSIGBYTES
  const PUBSEEDp: nat := WOTSSIGBYTES
  const ADDRp: nat := WOTSSIGBYTES + PARAMSN
  const ADDRLEN: nat := ADDRp + PARAMSN

  /** The derived sizes, and the address layout filling a transaction address. */
  lemma Parameters()
    ensures WOTSLEN1 == 64 && WOTSLEN == 67 && WOTSSIGBYTES == 2144 && CSUM_ARRAY_LENGTH == 2
    ensures SIGLEN == Constants.TXSIGLEN && PUBSEEDp == 2144 && ADDRp == 2176
    ensures ADDRLEN == Constants.TXADDRLEN == 2208
  {
  }

  // ---------------------------------------------------------------------
  // The hash functions.

  type Digest32 = s: seq<byte> | |s| == 32 witness seq(32, _ => 0)
  type Digest64 = s: seq<byte> | |s| == 64 witness seq(64, _ => 0)

  /** SHA-256 and SHA-512, known only through the lengths of their digests. */
  datatype Hashes = Hashes(sha256: seq<byte> -> Digest32, sha512: seq<byte> -> Digest64)

  // ---------------------------------------------------------------------
  // ADDR words (RFC 8391, section 2.5). The 32-byte ADDR is read as eight
  // 32-bit words in the platform's little-endian order; before hashing the
  // words are written out big-endian.

  /** `addr2Bytes`: the words, each as four big-endian bytes. */
  function AddrBytes(words: seq<uint32>): (r: seq<byte>)
    ensures |r| == 4 * |words|
  {
    seq(4 * |words|, k requires 0 <= k < 4 * |words| => ToBE(words[k / 4], 4)[k % 4])
  }

  /** The words a `Uint32Array` over `bytes` holds: word k is bytes 4k..4k+3, little-endian. */
  function WordsOf(bytes: seq<byte>): (r: seq<uint32>)
    requires |bytes| % 4 == 0
    ensures |r| == |bytes| / 4
  {
    if bytes == [] then []
    else
      assert Pow256(4) == TWO_TO_32;
      [FromLE(bytes[..4])] + WordsOf(bytes[4..])
  }

  /** The bytes under a `Uint32Array` holding `words`. */
  function WordsBytes(words: seq<uint32>): (r: seq<byte>)
    ensures |r| == 4 * |words|
  {
    if words == [] then [] else ToLE(words[0], 4) + WordsBytes(words[1..])
  }

  /** Storing words and viewing the bytes as words again gives the words back. */
  lemma {:induction false} WordsRoundTrip(words: seq<uint32>)
    ensures WordsOf(WordsBytes(words)) == words
  {
    if words != [] {
      var b := WordsBytes(words);
      assert b[..4] == ToLE(words[0], 4);
      assert b[4..] == WordsBytes(words[1..]);
      FromToLE(words[0], 4);
      assert Pow256(4) == TWO_TO_32;
      WordsRoundTrip(words[1..]);
    }
  }

  /** Viewing bytes as words and storing the words gives the bytes back. */
  lemma {:induction false} BytesRoundTrip(bytes: seq<byte>)
    requires |bytes| % 4 == 0
    ensures WordsBytes(WordsOf(bytes)) == bytes
  {
    if bytes != [] {
      ToFromLE(bytes[..4]);
      BytesRoundTrip(bytes[4..]);
      assert bytes == bytes[..4] + bytes[4..];
    }
  }

  // ---------------------------------------------------------------------
  // PRF and F (RFC 8391, sections 5.1 and 3.1.2's chaining function).

  /** The domain-separation prefix: `v` as a 32-byte big-endian number. */
  function Padding(v: byte): (r: seq<byte>)
    ensures |r| == PARAMSN
  {
    seq(PARAMSN, k requires 0 <= k < PARAMSN => if k == PARAMSN - 1 then v else 0)
  }

  /** A byte value written big-endian over `n` bytes is `n - 1` zeros and the value. */
  lemma {:induction false} SmallToBE(v: byte, n: nat, k: nat)
    requires k < n
    ensures ToBE(v, n)[k] == if k == n - 1 then v else 0
  {
    if k > 0 {
      SmallToBE(v, n - 1, k - 1);
    } else if n > 1 {
      assert Pow256(n - 1) == 256 * Pow256(n - 2);
      DivUnique(v, Pow256(n - 1), 0, v);
    }
  }

  /** The padding is the 32-byte big-endian encoding `ull2Bytes` writes. */
  lemma PaddingIsBE(v: byte)
    ensures Padding(v) == ToBE(v, PARAMSN)
  {
    forall k | 0 <= k < PARAMSN
      ensures Padding(v)[k] == ToBE(v, PARAMSN)[k]
    {
      SmallToBE(v, PARAMSN, k);
    }
  }

  /** PRF(key, input): SHA-256 over the 32-byte padding 3, the key and the input. */
  function Prf(H: Hashes, key: seq<byte>, input: seq<byte>): Digest32
  {
    H.sha256(Padding(XMSS_HASH_PADDING_PRF) + key + input)
  }

  /**
   * F: the key and the bitmask are PRF outputs under the public seed for the
   * ADDR with word 7 set to 0 and to 1; the result is SHA-256 over the
   * 32-byte padding 0, the key and the masked input.
   */
  function ThashF(H: Hashes, x: seq<byte>, pubSeed: seq<byte>, words: seq<uint32>): Digest32
    requires |x| == PARAMSN && |words| == 8
  {
    var key := Prf(H, pubSeed, AddrBytes(words[7 := 0]));
    var mask := Prf(H, pubSeed, AddrBytes(words[7 := 1]));
    H.sha256(Padding(XMSS_HASH_PADDING_F) + key + XorBytes(x, mask))
  }

  /**
   * The chaining function: `steps` applications of F from hash index
   * `start` on, the hash index going into word 6; indices from WOTSW on are
   * skipped.
   */
  function Chain(H: Hashes, x: seq<byte>, start: nat, steps: nat, pubSeed: seq<byte>, words: seq<uint32>): (r: seq<byte>)
    requires |x| == PARAMSN && |words| == 8
    ensures |r| == PARAMSN
  {
    if steps == 0 then x
    else
      var y := Chain(H, x, start, steps - 1, pubSeed, words);
      var i := start + steps - 1;
      if i < WOTSW then ThashF(H, y, pubSeed, words[6 := i]) else y
  }

  /** One more step below index WOTSW applies F once more. */
  lemma ChainNext(H: Hashes, x: seq<byte>, s: nat, n: nat, pubSeed: seq<byte>, words: seq<uint32>)
    requires |x| == PARAMSN && |words| == 8 && s + n < WOTSW
    ensures Chain(H, x, s, n + 1, pubSeed, words) == ThashF(H, Chain(H, x, s, n, pubSeed, words), pubSeed, words[6 := s + n])
  {
  }

  /** Running the chain for `a` steps and then `b` more is running it for `a + b` steps. */
  lemma {:induction false} ChainCompose(H: Hashes, x: seq<byte>, s: nat, a: nat, b: nat, pubSeed: seq<byte>, words: seq<uint32>)
    requires |x| == PARAMSN && |words| == 8
    ensures Chain(H, Chain(H, x, s, a, pubSeed, words), s + a, b, pubSeed, words) == Chain(H, x, s, a + b, pubSeed, words)
  {
    if b > 0 {
      ChainCompose(H, x, s, a, b - 1, pubSeed, words);
      assert s + a + b - 1 == s + (a + b) - 1;
    }
  }

  /** A signature chain of length `a`, continued from index `a` to the end, reaches the public key chain's end. */
  lemma ChainComplete(H: Hashes, x: seq<byte>, a: nat, pubSeed: seq<byte>, words: seq<uint32>)
    requires |x| == PARAMSN && |words| == 8 && a <= WOTSW - 1
    ensures Chain(H, Chain(H, x, 0, a, pubSeed, words), a, WOTSW - 1 - a, pubSeed, words) == Chain(H, x, 0, WOTSW - 1, pubSeed, words)
  {
    ChainCompose(H, x, 0, a, WOTSW - 1 - a, pubSeed, words);
  }

  /** Steps past hash index WOTSW - 1 leave the chain as it is. */
  lemma {:induction false} ChainStops(H: Hashes, x: seq<byte>, s: nat, n: nat, pubSeed: seq<byte>, words: seq<uint32>)
    requires |x| == PARAMSN && |words| == 8
    requires s + n > WOTSW
    ensures Chain(H, x, s, n, pubSeed, words) == Chain(H, x, s, if s < WOTSW then WOTSW - s else 0, pubSeed, words)
  {
    var k := if s < WOTSW then WOTSW - s else 0;
    if n - 1 > k {
      ChainStops(H, x, s, n - 1, pubSeed, words);
    }
  }

  /** F ignores word 7 of the ADDR it is given: it sets it itself. */
  lemma ThashFIgnoresWord7(H: Hashes, x: seq<byte>, pubSeed: seq<byte>, w1: seq<uint32>, w2: seq<uint32>)
    requires |x| == PARAMSN && |w1| == 8 && |w2| == 8 && w1[..7] == w2[..7]
    ensures ThashF(H, x, pubSeed, w1) == ThashF(H, x, pubSeed, w2)
  {
    assert w1[7 := 0] == w2[7 := 0];
    assert w1[7 := 1] == w2[7 := 1];
  }

  /** A chain ignores words 6 and 7 of the ADDR it is given: it sets them itself. */
  lemma {:induction false} ChainIgnoresWords67(H: Hashes, x: seq<byte>, s: nat, n: nat, pubSeed: seq<byte>, w1: seq<uint32>, w2: seq<uint32>)
    requires |x| == PARAMSN && |w1| == 8 && |w2| == 8 && w1[..6] == w2[..6]
    ensures Chain(H, x, s, n, pubSeed, w1) == Chain(H, x, s, n, pubSeed, w2)
  {
    if n > 0 {
      ChainIgnoresWords67(H, x, s, n - 1, pubSeed, w1, w2);
      var i := s + n - 1;
      if i < WOTSW {
        var y := Chain(H, x, s, n - 1, pubSeed, w1);
        assert w1[6 := i][..7] == w2[6 := i][..7];
        ThashFIgnoresWord7(H, y, pubSeed, w1[6 := i], w2[6 := i]);
      }
    }
  }

  /** Chain `i` depends on the ADDR only through words 0-4: word 5 is the chain index. */
  lemma ChainDependsOnWords04(H: Hashes, x: seq<byte>, s: nat, n: nat, pubSeed: seq<byte>, w1: seq<uint32>, w2: seq<uint32>, i: uint32)
    requires |x| == PARAMSN && |w1| == 8 && |w2| == 8 && w1[..5] == w2[..5]
    ensures Chain(H, x, s, n, pubSeed, w1[5 := i]) == Chain(H, x, s, n, pubSeed, w2[5 := i])
  {
    assert w1[5 := i][..6] == w2[5 := i][..6];
    ChainIgnoresWords67(H, x, s, n, pubSeed, w1[5 := i], w2[5 := i]);
  }

  // ---------------------------------------------------------------------
  // Base-w digits and the checksum (RFC 8391, sections 2.6 and 3.1.5).

  /** `outlen` base-16 digits of `input`: the high nibble of each byte, then its low nibble. */
  function BaseW(input: seq<byte>, outlen: nat): (r: seq<nat>)
    requires outlen <= 2 * |input|
    ensures |r| == outlen
    ensures forall k :: 0 <= k < outlen ==> r[k] < WOTSW
  {
    seq(outlen, k requires 0 <= k < outlen => if k % 2 == 0 then input[k / 2] / 16 else input[k / 2] % 16)
  }

  /** The digits reassemble the bytes they were taken from. */
  lemma BaseWBytes(input: seq<byte>, outlen: nat, j: nat)
    requires outlen <= 2 * |input| && 2 * j + 1 < outlen
    ensures BaseW(input, outlen)[2 * j] * 16 + BaseW(input, outlen)[2 * j + 1] == input[j]
  {
    var r := BaseW(input, outlen);
    assert (2 * j) / 2 == j && (2 * j + 1) / 2 == j && (2 * j) % 2 == 0 && (2 * j + 1) % 2 == 1;
    assert r[2 * j] == input[j] / 16 && r[2 * j + 1] == input[j] % 16;
  }

  predicate AllDigits(d: seq<nat>)
  {
    forall k :: 0 <= k < |d| ==> d[k] < WOTSW
  }

  /** The checksum of message digits: the sum of `w - 1 - d` over the digits. */
  function CsumOf(digits: seq<nat>): int
  {
    if digits == [] then 0 else CsumOf(digits[..|digits| - 1]) + (WOTSW - 1 - digits[|digits| - 1])
  }

  /** The checksum lies between 0 and `(w - 1)` times the number of digits. */
  lemma {:induction false} CsumBound(digits: seq<nat>)
    requires AllDigits(digits)
    ensures 0 <= CsumOf(digits) <= (WOTSW - 1) * |digits|
  {
    if digits != [] {
      var init := digits[..|digits| - 1];
      assert AllDigits(init);
      CsumBound(init);
    }
  }

  /** The three checksum digits: the checksum shifted left by 4, as two big-endian bytes, in base 16. */
  function ChecksumDigits(msg: seq<nat>): (r: seq<nat>)
    requires |msg| == WOTSLEN1 && AllDigits(msg)
    ensures |r| == WOTSLEN2
  {
    CsumBound(msg);
    BaseW(ToBE(CsumOf(msg) * 16, CSUM_ARRAY_LENGTH), WOTSLEN2)
  }

  /** A checksum of at most 960, shifted left by 4, fits two bytes: the high and the low nibble pair. */
  lemma CsumBytes(c: nat)
    requires c <= 960
    ensures ToBE(c * 16, 2) == [c / 16, 16 * (c % 16)]
    ensures FromBE(ToBE(c * 16, 2)) == c * 16
  {
    var t := c * 16;
    assert c == 16 * (c / 16) + c % 16;
    DivUnique(t, 256, c / 16, 16 * (c % 16));
    assert ToBE(t, 2) == [(t / 256) % 256] + ToBE(t, 1);
    assert ToBE(t, 1) == [t % 256];
    FromToBE(t, 2);
    assert Pow256(2) == 0x1_0000;
  }

  /**
   * The checksum is at most 960; shifted left by 4 it fits the two bytes,
   * and the three digits are the checksum in base 16.
   */
  lemma ChecksumValue(msg: seq<nat>)
    requires |msg| == WOTSLEN1 && AllDigits(msg)
    ensures 0 <= CsumOf(msg) <= 960
    ensures FromBE(ToBE(CsumOf(msg) * 16, CSUM_ARRAY_LENGTH)) == CsumOf(msg) * 16
    ensures var d := ChecksumDigits(msg); d[0] * 256 + d[1] * 16 + d[2] == CsumOf(msg)
  {
    CsumBound(msg);
    var c := CsumOf(msg);
    assert CSUM_ARRAY_LENGTH == 2;
    CsumBytes(c);
    var d := ChecksumDigits(msg);
    assert d == BaseW([c / 16, 16 * (c % 16)], WOTSLEN2);
    assert d[0] == (c / 16) / 16 && d[1] == (c / 16) % 16 && d[2] == (16 * (c % 16)) / 16;
    assert c / 16 == 16 * d[0] + d[1];
    assert d[2] == c % 16;
  }

  /** `chainLengths`: 64 digits of the message digest followed by its 3 checksum digits. */
  function ChainLengths(digest: seq<byte>): (r: seq<nat>)
    requires |digest| == PARAMSN
    ensures |r| == WOTSLEN && AllDigits(r)
    ensures r[..WOTSLEN1] == BaseW(digest, WOTSLEN1)
  {
    var msg := BaseW(digest, WOTSLEN1);
    msg + ChecksumDigits(msg)
  }

  // ---------------------------------------------------------------------
  // Key material.

  /**
   * The SHA-512 stream expander: each block is the first min(32, remaining)
   * bytes of SHA-512(state ‖ seed), and the next state is bytes 32..63 of
   * that digest; the first state is the seed itself.
   */
  function RndStream(H: Hashes, outlen: nat, state: seq<byte>, seed: seq<byte>): (r: seq<byte>)
    ensures |r| == outlen
    decreases outlen
  {
    if outlen == 0 then []
    else
      var digest := H.sha512(state + seed);
      var n := Min(outlen, 32);
      digest[..n] + RndStream(H, outlen - n, digest[32..64], seed)
  }

  /** The expander is a stream: asking for fewer bytes yields a prefix of the longer output. */
  lemma {:induction false} RndStreamPrefix(H: Hashes, m: nat, n: nat, state: seq<byte>, seed: seq<byte>)
    requires m <= n
    ensures RndStream(H, m, state, seed) == RndStream(H, n, state, seed)[..m]
    decreases n
  {
    if m > 0 {
      var digest := H.sha512(state + seed);
      var next := digest[32..64];
      if m >= 32 {
        RndStreamPrefix(H, m - 32, n - 32, next, seed);
      } else if n < 32 {
        assert RndStream(H, n, state, seed)[..m] == digest[..n][..m];
      } else {
        assert RndStream(H, n, state, seed)[..m] == digest[..32][..m];
      }
    }
  }

  /** The 32-byte secret key derived from a seed. */
  function SecretOf(H: Hashes, seed: seq<byte>): (r: seq<byte>)
    ensures |r| == 32
  {
    RndStream(H, 32, seed, seed)
  }

  /** The 2208 bytes expanded from the secret; its public seed and ADDR parts are kept. */
  function Expansion(H: Hashes, secret: seq<byte>): (r: seq<byte>)
    ensures |r| == ADDRLEN
  {
    RndStream(H, ADDRLEN, secret, secret)
  }

  function PubSeedOf(H: Hashes, secret: seq<byte>): (r: seq<byte>)
    ensures |r| == PARAMSN
  {
    Expansion(H, secret)[PUBSEEDp..ADDRp]
  }

  /** The ADDR words taken from the expansion, as the `Uint32Array` view reads them. */
  function AddrWordsOf(H: Hashes, secret: seq<byte>): (r: seq<uint32>)
    ensures |r| == 8
  {
    WordsOf(Expansion(H, secret)[ADDRp..])
  }

  /** Private key chunk `i`: PRF(secret, i as 32 big-endian bytes). */
  function PrivChunk(H: Hashes, secret: seq<byte>, i: nat): seq<byte>
  {
    Prf(H, secret, ToBE(i, 32))
  }

  /** The 67 private key chunks, in order. */
  function PrivChunks(H: Hashes, secret: seq<byte>): (r: seq<seq<byte>>)
    ensures |r| == WOTSLEN && AllOfSize(r, PARAMSN)
    ensures forall i :: 0 <= i < WOTSLEN ==> r[i] == PrivChunk(H, secret, i)
  {
    seq(WOTSLEN, i requires 0 <= i < WOTSLEN => PrivChunk(H, secret, i))
  }

  /** `expandSecret`: the 67 private key chunks, in order. */
  function PrivKey(H: Hashes, secret: seq<byte>): (r: seq<byte>)
    ensures |r| == WOTSSIGBYTES
  {
    FlattenSize(PrivChunks(H, secret), PARAMSN);
    Flatten(PrivChunks(H, secret))
  }

  /** The ADDR of chain `i`: word 5 is the chain index. */
  function ChainWords(words: seq<uint32>, i: nat): seq<uint32>
    requires |words| == 8 && i < WOTSLEN
  {
    words[5 := i]
  }

  /** Public key chunk `i`: the whole chain (15 steps) from private key chunk `i`. */
  function PubChunk(H: Hashes, secret: seq<byte>, i: nat): (r: seq<byte>)
    requires i < WOTSLEN
    ensures |r| == PARAMSN
  {
    Chain(H, PrivChunk(H, secret, i), 0, WOTSW - 1, PubSeedOf(H, secret), ChainWords(AddrWordsOf(H, secret), i))
  }

  function PubKey(H: Hashes, secret: seq<byte>): (r: seq<byte>)
    ensures |r| == WOTSSIGBYTES
  {
    var chunks := seq(WOTSLEN, i requires 0 <= i < WOTSLEN => PubChunk(H, secret, i));
    FlattenSize(chunks, PARAMSN);
    Flatten(chunks)
  }

  /** The ADDR words as key generation leaves them: words 5, 6 and 7 hold 66, 14 and 1. */
  function TagWords(words: seq<uint32>): (r: seq<uint32>)
    requires |words| == 8
    ensures |r| == 8 && r[..5] == words[..5]
  {
    words[5 := WOTSLEN - 1][6 := WOTSW - 2][7 := 1]
  }

  /** The address `generate` returns for a secret: public key, public seed, tagged ADDR. */
  function GeneratedAddress(H: Hashes, secret: seq<byte>): (r: seq<byte>)
    ensures |r| == ADDRLEN
  {
    PubKey(H, secret) + PubSeedOf(H, secret) + WordsBytes(TagWords(AddrWordsOf(H, secret)))
  }

  /** Signature chunk `i`: the chain from private key chunk `i`, as long as digit `i` of the message. */
  function SigChunk(H: Hashes, message: seq<byte>, secret: seq<byte>, i: nat): (r: seq<byte>)
    requires i < WOTSLEN
    ensures |r| == PARAMSN
  {
    var lengths := ChainLengths(H.sha256(message));
    Chain(H, PrivChunk(H, secret, i), 0, lengths[i], PubSeedOf(H, secret), ChainWords(AddrWordsOf(H, secret), i))
  }

  /** The signature `sign` returns. */
  function SignatureOf(H: Hashes, message: seq<byte>, secret: seq<byte>): (r: seq<byte>)
    ensures |r| == WOTSSIGBYTES
  {
    var chunks := seq(WOTSLEN, i requires 0 <= i < WOTSLEN => SigChunk(H, message, secret, i));
    FlattenSize(chunks, PARAMSN);
    Flatten(chunks)
  }

  /** Public key chunk `i` recomputed from a signature: the rest of the chain from digit `i` on. */
  function PkChunk(H: Hashes, signature: seq<byte>, lengths: seq<nat>, pubSeed: seq<byte>, words: seq<uint32>, i: nat): (r: seq<byte>)
    requires |signature| == WOTSSIGBYTES && |lengths| == WOTSLEN && AllDigits(lengths) && |words| == 8 && i < WOTSLEN
    ensures |r| == PARAMSN
  {
    Chain(H, signature[PARAMSN * i..PARAMSN * i + PARAMSN], lengths[i], WOTSW - 1 - lengths[i], pubSeed, ChainWords(words, i))
  }

  /** The public key `pkFromSig` derives from well-sized arguments. */
  function PkFromSigOf(H: Hashes, signature: seq<byte>, message: seq<byte>, pubSeed: seq<byte>, addr: seq<byte>): (r: seq<byte>)
    requires |signature| == WOTSSIGBYTES && |addr| == 32
    ensures |r| == WOTSSIGBYTES
  {
    var lengths := ChainLengths(H.sha256(message));
    var chunks := seq(WOTSLEN, i requires 0 <= i < WOTSLEN => PkChunk(H, signature, lengths, pubSeed, WordsOf(addr), i));
    FlattenSize(chunks, PARAMSN);
    Flatten(chunks)
  }

  /** `pkFromSig`, including the length checks on the signature, the public seed and ADDR. */
  function PkFromSig(H: Hashes, signature: seq<byte>, message: seq<byte>, pubSeed: seq<byte>, addr: seq<byte>): (r: Result<seq<byte>>)
    ensures r.Failure? <==> |signature| != WOTSSIGBYTES || |pubSeed| != 32 || |addr| != 32
  {
    if |signature| != WOTSSIGBYTES then Failure("invalid signature length")
    else if |pubSeed| != 32 then Failure("invalid pubSeed length")
    else if |addr| != 32 then Failure("invalid addr length")
    else Success(PkFromSigOf(H, signature, message, pubSeed, addr))
  }

  /** `verify`: the public key derived from the signature must equal the address's public key. */
  function Verify(H: Hashes, signature: seq<byte>, message: seq<byte>, address: seq<byte>): (r: Result<bool>)
    ensures r.Failure? <==> |signature| != WOTSSIGBYTES || |address| != ADDRLEN
  {
    if |signature| != WOTSSIGBYTES then Failure("invalid signature length")
    else if |address| != ADDRLEN then Failure("invalid address length")
    else Success(PkFromSigOf(H, signature, message, address[PUBSEEDp..ADDRp], address[ADDRp..]) == address[..WOTSSIGBYTES])
  }

  // ---------------------------------------------------------------------
  // Properties of the scheme.

  lemma ChunksOfSize(H: Hashes, secret: seq<byte>, message: seq<byte>)
    ensures AllOfSize(seq(WOTSLEN, i requires 0 <= i < WOTSLEN => PubChunk(H, secret, i)), PARAMSN)
    ensures AllOfSize(seq(WOTSLEN, i requires 0 <= i < WOTSLEN => SigChunk(H, message, secret, i)), PARAMSN)
  {
  }

  /**
   * Layout of a generated address: 2208 bytes, the public key first, the
   * public seed at PUBSEEDp, and at ADDRp the ADDR words with words 5-7
   * rewritten.
   */
  lemma GeneratedLayout(H: Hashes, secret: seq<byte>)
    ensures GeneratedAddress(H, secret)[..WOTSSIGBYTES] == PubKey(H, secret)
    ensures GeneratedAddress(H, secret)[PUBSEEDp..ADDRp] == PubSeedOf(H, secret)
    ensures GeneratedAddress(H, secret)[ADDRp..] == WordsBytes(TagWords(AddrWordsOf(H, secret)))
    ensures WordsOf(GeneratedAddress(H, secret)[ADDRp..]) == TagWords(AddrWordsOf(H, secret))
  {
    var pk, seed := PubKey(H, secret), PubSeedOf(H, secret);
    var tagged := WordsBytes(TagWords(AddrWordsOf(H, secret)));
    var a := GeneratedAddress(H, secret);
    assert a == pk + seed + tagged;
    assert a[ADDRp..] == tagged;
    WordsRoundTrip(TagWords(AddrWordsOf(H, secret)));
  }

  /** The last 12 bytes of a generated address: words 66, 14 and 1, little-endian. */
  function TagTail(): seq<byte>
  {
    ToLE(WOTSLEN - 1, 4) + ToLE(WOTSW - 2, 4) + ToLE(1, 4)
  }

  /**
   * A generated address keeps the first 20 bytes of the expanded ADDR and
   * ends with the tag words.
   */
  lemma GeneratedAddrBytes(H: Hashes, secret: seq<byte>)
    ensures GeneratedAddress(H, secret)[ADDRp..ADDRp + 20] == Expansion(H, secret)[ADDRp..ADDRp + 20]
    ensures GeneratedAddress(H, secret)[ADDRp + 20..] == TagTail()
  {
    GeneratedLayout(H, secret);
    var e := Expansion(H, secret)[ADDRp..];
    var a := GeneratedAddress(H, secret);
    TaggedBytes(e);
    assert a[ADDRp..ADDRp + 20] == a[ADDRp..][..20];
    assert a[ADDRp + 20..] == a[ADDRp..][20..];
    assert e[..20] == Expansion(H, secret)[ADDRp..ADDRp + 20];
  }

  /** Rewriting words 5-7 of an ADDR keeps its first 20 bytes and puts the tag words in the last 12. */
  lemma TaggedBytes(e: seq<byte>)
    requires |e| == 32
    ensures WordsBytes(TagWords(WordsOf(e))) == e[..20] + TagTail()
  {
    var w := WordsOf(e);
    BytesRoundTrip(e);
    var t := TagWords(w);
    WordsBytesSplit(w, 5);
    assert WordsBytes(w[..5]) == e[..20];
    WordsBytesSplit(t, 5);
    assert t[5..] == [WOTSLEN - 1, WOTSW - 2, 1];
    TagTailWords();
  }

  lemma TagTailWords()
    ensures WordsBytes([WOTSLEN - 1, WOTSW - 2, 1]) == TagTail()
  {
    var ws: seq<uint32> := [WOTSLEN - 1, WOTSW - 2, 1];
    assert ws[1..][1..][1..] == [];
    assert WordsBytes(ws[1..][1..]) == ToLE(1, 4);
    assert WordsBytes(ws[1..]) == ToLE(WOTSW - 2, 4) + ToLE(1, 4);
  }

  /** The tag words are the bytes 42000000 0e000000 01000000 of the default tag. */
  lemma TagTailBytes()
    ensures TagTail() == Constants.TAG_WORD5 + Constants.TAG_WORD6 + Constants.TAG_WORD7
  {
    assert ToLE(66, 4) == Constants.TAG_WORD5;
    assert ToLE(14, 4) == Constants.TAG_WORD6;
    assert ToLE(1, 4) == Constants.TAG_WORD7;
  }

  lemma {:induction false} WordsBytesSplit(w: seq<uint32>, k: nat)
    requires k <= |w|
    ensures WordsBytes(w) == WordsBytes(w[..k]) + WordsBytes(w[k..])
    ensures |WordsBytes(w[..k])| == 4 * k
  {
    if k > 0 {
      WordsBytesSplit(w[1..], k - 1);
      assert w[1..][..k - 1] == w[..k][1..];
      assert w[1..][k - 1..] == w[k..];
    } else {
      assert w[..0] == [] && w[0..] == w;
    }
  }

  /** A generated address's bytes 2196..2207, as hexadecimal text, are DEFAULT_TAG. */
  lemma GeneratedTagText(H: Hashes, secret: seq<byte>)
    ensures Util.Hex(GeneratedAddress(H, secret)[ADDRp + 20..]) == Constants.DEFAULT_TAG
  {
    GeneratedAddrBytes(H, secret);
    TagTailBytes();
    Constants.DefaultTag();
    Util.HexAppend(Constants.TAG_WORD5 + Constants.TAG_WORD6, Constants.TAG_WORD7);
    Util.HexAppend(Constants.TAG_WORD5, Constants.TAG_WORD6);
  }

  /** Chunk `i` of a signature's public key, rebuilt from the signature, is chunk `i` of the public key. */
  lemma PkChunkOfSignature(H: Hashes, message: seq<byte>, secret: seq<byte>, i: nat)
    requires i < WOTSLEN
    ensures var sig := SignatureOf(H, message, secret);
      var address := GeneratedAddress(H, secret);
      |sig| == WOTSSIGBYTES && |address| == ADDRLEN &&
      PkChunk(H, sig, ChainLengths(H.sha256(message)), address[PUBSEEDp..ADDRp], WordsOf(address[ADDRp..]), i) == PubChunk(H, secret, i)
  {
    SignatureChunk(H, message, secret, i);
    GeneratedLayout(H, secret);
    var lengths := ChainLengths(H.sha256(message));
    var w := AddrWordsOf(H, secret);
    var seed := PubSeedOf(H, secret);
    var x := PrivChunk(H, secret, i);
    ChainDependsOnWords04(H, Chain(H, x, 0, lengths[i], seed, ChainWords(w, i)), lengths[i], WOTSW - 1 - lengths[i], seed, TagWords(w), w, i);
    ChainComplete(H, x, lengths[i], seed, ChainWords(w, i));
  }

  /** Chunk `i` of a signature is signature chunk `i`. */
  lemma SignatureChunk(H: Hashes, message: seq<byte>, secret: seq<byte>, i: nat)
    requires i < WOTSLEN
    ensures SignatureOf(H, message, secret)[PARAMSN * i..PARAMSN * i + PARAMSN] == SigChunk(H, message, secret, i)
  {
    var chunks := seq(WOTSLEN, i requires 0 <= i < WOTSLEN => SigChunk(H, message, secret, i));
    ChunksOfSize(H, secret, message);
    FlattenChunk(chunks, PARAMSN, i);
  }

  /** The public key rebuilt from a signature is the public key of the signing secret. */
  lemma SignedKey(H: Hashes, message: seq<byte>, secret: seq<byte>)
    ensures var address := GeneratedAddress(H, secret);
      PkFromSigOf(H, SignatureOf(H, message, secret), message, address[PUBSEEDp..ADDRp], address[ADDRp..]) == PubKey(H, secret)
  {
    var sig := SignatureOf(H, message, secret);
    var address := GeneratedAddress(H, secret);
    var lengths := ChainLengths(H.sha256(message));
    var derived := seq(WOTSLEN, i requires 0 <= i < WOTSLEN => PkChunk(H, sig, lengths, address[PUBSEEDp..ADDRp], WordsOf(address[ADDRp..]), i));
    var pub := seq(WOTSLEN, i requires 0 <= i < WOTSLEN => PubChunk(H, secret, i));
    forall i | 0 <= i < WOTSLEN
      ensures derived[i] == pub[i]
    {
      PkChunkOfSignature(H, message, secret, i);
    }
    FlattenEq(derived, pub);
  }

  /**
   * The WOTS+ round trip: verification accepts, against the generated
   * address, the signature made with the same secret.
   */
  lemma SignThenVerify(H: Hashes, message: seq<byte>, secret: seq<byte>)
    ensures var address := GeneratedAddress(H, secret);
      PkFromSig(H, SignatureOf(H, message, secret), message, address[PUBSEEDp..ADDRp], address[ADDRp..]) == Success(PubKey(H, secret))
    ensures Verify(H, SignatureOf(H, message, secret), message, GeneratedAddress(H, secret)) == Success(true)
  {
    SignedKey(H, message, secret);
    GeneratedLayout(H, secret);
  }
}
