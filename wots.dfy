/**
 * The WOTS+ implementation as it runs: byte buffers are arrays written in
 * place, the ADDR words sit in an eight-word array that the chaining code
 * updates, and every operation is proved to leave its buffers holding what
 * the definitions in `WotsSpec` describe.
 *
 * The module-level scratch buffers of the original (`prfbuf`, `thashfbuf`,
 * ...) are fresh local arrays here; a subarray argument is an array with an
 * offset; arguments that are only read are passed as sequences.
 */
module Wots {
  import opened Bytes
  import opened WotsSpec

  // ---------------------------------------------------------------------
  // Buffer helpers.

  /** The eight ADDR words a `Uint32Array` sees over a fresh copy of 32 ADDR bytes. */
  method WordsView(addr: seq<byte>) returns (addr32: array<uint32>)
    requires |addr| == 32
    ensures fresh(addr32) && addr32[..] == WordsOf(addr)
  {
    var words := WordsOf(addr);
    addr32 := new uint32[8](k requires 0 <= k < 8 => words[k]);
    assert addr32[..] == words;
  }

  // ---------------------------------------------------------------------
  // Encodings.

  /**
   * `ull2Bytes`: writes `input` into `out[off..off + outlen]` big-endian,
   * from the last byte backwards, shifting eight bits out at a time.
   */
  method Ull2Bytes(out: array<byte>, off: nat, outlen: nat, input: uint32)
    requires off + outlen <= out.Length
    modifies out
    ensures out[..] == Splice(old(out[..]), off, ToBE(input, outlen))
  {
    var i := outlen;
    var v: nat := input;
    while i > 0
      invariant 0 <= i <= outlen
      invariant v == input / Pow256(outlen - i)
      invariant forall k :: i <= k < outlen ==> out[off + k] == ToBE(input, outlen)[k]
      invariant forall k :: 0 <= k < out.Length && !(off + i <= k < off + outlen) ==> out[k] == old(out[k])
    {
      i := i - 1;
      ToBEIndex(input, outlen, i);
      out[off + i] := v % 256;
      DivPow256Step(input, outlen - 1 - i);
      v := v / 256;
    }
    assert out[off..off + outlen] == ToBE(input, outlen);
    SpliceByParts(out[..], old(out[..]), off, ToBE(input, outlen));
  }

  /** `addr2Bytes`: the eight ADDR words, each as four big-endian bytes. */
  method Addr2Bytes(out: array<byte>, addr32: array<uint32>)
    requires out.Length == 32 && addr32.Length == 8
    modifies out
    ensures out[..] == AddrBytes(addr32[..])
  {
    for i := 0 to 8
      invariant forall k :: 0 <= k < 4 * i ==> out[k] == ToBE(addr32[k / 4], 4)[k % 4]
    {
      Ull2Bytes(out, 4 * i, 4, addr32[i]);
      forall k | 4 * i <= k < 4 * i + 4
        ensures out[k] == ToBE(addr32[k / 4], 4)[k % 4]
      {
        DivUnique(k, 4, i, k - 4 * i);
      }
    }
    assert forall k :: 0 <= k < 32 ==> out[k] == AddrBytes(addr32[..])[k];
  }

  /** The `ull2Bytes(buf, PARAMSN, padding)` call that starts both hash inputs. */
  method WritePadding(buf: array<byte>, padding: byte)
    requires PARAMSN <= buf.Length
    modifies buf
    ensures buf[..] == Splice(old(buf[..]), 0, Padding(padding))
  {
    Ull2Bytes(buf, 0, PARAMSN, padding);
    PaddingIsBE(padding);
  }

  // ---------------------------------------------------------------------
  // PRF, expansion, F and chains.

  /** `prf`: writes PRF(key, input) into `out[off..off + 32]`. */
  method Prf(H: Hashes, out: array<byte>, off: nat, input: seq<byte>, key: seq<byte>)
    requires off + PARAMSN <= out.Length && |input| == 32 && |key| == PARAMSN
    modifies out
    ensures out[..] == Splice(old(out[..]), off, WotsSpec.Prf(H, key, input))
  {
    var buf := new byte[2 * PARAMSN + 32];
    WritePadding(buf, XMSS_HASH_PADDING_PRF);
    SetBytes(buf, PARAMSN, key);
    SetBytes(buf, 2 * PARAMSN, input);
    assert buf[..PARAMSN] == Padding(XMSS_HASH_PADDING_PRF);
    assert buf[PARAMSN..2 * PARAMSN] == key;
    assert buf[2 * PARAMSN..] == input;
    assert buf[..] == buf[..PARAMSN] + buf[PARAMSN..2 * PARAMSN] + buf[2 * PARAMSN..];
    SetBytes(out, off, H.sha256(buf[..]));
  }

  /** `expandSecret`: private key chunk `i` is PRF(secret, i) and goes to `pk[32 i..32 i + 32]`. */
  method ExpandSecret(H: Hashes, pk: array<byte>, secret: seq<byte>)
    requires WOTSSIGBYTES <= pk.Length && |secret| == PARAMSN
    modifies pk
    ensures pk[..] == Splice(old(pk[..]), 0, PrivKey(H, secret))
  {
    ghost var chunks := PrivChunks(H, secret);
    var ctr := new byte[32];
    for i := 0 to WOTSLEN
      invariant |Flatten(chunks[..i])| == PARAMSN * i
      invariant pk[..] == Splice(old(pk[..]), 0, Flatten(chunks[..i]))
    {
      ExpandPass(H, pk, secret, ctr, i, chunks, old(pk[..]));
    }
    assert chunks[..WOTSLEN] == chunks;
  }

  /** One pass of `expandSecret`'s loop: chunk `i` follows the first `i`. */
  method ExpandPass(H: Hashes, pk: array<byte>, secret: seq<byte>, ctr: array<byte>, i: nat,
                    ghost chunks: seq<seq<byte>>, ghost p0: seq<byte>)
    requires WOTSSIGBYTES <= pk.Length && |secret| == PARAMSN && ctr.Length == 32 && pk != ctr
    requires i < WOTSLEN && |p0| == pk.Length
    requires chunks == PrivChunks(H, secret)
    requires |Flatten(chunks[..i])| == PARAMSN * i
    requires pk[..] == Splice(p0, 0, Flatten(chunks[..i]))
    modifies pk, ctr
    ensures |Flatten(chunks[..i + 1])| == PARAMSN * (i + 1)
    ensures pk[..] == Splice(p0, 0, Flatten(chunks[..i + 1]))
  {
    Ull2Bytes(ctr, 0, 32, i);
    assert ctr[..] == ToBE(i, 32);
    Prf(H, pk, i * PARAMSN, ctr[..], secret);
    assert WotsSpec.Prf(H, secret, ctr[..]) == chunks[i];
    SpliceSnoc(p0, 0, Flatten(chunks[..i]), chunks[i]);
    FlattenSnoc(chunks, i);
  }

  /**
   * `rndBytes`: fills `out[..outlen]` from the SHA-512 stream seeded with
   * `seed`; an absent seed is an error and leaves `out` alone.
   */
  method RndBytes(H: Hashes, out: array<byte>, outlen: nat, seed: Option<seq<byte>>) returns (r: Outcome)
    requires outlen <= out.Length
    modifies out
    ensures seed.None? ==> r.Fail? && out[..] == old(out[..])
    ensures seed.Some? ==> r.Pass? && out[..] == Splice(old(out[..]), 0, RndStream(H, outlen, seed.value, seed.value))
  {
    if seed.None? {
      return Fail("rndBytes unseeded");
    }
    var s := seed.value;
    ghost var stream := RndStream(H, outlen, s, s);
    var state := s;
    var i, remaining := 0, outlen;
    while remaining > 0
      invariant i + remaining == outlen
      invariant stream[i..] == RndStream(H, remaining, state, s)
      invariant out[..] == Splice(old(out[..]), 0, stream[..i])
    {
      var n;
      state, n := RndChunk(H, out, i, remaining, state, s, stream, old(out[..]));
      i, remaining := i + n, remaining - n;
    }
    assert stream[..i] == stream;
    r := Pass;
  }

  /** One pass of the `rndBytes` loop: the first `n` bytes of the digest go to `out[i..]`, its second half is the next state. */
  method RndChunk(H: Hashes, out: array<byte>, i: nat, remaining: nat, state: seq<byte>, seed: seq<byte>,
                  ghost stream: seq<byte>, ghost o0: seq<byte>)
    returns (next: seq<byte>, n: nat)
    requires 0 < remaining && i + remaining == |stream| && |stream| <= out.Length && |o0| == out.Length
    requires stream[i..] == RndStream(H, remaining, state, seed)
    requires out[..] == Splice(o0, 0, stream[..i])
    modifies out
    ensures 0 < n <= remaining && n == Min(remaining, 32)
    ensures stream[i + n..] == RndStream(H, remaining - n, next, seed)
    ensures out[..] == Splice(o0, 0, stream[..i + n])
  {
    var digest := H.sha512(state + seed);
    n := if remaining < 32 then remaining else 32;
    RndStreamStep(H, stream, i, remaining, state, seed);
    ghost var before := out[..];
    SetBytes(out, i, digest[..n]);
    SplicePrefix(o0, before, out[..], stream, i, i + n);
    next := digest[32..64];
  }

  /** One block of the stream: the first bytes of the digest, then the stream from the next state. */
  lemma RndStreamStep(H: Hashes, stream: seq<byte>, i: nat, remaining: nat, state: seq<byte>, seed: seq<byte>)
    requires i <= |stream| && 0 < remaining && stream[i..] == RndStream(H, remaining, state, seed)
    ensures var digest, n := H.sha512(state + seed), Min(remaining, 32);
      i + n <= |stream| && stream[i..i + n] == digest[..n] && stream[i + n..] == RndStream(H, remaining - n, digest[32..64], seed)
  {
    var n := Min(remaining, 32);
    assert stream[i..i + n] == stream[i..][..n];
    assert stream[i + n..] == stream[i..][n..];
  }

  /** The loop of `thashf`: the chain value XOR the bitmask goes to `buf[64..96]`. */
  method MaskInput(buf: array<byte>, out: array<byte>, off: nat, bitmask: array<byte>)
    requires buf.Length == 3 * PARAMSN && off + PARAMSN <= out.Length && bitmask.Length == PARAMSN
    requires buf != out && buf != bitmask
    modifies buf
    ensures buf[..] == Splice(old(buf[..]), 2 * PARAMSN, XorBytes(out[off..off + PARAMSN], bitmask[..]))
  {
    ghost var x, mask := out[off..off + PARAMSN], bitmask[..];
    for i := 0 to PARAMSN
      invariant forall k :: 0 <= k < i ==> buf[2 * PARAMSN + k] == Xor(x[k], mask[k])
      invariant forall k :: 0 <= k < buf.Length && !(2 * PARAMSN <= k < 2 * PARAMSN + i) ==> buf[k] == old(buf[k])
    {
      buf[2 * PARAMSN + i] := Xor(out[off + i], bitmask[i]);
    }
    SpliceByParts(buf[..], old(buf[..]), 2 * PARAMSN, XorBytes(x, mask));
  }

  /**
   * `thashf`: replaces `out[off..off + 32]` by F of it, under the public
   * seed and the ADDR words; word 7 is left at 1.
   */
  method ThashF(H: Hashes, out: array<byte>, off: nat, pubSeed: seq<byte>, addr32: array<uint32>)
    requires off + PARAMSN <= out.Length && |pubSeed| == PARAMSN && addr32.Length == 8
    modifies out, addr32
    ensures addr32[..] == old(addr32[..])[7 := 1]
    ensures out[..] == Splice(old(out[..]), off, WotsSpec.ThashF(H, old(out[off..off + PARAMSN]), pubSeed, old(addr32[..])))
  {
    ghost var w0, x := addr32[..], out[off..off + PARAMSN];
    ghost var key := WotsSpec.Prf(H, pubSeed, AddrBytes(w0[7 := 0]));
    ghost var mask := WotsSpec.Prf(H, pubSeed, AddrBytes(w0[7 := 1]));
    var buf, bitmask := KeyAndMask(H, pubSeed, addr32);
    ghost var keyed := buf[..];
    MaskInput(buf, out, off, bitmask);
    assert buf[..] == Padding(XMSS_HASH_PADDING_F) + key + XorBytes(x, mask) by {
      SpliceTail(keyed, XorBytes(x, mask));
    }
    SetBytes(out, off, H.sha256(buf[..]));
  }

  /**
   * The first part of `thashf`: the F padding and the key, under ADDR word 7
   * set to 0, in the first 64 bytes of a 96-byte buffer, and the mask, under
   * word 7 set to 1, in a 32-byte buffer.
   */
  method KeyAndMask(H: Hashes, pubSeed: seq<byte>, addr32: array<uint32>) returns (buf: array<byte>, bitmask: array<byte>)
    requires |pubSeed| == PARAMSN && addr32.Length == 8
    modifies addr32
    ensures fresh(buf) && fresh(bitmask) && buf.Length == 3 * PARAMSN && bitmask.Length == PARAMSN
    ensures addr32[..] == old(addr32[..])[7 := 1]
    ensures buf[..2 * PARAMSN] == Padding(XMSS_HASH_PADDING_F) + WotsSpec.Prf(H, pubSeed, AddrBytes(old(addr32[..])[7 := 0]))
    ensures bitmask[..] == WotsSpec.Prf(H, pubSeed, AddrBytes(old(addr32[..])[7 := 1]))
  {
    ghost var w0 := addr32[..];
    buf := new byte[3 * PARAMSN];
    bitmask := new byte[PARAMSN];
    var addrAsBytes := new byte[32];
    ghost var b0 := buf[..];
    WritePadding(buf, XMSS_HASH_PADDING_F);
    addr32[7] := 0;
    assert addr32[..] == w0[7 := 0];
    Addr2Bytes(addrAsBytes, addr32);
    ghost var key := WotsSpec.Prf(H, pubSeed, AddrBytes(w0[7 := 0]));
    Prf(H, buf, PARAMSN, addrAsBytes[..], pubSeed);
    assert buf[..] == Splice(b0, 0, Padding(XMSS_HASH_PADDING_F) + key) by {
      SpliceSnoc(b0, 0, Padding(XMSS_HASH_PADDING_F), key);
    }
    addr32[7] := 1;
    assert addr32[..] == w0[7 := 1];
    Addr2Bytes(addrAsBytes, addr32);
    ghost var before := bitmask[..];
    Prf(H, bitmask, 0, addrAsBytes[..], pubSeed);
    SpliceAll(before, WotsSpec.Prf(H, pubSeed, AddrBytes(w0[7 := 1])));
  }

  /** Whether `generateChain` from `start` for `steps` steps computes F at least once. */
  predicate Ran(start: nat, steps: nat)
  {
    start < start + steps && start < WOTSW
  }

  /** The last hash index a chain that ran used. */
  function LastIndex(start: nat, steps: nat): uint32
    requires Ran(start, steps)
  {
    (Min(start + steps, WOTSW) - 1) as uint32
  }

  /** The ADDR words after `generateChain` from `start` for `steps` steps: word 6 holds the last hash index used. */
  function ChainedWords(words: seq<uint32>, start: nat, steps: nat): seq<uint32>
    requires |words| == 8
  {
    if Ran(start, steps) then words[6 := LastIndex(start, steps)][7 := 1] else words
  }

  /**
   * `generateChain`: `out[off..off + 32]` becomes the chain of `input` from
   * hash index `start` for `steps` steps, stopping at index WOTSW - 1.
   */
  method GenerateChain(H: Hashes, out: array<byte>, off: nat, input: seq<byte>, start: nat, steps: nat, pubSeed: seq<byte>, addr32: array<uint32>)
    requires off + PARAMSN <= out.Length && |input| == PARAMSN && |pubSeed| == PARAMSN && addr32.Length == 8
    modifies out, addr32
    ensures out[..] == Splice(old(out[..]), off, Chain(H, input, start, steps, pubSeed, old(addr32[..])))
    ensures addr32[..] == ChainedWords(old(addr32[..]), start, steps)
  {
    ghost var w0 := addr32[..];
    SetBytes(out, off, input);
    var stop := start + steps;
    var i := start;
    while i < stop && i < WOTSW
      invariant start <= i <= stop && (i == start || i <= WOTSW)
      invariant out[..] == Splice(old(out[..]), off, Chain(H, input, start, i - start, pubSeed, w0))
      invariant addr32[..] == ChainedWords(w0, start, i - start)
      decreases stop - i
    {
      ChainPass(H, out, off, input, start, i, pubSeed, addr32, w0, old(out[..]));
      i := i + 1;
    }
    ChainExit(H, input, start, steps, i, pubSeed, w0);
  }

  /** One pass of the `generateChain` loop body: word 6 := i, then F in place. */
  method ChainPass(H: Hashes, out: array<byte>, off: nat, input: seq<byte>, start: nat, i: nat, pubSeed: seq<byte>,
                   addr32: array<uint32>, ghost w0: seq<uint32>, ghost o0: seq<byte>)
    requires off + PARAMSN <= out.Length && |input| == PARAMSN && |pubSeed| == PARAMSN && addr32.Length == 8
    requires |w0| == 8 && |o0| == out.Length && start <= i < WOTSW
    requires out[..] == Splice(o0, off, Chain(H, input, start, i - start, pubSeed, w0))
    requires addr32[..] == ChainedWords(w0, start, i - start)
    modifies out, addr32
    ensures out[..] == Splice(o0, off, Chain(H, input, start, i - start + 1, pubSeed, w0))
    ensures addr32[..] == ChainedWords(w0, start, i - start + 1)
  {
    ghost var c := Chain(H, input, start, i - start, pubSeed, w0);
    ChainWordsStep(w0, start, i);
    addr32[6] := i as uint32;
    assert addr32[..] == ChainedWords(w0, start, i - start)[6 := i as uint32];
    ghost var next := Chain(H, input, start, i - start + 1, pubSeed, w0);
    assert out[off..off + PARAMSN] == c;
    assert WotsSpec.ThashF(H, c, pubSeed, addr32[..]) == next by {
      ChainAdvance(H, input, start, i - start, pubSeed, w0, addr32[..]);
    }
    ThashF(H, out, off, pubSeed, addr32);
    assert out[..] == Splice(Splice(o0, off, c), off, next);
    SpliceTwice(o0, off, c, next);
  }

  /** One pass of the `generateChain` loop: F under the ADDR with word 6 set extends the chain by one step. */
  lemma ChainAdvance(H: Hashes, input: seq<byte>, start: nat, n: nat, pubSeed: seq<byte>, w0: seq<uint32>, words: seq<uint32>)
    requires |input| == PARAMSN && |w0| == 8 && |words| == 8 && start + n < WOTSW
    requires words[..7] == w0[6 := (start + n) as uint32][..7]
    ensures WotsSpec.ThashF(H, Chain(H, input, start, n, pubSeed, w0), pubSeed, words) == Chain(H, input, start, n + 1, pubSeed, w0)
  {
    ThashFIgnoresWord7(H, Chain(H, input, start, n, pubSeed, w0), pubSeed, words, w0[6 := (start + n) as uint32]);
  }

  /** Setting word 6 to the next index gives F's ADDR, and word 7 set to 1 after it the words one step later. */
  lemma ChainWordsStep(w0: seq<uint32>, start: nat, i: nat)
    requires |w0| == 8 && start <= i < WOTSW
    ensures var w := ChainedWords(w0, start, i - start)[6 := i as uint32];
      w[..7] == w0[6 := i as uint32][..7] && w[7 := 1] == ChainedWords(w0, start, i - start + 1)
  {
  }

  /** Where the `generateChain` loop stops, the chain is complete and word 6 holds the last index used. */
  lemma ChainExit(H: Hashes, input: seq<byte>, start: nat, steps: nat, i: nat, pubSeed: seq<byte>, w0: seq<uint32>)
    requires |input| == PARAMSN && |w0| == 8
    requires start <= i <= start + steps && (i == start || i <= WOTSW) && !(i < start + steps && i < WOTSW)
    ensures Chain(H, input, start, i - start, pubSeed, w0) == Chain(H, input, start, steps, pubSeed, w0)
    ensures ChainedWords(w0, start, i - start) == ChainedWords(w0, start, steps)
  {
    if i < start + steps {
      ChainStops(H, input, start, steps, pubSeed, w0);
    }
  }

  // ---------------------------------------------------------------------
  // Chain lengths.

  /**
   * `baseW`: writes `outlen` base-16 digits of `input` to `out[off..]`,
   * taking a fresh byte whenever the bits of the last one are used up.
   */
  method BaseW(out: array<nat>, off: nat, outlen: nat, input: seq<byte>)
    requires off + outlen <= out.Length && outlen <= 2 * |input|
    modifies out
    ensures out[..] == Splice(old(out[..]), off, WotsSpec.BaseW(input, outlen))
  {
    ghost var digits := WotsSpec.BaseW(input, outlen);
    var consumed, i, o, bits, total := 0, 0, 0, 0, 0;
    while consumed < outlen
      invariant consumed <= outlen && o == consumed
      invariant bits == 0 || bits == WOTSLOGW
      invariant if bits == 0 then consumed == 2 * i else consumed + 1 == 2 * i && total == input[i - 1]
      invariant forall k :: 0 <= k < consumed ==> out[off + k] == digits[k]
      invariant forall k :: 0 <= k < out.Length && !(off <= k < off + consumed) ==> out[k] == old(out[k])
    {
      if bits == 0 {
        total := input[i];
        i := i + 1;
        bits := bits + 8;
      }
      bits := bits - WOTSLOGW;
      var digit := (total / Pow2(bits)) % WOTSW;
      BaseWDigit(input, outlen, consumed, i, bits, total);
      out[off + o] := digit;
      o := o + 1;
      consumed := consumed + 1;
    }
    assert out[off..off + outlen] == digits;
    SpliceByParts(out[..], old(out[..]), off, digits);
  }

  /** The digit the loop takes when `bits` bits of the current byte remain is digit `consumed` of `BaseW`. */
  lemma BaseWDigit(input: seq<byte>, outlen: nat, consumed: nat, i: nat, bits: nat, total: nat)
    requires outlen <= 2 * |input| && consumed < outlen
    requires 1 <= i <= |input| && total == input[i - 1]
    requires bits == 0 || bits == WOTSLOGW
    requires if bits == WOTSLOGW then consumed == 2 * (i - 1) else consumed == 2 * (i - 1) + 1
    ensures (total / Pow2(bits)) % WOTSW == WotsSpec.BaseW(input, outlen)[consumed]
  {
    if bits == WOTSLOGW {
      DivUnique(consumed, 2, i - 1, 0);
      assert Pow2(bits) == 16;
    } else {
      DivUnique(consumed, 2, i - 1, 1);
      assert Pow2(bits) == 1;
    }
  }

  /** `wotsChecksum`: the three checksum digits of 64 message digits go to `out[off..off + 3]`. */
  method WotsChecksum(out: array<nat>, off: nat, msg: seq<nat>)
    requires off + WOTSLEN2 <= out.Length && |msg| == WOTSLEN1 && AllDigits(msg)
    modifies out
    ensures out[..] == Splice(old(out[..]), off, ChecksumDigits(msg))
  {
    var csumArray := new byte[CSUM_ARRAY_LENGTH];
    var csum := 0;
    for i := 0 to WOTSLEN1
      invariant csum == CsumOf(msg[..i])
    {
      assert msg[..i + 1][..i] == msg[..i];
      csum := csum + (WOTSW - 1 - msg[i]);
    }
    assert msg[..WOTSLEN1] == msg;
    ChecksumValue(msg);
    csum := csum * 16;
    Ull2Bytes(csumArray, 0, CSUM_ARRAY_LENGTH, csum);
    assert csumArray[..] == ToBE(CsumOf(msg) * 16, CSUM_ARRAY_LENGTH);
    BaseW(out, off, WOTSLEN2, csumArray[..]);
  }

  /** `chainLengths`: the 64 digits of the message digest, then their 3 checksum digits. */
  method ChainLengths(lengths: array<nat>, digest: seq<byte>)
    requires lengths.Length == WOTSLEN && |digest| == PARAMSN
    modifies lengths
    ensures lengths[..] == WotsSpec.ChainLengths(digest)
  {
    BaseW(lengths, 0, WOTSLEN1, digest);
    WotsChecksum(lengths, WOTSLEN1, lengths[..WOTSLEN1]);
  }

  // ---------------------------------------------------------------------
  // The chain loops of generate, sign and pkFromSig.

  /** Chunk `i` of the result of a chain loop: chain `i` of chunk `i` of `src`, under ADDR word 5 set to `i`. */
  ghost function LoopChunk(H: Hashes, src: seq<byte>, starts: seq<nat>, counts: seq<nat>, pubSeed: seq<byte>, words: seq<uint32>, i: nat): (r: seq<byte>)
    requires |src| == WOTSSIGBYTES && |starts| == WOTSLEN && |counts| == WOTSLEN && |words| == 8 && i < WOTSLEN
    ensures |r| == PARAMSN
  {
    Chain(H, src[PARAMSN * i..PARAMSN * i + PARAMSN], starts[i], counts[i], pubSeed, ChainWords(words, i))
  }

  ghost function LoopChunks(H: Hashes, src: seq<byte>, starts: seq<nat>, counts: seq<nat>, pubSeed: seq<byte>, words: seq<uint32>): (r: seq<seq<byte>>)
    requires |src| == WOTSSIGBYTES && |starts| == WOTSLEN && |counts| == WOTSLEN && |words| == 8
    ensures |r| == WOTSLEN && AllOfSize(r, PARAMSN)
  {
    seq(WOTSLEN, i requires 0 <= i < WOTSLEN => LoopChunk(H, src, starts, counts, pubSeed, words, i))
  }

  /** What a chain loop writes to `out[..WOTSSIGBYTES]`: its chunks, in order. */
  ghost function LoopResult(H: Hashes, src: seq<byte>, starts: seq<nat>, counts: seq<nat>, pubSeed: seq<byte>, words: seq<uint32>): (r: seq<byte>)
    requires |src| == WOTSSIGBYTES && |starts| == WOTSLEN && |counts| == WOTSLEN && |words| == 8
    ensures |r| == WOTSSIGBYTES
  {
    var chunks := LoopChunks(H, src, starts, counts, pubSeed, words);
    FlattenSize(chunks, PARAMSN);
    Flatten(chunks)
  }

  /**
   * The loop shared by `generate`, `sign` and `pkFromSig`: for each chain
   * `i`, word 5 of the ADDR is set to `i` and `generateChain` turns chunk
   * `i` of `src` into chunk `i` of `out`.
   */
  method ChainEach(H: Hashes, out: array<byte>, src: seq<byte>, starts: seq<nat>, counts: seq<nat>, pubSeed: seq<byte>, addr32: array<uint32>)
    requires WOTSSIGBYTES <= out.Length && |src| == WOTSSIGBYTES && |starts| == WOTSLEN && |counts| == WOTSLEN
    requires |pubSeed| == PARAMSN && addr32.Length == 8
    modifies out, addr32
    ensures out[..] == Splice(old(out[..]), 0, LoopResult(H, src, starts, counts, pubSeed, old(addr32[..])))
    ensures addr32[..5] == old(addr32[..5]) && addr32[5] == (WOTSLEN - 1) as uint32
    ensures Ran(starts[WOTSLEN - 1], counts[WOTSLEN - 1]) ==> addr32[6] == LastIndex(starts[WOTSLEN - 1], counts[WOTSLEN - 1]) && addr32[7] == 1
  {
    ghost var w0 := addr32[..];
    ghost var s := out[..];
    ghost var chunks := LoopChunks(H, src, starts, counts, pubSeed, w0);
    for i := 0 to WOTSLEN
      invariant |Flatten(chunks[..i])| == PARAMSN * i
      invariant out[..] == Splice(s, 0, Flatten(chunks[..i]))
      invariant addr32[..5] == w0[..5]
      invariant i > 0 ==> AddrAfterChain(addr32[..], starts, counts, i - 1)
    {
      ChainStep(H, out, src, starts, counts, pubSeed, addr32, i, w0, s, chunks);
    }
    assert chunks[..WOTSLEN] == chunks;
  }

  /** The ADDR words after chain `i`: word 5 is `i`, and a chain that ran leaves its last hash index in word 6 and 1 in word 7. */
  predicate AddrAfterChain(words: seq<uint32>, starts: seq<nat>, counts: seq<nat>, i: nat)
    requires |words| == 8 && |starts| == WOTSLEN && |counts| == WOTSLEN && i < WOTSLEN
  {
    words[5] == i as uint32 && (Ran(starts[i], counts[i]) ==> words[6] == LastIndex(starts[i], counts[i]) && words[7] == 1)
  }

  /** One pass of a chain loop: word 5 of the ADDR is set to `i`, then chain `i` is written to chunk `i` of `out`. */
  method ChainStep(H: Hashes, out: array<byte>, src: seq<byte>, starts: seq<nat>, counts: seq<nat>, pubSeed: seq<byte>, addr32: array<uint32>, i: nat,
                   ghost w0: seq<uint32>, ghost s: seq<byte>, ghost chunks: seq<seq<byte>>)
    requires WOTSSIGBYTES <= out.Length && |src| == WOTSSIGBYTES && |starts| == WOTSLEN && |counts| == WOTSLEN
    requires |pubSeed| == PARAMSN && addr32.Length == 8 && |w0| == 8 && i < WOTSLEN && addr32[..5] == w0[..5]
    requires |s| == out.Length && chunks == LoopChunks(H, src, starts, counts, pubSeed, w0)
    requires |Flatten(chunks[..i])| == PARAMSN * i && out[..] == Splice(s, 0, Flatten(chunks[..i]))
    modifies out, addr32
    ensures |Flatten(chunks[..i + 1])| == PARAMSN * (i + 1) && out[..] == Splice(s, 0, Flatten(chunks[..i + 1]))
    ensures addr32[..5] == w0[..5] && AddrAfterChain(addr32[..], starts, counts, i)
  {
    ghost var before := out[..];
    addr32[5] := i as uint32;
    var x := src[PARAMSN * i..PARAMSN * i + PARAMSN];
    assert addr32[..][..6] == w0[5 := i][..6];
    ChainStepWords(H, x, starts[i], counts[i], pubSeed, w0, addr32[..], i);
    GenerateChain(H, out, PARAMSN * i, x, starts[i], counts[i], pubSeed, addr32);
    assert chunks[i] == LoopChunk(H, src, starts, counts, pubSeed, w0, i);
    SpliceChunk(s, before, out[..], chunks, PARAMSN, i);
  }

  /** Chain `i` under the loop's ADDR words, whatever words 6 and 7 hold, is chain `i` under word 5 set to `i`. */
  lemma ChainStepWords(H: Hashes, x: seq<byte>, start: nat, count: nat, pubSeed: seq<byte>, w0: seq<uint32>, w: seq<uint32>, i: nat)
    requires |x| == PARAMSN && |w0| == 8 && |w| == 8 && i < WOTSLEN && w[..6] == w0[5 := i][..6]
    ensures Chain(H, x, start, count, pubSeed, w) == Chain(H, x, start, count, pubSeed, ChainWords(w0, i))
  {
    ChainIgnoresWords67(H, x, start, count, pubSeed, w, ChainWords(w0, i));
  }

  // ---------------------------------------------------------------------
  // The Wots class.

  /** Chain starts and lengths that run every chain in full, as key generation does. */
  function FullChains(): (r: seq<nat>)
    ensures |r| == WOTSLEN
  {
    seq(WOTSLEN, _ => WOTSW - 1)
  }

  function NoSteps(): (r: seq<nat>)
    ensures |r| == WOTSLEN
  {
    seq(WOTSLEN, _ => 0)
  }

  /** Running every chain in full over the private key gives the public key. */
  lemma PubKeyLoop(H: Hashes, secret: seq<byte>)
    ensures LoopResult(H, PrivKey(H, secret), NoSteps(), FullChains(), PubSeedOf(H, secret), AddrWordsOf(H, secret)) == PubKey(H, secret)
  {
    var pub := seq(WOTSLEN, i requires 0 <= i < WOTSLEN => PubChunk(H, secret, i));
    var loop := LoopChunks(H, PrivKey(H, secret), NoSteps(), FullChains(), PubSeedOf(H, secret), AddrWordsOf(H, secret));
    forall i | 0 <= i < WOTSLEN
      ensures loop[i] == pub[i]
    {
      PubKeyChunk(H, secret, i);
    }
    FlattenEq(loop, pub);
  }

  /** Chain `i` of key generation is public key chunk `i`. */
  lemma PubKeyChunk(H: Hashes, secret: seq<byte>, i: nat)
    requires i < WOTSLEN
    ensures LoopChunk(H, PrivKey(H, secret), NoSteps(), FullChains(), PubSeedOf(H, secret), AddrWordsOf(H, secret), i) == PubChunk(H, secret, i)
  {
    var priv := PrivChunks(H, secret);
    ChunksOfSize(H, secret, []);
    FlattenChunk(priv, PARAMSN, i);
    assert NoSteps()[i] == 0 && FullChains()[i] == WOTSW - 1;
  }

  /**
   * `Wots.generate`: the secret is expanded from the seed, or from 32 bytes
   * of fresh entropy when no seed is given; the address is the public key,
   * the public seed and the ADDR with words 5-7 left as the last chain
   * left them.
   */
  method Generate(H: Hashes, seed: Option<seq<byte>>, entropy: seq<byte>) returns (address: array<byte>, secret: array<byte>)
    requires |entropy| == 32
    ensures fresh(address) && fresh(secret)
    ensures secret[..] == SecretOf(H, if seed.Some? then seed.value else entropy)
    ensures address[..] == GeneratedAddress(H, secret[..])
  {
    var s := if seed.Some? then seed.value else entropy;
    secret := new byte[32];
    ghost var blank := secret[..];
    var _ := RndBytes(H, secret, 32, Some(s));
    SpliceAll(blank, SecretOf(H, s));
    address := PublicAddress(H, secret[..]);
  }

  /**
   * The expansion shared by `generate` and `sign`: the 2208 bytes expanded
   * from the secret with the private key written over their first 2144,
   * and the ADDR words read from their last 32.
   */
  method ExpandKey(H: Hashes, secret: seq<byte>) returns (pk: array<byte>, addr32: array<uint32>)
    requires |secret| == PARAMSN
    ensures fresh(pk) && fresh(addr32)
    ensures pk[..] == Splice(Expansion(H, secret), 0, PrivKey(H, secret))
    ensures addr32[..] == AddrWordsOf(H, secret)
  {
    pk := new byte[ADDRLEN];
    ghost var blank := pk[..];
    var _ := RndBytes(H, pk, ADDRLEN, Some(secret));
    SpliceAll(blank, Expansion(H, secret));
    addr32 := WordsView(pk[ADDRp..]);
    ExpandSecret(H, pk, secret);
  }

  /** The chain loop of `generate` and the tagged ADDR copied back: the address of a secret. */
  method PublicAddress(H: Hashes, secret: seq<byte>) returns (address: array<byte>)
    requires |secret| == PARAMSN
    ensures fresh(address) && address[..] == GeneratedAddress(H, secret)
  {
    var pk, addr32 := ExpandKey(H, secret);
    ghost var words := addr32[..];
    ghost var expanded := pk[..];
    ExpandedParts(H, secret, expanded);
    var pubSeed := pk[PUBSEEDp..ADDRp];
    var priv := pk[..WOTSSIGBYTES];
    assert pubSeed == expanded[PUBSEEDp..ADDRp] && priv == expanded[..WOTSSIGBYTES];
    ChainEach(H, pk, priv, NoSteps(), FullChains(), pubSeed, addr32);
    PubKeyLoop(H, secret);
    FullRun();
    TaggedWords(words, addr32[..]);
    ghost var chained := pk[..];
    SetBytes(pk, ADDRp, WordsBytes(addr32[..]));
    address := pk;
    GeneratedBytes(H, secret, expanded, chained, address[..]);
  }

  /** After `expandSecret`, the buffer holds the private key, then the public seed of the expansion. */
  lemma ExpandedParts(H: Hashes, secret: seq<byte>, expanded: seq<byte>)
    requires expanded == Splice(Expansion(H, secret), 0, PrivKey(H, secret))
    ensures expanded[..WOTSSIGBYTES] == PrivKey(H, secret) && expanded[PUBSEEDp..ADDRp] == PubSeedOf(H, secret)
  {
  }

  /** The last chain of key generation runs, up to hash index 14. */
  lemma FullRun()
    ensures Ran(NoSteps()[WOTSLEN - 1], FullChains()[WOTSLEN - 1])
    ensures LastIndex(NoSteps()[WOTSLEN - 1], FullChains()[WOTSLEN - 1]) == (WOTSW - 2) as uint32
  {
  }

  /** ADDR words that agree with `words` on words 0-4 and hold 66, 14 and 1 after are the tagged words. */
  lemma TaggedWords(words: seq<uint32>, a: seq<uint32>)
    requires |words| == 8 && |a| == 8 && a[..5] == words[..5]
    requires a[5] == (WOTSLEN - 1) as uint32 && a[6] == (WOTSW - 2) as uint32 && a[7] == 1
    ensures a == TagWords(words)
  {
    var t := TagWords(words);
    assert forall k :: 0 <= k < 5 ==> a[k] == a[..5][k] && t[k] == t[..5][k];
  }

  /** The buffer key generation ends with is the generated address. */
  lemma GeneratedBytes(H: Hashes, secret: seq<byte>, expanded: seq<byte>, chained: seq<byte>, r: seq<byte>)
    requires expanded == Splice(Expansion(H, secret), 0, PrivKey(H, secret))
    requires chained == Splice(expanded, 0, PubKey(H, secret))
    requires r == Splice(chained, ADDRp, WordsBytes(TagWords(AddrWordsOf(H, secret))))
    ensures r == GeneratedAddress(H, secret)
  {
    var e := Expansion(H, secret);
    assert r[..PUBSEEDp] == PubKey(H, secret);
    assert r[PUBSEEDp..ADDRp] == e[PUBSEEDp..ADDRp];
    assert r == r[..PUBSEEDp] + r[PUBSEEDp..ADDRp] + r[ADDRp..];
  }

  /** Running chain `i` for as many steps as digit `i` of the message digest gives signature chunk `i`. */
  lemma SignatureLoop(H: Hashes, message: seq<byte>, secret: seq<byte>)
    ensures LoopResult(H, PrivKey(H, secret), NoSteps(), WotsSpec.ChainLengths(H.sha256(message)), PubSeedOf(H, secret), AddrWordsOf(H, secret)) == SignatureOf(H, message, secret)
  {
    var sig := seq(WOTSLEN, i requires 0 <= i < WOTSLEN => SigChunk(H, message, secret, i));
    var loop := LoopChunks(H, PrivKey(H, secret), NoSteps(), WotsSpec.ChainLengths(H.sha256(message)), PubSeedOf(H, secret), AddrWordsOf(H, secret));
    forall i | 0 <= i < WOTSLEN
      ensures loop[i] == sig[i]
    {
      SignatureLoopChunk(H, message, secret, WotsSpec.ChainLengths(H.sha256(message)), i);
    }
    FlattenEq(loop, sig);
  }

  lemma SignatureLoopChunk(H: Hashes, message: seq<byte>, secret: seq<byte>, lengths: seq<nat>, i: nat)
    requires i < WOTSLEN && lengths == WotsSpec.ChainLengths(H.sha256(message))
    ensures LoopChunk(H, PrivKey(H, secret), NoSteps(), lengths, PubSeedOf(H, secret), AddrWordsOf(H, secret), i) == SigChunk(H, message, secret, i)
  {
    var priv := PrivChunks(H, secret);
    ChunksOfSize(H, secret, message);
    FlattenChunk(priv, PARAMSN, i);
    assert NoSteps()[i] == 0;
  }

  /**
   * `Wots.sign`: each chain runs from the private key chunk for as many
   * steps as the matching digit of SHA-256(message); the signature is a
   * copy of the first 2144 bytes of the work buffer.
   */
  method Sign(H: Hashes, message: seq<byte>, secret: seq<byte>) returns (signature: array<byte>)
    requires |secret| == PARAMSN
    ensures fresh(signature) && signature[..] == SignatureOf(H, message, secret)
  {
    var lengths := new nat[WOTSLEN];
    ChainLengths(lengths, H.sha256(message));
    var pk, addr32 := ExpandKey(H, secret);
    ghost var expanded := pk[..];
    ExpandedParts(H, secret, expanded);
    var pubSeed := pk[PUBSEEDp..ADDRp];
    var priv := pk[..WOTSSIGBYTES];
    assert pubSeed == expanded[PUBSEEDp..ADDRp] && priv == expanded[..WOTSSIGBYTES];
    ChainEach(H, pk, priv, NoSteps(), lengths[..], pubSeed, addr32);
    SignatureLoop(H, message, secret);
    signature := CopyOf(pk[..WOTSSIGBYTES]);
  }

  /** The steps left to the end of each chain after the digits in `lengths`. */
  function Remaining(lengths: seq<nat>): (r: seq<nat>)
    requires |lengths| == WOTSLEN && AllDigits(lengths)
    ensures |r| == WOTSLEN
  {
    seq(WOTSLEN, i requires 0 <= i < WOTSLEN => WOTSW - 1 - lengths[i])
  }

  /** Continuing each signature chunk from its digit to the end of the chain is what `PkFromSigOf` describes. */
  lemma PkFromSigLoop(H: Hashes, signature: seq<byte>, message: seq<byte>, pubSeed: seq<byte>, addr: seq<byte>)
    requires |signature| == WOTSSIGBYTES && |addr| == 32
    ensures var lengths := WotsSpec.ChainLengths(H.sha256(message));
      LoopResult(H, signature, lengths, Remaining(lengths), pubSeed, WordsOf(addr)) == PkFromSigOf(H, signature, message, pubSeed, addr)
  {
    var lengths := WotsSpec.ChainLengths(H.sha256(message));
    var pk := seq(WOTSLEN, i requires 0 <= i < WOTSLEN => PkChunk(H, signature, lengths, pubSeed, WordsOf(addr), i));
    var loop := LoopChunks(H, signature, lengths, Remaining(lengths), pubSeed, WordsOf(addr));
    forall i | 0 <= i < WOTSLEN
      ensures loop[i] == pk[i]
    {
      PkFromSigChunk(H, signature, lengths, pubSeed, WordsOf(addr), i);
    }
    FlattenEq(loop, pk);
  }

  lemma PkFromSigChunk(H: Hashes, signature: seq<byte>, lengths: seq<nat>, pubSeed: seq<byte>, words: seq<uint32>, i: nat)
    requires |signature| == WOTSSIGBYTES && |lengths| == WOTSLEN && AllDigits(lengths) && |words| == 8 && i < WOTSLEN
    ensures LoopChunk(H, signature, lengths, Remaining(lengths), pubSeed, words, i) == PkChunk(H, signature, lengths, pubSeed, words, i)
  {
    assert Remaining(lengths)[i] == WOTSW - 1 - lengths[i];
  }

  /**
   * `Wots.pkFromSig`: after the length checks on the signature, the public
   * seed and ADDR, in that order, each chain continues from the signature
   * chunk at the digit of SHA-256(message) to the end of the chain.
   */
  method PkFromSig(H: Hashes, signature: seq<byte>, message: seq<byte>, pubSeed: seq<byte>, addr: seq<byte>) returns (r: Result<array<byte>>)
    ensures r.Failure? ==> WotsSpec.PkFromSig(H, signature, message, pubSeed, addr) == Failure(r.error)
    ensures r.Success? ==> fresh(r.value) && WotsSpec.PkFromSig(H, signature, message, pubSeed, addr) == Success(r.value[..])
  {
    if |signature| != WOTSSIGBYTES {
      return Failure("invalid signature length");
    }
    if |pubSeed| != 32 {
      return Failure("invalid pubSeed length");
    }
    if |addr| != 32 {
      return Failure("invalid addr length");
    }
    var pk := new byte[WOTSSIGBYTES];
    var lengths := new nat[WOTSLEN];
    var addr32 := WordsView(addr);
    ChainLengths(lengths, H.sha256(message));
    ghost var blank := pk[..];
    ChainEach(H, pk, signature, lengths[..], Remaining(lengths[..]), pubSeed, addr32);
    PkFromSigLoop(H, signature, message, pubSeed, addr);
    SpliceAll(blank, PkFromSigOf(H, signature, message, pubSeed, addr));
    return Success(pk);
  }

  /**
   * `Wots.verify`: after the length checks on the signature and the
   * address, the public key derived from the signature is compared byte by
   * byte with the address's, stopping at the first difference.
   */
  method Verify(H: Hashes, signature: seq<byte>, message: seq<byte>, address: seq<byte>) returns (r: Result<bool>)
    ensures r == WotsSpec.Verify(H, signature, message, address)
  {
    if |signature| != WOTSSIGBYTES {
      return Failure("invalid signature length");
    }
    if |address| != ADDRLEN {
      return Failure("invalid address length");
    }
    var pubSeed := address[PUBSEEDp..PUBSEEDp + 32];
    var addr := address[ADDRp..ADDRp + 32];
    var derived := PkFromSig(H, signature, message, pubSeed, addr);
    assert pubSeed == address[PUBSEEDp..ADDRp] && addr == address[ADDRp..];
    var pk := derived.value;
    ghost var expected := address[..WOTSSIGBYTES];
    assert pk[..] == PkFromSigOf(H, signature, message, pubSeed, addr);
    var isDiff := false;
    var i := 0;
    while i < pk.Length && !isDiff
      invariant 0 <= i <= pk.Length
      invariant isDiff <==> exists k :: 0 <= k < i && pk[k] != address[k]
    {
      isDiff := pk[i] != address[i];
      i := i + 1;
    }
    assert !isDiff ==> pk[..] == expected;
    assert isDiff ==> pk[..] != expected by {
      if isDiff {
        var k :| 0 <= k < i && pk[k] != address[k];
        assert pk[..][k] != expected[k];
      }
    }
    return Success(!isDiff);
  }
}
