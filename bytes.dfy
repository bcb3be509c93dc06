/**
 * Byte-level vocabulary shared by every module of the model: the byte and
 * 32-bit word types, failure-carrying results, buffer splicing (the effect of
 * `TypedArray.prototype.set`), big- and little-endian integer codecs, and the
 * flattening of fixed-size chunks into one buffer.
 */
module Bytes {

  type byte = x: int | 0 <= x < 256
  type uint32 = x: int | 0 <= x < 0x1_0000_0000

  const TWO_TO_16: nat := 0x1_0000
  const TWO_TO_32: nat := 0x1_0000_0000
  const TWO_TO_64: nat := 0x1_0000_0000_0000_0000

  datatype Option<T> = None | Some(value: T)

  /** Outcome of an operation that may throw (the JavaScript exception becomes `Failure`). */
  datatype Result<T> = Success(value: T) | Failure(error: string)

  /** Outcome of a setter that either completes or throws. */
  datatype Outcome = Pass | Fail(error: string)

  function Min(a: int, b: int): int { if a < b then a else b }

  function Pow256(n: nat): (r: nat)
    ensures r >= 1
  {
    if n == 0 then 1 else 256 * Pow256(n - 1)
  }

  function Pow2(n: nat): (r: nat)
    ensures r >= 1
  {
    if n == 0 then 1 else 2 * Pow2(n - 1)
  }

  /** The buffer `s` after writing `src` at `off`; every other element is kept. */
  function Splice<T>(s: seq<T>, off: nat, src: seq<T>): (r: seq<T>)
    requires off + |src| <= |s|
    ensures |r| == |s|
    ensures r[..off] == s[..off] && r[off..off + |src|] == src && r[off + |src|..] == s[off + |src|..]
    ensures forall k :: 0 <= k < |s| && !(off <= k < off + |src|) ==> r[k] == s[k]
  {
    s[..off] + src + s[off + |src|..]
  }

  /** A nonempty sequence is its front followed by its last element. */
  lemma InitLast<T>(s: seq<T>)
    requires s != []
    ensures s == s[..|s| - 1] + [s[|s| - 1]]
  {
  }

  /** The head and tail of a sequence built by prepending one element. */
  lemma ConsTail<T>(c: T, t: seq<T>)
    ensures ([c] + t)[0] == c && ([c] + t)[1..] == t
  {
  }

  /** A nonempty sequence is its head followed by its tail. */
  lemma HeadTail<T>(s: seq<T>)
    requires s != []
    ensures s == [s[0]] + s[1..]
  {
  }

  lemma AppendAssoc<T>(a: seq<T>, b: seq<T>, c: seq<T>)
    ensures a + (b + c) == (a + b) + c
  {
  }

  /** A slice from the start is the prefix. */
  lemma SliceFromStart<T>(s: seq<T>, n: nat)
    requires n <= |s|
    ensures s[0..n] == s[..n]
  {
  }

  /** A slice that runs to the end is the suffix. */
  lemma SliceToEnd<T>(s: seq<T>, i: nat)
    requires i <= |s|
    ensures s[i..|s|] == s[i..]
  {
  }

  /** A slice of a suffix is a slice of the whole. */
  lemma SliceOfSuffix<T>(s: seq<T>, a: nat, o: nat, e: nat)
    requires a <= |s| && o <= e <= |s| - a
    ensures s[a..][o..e] == s[a + o..a + e]
  {
  }

  lemma SpliceSnoc<T>(s: seq<T>, off: nat, a: seq<T>, b: seq<T>)
    requires off + |a| + |b| <= |s|
    ensures Splice(Splice(s, off, a), off + |a|, b) == Splice(s, off, a + b)
  {
    var l, r := Splice(Splice(s, off, a), off + |a|, b), Splice(s, off, a + b);
    forall k | 0 <= k < |s|
      ensures l[k] == r[k]
    {
      if off <= k < off + |a| {
        assert l[k] == Splice(s, off, a)[off..off + |a|][k - off];
        assert r[k] == r[off..off + |a| + |b|][k - off];
      } else if off + |a| <= k < off + |a| + |b| {
        assert l[k] == l[off + |a|..off + |a| + |b|][k - off - |a|];
        assert r[k] == r[off..off + |a| + |b|][k - off];
      }
    }
  }

  /** Writing `src` over the end of `s` keeps the front and ends in `src`. */
  lemma SpliceTail<T>(s: seq<T>, src: seq<T>)
    requires |src| <= |s|
    ensures Splice(s, |s| - |src|, src) == s[..|s| - |src|] + src
  {
  }

  /** A second write over the same place replaces the first. */
  lemma SpliceTwice<T>(s: seq<T>, off: nat, a: seq<T>, b: seq<T>)
    requires off + |a| <= |s| && |b| == |a|
    ensures Splice(Splice(s, off, a), off, b) == Splice(s, off, b)
  {
    var l, r := Splice(Splice(s, off, a), off, b), Splice(s, off, b);
    assert forall k :: 0 <= k < |s| ==> l[k] == r[k];
  }

  /** A buffer that holds `src` at `off` and agrees with `s` elsewhere is `s` with `src` written at `off`. */
  lemma SpliceByParts<T>(r: seq<T>, s: seq<T>, off: nat, src: seq<T>)
    requires |r| == |s| && off + |src| <= |s| && r[off..off + |src|] == src
    requires forall k :: 0 <= k < |s| && !(off <= k < off + |src|) ==> r[k] == s[k]
    ensures r == Splice(s, off, src)
  {
    forall k | 0 <= k < |s|
      ensures r[k] == Splice(s, off, src)[k]
    {
      if off <= k < off + |src| {
        assert r[k] == r[off..off + |src|][k - off];
      }
    }
  }

  /** Writing a whole buffer replaces it. */
  lemma SpliceAll<T>(s: seq<T>, src: seq<T>)
    requires |src| == |s|
    ensures Splice(s, 0, src) == src
  {
  }

  /** Bitwise exclusive or of two bytes. */
  function Xor(a: byte, b: byte): byte
  {
    ((a as bv8) ^ (b as bv8)) as int
  }

  /** Element-wise exclusive or of two equally long byte strings. */
  function XorBytes(a: seq<byte>, b: seq<byte>): (r: seq<byte>)
    requires |a| == |b|
    ensures |r| == |a|
  {
    seq(|a|, k requires 0 <= k < |a| => Xor(a[k], b[k]))
  }

  // ---------------------------------------------------------------------
  // Big-endian codec: the most significant byte first.

  /** The `n` low-order bytes of `x`, most significant first. */
  function ToBE(x: nat, n: nat): (r: seq<byte>)
    ensures |r| == n
  {
    if n == 0 then [] else [(x / Pow256(n - 1)) % 256] + ToBE(x, n - 1)
  }

  /** Byte `k` of the big-endian encoding is digit `n - 1 - k` of `x` in base 256. */
  lemma {:induction false} ToBEIndex(x: nat, n: nat, k: nat)
    requires k < n
    ensures ToBE(x, n)[k] == (x / Pow256(n - 1 - k)) % 256
  {
    if k > 0 {
      ToBEIndex(x, n - 1, k - 1);
    }
  }

  /** The unsigned value of a big-endian byte string. */
  function FromBE(s: seq<byte>): (r: nat)
    ensures r < Pow256(|s|)
  {
    if s == [] then 0
    else
      var rest := FromBE(s[1..]);
      assert s[0] * Pow256(|s| - 1) + rest < 256 * Pow256(|s| - 1) by {
        MulLeftMono(s[0], 255, Pow256(|s| - 1));
      }
      s[0] * Pow256(|s| - 1) + rest
  }

  lemma MulLeftMono(a: nat, b: nat, c: nat)
    requires a <= b
    ensures a * c <= b * c
  {
  }

  /** Dividing by 256 once more divides by the next power of 256. */
  lemma DivPow256Step(x: nat, m: nat)
    ensures (x / Pow256(m)) / 256 == x / Pow256(m + 1)
  {
    DivDiv(x, Pow256(m));
    assert Pow256(m + 1) == Pow256(m) * 256;
  }

  /** Integer division by 256 after division by `p` is division by `p * 256`. */
  lemma DivDiv(x: nat, p: nat)
    requires p > 0
    ensures (x / p) / 256 == x / (p * 256)
  {
    var q := x / p;
    var q2 := q / 256;
    var r2 := q % 256;
    var r := x % p;
    Regroup(x, p, q, r, q2, r2);
    DivUnique(x, p * 256, q2, p * r2 + r);
  }

  /** `x = p q + r` with `q = 256 q2 + r2` regroups as a division by `p * 256`. */
  lemma Regroup(x: nat, p: nat, q: nat, r: nat, q2: nat, r2: nat)
    requires p > 0 && r < p && r2 < 256
    requires x == p * q + r && q == 256 * q2 + r2
    ensures x == (p * 256) * q2 + (p * r2 + r)
    ensures p * r2 + r < p * 256
  {
    assert p * q == p * (256 * q2) + p * r2;
    assert p * (256 * q2) == (p * 256) * q2;
    MulLeftMono(r2, 255, p);
    assert r2 * p == p * r2;
    assert 255 * p == p * 255;
  }

  /** Quotient and remainder are unique. */
  lemma DivUnique(x: nat, d: nat, q: nat, r: nat)
    requires d > 0 && r < d && x == d * q + r
    ensures x / d == q && x % d == r
  {
    var q0 := x / d;
    var r0 := x % d;
    assert d * q0 + r0 == d * q + r;
    if q0 < q {
      var k := q - q0;
      assert d * q == d * q0 + d * k;
      assert k * d == d * k;
      MulLeftMono(1, k, d);
      assert false;
    } else if q0 > q {
      var k := q0 - q;
      assert d * q0 == d * q + d * k;
      assert k * d == d * k;
      MulLeftMono(1, k, d);
      assert false;
    }
  }

  /** The remainder modulo `256 p` splits into the byte above `p` and the remainder modulo `p`. */
  lemma ModSplit(x: nat, p: nat)
    requires p > 0
    ensures x % (p * 256) == ((x / p) % 256) * p + x % p
  {
    var q := x / p;
    var r := x % p;
    var q2 := q / 256;
    var r2 := q % 256;
    Regroup(x, p, q, r, q2, r2);
    DivUnique(x, p * 256, q2, p * r2 + r);
    assert r2 * p == p * r2;
  }

  /** Encoding then decoding big-endian keeps the value modulo `256^n`. */
  lemma {:induction false} FromToBE(x: nat, n: nat)
    ensures FromBE(ToBE(x, n)) == x % Pow256(n)
  {
    if n > 0 {
      var s := ToBE(x, n);
      assert s[1..] == ToBE(x, n - 1);
      FromToBE(x, n - 1);
      ModSplit(x, Pow256(n - 1));
      assert Pow256(n) == Pow256(n - 1) * 256;
    }
  }

  /** The first byte of an n-byte big-endian encoding is digit n - 1, followed by the shorter encoding. */
  lemma ToBEHead(x: nat, n: nat)
    requires n > 0
    ensures ToBE(x, n) == [(x / Pow256(n - 1)) % 256] + ToBE(x, n - 1)
  {
  }

  /** Decoding then re-encoding a big-endian string gives it back. */
  lemma {:induction false} ToFromBE(s: seq<byte>)
    ensures ToBE(FromBE(s), |s|) == s
  {
    if s != [] {
      var n := |s|;
      var p := Pow256(n - 1);
      var x := FromBE(s);
      var rest := FromBE(s[1..]);
      assert x == s[0] * p + rest && rest < p;
      assert ToBE(x, n) == [s[0]] + ToBE(x, n - 1) by {
        DivUnique(x, p, s[0], rest);
        assert (x / p) % 256 == s[0];
        ToBEHead(x, n);
      }
      assert ToBE(x, n - 1) == s[1..] by {
        ToBEPrefixFree(x, s[0], rest, n - 1);
        ToFromBE(s[1..]);
      }
      HeadTail(s);
    }
  }

  lemma {:induction false} ToBEMod(x: nat, q: nat, r: nat, n: nat)
    requires x == q * Pow256(n) + r
    ensures ToBE(x, n) == ToBE(r, n)
    decreases n
  {
    if n > 0 {
      var p := Pow256(n - 1);
      assert Pow256(n) == 256 * p;
      Assoc256(q, p);
      HeadByteMod(x, q, r, p);
      ToBEMod(x, q * 256, r, n - 1);
    }
  }

  lemma Assoc256(q: nat, p: nat)
    ensures q * (256 * p) == (q * 256) * p
  {
  }

  lemma HeadByteMod(x: nat, q: nat, r: nat, p: nat)
    requires p > 0 && x == (q * 256) * p + r
    ensures (x / p) % 256 == (r / p) % 256
  {
    DivAddMultiple(r, q * 256, p);
    assert q * 256 == 256 * q;
    ModAddMultiple(r / p, q, 256);
  }

  lemma DivAddMultiple(r: nat, k: nat, p: nat)
    requires p > 0
    ensures (k * p + r) / p == k + r / p
  {
    var x := k * p + r;
    assert x == p * (k + r / p) + r % p by {
      assert r == p * (r / p) + r % p;
      assert p * (k + r / p) == p * k + p * (r / p);
    }
    DivUnique(x, p, k + r / p, r % p);
  }

  lemma ModAddMultiple(r: nat, q: nat, d: nat)
    requires d > 0
    ensures (d * q + r) % d == r % d
  {
    var x := d * q + r;
    assert x == d * (q + r / d) + r % d by {
      assert r == d * (r / d) + r % d;
    }
    DivUnique(x, d, q + r / d, r % d);
  }

  lemma {:induction false} ToBEPrefixFree(x: nat, hi: nat, lo: nat, m: nat)
    requires lo < Pow256(m) && x == hi * Pow256(m) + lo
    ensures ToBE(x, m) == ToBE(lo, m)
  {
    ToBEMod(x, hi, lo, m);
  }

  // ---------------------------------------------------------------------
  // Little-endian codec: the least significant byte first (DataView with
  // littleEndian = true, and the native order of Uint32Array).

  /** The `n` low-order bytes of `x`, least significant first. */
  function ToLE(x: nat, n: nat): (r: seq<byte>)
    ensures |r| == n
  {
    if n == 0 then [] else [x % 256] + ToLE(x / 256, n - 1)
  }

  /** The unsigned value of a little-endian byte string. */
  function FromLE(s: seq<byte>): (r: nat)
    ensures r < Pow256(|s|)
  {
    if s == [] then 0
    else
      var rest := FromLE(s[1..]);
      assert s[0] + 256 * rest < 256 * Pow256(|s| - 1) by {
        assert rest + 1 <= Pow256(|s| - 1);
        assert 256 * (rest + 1) <= 256 * Pow256(|s| - 1);
      }
      s[0] + 256 * rest
  }

  /** Encoding then decoding little-endian keeps the value modulo `256^n`. */
  lemma {:induction false} FromToLE(x: nat, n: nat)
    ensures FromLE(ToLE(x, n)) == x % Pow256(n)
  {
    if n > 0 {
      var s := ToLE(x, n);
      assert s[1..] == ToLE(x / 256, n - 1);
      FromToLE(x / 256, n - 1);
      var p := Pow256(n - 1);
      assert Pow256(n) == 256 * p;
      ModSplitLE(x, p);
    }
  }

  /** The remainder modulo `256 p` splits into the low byte and the remainder of the rest modulo `p`. */
  lemma ModSplitLE(x: nat, p: nat)
    requires p > 0
    ensures x % (256 * p) == x % 256 + 256 * ((x / 256) % p)
  {
    var q := x / 256;
    var r := x % 256;
    var q2 := q / p;
    var r2 := q % p;
    assert x == 256 * q + r;
    assert q == p * q2 + r2;
    assert 256 * q == (256 * p) * q2 + 256 * r2;
    MulLeftMono(r2 + 1, p, 256);
    assert (r2 + 1) * 256 == 256 * r2 + 256;
    assert p * 256 == 256 * p;
    DivUnique(x, 256 * p, q2, 256 * r2 + r);
  }

  /** Decoding then re-encoding a little-endian string gives it back. */
  lemma {:induction false} ToFromLE(s: seq<byte>)
    ensures ToLE(FromLE(s), |s|) == s
  {
    if s != [] {
      var x := FromLE(s);
      var rest := FromLE(s[1..]);
      assert x == 256 * rest + s[0];
      DivUnique(x, 256, rest, s[0]);
      ToFromLE(s[1..]);
    }
  }

  /** The encoding is determined by the value modulo `256^n`. */
  lemma ToLEMod(x: nat, n: nat)
    ensures ToLE(x, n) == ToLE(x % Pow256(n), n)
  {
    FromToLE(x, n);
    ToFromLE(ToLE(x, n));
  }

  // ---------------------------------------------------------------------
  // Chunked buffers.

  /** The concatenation of `chunks`, in order. */
  function Flatten<T>(chunks: seq<seq<T>>): seq<T>
  {
    if chunks == [] then [] else Flatten(chunks[..|chunks| - 1]) + chunks[|chunks| - 1]
  }

  ghost predicate AllOfSize<T>(chunks: seq<seq<T>>, n: nat)
  {
    forall i :: 0 <= i < |chunks| ==> |chunks[i]| == n
  }

  /** Chunk `i` of a flattened buffer of `n`-element chunks sits at `[n i, n i + n)`. */
  lemma FlattenChunk<T>(chunks: seq<seq<T>>, n: nat, i: nat)
    requires AllOfSize(chunks, n) && i < |chunks|
    ensures |Flatten(chunks)| == n * |chunks|
    ensures n * i + n <= n * |chunks|
    ensures Flatten(chunks)[n * i .. n * i + n] == chunks[i]
    ensures Flatten(chunks)[..n * i] == Flatten(chunks[..i])
  {
    FlattenSize(chunks, n);
    FlattenPrefix(chunks, n, i);
    FlattenPrefix(chunks, n, i + 1);
    FlattenSnoc(chunks, i);
    var f := Flatten(chunks);
    assert f[n * i .. n * i + n] == f[..n * i + n][n * i..];
  }

  /** The first `n i` elements of a flattened buffer are the first `i` chunks. */
  lemma {:induction false} FlattenPrefix<T>(chunks: seq<seq<T>>, n: nat, i: nat)
    requires AllOfSize(chunks, n) && i <= |chunks|
    ensures n * i <= n * |chunks| == |Flatten(chunks)|
    ensures Flatten(chunks)[..n * i] == Flatten(chunks[..i])
  {
    FlattenSize(chunks, n);
    MulLeftMono(i, |chunks|, n);
    if i == |chunks| {
      assert chunks[..i] == chunks;
    } else {
      var m := |chunks| - 1;
      var init := chunks[..m];
      assert AllOfSize(init, n);
      FlattenPrefix(init, n, i);
      assert init[..i] == chunks[..i];
      assert Flatten(chunks) == Flatten(init) + chunks[m];
    }
  }

  lemma {:induction false} FlattenSize<T>(chunks: seq<seq<T>>, n: nat)
    requires AllOfSize(chunks, n)
    ensures |Flatten(chunks)| == n * |chunks|
  {
    if chunks != [] {
      var m := |chunks| - 1;
      var init := chunks[..m];
      assert AllOfSize(init, n);
      FlattenSize(init, n);
      assert |chunks[m]| == n;
      assert |Flatten(chunks)| == |Flatten(init)| + |chunks[m]|;
      assert n * m + n == n * |chunks|;
    }
  }

  /** Appending one chunk to a prefix of chunks appends it to the flattened prefix. */
  lemma FlattenSnoc<T>(chunks: seq<seq<T>>, i: nat)
    requires i < |chunks|
    ensures Flatten(chunks[..i + 1]) == Flatten(chunks[..i]) + chunks[i]
  {
    assert chunks[..i + 1][..i] == chunks[..i];
  }

  /** Writing `src[i..j]` after `src[..i]` leaves `src[..j]` written. */
  lemma SplicePrefix<T>(s: seq<T>, before: seq<T>, after: seq<T>, src: seq<T>, i: nat, j: nat)
    requires i <= j <= |src| && j <= |s| && before == Splice(s, 0, src[..i]) && after == Splice(before, i, src[i..j])
    ensures after == Splice(s, 0, src[..j])
  {
    SpliceSnoc(s, 0, src[..i], src[i..j]);
    assert src[..i] + src[i..j] == src[..j];
  }

  /** Writing chunk `i` after the first `i` chunks extends the written prefix by one chunk. */
  lemma SpliceChunk<T>(s: seq<T>, before: seq<T>, after: seq<T>, chunks: seq<seq<T>>, n: nat, i: nat)
    requires AllOfSize(chunks, n) && i < |chunks| && n * |chunks| <= |s|
    requires |Flatten(chunks[..i])| == n * i && before == Splice(s, 0, Flatten(chunks[..i]))
    requires n * i + n <= |before| && after == Splice(before, n * i, chunks[i])
    ensures |Flatten(chunks[..i + 1])| == n * i + n && after == Splice(s, 0, Flatten(chunks[..i + 1]))
  {
    FlattenSnoc(chunks, i);
    SpliceSnoc(s, 0, Flatten(chunks[..i]), chunks[i]);
  }

  /** Flattened buffers are equal as soon as their chunk lists are. */
  lemma FlattenEq<T>(a: seq<seq<T>>, b: seq<seq<T>>)
    requires |a| == |b| && forall i :: 0 <= i < |a| ==> a[i] == b[i]
    ensures Flatten(a) == Flatten(b)
  {
    assert a == b;
  }

  // ---------------------------------------------------------------------
  // Writing into typed arrays.

  /** `TypedArray.set`: copy `src` into `out` from index `off` on. */
  method SetBytes(out: array<byte>, off: nat, src: seq<byte>)
    requires off + |src| <= out.Length
    modifies out
    ensures out[..] == Splice(old(out[..]), off, src)
  {
    for k := 0 to |src|
      invariant forall j :: 0 <= j < k ==> out[off + j] == src[j]
      invariant forall j :: 0 <= j < out.Length && !(off <= j < off + k) ==> out[j] == old(out[j])
    {
      out[off + k] := src[k];
    }
    SpliceByParts(out[..], old(out[..]), off, src);
  }

  /** A fresh array holding `src` (`Uint8Array.from`). */
  method CopyOf(src: seq<byte>) returns (dst: array<byte>)
    ensures fresh(dst) && dst[..] == src
  {
    dst := new byte[|src|];
    SetBytes(dst, 0, src);
  }

  // ---------------------------------------------------------------------
  // Little-endian stores into byte sequences.

  /** A value stored in `w` little-endian bytes is read back modulo 256^w. */
  lemma StoreLE(buf: seq<byte>, off: nat, w: nat, v: int)
    requires off + w <= |buf|
    ensures FromLE(Splice(buf, off, ToLE(v % Pow256(w), w))[off..off + w]) == v % Pow256(w)
  {
    var x := v % Pow256(w);
    var s := ToLE(x, w);
    assert Splice(buf, off, s)[off..off + |s|] == s;
    FromToLE(x, w);
    DivUnique(x, Pow256(w), 0, x);
  }

  lemma StoreExact(buf: seq<byte>, off: nat, w: nat, x: nat)
    requires off + w <= |buf| && x < Pow256(w)
    ensures FromLE(Splice(buf, off, ToLE(x, w))[off..off + w]) == x
  {
    StoreLE(buf, off, w, x);
    DivUnique(x, Pow256(w), 0, x);
  }

  /** Writing at `off` leaves any range that does not overlap the written bytes as it was. */
  lemma SpliceOutside(buf: seq<byte>, off: nat, src: seq<byte>, lo: nat, hi: nat)
    requires off + |src| <= |buf| && lo <= hi <= |buf|
    requires hi <= off || off + |src| <= lo
    ensures Splice(buf, off, src)[lo..hi] == buf[lo..hi]
  {
    var after := Splice(buf, off, src);
    assert forall k :: lo <= k < hi ==> after[k] == buf[k];
  }
}
