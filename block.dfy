/**
 * `Block`: a whole block, as a view of its buffer. The first 32-bit word is
 * the header length, the last 160 bytes are the trailer; the block type, the
 * amount and the transaction and ledger lists are derived from those two.
 * A block is never written through its getters, so it is a `View` value here;
 * the getters that walk the block body in offset loops are methods proved
 * against specification functions.
 */
module Blocks {
  import opened Bytes
  import opened Constants
  import opened BlockLayout
  import Util
  import WotsSpec
  import Trigg

  // ---------------------------------------------------------------------
  // Header length, trailer and type.

  datatype BlockType = Invalid | Pseudo | Normal | Genesis | Neogenesis

  /** The names the static getters `Block.INVALID`, … give the types. */
  function TypeName(t: BlockType): string
  {
    match t
    case Invalid => "invalid"
    case Pseudo => "pseudo"
    case Normal => "normal"
    case Genesis => "genesis"
    case Neogenesis => "neogenesis"
  }

  /** `hdrlen`: null when the buffer ends before byteOffset + 4, else the 32-bit little-endian word there. */
  function Hdrlen(b: View): (r: Option<nat>)
    requires b.Valid()
    ensures r.Some? ==> r.value < TWO_TO_32
  {
    if |b.buffer| < b.byteOffset + 4 then None
    else
      assert Pow256(4) == TWO_TO_32;
      Some(ReadLE(b.buffer, b.byteOffset, 4))
  }

  /** `this.subarray(this.byteLength - 160)`: what the block's trailer getters hand to the static readers. */
  function TrailerView(b: View): (r: View)
    requires b.Valid()
    ensures r.Valid() && r.buffer == b.buffer
  {
    Subarray(b, b.byteLength - TRAILER_LENGTH, b.byteLength)
  }

  /** The block's `phash`, `mroot`, `nonce` and `bhash` getters. */
  function BlockHash(b: View, f: TrailerField): (r: Option<string>)
    requires b.Valid() && IsHash(f)
    ensures r.Some? ==> |r.value| == 2 * HASHLEN
    ensures b.byteLength >= TRAILER_LENGTH ==> r.Some?
  {
    TrailerHash(TrailerView(b), f)
  }

  /** The block's `bnum`, `mfee`, `tcount`, `time0`, `difficulty` and `stime` getters. */
  function BlockNumber(b: View, f: TrailerField): (r: Option<nat>)
    requires b.Valid() && !IsHash(f)
    ensures r.Some? ==> r.value < Pow256(TrailerWidth(f))
    ensures b.byteLength >= TRAILER_LENGTH ==> r.Some?
  {
    TrailerNumber(TrailerView(b), f)
  }

  /**
   * `type`: invalid without a header length or a block number; otherwise
   * pseudo for a 4-byte header, normal when the block number's low byte is
   * not zero, genesis for block 0, and neogenesis for the other multiples
   * of 256.
   */
  function TypeOf(b: View): (r: BlockType)
    requires b.Valid()
    ensures r == Invalid <==> Hdrlen(b).None? || BlockNumber(b, Bnum).None?
    ensures r == Pseudo <==> Hdrlen(b) == Some(4) && BlockNumber(b, Bnum).Some?
    ensures r == Normal <==>
      Hdrlen(b).Some? && Hdrlen(b) != Some(4) && BlockNumber(b, Bnum).Some? && BlockNumber(b, Bnum).value % 256 != 0
    ensures r == Genesis <==>
      Hdrlen(b).Some? && Hdrlen(b) != Some(4) && BlockNumber(b, Bnum) == Some(0)
    ensures r == Neogenesis <==>
      Hdrlen(b).Some? && Hdrlen(b) != Some(4) && BlockNumber(b, Bnum).Some?
      && BlockNumber(b, Bnum).value != 0 && BlockNumber(b, Bnum).value % 256 == 0
  {
    var hdrlen := Hdrlen(b);
    var bnum := BlockNumber(b, Bnum);
    if hdrlen.None? || bnum.None? then Invalid
    else if hdrlen.value == 4 then Pseudo
    else if bnum.value % 256 != 0 then Normal
    else if bnum.value == 0 then Genesis
    else Neogenesis
  }

  /**
   * The trailer getters of a block holding a full trailer all answer, with
   * the fields of its last 160 bytes; the `trailer` copy reads the same.
   */
  lemma TrailerGetters(b: View, f: TrailerField)
    requires b.Valid() && b.byteLength >= TRAILER_LENGTH
    ensures var at := b.byteLength - TRAILER_LENGTH;
      IsHash(f) ==>
        BlockHash(b, f) == Some(Util.Hex(b.Contents()[at + TrailerOffset(f)..at + TrailerEnd(f)]))
        && TrailerHash(TrailerCopy(b), f) == BlockHash(b, f)
    ensures var at := b.byteLength - TRAILER_LENGTH;
      !IsHash(f) ==>
        BlockNumber(b, f) == Some(FromLE(b.Contents()[at + TrailerOffset(f)..at + TrailerEnd(f)]))
        && TrailerNumber(TrailerCopy(b), f) == BlockNumber(b, f)
  {
    TrailerFieldBytes(b, f);
    TrailerReaders(TrailerView(b), f);
    TrailerReaders(TrailerCopy(b), f);
  }

  /** A field of the trailer view, and of the trailer copy, holds the block's bytes at the trailer's position plus the field's offset. */
  lemma TrailerFieldBytes(b: View, f: TrailerField)
    requires b.Valid() && b.byteLength >= TRAILER_LENGTH
    ensures var at := b.byteLength - TRAILER_LENGTH;
      var field := b.Contents()[at + TrailerOffset(f)..at + TrailerEnd(f)];
      TrailerView(b).byteLength == TRAILER_LENGTH && TrailerCopy(b).byteLength == TRAILER_LENGTH
      && TrailerView(b).Contents()[TrailerOffset(f)..TrailerEnd(f)] == field
      && TrailerCopy(b).Contents()[TrailerOffset(f)..TrailerEnd(f)] == field
  {
    var t := TrailerView(b);
    var at := b.byteLength - TRAILER_LENGTH;
    assert t.Contents() == b.Contents()[at..] by {
      SubarrayContents(b, at, b.byteLength);
    }
    assert TrailerCopy(b).Contents() == t.Contents();
    SliceOfSuffix(b.Contents(), at, TrailerOffset(f), TrailerEnd(f));
  }

  /** Every block that holds a full trailer has a type. */
  lemma FullBlockHasType(b: View)
    requires b.Valid() && b.byteLength >= TRAILER_LENGTH
    ensures TypeOf(b) != Invalid
  {
    TrailerGetters(b, Bnum);
  }

  /** A block too short for a trailer has no block hash. */
  lemma ShortBlockHasNoHash(b: View)
    requires b.Valid() && b.byteLength < TRAILER_LENGTH
    ensures BlockHash(b, Bhash).None?
  {
  }

  /**
   * `trailer`: `slice` copies the last 160 bytes (all of them when the block
   * is shorter) into a fresh buffer, and `new BlockTrailer` of a typed array
   * keeps that copy whole.
   */
  function TrailerCopy(b: View): (r: View)
    requires b.Valid()
    ensures r.Valid() && r.byteOffset == 0 && r.buffer == TrailerView(b).Contents()
  {
    var t := TrailerView(b).Contents();
    View(t, 0, |t|)
  }

  // ---------------------------------------------------------------------
  // Haiku.

  /** The block's `nonce` as the expander receives it: its text, or null. */
  function NonceValue(b: View): Util.JsValue
    requires b.Valid()
  {
    match BlockHash(b, Nonce)
    case Some(s) => Util.Text(s)
    case None => Util.Other
  }

  /**
   * `this.type ? null : Trigg.expand(this.nonce)` over the word table
   * `dict` (the getter uses `TriggDict.DICT`): a type name is truthy unless
   * it is empty.
   */
  function HaikuFor(dict: seq<string>, typeName: string, nonce: Util.JsValue): Result<Option<string>>
    requires Trigg.IsDictionary(dict)
  {
    if typeName != "" then Success(None) else Trigg.ExpandOf(dict, nonce, false)
  }

  /** `haiku` as written: the truthiness test applied to the block's type name. */
  function HaikuAsWritten(dict: seq<string>, b: View): (r: Result<Option<string>>)
    requires Trigg.IsDictionary(dict) && b.Valid()
    ensures r.Success?
  {
    HaikuFor(dict, TypeName(TypeOf(b)), NonceValue(b))
  }

  /** Every type is a non-empty name, so the getter as written answers null for every block. */
  lemma HaikuAsWrittenNull(dict: seq<string>, b: View)
    requires Trigg.IsDictionary(dict) && b.Valid()
    ensures HaikuAsWritten(dict, b) == Success(None)
  {
  }

  /**
   * `haiku` as evidently intended: like `maddr` and `mreward`, null unless
   * the block is a normal block, and the expansion of its nonce for one.
   */
  function HaikuOf(dict: seq<string>, b: View): (r: Result<Option<string>>)
    requires Trigg.IsDictionary(dict) && b.Valid()
    ensures r.Failure? ==> TypeOf(b) == Normal && BlockHash(b, Nonce).None?
    ensures r.Success? && r.value.Some? ==> TypeOf(b) == Normal
  {
    if TypeOf(b) != Normal then Success(None)
    else Trigg.ExpandOf(dict, NonceValue(b), false)
  }

  /** A block holding a full trailer hands the expander the hexadecimal text of its 32 nonce bytes. */
  lemma NonceOfTrailer(b: View)
    requires b.Valid() && b.byteLength >= TRAILER_LENGTH
    ensures var at := b.byteLength - TRAILER_LENGTH;
      var nonce := b.Contents()[at + TrailerOffset(Nonce)..at + TrailerEnd(Nonce)];
      |nonce| == Trigg.NONCE_BYTES && NonceValue(b) == Util.Text(Util.Hex(nonce))
  {
    TrailerGetters(b, Nonce);
  }

  /**
   * A block holding a full trailer has a haiku exactly when it is a normal
   * block; a normal block's haiku is the expansion of the 32 nonce bytes of
   * its trailer, where the getter as written gives null.
   */
  lemma HaikuOfNonce(dict: seq<string>, b: View)
    requires Trigg.IsDictionary(dict) && b.Valid() && b.byteLength >= TRAILER_LENGTH
    ensures HaikuOf(dict, b).Success?
    ensures HaikuOf(dict, b).value.Some? <==> TypeOf(b) == Normal
    ensures var at := b.byteLength - TRAILER_LENGTH;
      TypeOf(b) == Normal ==>
        HaikuOf(dict, b) == Trigg.ExpandOf(dict, Util.Typed(b.Contents()[at + TrailerOffset(Nonce)..at + TrailerEnd(Nonce)]), false)
        && HaikuOf(dict, b) != HaikuAsWritten(dict, b)
  {
    if TypeOf(b) == Normal {
      var at := b.byteLength - TRAILER_LENGTH;
      var nonce := b.Contents()[at + TrailerOffset(Nonce)..at + TrailerEnd(Nonce)];
      HaikuOfText(dict, b, nonce);
      Trigg.HexTextNonce(dict, nonce, false);
      HaikuAsWrittenNull(dict, b);
    }
  }

  /** For a normal block holding a full trailer, the intended getter expands the text of the trailer's nonce bytes. */
  lemma HaikuOfText(dict: seq<string>, b: View, nonce: seq<byte>)
    requires Trigg.IsDictionary(dict) && b.Valid() && b.byteLength >= TRAILER_LENGTH && TypeOf(b) == Normal
    requires var at := b.byteLength - TRAILER_LENGTH;
      nonce == b.Contents()[at + TrailerOffset(Nonce)..at + TrailerEnd(Nonce)]
    ensures |nonce| == Trigg.NONCE_BYTES
    ensures HaikuOf(dict, b) == Trigg.ExpandOf(dict, Util.Text(Util.Hex(nonce)), false)
  {
    FullBlockHasType(b);
    NonceOfTrailer(b);
  }

  // ---------------------------------------------------------------------
  // Offset walks.

  /** How many of first, first + step, first + 2 * step, … lie below `limit`. */
  function Steps(first: nat, step: nat, limit: int): nat
    requires step > 0
    decreases limit - first
  {
    if first >= limit then 0 else 1 + Steps(first + step, step, limit)
  }

  /** The k-th offset of the walk is below the limit exactly when k is below the number of steps. */
  lemma {:induction false} StepsBelow(first: nat, step: nat, limit: int, k: nat)
    requires step > 0
    ensures k < Steps(first, step, limit) <==> first + k * step < limit
    decreases limit - first
  {
    if first < limit && k > 0 {
      StepsBelow(first + step, step, limit, k - 1);
      assert first + step + (k - 1) * step == first + k * step;
    }
  }

  /** The number of steps is n when the n-th offset is the first at or past the limit. */
  lemma StepsExact(first: nat, step: nat, limit: int, n: nat)
    requires step > 0 && limit <= first + n * step
    requires n > 0 ==> first + (n - 1) * step < limit
    ensures Steps(first, step, limit) == n
  {
    StepsBelow(first, step, limit, n);
    if n > 0 {
      StepsBelow(first, step, limit, n - 1);
    }
  }

  /** Multiplication by a step, one step at a time (kept out of the loops' arithmetic). */
  lemma MulStep(i: nat, step: nat)
    ensures (i + 1) * step == i * step + step
  {
  }

  lemma MulMonotone(i: nat, j: nat, step: nat)
    requires i <= j
    ensures i * step <= j * step
  {
  }

  /** The sum of a sequence of amounts, last one added last. */
  function Sum(vals: seq<nat>): nat
  {
    if vals == [] then 0 else Sum(vals[..|vals| - 1]) + vals[|vals| - 1]
  }

  /**
   * The amount loops: `count` 64-bit little-endian reads at start,
   * start + step, …, added up in order; the first read that passes the end of
   * `bytes` throws a RangeError.
   */
  function StrideSum(bytes: seq<byte>, start: nat, step: nat, count: nat): (r: Result<nat>)
    ensures r.Failure? ==> r.error == RANGE_ERROR
  {
    if count == 0 then Success(0)
    else
      match StrideSum(bytes, start, step, count - 1)
      case Failure(e) => Failure(e)
      case Success(s) =>
        var at := start + (count - 1) * step;
        if |bytes| < at + 8 then Failure(RANGE_ERROR)
        else Success(s + FromLE(bytes[at..at + 8]))
  }

  /** One more read of a walk that has succeeded so far: it fails past the end, and otherwise adds the value read. */
  lemma StrideSumStep(bytes: seq<byte>, start: nat, step: nat, i: nat, amount: nat)
    requires StrideSum(bytes, start, step, i) == Success(amount)
    ensures (i + 1) * step == i * step + step
    ensures |bytes| < start + i * step + 8 ==> StrideSum(bytes, start, step, i + 1).Failure?
    ensures |bytes| >= start + i * step + 8 ==>
      StrideSum(bytes, start, step, i + 1) == Success(amount + FromLE(bytes[start + i * step..start + i * step + 8]))
  {
    MulStep(i, step);
  }

  /** Once a read has failed, every longer walk fails. */
  lemma {:induction false} StrideSumFails(bytes: seq<byte>, start: nat, step: nat, m: nat, n: nat)
    requires m <= n && StrideSum(bytes, start, step, m).Failure?
    ensures StrideSum(bytes, start, step, n).Failure?
    decreases n
  {
    if m < n {
      StrideSumFails(bytes, start, step, m, n - 1);
    }
  }

  /** A walk whose reads all fit adds up exactly the values read. */
  lemma {:induction false} StrideSumValues(bytes: seq<byte>, start: nat, step: nat, vals: seq<nat>)
    requires forall k :: 0 <= k < |vals| ==>
      start + k * step + 8 <= |bytes| && vals[k] == FromLE(bytes[start + k * step..start + k * step + 8])
    ensures StrideSum(bytes, start, step, |vals|) == Success(Sum(vals))
  {
    if vals != [] {
      var n := |vals| - 1;
      StrideSumValues(bytes, start, step, vals[..n]);
    }
  }

  /** The transaction count the NORMAL loop runs to: a missing `tcount` (null) compares as 0. */
  function TxCount(b: View): (r: nat)
    requires b.Valid()
    ensures r < Pow256(4)
  {
    match BlockNumber(b, Tcount)
    case None => 0
    case Some(n) => n
  }

  /** Where the amount loops start: a transaction's send total, and a ledger entry's balance. */
  const SENDTOTAL_START: nat := EntryOffset(Sendtotal)
  const BALANCE_START: nat := 4 + LENTRY_BALANCEp

  /**
   * `amount`: for a NORMAL block the send totals of the `tcount`
   * transactions after the header, for a (neo)genesis block the balances of
   * the ledger entries whose balance starts below the header length, both
   * read within the block; null for the other types.
   */
  function AmountOf(b: View): (r: Result<Option<nat>>)
    requires b.Valid()
    ensures r == Success(None) <==> TypeOf(b) !in {Normal, Genesis, Neogenesis}
  {
    var t := TypeOf(b);
    if t == Normal then
      match StrideSum(b.Contents(), Hdrlen(b).value + SENDTOTAL_START, TXENTRY_LENGTH, TxCount(b))
      case Failure(e) => Failure(e)
      case Success(s) => Success(Some(s))
    else if t == Genesis || t == Neogenesis then
      match StrideSum(b.Contents(), BALANCE_START, LENTRY_LENGTH, Steps(BALANCE_START, LENTRY_LENGTH, Hdrlen(b).value))
      case Failure(e) => Failure(e)
      case Success(s) => Success(Some(s))
    else Success(None)
  }

  /** The NORMAL loop of `amount`: `count` reads at start, start + step, …. */
  method SumCounted(bytes: seq<byte>, start: nat, step: nat, count: nat) returns (r: Result<nat>)
    ensures r == StrideSum(bytes, start, step, count)
  {
    var amount := 0;
    var offset := start;
    var i := 0;
    while i < count
      invariant i <= count
      invariant offset == start + i * step
      invariant StrideSum(bytes, start, step, i) == Success(amount)
    {
      StrideSumStep(bytes, start, step, i, amount);
      if |bytes| < offset + 8 {
        StrideSumFails(bytes, start, step, i + 1, count);
        return Failure(RANGE_ERROR);
      }
      amount := amount + FromLE(bytes[offset..offset + 8]);
      offset := offset + step;
      i := i + 1;
    }
    return Success(amount);
  }

  /** The (neo)genesis loop of `amount`: reads at start, start + step, … while the offset is below `limit`. */
  method SumBelow(bytes: seq<byte>, start: nat, step: nat, limit: int) returns (r: Result<nat>)
    requires step > 0
    ensures r == StrideSum(bytes, start, step, Steps(start, step, limit))
  {
    ghost var count := Steps(start, step, limit);
    var amount := 0;
    var offset := start;
    ghost var i := 0;
    while offset < limit
      invariant i <= count
      invariant offset == start + i * step
      invariant StrideSum(bytes, start, step, i) == Success(amount)
      decreases limit - offset
    {
      StepsBelow(start, step, limit, i);
      StrideSumStep(bytes, start, step, i, amount);
      if |bytes| < offset + 8 {
        StrideSumFails(bytes, start, step, i + 1, count);
        return Failure(RANGE_ERROR);
      }
      amount := amount + FromLE(bytes[offset..offset + 8]);
      offset := offset + step;
      i := i + 1;
    }
    StepsBelow(start, step, limit, i);
    return Success(amount);
  }

  /** The `amount` getter: one of the two loops over a `DataView` of the block, or null. */
  method Amount(b: View) returns (r: Result<Option<nat>>)
    requires b.Valid()
    ensures r == AmountOf(b)
  {
    var t := TypeOf(b);
    var sum: Result<nat>;
    if t == Normal {
      sum := SumCounted(b.Contents(), Hdrlen(b).value + SENDTOTAL_START, TXENTRY_LENGTH, TxCount(b));
    } else if t == Genesis || t == Neogenesis {
      sum := SumBelow(b.Contents(), BALANCE_START, LENTRY_LENGTH, Hdrlen(b).value);
    } else {
      return Success(None);
    }
    match sum
    case Failure(e) => r := Failure(e);
    case Success(s) => r := Success(Some(s));
  }

  // ---------------------------------------------------------------------
  // Transactions and ledger entries.

  /**
   * The entries `transactions` and `ledger` build: n windows of `length`
   * bytes at buffer positions start, start + length, …; a RangeError when
   * the last one does not fit in the buffer.
   */
  function Windows(buffer: seq<byte>, start: nat, length: nat, n: nat): (r: Result<seq<View>>)
    ensures r.Success? ==> |r.value| == n
    ensures r.Success? ==> forall k :: 0 <= k < n ==>
      r.value[k].Valid() && r.value[k].buffer == buffer && r.value[k].byteOffset == start + k * length
      && r.value[k].byteLength == length
  {
    if n > 0 && |buffer| < start + n * length then Failure(RANGE_ERROR)
    else
      WindowsFit(buffer, start, length, n);
      Success(seq(n, k requires 0 <= k < n => View(buffer, start + k * length, length)))
  }

  /** A window of `buffer` at `at`, `length` bytes long. */
  predicate WindowAt(w: View, buffer: seq<byte>, at: nat, length: nat)
  {
    w.Valid() && w.buffer == buffer && w.byteOffset == at && w.byteLength == length
  }

  /** Adding up one 64-bit field of every window is the walk over the buffer at that field's offset. */
  lemma WindowSums(buffer: seq<byte>, start: nat, length: nat, off: nat, ws: seq<View>, vals: seq<nat>)
    requires off + 8 <= length && |vals| == |ws|
    requires forall k :: 0 <= k < |ws| ==> WindowAt(ws[k], buffer, start + k * length, length)
    requires forall k :: 0 <= k < |ws| ==>
      ws[k].byteOffset + off + 8 <= |ws[k].buffer| && vals[k] == ReadLE(ws[k].buffer, ws[k].byteOffset + off, 8)
    ensures StrideSum(buffer, start + off, length, |vals|) == Success(Sum(vals))
  {
    WindowReads(buffer, start, length, off, ws, vals);
    StrideSumValues(buffer, start + off, length, vals);
  }

  /** A field read in each window is a read of the buffer at the window's position plus the field's offset. */
  lemma WindowReads(buffer: seq<byte>, start: nat, length: nat, off: nat, ws: seq<View>, vals: seq<nat>)
    requires off + 8 <= length && |vals| == |ws|
    requires forall k :: 0 <= k < |ws| ==> WindowAt(ws[k], buffer, start + k * length, length)
    requires forall k :: 0 <= k < |ws| ==>
      ws[k].byteOffset + off + 8 <= |ws[k].buffer| && vals[k] == ReadLE(ws[k].buffer, ws[k].byteOffset + off, 8)
    ensures forall k :: 0 <= k < |vals| ==>
      start + off + k * length + 8 <= |buffer| && vals[k] == FromLE(buffer[start + off + k * length..start + off + k * length + 8])
  {
    forall k | 0 <= k < |vals|
      ensures start + off + k * length + 8 <= |buffer|
      ensures vals[k] == FromLE(buffer[start + off + k * length..start + off + k * length + 8])
    {
      var at := start + k * length;
      assert WindowAt(ws[k], buffer, at, length);
      assert vals[k] == FromLE(buffer[at + off..at + off + 8]);
    }
  }

  /** The listed windows, one by one. */
  lemma WindowsAt(buffer: seq<byte>, start: nat, length: nat, n: nat, ws: seq<View>)
    requires Windows(buffer, start, length, n) == Success(ws)
    ensures |ws| == n
    ensures forall k :: 0 <= k < |ws| ==> WindowAt(ws[k], buffer, start + k * length, length)
  {
  }

  /** When the last window fits in the buffer, every window does. */
  lemma WindowsFit(buffer: seq<byte>, start: nat, length: nat, n: nat)
    requires n > 0 ==> start + n * length <= |buffer|
    ensures forall k :: 0 <= k < n ==> start + k * length + length <= |buffer|
  {
    forall k | 0 <= k < n
      ensures start + k * length + length <= |buffer|
    {
      MulStep(k, length);
      MulMonotone(k + 1, n, length);
    }
  }

  /** The loop of both getters: a window per step while the offset is below `limit`. */
  method WindowsBelow(buffer: seq<byte>, start: nat, length: nat, limit: int) returns (r: Result<seq<View>>)
    requires length > 0
    ensures r == Windows(buffer, start, length, Steps(start, length, limit))
  {
    ghost var n := Steps(start, length, limit);
    var list: seq<View> := [];
    var offset := start;
    while offset < limit
      invariant |list| <= n && offset == start + |list| * length
      invariant forall k :: 0 <= k < |list| ==> list[k] == View(buffer, start + k * length, length)
      invariant list != [] ==> offset <= |buffer|
      decreases limit - offset
    {
      StepsBelow(start, length, limit, |list|);
      var entry := ViewOf(buffer, offset, length);
      if entry.Failure? {
        MulStep(|list|, length);
        MulMonotone(|list| + 1, n, length);
        return Failure(entry.error);
      }
      MulStep(|list|, length);
      list := list + [entry.value];
      offset := offset + length;
    }
    StepsBelow(start, length, limit, |list|);
    assert |list| == n;
    assert list == seq(n, k requires 0 <= k < n => View(buffer, start + k * length, length));
    return Success(list);
  }

  /**
   * `transactions`: for a NORMAL block, `tcount` entries of 8824 bytes from
   * buffer position `hdrlen` on; none for the other types.
   */
  function TransactionsOf(b: View): (r: Result<seq<View>>)
    requires b.Valid()
    ensures TypeOf(b) != Normal ==> r == Success([])
  {
    if TypeOf(b) != Normal then Success([])
    else Windows(b.buffer, Hdrlen(b).value, TXENTRY_LENGTH, TxCount(b))
  }

  /** The `transactions` getter: the offset loop up to hdrlen + tcount * 8824. */
  method Transactions(b: View) returns (r: Result<seq<View>>)
    requires b.Valid()
    ensures r == TransactionsOf(b)
  {
    if TypeOf(b) != Normal {
      return Success([]);
    }
    var offset, n := Hdrlen(b).value, TxCount(b);
    var len := offset + n * TXENTRY_LENGTH;
    StepsExact(offset, TXENTRY_LENGTH, len, n);
    r := WindowsBelow(b.buffer, offset, TXENTRY_LENGTH, len);
  }

  /**
   * `ledger`: for a (neo)genesis block, entries of 2216 bytes at buffer
   * positions 4, 4 + 2216, … while the position is below `hdrlen`; none for
   * the other types.
   */
  function LedgerOf(b: View): (r: Result<seq<View>>)
    requires b.Valid()
    ensures TypeOf(b) !in {Genesis, Neogenesis} ==> r == Success([])
  {
    if TypeOf(b) !in {Genesis, Neogenesis} then Success([])
    else Windows(b.buffer, 4, LENTRY_LENGTH, Steps(4, LENTRY_LENGTH, Hdrlen(b).value))
  }

  /** The `ledger` getter: the offset loop from 4 while below hdrlen. */
  method Ledger(b: View) returns (r: Result<seq<View>>)
    requires b.Valid()
    ensures r == LedgerOf(b)
  {
    var t := TypeOf(b);
    if t != Genesis && t != Neogenesis {
      return Success([]);
    }
    r := WindowsBelow(b.buffer, 4, LENTRY_LENGTH, Hdrlen(b).value);
  }

  /**
   * The transactions of a NORMAL block are `tcount` transaction entries, the
   * k-th at buffer position hdrlen + 8824 * k.
   */
  lemma TransactionsAreEntries(b: View)
    requires b.Valid() && TypeOf(b) == Normal && TransactionsOf(b).Success?
    ensures var ts := TransactionsOf(b).value;
      |ts| == TxCount(b)
      && forall k :: 0 <= k < |ts| ==> IsTXEntry(ts[k]) && ts[k].byteOffset == Hdrlen(b).value + k * TXENTRY_LENGTH
  {
  }

  /**
   * The ledger of a (neo)genesis block is a run of ledger entries, the k-th
   * at buffer position 4 + 2216 * k; with a header of 4 + 2216 * m bytes
   * there are m of them (the `lcount` of the block's JSON).
   */
  lemma LedgerAreEntries(b: View)
    requires b.Valid() && TypeOf(b) in {Genesis, Neogenesis} && LedgerOf(b).Success?
    ensures var es := LedgerOf(b).value;
      (forall k :: 0 <= k < |es| ==> IsLEntry(es[k]) && es[k].byteOffset == 4 + k * LENTRY_LENGTH)
      && (Hdrlen(b).value % LENTRY_LENGTH == 4 ==> |es| == (Hdrlen(b).value - 4) / LENTRY_LENGTH)
  {
    var h := Hdrlen(b).value;
    if h % LENTRY_LENGTH == 4 {
      LedgerCounts(h);
    }
  }

  /**
   * With a header of 4 + 2216 * m bytes, both walks over the ledger (entry
   * starts from 4, balances from 2212) take m steps.
   */
  lemma LedgerCounts(h: nat)
    requires h % LENTRY_LENGTH == 4
    ensures Steps(4, LENTRY_LENGTH, h) == (h - 4) / LENTRY_LENGTH
    ensures Steps(BALANCE_START, LENTRY_LENGTH, h) == (h - 4) / LENTRY_LENGTH
  {
    var m := (h - 4) / LENTRY_LENGTH;
    assert h == 4 + m * LENTRY_LENGTH;
    StepsExact(4, LENTRY_LENGTH, h, m);
    StepsExact(BALANCE_START, LENTRY_LENGTH, h, m);
  }

  /** The send totals of a list of transaction entries. */
  function SendTotals(ts: seq<View>): (r: seq<nat>)
    requires forall k :: 0 <= k < |ts| ==> IsTXEntry(ts[k])
    ensures |r| == |ts|
  {
    seq(|ts|, k requires 0 <= k < |ts| => EntryAmount(ts[k], Sendtotal))
  }

  /** The balances of a list of ledger entries. */
  function Balances(es: seq<View>): (r: seq<nat>)
    requires forall k :: 0 <= k < |es| ==> IsLEntry(es[k])
    ensures |r| == |es|
  {
    seq(|es|, k requires 0 <= k < |es| => EntryBalance(es[k]))
  }

  /** A block that owns its buffer: its view starts at 0 and covers the whole buffer. */
  predicate OwnsBuffer(b: View)
  {
    b.byteOffset == 0 && b.byteLength == |b.buffer|
  }

  /**
   * For a NORMAL block that owns its buffer and whose transactions can be
   * listed, `amount` is the sum of the transactions' send totals.
   */
  lemma NormalAmount(b: View)
    requires b.Valid() && OwnsBuffer(b) && TypeOf(b) == Normal && TransactionsOf(b).Success?
    ensures AmountOf(b) == Success(Some(Sum(SendTotals(TransactionsOf(b).value))))
  {
    var h, n := Hdrlen(b).value, TxCount(b);
    SendTotalsSum(b.buffer, h, n, TransactionsOf(b).value);
    assert b.Contents() == b.buffer;
  }

  /** The send totals of `n` transaction windows from `h` on are the walk over their send-total fields. */
  lemma SendTotalsSum(buffer: seq<byte>, h: nat, n: nat, ts: seq<View>)
    requires Windows(buffer, h, TXENTRY_LENGTH, n) == Success(ts)
    ensures StrideSum(buffer, h + SENDTOTAL_START, TXENTRY_LENGTH, n) == Success(Sum(SendTotals(ts)))
  {
    WindowsAt(buffer, h, TXENTRY_LENGTH, n, ts);
    SendTotalReads(ts);
    WindowSums(buffer, h, TXENTRY_LENGTH, SENDTOTAL_START, ts, SendTotals(ts));
  }

  /** Each send total is the 64-bit read at the entry's send-total field. */
  lemma SendTotalReads(ts: seq<View>)
    requires forall k :: 0 <= k < |ts| ==> IsTXEntry(ts[k])
    ensures forall k :: 0 <= k < |ts| ==>
      ts[k].byteOffset + SENDTOTAL_START + 8 <= |ts[k].buffer|
      && SendTotals(ts)[k] == ReadLE(ts[k].buffer, ts[k].byteOffset + SENDTOTAL_START, 8)
  {
  }

  /** Each balance is the 64-bit read at the entry's balance field. */
  lemma BalanceReads(es: seq<View>)
    requires forall k :: 0 <= k < |es| ==> IsLEntry(es[k])
    ensures forall k :: 0 <= k < |es| ==>
      es[k].byteOffset + LENTRY_BALANCEp + 8 <= |es[k].buffer|
      && Balances(es)[k] == ReadLE(es[k].buffer, es[k].byteOffset + LENTRY_BALANCEp, 8)
  {
  }

  /** The balances of `m` ledger windows from 4 on are the walk over their balance fields. */
  lemma BalancesSum(buffer: seq<byte>, m: nat, es: seq<View>)
    requires Windows(buffer, 4, LENTRY_LENGTH, m) == Success(es)
    ensures StrideSum(buffer, BALANCE_START, LENTRY_LENGTH, m) == Success(Sum(Balances(es)))
  {
    WindowsAt(buffer, 4, LENTRY_LENGTH, m, es);
    BalanceReads(es);
    WindowSums(buffer, 4, LENTRY_LENGTH, LENTRY_BALANCEp, es, Balances(es));
  }

  /**
   * For a (neo)genesis block that owns its buffer, whose header is 4 plus a
   * whole number of ledger entries and whose ledger can be listed, `amount`
   * is the sum of the ledger entries' balances.
   */
  lemma GenesisAmount(b: View)
    requires b.Valid() && OwnsBuffer(b) && TypeOf(b) in {Genesis, Neogenesis} && LedgerOf(b).Success?
    requires Hdrlen(b).value % LENTRY_LENGTH == 4
    ensures AmountOf(b) == Success(Some(Sum(Balances(LedgerOf(b).value))))
  {
    var h := Hdrlen(b).value;
    LedgerCounts(h);
    BalancesSum(b.buffer, (h - 4) / LENTRY_LENGTH, LedgerOf(b).value);
    assert b.Contents() == b.buffer;
  }

  // ---------------------------------------------------------------------
  // Block hash.

  /**
   * `verifyBlockHash(hash)`: SHA-256 of the block without its last 32
   * bytes, as hexadecimal text, compared with `hash`, or with the block's
   * own `bhash` when `hash` is absent or empty.
   */
  function VerifyBlockHash(H: WotsSpec.Hashes, b: View, hash: Option<string>): (r: bool)
    requires b.Valid()
    ensures r ==> if hash.Some? && hash.value != "" then |hash.value| == 2 * HASHLEN else b.byteLength >= TRAILER_LENGTH
  {
    var digest := Util.Hex(H.sha256(Subarray(b, 0, -(HASHLEN as int)).Contents()));
    var expected := if hash.Some? && hash.value != "" then hash else BlockHash(b, Bhash);
    expected == Some(digest)
  }

  /** Equal hexadecimal texts come from equal bytes. */
  lemma HexInjective(x: seq<byte>, y: seq<byte>)
    ensures Util.Hex(x) == Util.Hex(y) ==> x == y
  {
    Util.HexPairsOfHex(x);
    Util.HexPairsOfHex(y);
  }

  /**
   * Without a hash argument, a block holding a full trailer verifies exactly
   * when SHA-256 of everything before its last 32 bytes is those 32 bytes.
   */
  lemma VerifyOwnHash(H: WotsSpec.Hashes, b: View)
    requires b.Valid() && b.byteLength >= TRAILER_LENGTH
    ensures VerifyBlockHash(H, b, None)
      <==> H.sha256(b.Contents()[..b.byteLength - HASHLEN]) == b.Contents()[b.byteLength - HASHLEN..]
  {
    var len := b.byteLength;
    var body, hash := b.Contents()[..len - HASHLEN], b.Contents()[len - HASHLEN..];
    assert Subarray(b, 0, -(HASHLEN as int)).Contents() == body by {
      SubarrayContents(b, 0, -(HASHLEN as int));
      assert Subarray(b, 0, -(HASHLEN as int)).byteLength == len - HASHLEN;
      SliceFromStart(b.Contents(), len - HASHLEN);
    }
    OwnHashBytes(b);
    HexInjective(H.sha256(body), hash);
  }

  /** The block's `bhash` is the text of its last 32 bytes. */
  lemma OwnHashBytes(b: View)
    requires b.Valid() && b.byteLength >= TRAILER_LENGTH
    ensures BlockHash(b, Bhash) == Some(Util.Hex(b.Contents()[b.byteLength - HASHLEN..]))
  {
    var t, len := TrailerView(b), b.byteLength;
    TrailerFieldBytes(b, Bhash);
    TrailerReaders(t, Bhash);
    assert t.Contents()[TrailerOffset(Bhash)..TrailerEnd(Bhash)] == b.Contents()[len - HASHLEN..len];
    SliceToEnd(b.Contents(), len - HASHLEN);
  }
}
