/**
 * The byte layouts of the blockchain formats. `LEntry`, `TXEntry`,
 * `BlockTrailer` and `Tfile` are `Uint8Array` windows into a shared
 * `ArrayBuffer`: a window is a `View` here, the buffer's bytes together with
 * the window's offset and length. The trailer readers answer null (`None`)
 * when their field does not fit, and the ledger entry's setters write into
 * the shared buffer in place.
 */
module BlockLayout {
  import opened Bytes
  import opened Constants
  import Util
  import Tx

  // ---------------------------------------------------------------------
  // Views into a buffer.

  /** A typed-array view: `byteLength` bytes of `buffer` starting at `byteOffset`. */
  datatype View = View(buffer: seq<byte>, byteOffset: nat, byteLength: nat)
  {
    predicate Valid()
    {
      byteOffset + byteLength <= |buffer|
    }

    /** The bytes the view exposes. */
    function Contents(): (r: seq<byte>)
      requires Valid()
      ensures |r| == byteLength
    {
      buffer[byteOffset..byteOffset + byteLength]
    }
  }

  /** The error a typed-array constructor or a `DataView` read throws out of bounds. */
  const RANGE_ERROR: string := "RangeError"

  /** An index argument of `subarray`/`slice`: a negative one counts from the end; both are clamped to [0, len]. */
  function Clamp(i: int, len: nat): (r: nat)
    ensures r <= len
  {
    if i < 0 then (if len + i < 0 then 0 else len + i)
    else if i > len then len
    else i
  }

  /** `v.subarray(begin, end)`: a view of the same buffer, never longer than `v`. */
  function Subarray(v: View, begin: int, end: int): (r: View)
    requires v.Valid()
    ensures r.Valid() && r.buffer == v.buffer && r.byteLength <= v.byteLength
  {
    var b := Clamp(begin, v.byteLength);
    var e := Clamp(end, v.byteLength);
    View(v.buffer, v.byteOffset + b, if e < b then 0 else e - b)
  }

  /** The bytes of a sub-view are the clamped slice of the view's bytes. */
  lemma SubarrayContents(v: View, begin: int, end: int)
    requires v.Valid()
    ensures var b := Clamp(begin, v.byteLength);
      Subarray(v, begin, end).Contents() == v.Contents()[b..b + Subarray(v, begin, end).byteLength]
  {
  }

  /** A slice of the view's bytes is the slice of the buffer shifted by byteOffset. */
  lemma ContentsSlice(v: View, o: nat, w: nat)
    requires v.Valid() && o + w <= v.byteLength
    ensures v.Contents()[o..o + w] == v.buffer[v.byteOffset + o..v.byteOffset + o + w]
  {
  }

  /** `new Uint8Array(buffer, offset, length)`: a RangeError unless the window lies inside the buffer. */
  function ViewOf(buffer: seq<byte>, offset: int, length: nat): (r: Result<View>)
    ensures r.Success? <==> 0 <= offset && offset + length <= |buffer|
    ensures r.Success? ==> r.value.Valid() && r.value.buffer == buffer && r.value.byteLength == length
  {
    if offset < 0 || offset + length > |buffer| then Failure(RANGE_ERROR)
    else Success(View(buffer, offset, length))
  }

  /** A little-endian read through a `DataView` over the whole buffer: `w` bytes at absolute position `pos`. */
  function ReadLE(buffer: seq<byte>, pos: nat, w: nat): (r: nat)
    requires pos + w <= |buffer|
    ensures r < Pow256(w)
  {
    FromLE(buffer[pos..pos + w])
  }

  // ---------------------------------------------------------------------
  // Ledger entries: a 2216-byte window holding an address, whose last 12
  // bytes are the tag, followed by an 8-byte balance.

  const LENTRY_LENGTH: nat := 2216
  const LENTRY_ADDRESSp: nat := 0
  const LENTRY_TAGp: nat := 2196
  const LENTRY_BALANCEp: nat := 2208

  /** The ledger entry's regions tile its 2216 bytes, the tag being the tail of the address. */
  lemma LEntryLayout()
    ensures LENTRY_ADDRESSp + TXADDRLEN == LENTRY_BALANCEp
    ensures LENTRY_TAGp + TAGLEN == LENTRY_ADDRESSp + TXADDRLEN
    ensures LENTRY_BALANCEp + TXAMOUNTLEN == LENTRY_LENGTH
  {
  }

  predicate IsLEntry(e: View)
  {
    e.Valid() && e.byteLength == LENTRY_LENGTH
  }

  /** `LEntry.address`: the hexadecimal text of bytes [0, 2208). */
  function EntryAddress(e: View): (r: string)
    requires IsLEntry(e)
    ensures |r| == 2 * TXADDRLEN
  {
    Util.Hex(e.Contents()[LENTRY_ADDRESSp..LENTRY_ADDRESSp + TXADDRLEN])
  }

  /** `LEntry.tag`: the hexadecimal text of bytes [2196, 2208). */
  function EntryTag(e: View): (r: string)
    requires IsLEntry(e)
    ensures |r| == 2 * TAGLEN
  {
    Util.Hex(e.Contents()[LENTRY_TAGp..LENTRY_ADDRESSp + TXADDRLEN])
  }

  /** `LEntry.balance`: the unsigned 64-bit little-endian value at buffer position byteOffset + 2208. */
  function EntryBalance(e: View): (r: nat)
    requires IsLEntry(e)
    ensures r < TWO_TO_64
  {
    ReadLE(e.buffer, e.byteOffset + LENTRY_BALANCEp, 8)
  }

  /** The tag text is the last 24 characters of the address text. */
  lemma TagInAddress(e: View)
    requires IsLEntry(e)
    ensures EntryTag(e) == EntryAddress(e)[2 * LENTRY_TAGp..]
  {
    var a := e.Contents()[..TXADDRLEN];
    assert a == a[..LENTRY_TAGp] + e.Contents()[LENTRY_TAGp..TXADDRLEN];
    Util.HexAppend(a[..LENTRY_TAGp], e.Contents()[LENTRY_TAGp..TXADDRLEN]);
  }

  /** The balance the corrected setter stores: 64 bits at the entry's own byteOffset + 2208. */
  function WithBalance(e: View, v: int): (r: View)
    requires IsLEntry(e)
    ensures IsLEntry(r) && r.byteOffset == e.byteOffset
  {
    e.(buffer := Splice(e.buffer, e.byteOffset + LENTRY_BALANCEp, ToLE(v % TWO_TO_64, 8)))
  }

  /** The balance setter as written: 64 bits at buffer position 2208, whatever the entry's byteOffset. */
  function WithBalanceAsWritten(e: View, v: int): (r: View)
    requires IsLEntry(e)
    ensures IsLEntry(r) && r.byteOffset == e.byteOffset
  {
    e.(buffer := Splice(e.buffer, LENTRY_BALANCEp, ToLE(v % TWO_TO_64, 8)))
  }

  /** The address and tag setters: the sanitised bytes copied in at byteOffset + `at`. */
  function WithBytes(e: View, at: nat, src: seq<byte>): (r: View)
    requires IsLEntry(e) && at + |src| <= LENTRY_LENGTH
    ensures IsLEntry(r) && r.byteOffset == e.byteOffset
  {
    e.(buffer := Splice(e.buffer, e.byteOffset + at, src))
  }

  /** Setting the balance reads back as the value modulo 2^64, and leaves the address and tag alone. */
  lemma BalanceRoundTrip(e: View, v: int)
    requires IsLEntry(e)
    ensures EntryBalance(WithBalance(e, v)) == v % TWO_TO_64
    ensures EntryAddress(WithBalance(e, v)) == EntryAddress(e)
    ensures EntryTag(WithBalance(e, v)) == EntryTag(e)
  {
    var at := e.byteOffset + LENTRY_BALANCEp;
    assert Pow256(8) == TWO_TO_64;
    StoreLE(e.buffer, at, 8, v);
    SpliceOutside(e.buffer, at, ToLE(v % TWO_TO_64, 8), e.byteOffset, at);
    var after := WithBalance(e, v);
    assert after.Contents()[..TXADDRLEN] == after.buffer[e.byteOffset..at];
    assert e.Contents()[..TXADDRLEN] == e.buffer[e.byteOffset..at];
  }

  /**
   * The setter as written misses every entry that does not start within
   * the buffer's first 8 bytes: the entry's balance is what it was. (It
   * writes bytes 2208..2215 of the buffer instead, which belong to another
   * entry, or to a block header, whenever byteOffset is not 0.)
   */
  lemma BalanceAsWrittenMisses(e: View, v: int)
    requires IsLEntry(e) && e.byteOffset >= 8
    ensures EntryBalance(WithBalanceAsWritten(e, v)) == EntryBalance(e)
  {
    var at := e.byteOffset + LENTRY_BALANCEp;
    SpliceOutside(e.buffer, LENTRY_BALANCEp, ToLE(v % TWO_TO_64, 8), at, at + 8);
  }

  /**
   * The discrepancy on concrete input: any ledger entry past the buffer's
   * first 8 bytes (every entry of a block's ledger but the first, which starts at 4),
   * set to its balance plus one, still reads its old balance.
   */
  lemma BalanceAsWrittenCounterexample(e: View)
    requires IsLEntry(e) && e.byteOffset >= 8
    ensures var v := EntryBalance(e) + 1;
      EntryBalance(WithBalanceAsWritten(e, v)) != v % TWO_TO_64
  {
    BalanceAsWrittenMisses(e, EntryBalance(e) + 1);
  }

  /** Setting the address rewrites the address (and with it the tag), and leaves the balance alone. */
  lemma AddressRoundTrip(e: View, src: seq<byte>)
    requires IsLEntry(e) && |src| == TXADDRLEN
    ensures EntryAddress(WithBytes(e, LENTRY_ADDRESSp, src)) == Util.Hex(src)
    ensures EntryTag(WithBytes(e, LENTRY_ADDRESSp, src)) == Util.Hex(src[LENTRY_TAGp..])
    ensures EntryBalance(WithBytes(e, LENTRY_ADDRESSp, src)) == EntryBalance(e)
  {
    var after := WithBytes(e, LENTRY_ADDRESSp, src);
    var at := e.byteOffset;
    assert after.Contents()[..TXADDRLEN] == after.buffer[at..at + |src|] == src;
    assert after.Contents()[LENTRY_TAGp..TXADDRLEN] == src[LENTRY_TAGp..];
    SpliceOutside(e.buffer, at, src, at + LENTRY_BALANCEp, at + LENTRY_LENGTH);
  }

  /** Setting the tag rewrites the tag only: the rest of the address and the balance are kept. */
  lemma TagRoundTrip(e: View, src: seq<byte>)
    requires IsLEntry(e) && |src| == TAGLEN
    ensures EntryTag(WithBytes(e, LENTRY_TAGp, src)) == Util.Hex(src)
    ensures EntryAddress(WithBytes(e, LENTRY_TAGp, src))[..2 * LENTRY_TAGp] == EntryAddress(e)[..2 * LENTRY_TAGp]
    ensures EntryBalance(WithBytes(e, LENTRY_TAGp, src)) == EntryBalance(e)
  {
    var after := WithBytes(e, LENTRY_TAGp, src);
    var at := e.byteOffset + LENTRY_TAGp;
    assert after.Contents()[LENTRY_TAGp..TXADDRLEN] == after.buffer[at..at + |src|] == src;
    SpliceOutside(e.buffer, at, src, e.byteOffset, at);
    assert after.Contents()[..LENTRY_TAGp] == e.Contents()[..LENTRY_TAGp];
    AddressPrefix(after);
    AddressPrefix(e);
    SpliceOutside(e.buffer, at, src, at + TAGLEN, at + TAGLEN + 8);
  }

  /** The first 4392 characters of the address text are the text of the bytes before the tag. */
  lemma AddressPrefix(e: View)
    requires IsLEntry(e)
    ensures EntryAddress(e)[..2 * LENTRY_TAGp] == Util.Hex(e.Contents()[..LENTRY_TAGp])
  {
    var a := e.Contents()[..TXADDRLEN];
    assert a == e.Contents()[..LENTRY_TAGp] + e.Contents()[LENTRY_TAGp..TXADDRLEN];
    Util.HexAppend(e.Contents()[..LENTRY_TAGp], e.Contents()[LENTRY_TAGp..TXADDRLEN]);
  }

  /**
   * `LEntry`: a ledger entry over a shared, mutable buffer. The setters
   * write into that buffer, so every other view of it sees the change.
   */
  class LEntry {
    const buffer: array<byte>
    const byteOffset: nat

    predicate Valid()
    {
      byteOffset + LENTRY_LENGTH <= buffer.Length
    }

    /** The entry as a view of the buffer's current bytes. */
    function Entry(): (r: View)
      reads buffer
      requires Valid()
      ensures IsLEntry(r)
    {
      View(buffer[..], byteOffset, LENTRY_LENGTH)
    }

    /** `new LEntry(buffer, offset)`; a window past the end of the buffer (a RangeError) is excluded. */
    constructor (buffer: array<byte>, byteOffset: nat)
      requires byteOffset + LENTRY_LENGTH <= buffer.Length
      ensures this.buffer == buffer && this.byteOffset == byteOffset && Valid()
    {
      this.buffer := buffer;
      this.byteOffset := byteOffset;
    }

    /** `new LEntry()`: a fresh zeroed buffer of 2216 bytes, at offset 0. */
    constructor Empty()
      ensures fresh(buffer) && Valid() && byteOffset == 0
      ensures buffer[..] == seq(LENTRY_LENGTH, _ => 0)
    {
      buffer := new byte[LENTRY_LENGTH](_ => 0);
      byteOffset := 0;
    }

    /** The `address` setter: exactly 2208 bytes are accepted, and written at the entry's start. */
    method SetAddress(value: Util.JsValue) returns (r: Outcome)
      requires Valid()
      modifies buffer
      ensures var s := Util.Sanitized(value, TXADDRLEN, TXADDRLEN, false);
        (r.Fail? <==> s.Failure?)
        && (r.Fail? ==> buffer[..] == old(buffer[..]))
        && (r.Pass? ==> Entry() == WithBytes(old(Entry()), LENTRY_ADDRESSp, s.value))
    {
      var s := Util.SanitizeArray(value, TXADDRLEN, TXADDRLEN, false);
      if s.Failure? {
        return Fail(s.error);
      }
      Write(LENTRY_ADDRESSp, s.value);
      r := Pass;
    }

    /** The `tag` setter: exactly 12 bytes are accepted, and written at byteOffset + 2196. */
    method SetTag(value: Util.JsValue) returns (r: Outcome)
      requires Valid()
      modifies buffer
      ensures var s := Util.Sanitized(value, TAGLEN, TAGLEN, false);
        (r.Fail? <==> s.Failure?)
        && (r.Fail? ==> buffer[..] == old(buffer[..]))
        && (r.Pass? ==> Entry() == WithBytes(old(Entry()), LENTRY_TAGp, s.value))
    {
      var s := Util.SanitizeArray(value, TAGLEN, TAGLEN, false);
      if s.Failure? {
        return Fail(s.error);
      }
      Write(LENTRY_TAGp, s.value);
      r := Pass;
    }

    /** `this.set(src, at)`: the bytes go to the entry's own window of the buffer. */
    method Write(at: nat, src: seq<byte>)
      requires Valid() && at + |src| <= LENTRY_LENGTH
      modifies buffer
      ensures Entry() == WithBytes(old(Entry()), at, src)
    {
      SetBytes(buffer, byteOffset + at, src);
    }

    /** The `balance` setter as written: `setBigUint64` at buffer position 2208, ignoring byteOffset. */
    method SetBalanceAsWritten(v: int)
      requires Valid()
      modifies buffer
      ensures Entry() == WithBalanceAsWritten(old(Entry()), v)
    {
      SetBytes(buffer, LENTRY_BALANCEp, ToLE(v % TWO_TO_64, 8));
    }

    /** The corrected `balance` setter: the 64 bits go to the entry's own byteOffset + 2208. */
    method SetBalance(v: int)
      requires Valid()
      modifies buffer
      ensures Entry() == WithBalance(old(Entry()), v)
      ensures EntryBalance(Entry()) == v % TWO_TO_64
    {
      SetBytes(buffer, byteOffset + LENTRY_BALANCEp, ToLE(v % TWO_TO_64, 8));
      BalanceRoundTrip(old(Entry()), v);
    }
  }

  // ---------------------------------------------------------------------
  // Transaction entries: an 8824-byte window holding one transaction of a
  // block body.

  const TXENTRY_LENGTH: nat := 8824

  datatype EntryField = Srcaddr | Dstaddr | Chgaddr | Sendtotal | Changetotal | Txfee | Txsig | Txid

  function EntryOffset(f: EntryField): nat
  {
    match f
    case Srcaddr => 0
    case Dstaddr => 2208
    case Chgaddr => 4416
    case Sendtotal => 6624
    case Changetotal => 6632
    case Txfee => 6640
    case Txsig => 6648
    case Txid => 8792
  }

  function EntryWidth(f: EntryField): nat
  {
    match f
    case Srcaddr | Dstaddr | Chgaddr => TXADDRLEN
    case Sendtotal | Changetotal | Txfee => TXAMOUNTLEN
    case Txsig => TXSIGLEN
    case Txid => HASHLEN
  }

  function EntryEnd(f: EntryField): (r: nat)
    ensures EntryWidth(f) <= r <= TXENTRY_LENGTH
  {
    EntryOffset(f) + EntryWidth(f)
  }

  predicate IsAddress(f: EntryField) { f.Srcaddr? || f.Dstaddr? || f.Chgaddr? }
  predicate IsAmount(f: EntryField) { f.Sendtotal? || f.Changetotal? || f.Txfee? }

  /** The transaction entry's fields follow one another without gaps and end at 8824. */
  lemma EntryLayout()
    ensures EntryOffset(Srcaddr) == 0
    ensures EntryEnd(Srcaddr) == EntryOffset(Dstaddr) && EntryEnd(Dstaddr) == EntryOffset(Chgaddr)
    ensures EntryEnd(Chgaddr) == EntryOffset(Sendtotal) && EntryEnd(Sendtotal) == EntryOffset(Changetotal)
    ensures EntryEnd(Changetotal) == EntryOffset(Txfee) && EntryEnd(Txfee) == EntryOffset(Txsig)
    ensures EntryEnd(Txsig) == EntryOffset(Txid) && EntryEnd(Txid) == TXENTRY_LENGTH
  {
  }

  /** The field of the 8920-byte transaction that a transaction entry field copies. */
  function TxFieldOf(f: EntryField): Tx.Field
    requires !f.Txid?
  {
    match f
    case Srcaddr => Tx.Srcaddr
    case Dstaddr => Tx.Dstaddr
    case Chgaddr => Tx.Chgaddr
    case Sendtotal => Tx.Sendtotal
    case Changetotal => Tx.Changetotal
    case Txfee => Tx.Txfee
    case Txsig => Tx.Txsig
  }

  /**
   * An entry is the transaction's signed region (from the source address
   * to the signature) followed by the 32-byte transaction id: every other
   * field sits 124 bytes earlier than in the transaction, with the same width.
   */
  lemma EntryMatchesTx(f: EntryField)
    requires !f.Txid?
    ensures EntryOffset(f) + TXSRCADDRp == Tx.Offset(TxFieldOf(f))
    ensures EntryWidth(f) == Tx.Width(TxFieldOf(f))
    ensures EntryOffset(Txid) == TRANLEN
  {
  }

  predicate IsTXEntry(e: View)
  {
    e.Valid() && e.byteLength == TXENTRY_LENGTH
  }

  /** The address, signature and id getters: hexadecimal text of the field's bytes. */
  function EntryText(e: View, f: EntryField): (r: string)
    requires IsTXEntry(e) && !IsAmount(f)
    ensures |r| == 2 * EntryWidth(f)
  {
    Util.Hex(e.Contents()[EntryOffset(f)..EntryEnd(f)])
  }

  /** The `srctag`, `dsttag` and `chgtag` getters: the last 12 bytes of the address, as text. */
  function EntryTagOf(e: View, f: EntryField): (r: string)
    requires IsTXEntry(e) && IsAddress(f)
    ensures |r| == 2 * TAGLEN
  {
    Util.Hex(e.Contents()[EntryOffset(f) + LENTRY_TAGp..EntryEnd(f)])
  }

  /** The amount getters: a 64-bit little-endian read at buffer position byteOffset + offset. */
  function EntryAmount(e: View, f: EntryField): (r: nat)
    requires IsTXEntry(e) && IsAmount(f)
    ensures r < TWO_TO_64
  {
    ReadLE(e.buffer, e.byteOffset + EntryOffset(f), TXAMOUNTLEN)
  }

  /** The amount getters read within the window: their bytes are the field's bytes of the entry. */
  lemma EntryAmountInWindow(e: View, f: EntryField)
    requires IsTXEntry(e) && IsAmount(f)
    ensures EntryAmount(e, f) == FromLE(e.Contents()[EntryOffset(f)..EntryEnd(f)])
  {
    ContentsSlice(e, EntryOffset(f), TXAMOUNTLEN);
  }

  // ---------------------------------------------------------------------
  // Block trailers: 160 bytes at the end of every block, and the records
  // of a Tfile.

  const TRAILER_LENGTH: nat := 160

  datatype TrailerField = Phash | Bnum | Mfee | Tcount | Time0 | Difficulty | Mroot | Nonce | Stime | Bhash

  function TrailerOffset(f: TrailerField): nat
  {
    match f
    case Phash => 0
    case Bnum => 32
    case Mfee => 40
    case Tcount => 48
    case Time0 => 52
    case Difficulty => 56
    case Mroot => 60
    case Nonce => 92
    case Stime => 124
    case Bhash => 128
  }

  function TrailerWidth(f: TrailerField): nat
  {
    match f
    case Phash | Mroot | Nonce | Bhash => HASHLEN
    case Bnum | Mfee => 8
    case Tcount | Time0 | Difficulty | Stime => 4
  }

  function TrailerEnd(f: TrailerField): (r: nat)
    ensures TrailerWidth(f) <= r <= TRAILER_LENGTH
  {
    TrailerOffset(f) + TrailerWidth(f)
  }

  /** The fields read as hexadecimal text; the others are unsigned little-endian numbers. */
  predicate IsHash(f: TrailerField) { f.Phash? || f.Mroot? || f.Nonce? || f.Bhash? }

  /** The trailer's fields follow one another without gaps and end at 160. */
  lemma TrailerLayout()
    ensures TrailerOffset(Phash) == 0
    ensures TrailerEnd(Phash) == TrailerOffset(Bnum) && TrailerEnd(Bnum) == TrailerOffset(Mfee)
    ensures TrailerEnd(Mfee) == TrailerOffset(Tcount) && TrailerEnd(Tcount) == TrailerOffset(Time0)
    ensures TrailerEnd(Time0) == TrailerOffset(Difficulty) && TrailerEnd(Difficulty) == TrailerOffset(Mroot)
    ensures TrailerEnd(Mroot) == TrailerOffset(Nonce) && TrailerEnd(Nonce) == TrailerOffset(Stime)
    ensures TrailerEnd(Stime) == TrailerOffset(Bhash) && TrailerEnd(Bhash) == TRAILER_LENGTH
  {
  }

  /**
   * The static readers of the hash fields (`phash`, `mroot`, `nonce`,
   * `bhash`): null when the view itself is too short for the field,
   * otherwise the field's hexadecimal text.
   */
  function TrailerHash(v: View, f: TrailerField): (r: Option<string>)
    requires v.Valid() && IsHash(f)
    ensures r.Some? ==> |r.value| == 2 * HASHLEN
  {
    if v.byteLength < TrailerEnd(f) then None
    else Some(Util.Hex(v.Contents()[TrailerOffset(f)..TrailerEnd(f)]))
  }

  /**
   * The static readers of the number fields (`bnum`, `mfee`, `tcount`,
   * `time0`, `difficulty`, `stime`): null when the underlying buffer ends
   * before the field, otherwise the little-endian value read through a
   * `DataView` over the whole buffer.
   */
  function TrailerNumber(v: View, f: TrailerField): (r: Option<nat>)
    requires v.Valid() && !IsHash(f)
    ensures r.Some? ==> r.value < Pow256(TrailerWidth(f))
  {
    if |v.buffer| < v.byteOffset + TrailerEnd(f) then None
    else Some(ReadLE(v.buffer, v.byteOffset + TrailerOffset(f), TrailerWidth(f)))
  }

  /** The text the readers return is what `array2string` makes of the field's bytes. */
  lemma TrailerHashText(v: View, f: TrailerField)
    requires v.Valid() && IsHash(f) && TrailerEnd(f) <= v.byteLength
    ensures Util.Array2String(Util.Typed(v.Contents()[TrailerOffset(f)..TrailerEnd(f)]), false, true)
      == Success(TrailerHash(v, f).value)
  {
    Util.Array2StringHex(v.Contents()[TrailerOffset(f)..TrailerEnd(f)], false, true);
  }

  /**
   * The readers fail exactly past the data: a hash reader answers null iff
   * the view ends before the field, a number reader iff the buffer does.
   * On a view of a full 160-byte trailer every reader answers, and a number
   * reader reads the field's own bytes of the view.
   */
  lemma TrailerReaders(v: View, f: TrailerField)
    requires v.Valid()
    ensures IsHash(f) ==> (TrailerHash(v, f).None? <==> v.byteLength < TrailerEnd(f))
    ensures !IsHash(f) ==> (TrailerNumber(v, f).None? <==> |v.buffer| < v.byteOffset + TrailerEnd(f))
    ensures v.byteLength >= TRAILER_LENGTH && IsHash(f) ==>
      TrailerHash(v, f) == Some(Util.Hex(v.Contents()[TrailerOffset(f)..TrailerEnd(f)]))
    ensures v.byteLength >= TRAILER_LENGTH && !IsHash(f) ==>
      TrailerNumber(v, f) == Some(FromLE(v.Contents()[TrailerOffset(f)..TrailerEnd(f)]))
  {
    if v.byteLength >= TRAILER_LENGTH && !IsHash(f) {
      var at := v.byteOffset + TrailerOffset(f);
      var w := TrailerWidth(f);
      assert TrailerEnd(f) == TrailerOffset(f) + w;
      ContentsSlice(v, TrailerOffset(f), w);
    }
  }

  /** `new BlockTrailer(buffer, offset)`: a 160-byte window, or a RangeError. */
  function BlockTrailerAt(buffer: seq<byte>, offset: int): (r: Result<View>)
    ensures r.Success? <==> 0 <= offset && offset + TRAILER_LENGTH <= |buffer|
    ensures r.Success? ==> r.value.Valid() && r.value.byteLength == TRAILER_LENGTH
  {
    ViewOf(buffer, offset, TRAILER_LENGTH)
  }

  // ---------------------------------------------------------------------
  // Tfiles: a run of block trailers.

  /** `new Tfile(bytes, offset, length)`: the length is first rounded down to a multiple of 160. */
  function TfileOf(buffer: seq<byte>, offset: int, length: nat): (r: Result<View>)
    ensures r.Success? ==> r.value.buffer == buffer && r.value.byteOffset == offset
    ensures r.Success? ==>
      r.value.byteLength % TRAILER_LENGTH == 0 && r.value.byteLength <= length < r.value.byteLength + TRAILER_LENGTH
    ensures r.Success? <==> 0 <= offset && offset + length - length % TRAILER_LENGTH <= |buffer|
  {
    ViewOf(buffer, offset, length - length % TRAILER_LENGTH)
  }

  /** `Tfile.trailer(index)` as written: the trailer at buffer position 160 * index, without the Tfile's own byteOffset. */
  function TfileTrailerAsWritten(t: View, index: int): (r: Result<View>)
    ensures r.Success? ==> r.value.buffer == t.buffer && r.value.byteOffset == index * TRAILER_LENGTH
  {
    BlockTrailerAt(t.buffer, index * TRAILER_LENGTH)
  }

  /** `Tfile.trailer(index)` as intended: the index-th 160-byte record of the Tfile's own window. */
  function TfileTrailer(t: View, index: int): (r: Result<View>)
    ensures r.Success? ==> r.value.buffer == t.buffer && r.value.byteOffset == t.byteOffset + index * TRAILER_LENGTH
  {
    BlockTrailerAt(t.buffer, t.byteOffset + index * TRAILER_LENGTH)
  }

  /**
   * In a Tfile at any byte offset, every index below the number of
   * trailers it holds gives the index-th 160-byte record, and no other
   * index gives a trailer inside the Tfile.
   */
  lemma TfileTrailers(t: View, index: int)
    requires t.Valid() && t.byteLength % TRAILER_LENGTH == 0
    ensures 0 <= index < t.byteLength / TRAILER_LENGTH ==>
      TfileTrailer(t, index).Success?
      && TfileTrailer(t, index).value.Contents() == t.Contents()[index * TRAILER_LENGTH..(index + 1) * TRAILER_LENGTH]
    ensures (TfileTrailer(t, index).Success?
        && t.byteOffset <= TfileTrailer(t, index).value.byteOffset
        && TfileTrailer(t, index).value.byteOffset + TRAILER_LENGTH <= t.byteOffset + t.byteLength) ==>
      0 <= index < t.byteLength / TRAILER_LENGTH
  {
    var n := t.byteLength / TRAILER_LENGTH;
    assert t.byteLength == n * TRAILER_LENGTH;
    var at := index * TRAILER_LENGTH;
    assert (index + 1) * TRAILER_LENGTH == at + TRAILER_LENGTH;
    if 0 <= index < n {
      assert at + TRAILER_LENGTH <= t.byteLength by {
        assert index + 1 <= n;
        assert (index + 1) * TRAILER_LENGTH <= n * TRAILER_LENGTH;
      }
      var v := TfileTrailer(t, index).value;
      assert v == View(t.buffer, t.byteOffset + at, TRAILER_LENGTH);
      ContentsSlice(t, at, TRAILER_LENGTH);
    }
    if 0 <= at && at + TRAILER_LENGTH <= t.byteLength {
      assert 0 <= index < n;
    }
  }

  /** For a Tfile that starts its buffer, the getter as written and the intended one agree. */
  lemma TfileAsWrittenAtStart(t: View, index: int)
    requires t.byteOffset == 0
    ensures TfileTrailerAsWritten(t, index) == TfileTrailer(t, index)
  {
  }

  /**
   * For a Tfile at byte offset 160 * (index + 1) or more, the getter as
   * written returns a trailer that ends before the Tfile begins.
   */
  lemma TfileAsWrittenMisses(t: View, index: nat)
    requires t.Valid() && t.byteOffset >= (index + 1) * TRAILER_LENGTH
    ensures TfileTrailerAsWritten(t, index).Success?
    ensures TfileTrailerAsWritten(t, index).value.byteOffset + TRAILER_LENGTH <= t.byteOffset
  {
    assert index * TRAILER_LENGTH + TRAILER_LENGTH == (index + 1) * TRAILER_LENGTH;
  }

  /**
   * `new Tfile(ab, 160, 320)` over 480 bytes whose first 160 are 1 and the
   * rest 0: `trailer(0)` as written reads the ones before the Tfile, while
   * the Tfile's own first record is zeros.
   */
  lemma TfileAsWrittenCounterexample()
    ensures var ab := seq(480, i => if i < 160 then 1 as byte else 0 as byte);
      var t := TfileOf(ab, 160, 320);
      t.Success? && TfileTrailerAsWritten(t.value, 0).Success? && TfileTrailer(t.value, 0).Success?
      && TfileTrailerAsWritten(t.value, 0).value.Contents()[0] == 1
      && TfileTrailer(t.value, 0).value.Contents()[0] == 0
      && TfileTrailer(t.value, 0).value.Contents() == t.value.Contents()[..TRAILER_LENGTH]
  {
    var ab := seq(480, i => if i < 160 then 1 as byte else 0 as byte);
    var t := TfileOf(ab, 160, 320).value;
    assert t == View(ab, 160, 320);
    TfileTrailers(t, 0);
    assert TfileTrailerAsWritten(t, 0).value.Contents()[0] == ab[0];
    assert TfileTrailer(t, 0).value.Contents()[0] == ab[160];
  }
}
