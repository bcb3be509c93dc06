/**
 * The transaction buffer: a fixed 8920-byte array whose header, body and
 * trailer fields sit at constant offsets. Numbers are stored little-endian
 * (DataView with `littleEndian = true`), hashes, addresses and the
 * signature as raw bytes; a CRC-16/XMODEM over the first 8916 bytes is
 * kept in the trailer.
 *
 * The buffer contents are described by functions on `seq<byte>` (the
 * getters, the CRC and the JSON view); the class `Tx` owns the array and
 * its setters update it in place.
 */
module Tx {
  import opened Bytes
  import opened Constants
  import opened CrcTable
  import Util

  /** `Tx.length`: every transaction buffer holds exactly this many bytes. */
  const TX_LENGTH: nat := 8920

  // ---------------------------------------------------------------------
  // Layout.

  /** The named fields of the buffer, in buffer order. */
  datatype Field =
    | Pversion | Cbits | Network | Id1 | Id2 | Opcode | Cblock | Blocknum
    | Cblockhash | Pblockhash | Weight | Len
    | Srcaddr | Dstaddr | Chgaddr | Sendtotal | Changetotal | Txfee | Txsig
    | Crc16 | Trailer

  /** The pointer constant of each field. */
  function Offset(f: Field): nat
  {
    match f
    case Pversion => TXVERSIONp
    case Cbits => TXCBITSp
    case Network => TXNETWORKp
    case Id1 => TXID1p
    case Id2 => TXID2p
    case Opcode => TXOPCODEp
    case Cblock => TXCBLOCKp
    case Blocknum => TXBLOCKNUMp
    case Cblockhash => TXCBLOCKHASHp
    case Pblockhash => TXPBLOCKHASHp
    case Weight => TXWEIGHTp
    case Len => TXLENp
    case Srcaddr => TXSRCADDRp
    case Dstaddr => TXDSTADDRp
    case Chgaddr => TXCHGADDRp
    case Sendtotal => TXSENDTOTALp
    case Changetotal => TXCHANGETOTALp
    case Txfee => TXTXFEEp
    case Txsig => TXTXSIGp
    case Crc16 => TXCRC16p
    case Trailer => TXTRAILERp
  }

  /** The number of bytes of each field; every field lies inside the buffer. */
  function Width(f: Field): (r: nat)
    ensures 0 < r && Offset(f) + r <= TX_LENGTH
  {
    match f
    case Pversion | Cbits => 1
    case Network | Id1 | Id2 | Opcode | Len | Crc16 | Trailer => 2
    case Cblock | Blocknum => 8
    case Cblockhash | Pblockhash | Weight => HASHLEN
    case Srcaddr | Dstaddr | Chgaddr => TXADDRLEN
    case Sendtotal | Changetotal | Txfee => TXAMOUNTLEN
    case Txsig => TXSIGLEN
  }

  function End(f: Field): nat
  {
    Offset(f) + Width(f)
  }

  /** Fields written from byte arrays and read back as hexadecimal text. */
  predicate IsBytes(f: Field)
  {
    f.Cblockhash? || f.Pblockhash? || f.Weight? || f.Srcaddr? || f.Dstaddr? || f.Chgaddr? || f.Txsig?
  }

  /** Fields written from a BigInt (`setBigUint64`). */
  predicate IsBigInt(f: Field)
  {
    f.Cblock? || f.Blocknum? || f.Sendtotal? || f.Changetotal? || f.Txfee?
  }

  /** Fields written from a Number (`setUint8` or `setUint16`). */
  predicate IsSmall(f: Field)
  {
    !IsBytes(f) && !IsBigInt(f)
  }

  /** The fewest bytes a byte-array setter accepts: the weight may be shorter than its field. */
  function MinWidth(f: Field): (r: nat)
    ensures 0 < r <= Width(f)
  {
    if f.Weight? then 1 else Width(f)
  }

  /** The field that holds byte `k`: the fields cover the whole buffer. */
  function FieldAt(k: nat): (f: Field)
    requires k < TX_LENGTH
    ensures Offset(f) <= k < End(f)
  {
    if k < TXCBITSp then Pversion
    else if k < TXNETWORKp then Cbits
    else if k < TXID1p then Network
    else if k < TXID2p then Id1
    else if k < TXOPCODEp then Id2
    else if k < TXCBLOCKp then Opcode
    else if k < TXBLOCKNUMp then Cblock
    else if k < TXCBLOCKHASHp then Blocknum
    else if k < TXPBLOCKHASHp then Cblockhash
    else if k < TXWEIGHTp then Pblockhash
    else if k < TXLENp then Weight
    else if k < TXSRCADDRp then Len
    else if k < TXDSTADDRp then Srcaddr
    else if k < TXCHGADDRp then Dstaddr
    else if k < TXSENDTOTALp then Chgaddr
    else if k < TXCHANGETOTALp then Sendtotal
    else if k < TXTXFEEp then Changetotal
    else if k < TXTXSIGp then Txfee
    else if k < TXCRC16p then Txsig
    else if k < TXTRAILERp then Crc16
    else Trailer
  }

  /** No two fields overlap, so each byte belongs to exactly one field. */
  lemma FieldsDisjoint(f: Field, g: Field)
    requires f != g
    ensures End(f) <= Offset(g) || End(g) <= Offset(f)
  {
  }

  // ---------------------------------------------------------------------
  // Reading the buffer.

  /** The bytes of field `f` (`subarray(Offset, End)`). */
  function FieldOf(buf: seq<byte>, f: Field): (r: seq<byte>)
    requires |buf| == TX_LENGTH
    ensures |r| == Width(f)
  {
    buf[Offset(f)..End(f)]
  }

  /** The numeric getters: `getUint8`, little-endian `getUint16` or `getBigUint64` at the field's offset. */
  function NumberOf(buf: seq<byte>, f: Field): (r: nat)
    requires |buf| == TX_LENGTH && !IsBytes(f)
    ensures r < Pow256(Width(f))
  {
    FromLE(FieldOf(buf, f))
  }

  /**
   * The hexadecimal getters: two lower-case digits per byte of the field, in
   * order; the weight reads its bytes backwards and drops leading zeros.
   */
  function TextOf(buf: seq<byte>, f: Field): (r: string)
    requires |buf| == TX_LENGTH && IsBytes(f)
    ensures f.Weight? ==> |r| <= 2 * Width(f)
    ensures !f.Weight? ==> |r| == 2 * Width(f)
  {
    if f.Weight? then Util.StripLeadingZeros(Util.Hex(Util.Reverse(FieldOf(buf, f))))
    else Util.Hex(FieldOf(buf, f))
  }

  /** The getters' text is what `array2string(field)` (for the weight, `array2string(field, 16, true, false)`) folds. */
  lemma TextOfArray2String(buf: seq<byte>, f: Field)
    requires |buf| == TX_LENGTH && IsBytes(f)
    ensures Util.Array2String(Util.Typed(FieldOf(buf, f)), f.Weight?, !f.Weight?) == Success(TextOf(buf, f))
  {
    Util.Array2StringHex(FieldOf(buf, f), f.Weight?, !f.Weight?);
  }

  /** `getTxData`: the transaction data between the header and the trailer. */
  function TxData(buf: seq<byte>): (r: seq<byte>)
    requires |buf| == TX_LENGTH
    ensures |r| == TRANLEN
  {
    buf[TXSRCADDRp..TXCRC16p]
  }

  /** The transaction data is the three addresses, the three amounts and the signature, in that order. */
  lemma TxDataFields(buf: seq<byte>)
    requires |buf| == TX_LENGTH
    ensures TxData(buf) == FieldOf(buf, Srcaddr) + FieldOf(buf, Dstaddr) + FieldOf(buf, Chgaddr)
      + FieldOf(buf, Sendtotal) + FieldOf(buf, Changetotal) + FieldOf(buf, Txfee) + FieldOf(buf, Txsig)
  {
    var s := buf[TXSRCADDRp..TXCRC16p];
    assert s == buf[TXSRCADDRp..TXDSTADDRp] + buf[TXDSTADDRp..TXCHGADDRp] + buf[TXCHGADDRp..TXSENDTOTALp]
      + buf[TXSENDTOTALp..TXCHANGETOTALp] + buf[TXCHANGETOTALp..TXTXFEEp] + buf[TXTXFEEp..TXTXSIGp]
      + buf[TXTXSIGp..TXCRC16p];
  }

  // ---------------------------------------------------------------------
  // Writing the buffer.

  /** A number stored into a field and read back is the number modulo the field's range. */
  lemma NumberRoundTrip(buf: seq<byte>, f: Field, v: int)
    requires |buf| == TX_LENGTH && !IsBytes(f)
    ensures NumberOf(Splice(buf, Offset(f), ToLE(v % Pow256(Width(f)), Width(f))), f) == v % Pow256(Width(f))
  {
    StoreLE(buf, Offset(f), Width(f), v);
  }

  /** Bytes stored into a field are read back as they were. */
  lemma StoreField(buf: seq<byte>, f: Field, src: seq<byte>)
    requires |buf| == TX_LENGTH && |src| == Width(f)
    ensures FieldOf(Splice(buf, Offset(f), src), f) == src
  {
    assert Splice(buf, Offset(f), src)[Offset(f)..Offset(f) + |src|] == src;
  }

  /** Storing bytes in one field leaves every other field as it was. */
  lemma StoreOthers(buf: seq<byte>, f: Field, src: seq<byte>, g: Field)
    requires |buf| == TX_LENGTH && |src| <= Width(f) && g != f
    ensures FieldOf(Splice(buf, Offset(f), src), g) == FieldOf(buf, g)
  {
    FieldsDisjoint(f, g);
    SpliceOutside(buf, Offset(f), src, Offset(g), End(g));
  }

  /** Storing bytes in a field other than the weight reads back as their hexadecimal text. */
  lemma TextRoundTrip(buf: seq<byte>, f: Field, src: seq<byte>)
    requires |buf| == TX_LENGTH && IsBytes(f) && !f.Weight? && |src| == Width(f)
    ensures TextOf(Splice(buf, Offset(f), src), f) == Util.Hex(src)
  {
    StoreField(buf, f, src);
  }

  // ---------------------------------------------------------------------
  // CRC-16/XMODEM.

  /** One table step: the low byte moves up and the table entry for the outgoing byte is mixed in. */
  function CrcStep(crc: nat, b: byte): (r: nat)
    requires crc < TWO_TO_16
    ensures r < TWO_TO_16
  {
    var index := Xor((crc / 256) % 256, b);
    ((((crc % 256) * 256) as bv16) ^ TableEntry(index)) as nat
  }

  /** The table-driven CRC-16 of `data`, starting from 0. */
  function Crc16Of(data: seq<byte>): (r: nat)
    ensures r < TWO_TO_16
  {
    if data == [] then 0 else CrcStep(Crc16Of(data[..|data| - 1]), data[|data| - 1])
  }

  /** The CRC covers bytes [0, 8916): writing the CRC or trailer field does not change it. */
  lemma CrcOutsideData(buf: seq<byte>, f: Field, src: seq<byte>)
    requires |buf| == TX_LENGTH && (f.Crc16? || f.Trailer?) && |src| <= Width(f)
    ensures Splice(buf, Offset(f), src)[..TXCRC16p] == buf[..TXCRC16p]
  {
  }

  /** The CRC the buffer carries agrees with the one computed over its data. */
  predicate CrcValid(buf: seq<byte>)
    requires |buf| == TX_LENGTH
  {
    NumberOf(buf, Crc16) == Crc16Of(buf[..TXCRC16p])
  }

  /** Storing the computed CRC in the CRC field makes the buffer pass the CRC test. */
  lemma CrcSeal(buf: seq<byte>)
    requires |buf| == TX_LENGTH
    ensures CrcValid(Splice(buf, TXCRC16p, ToLE(Crc16Of(buf[..TXCRC16p]), 2)))
  {
    var c := Crc16Of(buf[..TXCRC16p]);
    assert Pow256(2) == TWO_TO_16;
    StoreExact(buf, TXCRC16p, 2, c);
    CrcOutsideData(buf, Crc16, ToLE(c, 2));
  }

  // ---------------------------------------------------------------------
  // The JSON view.

  /** The members `toJSON` adds for an OP_TX transaction. */
  datatype Transfer = Transfer(
    srcaddr: string, dstaddr: string, chgaddr: string,
    sendtotal: nat, changetotal: nat, txfee: nat, txsig: string)

  /** The header members `toJSON` always includes. */
  datatype Header = Header(
    pversion: nat, cbits: nat, network: nat, id1: nat, id2: nat, opcode: nat,
    cblock: nat, blocknum: nat, cblockhash: string, pblockhash: string,
    weight: string, len: nat)

  /** The object `toJSON` returns; exactly one of `transfer` and `data` is present. */
  datatype TxJson = TxJson(
    header: Header, crc16: nat, trailer: nat,
    transfer: Option<Transfer>, data: Option<seq<byte>>)

  /** The header members of `toJSON`, each read by its getter. */
  function HeaderOf(buf: seq<byte>): Header
    requires |buf| == TX_LENGTH
  {
    Header(
      NumberOf(buf, Pversion), NumberOf(buf, Cbits), NumberOf(buf, Network),
      NumberOf(buf, Id1), NumberOf(buf, Id2), NumberOf(buf, Opcode),
      NumberOf(buf, Cblock), NumberOf(buf, Blocknum),
      TextOf(buf, Cblockhash), TextOf(buf, Pblockhash), TextOf(buf, Weight),
      NumberOf(buf, Len))
  }

  /** The OP_TX members of `toJSON`: the three addresses, the three amounts and the signature. */
  function TransferOf(buf: seq<byte>): Transfer
    requires |buf| == TX_LENGTH
  {
    Transfer(
      TextOf(buf, Srcaddr), TextOf(buf, Dstaddr), TextOf(buf, Chgaddr),
      NumberOf(buf, Sendtotal), NumberOf(buf, Changetotal), NumberOf(buf, Txfee),
      TextOf(buf, Txsig))
  }

  /** `toJSON`: the header and trailer always, then the transfer members for OP_TX and the raw data otherwise. */
  function JsonOf(buf: seq<byte>): (r: TxJson)
    requires |buf| == TX_LENGTH
    ensures r.transfer.Some? != r.data.Some?
    ensures r.data.Some? ==> |r.data.value| == TRANLEN
  {
    var opcode := NumberOf(buf, Opcode);
    TxJson(
      HeaderOf(buf), NumberOf(buf, Crc16), NumberOf(buf, Trailer),
      if opcode == OP_TX then Some(TransferOf(buf)) else None,
      if opcode == OP_TX then None else Some(TxData(buf)))
  }

  /** The transfer members are present exactly for OP_TX, and the raw transaction data exactly otherwise. */
  lemma JsonShape(buf: seq<byte>)
    requires |buf| == TX_LENGTH
    ensures JsonOf(buf).transfer.Some? <==> NumberOf(buf, Opcode) == OP_TX
    ensures JsonOf(buf).data.Some? <==> JsonOf(buf).transfer.None?
    ensures JsonOf(buf).data.Some? ==> JsonOf(buf).data.value == TxData(buf)
  {
  }

  // ---------------------------------------------------------------------
  // The buffer object.

  class Tx {
    /** The bytes of the transaction; the array itself never changes. */
    const bytes: array<byte>

    predicate Valid()
    {
      bytes.Length == TX_LENGTH
    }

    /** A zeroed buffer of `Tx.length` bytes. */
    constructor ()
      ensures Valid() && fresh(bytes)
      ensures forall k :: 0 <= k < TX_LENGTH ==> bytes[k] == 0
    {
      bytes := new byte[TX_LENGTH](_ => 0);
    }

    /**
     * The Number setters (`pversion`, `cbits`, `network`, `id1`, `id2`,
     * `opcode`, `len`, `crc16`, `trailer`): NaN throws; otherwise the value
     * modulo 2^8 or 2^16 is stored little-endian, and nothing else changes.
     */
    method SetNumber(f: Field, v: Util.NumValue) returns (r: Outcome)
      requires Valid() && IsSmall(f)
      modifies bytes
      ensures r.Fail? <==> v.NaN?
      ensures r.Fail? ==> bytes[..] == old(bytes[..])
      ensures r.Pass? ==> bytes[..] == Splice(old(bytes[..]), Offset(f), ToLE(v.n % Pow256(Width(f)), Width(f)))
    {
      var n := Util.SanitizeNumber(v);
      if n.Failure? {
        return Fail(n.error);
      }
      SetBytes(bytes, Offset(f), ToLE(n.value % Pow256(Width(f)), Width(f)));
      r := Pass;
    }

    /**
     * The BigInt setters (`cblock`, `blocknum`, `sendtotal`, `changetotal`,
     * `txfee`): the value modulo 2^64 is stored little-endian.
     */
    method SetBigUint64(f: Field, v: int)
      requires Valid() && IsBigInt(f)
      modifies bytes
      ensures Width(f) == 8
      ensures bytes[..] == Splice(old(bytes[..]), Offset(f), ToLE(v % TWO_TO_64, 8))
    {
      SetBytes(bytes, Offset(f), ToLE(v % TWO_TO_64, 8));
    }

    /**
     * The byte-array setters (`cblockhash`, `pblockhash`, `weight`,
     * `srcaddr`, `dstaddr`, `chgaddr`, `txsig`): the value is sanitised to
     * exactly the field's width (1 to 32 bytes, little-endian, for the
     * weight) and copied to the field's offset; an invalid value throws and
     * leaves the buffer as it was.
     */
    method SetArray(f: Field, value: Util.JsValue) returns (r: Outcome)
      requires Valid() && IsBytes(f)
      modifies bytes
      ensures var s := Util.Sanitized(value, Width(f), MinWidth(f), f.Weight?);
        (r.Fail? <==> s.Failure?)
        && (r.Fail? ==> bytes[..] == old(bytes[..]))
        && (r.Pass? ==> bytes[..] == Splice(old(bytes[..]), Offset(f), s.value))
    {
      var s := Util.SanitizeArray(value, Width(f), MinWidth(f), f.Weight?);
      if s.Failure? {
        return Fail(s.error);
      }
      SetBytes(bytes, Offset(f), s.value);
      r := Pass;
    }

    /** `crc16compute`: the table fold over bytes [0, 8916). */
    method Crc16Compute() returns (crc: nat)
      requires Valid()
      ensures crc == Crc16Of(bytes[..TXCRC16p])
    {
      crc := 0;
      var i := 0;
      while i < TXCRC16p
        invariant 0 <= i <= TXCRC16p
        invariant crc == Crc16Of(bytes[..i])
      {
        assert bytes[..i + 1][..i] == bytes[..i];
        crc := CrcStep(crc, bytes[i]);
        i := i + 1;
      }
    }

    /** `crc16test`: whether the stored CRC equals the computed one. */
    method Crc16Test() returns (ok: bool)
      requires Valid()
      ensures ok <==> CrcValid(bytes[..])
    {
      var crc := Crc16Compute();
      assert bytes[..][..TXCRC16p] == bytes[..TXCRC16p];
      assert FieldOf(bytes[..], Crc16) == bytes[TXCRC16p..TXTRAILERp];
      ok := crc == FromLE(bytes[TXCRC16p..TXTRAILERp]);
    }

    /** `getTxData`: a fresh copy of the transaction data. */
    method GetTxData() returns (data: array<byte>)
      requires Valid()
      ensures fresh(data) && data[..] == TxData(bytes[..])
    {
      data := CopyOf(bytes[TXSRCADDRp..TXCRC16p]);
    }
  }
}
