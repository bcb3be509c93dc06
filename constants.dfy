/**
 * The protocol constants shared by the transaction, block and signature
 * code: sizes, transaction field offsets, peer status names, operation
 * codes (the CRC-16 lookup table follows in its own module).
 */
module Constants {
  import opened Bytes
  import Util

  // sizes
  const HASHLEN: nat := 32
  const TAGLEN: nat := 12

  // transaction
  const TXADDRLEN: nat := 2208
  const TXAMOUNTLEN: nat := 8
  const TXSIGLEN: nat := 2144
  const TRANLEN: nat := 8792
  const SIG_COUNT: nat := 6648
  const TXNETWORK: nat := 0x0539
  const TXEOT: nat := 0xabcd
  const UNTAGGED_BYTES: seq<byte> := [0x42, 0x00]
  const DEFAULT_TAG: string := "420000000e00000001000000"

  // socket
  const INVALID_SOCKET: int := -1

  // peer status
  const VEREJECTED: int := -2
  const VETIMEOUT: int := -1
  const VEOK: int := 0
  const VERROR: int := 1
  const VEBAD: int := 2

  /** The name of a status code; codes outside -2..2 have none (`undefined`). */
  function VeName(ve: int): (r: Option<string>)
    ensures r.Some? <==> VEREJECTED <= ve <= VEBAD
    ensures ve == VEREJECTED ==> r == Some("VEREJECTED")
    ensures ve == VETIMEOUT ==> r == Some("VETIMEOUT")
    ensures ve == VEOK ==> r == Some("VEOK")
    ensures ve == VERROR ==> r == Some("VERROR")
    ensures ve == VEBAD ==> r == Some("VEBAD")
  {
    var status := ["VEREJECTED", "VETIMEOUT", "VEOK", "VERROR", "VEBAD"];
    var offset := 2;
    if 0 <= offset + ve < |status| then Some(status[offset + ve]) else None
  }

  // capabilities
  const C_PUSH: nat := 1
  const C_WALLET: nat := 2
  const C_SANCTUARY: nat := 4
  const C_MFEE: nat := 8
  const C_LOGGING: nat := 16

  // operation codes
  const OP_NULL: nat := 0
  const OP_HELLO: nat := 1
  const OP_HELLO_ACK: nat := 2
  const OP_TX: nat := 3
  const OP_FOUND: nat := 4
  const OP_GETBLOCK: nat := 5
  const OP_GETIPL: nat := 6
  const OP_SEND_BL: nat := 7
  const OP_SEND_IP: nat := 8
  const OP_BUSY: nat := 9
  const OP_NACK: nat := 10
  const OP_GET_TFILE: nat := 11
  const OP_BALANCE: nat := 12
  const OP_SEND_BAL: nat := 13
  const OP_RESOLVE: nat := 14
  const OP_GET_CBLOCK: nat := 15
  const OP_MBLOCK: nat := 16
  const OP_HASH: nat := 17
  const OP_TF: nat := 18
  const OP_IDENTIFY: nat := 19
  const FIRST_OP: nat := OP_TX
  const LAST_OP: nat := OP_IDENTIFY
  const OP_TEXT: seq<string> := [
    "OP_NULL", "OP_HELLO", "OP_HELLO_ACK", "OP_TX", "OP_FOUND", "OP_GETBLOCK",
    "OP_GETIPL", "OP_SEND_BL", "OP_SEND_IP", "OP_BUSY", "OP_NACK", "OP_GET_TFILE",
    "OP_BALANCE", "OP_SEND_BAL", "OP_RESOLVE", "OP_GET_CBLOCK", "OP_MBLOCK",
    "OP_HASH", "OP_TF", "OP_IDENTIFY"]

  // transaction field offsets
  const TXVERSIONp: nat := 0
  const TXCBITSp: nat := 1
  const TXNETWORKp: nat := 2
  const TXID1p: nat := 4
  const TXID2p: nat := 6
  const TXOPCODEp: nat := 8
  const TXCBLOCKp: nat := 10
  const TXBLOCKNUMp: nat := 18
  const TXCBLOCKHASHp: nat := 26
  const TXPBLOCKHASHp: nat := 58
  const TXWEIGHTp: nat := 90
  const TXLENp: nat := 122
  const TXSRCADDRp: nat := 124
  const TXDSTADDRp: nat := 2332
  const TXCHGADDRp: nat := 4540
  const TXSENDTOTALp: nat := 6748
  const TXCHANGETOTALp: nat := 6756
  const TXTXFEEp: nat := 6764
  const TXTXSIGp: nat := 6772
  const TXCRC16p: nat := 8916
  const TXTRAILERp: nat := 8918


  /** A transaction is three addresses, three amounts and a signature. */
  lemma TranlenLayout()
    ensures TRANLEN == 3 * TXADDRLEN + 3 * TXAMOUNTLEN + TXSIGLEN
    ensures SIG_COUNT == TRANLEN - TXSIGLEN
  {
  }

  /** The header fields follow one another without gaps, each at the end of the previous one. */
  lemma HeaderContiguous()
    ensures TXVERSIONp + 1 == TXCBITSp && TXCBITSp + 1 == TXNETWORKp
    ensures TXNETWORKp + 2 == TXID1p && TXID1p + 2 == TXID2p && TXID2p + 2 == TXOPCODEp
    ensures TXOPCODEp + 2 == TXCBLOCKp && TXCBLOCKp + 8 == TXBLOCKNUMp && TXBLOCKNUMp + 8 == TXCBLOCKHASHp
    ensures TXCBLOCKHASHp + HASHLEN == TXPBLOCKHASHp && TXPBLOCKHASHp + HASHLEN == TXWEIGHTp
    ensures TXWEIGHTp + HASHLEN == TXLENp && TXLENp + 2 == TXSRCADDRp
  {
  }

  /** The body fields follow one another without gaps; the signed body is `TRANLEN` bytes. */
  lemma BodyContiguous()
    ensures TXSRCADDRp + TXADDRLEN == TXDSTADDRp && TXDSTADDRp + TXADDRLEN == TXCHGADDRp
    ensures TXCHGADDRp + TXADDRLEN == TXSENDTOTALp
    ensures TXSENDTOTALp + TXAMOUNTLEN == TXCHANGETOTALp && TXCHANGETOTALp + TXAMOUNTLEN == TXTXFEEp
    ensures TXTXFEEp + TXAMOUNTLEN == TXTXSIGp
    ensures TXCRC16p == TXTXSIGp + TXSIGLEN && TXTRAILERp == TXCRC16p + 2
    ensures TXCRC16p - TXSRCADDRp == TRANLEN
  {
  }

  /** `OP_TEXT[k]` is the name of operation code `k`, for every code from OP_NULL to LAST_OP. */
  lemma OpTextNames()
    ensures |OP_TEXT| == LAST_OP + 1 && FIRST_OP == OP_TX && LAST_OP == OP_IDENTIFY
    ensures OP_TEXT[OP_NULL] == "OP_NULL" && OP_TEXT[OP_HELLO] == "OP_HELLO"
    ensures OP_TEXT[OP_HELLO_ACK] == "OP_HELLO_ACK" && OP_TEXT[OP_TX] == "OP_TX"
    ensures OP_TEXT[OP_FOUND] == "OP_FOUND" && OP_TEXT[OP_GETBLOCK] == "OP_GETBLOCK"
    ensures OP_TEXT[OP_GETIPL] == "OP_GETIPL" && OP_TEXT[OP_SEND_BL] == "OP_SEND_BL"
    ensures OP_TEXT[OP_SEND_IP] == "OP_SEND_IP" && OP_TEXT[OP_BUSY] == "OP_BUSY"
    ensures OP_TEXT[OP_NACK] == "OP_NACK" && OP_TEXT[OP_GET_TFILE] == "OP_GET_TFILE"
    ensures OP_TEXT[OP_BALANCE] == "OP_BALANCE" && OP_TEXT[OP_SEND_BAL] == "OP_SEND_BAL"
    ensures OP_TEXT[OP_RESOLVE] == "OP_RESOLVE" && OP_TEXT[OP_GET_CBLOCK] == "OP_GET_CBLOCK"
    ensures OP_TEXT[OP_MBLOCK] == "OP_MBLOCK" && OP_TEXT[OP_HASH] == "OP_HASH"
    ensures OP_TEXT[OP_TF] == "OP_TF" && OP_TEXT[OP_IDENTIFY] == "OP_IDENTIFY"
  {
  }

  /**
   * The default tag is the little-endian words 66, 14 and 1 (ADDR words
   * 5, 6 and 7 as key generation leaves them); its first two bytes are
   * UNTAGGED_BYTES.
   */
  const TAG_WORD5: seq<byte> := [0x42, 0x00, 0x00, 0x00]
  const TAG_WORD6: seq<byte> := [0x0e, 0x00, 0x00, 0x00]
  const TAG_WORD7: seq<byte> := [0x01, 0x00, 0x00, 0x00]

  /** DEFAULT_TAG is the hexadecimal text of the TAGLEN default tag bytes, which begin with UNTAGGED_BYTES. */
  lemma DefaultTag()
    ensures DEFAULT_TAG == Util.Hex(TAG_WORD5) + Util.Hex(TAG_WORD6) + Util.Hex(TAG_WORD7)
    ensures |TAG_WORD5 + TAG_WORD6 + TAG_WORD7| == TAGLEN && TAG_WORD5[..2] == UNTAGGED_BYTES
  {
    TagWordsHex();
    TagText();
  }

  lemma TagWordsHex()
    ensures Util.Hex(TAG_WORD5) == "42000000"
    ensures Util.Hex(TAG_WORD6) == "0e000000"
    ensures Util.Hex(TAG_WORD7) == "01000000"
  {
  }

  lemma TagText()
    ensures DEFAULT_TAG == "42000000" + "0e000000" + "01000000"
  {
    var tag := DEFAULT_TAG;
    TagText0();
    TagText1();
    TagText2();
    assert tag == tag[..8] + tag[8..16] + tag[16..];
  }

  lemma TagText0() ensures DEFAULT_TAG[..8] == "42000000" {}
  lemma TagText1() ensures DEFAULT_TAG[8..16] == "0e000000" {}
  lemma TagText2() ensures DEFAULT_TAG[16..] == "01000000" {}
}

/**
 * The CRC-16 lookup table of the constants module, kept apart so that its
 * 256 entries stay out of the proofs that do not need them.
 */
module CrcTable {
  /** CRC-16/XMODEM lookup table (a `Uint16Array`): entry `b` is the remainder of `b * x^16` modulo 0x11021. */
  const CRC16TABLE: seq<bv16> := [
    0x0000, 0x1021, 0x2042, 0x3063, 0x4084, 0x50a5, 0x60c6, 0x70e7,
    0x8108, 0x9129, 0xa14a, 0xb16b, 0xc18c, 0xd1ad, 0xe1ce, 0xf1ef,
    0x1231, 0x0210, 0x3273, 0x2252, 0x52b5, 0x4294, 0x72f7, 0x62d6,
    0x9339, 0x8318, 0xb37b, 0xa35a, 0xd3bd, 0xc39c, 0xf3ff, 0xe3de,
    0x2462, 0x3443, 0x0420, 0x1401, 0x64e6, 0x74c7, 0x44a4, 0x5485,
    0xa56a, 0xb54b, 0x8528, 0x9509, 0xe5ee, 0xf5cf, 0xc5ac, 0xd58d,
    0x3653, 0x2672, 0x1611, 0x0630, 0x76d7, 0x66f6, 0x5695, 0x46b4,
    0xb75b, 0xa77a, 0x9719, 0x8738, 0xf7df, 0xe7fe, 0xd79d, 0xc7bc,
    0x48c4, 0x58e5, 0x6886, 0x78a7, 0x0840, 0x1861, 0x2802, 0x3823,
    0xc9cc, 0xd9ed, 0xe98e, 0xf9af, 0x8948, 0x9969, 0xa90a, 0xb92b,
    0x5af5, 0x4ad4, 0x7ab7, 0x6a96, 0x1a71, 0x0a50, 0x3a33, 0x2a12,
    0xdbfd, 0xcbdc, 0xfbbf, 0xeb9e, 0x9b79, 0x8b58, 0xbb3b, 0xab1a,
    0x6ca6, 0x7c87, 0x4ce4, 0x5cc5, 0x2c22, 0x3c03, 0x0c60, 0x1c41,
    0xedae, 0xfd8f, 0xcdec, 0xddcd, 0xad2a, 0xbd0b, 0x8d68, 0x9d49,
    0x7e97, 0x6eb6, 0x5ed5, 0x4ef4, 0x3e13, 0x2e32, 0x1e51, 0x0e70,
    0xff9f, 0xefbe, 0xdfdd, 0xcffc, 0xbf1b, 0xaf3a, 0x9f59, 0x8f78,
    0x9188, 0x81a9, 0xb1ca, 0xa1eb, 0xd10c, 0xc12d, 0xf14e, 0xe16f,
    0x1080, 0x00a1, 0x30c2, 0x20e3, 0x5004, 0x4025, 0x7046, 0x6067,
    0x83b9, 0x9398, 0xa3fb, 0xb3da, 0xc33d, 0xd31c, 0xe37f, 0xf35e,
    0x02b1, 0x1290, 0x22f3, 0x32d2, 0x4235, 0x5214, 0x6277, 0x7256,
    0xb5ea, 0xa5cb, 0x95a8, 0x8589, 0xf56e, 0xe54f, 0xd52c, 0xc50d,
    0x34e2, 0x24c3, 0x14a0, 0x0481, 0x7466, 0x6447, 0x5424, 0x4405,
    0xa7db, 0xb7fa, 0x8799, 0x97b8, 0xe75f, 0xf77e, 0xc71d, 0xd73c,
    0x26d3, 0x36f2, 0x0691, 0x16b0, 0x6657, 0x7676, 0x4615, 0x5634,
    0xd94c, 0xc96d, 0xf90e, 0xe92f, 0x99c8, 0x89e9, 0xb98a, 0xa9ab,
    0x5844, 0x4865, 0x7806, 0x6827, 0x18c0, 0x08e1, 0x3882, 0x28a3,
    0xcb7d, 0xdb5c, 0xeb3f, 0xfb1e, 0x8bf9, 0x9bd8, 0xabbb, 0xbb9a,
    0x4a75, 0x5a54, 0x6a37, 0x7a16, 0x0af1, 0x1ad0, 0x2ab3, 0x3a92,
    0xfd2e, 0xed0f, 0xdd6c, 0xcd4d, 0xbdaa, 0xad8b, 0x9de8, 0x8dc9,
    0x7c26, 0x6c07, 0x5c64, 0x4c45, 0x3ca2, 0x2c83, 0x1ce0, 0x0cc1,
    0xef1f, 0xff3e, 0xcf5d, 0xdf7c, 0xaf9b, 0xbfba, 0x8fd9, 0x9ff8,
    0x6e17, 0x7e36, 0x4e55, 0x5e74, 0x2e93, 0x3eb2, 0x0ed1, 0x1ef0
  ]

  /** Entry `i` of the table; the table has exactly 256 entries, one per byte value. */
  function TableEntry(i: nat): bv16
    requires i < 256
  {
    CRC16TABLE[i]
  }
}
