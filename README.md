# Mochimo Node.js library core, in Dafny

This project models the core of the Mochimo Node.js library. Mochimo is a
cryptocurrency whose addresses are WOTS+ one-time signature keys.

The model covers:

* **Constants.** The network constants: transaction layout pointers and
  lengths, op codes and their names, validation-error names, the default
  address tag, and the CRC-16 table.
* **Util.** The utility functions: private IPv4 classification, `ntoa`,
  `array2string`, and the array, number and port sanitisers.
* **Rand.** The two pseudo-random generators `rand16` and `rand2`.
* **Tx.** The `Tx` transaction buffer:
  * its numeric, BigInt and byte-array fields;
  * CRC-16 computation and test;
  * `getTxData` and `toJSON`.
* **Ledger and block layouts.** The `LEntry` (ledger entry), `TXEntry`
  (transaction entry) and `BlockTrailer` layouts.
* **Block.** The `Block` getters: `hdrlen`, `type`, the trailer fields,
  `amount`, `transactions`, `ledger` and `haiku`. Also `verifyBlockHash`.
* **Tfile.** The `Tfile` (trailer file) constructor and its `trailer(index)`
  accessor.
* **Trigg.** `Trigg.expand`, the haiku expansion of a 32-byte nonce over the
  256-word dictionary.
* **WOTS+.** The WOTS+ implementation: key generation, signing,
  public-key recovery and verification.

Modules:

| file | module | role |
|---|---|---|
| bytes.dfy | `Bytes` | bytes, `Splice` (a write into a buffer), and big/little-endian encoding, each with its round trip |
| constants.dfy | `Constants`, `CrcTable` | constants and the CRC-16 table |
| util.dfy | `Util` | utility functions; JavaScript values that reach them are the `JsValue` datatype |
| rand.dfy | `Xorshift32`, `Rand` | the generators; `Prng` holds the module's four seeds as fields |
| tx.dfy | `Tx` | the transaction buffer, a class over a fixed-size `array<byte>`, with the functions that read its fields |
| blockchain.dfy | `BlockLayout` | views over a shared buffer (`View` = buffer, byte offset, byte length); `LEntry` as a class over an array; TXEntry and trailer readers |
| block.dfy | `Blocks` | block getters as functions of a view; loop-based getters as methods proved equal to them |
| trigg_dict.dfy, trigg.dfy | `TriggDict`, `Trigg` | the dictionary, and the expansion loop proved against a recursive definition |
| wots_spec.dfy | `WotsSpec` | the WOTS+ algorithms as functions of byte sequences, and the round-trip lemma: a signature made with a generated key verifies against its address |
| wots.dfy | `Wots` | the imperative WOTS+ code: scratch buffers and the 8-word address are arrays, and each method is proved equal to its `WotsSpec` function |

SHA-256 and SHA-512 are the fields of a `Hashes` value passed to every
member that hashes. Their only stated property is the length of their
output.

## Model

| member | source | states |
|---|---|---|
| Constants.VeName | src/constants.js:25-29 | a name is returned exactly for the five codes from VEREJECTED to VEBAD, and each code gets its own name |
| Constants.TranlenLayout | src/constants.js:9-12 | TRANLEN is three addresses, three amounts and one signature; the signed part is TRANLEN without the signature |
| Constants.HeaderContiguous | src/constants.js:65-77 | each header field pointer is the previous pointer plus the previous field's width |
| Constants.BodyContiguous | src/constants.js:77-85 | the body pointers are contiguous, the CRC follows the signature, the trailer follows the CRC, and the signed span is TRANLEN bytes |
| Constants.OpTextNames | src/constants.js:37-63 | every op code from OP_NULL to OP_IDENTIFY has its own name, and FIRST_OP/LAST_OP bound the range |
| Constants.DefaultTag | src/constants.js:15-16 | DEFAULT_TAG is the hexadecimal text of the three tag words; the tag is 12 bytes and starts with UNTAGGED_BYTES |
| Util.PrivateBlocks | src/util.js:111-121 | isPrivateIPv4 returns 1, 2, 3 or 4 exactly when the address lies in 0/8, 127/8 or 10/8; in 172.16/12; in 192.168/16; or in 169.254/16 |
| Util.IsPrivateIPv4 | src/util.js:111-121 | the result is one of 0..4 |
| Util.NtoaParse | src/util.js:178-183 | reading the dotted text of any 32-bit value back gives that value (little-endian octet order) |
| Util.NtoaParts | src/util.js:178-183 | the dotted text splits into exactly the four decimal octets |
| Util.Ntoa | src/util.js:178-183 | the dotted text is at least 7 characters and starts with the decimal text of the low octet followed by a dot |
| Util.Decimal | src/util.js:178-183 | decimal text is never empty, and its digits read back to the number (see DecimalDigits) |
| Util.DecimalDigits | src/util.js:178-183 | every character of the decimal text is a digit, and the digits read back to the number |
| Util.Array2String | src/util.js:131-160 | fails exactly when the input is not a byte array |
| Util.Array2StringHex | src/util.js:131-160 | with `full`, the text is two digits per byte, byte-reversed when little-endian; without `full`, it is that text with leading zeros stripped |
| Util.HexRoundTrip | src/util.js:131-216 | full hexadecimal text made by array2string is read back by sanitizeArray into the same bytes, in either byte order |
| Util.HexPairsOfHex | src/util.js:131-160 | the text of any byte sequence is all hexadecimal digits, and its digit pairs read back to the bytes |
| Util.LengthChecked | src/util.js:208-215 | accepts exactly the arrays whose length lies in [min, max], and returns them unchanged |
| Util.Sanitized | src/util.js:186-216 | an accepted value has a length within bounds; undefined or null is rejected |
| Util.SanitizeArray | src/util.js:186-216 | the method's result equals `Sanitized` |
| Util.SanitizeUint8ArrayAsWritten | src/tx.js:7 | the imported `sanitizeUint8Array` is not exported by util.js, so every call fails |
| Util.SanitizerCounterexample | src/util.js:255-265 | a 32-byte zero array is accepted by the intended length check and rejected by the call as written |
| Util.SanitizeNumber | src/util.js:232-240 | succeeds exactly for a number (not NaN) and returns it unchanged |
| Util.SanitizePort | src/util.js:241-253 | succeeds exactly for a number in 1..65535 and returns it unchanged |
| Xorshift32.XorshiftNonzero | src/rand.js:7-16 | the xorshift step maps zero to zero and only zero to zero |
| Rand.Lcg | src/rand.js:3-6 | the LCG step stays in 32 bits |
| Rand.LcgRoundTrip | src/rand.js:3-6 | the LCG step has an inverse on 32-bit values |
| Rand.LcgInjective | src/rand.js:3-6 | two 32-bit seeds with the same successor are equal |
| Rand.MwcBounds | src/rand.js:7-16 | the multiply-with-carry step stays in 32 bits and maps a nonzero seed to a nonzero seed |
| Rand.MwcZero | src/rand.js:7-16 | the multiply-with-carry step fixes zero, which is why rand2 reseeds on zero |
| Rand.Output | src/rand.js:7-16 | rand2's output is a signed 16-bit value |
| Rand.Prng.constructor | src/rand.js:18-23 | the seeds start as pid XOR time (as a signed 32-bit value), time, 0 and pid XOR the xorshift reseed |
| Rand.Prng.Rand16 | src/rand.js:3-6 | advances only the LCG seed and returns its upper 16 bits |
| Rand.Prng.Rand2 | src/rand.js:7-16 | advances the three other seeds, reseeding a zero seed first; the output combines them into a signed 16-bit value; the rand16 seed is untouched; a seeded state stays seeded |
| Tx.Width | src/constants.js:65-85 | every field lies inside the 8920-byte buffer |
| Tx.FieldAt | src/constants.js:65-85 | every byte of the buffer belongs to some field |
| Tx.FieldsDisjoint | src/constants.js:65-85 | two different fields do not overlap |
| Tx.MinWidth | src/tx.js:87-360 | the minimum length the setter accepts is positive and at most the field's width |
| Tx.NumberOf | src/tx.js:38-322 | a numeric getter's value fits the field's width |
| Tx.TextOfArray2String | src/tx.js:82-350 | a byte getter is array2string of the field's bytes, little-endian and stripped for `weight` |
| Tx.TextOf | src/tx.js:82-350 | a hash, address or signature getter gives two digits per field byte; the weight text is at most that long |
| Tx.NumberRoundTrip | src/tx.js:42-322 | after a numeric store the getter returns the stored value reduced modulo the field width |
| Tx.StoreField | src/tx.js:87-360 | after a byte store the field holds exactly the stored bytes |
| Tx.StoreOthers | src/tx.js:42-360 | a store into one field leaves every other field unchanged |
| Tx.TextRoundTrip | src/tx.js:82-342 | after storing an array into a hash, address or signature field, the getter returns its hexadecimal text |
| Tx.TxDataFields | src/tx.js:388-390 | the transaction data is the source, destination and change addresses, then the send total, change total and fee, then the signature, in that order |
| Tx.Crc16Of | src/tx.js:367-374 | the CRC stays in 16 bits |
| Tx.CrcOutsideData | src/tx.js:135-138 | writing the CRC or trailer field leaves the checksummed bytes unchanged |
| Tx.CrcSeal | src/tx.js:367-382 | storing the computed CRC into the crc16 field makes crc16test succeed |
| Tx.JsonShape | src/tx.js:416-444 | the JSON carries the transfer fields exactly for OP_TX, and otherwise carries `data`, which is getTxData |
| Tx.JsonOf | src/tx.js:416-444 | the JSON carries exactly one of the transfer members and `data`, and `data` is TRANLEN bytes |
| Tx.Tx.constructor | src/tx.js:28-31 | a fresh buffer of 8920 zero bytes |
| Tx.Tx.SetNumber | src/tx.js:56-307 | fails and leaves the buffer unchanged exactly for NaN; otherwise writes the value modulo the field width, little-endian, into that field only |
| Tx.Tx.SetBigUint64 | src/tx.js:42-322 | writes the value modulo 2^64 little-endian into the 8-byte field only |
| Tx.Tx.SetArray | src/tx.js:87-360 | fails (buffer unchanged) exactly when the sanitiser rejects; otherwise splices the accepted bytes in at the field's pointer |
| Tx.Tx.Crc16Compute | src/tx.js:367-374 | the loop's result is the table-driven CRC of the bytes before the crc16 field |
| Tx.Tx.Crc16Test | src/tx.js:379-382 | true exactly when the stored crc16 equals the computed CRC |
| Tx.Tx.GetTxData | src/tx.js:388-390 | a fresh copy of the TRANLEN bytes that start at the source address |
| BlockLayout.Clamp | src/blockchain.js:966-970 | a subarray bound (negative counts from the end) is clamped into the array |
| BlockLayout.Subarray | src/blockchain.js:966-970 | a subarray is a valid view of the same buffer, no longer than the original |
| BlockLayout.SubarrayContents | src/blockchain.js:966-970 | a subarray's contents are the matching slice of the original view |
| BlockLayout.ViewOf | src/blockchain.js:22-28 | creating a view succeeds exactly when it fits the buffer, and it then has the requested length |
| BlockLayout.ReadLE | src/blockchain.js:53-56 | a little-endian read of w bytes is below 256^w |
| BlockLayout.LEntryLayout | src/blockchain.js:102-128 | the address runs up to the balance, the tag is the address's last 12 bytes, and the balance ends the 2216-byte entry |
| BlockLayout.EntryAddress | src/blockchain.js:39-41 | the address text is two digits per address byte |
| BlockLayout.EntryTag | src/blockchain.js:72-75 | the tag text is two digits per tag byte |
| BlockLayout.EntryBalance | src/blockchain.js:53-56 | the balance is a 64-bit value |
| BlockLayout.TagInAddress | src/blockchain.js:39-79 | the tag text is the tail of the address text |
| BlockLayout.BalanceRoundTrip | src/blockchain.js:53-61 | after the intended balance store, the getter returns the value mod 2^64, and the address and tag are unchanged |
| BlockLayout.BalanceAsWrittenMisses | src/blockchain.js:58-61 | for an entry at byte offset 8 or more, the setter as written leaves the entry's balance unchanged |
| BlockLayout.BalanceAsWrittenCounterexample | src/blockchain.js:58-61 | such an entry, set to its balance plus one, still reads the old balance |
| BlockLayout.AddressRoundTrip | src/blockchain.js:39-46 | after an address store, the getter returns the stored bytes' text, the tag is the stored bytes' tail, and the balance is unchanged |
| BlockLayout.TagRoundTrip | src/blockchain.js:72-79 | after a tag store, the tag getter returns its text, the untagged part of the address and the balance are unchanged |
| BlockLayout.LEntry.constructor | src/blockchain.js:22-28 | an entry over a given buffer and offset |
| BlockLayout.LEntry.Empty | src/blockchain.js:22-28 | with no arguments, a fresh zeroed 2216-byte buffer at offset 0 |
| BlockLayout.LEntry.SetAddress | src/blockchain.js:43-46 | fails (unchanged) exactly when the sanitiser rejects; otherwise the entry is the old entry with the address bytes replaced |
| BlockLayout.LEntry.SetTag | src/blockchain.js:76-79 | fails (unchanged) exactly when the sanitiser rejects; otherwise the entry is the old entry with the tag bytes replaced |
| BlockLayout.LEntry.SetBalanceAsWritten | src/blockchain.js:58-61 | the buffer-absolute write of the source |
| BlockLayout.LEntry.SetBalance | src/blockchain.js:58-61 | the intended write: the entry's balance becomes the value mod 2^64 |
| BlockLayout.EntryLayout | src/blockchain.js:281-351 | the TXEntry fields are contiguous from 0 to 8824 |
| BlockLayout.EntryMatchesTx | src/blockchain.js:281-351 | each TXEntry field sits at the Tx pointer minus the source-address pointer, with the same width; the id follows the signed data |
| BlockLayout.EntryText | src/blockchain.js:152-238 | a text getter gives two digits per field byte |
| BlockLayout.EntryTagOf | src/blockchain.js:152-238 | an address's tag text is two digits per tag byte |
| BlockLayout.EntryAmount | src/blockchain.js:152-238 | an amount is a 64-bit value |
| BlockLayout.EntryAmountInWindow | src/blockchain.js:152-238 | an amount is read little-endian from the entry's own bytes |
| BlockLayout.TrailerLayout | src/blockchain.js:474-559 | the trailer fields are contiguous from 0 to 160 |
| BlockLayout.TrailerHash | src/blockchain.js:375-442 | a hash getter's text is 64 digits when present |
| BlockLayout.TrailerNumber | src/blockchain.js:375-442 | a numeric getter's value fits the field's width |
| BlockLayout.TrailerHashText | src/blockchain.js:375-442 | a hash getter is array2string of the field's bytes |
| BlockLayout.TrailerReaders | src/blockchain.js:375-661 | a getter is absent exactly when the view or buffer is too short; on a full trailer it reads the field's own bytes |
| BlockLayout.BlockTrailerAt | src/blockchain.js:366-370 | a trailer view exists exactly when 160 bytes fit at the offset |
| BlockLayout.TfileOf | src/blockchain.js:1034-1039 | over an `ArrayBuffer`, the length is cut down to a multiple of 160, and creation succeeds exactly when that fits the buffer |
| BlockLayout.TfileTrailerAsWritten | src/blockchain.js:1045-1047 | `trailer(index)` as written: a trailer view of the same buffer at position 160·index |
| BlockLayout.TfileTrailer | src/blockchain.js:1045-1047 | the intended `trailer(index)`: a trailer view of the same buffer at the Tfile's byte offset plus 160·index |
| BlockLayout.TfileTrailers | src/blockchain.js:1045-1047 | for a Tfile at any byte offset, the intended `trailer(index)` is the index-th 160-byte record for each index below the trailer count, and no other index gives a trailer inside the Tfile |
| BlockLayout.TfileAsWrittenAtStart | src/blockchain.js:1045-1047 | for a Tfile at byte offset 0, `trailer(index)` as written and as intended agree |
| BlockLayout.TfileAsWrittenMisses | src/blockchain.js:1045-1047 | for a Tfile at byte offset 160 (index + 1) or more, `trailer(index)` as written ends before the Tfile begins |
| BlockLayout.TfileAsWrittenCounterexample | src/blockchain.js:1045-1047 | on `new Tfile(ab, 160, 320)`, `trailer(0)` as written reads bytes before the Tfile, while the intended one reads the Tfile's first record |
| Blocks.Hdrlen | src/blockchain.js:739-744 | the header length is a 32-bit value when present |
| Blocks.BlockHash | src/blockchain.js:816-901 | the `phash`, `mroot`, `nonce` and `bhash` getters: 64 digits when present, and present on every block holding a full trailer |
| Blocks.BlockNumber | src/blockchain.js:816-901 | the `bnum`, `mfee`, `tcount`, `time0`, `difficulty` and `stime` getters: the value fits the field's width, and is present on every block holding a full trailer |
| Blocks.TxCount | src/blockchain.js:711-719 | the `tcount` the amount loop counts to is a 32-bit value (0 when absent) |
| Blocks.TrailerView | src/blockchain.js:816-901 | the trailer is a view of the same buffer |
| Blocks.TypeOf | src/blockchain.js:685-694 | invalid without a header length or block number; pseudo for header length 4; otherwise genesis, neogenesis or normal by block number 0, multiple of 256, or other |
| Blocks.TrailerGetters | src/blockchain.js:816-901 | on a block with a full trailer, each trailer getter reads the last 160 bytes, and agrees with the same getter on the trailer copy |
| Blocks.FullBlockHasType | src/blockchain.js:685-694 | a block holding a full trailer is never invalid |
| Blocks.ShortBlockHasNoHash | src/blockchain.js:816-901 | a block shorter than a trailer has no block hash |
| Blocks.TrailerCopy | src/blockchain.js:809-811 | the trailer is a copy whose own buffer is the trailer bytes |
| Blocks.StrideSum | src/blockchain.js:709-733 | summing 64-bit values fails only with the out-of-range error |
| Blocks.AmountOf | src/blockchain.js:709-733 | the amount is absent exactly when the block is neither normal nor (neo)genesis |
| Blocks.SumCounted | src/blockchain.js:711-719 | the counted loop's result is the stride sum over tcount entries |
| Blocks.SumBelow | src/blockchain.js:720-729 | the bounded loop's result is the stride sum over the entries below hdrlen |
| Blocks.Amount | src/blockchain.js:709-733 | the getter's loops compute `AmountOf` |
| Blocks.Windows | src/blockchain.js:775-804 | the k-th window is a view of the block's buffer at start + k * length |
| Blocks.WindowsBelow | src/blockchain.js:775-804 | the window loop computes `Windows` for the entries below its limit |
| Blocks.TransactionsOf | src/blockchain.js:775-786 | a block that is not normal has no transactions |
| Blocks.Transactions | src/blockchain.js:775-786 | the getter's loop computes `TransactionsOf` |
| Blocks.LedgerOf | src/blockchain.js:792-804 | a block that is not (neo)genesis has no ledger |
| Blocks.Ledger | src/blockchain.js:792-804 | the getter's loop computes `LedgerOf` |
| Blocks.TransactionsAreEntries | src/blockchain.js:775-786 | a normal block has tcount transaction entries, the k-th at hdrlen + 8824 k |
| Blocks.LedgerAreEntries | src/blockchain.js:792-804 | the ledger entries sit at 4 + 2216 k, and a header of 4 + 2216 m bytes holds m of them |
| Blocks.NormalAmount | src/blockchain.js:709-733 | a normal block's amount is the sum of its transactions' send totals |
| Blocks.GenesisAmount | src/blockchain.js:709-733 | for a header of 4 + 2216·m bytes, a (neo)genesis block's amount is the sum of its ledger balances |
| Blocks.VerifyOwnHash | src/blockchain.js:966-970 | without an argument, verifyBlockHash holds exactly when SHA-256 of the block minus its last 32 bytes equals those 32 bytes |
| Blocks.VerifyBlockHash | src/blockchain.js:966-970 | verification succeeds only if the expected hash is 64 digits: the given one, or else the block's own `bhash`, present only on a block holding a full trailer |
| Blocks.HexInjective | src/blockchain.js:966-970 | equal hexadecimal texts come from equal bytes, so comparing texts compares digests |
| Blocks.HaikuAsWrittenNull | src/blockchain.js:700-702 | the getter as written returns null for every block |
| Blocks.HaikuAsWritten | src/blockchain.js:700-702 | the getter as written never throws |
| Blocks.NonceOfTrailer | src/blockchain.js:816-901 | the nonce getter of a full block is the 64-digit text of the trailer's nonce bytes |
| Blocks.HaikuOfNonce | src/blockchain.js:700-702 | for a block holding a full trailer, the intended getter gives a haiku exactly for a normal block, and then it is the expansion of the trailer's nonce bytes, which differs from the as-written null |
| Blocks.HaikuOf | src/blockchain.js:700-702 | the intended getter gives a haiku only for a normal block, and throws only for a normal block without a nonce |
| Trigg.PairValue | src/trigg.js:405-410 | two hexadecimal digits read as one byte value |
| Trigg.Indices | src/trigg.js:401-410 | the 32 dictionary indices of a nonce, text or bytes |
| Trigg.AppendWord | src/trigg.js:412-413 | the word is appended, followed by one space unless the text now ends in a line break |
| Trigg.StripBackspaces | src/trigg.js:416 | removing each character-backspace pair never lengthens the text |
| Trigg.ExpandOf | src/trigg.js:394-416 | fails exactly for undefined or null; returns null exactly for any other value that is not a 64-character string or a 32-byte Uint8Array |
| Trigg.Expand | src/trigg.js:394-416 | the method computes `ExpandOf` over the 256-word dictionary |
| Trigg.ExpandWith | src/trigg.js:394-416 | the method computes `ExpandOf` over any 256-word dictionary |
| Trigg.Haiku | src/trigg.js:401-414 | the word loop computes the recursive definition from the window's start |
| Trigg.Append | src/trigg.js:412-413 | one loop step's appends are `AppendWord` |
| Trigg.ReadIndex | src/trigg.js:405-410 | reading one index agrees with `Indices` |
| Trigg.WordsAgree | src/trigg.js:401-414 | nonces that agree on the window expand alike |
| Trigg.TypedIndices | src/trigg.js:401-410 | an array nonce's indices are its bytes |
| Trigg.WindowOnly | src/trigg.js:401-414 | only the 16-byte window chosen by `shadow` affects the haiku |
| Trigg.LeadingZero | src/trigg.js:411 | a zero index first in the window gives the empty haiku |
| Trigg.HexIndices | src/trigg.js:405-410 | a 64-digit string's indices are its digit pairs |
| Trigg.HexNonce | src/trigg.js:394-416 | a hexadecimal string nonce expands like the bytes it stands for |
| Trigg.HexTextNonce | src/trigg.js:394-416 | the text of 32 bytes expands like the bytes, and always to a haiku |
| Trigg.SpaceAfterWord | src/trigg.js:412-413 | a word ending in a line break gets no space, and any other word gets one |
| Trigg.NoBackspaceUnchanged | src/trigg.js:416 | text without backspaces is unchanged |
| Trigg.BackspaceJoins | src/trigg.js:416 | a word, a space and a backspace join the word to what follows |
| Trigg.NoBackspacePrefix | src/trigg.js:416 | a prefix without backspaces is kept |
| Trigg.LineBreakKeepsBackspace | src/trigg.js:416 | a line break is not removed by a following backspace, so the backspace stays |
| WotsSpec.Parameters | src/wots.js:8-18 | 64 message digits, 67 chains, 2144 signature bytes, 2 checksum bytes; the public seed at 2144 and the address at 2176 of a 2208-byte address |
| WotsSpec.WordsRoundTrip | src/wots.js:44-49 | words to little-endian bytes and back is the identity |
| WotsSpec.BytesRoundTrip | src/wots.js:44-49 | bytes to words and back is the identity |
| WotsSpec.PaddingIsBE | src/wots.js:36-41 | the padding block is the big-endian encoding of the padding value |
| WotsSpec.Chain | src/wots.js:108-115 | a chain value is 32 bytes |
| WotsSpec.ChainNext | src/wots.js:108-115 | one more step applies thashf with the chain index set to the current position |
| WotsSpec.ChainCompose | src/wots.js:108-115 | a steps from s, then b steps from s + a, equal a + b steps from s |
| WotsSpec.ChainComplete | src/wots.js:108-115 | completing a partial chain from its position reaches the full chain's end |
| WotsSpec.ChainStops | src/wots.js:108-115 | a chain takes no step at position 16 or beyond, so asking for more steps than remain gives the same value as asking for exactly those |
| WotsSpec.ThashFIgnoresWord7 | src/wots.js:85-105 | thashf does not depend on the key-and-mask word it overwrites |
| WotsSpec.ChainIgnoresWords67 | src/wots.js:108-115 | a chain does not depend on the incoming hash-index and key-and-mask words |
| WotsSpec.ChainDependsOnWords04 | src/wots.js:108-115 | chains with equal words 0-4 and the same chain number agree |
| WotsSpec.BaseW | src/wots.js:119-129 | the digits are outlen values below 16 |
| WotsSpec.BaseWBytes | src/wots.js:119-129 | each pair of digits is one input byte, high nibble first |
| WotsSpec.CsumBound | src/wots.js:132-143 | the checksum is at most 15 per digit |
| WotsSpec.ChecksumValue | src/wots.js:132-143 | the checksum fits 960, survives its 2-byte encoding, and its three digits read back to it |
| WotsSpec.ChainLengths | src/wots.js:146-149 | 67 digits below 16, the first 64 being the message digits |
| WotsSpec.RndStreamPrefix | src/wots.js:71-82 | a shorter stream is a prefix of a longer one |
| WotsSpec.PkFromSig | src/wots.js:235-265 | fails exactly for a signature, public seed or address of the wrong length |
| WotsSpec.Verify | src/wots.js:337-352 | fails exactly for a signature or address of the wrong length |
| WotsSpec.GeneratedLayout | src/wots.js:171-207 | a generated address is the public key, then the public seed, then the tagged address words |
| WotsSpec.GeneratedTagText | src/wots.js:171-207 | a generated address's tag is DEFAULT_TAG |
| WotsSpec.SignatureChunk | src/wots.js:282-318 | chunk i of a signature is the private key's chain i advanced by the message digit |
| WotsSpec.SignedKey | src/wots.js:235-318 | recovering from a signature made with the generated key gives that key's public key |
| WotsSpec.SignThenVerify | src/wots.js:171-352 | pkFromSig of such a signature succeeds with the public key, and verify returns true |
| Wots.Ull2Bytes | src/wots.js:36-41 | writes the big-endian encoding of the input over outlen bytes and nothing else |
| Wots.Addr2Bytes | src/wots.js:44-49 | the 32 bytes are each of the 8 words as four big-endian bytes |
| Wots.Prf | src/wots.js:52-58 | writes the PRF of key and input at the offset and nothing else |
| Wots.ExpandSecret | src/wots.js:61-68 | writes the 67 private-key chunks at the start of the buffer |
| Wots.RndBytes | src/wots.js:71-82 | fails without a seed and writes nothing; otherwise writes the SHA-512 stream's first outlen bytes |
| Wots.ThashF | src/wots.js:85-105 | writes thashf of the old chunk at the offset, and sets the key-and-mask word to 1 |
| Wots.GenerateChain | src/wots.js:108-115 | writes the chain value and leaves the address words as the chain left them |
| Wots.BaseW | src/wots.js:119-129 | writes the base-16 digits at the offset |
| Wots.WotsChecksum | src/wots.js:132-143 | writes the three checksum digits at the offset |
| Wots.ChainLengths | src/wots.js:146-149 | the lengths are the message digits and their checksum |
| Wots.ChainEach | src/wots.js:197-200 | the chain loop shared by generate, pkFromSig and sign: chunk i of the output is chain i of the source advanced from start i by count i steps, and the address words end as the last chain left them |
| Wots.Generate | src/wots.js:171-207 | the secret is the first 32 bytes of the rndBytes stream of the seed (or of the entropy when no seed is given), and the address is the generated address of that secret |
| Wots.Sign | src/wots.js:282-318 | the signature equals `SignatureOf` |
| Wots.PkFromSig | src/wots.js:235-265 | succeeds or fails as `WotsSpec.PkFromSig`, with the same key or error |
| Wots.Verify | src/wots.js:337-352 | the result equals `WotsSpec.Verify` |

## Left out

- SHA-256 and SHA-512 (Node's `crypto`) are fields of a `Hashes` value; only their output lengths are known to the model.
- `randomBytes` is the `entropy` parameter of `Wots.Generate`.
- The module-level scratch buffers of wots.js are fresh arrays in each call. `cleanupGlobals` is not modelled.
- The public seed that generate and sign read through a view into the key buffer is a snapshot. The chain loop does not write those bytes.
- `addr32` is an array of 8 words and its byte form is their little-endian encoding. The source builds it over the whole `ArrayBuffer` of the address; in the model the 32 address bytes are its only source.
- Wots.Sign: requires a 32-byte secret, the documented precondition that the secret was made by `Wots.generate()` (src/wots.js:269-270). The source itself accepts any secret up to 64 bytes: a shorter one leaves stale bytes of the scratch PRF buffer in place, and only one longer than 64 bytes throws a `RangeError`; those cases are not modelled.
- `sanitizeIPv4` is not modelled. It relies on Node's `net.isIPv4`.
- `radixStringLength`, the radices other than 16 in `array2string`, and TypedArrays other than Uint8Array (a Uint16Array prints in 4-digit groups) are not modelled. The core only calls it with radix 16 on byte arrays.
- `LOG` (console output and levels) is not modelled.
- `Block.maddr`, `Block.mreward` and the `toJSON` of Block, LEntry, TXEntry and BlockTrailer are not modelled. They only gather the getters above.
- Rand.Prng.constructor: the process id and the start time are parameters.
- The xorshift step is not proved to be a permutation. Only that it maps nonzero to nonzero is proved.
- The CRC-16 table is not proved equal to the CCITT polynomial it comes from.
- Error results carry short texts instead of the library's full messages.
- Tx.Tx.SetBigUint64: BigInt conversion errors are not modelled; the value is an integer.
- Tx.Tx.SetNumber: `sanitizeNumber` accepts any number. Non-integer numbers and the 2^53 precision of JavaScript numbers are not modelled; the value is an integer or NaN.
- BlockLayout.LEntry.constructor: the `RangeError` for a buffer too short for an entry is a precondition.
- `Tfile` with an undefined length is not modelled.
- BlockLayout.TfileOf: only an `ArrayBuffer` argument is modelled. Given a TypedArray, `super(bytes, offset, length)` copies the whole array and ignores `offset` and `length`, so no rounding to a multiple of 160 happens; that case is not covered.
- Trigg.ExpandOf: strings are sequences of Unicode scalar values, not UTF-16 code units, so the `nonce.length !== 64` test (src/trigg.js:396) counts an astral character as one where JavaScript counts two. For example, "😀" followed by 62 zeros is 64 code units, so the source accepts it and returns the empty haiku (its first pair does not parse); the model sees 63 characters and returns null.
- Trigg.ExpandOf: nonces that are numbers, plain objects or Buffers are not represented; the source returns null for them, as the model does for a plain Array. The dictionary's grammar flags (the second element of each entry) are not kept, since `expand` only uses the words.
- Blocks.HaikuOfNonce: the haiku lemmas are stated for any 256-word table, not the literal dictionary.
- Blocks.NormalAmount, Blocks.GenesisAmount: stated for a block that owns its buffer (byte offset 0). `amount` reads the block's own window, but `transactions` and `ledger` build their entries at buffer-absolute offsets (`new TXEntry(this.buffer, offset)`, src/blockchain.js:783 and :801), so for a block at a nonzero offset the entries are not the bytes `amount` sums. Blocks.GenesisAmount also requires a header of 4 + 2216·m bytes: the `amount` loop reads balances from offset 4 + 2208 while `offset < hdrlen` (src/blockchain.js:725-728), but the `ledger` loop starts entries at offset 4 (src/blockchain.js:797-802), so a header of 4 + 2216·m + r bytes with 0 < r ≤ 2208 holds m + 1 ledger entries and only m summed balances.
- Constants.VeName: non-integer inputs are not modelled.
- Util.IsPrivateIPv4: the address is an integer. For a non-integer number, `ip & 0xff` and `>>` first truncate it through ToInt32, which is not modelled; for every integer the Euclidean `Octet` agrees with the two's-complement `&` and `>>`.

## Findings

| source | as written | input that shows it | evidently intended | confidence | as-written member | corrected member |
|---|---|---|---|---|---|---|
| src/blockchain.js:58-61 | the balance setter writes at position 2208 of the whole buffer and ignores the entry's byte offset | an entry at byte offset 8 or more, set to its balance plus one, still reads the old balance | write at the entry's own balance field | high, not executed | BlockLayout.BalanceAsWrittenCounterexample | BlockLayout.BalanceRoundTrip |
| src/tx.js:7 | `sanitizeUint8Array` is imported from util.js, which does not export it, so every byte-array setter throws a TypeError, and so do the WOTS+ entry points that reach it (generate with a seed, sign, pkFromSig, verify); generate without a seed never calls it | a 32-byte zero array given to any of them | a length check between min and max, as `sanitizeArray` does | high, not executed | Util.SanitizerCounterexample | Util.SanitizeArray |
| src/blockchain.js:700-702 | `haiku` returns null whenever `type` is truthy, and `type` is always a non-empty string | any normal block holding a full trailer | null unless the block is normal, as `maddr` and `mreward` test (src/blockchain.js:749-769), otherwise the expansion of the nonce | medium, not executed | Blocks.HaikuAsWrittenNull | Blocks.HaikuOfNonce |
| src/blockchain.js:1045-1047 | `trailer(index)` reads at buffer position 160 index and ignores the Tfile's own byte offset | `new Tfile(ab, 160, 320)`: `trailer(0)` reads bytes 0 to 160 of `ab`, before the Tfile | read at byteOffset + 160 index | high, not executed | BlockLayout.TfileAsWrittenCounterexample | BlockLayout.TfileTrailers |
