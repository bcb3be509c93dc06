/**
 * The pure helpers of the library's utility module: private-address
 * classification and dotted-decimal printing of IPv4 addresses, conversion
 * of byte arrays to hexadecimal text and back, and the validation of
 * numbers, ports and byte-array lengths.
 */
module Util {
  import opened Bytes

  // ---------------------------------------------------------------------
  // IPv4 addresses. An address travels as a 32-bit integer whose least
  // significant byte is the first octet of the dotted form.

  /** Byte `k` of the two's-complement bit pattern of `ip` (byte 0 is the least significant). */
  function Octet(ip: int, k: nat): byte
  {
    (ip / Pow256(k)) % 256
  }

  /**
   * Classification of a private address by its first two octets:
   * 1 for 0/8, 127/8 and 10/8, 2 for 172.16/12, 3 for 192.168/16,
   * 4 for the link-local 169.254/16, and 0 for a public address.
   */
  function IsPrivateIPv4(ip: int): (r: int)
    ensures 0 <= r <= 4
  {
    var a := Octet(ip, 0);
    var b := Octet(ip, 1);
    if a == 0 || a == 127 then 1
    else if a == 10 then 1
    else if a == 172 && b >= 16 && b <= 31 then 2
    else if a == 192 && b == 168 then 3
    else if a == 169 && b == 254 then 4
    else 0
  }

  /** The address as a number in dotted order: the first octet is the most significant. */
  function DottedValue(ip: int): (r: nat)
    ensures r < TWO_TO_32
  {
    Octet(ip, 0) * 0x100_0000 + Octet(ip, 1) * 0x1_0000 + Octet(ip, 2) * 0x100 + Octet(ip, 3)
  }

  /** Membership in the CIDR block `a.b.0.0/len`, for a prefix length of at most 16 bits. */
  predicate InBlock(ip: int, a: byte, b: byte, len: nat)
    requires len <= 16
  {
    DottedValue(ip) / Pow2(32 - len) == (a * 0x100_0000 + b * 0x1_0000) / Pow2(32 - len)
  }

  lemma Pow2Values()
    ensures Pow2(16) == 0x1_0000 && Pow2(20) == 0x10_0000 && Pow2(24) == 0x100_0000
  {
    assert Pow2(8) == 256;
    assert Pow2(16) == 0x1_0000 by { Pow2Add(8, 8); }
    assert Pow2(20) == 0x10_0000 by { Pow2Add(16, 4); }
    assert Pow2(24) == 0x100_0000 by { Pow2Add(16, 8); }
  }

  lemma {:induction false} Pow2Add(m: nat, n: nat)
    ensures Pow2(m + n) == Pow2(m) * Pow2(n)
  {
    if n > 0 {
      Pow2Add(m, n - 1);
      assert Pow2(m + n) == 2 * Pow2(m + n - 1);
    }
  }

  /** The three prefixes of the dotted value that the classification needs. */
  lemma DottedPrefixes(ip: int)
    ensures DottedValue(ip) / 0x100_0000 == Octet(ip, 0)
    ensures DottedValue(ip) / 0x10_0000 == Octet(ip, 0) * 16 + Octet(ip, 1) / 16
    ensures DottedValue(ip) / 0x1_0000 == Octet(ip, 0) * 256 + Octet(ip, 1)
  {
    var a: int, b: int, c: int, d: int := Octet(ip, 0), Octet(ip, 1), Octet(ip, 2), Octet(ip, 3);
    var v := DottedValue(ip);
    var low := c * 0x100 + d;
    assert low < 0x1_0000;
    DivUnique(v, 0x1_0000, a * 256 + b, low);
    DivUnique(v, 0x100_0000, a, b * 0x1_0000 + low);
    DivUnique(v, 0x10_0000, a * 16 + b / 16, (b % 16) * 0x1_0000 + low);
  }

  /** The /8 blocks are decided by the first octet. */
  lemma Blocks8(ip: int, a: byte)
    ensures InBlock(ip, a, 0, 8) <==> Octet(ip, 0) == a
  {
    Pow2Values();
    DottedPrefixes(ip);
  }

  /** 172.16.0.0/12 holds the addresses with first octet 172 and second octet in [16, 31]. */
  lemma Block12(ip: int)
    ensures InBlock(ip, 172, 16, 12) <==> Octet(ip, 0) == 172 && 16 <= Octet(ip, 1) <= 31
  {
    Pow2Values();
    DottedPrefixes(ip);
    var a: int, b: int := Octet(ip, 0), Octet(ip, 1);
    assert a * 16 + b / 16 == 172 * 16 + 1 <==> a == 172 && b / 16 == 1;
  }

  /** A /16 block is decided by the first two octets. */
  lemma Blocks16(ip: int, a: byte, b: byte)
    ensures InBlock(ip, a, b, 16) <==> Octet(ip, 0) == a && Octet(ip, 1) == b
  {
    Pow2Values();
    DottedPrefixes(ip);
    var x: int, y: int := Octet(ip, 0), Octet(ip, 1);
    assert x * 256 + y == a * 256 + b <==> x == a && y == b;
  }

  /**
   * The classification agrees with the reserved IPv4 blocks: class 1 is
   * 0.0.0.0/8, 127.0.0.0/8 and 10.0.0.0/8, class 2 is 172.16.0.0/12,
   * class 3 is 192.168.0.0/16 and class 4 is 169.254.0.0/16.
   */
  lemma PrivateBlocks(ip: int)
    ensures IsPrivateIPv4(ip) == 1 <==> InBlock(ip, 0, 0, 8) || InBlock(ip, 127, 0, 8) || InBlock(ip, 10, 0, 8)
    ensures IsPrivateIPv4(ip) == 2 <==> InBlock(ip, 172, 16, 12)
    ensures IsPrivateIPv4(ip) == 3 <==> InBlock(ip, 192, 168, 16)
    ensures IsPrivateIPv4(ip) == 4 <==> InBlock(ip, 169, 254, 16)
  {
    Blocks8(ip, 0);
    Blocks8(ip, 127);
    Blocks8(ip, 10);
    Block12(ip);
    Blocks16(ip, 192, 168);
    Blocks16(ip, 169, 254);
  }

  /** Decimal digit `d` as a character. */
  function DigitChar(d: nat): char
    requires d < 10
  {
    "0123456789"[d]
  }

  /** `Number.prototype.toString()` of a non-negative integer: its shortest decimal form. */
  function Decimal(n: nat): (r: string)
    ensures |r| >= 1
    decreases n
  {
    if n < 10 then [DigitChar(n)] else Decimal(n / 10) + [DigitChar(n % 10)]
  }

  /** Dotted-decimal text of an address: the bytes from least to most significant. */
  function Ntoa(ip: int): (r: string)
    ensures |r| >= 7 && |r| > |Decimal(Octet(ip, 0))|
    ensures r[..|Decimal(Octet(ip, 0))|] == Decimal(Octet(ip, 0)) && r[|Decimal(Octet(ip, 0))|] == '.'
  {
    Decimal(Octet(ip, 0)) + "." + Decimal(Octet(ip, 1)) + "." + Decimal(Octet(ip, 2)) + "." + Decimal(Octet(ip, 3))
  }

  predicate IsDigit(c: char) { '0' <= c <= '9' }

  /** The value of a string of decimal digits. */
  function DecValue(s: string): nat
    requires forall k :: 0 <= k < |s| ==> IsDigit(s[k])
  {
    if s == [] then 0
    else
      assert IsDigit(s[|s| - 1]);
      10 * DecValue(s[..|s| - 1]) + (s[|s| - 1] as int - '0' as int)
  }

  /** Splits `s` at every '.'. */
  function SplitDot(s: string): (r: seq<string>)
    ensures |r| >= 1
  {
    if s == [] then [[]]
    else if s[0] == '.' then [[]] + SplitDot(s[1..])
    else var rest := SplitDot(s[1..]); [[s[0]] + rest[0]] + rest[1..]
  }

  /** A decimal octet: one or more digits worth at most 255. */
  predicate IsOctetText(s: string)
  {
    |s| >= 1 && (forall k :: 0 <= k < |s| ==> IsDigit(s[k])) && DecValue(s) < 256
  }

  /**
   * Reference reading of the text that `Ntoa` prints: four decimal octets
   * separated by dots, the first being the least significant byte.
   */
  function ParseDotted(s: string): (r: Option<uint32>)
  {
    var parts := SplitDot(s);
    if |parts| == 4 && IsOctetText(parts[0]) && IsOctetText(parts[1]) && IsOctetText(parts[2]) && IsOctetText(parts[3])
    then Some(DecValue(parts[0]) + 0x100 * DecValue(parts[1]) + 0x1_0000 * DecValue(parts[2]) + 0x100_0000 * DecValue(parts[3]))
    else None
  }

  lemma {:induction false} DecimalDigits(n: nat)
    ensures forall k :: 0 <= k < |Decimal(n)| ==> IsDigit(Decimal(n)[k])
    ensures DecValue(Decimal(n)) == n
    decreases n
  {
    if n >= 10 {
      DecimalDigits(n / 10);
      var s := Decimal(n);
      assert s[..|s| - 1] == Decimal(n / 10);
    }
  }

  lemma {:induction false} SplitDotNoDot(a: string, rest: string)
    requires forall k :: 0 <= k < |a| ==> a[k] != '.'
    ensures SplitDot(a + "." + rest) == [a] + SplitDot(rest)
    ensures SplitDot(a) == [a]
  {
    if a != [] {
      SplitDotNoDot(a[1..], rest);
      assert (a + "." + rest)[1..] == a[1..] + "." + rest;
      assert [a[0]] + a[1..] == a;
    }
  }

  /** Four dot-free parts joined by dots split back into the four parts. */
  lemma SplitFour(a: string, b: string, c: string, d: string)
    requires forall k :: 0 <= k < |a| ==> a[k] != '.'
    requires forall k :: 0 <= k < |b| ==> b[k] != '.'
    requires forall k :: 0 <= k < |c| ==> c[k] != '.'
    requires forall k :: 0 <= k < |d| ==> d[k] != '.'
    ensures SplitDot(a + "." + b + "." + c + "." + d) == [a, b, c, d]
  {
    var t3 := c + "." + d;
    var t2 := b + "." + t3;
    var t1 := a + "." + t2;
    SplitDotNoDot(d, "");
    SplitDotNoDot(c, d);
    assert SplitDot(t3) == [c, d];
    SplitDotNoDot(b, t3);
    assert SplitDot(t2) == [b, c, d];
    SplitDotNoDot(a, t2);
    assert SplitDot(t1) == [a, b, c, d];
    JoinAssoc(a, b, c, d);
  }

  lemma JoinAssoc(a: string, b: string, c: string, d: string)
    ensures a + "." + b + "." + c + "." + d == a + "." + (b + "." + (c + "." + d))
  {
  }

  /** Byte `k` of an unsigned 32-bit value, peeled one division at a time. */
  lemma OctetsOf(ip: uint32)
    ensures ip == Octet(ip, 0) + 0x100 * Octet(ip, 1) + 0x1_0000 * Octet(ip, 2) + 0x100_0000 * Octet(ip, 3)
  {
    var q1 := ip / 256;
    var q2 := q1 / 256;
    var q3 := q2 / 256;
    DivDiv(ip, 256);
    assert Pow256(2) == 256 * 256;
    DivDiv(ip, 256 * 256);
    assert Pow256(3) == 256 * 256 * 256;
    assert q3 < 256;
  }

  /** Printing an address and reading it back gives the address. */
  lemma NtoaParse(ip: uint32)
    ensures ParseDotted(Ntoa(ip)) == Some(ip)
  {
    var o0, o1, o2, o3 := Octet(ip, 0), Octet(ip, 1), Octet(ip, 2), Octet(ip, 3);
    NtoaParts(ip);
    OctetText(o0);
    OctetText(o1);
    OctetText(o2);
    OctetText(o3);
    OctetsOf(ip);
  }

  lemma OctetText(n: byte)
    ensures IsOctetText(Decimal(n)) && DecValue(Decimal(n)) == n
  {
    DecimalDigits(n);
  }

  lemma NtoaParts(ip: int)
    ensures SplitDot(Ntoa(ip)) == [Decimal(Octet(ip, 0)), Decimal(Octet(ip, 1)), Decimal(Octet(ip, 2)), Decimal(Octet(ip, 3))]
  {
    var a, b, c, d := Decimal(Octet(ip, 0)), Decimal(Octet(ip, 1)), Decimal(Octet(ip, 2)), Decimal(Octet(ip, 3));
    DecimalDigits(Octet(ip, 0));
    DecimalDigits(Octet(ip, 1));
    DecimalDigits(Octet(ip, 2));
    DecimalDigits(Octet(ip, 3));
    SplitFour(a, b, c, d);
  }

  // ---------------------------------------------------------------------
  // Hexadecimal text of bytes.

  const HEX_DIGITS: string := "0123456789abcdef"

  /** Lower-case hexadecimal digit of a nibble. */
  function HexChar(d: nat): char
    requires d < 16
  {
    HEX_DIGITS[d]
  }

  /** `b.toString(16)`: one digit below 16, two otherwise. */
  function ToString16(b: byte): (r: string)
    ensures 1 <= |r| <= 2
  {
    if b < 16 then [HexChar(b)] else [HexChar(b / 16), HexChar(b % 16)]
  }

  /** `String.prototype.padStart(n, c)`. */
  function PadStart(s: string, n: nat, c: char): (r: string)
    ensures |r| == if |s| >= n then |s| else n
  {
    if |s| >= n then s else seq(n - |s|, _ => c) + s
  }

  /** Reference encoding: two lower-case hexadecimal digits per byte, high nibble first. */
  function Hex(b: seq<byte>): (r: string)
    ensures |r| == 2 * |b|
  {
    if b == [] then [] else [HexChar(b[0] / 16), HexChar(b[0] % 16)] + Hex(b[1..])
  }

  lemma {:induction false} HexAppend(a: seq<byte>, b: seq<byte>)
    ensures Hex(a + b) == Hex(a) + Hex(b)
  {
    if a != [] {
      assert (a + b)[1..] == a[1..] + b;
      HexAppend(a[1..], b);
    } else {
      assert a + b == b;
    }
  }

  function Reverse<T>(s: seq<T>): (r: seq<T>)
    ensures |r| == |s|
    ensures forall k :: 0 <= k < |s| ==> r[k] == s[|s| - 1 - k]
  {
    if s == [] then [] else Reverse(s[1..]) + [s[0]]
  }

  lemma {:induction false} ReverseReverse<T>(s: seq<T>)
    ensures Reverse(Reverse(s)) == s
  {
    assert |Reverse(Reverse(s))| == |s|;
    assert forall k :: 0 <= k < |s| ==> Reverse(Reverse(s))[k] == s[k];
  }

  /** One step of the `array2string` fold: the padded digits of `b` replace an accumulator of "00". */
  function FoldStep(acc: string, b: byte): string
  {
    var curr := PadStart(ToString16(b), 2, '0');
    if acc == "00" then curr else acc + curr
  }

  /** The left fold `reduce(FoldStep, '')` over the bytes. */
  function FoldHex(b: seq<byte>): string
  {
    if b == [] then "" else FoldStep(FoldHex(b[..|b| - 1]), b[|b| - 1])
  }

  /** `array2string(array, 16, le, full)` on a byte array; anything else than a TypedArray throws. */
  function Array2String(input: JsValue, le: bool, full: bool): (r: Result<string>)
    ensures r.Failure? <==> !input.Typed?
  {
    match input
    case Typed(bytes) =>
      var folded := FoldHex(if le then Reverse(bytes) else bytes);
      if full then Success(if 2 * |bytes| > |folded| then PadStart(folded, 2 * |bytes|, '0') else folded)
      else Success(StripLeadingZeros(folded))
    case _ => Failure("invalid TypedArray value")
  }

  /** `s.replace(/^0+/, '')`. */
  function StripLeadingZeros(s: string): (r: string)
    ensures |r| <= |s| && (r != [] ==> r[0] != '0')
  {
    if s != [] && s[0] == '0' then StripLeadingZeros(s[1..]) else s
  }

  function Zeros(n: nat): (r: string)
    ensures |r| == n
  {
    seq(n, _ => '0')
  }

  lemma PaddedByte(b: byte)
    ensures PadStart(ToString16(b), 2, '0') == [HexChar(b / 16), HexChar(b % 16)]
  {
  }

  lemma {:induction false} HexSnoc(b: seq<byte>, x: byte)
    ensures Hex(b + [x]) == Hex(b) + [HexChar(x / 16), HexChar(x % 16)]
  {
    if b != [] {
      assert (b + [x])[1..] == b[1..] + [x];
      HexSnoc(b[1..], x);
    } else {
      assert Hex([x]) == [HexChar(x / 16), HexChar(x % 16)] + Hex([]);
    }
  }

  /**
   * The fold yields the reference hexadecimal text minus some leading
   * zeros: the '00' collapse only ever drops a pair of zero digits at the
   * front.
   */
  lemma {:induction false} FoldHexSuffix(b: seq<byte>)
    ensures |FoldHex(b)| <= 2 * |b|
    ensures Hex(b) == Zeros(2 * |b| - |FoldHex(b)|) + FoldHex(b)
  {
    if b != [] {
      var init, x := b[..|b| - 1], b[|b| - 1];
      FoldHexSuffix(init);
      var acc := FoldHex(init);
      var pair := [HexChar(x / 16), HexChar(x % 16)];
      assert Hex(b) == Hex(init) + pair by {
        InitLast(b);
        HexSnoc(init, x);
      }
      assert FoldHex(b) == if acc == "00" then pair else acc + pair by {
        FoldStepPair(acc, x);
      }
      ZerosStep(acc, pair, 2 * |init| - |acc|);
    }
  }

  /** One fold step keeps the dropped digits a run of zeros: a collapsed "00" joins them. */
  lemma ZerosStep(acc: string, pair: string, z: nat)
    ensures acc == "00" ==> Zeros(z) + acc + pair == Zeros(z + 2) + pair
    ensures acc != "00" ==> Zeros(z) + acc + pair == Zeros(z) + (acc + pair)
  {
    if acc == "00" {
      assert Zeros(z) + acc == Zeros(z + 2);
    }
  }

  lemma FoldStepPair(acc: string, x: byte)
    ensures FoldStep(acc, x) == if acc == "00" then [HexChar(x / 16), HexChar(x % 16)] else acc + [HexChar(x / 16), HexChar(x % 16)]
  {
    PaddedByte(x);
  }

  lemma {:induction false} StripZerosPrefix(n: nat, s: string)
    ensures StripLeadingZeros(Zeros(n) + s) == StripLeadingZeros(s)
  {
    if n > 0 {
      assert (Zeros(n) + s)[0] == '0';
      assert (Zeros(n) + s)[1..] == Zeros(n - 1) + s;
      StripZerosPrefix(n - 1, s);
    } else {
      assert Zeros(n) + s == s;
    }
  }

  /**
   * With `full` set, `array2string` is exactly the reference encoding of
   * the bytes (reversed when `le` is set), two digits per byte; without it,
   * the reference encoding stripped of its leading zeros.
   */
  lemma Array2StringHex(bytes: seq<byte>, le: bool, full: bool)
    ensures full ==> Array2String(Typed(bytes), le, full) == Success(Hex(if le then Reverse(bytes) else bytes))
    ensures !full ==> Array2String(Typed(bytes), le, full) == Success(StripLeadingZeros(Hex(if le then Reverse(bytes) else bytes)))
  {
    var b := if le then Reverse(bytes) else bytes;
    FoldHexSuffix(b);
    var folded := FoldHex(b);
    assert |b| == |bytes|;
    if 2 * |b| > |folded| {
      assert PadStart(folded, 2 * |b|, '0') == Zeros(2 * |b| - |folded|) + folded;
    } else {
      assert Zeros(2 * |b| - |folded|) + folded == folded;
    }
    if !full {
      StripZerosPrefix(2 * |b| - |folded|, folded);
    }
  }

  // ---------------------------------------------------------------------
  // Validation.

  /** The JavaScript values the sanitisers distinguish. */
  datatype JsValue =
    | Text(s: string)             // a String
    | List(items: seq<int>)       // a plain Array of integers
    | Typed(bytes: seq<byte>)     // a Uint8Array
    | Other                       // undefined or null

  predicate IsHexDigit(c: char)
  {
    '0' <= c <= '9' || 'a' <= c <= 'f' || 'A' <= c <= 'F'
  }

  function HexVal(c: char): (r: nat)
    requires IsHexDigit(c)
    ensures r < 16
  {
    if '0' <= c <= '9' then c as int - '0' as int
    else if 'a' <= c <= 'f' then c as int - 'a' as int + 10
    else c as int - 'A' as int + 10
  }

  predicate AllHex(s: string)
  {
    forall k :: 0 <= k < |s| ==> IsHexDigit(s[k])
  }

  /** `value.replace(/^0x/g, '')`. */
  function StripHexPrefix(s: string): (r: string)
  {
    if |s| >= 2 && s[..2] == "0x" then s[2..] else s
  }

  /** Each pair of hexadecimal digits as one byte, in order. */
  function HexPairs(s: string): (r: seq<byte>)
    requires |s| % 2 == 0 && AllHex(s)
    ensures 2 * |r| == |s|
  {
    if s == [] then [] else [HexVal(s[0]) * 16 + HexVal(s[1])] + HexPairs(s[2..])
  }

  /** Byte `k` of `HexPairs(s)` is made of characters `2k` and `2k+1`. */
  lemma {:induction false} HexPairsIndex(s: string, k: nat)
    requires |s| % 2 == 0 && AllHex(s) && k < |s| / 2
    ensures HexPairs(s)[k] == HexVal(s[2 * k]) * 16 + HexVal(s[2 * k + 1])
  {
    if k > 0 {
      HexPairsIndex(s[2..], k - 1);
    }
  }

  /** The bytes that a hexadecimal string stands for, before the length check. */
  function HexBytes(s: string, le: bool): seq<byte>
    requires AllHex(s)
  {
    var v := if |s| % 2 == 1 then "0" + s else s;
    var bytes := HexPairs(v);
    if le then Reverse(bytes) else bytes
  }

  /** `Uint8Array.from` on an Array of integers: each element modulo 256. */
  function ByteValues(items: seq<int>): (r: seq<byte>)
    ensures |r| == |items|
  {
    seq(|items|, k requires 0 <= k < |items| => items[k] % 256)
  }

  /** The length check that closes `sanitizeArray`: between `min` and `max` bytes. */
  function LengthChecked(bytes: seq<byte>, max: int, min: int): (r: Result<seq<byte>>)
    ensures r.Success? <==> min <= |bytes| <= max
    ensures r.Success? ==> r.value == bytes
  {
    if |bytes| < min || |bytes| > max then Failure("invalid value length") else Success(bytes)
  }

  /**
   * What `sanitizeArray(value, source, max, min, le)` returns or throws. A
   * string is read as hexadecimal (after dropping a leading "0x"), an Array
   * is converted element by element to bytes modulo 256, a Uint8Array is
   * copied; the result must hold between `min` and `max` bytes.
   */
  function Sanitized(value: JsValue, max: int, min: int, le: bool): (r: Result<seq<byte>>)
    ensures r.Success? ==> min <= |r.value| <= max
    ensures value.Other? ==> r.Failure?
  {
    match value
    case Text(s) =>
      var v := StripHexPrefix(s);
      if v == [] || !AllHex(v) then Failure("invalid hexadecimal String")
      else LengthChecked(HexBytes(v, le), max, min)
    case List(items) =>
      LengthChecked(ByteValues(items), max, min)
    case Typed(bytes) => LengthChecked(bytes, max, min)
    case Other => Failure("invalid value")
  }

  /** `sanitizeArray`, step by step as the library reassigns `value`. */
  method SanitizeArray(value: JsValue, max: int, min: int, le: bool) returns (r: Result<seq<byte>>)
    ensures r == Sanitized(value, max, min, le)
  {
    var bytes: seq<byte>;
    match value {
      case Text(s) =>
        var v := StripHexPrefix(s);
        if v == [] || !AllHex(v) {
          return Failure("invalid hexadecimal String");
        }
        if |v| % 2 == 1 {
          v := "0" + v;
        }
        bytes := HexPairs(v);
        if le {
          bytes := Reverse(bytes);
        }
      case List(items) =>
        bytes := ByteValues(items);
      case Typed(b) =>
        bytes := b;
      case Other =>
        return Failure("invalid value");
    }
    if |bytes| < min || |bytes| > max {
      return Failure("invalid value length");
    }
    return Success(bytes);
  }

  /**
   * `sanitizeUint8Array`, which the transaction, ledger and WOTS+ code call
   * on every byte-array argument: util.js defines and exports no such
   * function, so the imported name is undefined and each call throws a
   * TypeError, whatever the value and its length. The rest of the model
   * uses `Sanitized` in its place.
   */
  function SanitizeUint8ArrayAsWritten(value: JsValue, max: int, min: int): (r: Result<seq<byte>>)
    ensures r.Failure?
  {
    Failure("TypeError")
  }

  /** A 32-byte array that the intended length check accepts as it is, and that the call as written rejects. */
  lemma SanitizerCounterexample()
    ensures var zeros := seq(32, _ => 0);
      Sanitized(Typed(zeros), 32, 32, false) == Success(zeros)
      && SanitizeUint8ArrayAsWritten(Typed(zeros), 32, 32).Failure?
  {
  }

  lemma HexValChar(d: nat)
    requires d < 16
    ensures IsHexDigit(HexChar(d)) && HexVal(HexChar(d)) == d
  {
  }

  lemma {:induction false} HexPairsOfHex(b: seq<byte>)
    ensures AllHex(Hex(b)) && HexPairs(Hex(b)) == b
  {
    if b != [] {
      HexPairsOfHex(b[1..]);
      HexHead(b);
      DoubleEven(|b|);
      HexPairsHead(Hex(b));
      HeadTail(b);
    }
  }

  /** The first two digits of `Hex(b)` stand for `b[0]`, and the rest is the text of `b[1..]`. */
  lemma HexHead(b: seq<byte>)
    requires b != [] && AllHex(Hex(b[1..]))
    ensures AllHex(Hex(b)) && Hex(b)[2..] == Hex(b[1..])
    ensures HexVal(Hex(b)[0]) * 16 + HexVal(Hex(b)[1]) == b[0]
  {
    var hi, lo := b[0] / 16, b[0] % 16;
    assert Hex(b) == [HexChar(hi), HexChar(lo)] + Hex(b[1..]);
    HexValChar(hi);
    HexValChar(lo);
    AllHexConcat([HexChar(hi), HexChar(lo)], Hex(b[1..]));
  }

  /** Hexadecimal text of whole bytes has an even length. */
  lemma DoubleEven(n: nat)
    ensures (2 * n) % 2 == 0
  {
  }

  /** Hexadecimal text joined to hexadecimal text is hexadecimal text. */
  lemma AllHexConcat(a: string, b: string)
    requires AllHex(a) && AllHex(b)
    ensures AllHex(a + b)
  {
    forall k | 0 <= k < |a + b|
      ensures IsHexDigit((a + b)[k])
    {
      if k >= |a| {
        assert (a + b)[k] == b[k - |a|];
      }
    }
  }

  /** Unfolds `HexPairs` once, on text of at least one pair. */
  lemma HexPairsHead(h: string)
    requires |h| >= 2 && |h| % 2 == 0 && AllHex(h)
    ensures HexPairs(h) == [HexVal(h[0]) * 16 + HexVal(h[1])] + HexPairs(h[2..])
  {
  }

  /**
   * Hexadecimal text made by `array2string` (with `full`) is read back by
   * `sanitizeArray` into the same bytes, as long as there is at least one
   * byte and the length fits the window.
   */
  lemma HexRoundTrip(bytes: seq<byte>, le: bool)
    requires |bytes| >= 1
    ensures Array2String(Typed(bytes), le, true).Success?
    ensures var text := Array2String(Typed(bytes), le, true).value;
      StripHexPrefix(text) == text && text != [] && AllHex(text) && HexBytes(text, le) == bytes
    ensures Sanitized(Text(Array2String(Typed(bytes), le, true).value), |bytes|, |bytes|, le) == Success(bytes)
  {
    var b := if le then Reverse(bytes) else bytes;
    var text := Hex(b);
    Array2StringHex(bytes, le, true);
    assert |b| == |bytes|;
    HexPairsOfHex(b);
    assert StripHexPrefix(text) == text by {
      assert text[1] == HexChar(b[0] % 16);
    }
    assert HexBytes(text, le) == bytes by {
      DoubleEven(|b|);
      if le {
        ReverseReverse(bytes);
      }
    }
  }

  /** A numeric argument after JavaScript's `Number()` conversion. */
  datatype NumValue = NaN | Num(n: int)

  /** `sanitizeNumber`: NaN throws, anything else is returned as a number. */
  function SanitizeNumber(num: NumValue): (r: Result<int>)
    ensures r.Success? <==> num.Num?
    ensures r.Success? ==> r.value == num.n
  {
    match num
    case NaN => Failure("invalid Number value")
    case Num(n) => Success(n)
  }

  /** `sanitizePort`: a number in 1..65535. */
  function SanitizePort(port: NumValue): (r: Result<int>)
    ensures r.Success? <==> port.Num? && 1 <= port.n <= 65535
    ensures r.Success? ==> r.value == port.n
  {
    match SanitizeNumber(port)
    case Failure(e) => Failure(e)
    case Success(p) =>
      if p < 1 || p > 65535 then Failure("invalid Port range")
      else Success(p)
  }
}
