/**
 * `Trigg.expand`: a block nonce read as a haiku. Sixteen consecutive nonce
 * bytes, up to the first zero, each select a dictionary word; a space
 * follows every word unless the text then ends in a line break, and a final
 * pass deletes each character that a backspace follows, together with that
 * backspace.
 */
module Trigg {
  import opened Bytes
  import opened TriggDict
  import Util

  const NONCE_BYTES: nat := 32
  const NONCE_HEX: nat := 64
  /** How many nonce bytes one expansion reads at most. */
  const WINDOW: nat := 16

  /** The nonces `expand` accepts: 64 characters of text, or a 32-byte `Uint8Array`. */
  predicate Accepted(nonce: Util.JsValue)
  {
    (nonce.Text? && |nonce.s| == NONCE_HEX) || (nonce.Typed? && |nonce.bytes| == NONCE_BYTES)
  }

  /**
   * `parseInt('0x' + c1 + c2)`: the value of the longest hexadecimal prefix
   * of the two characters. No digit at all gives NaN, which is 0 here: both
   * end the loop.
   */
  function PairValue(c1: char, c2: char): (r: nat)
    ensures r < 256
    ensures Util.IsHexDigit(c1) && Util.IsHexDigit(c2) ==> r == Util.HexVal(c1) * 16 + Util.HexVal(c2)
  {
    if !Util.IsHexDigit(c1) then 0
    else if !Util.IsHexDigit(c2) then Util.HexVal(c1)
    else Util.HexVal(c1) * 16 + Util.HexVal(c2)
  }

  /** The dictionary index read at a nonce position: a hexadecimal pair of the text, or a byte of the array. */
  function IndexAt(nonce: Util.JsValue, offset: nat): byte
    requires Accepted(nonce) && offset < NONCE_BYTES
  {
    if nonce.Text? then PairValue(nonce.s[2 * offset], nonce.s[2 * offset + 1]) as byte
    else nonce.bytes[offset]
  }

  /** The 32 indices a nonce spells, one per position. */
  function Indices(nonce: Util.JsValue): (r: seq<byte>)
    requires Accepted(nonce)
    ensures |r| == NONCE_BYTES
    ensures forall k :: 0 <= k < NONCE_BYTES ==> r[k] == IndexAt(nonce, k)
  {
    seq(NONCE_BYTES, k requires 0 <= k < NONCE_BYTES => IndexAt(nonce, k))
  }

  /** Appending a word: the word, then a space unless the text so far ends in a line break. */
  function AppendWord(result: string, word: string): (r: string)
    ensures |r| == |result| + |word| || |r| == |result| + |word| + 1
    ensures r[..|result| + |word|] == result + word
  {
    var text := result + word;
    if text != [] && text[|text| - 1] == '\n' then text
    else assert (text + " ")[..|text|] == text; text + " "
  }

  /** A table of 256 words, such as `TriggDict.DICT`. */
  predicate IsDictionary(dict: seq<string>)
  {
    |dict| == 256
  }

  /**
   * The text the loop builds from position `offset` to `len`, stopping at
   * the first zero index, with the words of `dict`.
   */
  function Words(dict: seq<string>, indices: seq<byte>, offset: nat, len: nat, result: string): string
    requires IsDictionary(dict) && len <= |indices|
    decreases len - offset
  {
    if offset >= len || indices[offset] == 0 then result
    else Words(dict, indices, offset + 1, len, AppendWord(result, dict[indices[offset]]))
  }

  /** The characters a regular expression's `.` does not match. */
  predicate IsLineTerminator(c: char)
  {
    c == '\n' || c == '\r' || c == '\U{2028}' || c == '\U{2029}'
  }

  /**
   * `text.replace(/.\x08/g, '')`: scanning left to right, a character that
   * is not a line terminator and is followed by a backspace is deleted
   * together with the backspace, and the scan resumes after them.
   */
  function StripBackspaces(s: string): (r: string)
    ensures |r| <= |s|
  {
    if |s| >= 2 && !IsLineTerminator(s[0]) && s[1] == BACKSPACE then StripBackspaces(s[2..])
    else if s == [] then []
    else [s[0]] + StripBackspaces(s[1..])
  }

  /** Where the expansion starts reading: byte 0, or byte 16 for the shadow haiku. */
  function Start(shadow: bool): nat
  {
    if shadow then WINDOW else 0
  }

  /**
   * `expand(nonce, shadow)` over the dictionary `dict`: undefined or null
   * fails on its `constructor` (a TypeError); any other value that is not an
   * accepted nonce gives null.
   */
  function ExpandOf(dict: seq<string>, nonce: Util.JsValue, shadow: bool): (r: Result<Option<string>>)
    requires IsDictionary(dict)
    ensures r.Failure? <==> nonce.Other?
    ensures r.Success? && r.value.None? <==> !nonce.Other? && !Accepted(nonce)
  {
    if nonce.Other? then Failure("TypeError")
    else if !Accepted(nonce) then Success(None)
    else Success(Some(StripBackspaces(Words(dict, Indices(nonce), Start(shadow), Start(shadow) + WINDOW, ""))))
  }

  /** `Trigg.expand`: the expander over the haiku dictionary. */
  method Expand(nonce: Util.JsValue, shadow: bool) returns (r: Result<Option<string>>)
    ensures r == ExpandOf(DICT, nonce, shadow)
  {
    r := ExpandWith(DICT, nonce, shadow);
  }

  /** The expander: the checks on the nonce, the loop, then the backspace pass. */
  method ExpandWith(dict: seq<string>, nonce: Util.JsValue, shadow: bool) returns (r: Result<Option<string>>)
    requires IsDictionary(dict)
    ensures r == ExpandOf(dict, nonce, shadow)
  {
    if nonce.Other? {
      return Failure("TypeError");
    }
    if !Accepted(nonce) {
      return Success(None);
    }
    var result := Haiku(dict, nonce, shadow);
    return Success(Some(StripBackspaces(result)));
  }

  /** The expander's loop: at most 16 words, from byte 0 or byte 16, up to the first zero index. */
  method Haiku(dict: seq<string>, nonce: Util.JsValue, shadow: bool) returns (result: string)
    requires IsDictionary(dict) && Accepted(nonce)
    ensures result == Words(dict, Indices(nonce), Start(shadow), Start(shadow) + WINDOW, "")
  {
    var offset := Start(shadow);
    result := "";
    var len := offset + WINDOW;
    ghost var indices := Indices(nonce);
    ghost var text := Words(dict, indices, offset, len, "");
    while offset < len
      invariant offset <= len
      invariant Words(dict, indices, offset, len, result) == text
      decreases len - offset
    {
      var dictIndex := ReadIndex(nonce, offset);
      if dictIndex == 0 {
        WordsStop(dict, indices, offset, len, result);
        break;
      }
      assert indices[offset] == dictIndex;
      WordsStep(dict, indices, offset, len, result);
      result := Append(result, dict[dictIndex]);
      offset := offset + 1;
    }
  }

  /** The loop's two appends: the word, then a space unless the text now ends in a line break. */
  method Append(text: string, word: string) returns (result: string)
    ensures result == AppendWord(text, word)
  {
    AppendWordIs(text, word);
    result := text + word;
    if result == [] || result[|result| - 1] != '\n' {
      result := result + " ";
    }
  }

  /** The dictionary index at `offset`: `parseInt` of two hexadecimal characters, or the byte itself. */
  method ReadIndex(nonce: Util.JsValue, offset: nat) returns (dictIndex: nat)
    requires Accepted(nonce) && offset < NONCE_BYTES
    ensures dictIndex == IndexAt(nonce, offset)
  {
    if nonce.Text? {
      var hexOffset := offset * 2;
      dictIndex := PairValue(nonce.s[hexOffset], nonce.s[hexOffset + 1]);
    } else {
      dictIndex := nonce.bytes[offset];
    }
  }

  /** `AppendWord` written as the loop's two statements. */
  lemma AppendWordIs(result: string, word: string)
    ensures var text := result + word;
      AppendWord(result, word) == if text == [] || text[|text| - 1] != '\n' then text + " " else text
  {
  }

  /** The loop stops at a zero index with the text built so far. */
  lemma WordsStop(dict: seq<string>, indices: seq<byte>, offset: nat, len: nat, result: string)
    requires IsDictionary(dict) && len <= |indices|
    requires offset < len && indices[offset] == 0
    ensures Words(dict, indices, offset, len, result) == result
  {
  }

  /** A nonzero index appends its word and moves on. */
  lemma WordsStep(dict: seq<string>, indices: seq<byte>, offset: nat, len: nat, result: string)
    requires IsDictionary(dict) && len <= |indices|
    requires offset < len && indices[offset] != 0
    ensures Words(dict, indices, offset, len, result)
         == Words(dict, indices, offset + 1, len, AppendWord(result, dict[indices[offset]]))
  {
  }

  // ---------------------------------------------------------------------
  // Properties.

  /** The text depends only on the indices in [offset, len). */
  lemma {:induction false} WordsAgree(dict: seq<string>, a: seq<byte>, b: seq<byte>, offset: nat, len: nat, result: string)
    requires IsDictionary(dict) && len <= |a| && len <= |b|
    requires forall k :: offset <= k < len ==> a[k] == b[k]
    ensures Words(dict, a, offset, len, result) == Words(dict, b, offset, len, result)
    decreases len - offset
  {
    if offset < len && a[offset] != 0 {
      WordsAgree(dict, a, b, offset + 1, len, AppendWord(result, dict[a[offset]]));
    }
  }

  /** An array nonce spells its own bytes. */
  lemma TypedIndices(bytes: seq<byte>)
    requires |bytes| == NONCE_BYTES
    ensures Indices(Util.Typed(bytes)) == bytes
  {
  }

  /** The expansion reads only its 16-byte window: arrays that agree there expand alike. */
  lemma WindowOnly(dict: seq<string>, a: seq<byte>, b: seq<byte>, shadow: bool)
    requires IsDictionary(dict) && |a| == NONCE_BYTES && |b| == NONCE_BYTES
    requires a[Start(shadow)..Start(shadow) + WINDOW] == b[Start(shadow)..Start(shadow) + WINDOW]
    ensures ExpandOf(dict, Util.Typed(a), shadow) == ExpandOf(dict, Util.Typed(b), shadow)
  {
    var s := Start(shadow);
    TypedIndices(a);
    TypedIndices(b);
    assert forall k :: s <= k < s + WINDOW ==> a[k] == a[s..s + WINDOW][k - s];
    WordsAgree(dict, a, b, s, s + WINDOW, "");
  }

  /** A nonce whose first index is zero expands to the empty string. */
  lemma LeadingZero(dict: seq<string>, nonce: Util.JsValue, shadow: bool)
    requires IsDictionary(dict) && Accepted(nonce) && IndexAt(nonce, Start(shadow)) == 0
    ensures ExpandOf(dict, nonce, shadow) == Success(Some(""))
  {
  }

  /** A 64-digit hexadecimal text spells the 32 bytes it encodes. */
  lemma HexIndices(s: string)
    requires |s| == NONCE_HEX && Util.AllHex(s)
    ensures Indices(Util.Text(s)) == Util.HexPairs(s)
  {
    forall k | 0 <= k < NONCE_BYTES
      ensures Indices(Util.Text(s))[k] == Util.HexPairs(s)[k]
    {
      Util.HexPairsIndex(s, k);
    }
  }

  /** A 64-digit hexadecimal nonce expands like the 32 bytes it spells. */
  lemma HexNonce(dict: seq<string>, s: string, shadow: bool)
    requires IsDictionary(dict) && |s| == NONCE_HEX && Util.AllHex(s)
    ensures ExpandOf(dict, Util.Text(s), shadow) == ExpandOf(dict, Util.Typed(Util.HexPairs(s)), shadow)
  {
    HexIndices(s);
    TypedIndices(Util.HexPairs(s));
  }

  /** The 64-digit hexadecimal text of 32 bytes expands as the bytes do, to some text. */
  lemma HexTextNonce(dict: seq<string>, bytes: seq<byte>, shadow: bool)
    requires IsDictionary(dict) && |bytes| == NONCE_BYTES
    ensures ExpandOf(dict, Util.Text(Util.Hex(bytes)), shadow) == ExpandOf(dict, Util.Typed(bytes), shadow)
    ensures ExpandOf(dict, Util.Typed(bytes), shadow).Success? && ExpandOf(dict, Util.Typed(bytes), shadow).value.Some?
  {
    Util.HexPairsOfHex(bytes);
    HexNonce(dict, Util.Hex(bytes), shadow);
  }

  /** The space rule depends on the word alone: none after a word that ends in a line break, one after any other. */
  lemma SpaceAfterWord(result: string, word: string)
    requires word != []
    ensures word[|word| - 1] == '\n' ==> AppendWord(result, word) == result + word
    ensures word[|word| - 1] != '\n' ==> AppendWord(result, word) == result + word + " "
  {
    assert (result + word)[|result + word| - 1] == word[|word| - 1];
  }

  /** Text without backspaces passes the final pass unchanged. */
  lemma {:induction false} NoBackspaceUnchanged(s: string)
    requires forall k :: 0 <= k < |s| ==> s[k] != BACKSPACE
    ensures StripBackspaces(s) == s
  {
    if s != [] {
      NoBackspaceUnchanged(s[1..]);
    }
  }

  /** The pass deletes exactly a character and its backspace: a word, a space, then ":" after a backspace, joins up. */
  lemma BackspaceJoins(w: string, rest: string)
    requires forall k :: 0 <= k < |w| ==> w[k] != BACKSPACE
    ensures StripBackspaces(w + " " + [BACKSPACE] + rest) == w + StripBackspaces(rest)
  {
    var tail := " " + [BACKSPACE] + rest;
    assert w + " " + [BACKSPACE] + rest == w + tail;
    assert tail[0] == ' ' && tail[1] == BACKSPACE && tail[2..] == rest;
    NoBackspacePrefix(w, tail);
  }

  /** A prefix without backspaces, whose last character is not followed by one, is kept as it is. */
  lemma {:induction false} NoBackspacePrefix(w: string, rest: string)
    requires forall k :: 0 <= k < |w| ==> w[k] != BACKSPACE
    requires rest != [] ==> rest[0] != BACKSPACE
    ensures StripBackspaces(w + rest) == w + StripBackspaces(rest)
  {
    if w != [] {
      var v := w[1..];
      HeadTail(w);
      AppendAssoc([w[0]], v, rest);
      assert v + rest != [] ==> (v + rest)[0] != BACKSPACE by {
        if v != [] { assert (v + rest)[0] == w[1]; }
      }
      KeepsHead(w[0], v + rest);
      NoBackspacePrefix(v, rest);
      AppendAssoc([w[0]], v, StripBackspaces(rest));
    } else {
      assert w + rest == rest;
    }
  }

  /** A character not followed by a backspace is kept. */
  lemma KeepsHead(c: char, t: string)
    requires t != [] ==> t[0] != BACKSPACE
    ensures StripBackspaces([c] + t) == [c] + StripBackspaces(t)
  {
    ConsTail(c, t);
    assert |[c] + t| >= 2 ==> ([c] + t)[1] == t[0];
  }

  /** A backspace right after a line break is not a match: both characters stay. */
  lemma LineBreakKeepsBackspace(rest: string)
    requires rest != [] ==> rest[0] != BACKSPACE
    ensures StripBackspaces(['\n'] + ([BACKSPACE] + rest)) == ['\n'] + ([BACKSPACE] + StripBackspaces(rest))
  {
    var t := [BACKSPACE] + rest;
    ConsTail('\n', t);
    ConsTail(BACKSPACE, rest);
    assert |t| >= 2 ==> t[1] == rest[0];
  }
}
