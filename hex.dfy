/**
 * Base16 text as produced by Go's `encoding/hex`: `EncodeToString` writes
 * each byte as two digits from the lowercase table "0123456789abcdef",
 * high nibble first; `DecodeString` is the inverse, which also accepts
 * upper-case digits and reports the first invalid character or an odd
 * length. The short node of the Merkle trie renders its path with
 * `EncodeToString`; `DecodeString` serves here as its reference partner.
 */
module Hex {
  import opened Wrappers
  import opened Bytes

  /** A half byte, the value of one hex digit. */
  type nibble = n: int | 0 <= n < 0x10

  /** The digit table `EncodeToString` indexes with each nibble. */
  const HexTable: string := "0123456789abcdef"

  /** The characters `EncodeToString` may emit. */
  predicate IsLowerHexDigit(c: char) {
    '0' <= c <= '9' || 'a' <= c <= 'f'
  }

  /** The characters `DecodeString` accepts. */
  predicate IsHexDigit(c: char) {
    IsLowerHexDigit(c) || 'A' <= c <= 'F'
  }

  /** A string of whole lowercase digit pairs: the shape of every encoding. */
  predicate IsLowerHexString(s: string) {
    |s| % 2 == 0 && forall k :: 0 <= k < |s| ==> IsLowerHexDigit(s[k])
  }

  /** The value of one hex digit, in either case; None for any other character. */
  function FromHexChar(c: char): (r: Option<nibble>)
    ensures r.Some? <==> IsHexDigit(c)
  {
    if '0' <= c <= '9' then Some(c as int - '0' as int)
    else if 'a' <= c <= 'f' then Some(c as int - 'a' as int + 10)
    else if 'A' <= c <= 'F' then Some(c as int - 'A' as int + 10)
    else None
  }

  /** Why `DecodeString` rejected its input. */
  datatype DecodeError = ErrLength | InvalidByte(c: char)

  /** The byte whose high nibble is `hi` and whose low nibble is `lo`. */
  function JoinNibbles(hi: nibble, lo: nibble): byte {
    hi as int * 16 + lo as int
  }

  /** Two digits per byte, high nibble first, from `HexTable`. */
  function EncodeToString(src: seq<byte>): (s: string)
  {
    if src == [] then ""
    else [HexTable[src[0] / 16], HexTable[src[0] % 16]] + EncodeToString(src[1..])
  }

  /**
   * Pairs of digits back to bytes. As in Go, the pairs are scanned from the
   * left and the first invalid character is reported; a trailing single
   * digit is checked for validity before the odd length is reported.
   */
  function DecodeString(s: string): (r: Result<seq<byte>, DecodeError>)
    decreases |s|
  {
    if |s| == 0 then Success([])
    else if |s| == 1 then
      if FromHexChar(s[0]).None? then Failure(InvalidByte(s[0])) else Failure(ErrLength)
    else
      match (FromHexChar(s[0]), FromHexChar(s[1]))
      case (None, _) => Failure(InvalidByte(s[0]))
      case (Some(_), None) => Failure(InvalidByte(s[1]))
      case (Some(hi), Some(lo)) =>
        match DecodeString(s[2..])
        case Failure(e) => Failure(e)
        case Success(rest) => Success([JoinNibbles(hi, lo)] + rest)
  }

  /** Each table entry is a lowercase digit whose value is its own index. */
  lemma TableDigit(n: nibble)
    ensures IsLowerHexDigit(HexTable[n]) && FromHexChar(HexTable[n]) == Some(n)
  {
  }

  /** Each lowercase digit is the table entry at its own value. */
  lemma DigitInTable(c: char)
    requires IsLowerHexDigit(c)
    ensures FromHexChar(c).Some? && HexTable[FromHexChar(c).value] == c
  {
    TableDigit(FromHexChar(c).value);
  }

  /** The encoding is exactly twice as long as its input. */
  lemma {:induction false} EncodedLength(src: seq<byte>)
    ensures |EncodeToString(src)| == 2 * |src|
  {
    if src != [] {
      EncodedLength(src[1..]);
    }
  }

  /** Byte `i` becomes the digits at `2i` (high nibble) and `2i + 1` (low nibble). */
  lemma {:induction false} EncodedDigits(src: seq<byte>, i: nat)
    requires i < |src|
    ensures |EncodeToString(src)| == 2 * |src|
    ensures EncodeToString(src)[2 * i] == HexTable[src[i] / 16]
    ensures EncodeToString(src)[2 * i + 1] == HexTable[src[i] % 16]
  {
    EncodedLength(src);
    if i > 0 {
      EncodedDigits(src[1..], i - 1);
    }
  }

  /** Every encoding consists of whole lowercase digit pairs. */
  lemma EncodedIsLowerHex(src: seq<byte>)
    ensures IsLowerHexString(EncodeToString(src))
  {
    var s := EncodeToString(src);
    EncodedLength(src);
    forall k | 0 <= k < |s|
      ensures IsLowerHexDigit(s[k])
    {
      EncodedDigits(src, k / 2);
      TableDigit(src[k / 2] / 16);
      TableDigit(src[k / 2] % 16);
    }
  }

  /** Decoding an encoding gives back the original bytes. */
  lemma {:induction false} DecodeEncode(src: seq<byte>)
    ensures DecodeString(EncodeToString(src)) == Success(src)
  {
    if src != [] {
      var hi: nibble, lo: nibble := src[0] / 16, src[0] % 16;
      var rest := EncodeToString(src[1..]);
      var s := EncodeToString(src);
      assert s == [HexTable[hi], HexTable[lo]] + rest;
      assert s[0] == HexTable[hi] && s[1] == HexTable[lo] && s[2..] == rest;
      TableDigit(hi);
      TableDigit(lo);
      DecodeEncode(src[1..]);
      assert JoinNibbles(hi, lo) == src[0];
      assert DecodeString(s) == Success([JoinNibbles(hi, lo)] + src[1..]);
      assert [src[0]] + src[1..] == src;
    }
  }

  /** Distinct byte strings have distinct encodings. */
  lemma EncodeInjective(a: seq<byte>, b: seq<byte>)
    ensures EncodeToString(a) == EncodeToString(b) <==> a == b
  {
    DecodeEncode(a);
    DecodeEncode(b);
  }

  /** Decoding succeeds exactly on even-length strings of hex digits, in either case. */
  lemma {:induction false} DecodeSucceeds(s: string)
    ensures DecodeString(s).Success? <==> |s| % 2 == 0 && forall k :: 0 <= k < |s| ==> IsHexDigit(s[k])
  {
    if |s| >= 2 {
      DecodeSucceeds(s[2..]);
      assert forall k :: 2 <= k < |s| ==> s[k] == s[2..][k - 2];
    }
  }

  /** Every lowercase digit-pair string is the encoding of what it decodes to. */
  lemma {:induction false} EncodeDecode(s: string)
    requires IsLowerHexString(s)
    ensures DecodeString(s).Success? && EncodeToString(DecodeString(s).value) == s
  {
    if |s| >= 2 {
      var tail := s[2..];
      assert IsLowerHexString(tail) by {
        assert forall k :: 0 <= k < |tail| ==> tail[k] == s[k + 2];
      }
      EncodeDecode(tail);
      DigitInTable(s[0]);
      DigitInTable(s[1]);
      var hi, lo := FromHexChar(s[0]).value, FromHexChar(s[1]).value;
      var rest := DecodeString(tail).value;
      var b := JoinNibbles(hi, lo);
      assert DecodeString(s) == Success([b] + rest);
      assert b / 16 == hi && b % 16 == lo;
      assert EncodeToString([b] + rest) == [HexTable[hi], HexTable[lo]] + EncodeToString(rest) by {
        assert ([b] + rest)[0] == b && ([b] + rest)[1..] == rest;
      }
      assert s == [s[0], s[1]] + tail;
    }
  }
}
