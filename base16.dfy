/**
 * Base16 ("hex") encoding as defined in section 8 of RFC 4648: every byte
 * becomes two characters of the alphabet 0-9A-F, the high nibble first.
 * The transaction reference (UTR) of the payment simulator is this encoding
 * of eight random bytes.
 */
module Base16 {

  /** An octet. */
  type Byte = b: int | 0 <= b < 256

  datatype Option<T> = None | Some(value: T)

  /** The RFC 4648 Base16 alphabet. */
  predicate IsDigit(c: char) {
    '0' <= c <= '9' || 'A' <= c <= 'F'
  }

  /** The alphabet character for a nibble value. */
  function Digit(v: nat): (c: char)
    requires v < 16
    ensures IsDigit(c)
  {
    if v < 10 then ('0' as int + v) as char else ('A' as int + v - 10) as char
  }

  /** The nibble value of an alphabet character. */
  function DigitValue(c: char): (v: nat)
    requires IsDigit(c)
    ensures v < 16 && Digit(v) == c
  {
    if c <= '9' then c as int - '0' as int else c as int - 'A' as int + 10
  }

  lemma DigitValueOfDigit(v: nat)
    requires v < 16
    ensures DigitValue(Digit(v)) == v
  {
  }

  /** Two alphabet characters per byte, high nibble first. */
  function Encode(bs: seq<Byte>): (s: string)
    ensures |s| == 2 * |bs|
    ensures forall k :: 0 <= k < |s| ==> IsDigit(s[k])
    ensures forall i :: 0 <= i < |bs| ==> s[2 * i] == Digit(bs[i] / 16) && s[2 * i + 1] == Digit(bs[i] % 16)
  {
    if bs == [] then []
    else
      var rest := Encode(bs[1..]);
      assert forall i :: 1 <= i < |bs| ==> bs[i] == bs[1..][i - 1];
      [Digit(bs[0] / 16), Digit(bs[0] % 16)] + rest
  }

  /**
   * Decoding: an odd length or a character outside the alphabet is
   * rejected (section 3.3 of RFC 4648: no non-alphabet characters).
   */
  function Decode(s: string): (r: Option<seq<Byte>>)
    ensures r.Some? ==> 2 * |r.value| == |s|
    decreases |s|
  {
    if |s| == 0 then Some([])
    else if |s| == 1 || !IsDigit(s[0]) || !IsDigit(s[1]) then None
    else
      match Decode(s[2..])
      case None => None
      case Some(rest) => Some([DigitValue(s[0]) * 16 + DigitValue(s[1])] + rest)
  }

  /** Decoding succeeds exactly on even-length strings over the alphabet. */
  lemma {:induction false} DecodeAccepts(s: string)
    ensures Decode(s).Some? <==> |s| % 2 == 0 && forall k :: 0 <= k < |s| ==> IsDigit(s[k])
    decreases |s|
  {
    if |s| >= 2 {
      DecodeAccepts(s[2..]);
      assert forall k :: 2 <= k < |s| ==> s[k] == s[2..][k - 2];
    }
  }

  /** Round trip: decoding an encoding gives back the bytes. */
  lemma {:induction false} DecodeEncode(bs: seq<Byte>)
    ensures Decode(Encode(bs)) == Some(bs)
  {
    if bs != [] {
      var s := Encode(bs);
      assert s[2..] == Encode(bs[1..]);
      DecodeEncode(bs[1..]);
      DigitValueOfDigit(bs[0] / 16);
      DigitValueOfDigit(bs[0] % 16);
      assert [bs[0]] + bs[1..] == bs;
    }
  }

  /** Round trip the other way: whatever decodes re-encodes to itself. */
  lemma {:induction false} EncodeDecode(s: string)
    requires Decode(s).Some?
    ensures Encode(Decode(s).value) == s
    decreases |s|
  {
    if |s| > 0 {
      EncodeDecode(s[2..]);
      var hi, lo := DigitValue(s[0]), DigitValue(s[1]);
      var b: Byte := hi * 16 + lo;
      assert b / 16 == hi && b % 16 == lo;
      assert Decode(s).value == [b] + Decode(s[2..]).value;
      assert Decode(s).value[1..] == Decode(s[2..]).value;
      assert s == [s[0], s[1]] + s[2..];
    }
  }

  /** Distinct byte strings have distinct encodings. */
  lemma EncodeInjective(a: seq<Byte>, b: seq<Byte>)
    ensures Encode(a) == Encode(b) <==> a == b
  {
    DecodeEncode(a);
    DecodeEncode(b);
  }
}
