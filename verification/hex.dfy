/** Lowercase hexadecimal, two digits per byte, as Go's `%x` verb prints a byte slice. */
module Hex {
  import opened Wrappers
  import opened Bytes

  predicate IsLowerHexDigit(c: char) {
    '0' <= c <= '9' || 'a' <= c <= 'f'
  }

  /** The digit for a nibble; letters are lowercase. */
  function Digit(n: nat): (c: char)
    requires n < 16
    ensures IsLowerHexDigit(c)
  {
    if n < 10 then ('0' as int + n) as char else ('a' as int + n - 10) as char
  }

  /** The nibble a digit stands for; only lowercase digits are accepted. */
  function DigitValue(c: char): (r: Option<nat>)
    ensures r.Some? <==> IsLowerHexDigit(c)
    ensures r.Some? ==> r.value < 16 && Digit(r.value) == c
  {
    if '0' <= c <= '9' then Some(c as int - '0' as int)
    else if 'a' <= c <= 'f' then Some(c as int - 'a' as int + 10)
    else None
  }

  lemma DigitValueOfDigit(n: nat)
    requires n < 16
    ensures DigitValue(Digit(n)) == Some(n)
  {
  }

  /** Two digits per byte, high nibble first. */
  function Encode(s: seq<Byte>): (r: string)
    ensures |r| == 2 * |s|
    ensures forall i :: 0 <= i < |r| ==> IsLowerHexDigit(r[i])
  {
    if s == [] then [] else [Digit(s[0] / 16), Digit(s[0] % 16)] + Encode(s[1..])
  }

  /** The bytes a string of lowercase digit pairs spells, or None for any other string. */
  function Decode(r: string): (o: Option<seq<Byte>>)
    ensures o.Some? ==> 2 * |o.value| == |r|
  {
    if r == [] then Some([])
    else if |r| == 1 then None
    else
      match (DigitValue(r[0]), DigitValue(r[1]), Decode(r[2..]))
      case (Some(hi), Some(lo), Some(rest)) => Some([hi * 16 + lo] + rest)
      case _ => None
  }

  lemma {:induction false} EncodeAppend(a: seq<Byte>, b: seq<Byte>)
    ensures Encode(a + b) == Encode(a) + Encode(b)
  {
    if a != [] {
      assert (a + b)[1..] == a[1..] + b;
      EncodeAppend(a[1..], b);
    } else {
      assert a + b == b;
    }
  }

  /** Decoding undoes encoding. */
  lemma {:induction false} DecodeEncode(s: seq<Byte>)
    ensures Decode(Encode(s)) == Some(s)
  {
    if s != [] {
      var r := Encode(s);
      assert r[2..] == Encode(s[1..]);
      DecodeEncode(s[1..]);
      DigitValueOfDigit(s[0] / 16);
      DigitValueOfDigit(s[0] % 16);
      assert [s[0]] + s[1..] == s;
    }
  }

  /** Encoding undoes decoding: a string that decodes is the canonical spelling of its bytes. */
  lemma {:induction false} EncodeDecode(r: string)
    requires Decode(r).Some?
    ensures Encode(Decode(r).value) == r
  {
    if r != [] {
      EncodeDecode(r[2..]);
      var hi, lo := DigitValue(r[0]).value, DigitValue(r[1]).value;
      var b := hi * 16 + lo;
      assert b / 16 == hi && b % 16 == lo;
      assert Decode(r).value[1..] == Decode(r[2..]).value;
      assert r == [r[0], r[1]] + r[2..];
    }
  }
}
