/**
 * The 18-byte ticket and its text form. In sequential mode bytes 0-3 hold
 * the sequence number and bytes 4-7 the low 32 bits of the Unix seconds,
 * both big-endian; bytes 8-17 are random. In random mode all 18 are random.
 * The text is lowercase hex in groups of 4, 2, 2, 2 and 8 bytes joined by
 * '-', 40 characters in all.
 */
module TicketId {
  import opened Wrappers
  import opened Bytes
  import opened Hex
  import opened Sequencer

  const TicketSize: nat := 18
  const TextLength: nat := 40

  /** Positions of the four separators in the text form. */
  predicate IsDashPosition(i: int) {
    i == 8 || i == 13 || i == 18 || i == 23
  }

  /** The sequential layout: a sequence number, Unix seconds and ten random bytes. */
  function SequentialLayout(n: int, unix: int, random: seq<Byte>): (b: seq<Byte>)
    requires |random| == 10
    ensures |b| == TicketSize
  {
    BigEndian(ToUint32(n), 4) + BigEndian(ToUint64(unix), 4) + random
  }

  /**
   * The bytes of the ticket Generate builds from counter `c`, the Unix
   * seconds and 18 random bytes (of which sequential mode draws the last ten).
   */
  function TicketBytes(c: int, unix: int, random: seq<Byte>): (b: seq<Byte>)
    requires ValidCounter(c) && |random| == TicketSize
    ensures |b| == TicketSize
  {
    if c > Disabled then SequentialLayout(Issued(c), unix, random[8..]) else random
  }

  /** The canonical text of a ticket. */
  function Render(b: seq<Byte>): (s: string)
    requires |b| == TicketSize
    ensures |s| == TextLength
  {
    Encode(b[0..4]) + "-" + Encode(b[4..6]) + "-" + Encode(b[6..8]) + "-"
      + Encode(b[8..10]) + "-" + Encode(b[10..])
  }

  /** The text is four '-' at fixed places and lowercase hex digits everywhere else. */
  lemma RenderShape(b: seq<Byte>)
    requires |b| == TicketSize
    ensures forall i :: 0 <= i < TextLength ==> (Render(b)[i] == '-' <==> IsDashPosition(i))
    ensures forall i :: 0 <= i < TextLength ==> Render(b)[i] == '-' || IsLowerHexDigit(Render(b)[i])
  {
    RenderGroups(b);
    var s := Render(b);
    forall i | 0 <= i < TextLength
      ensures (s[i] == '-' <==> IsDashPosition(i)) && (s[i] == '-' || IsLowerHexDigit(s[i]))
    {
      if i < 8 {
        assert s[i] == s[0..8][i];
      } else if 8 < i < 13 {
        assert s[i] == s[9..13][i - 9];
      } else if 13 < i < 18 {
        assert s[i] == s[14..18][i - 14];
      } else if 18 < i < 23 {
        assert s[i] == s[19..23][i - 19];
      } else if 23 < i {
        assert s[i] == s[24..][i - 24];
      }
    }
  }

  /** The 36 hex digits of a 40-character text, its separators dropped. */
  function Digits(s: string): (h: string)
    requires |s| == TextLength
    ensures |h| == 36
  {
    s[0..8] + s[9..13] + s[14..18] + s[19..23] + s[24..]
  }

  /** The bytes a canonical ticket text stands for; None for any other string. */
  function Parse(s: string): (r: Option<seq<Byte>>)
    ensures r.Some? ==> |r.value| == TicketSize
  {
    if |s| != TextLength || s[8] != '-' || s[13] != '-' || s[18] != '-' || s[23] != '-' then None
    else Decode(Digits(s))
  }

  /** The sequence number a ticket text carries in its first group. */
  function SequenceOf(s: string): (n: Option<nat>)
    ensures n.Some? ==> n.value < TwoTo32
  {
    match Parse(s)
    case Some(b) =>
      assert Pow256(|b[0..4]|) == TwoTo32;
      Some(FromBigEndian(b[0..4]))
    case None => None
  }

  lemma RenderGroups(b: seq<Byte>)
    requires |b| == TicketSize
    ensures Render(b)[0..8] == Encode(b[0..4])
    ensures Render(b)[9..13] == Encode(b[4..6])
    ensures Render(b)[14..18] == Encode(b[6..8])
    ensures Render(b)[19..23] == Encode(b[8..10])
    ensures Render(b)[24..] == Encode(b[10..])
  {
    var e0, e1, e2, e3, e4 := Encode(b[0..4]), Encode(b[4..6]), Encode(b[6..8]), Encode(b[8..10]), Encode(b[10..]);
    var s := Render(b);
    assert s == e0 + "-" + e1 + "-" + e2 + "-" + e3 + "-" + e4;
    assert |e0| == 8 && |e1| == 4 && |e2| == 4 && |e3| == 4 && |e4| == 16;
    assert s[0..8] == e0;
    assert s[9..13] == e1;
    assert s[14..18] == e2;
    assert s[19..23] == e3;
    assert s[24..] == e4;
  }

  /** The five groups' digits are the digits of the whole ticket. */
  lemma EncodeGroups(b: seq<Byte>)
    requires |b| == TicketSize
    ensures Encode(b) == Encode(b[0..4]) + Encode(b[4..6]) + Encode(b[6..8]) + Encode(b[8..10]) + Encode(b[10..])
  {
    assert b == b[0..4] + b[4..6] + b[6..8] + b[8..10] + b[10..];
    EncodeAppend(b[0..4] + b[4..6] + b[6..8] + b[8..10], b[10..]);
    EncodeAppend(b[0..4] + b[4..6] + b[6..8], b[8..10]);
    EncodeAppend(b[0..4] + b[4..6], b[6..8]);
    EncodeAppend(b[0..4], b[4..6]);
  }

  /** Parsing a rendered ticket gives back its 18 bytes. */
  lemma ParseRender(b: seq<Byte>)
    requires |b| == TicketSize
    ensures Parse(Render(b)) == Some(b)
  {
    RenderGroups(b);
    EncodeGroups(b);
    assert Digits(Render(b)) == Encode(b);
    DecodeEncode(b);
  }

  lemma SplitConcat(x1: string, x2: string, y1: string, y2: string)
    requires x1 + x2 == y1 + y2 && |x1| == |y1|
    ensures x1 == y1 && x2 == y2
  {
    assert x1 == (x1 + x2)[..|x1|];
    assert x2 == (x1 + x2)[|x1|..];
  }

  /** Rendering parsed bytes gives back the text: only canonical lowercase text parses. */
  lemma RenderParse(s: string)
    requires Parse(s).Some?
    ensures Render(Parse(s).value) == s
  {
    var h := Digits(s);
    var b := Parse(s).value;
    EncodeDecode(h);
    EncodeGroups(b);
    var e0, e1, e2, e3, e4 := Encode(b[0..4]), Encode(b[4..6]), Encode(b[6..8]), Encode(b[8..10]), Encode(b[10..]);
    var d0, d1, d2, d3, d4 := s[0..8], s[9..13], s[14..18], s[19..23], s[24..];
    assert e0 + e1 + e2 + e3 + e4 == d0 + d1 + d2 + d3 + d4;
    SplitConcat(e0 + e1 + e2 + e3, e4, d0 + d1 + d2 + d3, d4);
    SplitConcat(e0 + e1 + e2, e3, d0 + d1 + d2, d3);
    SplitConcat(e0 + e1, e2, d0 + d1, d2);
    SplitConcat(e0, e1, d0, d1);
    assert s == d0 + "-" + d1 + "-" + d2 + "-" + d3 + "-" + d4;
  }

  /** Random mode: the ticket is exactly the 18 random bytes. */
  lemma RandomLayout(unix: int, random: seq<Byte>)
    requires |random| == TicketSize
    ensures TicketBytes(Disabled, unix, random) == random
  {
  }

  /**
   * Sequential mode: bytes 0-3 decode to the new counter value, bytes 4-7
   * to the low 32 bits of the Unix seconds, and bytes 8-17 are the random
   * input's last ten bytes.
   */
  lemma SequentialFields(c: int, unix: int, random: seq<Byte>)
    requires ValidCounter(c) && c >= 0 && |random| == TicketSize
    ensures FromBigEndian(TicketBytes(c, unix, random)[0..4]) == c + 1
    ensures FromBigEndian(TicketBytes(c, unix, random)[4..8]) == unix % TwoTo32
    ensures TicketBytes(c, unix, random)[8..] == random[8..]
  {
    var b := TicketBytes(c, unix, random);
    assert b[0..4] == BigEndian(c + 1, 4);
    assert b[4..8] == BigEndian(ToUint64(unix), 4);
    assert Pow256(4) == TwoTo32;
    FromBigEndianOfBigEndian(c + 1, 4);
    FromBigEndianOfBigEndian(ToUint64(unix), 4);
  }

  /** The text of a sequential-mode ticket carries the new counter value. */
  lemma SequenceOfGenerated(c: int, unix: int, random: seq<Byte>)
    requires ValidCounter(c) && c >= 0 && |random| == TicketSize
    ensures SequenceOf(Render(TicketBytes(c, unix, random))) == Some(c + 1)
  {
    ParseRender(TicketBytes(c, unix, random));
    SequentialFields(c, unix, random);
  }
}
