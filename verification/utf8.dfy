/** Go's `[]byte(s)` conversion: the UTF-8 encoding of a string's code points, with the
    decoding that undoes it. */
module Utf8 {
  import opened Wrappers

  /** An octet, as Go's `byte`. */
  newtype Byte = x: int | 0 <= x < 0x100

  /** The number of bytes UTF-8 uses for a code point. */
  function EncodedLength(cp: int): nat {
    if cp < 0x80 then 1 else if cp < 0x800 then 2 else if cp < 0x1_0000 then 3 else 4
  }

  predicate IsContinuation(b: Byte) {
    0x80 <= b < 0xC0
  }

  /** The UTF-8 encoding of one Unicode scalar value: the lead byte announces the length
      (0xxxxxxx, 110xxxxx, 1110xxxx or 11110xxx), the rest are 10xxxxxx continuation bytes. */
  function EncodeChar(c: char): (r: seq<Byte>)
    ensures |r| == EncodedLength(c as int)
    ensures |r| == 1 ==> r[0] as int == c as int
    ensures |r| == 2 ==> 0xC0 <= r[0] < 0xE0
    ensures |r| == 3 ==> 0xE0 <= r[0] < 0xF0
    ensures |r| == 4 ==> 0xF0 <= r[0] < 0xF8
    ensures forall k :: 1 <= k < |r| ==> IsContinuation(r[k])
  {
    var cp := c as int;
    if cp < 0x80 then
      [cp as Byte]
    else if cp < 0x800 then
      [(0xC0 + cp / 0x40) as Byte, (0x80 + cp % 0x40) as Byte]
    else if cp < 0x1_0000 then
      [(0xE0 + cp / 0x1000) as Byte,
       (0x80 + (cp / 0x40) % 0x40) as Byte,
       (0x80 + cp % 0x40) as Byte]
    else
      [(0xF0 + cp / 0x4_0000) as Byte,
       (0x80 + (cp / 0x1000) % 0x40) as Byte,
       (0x80 + (cp / 0x40) % 0x40) as Byte,
       (0x80 + cp % 0x40) as Byte]
  }

  /** The sequence length a lead byte announces, 0 for a byte that cannot lead. */
  function LeadLength(b: Byte): nat {
    if b < 0x80 then 1
    else if b < 0xC0 then 0
    else if b < 0xE0 then 2
    else if b < 0xF0 then 3
    else if b < 0xF8 then 4
    else 0
  }

  /** The scalar value a code point denotes, if it denotes one. */
  function ToChar(cp: int): Option<char> {
    if 0 <= cp < 0xD800 || 0xE000 <= cp < 0x11_0000 then Some(cp as char) else None
  }

  /** Decodes one complete, shortest-form sequence of 1 to 4 bytes. */
  function DecodeChar(bs: seq<Byte>): Option<char> {
    if |bs| == 0 || LeadLength(bs[0]) != |bs| then None
    else if exists k :: 1 <= k < |bs| && !IsContinuation(bs[k]) then None
    else if |bs| == 1 then ToChar(bs[0] as int)
    else if |bs| == 2 then
      var cp := (bs[0] as int - 0xC0) * 0x40 + (bs[1] as int - 0x80);
      if cp < 0x80 then None else ToChar(cp)
    else if |bs| == 3 then
      var cp := (bs[0] as int - 0xE0) * 0x1000 + (bs[1] as int - 0x80) * 0x40 + (bs[2] as int - 0x80);
      if cp < 0x800 then None else ToChar(cp)
    else
      var cp := (bs[0] as int - 0xF0) * 0x4_0000 + (bs[1] as int - 0x80) * 0x1000
                + (bs[2] as int - 0x80) * 0x40 + (bs[3] as int - 0x80);
      if cp < 0x1_0000 then None else ToChar(cp)
  }

  /** The bytes of a string, code point after code point. */
  function Encode(s: string): (r: seq<Byte>)
    ensures |r| >= |s|
  {
    if |s| == 0 then [] else EncodeChar(s[0]) + Encode(s[1..])
  }

  /** Decodes a byte sequence from the front; None when it is not well-formed UTF-8. */
  function Decode(bs: seq<Byte>): Option<string>
    decreases |bs|
  {
    if |bs| == 0 then Some([])
    else
      var n := LeadLength(bs[0]);
      if n == 0 || |bs| < n then None
      else
        match DecodeChar(bs[..n])
        case None => None
        case Some(c) =>
          match Decode(bs[n..])
          case None => None
          case Some(rest) => Some([c] + rest)
  }

  /** A code point that names a char converts back to that char. */
  lemma ToCharOfChar(c: char)
    ensures ToChar(c as int) == Some(c)
  {
  }

  lemma DecodeTwo(c: char)
    requires 0x80 <= c as int < 0x800
    ensures DecodeChar(EncodeChar(c)) == Some(c)
  {
    var cp := c as int;
    var r := EncodeChar(c);
    var q, m := cp / 0x40, cp % 0x40;
    assert cp == q * 0x40 + m;
    assert r[0] as int - 0xC0 == q && r[1] as int - 0x80 == m;
    assert !exists k :: 1 <= k < |r| && !IsContinuation(r[k]);
    ToCharOfChar(c);
  }

  lemma DecodeThree(c: char)
    requires 0x800 <= c as int < 0x1_0000
    ensures DecodeChar(EncodeChar(c)) == Some(c)
  {
    var cp := c as int;
    var r := EncodeChar(c);
    var q, m := cp / 0x40, cp % 0x40;
    var q2, m2 := q / 0x40, q % 0x40;
    assert cp == q * 0x40 + m;
    assert q == q2 * 0x40 + m2;
    assert cp / 0x1000 == q2;
    assert r[0] as int - 0xE0 == q2 && r[1] as int - 0x80 == m2 && r[2] as int - 0x80 == m;
    assert !exists k :: 1 <= k < |r| && !IsContinuation(r[k]);
    ToCharOfChar(c);
  }

  lemma DecodeFour(c: char)
    requires 0x1_0000 <= c as int
    ensures DecodeChar(EncodeChar(c)) == Some(c)
  {
    var cp := c as int;
    var r := EncodeChar(c);
    var q, m := cp / 0x40, cp % 0x40;
    var q2, m2 := q / 0x40, q % 0x40;
    var q3, m3 := q2 / 0x40, q2 % 0x40;
    assert cp == q * 0x40 + m;
    assert q == q2 * 0x40 + m2;
    assert q2 == q3 * 0x40 + m3;
    assert cp / 0x1000 == q2;
    assert cp / 0x4_0000 == q3;
    assert r[0] as int - 0xF0 == q3 && r[1] as int - 0x80 == m3;
    assert r[2] as int - 0x80 == m2 && r[3] as int - 0x80 == m;
    assert !exists k :: 1 <= k < |r| && !IsContinuation(r[k]);
    ToCharOfChar(c);
  }

  /** Each code point's bytes decode back to it. */
  lemma DecodeEncodeChar(c: char)
    ensures DecodeChar(EncodeChar(c)) == Some(c)
  {
    if c as int < 0x80 {
      ToCharOfChar(c);
    } else if c as int < 0x800 {
      DecodeTwo(c);
    } else if c as int < 0x1_0000 {
      DecodeThree(c);
    } else {
      DecodeFour(c);
    }
  }

  /** Decoding the bytes of a string gives the string back. */
  lemma {:induction false} DecodeEncode(s: string)
    ensures Decode(Encode(s)) == Some(s)
  {
    if |s| > 0 {
      var head := EncodeChar(s[0]);
      var tail := Encode(s[1..]);
      var bs := head + tail;
      assert bs == Encode(s);
      DecodeEncodeChar(s[0]);
      DecodeEncode(s[1..]);
      assert LeadLength(bs[0]) == |head|;
      assert bs[..|head|] == head;
      assert bs[|head|..] == tail;
      assert s == [s[0]] + s[1..];
    }
  }

  /** Different strings have different bytes. */
  lemma EncodeInjective(s: string, t: string)
    ensures Encode(s) == Encode(t) <==> s == t
  {
    DecodeEncode(s);
    DecodeEncode(t);
  }

  predicate IsAscii(s: string) {
    forall i :: 0 <= i < |s| ==> s[i] as int < 0x80
  }

  /** An ASCII string is its own byte sequence, byte for byte. */
  lemma {:induction false} AsciiEncoding(s: string)
    requires IsAscii(s)
    ensures |Encode(s)| == |s|
    ensures forall i :: 0 <= i < |s| ==> Encode(s)[i] as int == s[i] as int
  {
    if |s| > 0 {
      var t := s[1..];
      assert IsAscii(t);
      AsciiEncoding(t);
      assert Encode(s) == EncodeChar(s[0]) + Encode(t);
      forall i | 1 <= i < |s|
        ensures Encode(s)[i] as int == s[i] as int
      {
        assert Encode(s)[i] == Encode(t)[i - 1];
      }
    }
  }
}
