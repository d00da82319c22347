/** Bytes as hexadecimal text, printed by the firmware and read by the host. */
module HexText {
  import opened Bytes

  function HexDigit(v: nat): (c: char)
    requires v < 16
  {
    if v < 10 then ('0' as int + v) as char else ('a' as int + v - 10) as char
  }

  /** The value of a hexadecimal digit of either case. */
  function Nibble(c: char): (r: Option<nat>)
    ensures r.Some? ==> r.value < 16
  {
    if '0' <= c <= '9' then Some(c as int - '0' as int)
    else if 'a' <= c <= 'f' then Some(c as int - 'a' as int + 10)
    else if 'A' <= c <= 'F' then Some(c as int - 'A' as int + 10)
    else None
  }

  lemma NibbleOfDigit(v: nat)
    requires v < 16
    ensures Nibble(HexDigit(v)) == Some(v)
  {
  }

  /** parse_hex_byte on the two characters of text. */
  function ParseHexByte(hi: char, lo: char): (r: Option<byte>) {
    var h, l := Nibble(hi), Nibble(lo);
    if h.Some? && l.Some? then Some(16 * h.value + l.value) else None
  }

  function HexOfByte(b: byte): (s: string)
    ensures |s| == 2
  {
    [HexDigit(b / 16), HexDigit(b % 16)]
  }

  lemma HexByteRoundTrip(b: byte)
    ensures ParseHexByte(HexOfByte(b)[0], HexOfByte(b)[1]) == Some(b)
  {
    NibbleOfDigit(b / 16);
    NibbleOfDigit(b % 16);
  }

  function Hex(s: seq<byte>): (h: string)
    ensures |h| == 2 * |s|
  {
    if s == [] then "" else Hex(s[..|s| - 1]) + HexOfByte(s[|s| - 1])
  }

  /** bytes.fromhex on text without blanks; None is its ValueError. */
  function FromHex(h: string): (r: Option<seq<byte>>)
    ensures r.Some? ==> 2 * |r.value| == |h|
  {
    if h == "" then Some([])
    else if |h| == 1 then None
    else
      var rest, last := FromHex(h[..|h| - 2]), ParseHexByte(h[|h| - 2], h[|h| - 1]);
      if rest.Some? && last.Some? then Some(rest.value + [last.value]) else None
  }

  lemma FromHexSnoc(h: string, t: string, r: seq<byte>, b: byte, s: seq<byte>)
    requires h == t + HexOfByte(b) && s == r + [b] && FromHex(t) == Some(r)
    ensures FromHex(h) == Some(s)
  {
    HexByteRoundTrip(b);
    assert h[..|h| - 2] == t && h[|h| - 2] == HexOfByte(b)[0] && h[|h| - 1] == HexOfByte(b)[1];
  }

  lemma HexSnoc(s: seq<byte>, r: seq<byte>, b: byte)
    requires s == r + [b]
    ensures Hex(s) == Hex(r) + HexOfByte(b)
  {
    assert s[..|s| - 1] == r && s[|s| - 1] == b;
  }

  lemma {:induction false} HexRoundTrip(s: seq<byte>)
    ensures FromHex(Hex(s)) == Some(s)
  {
    if s == [] {
      assert Hex(s) == "";
    } else {
      var r, b := s[..|s| - 1], s[|s| - 1];
      HexRoundTrip(r);
      HexSnoc(s, r, b);
      FromHexSnoc(Hex(s), Hex(r), r, b, s);
    }
  }

  const LOWER := "0123456789abcdef"
  const UPPER := "0123456789ABCDEF"

  /** Printed digits are lower case; digits of either case are read. */
  lemma NibbleIs(c: char, v: nat)
    requires v < 16
    ensures HexDigit(v) == LOWER[v]
    ensures Nibble(c) == Some(v) <==> c == LOWER[v] || c == UPPER[v]
  {
  }

  /** Byte i is printed as digits 2 * i and 2 * i + 1, the high one first. */
  lemma {:induction false} HexAt(s: seq<byte>, i: nat)
    requires i < |s|
    ensures Hex(s)[2 * i] == LOWER[s[i] / 16] && Hex(s)[2 * i + 1] == LOWER[s[i] % 16]
  {
    var n := |s| - 1;
    if i == n {
      NibbleIs('0', s[n] / 16);
      NibbleIs('0', s[n] % 16);
    } else {
      HexAt(s[..n], i);
    }
  }
}
