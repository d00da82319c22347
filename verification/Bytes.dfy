/** Bytes, machine words and the little- and big-endian encodings that every
    protocol of the repository uses. */
module Bytes {
  type byte = b: int | 0 <= b < 256

  const U16_LIMIT := 0x1_0000
  const U32_LIMIT := 0x1_0000_0000
  const U64_LIMIT := 0x1_0000_0000_0000_0000

  type u16 = w: int | 0 <= w < 0x1_0000
  type u32 = w: int | 0 <= w < 0x1_0000_0000
  type u64 = w: int | 0 <= w < 0x1_0000_0000_0000_0000

  /** A SHA-256 digest, or any other 32 bytes. */
  type hash32 = h: seq<byte> | |h| == 32 witness seq(32, i => 0)

  datatype Option<+T> = None | Some(value: T)

  /** 256 to the power k. */
  function Radix(k: nat): (r: nat)
    ensures r > 0
  {
    if k == 0 then 1 else 256 * Radix(k - 1)
  }

  lemma RadixValues()
    ensures Radix(2) == U16_LIMIT && Radix(4) == U32_LIMIT && Radix(8) == U64_LIMIT
  {
    assert Radix(1) == 256;
    assert Radix(3) == 0x100_0000;
    assert Radix(5) == 0x100_0000_0000;
    assert Radix(6) == 0x1_0000_0000_0000;
    assert Radix(7) == 0x100_0000_0000_0000;
  }

  lemma {:induction false} RadixAtMost(k: nat)
    requires k <= 8
    ensures Radix(k) <= U64_LIMIT
    decreases 8 - k
  {
    if k == 8 {
      RadixValues();
    } else {
      RadixAtMost(k + 1);
    }
  }

  /** The k low bytes of v, least significant first. */
  function Le(k: nat, v: nat): (s: seq<byte>)
    ensures |s| == k
  {
    if k == 0 then [] else [v % 256] + Le(k - 1, v / 256)
  }

  function FromLe(s: seq<byte>): nat {
    if s == [] then 0 else s[0] + 256 * FromLe(s[1..])
  }

  /** The k low bytes of v, most significant first. */
  function Be(k: nat, v: nat): (s: seq<byte>)
    ensures |s| == k
  {
    if k == 0 then [] else Be(k - 1, v / 256) + [v % 256]
  }

  function FromBe(s: seq<byte>): nat {
    if s == [] then 0 else 256 * FromBe(s[..|s| - 1]) + s[|s| - 1]
  }

  /** Little-endian words, byte by byte. */
  lemma LeBytes(v: nat)
    ensures Le(2, v) == [v % 256, v / 256 % 256]
    ensures Le(4, v) == [v % 256, v / 256 % 256, v / 65536 % 256, v / 16777216 % 256]
  {
    assert Le(1, v / 256) == [v / 256 % 256];
    var a, b, c := v / 256, v / 256 / 256, v / 256 / 256 / 256;
    assert Le(1, c) == [c % 256];
    assert Le(2, b) == [b % 256, c % 256];
    assert Le(3, a) == [a % 256, b % 256, c % 256];
    assert b == v / 65536 && c == v / 16777216;
  }

  /** Big-endian words, byte by byte. */
  lemma BeBytes(v: nat)
    ensures Be(2, v) == [v / 256 % 256, v % 256]
    ensures Be(4, v) == [v / 16777216 % 256, v / 65536 % 256, v / 256 % 256, v % 256]
  {
    assert Be(1, v / 256) == [v / 256 % 256];
    var a, b, c := v / 256, v / 256 / 256, v / 256 / 256 / 256;
    assert Be(1, c) == [c % 256];
    assert Be(2, b) == [c % 256, b % 256];
    assert Be(3, a) == [c % 256, b % 256, a % 256];
    assert b == v / 65536 && c == v / 16777216;
  }

  /** The low half of a little-endian word, then its high half. */
  lemma LeHalves(v: nat)
    ensures Le(8, v) == Le(4, v) + Le(4, v / 4294967296)
  {
    var a, b, c := v / 256, v / 256 / 256, v / 256 / 256 / 256;
    var d := c / 256;
    assert d == v / 4294967296;
    assert Le(1, c) == [c % 256] && Le(5, c) == [c % 256] + Le(4, d);
    assert Le(2, b) == [b % 256, c % 256] && Le(6, b) == [b % 256, c % 256] + Le(4, d);
    assert Le(3, a) == [a % 256, b % 256, c % 256] && Le(7, a) == [a % 256, b % 256, c % 256] + Le(4, d);
  }

  /** A word of twice the length is its high half and its low half. */
  lemma BeHalves(v: nat)
    ensures Be(8, v) == Be(4, v / 4294967296) + Be(4, v)
  {
    var a, b, c := v / 256, v / 256 / 256, v / 256 / 256 / 256;
    var d := c / 256;
    assert d == v / 4294967296;
    assert Be(5, c) == Be(4, d) + [c % 256];
    assert Be(6, b) == Be(4, d) + [c % 256, b % 256];
    assert Be(7, a) == Be(4, d) + [c % 256, b % 256, a % 256];
    BeBytes(v);
    assert b == v / 65536 && c == v / 16777216;
  }

  lemma {:induction false} LeRoundTrip(k: nat, v: nat)
    requires v < Radix(k)
    ensures FromLe(Le(k, v)) == v
  {
    if k > 0 {
      LeRoundTrip(k - 1, v / 256);
      assert Le(k, v)[1..] == Le(k - 1, v / 256);
    }
  }

  lemma {:induction false} LeOfFromLe(s: seq<byte>)
    ensures FromLe(s) < Radix(|s|)
    ensures Le(|s|, FromLe(s)) == s
  {
    if s != [] {
      LeOfFromLe(s[1..]);
      var v, rest := FromLe(s), FromLe(s[1..]);
      assert v % 256 == s[0] && v / 256 == rest;
      assert s == [s[0]] + s[1..];
    }
  }

  lemma {:induction false} BeRoundTrip(k: nat, v: nat)
    requires v < Radix(k)
    ensures FromBe(Be(k, v)) == v
  {
    if k > 0 {
      BeRoundTrip(k - 1, v / 256);
      assert Be(k, v)[..k - 1] == Be(k - 1, v / 256);
    }
  }

  lemma {:induction false} BeOfFromBe(s: seq<byte>)
    ensures FromBe(s) < Radix(|s|)
    ensures Be(|s|, FromBe(s)) == s
  {
    if s != [] {
      BeOfFromBe(s[..|s| - 1]);
      var v, rest := FromBe(s), FromBe(s[..|s| - 1]);
      assert v % 256 == s[|s| - 1] && v / 256 == rest;
      assert s == s[..|s| - 1] + [s[|s| - 1]];
    }
  }

  function LoadLe16(s: seq<byte>): (v: u16)
    requires |s| == 2
  {
    LeOfFromLe(s); RadixValues(); FromLe(s)
  }

  function LoadLe32(s: seq<byte>): (v: u32)
    requires |s| == 4
  {
    LeOfFromLe(s); RadixValues(); FromLe(s)
  }

  function LoadBe16(s: seq<byte>): (v: u16)
    requires |s| == 2
  {
    BeOfFromBe(s); RadixValues(); FromBe(s)
  }

  function LoadBe32(s: seq<byte>): (v: u32)
    requires |s| == 4
  {
    BeOfFromBe(s); RadixValues(); FromBe(s)
  }

  function LoadBe64(s: seq<byte>): (v: u64)
    requires |s| == 8
  {
    BeOfFromBe(s); RadixValues(); FromBe(s)
  }

  /** struct.pack("<I...", values): each value as four little-endian bytes. */
  function PackLe32(values: seq<u32>): (s: seq<byte>)
    ensures |s| == 4 * |values|
  {
    if values == [] then [] else Le(4, values[0]) + PackLe32(values[1..])
  }

  /** struct.unpack over the whole four-byte groups of a payload. */
  function UnpackLe32(s: seq<byte>): (values: seq<u32>)
    ensures |values| == |s| / 4
  {
    if |s| < 4 then [] else [LoadLe32(s[..4])] + UnpackLe32(s[4..])
  }

  lemma {:induction false} UnpackOfPack(values: seq<u32>)
    ensures UnpackLe32(PackLe32(values)) == values
  {
    if values != [] {
      UnpackOfPack(values[1..]);
      var s := PackLe32(values);
      assert s[..4] == Le(4, values[0]) && s[4..] == PackLe32(values[1..]);
      RadixValues();
      LeRoundTrip(4, values[0]);
    }
  }

  lemma {:induction false} PackOfUnpack(s: seq<byte>)
    ensures PackLe32(UnpackLe32(s)) == s[..|s| - |s| % 4]
  {
    if |s| >= 4 {
      PackOfUnpack(s[4..]);
      LeOfFromLe(s[..4]);
      var t := s[4..];
      assert UnpackLe32(s)[1..] == UnpackLe32(t);
      assert s[..|s| - |s| % 4] == s[..4] + t[..|t| - |t| % 4];
    }
  }

  lemma Associate<T>(a: seq<T>, b: seq<T>, c: seq<T>)
    ensures a + (b + c) == a + b + c
  {
  }

  lemma {:induction false} PackConcat(a: seq<u32>, b: seq<u32>)
    ensures PackLe32(a + b) == PackLe32(a) + PackLe32(b)
  {
    if a == [] {
      assert a + b == b;
    } else {
      PackConcat(a[1..], b);
      assert (a + b)[1..] == a[1..] + b && (a + b)[0] == a[0];
      Associate(Le(4, a[0]), PackLe32(a[1..]), PackLe32(b));
    }
  }

  lemma MulMono(c: nat, a: int, b: int)
    requires a <= b
    ensures c * a <= c * b
  {
  }

  lemma Unsnoc<T>(s: seq<T>)
    requires s != []
    ensures s == s[..|s| - 1] + [s[|s| - 1]]
  {
  }

  lemma SliceOfSlice<T>(s: seq<T>, a: nat, b: nat, c: nat, d: nat)
    requires a <= b <= |s| && c <= d <= b - a
    ensures s[a..b][c..d] == s[a + c..a + d]
  {
    assert |s[a..b][c..d]| == d - c;
    assert forall i :: 0 <= i < d - c ==> s[a..b][c..d][i] == s[a + c..a + d][i];
  }

  /** A field of the received bytes is the same field of the buffer. */
  lemma FieldOf(buf: array<byte>, len: nat, a: nat, b: nat)
    requires a <= b <= len <= buf.Length
    ensures buf[a..b] == buf[..len][a..b]
  {
  }

  lemma Adjoin<T>(s: seq<T>, a: nat, b: nat, c: nat)
    requires a <= b <= c <= |s|
    ensures s[a..b] + s[b..c] == s[a..c]
  {
  }

  /** Concatenation of a list of byte strings, in order. */
  function Flatten<T>(parts: seq<seq<T>>): seq<T> {
    if parts == [] then [] else Flatten(parts[..|parts| - 1]) + parts[|parts| - 1]
  }

  /** One part is itself, and lists of parts go one behind the other. */
  lemma {:induction false} FlattenConcat<T>(a: seq<seq<T>>, b: seq<seq<T>>)
    ensures Flatten<T>([]) == [] && (|a| == 1 ==> Flatten(a) == a[0])
    ensures Flatten(a + b) == Flatten(a) + Flatten(b)
  {
    if b == [] {
      assert a + b == a;
    } else {
      var n := |b| - 1;
      FlattenConcat(a, b[..n]);
      assert (a + b)[..|a| + n] == a + b[..n];
      Associate(Flatten(a), Flatten(b[..n]), b[n]);
    }
  }

  function Total(s: seq<nat>): nat {
    if s == [] then 0 else s[0] + Total(s[1..])
  }

  lemma {:induction false} TotalConcat(a: seq<nat>, b: seq<nat>)
    ensures Total(a + b) == Total(a) + Total(b)
  {
    if a == [] {
      assert a + b == b;
    } else {
      TotalConcat(a[1..], b);
      assert (a + b)[1..] == a[1..] + b;
    }
  }

  /** The smaller of two lengths. */
  function Min(a: int, b: int): int {
    if a < b then a else b
  }

  /** What a receive buffer of the given size keeps of a datagram. */
  function Truncated(wire: seq<byte>, limit: nat): (data: seq<byte>)
    ensures |data| == Min(|wire|, limit)
    ensures |wire| <= limit ==> data == wire
  {
    if |wire| <= limit then wire else wire[..limit]
  }

  /** sys_put_le16 / sys_put_le32: bytes by shifts, stored in place. */
  method PutLe16(out: array<byte>, at: nat, v: u16)
    requires at + 2 <= out.Length
    modifies out
    ensures out[..at + 2] == old(out[..at]) + Le(2, v)
  {
    out[at] := v % 256;
    out[at + 1] := v / 256 % 256;
    assert Le(2, v) == [v % 256, v / 256 % 256];
  }

  method PutLe32(out: array<byte>, at: nat, v: u32)
    requires at + 4 <= out.Length
    modifies out
    ensures out[..at + 4] == old(out[..at]) + Le(4, v)
  {
    out[at] := v % 256;
    out[at + 1] := v / 0x100 % 256;
    out[at + 2] := v / 0x1_0000 % 256;
    out[at + 3] := v / 0x100_0000 % 256;
    assert Le(1, v / 0x100 / 0x100 / 0x100) == [v / 0x100_0000 % 256];
    assert Le(2, v / 0x100 / 0x100) == [v / 0x1_0000 % 256, v / 0x100_0000 % 256];
    assert Le(3, v / 0x100) == [v / 0x100 % 256, v / 0x1_0000 % 256, v / 0x100_0000 % 256];
  }

  /** memcpy of a whole byte string to out + at. */
  method CopyTo(out: array<byte>, at: nat, src: seq<byte>)
    requires at + |src| <= out.Length
    modifies out
    ensures out[..at + |src|] == old(out[..at]) + src
  {
    forall i | 0 <= i < |src| {
      out[at + i] := src[i];
    }
  }

  /** memset(out, 0, n). */
  method Zero(out: array<byte>, n: nat)
    requires n <= out.Length
    modifies out
    ensures out[..n] == seq(n, i => 0)
    ensures out[n..] == old(out[n..])
  {
    forall i | 0 <= i < n {
      out[i] := 0;
    }
  }
}
