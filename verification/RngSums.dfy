/** The sums and counts of the statistics, written out over the positions of a
    file. */
module RngSums {
  import opened Bits
  import opened BitCounts
  import opened Bytes
  import opened RngCounts
  import opened RngStats

  lemma {:induction false} TotalSnoc(a: seq<nat>, v: nat)
    ensures Total(a + [v]) == Total(a) + v
  {
    TotalConcat(a, [v]);
    assert Total([v]) == v + Total([v][1..]);
  }

  // ---- the pairs ----

  function Firsts(s: seq<byte>): (r: seq<nat>) {
    seq(|s| - if s == [] then 0 else 1, i requires 0 <= i < |s| => s[i])
  }

  function Seconds(s: seq<byte>): (r: seq<nat>) {
    seq(|s| - if s == [] then 0 else 1, i requires 0 <= i < |s| - 1 => s[i + 1])
  }

  /** Products, position by position. */
  function Times(a: seq<nat>, b: seq<nat>): (r: seq<nat>)
    requires |a| == |b|
    ensures |r| == |a| && forall i :: 0 <= i < |r| ==> r[i] == a[i] * b[i]
  {
    seq(|a|, i requires 0 <= i < |a| => a[i] * b[i])
  }

  lemma TimesSnoc(a: seq<nat>, b: seq<nat>, x: nat, y: nat)
    requires |a| == |b|
    ensures Total(Times(a + [x], b + [y])) == Total(Times(a, b)) + x * y
  {
    assert Times(a + [x], b + [y]) == Times(a, b) + [x * y];
    TotalSnoc(Times(a, b), x * y);
  }

  /** The six accumulators are the sums over the first and over the second bytes
      of all adjacent pairs, of their squares, and of their products. */
  lemma {:induction false} PairSums(s: seq<byte>)
    ensures
      var p, a, b := PairsOf(s), Firsts(s), Seconds(s);
      && p.n == |a| == |b| && p.x == Total(a) && p.y == Total(b)
      && p.x2 == Total(Times(a, a)) && p.y2 == Total(Times(b, b)) && p.xy == Total(Times(a, b))
  {
    if |s| < 2 {
      assert Firsts(s) == [] && Seconds(s) == [];
    } else {
      var init, u, v := s[..|s| - 1], s[|s| - 2], s[|s| - 1];
      var a, b := Firsts(init), Seconds(init);
      PairSums(init);
      assert Firsts(s) == a + [u] && Seconds(s) == b + [v];
      TotalSnoc(a, u);
      TotalSnoc(b, v);
      TimesSnoc(a, a, u, u);
      TimesSnoc(b, b, v, v);
      TimesSnoc(a, b, u, v);
    }
  }

  lemma Terms(n: int, x: int, y: int, x2: int, y2: int, xy: int, p: Pairs)
    requires p.n == n && p.x == x && p.y == y && p.x2 == x2 && p.y2 == y2 && p.xy == xy
    ensures IsSerial(n * xy - x * y, n * x2 - x * x, n * y2 - y * y, p)
  {
  }

  /** The three terms of the serial correlation, as those sums. */
  lemma SerialSums(s: seq<byte>)
    ensures
      var a, b := Firsts(s), Seconds(s);
      IsSerial(|a| * Total(Times(a, b)) - Total(a) * Total(b), |a| * Total(Times(a, a)) - Total(a) * Total(a),
               |b| * Total(Times(b, b)) - Total(b) * Total(b), PairsOf(s))
  {
    var a, b := Firsts(s), Seconds(s);
    PairSums(s);
    Terms(|a|, Total(a), Total(b), Total(Times(a, a)), Total(Times(b, b)), Total(Times(a, b)), PairsOf(s));
  }

  // ---- bytes ----

  function Numbers(s: seq<byte>): (r: seq<nat>)
    ensures |r| == |s| && forall i :: 0 <= i < |r| ==> r[i] == s[i]
  {
    seq(|s|, i requires 0 <= i < |s| => s[i])
  }

  lemma {:induction false} ByteSumIs(s: seq<byte>)
    ensures Direct(ByteValue, s) == Total(Numbers(s))
  {
    if s != [] {
      var n := |s| - 1;
      ByteSumIs(s[..n]);
      TotalSnoc(Numbers(s[..n]), s[n]);
      assert Numbers(s) == Numbers(s[..n]) + [s[n]];
    }
  }

  /** The positions at which a byte stands. */
  function At(v: byte, s: seq<byte>): set<nat> {
    set i: nat | i < |s| && s[i] == v
  }

  lemma {:induction false} CountIs(v: byte, s: seq<byte>)
    ensures Count(v, s) == |At(v, s)|
  {
    if s != [] {
      var n := |s| - 1;
      CountIs(v, s[..n]);
      OneMore(At(v, s[..n]), At(v, s), n, s[n] == v);
    }
  }

  /** The positions at which two files agree. */
  function Agreeing(a: seq<byte>, b: seq<byte>): set<nat>
    requires |a| == |b|
  {
    set i: nat | i < |a| && a[i] == b[i]
  }

  lemma {:induction false} EqualBytesIs(a: seq<byte>, b: seq<byte>)
    requires |a| == |b|
    ensures EqualBytes(a, b) == |Agreeing(a, b)|
  {
    if a != [] {
      var n := |a| - 1;
      EqualBytesIs(a[..n], b[..n]);
      OneMore(Agreeing(a[..n], b[..n]), Agreeing(a, b), n, a[n] == b[n]);
    }
  }

  // ---- windows ----

  lemma LastRow(rows: seq<Window>, part: seq<Window>, row: Window)
    requires rows == part + [row]
    ensures WindowData(rows) == WindowData(part) + row.data
  {
    assert rows[..|rows| - 1] == part;
  }

  /** The rows behind the first n hold the rest of the file. */
  lemma {:induction false} DataBehind(front: seq<Window>, back: seq<Window>) returns (rest: seq<byte>)
    ensures WindowData(front + back) == WindowData(front) + rest && (back == [] ==> rest == [])
  {
    if back == [] {
      assert front + back == front;
      rest := [];
    } else {
      var n := |back| - 1;
      var before := DataBehind(front, back[..n]);
      LastRow(front + back, front + back[..n], back[n]);
      rest := before + back[n].data;
    }
  }

  /** Row i starts at a multiple of the window size. */
  lemma RowStarts(rows: seq<Window>, size: nat, i: nat, off: nat)
    requires i < |rows| && off == i * size && forall j: nat :: j < |rows| ==> WindowOk(rows, j, size)
    ensures rows[i].offset == off == |WindowData(rows[..i])|
  {
    forall j: nat | j < i
      ensures |rows[j].data| == size
    {
      assert WindowOk(rows, j, size);
    }
    FullWindows(rows[..i], size);
    assert WindowOk(rows, i, size);
  }

  lemma RowData(rows: seq<Window>, i: nat) returns (rest: seq<byte>)
    requires i < |rows|
    ensures WindowData(rows) == WindowData(rows[..i]) + rows[i].data + rest && (i == |rows| - 1 ==> rest == [])
  {
    LastRow(rows[..i + 1], rows[..i], rows[i]);
    rest := DataBehind(rows[..i + 1], rows[i + 1..]);
    assert rows[..i + 1] + rows[i + 1..] == rows;
  }

  lemma PartOf(front: seq<byte>, part: seq<byte>, rest: seq<byte>, data: seq<byte>, size: nat)
    requires data == front + part + rest && 0 < |part| <= size && (|part| == size || rest == [])
    ensures |front| < |data| && part == data[|front|..Min(|front| + size, |data|)]
  {
    assert data[|front|..|front| + |part|] == part;
  }

  /** Window i is the bytes of the file from i * size on, cut to its end. */
  lemma WindowIs(rows: seq<Window>, data: seq<byte>, size: nat, i: nat, off: nat)
    requires WindowData(rows) == data && (forall j: nat :: j < |rows| ==> WindowOk(rows, j, size))
    requires i < |rows| && off == i * size
    ensures rows[i].offset == off < |data| && rows[i].data == data[off..Min(off + size, |data|)]
  {
    RowStarts(rows, size, i, off);
    var rest := RowData(rows, i);
    assert WindowOk(rows, i, size);
    PartOf(WindowData(rows[..i]), rows[i].data, rest, data, size);
  }
}
