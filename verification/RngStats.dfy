/** Streaming statistics of captured bytes: chunk-carried sums that equal the
    one-pass ones, and a serial correlation that lies in [-1, 1]. */
module RngStats {
  import opened Bits
  import opened Bytes
  import opened RngChiSquare
  import opened RngCounts

  // ---- one-pass definitions over a whole file ----

  /** The six accumulators over the adjacent pairs of a file. */
  datatype Pairs = Pairs(n: nat, x: nat, y: nat, x2: nat, y2: nat, xy: nat)
  {
    function Add(a: byte, b: byte): Pairs {
      Pairs(n + 1, x + a, y + b, x2 + a * a, y2 + b * b, xy + a * b)
    }

    function Plus(p: Pairs): Pairs {
      Pairs(n + p.n, x + p.x, y + p.y, x2 + p.x2, y2 + p.y2, xy + p.xy)
    }
  }

  const NO_PAIRS := Pairs(0, 0, 0, 0, 0, 0)

  /** All pairs (s[i], s[i + 1]). */
  function PairsOf(s: seq<byte>): Pairs {
    if |s| < 2 then NO_PAIRS else PairsOf(s[..|s| - 1]).Add(s[|s| - 2], s[|s| - 1])
  }

  lemma PlusAdd(p: Pairs, q: Pairs, u: byte, v: byte)
    ensures p.Plus(q).Add(u, v) == p.Plus(q.Add(u, v))
  {
  }

  /** Pairs up to and across the boundary between a and b. */
  function Boundary(a: seq<byte>, b: seq<byte>): Pairs
    requires b != []
  {
    if a == [] then NO_PAIRS else PairsOf(a).Add(a[|a| - 1], b[0])
  }

  lemma PairsSnoc(s: seq<byte>, v: byte)
    requires s != []
    ensures PairsOf(s + [v]) == PairsOf(s).Add(s[|s| - 1], v)
  {
    assert (s + [v])[..|s|] == s;
  }

  lemma BoundaryIs(a: seq<byte>, v: byte)
    ensures PairsOf(a + [v]) == Boundary(a, [v])
  {
    if a != [] {
      PairsSnoc(a, v);
    }
  }

  lemma PlusNone(p: Pairs)
    ensures p.Plus(NO_PAIRS) == p
  {
  }

  lemma ConcatSnoc(a: seq<byte>, c: seq<byte>, v: byte)
    requires c != [] && PairsOf(a + c) == Boundary(a, c).Plus(PairsOf(c))
    ensures PairsOf(a + (c + [v])) == Boundary(a, c + [v]).Plus(PairsOf(c + [v]))
  {
    var u := c[|c| - 1];
    calc {
      PairsOf(a + (c + [v]));
      { Associate(a, c, [v]); }
      PairsOf((a + c) + [v]);
      { PairsSnoc(a + c, v); }
      PairsOf(a + c).Add(u, v);
      Boundary(a, c).Plus(PairsOf(c)).Add(u, v);
      { PlusAdd(Boundary(a, c), PairsOf(c), u, v); }
      Boundary(a, c).Plus(PairsOf(c).Add(u, v));
      { PairsSnoc(c, v); }
      Boundary(a, c).Plus(PairsOf(c + [v]));
      Boundary(a, c + [v]).Plus(PairsOf(c + [v]));
    }
  }

  /** The pairs of a concatenation: both parts' pairs and the boundary pair. */
  lemma {:induction false} PairsConcat(a: seq<byte>, b: seq<byte>)
    requires b != []
    ensures PairsOf(a + b) == Boundary(a, b).Plus(PairsOf(b))
  {
    var c, v := b[..|b| - 1], b[|b| - 1];
    assert b == c + [v];
    if c == [] {
      assert b == [v];
      BoundaryIs(a, v);
      PlusNone(Boundary(a, b));
    } else {
      PairsConcat(a, c);
      ConcatSnoc(a, c, v);
    }
  }

  // ---- the state dict, updated chunk by chunk ----

  class Stats {
    var counts: array<nat>
    var n: nat
    var prev: Option<byte>
    var pairs: Pairs

    constructor ()
      ensures fresh(counts) && Summarizes([])
    {
      counts := new nat[256](_ => 0);
      n, prev, pairs := 0, None, NO_PAIRS;
    }

    /** The state is the one-pass summary of everything read so far. */
    ghost predicate Summarizes(s: seq<byte>)
      reads this, counts
    {
      && counts.Length == 256
      && (forall v: byte :: counts[v] == Count(v, s))
      && n == |s|
      && prev == (if s == [] then None else Some(s[|s| - 1]))
      && pairs == PairsOf(s)
    }

    /** The counting loop: one increment per byte. */
    method CountBytes(data: seq<byte>, ghost s: seq<byte>)
      requires counts.Length == 256 && forall v: byte :: counts[v] == Count(v, s)
      modifies counts
      ensures forall v: byte :: counts[v] == Count(v, s + data)
    {
      assert s + data[..0] == s;
      for i := 0 to |data|
        invariant forall v: byte :: counts[v] == Count(v, s + data[..i])
      {
        assert (s + data[..i + 1])[..|s| + i] == s + data[..i];
        counts[data[i]] := counts[data[i]] + 1;
      }
      assert data[..|data|] == data;
    }

    /** add_pair */
    method AddPair(x: byte, y: byte)
      modifies this`pairs
      ensures pairs == old(pairs).Add(x, y)
    {
      pairs := pairs.Add(x, y);
    }

    /** update_stats_from_bytes: the boundary pair with the previous chunk's
        last byte first, then the pairs inside the chunk. */
    method Update(data: seq<byte>, ghost s: seq<byte>)
      requires Summarizes(s)
      modifies this, counts
      ensures counts == old(counts) && Summarizes(s + data)
    {
      CountBytes(data, s);
      n := n + |data|;
      if |data| == 0 {
        assert s + data == s;
        return;
      }
      assert s + data[..1] == s + [data[0]];
      if prev.Some? {
        AddPair(prev.value, data[0]);
        assert (s + data[..1])[..|s|] == s;
      }
      AddPairs(data, s);
      prev := Some(data[|data| - 1]);
    }

    /** The same step with the whole-array sums of the numpy branch. */
    method UpdateBulk(data: seq<byte>, ghost s: seq<byte>)
      requires Summarizes(s)
      modifies this, counts
      ensures counts == old(counts) && Summarizes(s + data)
    {
      for i := 0 to 256
        invariant counts == old(counts) && n == |s| && pairs == PairsOf(s)
        invariant prev == (if s == [] then None else Some(s[|s| - 1]))
        invariant forall v: byte :: counts[v] == Count(v, if v < i then s + data else s)
      {
        CountConcat(i, s, data);
        counts[i] := counts[i] + Count(i, data);
      }
      n := n + |data|;
      if |data| == 0 {
        assert s + data == s;
        return;
      }
      PairsConcat(s, data);
      if prev.Some? {
        AddPair(prev.value, data[0]);
      }
      pairs := pairs.Plus(PairsOf(data));
      prev := Some(data[|data| - 1]);
    }

    /** The pairs inside one chunk. */
    method AddPairs(data: seq<byte>, ghost s: seq<byte>)
      requires |data| > 0 && pairs == PairsOf(s + data[..1])
      modifies this`pairs
      ensures pairs == PairsOf(s + data)
    {
      for i := 1 to |data|
        invariant pairs == PairsOf(s + data[..i])
      {
        assert (s + data[..i + 1])[..|s| + i] == s + data[..i];
        AddPair(data[i - 1], data[i]);
      }
      assert data[..|data|] == data;
    }
  }

  /** metrics_for_file: reads of any sizes, here the chunks of the file in order. */
  method MetricsForFile(chunks: seq<seq<byte>>) returns (st: Stats)
    ensures fresh(st) && st.Summarizes(Flatten(chunks))
  {
    st := new Stats();
    for i := 0 to |chunks|
      invariant fresh(st) && fresh(st.counts) && st.Summarizes(Flatten(chunks[..i]))
    {
      assert chunks[..i + 1][..i] == chunks[..i];
      st.Update(chunks[i], Flatten(chunks[..i]));
    }
    assert chunks[..|chunks|] == chunks;
  }

  // ---- Cauchy-Schwarz for the serial correlation ----

  /** The linear and the quadratic accumulator of a * x + b * y over all pairs. */
  function Lin(p: Pairs, a: int, b: int): int { a * p.x + b * p.y }

  function Quad(p: Pairs, a: int, b: int): int { a * a * p.x2 + 2 * a * b * p.xy + b * b * p.y2 }

  lemma QuadAdd(p: Pairs, u: byte, v: byte, a: int, b: int)
    ensures Lin(p.Add(u, v), a, b) == Lin(p, a, b) + (a * u + b * v)
    ensures Quad(p.Add(u, v), a, b) == Quad(p, a, b) + (a * u + b * v) * (a * u + b * v)
  {
    assert a * (p.x + u) == a * p.x + a * u;
    assert b * (p.y + v) == b * p.y + b * v;
    assert a * a * (p.x2 + u * u) == a * a * p.x2 + (a * u) * (a * u);
    assert b * b * (p.y2 + v * v) == b * b * p.y2 + (b * v) * (b * v);
    assert 2 * a * b * (p.xy + u * v) == 2 * a * b * p.xy + 2 * ((a * u) * (b * v));
    Square(a * u, b * v);
  }

  lemma Square(x: int, y: int)
    ensures (x + y) * (x + y) == x * x + 2 * (x * y) + y * y
    ensures (x - y) * (x - y) == x * x - 2 * (x * y) + y * y
    ensures x * x >= 0
  {
  }

  /** The sum of squared deviations from any c is non-negative. */
  lemma {:induction false} DeviationNonNegative(s: seq<byte>, a: int, b: int, c: int)
    ensures
      var p := PairsOf(s);
      Quad(p, a, b) - 2 * (c * Lin(p, a, b)) + p.n * (c * c) >= 0
  {
    if |s| < 2 {
    } else {
      var p, u, v := PairsOf(s[..|s| - 1]), s[|s| - 2], s[|s| - 1];
      var z := a * u + b * v;
      DeviationNonNegative(s[..|s| - 1], a, b, c);
      QuadAdd(p, u, v, a, b);
      Square(z, c);
      Square(z - c, 0);
      assert c * (Lin(p, a, b) + z) == c * Lin(p, a, b) + c * z;
      assert (p.n + 1) * (c * c) == p.n * (c * c) + c * c;
    }
  }

  /** n times the sum of squares is at least the square of the sum. */
  lemma {:induction false} VarianceNonNegative(s: seq<byte>, a: int, b: int)
    ensures
      var p := PairsOf(s);
      p.n * Quad(p, a, b) >= Lin(p, a, b) * Lin(p, a, b)
  {
    if |s| >= 2 {
      var p, u, v := PairsOf(s[..|s| - 1]), s[|s| - 2], s[|s| - 1];
      var z := a * u + b * v;
      var q, l := Quad(p, a, b), Lin(p, a, b);
      VarianceNonNegative(s[..|s| - 1], a, b);
      DeviationNonNegative(s[..|s| - 1], a, b, z);
      QuadAdd(p, u, v, a, b);
      VarianceStep(p.n, q, l, z);
    }
  }

  lemma VarianceStep(n: int, q: int, l: int, z: int)
    requires n * q >= l * l && q - 2 * (z * l) + n * (z * z) >= 0
    ensures (n + 1) * (q + z * z) >= (l + z) * (l + z)
  {
    assert (n + 1) * (q + z * z) == n * q + n * (z * z) + q + z * z;
    Square(l, z);
    assert z * l == l * z;
  }

  /** The integers that metrics_from_counts divides. */
  function DenomX(p: Pairs): int { p.n * p.x2 - p.x * p.x }

  function DenomY(p: Pairs): int { p.n * p.y2 - p.y * p.y }

  function Numerator(p: Pairs): int { p.n * p.xy - p.x * p.y }

  lemma SquareTerm(n: int, x: int, x2: int, a: int)
    ensures n * (a * a * x2) - (a * x) * (a * x) == a * a * (n * x2 - x * x)
  {
    assert n * (a * a * x2) == a * a * (n * x2);
    assert (a * x) * (a * x) == a * a * (x * x);
    assert a * a * (n * x2 - x * x) == a * a * (n * x2) - a * a * (x * x);
  }

  lemma CrossTerm(n: int, x: int, y: int, xy: int, a: int, b: int)
    ensures n * (2 * a * b * xy) - 2 * ((a * x) * (b * y)) == 2 * (a * b * (n * xy - x * y))
  {
    assert n * (2 * a * b * xy) == 2 * (a * b * (n * xy));
    assert (a * x) * (b * y) == a * b * (x * y);
    assert a * b * (n * xy - x * y) == a * b * (n * xy) - a * b * (x * y);
  }

  lemma ThreeTerms(n: int, u: int, v: int, w: int)
    ensures n * (u + v + w) == n * u + n * v + n * w
  {
  }

  lemma FormExpands(p: Pairs, a: int, b: int)
    ensures p.n * Quad(p, a, b) - Lin(p, a, b) * Lin(p, a, b)
         == a * a * DenomX(p) + 2 * (a * b * Numerator(p)) + b * b * DenomY(p)
  {
    Square(a * p.x, b * p.y);
    SquareTerm(p.n, p.x, p.x2, a);
    SquareTerm(p.n, p.y, p.y2, b);
    CrossTerm(p.n, p.x, p.y, p.xy, a, b);
    ThreeTerms(p.n, a * a * p.x2, 2 * a * b * p.xy, b * b * p.y2);
  }

  /** x a^2 + 2 c a b + y b^2 >= 0 */
  ghost predicate FormAt(x: int, c: int, y: int, a: int, b: int) {
    a * a * x + 2 * (a * b * c) + b * b * y >= 0
  }

  lemma Form(s: seq<byte>, a: int, b: int)
    ensures FormAt(DenomX(PairsOf(s)), Numerator(PairsOf(s)), DenomY(PairsOf(s)), a, b)
  {
    VarianceNonNegative(s, a, b);
    FormExpands(PairsOf(s), a, b);
  }

  lemma FormDiagonal(x: int, c: int, y: int)
    requires FormAt(x, c, y, 1, 0) && FormAt(x, c, y, 0, 1)
    ensures x >= 0 && y >= 0
  {
  }

  /** A non-negative quadratic form has a non-negative discriminant. */
  lemma Discriminant(x: int, c: int, y: int)
    requires y > 0 && FormAt(x, c, y, y, -c)
    ensures c * c <= x * y
  {
    assert y * y * x + 2 * (y * (-c) * c) + (-c) * (-c) * y == y * (x * y - c * c);
    if x * y - c * c < 0 {
      MulMono(y, x * y - c * c, -1);
    }
  }

  lemma DegenerateForm(x: int, c: int, b: int)
    requires x >= 0 && b == -(x + 1) * c && FormAt(x, c, 0, 1, b)
    ensures c == 0
  {
    Square(c, 0);
    assert b * c == -((x + 1) * (c * c));
    MulMono(x + 1, if c == 0 then 0 else 1, c * c);
  }

  lemma NumeratorBounded(s: seq<byte>)
    ensures
      var p := PairsOf(s);
      DenomX(p) >= 0 && DenomY(p) >= 0 && Numerator(p) * Numerator(p) <= DenomX(p) * DenomY(p)
  {
    var p := PairsOf(s);
    Form(s, 1, 0);
    Form(s, 0, 1);
    Form(s, DenomY(p), -Numerator(p));
    Form(s, 1, -(DenomX(p) + 1) * Numerator(p));
    DiscriminantBound(DenomX(p), Numerator(p), DenomY(p));
  }

  lemma DiscriminantBound(x: int, c: int, y: int)
    requires FormAt(x, c, y, 1, 0) && FormAt(x, c, y, 0, 1)
    requires FormAt(x, c, y, y, -c) && FormAt(x, c, y, 1, -(x + 1) * c)
    ensures x >= 0 && y >= 0 && c * c <= x * y
  {
    FormDiagonal(x, c, y);
    if y > 0 {
      Discriminant(x, c, y);
    } else {
      DegenerateForm(x, c, -(x + 1) * c);
    }
  }

  /** In exact arithmetic both denominators are non-negative and the squared
      numerator is at most their product: the serial correlation lies in
      [-1, 1], and where its denominator is zero so is its numerator. The
      max(..., 0.0) guards can only absorb rounding. */
  lemma SerialCorrelationBounded(s: seq<byte>)
    ensures
      var p := PairsOf(s);
      && DenomX(p) >= 0 && DenomY(p) >= 0
      && Numerator(p) * Numerator(p) <= DenomX(p) * DenomY(p)
      && (DenomX(p) * DenomY(p) == 0 ==> Numerator(p) == 0)
  {
    NumeratorBounded(s);
    SquareZero(Numerator(PairsOf(s)));
  }

  lemma SquareZero(c: int)
    ensures c * c <= 0 ==> c == 0
  {
  }

  // ---- metrics_from_counts, in exact integers ----

  datatype Metrics = Metrics(bytes: nat, maxCount: nat, byteSum: nat, ones: nat, chi: nat,
                             numerator: int, denomX: int, denomY: int)

  function ByteValue(v: byte): nat { v }

  /** The chi-square sum over the counts of a finished state. */
  method ChiSquare(st: Stats, ghost s: seq<byte>) returns (chi: nat)
    requires st.Summarizes(s)
    ensures chi == ChiNumerator(s)
  {
    var squares := 0;
    for i := 0 to 256
      invariant squares == SquareTotal(s, i)
    {
      var v: byte := i;
      assert st.counts[v] == Count(v, s);
      squares := squares + st.counts[v] * st.counts[v];
    }
    chi := ChiFrom(squares, st.n, s);
  }

  /** The serial correlation c / sqrt(x * y) is well-defined and in [-1, 1]. */
  predicate Bounded(c: int, x: int, y: int) {
    x >= 0 && y >= 0 && c * c <= x * y
  }

  predicate IsSerial(c: int, x: int, y: int, p: Pairs) {
    c == Numerator(p) && x == DenomX(p) && y == DenomY(p)
  }

  /** The guarded computation: with at most one pair the terms stay zero, which
      is what the formulas give. */
  method SerialTerms(p: Pairs, ghost s: seq<byte>) returns (numerator: int, denomX: int, denomY: int)
    requires p == PairsOf(s)
    ensures IsSerial(numerator, denomX, denomY, p) && Bounded(numerator, denomX, denomY)
  {
    numerator, denomX, denomY := 0, 0, 0;
    if p.n > 1 {
      numerator := p.n * p.xy - p.x * p.y;
      denomX := p.n * p.x2 - p.x * p.x;
      denomY := p.n * p.y2 - p.y * p.y;
      NumeratorBounded(s);
    } else {
      AtMostOnePair(s);
      FewPairs(p);
    }
  }

  /** metrics_from_counts on a finished state; an empty input is an error. The
      counts add up to the file length, the most common byte has at least a 256th
      of it, and the table sums are the direct sums over the file. */
  method MetricsFromCounts(st: Stats, ghost s: seq<byte>) returns (m: Option<Metrics>)
    requires st.Summarizes(s)
    ensures m.None? <==> s == []
    ensures m.Some? ==>
      && m.value.bytes == |s|
      && (exists v: byte :: Count(v, s) == m.value.maxCount) && (forall v: byte :: Count(v, s) <= m.value.maxCount)
      && 256 * m.value.maxCount >= |s|
      && m.value.byteSum == Direct(ByteValue, s) && m.value.ones == Direct(ByteBits, s)
      && m.value.chi == ChiNumerator(s)
      && IsSerial(m.value.numerator, m.value.denomX, m.value.denomY, PairsOf(s))
      && Bounded(m.value.numerator, m.value.denomX, m.value.denomY)
  {
    if st.n == 0 {
      return None;
    }
    var maxCount, byteSum, ones := st.counts[0], 0, 0;
    for i := 0 to 256
      invariant forall v: byte :: v < i ==> Count(v, s) <= maxCount
      invariant exists v: byte :: Count(v, s) == maxCount
      invariant byteSum == Weighted(ByteValue, s, i) && ones == Weighted(ByteBits, s, i)
    {
      var v: byte := i;
      assert st.counts[v] == Count(v, s);
      if st.counts[v] > maxCount {
        maxCount := st.counts[v];
      }
      byteSum := byteSum + ByteValue(v) * st.counts[v];
      ones := ones + ByteBits(v) * st.counts[v];
    }
    TableSumIsDirect(ByteValue, s);
    TableSumIsDirect(ByteBits, s);
    MaxCountAtLeast(s, maxCount);
    var chi := ChiSquare(st, s);
    var numerator, denomX, denomY := SerialTerms(st.pairs, s);
    m := Some(Metrics(st.n, maxCount, byteSum, ones, chi, numerator, denomX, denomY));
  }

  lemma NoPairIsZero(p: Pairs)
    requires p == NO_PAIRS
    ensures Numerator(p) == DenomX(p) == DenomY(p) == 0
  {
    var n, x, y := p.n, p.x, p.y;
    ZeroTimes(n, p.xy);
    ZeroTimes(n, p.x2);
    ZeroTimes(n, p.y2);
    ZeroTimes(x, y);
    ZeroTimes(x, x);
    ZeroTimes(y, y);
  }

  lemma ZeroTimes(z: int, a: int)
    requires z == 0
    ensures z * a == 0
  {
  }

  lemma OnePairIsZero(u: byte, v: byte)
    ensures
      var p := NO_PAIRS.Add(u, v);
      Numerator(p) == DenomX(p) == DenomY(p) == 0
  {
    var uu, vv, uv := u * u, v * v, u * v;
    assert NO_PAIRS.Add(u, v) == Pairs(1, u, v, uu, vv, uv);
  }

  lemma AtMostOnePair(s: seq<byte>)
    requires PairsOf(s).n <= 1
    ensures PairsOf(s) == NO_PAIRS || exists u: byte, v: byte :: PairsOf(s) == NO_PAIRS.Add(u, v)
  {
    PairCount(s);
    if |s| == 2 {
      assert PairsOf(s) == NO_PAIRS.Add(s[0], s[1]);
    }
  }

  /** With at most one pair everything the correlation divides is zero anyway. */
  lemma FewPairs(p: Pairs)
    requires p == NO_PAIRS || exists u: byte, v: byte :: p == NO_PAIRS.Add(u, v)
    ensures Numerator(p) == DenomX(p) == DenomY(p) == 0
  {
    if p == NO_PAIRS {
      NoPairIsZero(p);
    } else {
      var u: byte, v: byte :| p == NO_PAIRS.Add(u, v);
      OnePairIsZero(u, v);
    }
  }

  // ---- windows ----

  lemma {:induction false} PairCount(s: seq<byte>)
    ensures PairsOf(s).n == if s == [] then 0 else |s| - 1
  {
    if |s| >= 2 {
      PairCount(s[..|s| - 1]);
    }
  }

  /** A row that iter_windows yields, with the bytes it was computed from. */
  datatype Window = Window(index: nat, offset: nat, data: seq<byte>, pairs: Pairs)

  function WindowData(rows: seq<Window>): seq<byte> {
    if rows == [] then [] else WindowData(rows[..|rows| - 1]) + rows[|rows| - 1].data
  }

  function PairTotal(rows: seq<Window>): nat {
    if rows == [] then 0 else PairTotal(rows[..|rows| - 1]) + rows[|rows| - 1].pairs.n
  }

  function CountTotal(v: byte, rows: seq<Window>): nat {
    if rows == [] then 0 else CountTotal(v, rows[..|rows| - 1]) + Count(v, rows[|rows| - 1].data)
  }

  /** One full or final read, summarized from an empty state. */
  method ReadWindow(data: seq<byte>, offset: nat, size: nat, index: nat) returns (row: Window)
    requires offset < |data| && size > 0
    ensures row.index == index && row.offset == offset && row.data == data[offset..Min(offset + size, |data|)]
    ensures row.pairs == PairsOf(row.data)
  {
    var chunk := data[offset..Min(offset + size, |data|)];
    var st := new Stats();
    st.Update(chunk, []);
    assert [] + chunk == chunk;
    row := Window(index, offset, chunk, st.pairs);
  }

  /** Row i starts where the rows before it end, and only the last may be short. */
  ghost predicate WindowOk(rows: seq<Window>, i: nat, size: nat)
    requires i < |rows|
  {
    var row := rows[i];
    && row.index == i && row.offset == |WindowData(rows[..i])| && row.pairs == PairsOf(row.data)
    && 0 < |row.data| <= size && (i < |rows| - 1 ==> |row.data| == size)
  }

  lemma WindowsExtend(rows: seq<Window>, row: Window, size: nat)
    requires forall i: nat :: i < |rows| ==> WindowOk(rows, i, size) && |rows[i].data| == size
    requires row.index == |rows| && row.offset == |WindowData(rows)| && row.pairs == PairsOf(row.data)
    requires 0 < |row.data| <= size
    ensures forall i: nat :: i < |rows| + 1 ==> WindowOk(rows + [row], i, size)
    ensures WindowData(rows + [row]) == WindowData(rows) + row.data
  {
    assert (rows + [row])[..|rows|] == rows;
    forall i: nat | i < |rows|
      ensures WindowOk(rows + [row], i, size)
    {
      assert WindowOk(rows, i, size);
      assert (rows + [row])[..i] == rows[..i];
    }
  }

  /** iter_windows: reads of window_bytes until one is empty. The windows
      partition the file, all full but perhaps the last. */
  method IterWindows(data: seq<byte>, size: nat) returns (rows: seq<Window>)
    requires size > 0
    ensures WindowData(rows) == data
    ensures forall i: nat :: i < |rows| ==> WindowOk(rows, i, size)
  {
    rows := [];
    var offset := 0;
    while offset < |data|
      invariant offset <= |data| && WindowData(rows) == data[..offset]
      invariant forall i: nat :: i < |rows| ==> WindowOk(rows, i, size)
      invariant offset < |data| ==> forall i: nat :: i < |rows| ==> |rows[i].data| == size
      decreases |data| - offset
    {
      var row := ReadWindow(data, offset, size, |rows|);
      Adjoin(data, 0, offset, offset + |row.data|);
      WindowsExtend(rows, row, size);
      rows := rows + [row];
      offset := offset + |row.data|;
    }
  }

  lemma {:induction false} FullWindows(rows: seq<Window>, size: nat)
    requires forall i :: 0 <= i < |rows| ==> |rows[i].data| == size
    ensures |WindowData(rows)| == |rows| * size
  {
    if rows != [] {
      var n := |rows| - 1;
      FullWindows(rows[..n], size);
      assert (n + 1) * size == n * size + size;
    }
  }

  /** A file of n bytes has n / size windows, rounded up. */
  lemma WindowCount(rows: seq<Window>, size: nat)
    requires size > 0 && forall i: nat :: i < |rows| ==> WindowOk(rows, i, size)
    ensures |rows| == (|WindowData(rows)| + size - 1) / size
  {
    if rows == [] {
      CeilIs(0, size, 0);
    } else {
      var n: nat := |rows| - 1;
      forall i: nat | i < n
        ensures |rows[i].data| == size
      {
        assert WindowOk(rows, i, size);
      }
      FullWindows(rows[..n], size);
      assert WindowOk(rows, n, size);
      CeilAfter(n, |rows[n].data|, size);
    }
  }

  lemma CeilAfter(n: nat, last: nat, size: nat)
    requires 0 < last <= size
    ensures n + 1 == (n * size + last + size - 1) / size
  {
    assert (n + 1) * size == n * size + size;
    CeilIs(n * size + last, size, n + 1);
  }

  lemma CeilIs(len: nat, size: nat, n: nat)
    requires size > 0 && len <= n * size && (n > 0 ==> (n - 1) * size < len)
    ensures n == (len + size - 1) / size
  {
    var q := (len + size - 1) / size;
    assert q * size <= len + size - 1 < q * size + size;
    if q < n {
      MulMono(size, q, n - 1);
    } else if q > n {
      MulMono(size, n + 1, q);
    }
  }

  /** Over the windows of a file the counts add up to the file's counts, and
      the pairs that straddle two windows are the only ones lost. */
  lemma {:induction false} WindowsAddUp(rows: seq<Window>, v: byte)
    requires forall i :: 0 <= i < |rows| ==> rows[i].pairs == PairsOf(rows[i].data) && rows[i].data != []
    ensures CountTotal(v, rows) == Count(v, WindowData(rows))
    ensures PairTotal(rows) == |WindowData(rows)| - |rows|
  {
    if rows != [] {
      var init, last := rows[..|rows| - 1], rows[|rows| - 1];
      WindowsAddUp(init, v);
      CountConcat(v, WindowData(init), last.data);
      PairCount(last.data);
    }
  }

  // ---- aligned comparison of two files ----

  function EqualBytes(a: seq<byte>, b: seq<byte>): nat
    requires |a| == |b|
  {
    if a == [] then 0
    else EqualBytes(a[..|a| - 1], b[..|b| - 1]) + (if a[|a| - 1] == b[|b| - 1] then 1 else 0)
  }

  lemma {:induction false} EqualConcat(a: seq<byte>, b: seq<byte>, c: seq<byte>, d: seq<byte>)
    requires |a| == |b| && |c| == |d|
    ensures EqualBytes(a + c, b + d) == EqualBytes(a, b) + EqualBytes(c, d)
  {
    if c == [] {
      assert a + c == a && b + d == b;
    } else {
      var n := |c| - 1;
      EqualConcat(a, b, c[..n], d[..n]);
      assert (a + c)[..|a| + n] == a + c[..n] && (b + d)[..|b| + n] == b + d[..n];
    }
  }

  /** The zip over two equally long reads. */
  method CompareChunk(a: seq<byte>, b: seq<byte>) returns (equal: nat, differing: nat)
    requires |a| == |b|
    ensures equal == EqualBytes(a, b) && differing == Hamming(a, b)
  {
    equal, differing := 0, 0;
    for i := 0 to |a|
      invariant equal == EqualBytes(a[..i], b[..i]) && differing == Hamming(a[..i], b[..i])
    {
      assert a[..i + 1][..i] == a[..i] && b[..i + 1][..i] == b[..i];
      var x: nat, y: nat := a[i], b[i];
      equal := equal + if x == y then 1 else 0;
      differing := differing + BitCount(Xor(x, y));
    }
    assert a[..|a|] == a && b[..|b|] == b;
  }

  /** One more aligned piece, cut to the shorter of two reads. */
  lemma AlignedStep(a: seq<byte>, b: seq<byte>, at: nat, endA: nat, endB: nat)
    requires at <= endA <= |a| && at <= endB <= |b|
    ensures
      var n := Min(endA, endB) - at;
      var pieceA, pieceB := a[at..endA][..n], b[at..endB][..n];
      EqualBytes(a[..at + n], b[..at + n]) == EqualBytes(a[..at], b[..at]) + EqualBytes(pieceA, pieceB)
      && Hamming(a[..at + n], b[..at + n]) == Hamming(a[..at], b[..at]) + Hamming(pieceA, pieceB)
  {
    var n := Min(endA, endB) - at;
    assert a[..at] + a[at..endA][..n] == a[..at + n];
    assert b[..at] + b[at..endB][..n] == b[..at + n];
    EqualConcat(a[..at], b[..at], a[at..endA][..n], b[at..endB][..n]);
    HammingConcat(a[..at], b[..at], a[at..endA][..n], b[at..endB][..n]);
  }

  /** compare_aligned_files: chunked reads of both files until either ends. The
      totals are those of one pass over the common prefix. */
  method CompareAligned(a: seq<byte>, b: seq<byte>, chunk: nat) returns (compared: nat, equal: nat, differing: nat)
    requires chunk > 0
    ensures compared == Min(|a|, |b|)
    ensures equal == EqualBytes(a[..compared], b[..compared])
    ensures differing == Hamming(a[..compared], b[..compared])
  {
    var atA, atB := 0, 0;
    compared, equal, differing := 0, 0, 0;
    while true
      invariant atA <= |a| && atB <= |b| && compared == Min(atA, atB)
      invariant atA == atB || (compared == Min(|a|, |b|) && (atA == |a| || atB == |b|))
      invariant equal == EqualBytes(a[..compared], b[..compared])
      invariant differing == Hamming(a[..compared], b[..compared])
      decreases |a| - atA + |b| - atB
    {
      var endA, endB := Min(atA + chunk, |a|), Min(atB + chunk, |b|);
      var dataA, dataB := a[atA..endA], b[atB..endB];
      if dataA == [] || dataB == [] {
        break;
      }
      assert atA == atB == compared;
      var keep := Min(|dataA|, |dataB|);
      AlignedStep(a, b, compared, endA, endB);
      assert dataA[..|dataA|] == dataA && dataB[..|dataB|] == dataB;
      if |dataA| != |dataB| {
        dataA, dataB := dataA[..keep], dataB[..keep];
      }
      var equalHere, differingHere := CompareChunk(dataA, dataB);
      compared, equal, differing := compared + keep, equal + equalHere, differing + differingHere;
      atA, atB := endA, endB;
    }
  }

  /** Two aligned files differ in no bit iff all bytes are equal iff they are the
      same bytes. */
  lemma {:induction false} NoDifferenceIff(a: seq<byte>, b: seq<byte>)
    requires |a| == |b|
    ensures EqualBytes(a, b) <= |a|
    ensures Hamming(a, b) == 0 <==> a == b
    ensures EqualBytes(a, b) == |a| <==> a == b
  {
    if a != [] {
      var n := |a| - 1;
      NoDifferenceIff(a[..n], b[..n]);
      HammingZeroIff(a, b);
      assert a == a[..n] + [a[n]] && b == b[..n] + [b[n]];
    }
  }
}
