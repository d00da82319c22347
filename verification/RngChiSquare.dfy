/** The chi-square statistic of byte counts, in integers. */
module RngChiSquare {
  import opened Bytes
  import opened RngCounts

  function Sq(d: int): (r: nat)
    ensures r == 0 <==> d == 0
  {
    SquareIsZero(d);
    d * d
  }

  lemma SquareIsZero(d: int)
    ensures d * d >= 0 && (d * d == 0 <==> d == 0)
  {
  }

  /** sum(count ** 2) over the first k table entries. */
  function SquareTotal(s: seq<byte>, k: nat): nat
    requires k <= 256
  {
    if k == 0 then 0 else SquareTotal(s, k - 1) + Count(k - 1, s) * Count(k - 1, s)
  }

  /** How far a count is from an even spread, times 256. */
  function Gap(s: seq<byte>, v: byte): int {
    256 * Count(v, s) - |s|
  }

  function Unevenness(s: seq<byte>, k: nat): nat
    requires k <= 256
  {
    if k == 0 then 0 else Unevenness(s, k - 1) + Sq(Gap(s, k - 1))
  }

  lemma {:induction false} EvenIff(s: seq<byte>, k: nat)
    requires k <= 256
    ensures Unevenness(s, k) == 0 <==> forall v: byte :: v < k ==> Gap(s, v) == 0
  {
    if k > 0 {
      EvenIff(s, k - 1);
      var last: byte := k - 1;
      assert Gap(s, last) == 0 <==> Sq(Gap(s, last)) == 0;
    }
  }

  lemma OneGap(c: nat, n: nat)
    ensures Sq(256 * c - n) == 65536 * (c * c) - 512 * (n * c) + n * n
  {
  }

  lemma UnevenStep(u: int, d: int, squares: int, cc: int, nsum: int, nc: int, nn: int, before: int, after: int)
    requires u == 65536 * squares - 512 * nsum + before && d == 65536 * cc - 512 * nc + nn && after == before + nn
    ensures u + d == 65536 * (squares + cc) - 512 * (nsum + nc) + after
  {
  }

  lemma Distribute(n: int, a: int, b: int)
    ensures n * (a + b) == n * a + n * b
  {
  }

  lemma NextMultiple(k: int, a: int)
    ensures k * a == (k - 1) * a + a
  {
  }

  lemma {:induction false} UnevennessIs(s: seq<byte>, k: nat)
    requires k <= 256
    ensures Unevenness(s, k) == 65536 * SquareTotal(s, k) - 512 * (|s| * Weighted(One, s, k)) + k * (|s| * |s|)
  {
    if k > 0 {
      UnevennessIs(s, k - 1);
      UnevennessNext(s, k, |s| * |s|);
    }
  }

  lemma UnevennessNext(s: seq<byte>, k: nat, nn: int)
    requires 0 < k <= 256 && nn == |s| * |s|
    requires Unevenness(s, k - 1)
          == 65536 * SquareTotal(s, k - 1) - 512 * (|s| * Weighted(One, s, k - 1)) + (k - 1) * nn
    ensures Unevenness(s, k) == 65536 * SquareTotal(s, k) - 512 * (|s| * Weighted(One, s, k)) + k * nn
  {
    var n, c, sum := |s|, Count(k - 1, s), Weighted(One, s, k - 1);
    OneGap(c, n);
    OneWeight(s, k);
    Distribute(n, sum, c);
    NextMultiple(k, nn);
    UnevenStep(Unevenness(s, k - 1), Sq(256 * c - n), SquareTotal(s, k - 1), c * c, n * sum, n * c, nn,
               (k - 1) * nn, k * nn);
  }

  lemma OneWeight(s: seq<byte>, k: nat)
    requires 0 < k <= 256
    ensures Weighted(One, s, k) == Weighted(One, s, k - 1) + Count(k - 1, s)
  {
    NextMultiple(1, Count(k - 1, s));
  }

  lemma ChiArithmetic(u: nat, squares: nat, nn: nat)
    requires u == 65536 * squares - 512 * nn + 256 * nn
    ensures u == 256 * (256 * squares - nn) && 256 * squares - nn >= 0
  {
  }

  lemma ChiIs(s: seq<byte>)
    ensures Unevenness(s, 256) == 256 * (256 * SquareTotal(s, 256) - |s| * |s|)
    ensures 256 * SquareTotal(s, 256) - |s| * |s| >= 0
  {
    UnevennessIs(s, 256);
    TableSumIsDirect(One, s);
    OnesSumIsLength(s);
    ChiArithmetic(Unevenness(s, 256), SquareTotal(s, 256), |s| * |s|);
  }

  /** The chi-square statistic times the file length. */
  function ChiNumerator(s: seq<byte>): nat {
    ChiIs(s);
    256 * SquareTotal(s, 256) - |s| * |s|
  }

  function ChiFrom(squares: nat, n: nat, ghost s: seq<byte>): (chi: nat)
    requires squares == SquareTotal(s, 256) && n == |s|
    ensures chi == ChiNumerator(s)
  {
    ChiIs(s);
    256 * squares - n * n
  }

  predicate Even(s: seq<byte>) {
    forall v: byte :: 256 * Count(v, s) == |s|
  }

  lemma NoGapIff(s: seq<byte>)
    ensures (forall v: byte :: v < 256 ==> Gap(s, v) == 0) <==> Even(s)
  {
    if Even(s) {
      forall v: byte
        ensures Gap(s, v) == 0
      {
        assert 256 * Count(v, s) == |s|;
      }
    } else {
      var v: byte :| 256 * Count(v, s) != |s|;
      assert Gap(s, v) != 0;
    }
  }

  /** It is zero iff every byte value is equally frequent. */
  lemma ChiZeroIff(s: seq<byte>)
    ensures ChiNumerator(s) == 0 <==> Even(s)
  {
    EvenIff(s, 256);
    NoGapIff(s);
    ChiIsUnevenness(s);
  }

  lemma ChiIsUnevenness(s: seq<byte>)
    ensures Unevenness(s, 256) == 256 * ChiNumerator(s)
  {
    ChiIs(s);
  }
}
