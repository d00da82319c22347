/** Byte counts of a file, and the sums that the tables over them stand for. */
module RngCounts {
  import opened Bits
  import opened Bytes

  function Count(v: byte, s: seq<byte>): nat {
    if s == [] then 0 else Count(v, s[..|s| - 1]) + (if s[|s| - 1] == v then 1 else 0)
  }

  lemma {:induction false} CountConcat(v: byte, a: seq<byte>, b: seq<byte>)
    ensures Count(v, a + b) == Count(v, a) + Count(v, b)
  {
    if b == [] {
      assert a + b == a;
    } else {
      CountConcat(v, a, b[..|b| - 1]);
      assert (a + b)[..|a + b| - 1] == a + b[..|b| - 1];
    }
  }

  /** sum(weight[i] * counts[i]) over the first k table entries. */
  function Weighted(w: byte -> nat, s: seq<byte>, k: nat): nat
    requires k <= 256
  {
    if k == 0 then 0 else Weighted(w, s, k - 1) + w(k - 1) * Count(k - 1, s)
  }

  lemma {:induction false} WeightedEmpty(w: byte -> nat, k: nat)
    requires k <= 256
    ensures Weighted(w, [], k) == 0
  {
    if k > 0 {
      WeightedEmpty(w, k - 1);
    }
  }

  lemma {:induction false} WeightedAppend(w: byte -> nat, s: seq<byte>, b: byte, k: nat)
    requires k <= 256
    ensures Weighted(w, s + [b], k) == Weighted(w, s, k) + (if b < k then w(b) else 0)
  {
    if k > 0 {
      WeightedAppend(w, s, b, k - 1);
      assert (s + [b])[..|s|] == s;
      if b == k - 1 {
        assert w(b) * (Count(b, s) + 1) == w(b) * Count(b, s) + w(b);
      }
    }
  }

  /** Every table sum over the counts equals the direct sum over the bytes: with
      weight 1 the counts add up to n, with the value the byte sum, with the bit
      counts the number of ones. */
  lemma {:induction false} TableSumIsDirect(w: byte -> nat, s: seq<byte>)
    ensures Weighted(w, s, 256) == Direct(w, s)
  {
    if s == [] {
      WeightedEmpty(w, 256);
    } else {
      var init, last := s[..|s| - 1], s[|s| - 1];
      TableSumIsDirect(w, init);
      WeightedAppend(w, init, last, 256);
      assert s == init + [last];
    }
  }

  function One(v: byte): nat { 1 }

  lemma CountStep(sum: nat, count: nat, top: nat, k: nat)
    requires k > 0 && sum <= (k - 1) * top && count <= top
    ensures sum + 1 * count <= k * top
  {
  }

  lemma {:induction false} CountsBounded(s: seq<byte>, top: nat, k: nat)
    requires k <= 256 && forall v: byte :: Count(v, s) <= top
    ensures Weighted(One, s, k) <= k * top
  {
    if k > 0 {
      CountsBounded(s, top, k - 1);
      var v: byte := k - 1;
      assert Count(v, s) <= top;
      CountStep(Weighted(One, s, k - 1), Count(v, s), top, k);
    }
  }

  lemma {:induction false} OnesSumIsLength(s: seq<byte>)
    ensures Direct(One, s) == |s|
  {
    if s != [] {
      OnesSumIsLength(s[..|s| - 1]);
    }
  }

  /** The counts add up to the length, so the largest is at least a 256th. */
  lemma MaxCountAtLeast(s: seq<byte>, top: nat)
    requires forall v: byte :: Count(v, s) <= top
    ensures Weighted(One, s, 256) == |s| <= 256 * top
  {
    TableSumIsDirect(One, s);
    OnesSumIsLength(s);
    CountsBounded(s, top, 256);
  }
}
