/** Shrinking something through numbered stages until it fits a size limit. */
module Shrinking {

  /** The first of the stages `k`, `k + 1`, ..., `last` that fits, or the last stage and false. */
  function FirstFit<T>(stage: nat -> T, size: T -> nat, limit: nat, last: nat, k: nat): (T, bool)
    requires k <= last
    decreases last - k
  {
    if size(stage(k)) <= limit then (stage(k), true)
    else if k == last then (stage(k), false)
    else FirstFit(stage, size, limit, last, k + 1)
  }

  lemma {:induction false} FirstFitIsLeast<T>(stage: nat -> T, size: T -> nat, limit: nat, last: nat, k: nat)
    requires k <= last
    ensures var (q, fits) := FirstFit(stage, size, limit, last, k);
            && (fits <==> exists n :: k <= n <= last && size(stage(n)) <= limit)
            && (fits ==> exists n :: k <= n <= last && q == stage(n) && size(q) <= limit &&
                           forall m | k <= m < n :: size(stage(m)) > limit)
    decreases last - k
  {
    if size(stage(k)) > limit && k < last {
      FirstFitIsLeast(stage, size, limit, last, k + 1);
      var (q, fits) := FirstFit(stage, size, limit, last, k);
      if fits {
        var n :| k + 1 <= n <= last && q == stage(n) && size(q) <= limit &&
                 forall m | k + 1 <= m < n :: size(stage(m)) > limit;
        assert size(stage(n)) <= limit;
      }
    }
  }

  /** Counted from the other end: what fits is shown as long as it can be. */
  lemma {:induction false} FirstFitShowsMost<T>(stage: nat -> T, show: nat -> T, size: T -> nat, limit: nat, last: nat)
    requires forall k | 0 <= k <= last :: stage(k) == show(last - k)
    ensures var (q, fits) := FirstFit(stage, size, limit, last, 0);
            && (fits <==> exists n :: 0 <= n <= last && size(show(n)) <= limit)
            && (fits ==> exists n :: 0 <= n <= last && q == show(n) && size(q) <= limit &&
                           forall m | n < m <= last :: size(show(m)) > limit)
  {
    FirstFitIsLeast(stage, size, limit, last, 0);
    var (q, fits) := FirstFit(stage, size, limit, last, 0);
    if fits {
      var k: nat :| k <= last && q == stage(k) && size(q) <= limit && forall m | 0 <= m < k :: size(stage(m)) > limit;
      forall m | last - k < m <= last ensures size(show(m)) > limit {
        assert stage(last - m) == show(m);
      }
      assert q == show(last - k);
    }
    if n :| 0 <= n <= last && size(show(n)) <= limit {
      assert stage(last - n) == show(n);
    }
  }
}
