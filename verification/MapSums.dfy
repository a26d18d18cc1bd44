/** Sums of the values of a finite map: the arithmetic behind every "total per disk". */
module MapSums {

  ghost function Sum<K>(m: map<K, nat>): (total: nat)
    decreases |m|
  {
    if m == map[] then 0
    else
      var k :| k in m;
      m[k] + Sum(m - {k})
  }

  /** Any key can be taken out first. */
  lemma {:induction false} SumTakeOut<K>(m: map<K, nat>, k: K)
    requires k in m
    ensures Sum(m) == m[k] + Sum(m - {k})
    decreases |m|
  {
    var j :| j in m && Sum(m) == m[j] + Sum(m - {j});
    if j != k {
      SumTakeOut(m - {j}, k);
      SumTakeOut(m - {k}, j);
      assert m - {j} - {k} == m - {k} - {j};
    }
  }

  lemma SumPut<K>(m: map<K, nat>, k: K, x: nat)
    ensures Sum(m[k := x]) == x + Sum(m - {k})
    ensures k !in m ==> Sum(m[k := x]) == x + Sum(m)
    ensures k in m ==> Sum(m[k := x]) + m[k] == x + Sum(m)
  {
    SumTakeOut(m[k := x], k);
    assert m[k := x] - {k} == m - {k};
    if k in m {
      SumTakeOut(m, k);
    } else {
      assert m - {k} == m;
    }
  }

  /** Fewer entries, each no larger, sum to no more. */
  lemma {:induction false} SumMonotone<K>(a: map<K, nat>, b: map<K, nat>)
    requires a.Keys <= b.Keys
    requires forall k :: k in a ==> a[k] <= b[k]
    ensures Sum(a) <= Sum(b)
    decreases |a|
  {
    if a != map[] {
      var k :| k in a;
      SumTakeOut(a, k);
      SumTakeOut(b, k);
      SumMonotone(a - {k}, b - {k});
    }
  }

  /** Then the sums are equal exactly if the entries are. */
  lemma SumEqualIff<K>(a: map<K, nat>, b: map<K, nat>)
    requires a.Keys == b.Keys
    requires forall k :: k in a ==> a[k] <= b[k]
    ensures Sum(a) == Sum(b) <==> forall k :: k in a ==> a[k] == b[k]
  {
    if k :| k in a && a[k] < b[k] {
      SumTakeOut(a, k);
      SumTakeOut(b, k);
      SumMonotone(a - {k}, b - {k});
    } else {
      SumMonotone(b, a);
      SumMonotone(a, b);
    }
  }

  lemma {:induction false} SumAdd<K>(a: map<K, nat>, b: map<K, nat>, c: map<K, nat>)
    requires a.Keys == b.Keys == c.Keys
    requires forall k :: k in c ==> c[k] == a[k] + b[k]
    ensures Sum(c) == Sum(a) + Sum(b)
    decreases |a|
  {
    if c != map[] {
      var k :| k in c;
      SumTakeOut(a, k);
      SumTakeOut(b, k);
      SumTakeOut(c, k);
      SumAdd(a - {k}, b - {k}, c - {k});
    }
  }

  /** What every entry of `c` is covered by, its sum is covered by. */
  lemma {:induction false} SumCovered<K>(a: map<K, nat>, b: map<K, nat>, c: map<K, nat>)
    requires a.Keys == b.Keys == c.Keys
    requires forall k :: k in c ==> c[k] <= a[k] + b[k]
    ensures Sum(c) <= Sum(a) + Sum(b)
    decreases |a|
  {
    if c != map[] {
      var k :| k in c;
      SumTakeOut(a, k);
      SumTakeOut(b, k);
      SumTakeOut(c, k);
      SumCovered(a - {k}, b - {k}, c - {k});
    }
  }

  /** Each entry of `c` is short of that of `b` by less than `size`. */
  lemma {:induction false} SumShort<K>(b: map<K, nat>, c: map<K, nat>, size: nat)
    requires b.Keys == c.Keys
    requires forall k :: k in c ==> c[k] < b[k] + size
    ensures Sum(c) + |c| <= Sum(b) + |c| * size
    decreases |b|
  {
    if c != map[] {
      var k :| k in c;
      SumTakeOut(b, k);
      SumTakeOut(c, k);
      assert |c - {k}| == |c| - 1 by { assert (c - {k}).Keys == c.Keys - {k}; }
      SumShort(b - {k}, c - {k}, size);
      OneLess(|c|, size);
    }
  }

  /** Pigeonhole: values that are all below `bound` sum to at most `|m| * (bound - 1)`. */
  lemma {:induction false} SumBounded<K>(m: map<K, nat>, bound: nat)
    requires forall k :: k in m ==> m[k] < bound
    ensures Sum(m) + |m| <= |m| * bound
    decreases |m|
  {
    if m != map[] {
      var k :| k in m;
      SumTakeOut(m, k);
      assert |m - {k}| == |m| - 1 by { assert (m - {k}).Keys == m.Keys - {k}; }
      SumBounded(m - {k}, bound);
      OneLess(|m|, bound);
    }
  }

  lemma OneLess(n: nat, bound: nat)
    requires n > 0
    ensures (n - 1) * bound == n * bound - bound
  {
  }

  lemma TimesMonotone(a: int, b: int, c: int)
    requires a <= b && 0 <= c
    ensures a * c <= b * c
  {
  }
}
