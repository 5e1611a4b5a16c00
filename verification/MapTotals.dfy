/** The sum of the amounts that a map assigns to its keys. */
module MapTotals {

  ghost function Total(m: map<string, nat>): nat
    decreases |m|
  {
    if m == map[] then 0
    else
      var k :| k in m;
      m[k] + Total(m - {k})
  }

  lemma {:induction false} TotalRemove(m: map<string, nat>, k: string)
    requires k in m
    ensures Total(m) == m[k] + Total(m - {k})
    decreases |m|
  {
    var j :| j in m && Total(m) == m[j] + Total(m - {j});
    if j != k {
      TotalRemove(m - {j}, k);
      TotalRemove(m - {k}, j);
      assert m - {j} - {k} == m - {k} - {j};
    }
  }

  lemma TotalUpdate(m: map<string, nat>, k: string, n: nat)
    ensures Total(m[k := n]) == Total(m) + n - (if k in m then m[k] else 0)
  {
    TotalRemove(m[k := n], k);
    assert m[k := n] - {k} == m - {k};
    if k in m {
      TotalRemove(m, k);
    } else {
      assert m - {k} == m;
    }
  }

  lemma {:induction false} AtMostTotal(m: map<string, nat>, k: string)
    requires k in m
    ensures m[k] <= Total(m)
  {
    TotalRemove(m, k);
  }

  /** Fewer keys with smaller amounts have a smaller sum. */
  lemma {:induction false} TotalMonotone(small: map<string, nat>, big: map<string, nat>)
    requires forall k :: k in small ==> k in big && small[k] <= big[k]
    ensures Total(small) <= Total(big)
    decreases |small|
  {
    if small != map[] {
      var k :| k in small;
      TotalRemove(small, k);
      TotalRemove(big, k);
      TotalMonotone(small - {k}, big - {k});
    }
  }
}
