/** Strings in code-unit order, as the database and `Array.prototype.sort` compare them. */
module TextOrder {

  /** Lexicographic order; the empty string comes first. */
  predicate Before(a: string, b: string) {
    if b == "" then false
    else if a == "" then true
    else a[0] < b[0] || (a[0] == b[0] && Before(a[1..], b[1..]))
  }

  lemma {:induction false} Transitive(a: string, b: string, c: string)
    requires Before(a, b) && Before(b, c)
    ensures Before(a, c)
  {
    if a != "" && a[0] == b[0] == c[0] {
      Transitive(a[1..], b[1..], c[1..]);
    }
  }

  lemma {:induction false} Irreflexive(a: string)
    ensures !Before(a, a)
  {
    if a != "" {
      Irreflexive(a[1..]);
    }
  }

  lemma {:induction false} Total(a: string, b: string)
    ensures a == b || Before(a, b) || Before(b, a)
  {
    if a != "" && b != "" && a[0] == b[0] {
      Total(a[1..], b[1..]);
      assert a == [a[0]] + a[1..] && b == [b[0]] + b[1..];
    }
  }

  ghost predicate Ascending(s: seq<string>) {
    forall i, j :: 0 <= i < j < |s| ==> Before(s[i], s[j])
  }

  predicate IsLeast(x: string, s: set<string>) {
    x in s && forall y :: y in s && y != x ==> Before(x, y)
  }

  lemma {:induction false} LeastExists(s: set<string>)
    requires s != {}
    ensures exists x :: IsLeast(x, s)
  {
    var x :| x in s;
    var rest := s - {x};
    if rest == {} {
      assert s == {x} + rest;
      assert IsLeast(x, s);
    } else {
      LeastExists(rest);
      var y :| IsLeast(y, rest);
      Total(x, y);
      if Before(x, y) {
        forall z | z in s && z != x ensures Before(x, z) {
          if z != y { Transitive(x, y, z); }
        }
        assert IsLeast(x, s);
      } else {
        assert IsLeast(y, s);
      }
    }
  }

  lemma LeastIsUnique(s: set<string>, x: string, y: string)
    requires IsLeast(x, s) && IsLeast(y, s)
    ensures x == y
  {
    if x != y {
      Transitive(x, y, x);
      Irreflexive(x);
    }
  }

  /** The members of a set in order, as `[...s].sort()` lists them. */
  function Sorted(s: set<string>): seq<string> {
    if s == {} then []
    else
      LeastExists(s);
      assert forall x, y :: IsLeast(x, s) && IsLeast(y, s) ==> x == y by {
        forall x, y | IsLeast(x, s) && IsLeast(y, s) ensures x == y {
          LeastIsUnique(s, x, y);
        }
      }
      var least :| IsLeast(least, s);
      [least] + Sorted(s - {least})
  }

  /** Sorting lists every member once, in ascending order. */
  lemma {:induction false} SortedLists(s: set<string>)
    ensures Ascending(Sorted(s)) && forall x :: x in Sorted(s) <==> x in s
  {
    if s != {} {
      var least := Sorted(s)[0];
      SortedLists(s - {least});
      forall y | y in Sorted(s - {least}) ensures Before(least, y) {
      }
      assert Sorted(s)[1..] == Sorted(s - {least});
    }
  }
}
