/** The order in which `sorted()` lists the airport codes: Python 2 compares
    byte strings character by character, and a proper prefix sorts first. */
module Ordering {

  /** Strict lexicographic order on strings. */
  predicate Below(a: string, b: string)
    decreases |a|
  {
    if |a| == 0 then |b| > 0
    else if |b| == 0 then false
    else if a[0] != b[0] then a[0] < b[0]
    else Below(a[1..], b[1..])
  }

  lemma {:induction false} BelowIrreflexive(a: string)
    ensures !Below(a, a)
    decreases |a|
  {
    if |a| > 0 {
      BelowIrreflexive(a[1..]);
    }
  }

  lemma {:induction false} BelowTransitive(a: string, b: string, c: string)
    requires Below(a, b) && Below(b, c)
    ensures Below(a, c)
    decreases |a|
  {
    if |a| > 0 && a[0] == b[0] && b[0] == c[0] {
      BelowTransitive(a[1..], b[1..], c[1..]);
    }
  }

  lemma {:induction false} BelowTotal(a: string, b: string)
    ensures a == b || Below(a, b) || Below(b, a)
    decreases |a|
  {
    if |a| > 0 && |b| > 0 && a[0] == b[0] {
      BelowTotal(a[1..], b[1..]);
      if a[1..] == b[1..] {
        assert a == [a[0]] + a[1..] && b == [b[0]] + b[1..];
      }
    }
  }

  /** Strictly increasing, hence without repetitions. */
  predicate Ascending(s: seq<string>)
  {
    forall i, j :: 0 <= i < j < |s| ==> Below(s[i], s[j])
  }

  lemma AscendingDistinct(s: seq<string>)
    requires Ascending(s)
    ensures forall i, j :: 0 <= i < |s| && 0 <= j < |s| && i != j ==> s[i] != s[j]
  {
    forall i, j | 0 <= i < |s| && 0 <= j < |s| && i != j
      ensures s[i] != s[j]
    {
      if i < j {
        BelowIrreflexive(s[i]);
      } else {
        BelowIrreflexive(s[j]);
      }
    }
  }

  /** Every non-empty finite set of strings has a least element. */
  lemma {:induction false} LeastExists(keys: set<string>)
    requires keys != {}
    ensures exists m :: m in keys && forall x :: x in keys && x != m ==> Below(m, x)
    decreases |keys|
  {
    var x :| x in keys;
    if keys != {x} {
      var rest := keys - {x};
      LeastExists(rest);
      var m :| m in rest && forall y :: y in rest && y != m ==> Below(m, y);
      BelowTotal(x, m);
      if Below(x, m) {
        forall y | y in keys && y != x
          ensures Below(x, y)
        {
          if y != m {
            BelowTransitive(x, m, y);
          }
        }
      } else {
        assert forall y :: y in keys && y != m ==> Below(m, y);
      }
    }
  }

  /** `sorted(keys)`: the keys of a map in ascending order. */
  method SortKeys(keys: set<string>) returns (order: seq<string>)
    ensures Ascending(order)
    ensures forall k :: k in order <==> k in keys
    ensures |order| == |keys|
  {
    order := [];
    var rest := keys;
    while rest != {}
      invariant Ascending(order)
      invariant forall k :: k in keys <==> k in order || k in rest
      invariant forall i, k :: 0 <= i < |order| && k in rest ==> Below(order[i], k)
      invariant |order| + |rest| == |keys|
      decreases |rest|
    {
      LeastExists(rest);
      var m :| m in rest && forall x :: x in rest && x != m ==> Below(m, x);
      forall i | 0 <= i < |order|
        ensures order[i] != m
      {
        BelowIrreflexive(m);
      }
      order := order + [m];
      rest := rest - {m};
    }
  }

  /** Two ascending sequences with the same elements are equal, so the
      visiting order is fixed by the set of keys alone. */
  lemma {:induction false} AscendingUnique(a: seq<string>, b: seq<string>)
    requires Ascending(a) && Ascending(b)
    requires forall x :: x in a <==> x in b
    ensures a == b
    decreases |a|
  {
    if |a| > 0 {
      assert a[0] in b;
    }
    if |b| > 0 {
      assert b[0] in a;
    }
    if |a| > 0 {
      if a[0] != b[0] {
        assert b[0] in a;
        assert a[0] in b;
        assert Below(a[0], b[0]);
        assert Below(b[0], a[0]);
        BelowTransitive(a[0], b[0], a[0]);
        BelowIrreflexive(a[0]);
      }
      AscendingDistinct(a);
      AscendingDistinct(b);
      forall x
        ensures x in a[1..] <==> x in b[1..]
      {
        if x in a[1..] {
          var i :| 1 <= i < |a| && a[i] == x;
          assert x in b && x != b[0];
        }
        if x in b[1..] {
          var i :| 1 <= i < |b| && b[i] == x;
          assert x in a && x != a[0];
        }
      }
      AscendingUnique(a[1..], b[1..]);
      assert a == [a[0]] + a[1..] && b == [b[0]] + b[1..];
    }
  }
}
