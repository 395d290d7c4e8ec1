/** Python's `list(set(xs))`, which render_dag.py uses to drop duplicates:
    a list holding every element of the set exactly once, in an order the
    language leaves unspecified. */
module Collections {

  /** No element occurs twice. */
  predicate Distinct<T(==)>(xs: seq<T>) {
    forall i, j :: 0 <= i < j < |xs| ==> xs[i] != xs[j]
  }

  /** `list(s)` for a set `s`: each element once. The order in which the
      elements are picked is left open, as CPython's hash order is. */
  method ListOfSet<T(==)>(s: set<T>) returns (xs: seq<T>)
    ensures Distinct(xs)
    ensures forall x :: x in xs <==> x in s
    ensures |xs| == |s|
  {
    xs := [];
    var rest := s;
    while rest != {}
      invariant rest <= s
      invariant Distinct(xs)
      invariant forall x :: x in xs <==> x in s && x !in rest
      invariant |xs| + |rest| == |s|
      decreases rest
    {
      var x :| x in rest;
      xs := xs + [x];
      rest := rest - {x};
    }
  }
}

/** Building a dictionary by assigning its entries in order, as
    `d[k] = v` does in a loop: a key assigned again keeps its last value. */
module Entries {

  function Assigned<K, V>(pairs: seq<(K, V)>): map<K, V>
  {
    if pairs == [] then map[]
    else Assigned(pairs[..|pairs| - 1])[pairs[|pairs| - 1].0 := pairs[|pairs| - 1].1]
  }

  /** The keys are those assigned. */
  lemma {:induction false} AssignedKeys<K, V>(pairs: seq<(K, V)>, key: K)
    ensures key in Assigned(pairs) <==> exists i :: 0 <= i < |pairs| && pairs[i].0 == key
    decreases |pairs|
  {
    if pairs != [] {
      var n := |pairs| - 1;
      AssignedKeys(pairs[..n], key);
      if key in Assigned(pairs[..n]) {
        var i :| 0 <= i < n && pairs[..n][i].0 == key;
        assert pairs[..n][i] == pairs[i];
      }
      if exists i :: 0 <= i < |pairs| && pairs[i].0 == key {
        var i :| 0 <= i < |pairs| && pairs[i].0 == key;
        if i < n {
          assert pairs[..n][i] == pairs[i];
        }
      }
    }
  }

  /** Each key holds the value of its last assignment. */
  lemma {:induction false} AssignedLast<K, V>(pairs: seq<(K, V)>, key: K)
    requires key in Assigned(pairs)
    ensures exists i :: && 0 <= i < |pairs| && pairs[i] == (key, Assigned(pairs)[key])
                        && (forall j :: i < j < |pairs| ==> pairs[j].0 != key)
    decreases |pairs|
  {
    var n := |pairs| - 1;
    var init := pairs[..n];
    if pairs[n].0 != key {
      AssignedLast(init, key);
      var i :| && 0 <= i < n && init[i] == (key, Assigned(init)[key])
               && (forall j :: i < j < n ==> init[j].0 != key);
      assert init[i] == pairs[i];
      forall j | i < j < |pairs|
        ensures pairs[j].0 != key
      {
        if j < n {
          assert init[j] == pairs[j];
        }
      }
    }
  }
}
