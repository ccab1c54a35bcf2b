/** Summing the values of a map in a fixed order (ascending keys), as the
    program sums the grams of a recipe. */
module MapSums {
  import opened SetMin

  /** Sum of the values of `m`. */
  function SumValues(m: map<int, int>): int
    decreases |m|
  {
    if m == map[] then 0
    else
      var k := MinKey(m.Keys);
      m[k] + SumValues(m - {k})
  }

  /** The smallest key: a deterministic choice of the next entry to sum
      (the least element exists and is unique, so the choice is a function). */
  function MinKey(keys: set<int>): (k: int)
    requires keys != {}
    ensures k in keys
  {
    MinExists(keys);
    var k :| k in keys && forall j :: j in keys ==> k <= j;
    k
  }

  /** A map of positive values sums to at least its number of entries. */
  lemma {:induction false} SumOfPositive(m: map<int, int>)
    requires forall k :: k in m ==> m[k] > 0
    ensures SumValues(m) >= |m|
    decreases |m|
  {
    if m != map[] {
      var k := MinKey(m.Keys);
      var rest := m - {k};
      assert |rest| == |m| - 1;
      SumOfPositive(rest);
    }
  }
}

/** Every non-empty set of integers has a least element. */
module SetMin {

  lemma MinExists(keys: set<int>)
    requires keys != {}
    ensures exists k :: k in keys && forall j :: j in keys ==> k <= j
  {
    NonEmptyHasMember(keys);
    var x :| x in keys;
    if keys == {x} {
      assert forall j :: j in keys ==> x <= j;
    } else {
      var rest := keys - {x};
      assert |keys| == |rest| + 1;
      MinExists(rest);
      var m :| m in rest && forall j :: j in rest ==> m <= j;
      var k := if x < m then x else m;
      forall j | j in keys ensures k <= j {
        if j != x {
          assert j in rest;
        }
      }
      assert k in keys;
    }
  }

  lemma NonEmptyHasMember(keys: set<int>)
    requires keys != {}
    ensures exists k :: k in keys
  {
    if forall k :: k !in keys {
      EmptyWhenNoMember(keys);
    }
  }

  lemma EmptyWhenNoMember(keys: set<int>)
    requires forall k :: k !in keys
    ensures keys == {}
  {
    var none: set<int> := {};
    assert forall k :: k in keys <==> k in none;
    assert keys == none;
  }
}
