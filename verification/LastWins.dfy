/** Maps filled by inserting pairs one after another: a later pair replaces an earlier one. */
module LastWins {

  function Collect<K(==), V>(pairs: seq<(K, V)>): map<K, V> {
    if |pairs| == 0 then map[]
    else
      var last := pairs[|pairs| - 1];
      Collect(pairs[..|pairs| - 1])[last.0 := last.1]
  }

  /** The pair at `i` is the last one with its key. */
  predicate LastOf<K(==), V>(pairs: seq<(K, V)>, i: nat) {
    i < |pairs| && forall j | i < j < |pairs| :: pairs[j].0 != pairs[i].0
  }

  function Keys<K(==), V>(pairs: seq<(K, V)>): set<K> {
    set i | 0 <= i < |pairs| :: pairs[i].0
  }

  /** The keys are those that occur. */
  lemma {:induction false} CollectedKeys<K, V>(pairs: seq<(K, V)>)
    ensures Collect(pairs).Keys == Keys(pairs)
  {
    if |pairs| == 0 {
    } else {
      var front := pairs[..|pairs| - 1];
      CollectedKeys(front);
      assert Keys(pairs) == Keys(front) + {pairs[|pairs| - 1].0} by {
        forall k | k in Keys(pairs) ensures k in Keys(front) + {pairs[|pairs| - 1].0} {
          var i :| 0 <= i < |pairs| && pairs[i].0 == k;
          assert i < |front| ==> front[i].0 == k;
        }
        forall k | k in Keys(front) ensures k in Keys(pairs) {
          var i :| 0 <= i < |front| && front[i].0 == k;
          assert pairs[i].0 == k;
        }
      }
    }
  }

  lemma KeysAppend<K, V>(a: seq<(K, V)>, b: seq<(K, V)>)
    ensures Keys(a + b) == Keys(a) + Keys(b)
  {
    forall k | k in Keys(a) + Keys(b) ensures k in Keys(a + b) {
      if i :| 0 <= i < |a| && a[i].0 == k {
        assert (a + b)[i].0 == k;
      } else {
        var i :| 0 <= i < |b| && b[i].0 == k;
        assert (a + b)[|a| + i].0 == k;
      }
    }
  }

  /** Each key is bound to the value of its last occurrence. */
  lemma {:induction false} CollectedValue<K, V>(pairs: seq<(K, V)>, i: nat)
    requires LastOf(pairs, i)
    ensures pairs[i].0 in Collect(pairs) && Collect(pairs)[pairs[i].0] == pairs[i].1
  {
    var front := pairs[..|pairs| - 1];
    if i < |front| {
      assert front[i] == pairs[i];
      CollectedValue(front, i);
      assert pairs[|pairs| - 1].0 != pairs[i].0;
    }
  }

  lemma {:induction false} CollectAppend<K, V>(a: seq<(K, V)>, b: seq<(K, V)>)
    ensures |Collect(a)| <= |Collect(a + b)|
    ensures Collect(a).Keys <= Collect(a + b).Keys
  {
    CollectedKeys(a);
    CollectedKeys(a + b);
    forall k | k in Keys(a) ensures k in Keys(a + b) {
      var i :| 0 <= i < |a| && a[i].0 == k;
      assert (a + b)[i].0 == k;
    }
    SubsetSize(Collect(a).Keys, Collect(a + b).Keys);
    assert |Collect(a)| == |Collect(a).Keys| && |Collect(a + b)| == |Collect(a + b).Keys|;
  }

  lemma {:induction false} SubsetSize<K>(a: set<K>, b: set<K>)
    requires a <= b
    ensures |a| <= |b|
    ensures |a| == |b| ==> a == b
    decreases a
  {
    if a == {} {
      assert |b| == 0 ==> b == {};
    } else {
      var k :| k in a;
      SubsetSize(a - {k}, b - {k});
      assert a == (a - {k}) + {k} && b == (b - {k}) + {k};
    }
  }
}
