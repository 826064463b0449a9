/** A JavaScript object filled from an ordered list of entries, key by key:
    a later entry for a key overwrites an earlier one. */
module Dict {

  /** The object an ordered list of entries describes. */
  function Table<K, V>(e: seq<(K, V)>): map<K, V> {
    if e == [] then map[] else Table(e[..|e| - 1])[e[|e| - 1].0 := e[|e| - 1].1]
  }

  ghost predicate DistinctKeys<K, V>(e: seq<(K, V)>) {
    forall i, j :: 0 <= i < j < |e| ==> e[i].0 != e[j].0
  }

  /** The keys of the object are exactly the keys of the entries. */
  lemma {:induction false} TableKeys<K, V>(e: seq<(K, V)>)
    ensures forall k :: k in Table(e) ==> exists i :: 0 <= i < |e| && e[i].0 == k
    ensures forall i :: 0 <= i < |e| ==> e[i].0 in Table(e)
  {
    if e != [] {
      var init := e[..|e| - 1];
      TableKeys(init);
      assert Table(e) == Table(init)[e[|e| - 1].0 := e[|e| - 1].1];
      forall k | k in Table(e) ensures exists i :: 0 <= i < |e| && e[i].0 == k {
        if k != e[|e| - 1].0 {
          assert k in Table(init);
          var i :| 0 <= i < |init| && init[i].0 == k;
          assert e[i].0 == k;
        }
      }
      forall i | 0 <= i < |e| - 1 ensures e[i].0 in Table(e) {
        assert init[i].0 == e[i].0;
      }
    }
  }

  /** With distinct keys every entry is read back as written, and every key
      of the object comes from an entry. */
  lemma {:induction false} TableAt<K, V>(e: seq<(K, V)>, i: nat)
    requires DistinctKeys(e) && i < |e|
    ensures e[i].0 in Table(e) && Table(e)[e[i].0] == e[i].1
    ensures forall k :: k in Table(e) ==> exists j :: 0 <= j < |e| && e[j] == (k, Table(e)[k])
  {
    if i < |e| - 1 {
      TableAt(e[..|e| - 1], i);
    } else if |e| > 1 {
      TableAt(e[..|e| - 1], 0);
    }
  }
}
