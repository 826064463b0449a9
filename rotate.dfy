/** `dict_2d_rotate(obj)` in index.js: the transpose of a two-level
    dictionary, `out[d2][d1] = obj[d1][d2]`. JavaScript objects are modelled as
    maps from strings; the order in which `Object.keys` lists them is left
    open, which the method does by taking the keys in any order. */
module Rotate {

  /** `m` has the entry `m[a][b]`. */
  predicate Entry<V>(m: map<string, map<string, V>>, a: string, b: string)
  {
    a in m && b in m[a]
  }

  /** `m` with `m[a][b] = v`, creating `m[a]` when it is missing. */
  function Set<V>(m: map<string, map<string, V>>, a: string, b: string, v: V): (r: map<string, map<string, V>>)
    ensures forall a', b' :: Entry(r, a', b') <==> Entry(m, a', b') || (a' == a && b' == b)
    ensures Entry(r, a, b) && r[a][b] == v
    ensures forall a', b' :: Entry(m, a', b') && (a' != a || b' != b) ==> Entry(r, a', b') && r[a'][b'] == m[a'][b']
  {
    m[a := (if a in m then m[a] else map[])[b := v]]
  }

  /** The inner keys of `obj`. */
  function InnerKeys<V>(obj: map<string, map<string, V>>): set<string>
  {
    set d1, d2 | d1 in obj && d2 in obj[d1] :: d2
  }

  lemma InnerKeysAt<V>(obj: map<string, map<string, V>>, b: string)
    ensures b in InnerKeys(obj) <==> exists a :: Entry(obj, a, b)
  {
    if b in InnerKeys(obj) {
      var a, d2 :| a in obj && d2 in obj[a] && d2 == b;
      assert Entry(obj, a, b);
    }
  }

  /** The transpose by definition: `d2` is a key of the result when some inner
      dictionary has it, and the result at `d2` gathers those inner values. */
  function Rotated<V>(obj: map<string, map<string, V>>): map<string, map<string, V>>
  {
    map d2 | d2 in InnerKeys(obj) :: Column(obj, d2)
  }

  /** The values of `obj` under the inner key `d2`, by outer key. */
  function Column<V>(obj: map<string, map<string, V>>, d2: string): map<string, V>
  {
    map d1 | d1 in obj && d2 in obj[d1] :: obj[d1][d2]
  }

  /** A key of the transpose is an inner key of `obj`. */
  lemma RotatedKey<V>(obj: map<string, map<string, V>>, d2: string)
    ensures d2 in Rotated(obj) <==> exists d1 :: Entry(obj, d1, d2)
  {
    InnerKeysAt(obj, d2);
  }

  /** The transpose holds exactly the entries of `obj`, each under swapped keys. */
  lemma RotatedAt<V>(obj: map<string, map<string, V>>, d1: string, d2: string)
    ensures Entry(Rotated(obj), d2, d1) <==> Entry(obj, d1, d2)
    ensures Entry(obj, d1, d2) ==> Rotated(obj)[d2][d1] == obj[d1][d2]
  {
    if Entry(obj, d1, d2) {
      InnerKeysAt(obj, d2);
    }
  }

  /** No dictionary of the transpose is empty. */
  lemma RotatedRowsNonEmpty<V>(obj: map<string, map<string, V>>, d2: string)
    ensures d2 in Rotated(obj) ==> Rotated(obj)[d2] != map[]
  {
    if d2 in Rotated(obj) {
      RotatedKey(obj, d2);
      var d1 :| Entry(obj, d1, d2);
      RotatedAt(obj, d1, d2);
    }
  }

  /** The transpose is the only dictionary with the swapped entries of `m` and
      no empty inner dictionary. */
  lemma RotatedUnique<V>(m: map<string, map<string, V>>, R: map<string, map<string, V>>)
    requires forall a, b :: Entry(R, b, a) <==> Entry(m, a, b)
    requires forall a, b :: Entry(m, a, b) ==> Entry(R, b, a) && R[b][a] == m[a][b]
    requires forall b :: b in R ==> R[b] != map[]
    ensures R == Rotated(m)
  {
    forall b ensures b in R <==> b in Rotated(m) {
      RotatedKey(m, b);
      if b in R {
        var a :| a in R[b];
        assert Entry(R, b, a);
      }
    }
    forall b | b in R ensures R[b] == Rotated(m)[b] {
      forall a ensures a in R[b] <==> a in Rotated(m)[b] {
        RotatedAt(m, a, b);
      }
      forall a | a in R[b] ensures R[b][a] == Rotated(m)[b][a] {
        RotatedAt(m, a, b);
      }
    }
  }

  /** Two dictionaries with the same entries have the same transpose. */
  lemma RotatedSameEntries<V>(m: map<string, map<string, V>>, n: map<string, map<string, V>>)
    requires forall a, b :: Entry(m, a, b) <==> Entry(n, a, b)
    requires forall a, b :: Entry(m, a, b) ==> Entry(n, a, b) && m[a][b] == n[a][b]
    ensures Rotated(m) == Rotated(n)
  {
    var R := Rotated(m);
    forall a, b ensures Entry(R, b, a) <==> Entry(n, a, b) {
      RotatedAt(m, a, b);
    }
    forall a, b | Entry(n, a, b) ensures Entry(R, b, a) && R[b][a] == n[a][b] {
      RotatedAt(m, a, b);
    }
    forall b | b in R ensures R[b] != map[] {
      RotatedRowsNonEmpty(m, b);
    }
    RotatedUnique(n, R);
  }

  /** An empty inner dictionary adds nothing to the transpose. */
  lemma RotatedEmptyRow<V>(m: map<string, map<string, V>>, d1: string)
    requires d1 !in m
    ensures Rotated(m[d1 := map[]]) == Rotated(m)
  {
    RotatedSameEntries(m, m[d1 := map[]]);
  }

  /** Setting an entry and transposing is transposing and setting the swapped entry. */
  lemma RotatedSet<V>(m: map<string, map<string, V>>, a: string, b: string, v: V)
    ensures Rotated(Set(m, a, b, v)) == Set(Rotated(m), b, a, v)
  {
    var m' := Set(m, a, b, v);
    var R := Set(Rotated(m), b, a, v);
    forall a', b' ensures Entry(R, b', a') <==> Entry(m', a', b') {
      RotatedAt(m, a', b');
    }
    forall a', b' | Entry(m', a', b') ensures Entry(R, b', a') && R[b'][a'] == m'[a'][b'] {
      RotatedAt(m, a', b');
    }
    forall b' | b' in R ensures R[b'] != map[] {
      if b' == b {
        assert a in R[b];
      } else {
        RotatedRowsNonEmpty(m, b');
      }
    }
    RotatedUnique(m', R);
  }

  /** Creating the missing inner dictionary and then setting the entry is `Set`. */
  lemma CreateThenSet<V>(out: map<string, map<string, V>>, d2: string, d1: string, v: V)
    ensures var o := if d2 in out then out else out[d2 := map[]];
      o[d2 := o[d2][d1 := v]] == Set(out, d2, d1, v)
  {
  }

  /** The part of `m` under the keys in `D`. */
  function Restrict<W>(m: map<string, W>, D: set<string>): (r: map<string, W>)
    requires D <= m.Keys
    ensures r.Keys == D
  {
    map k | k in D :: m[k]
  }

  /** One more inner key visited. */
  lemma RestrictAdd<V>(sub: map<string, map<string, V>>, d1: string, row: map<string, V>, D: set<string>, d2: string)
    requires D <= row.Keys && d2 in row
    ensures Set(sub[d1 := Restrict(row, D)], d1, d2, row[d2]) == sub[d1 := Restrict(row, D + {d2})]
  {
    assert Restrict(row, D)[d2 := row[d2]] == Restrict(row, D + {d2});
  }

  /** One more outer key visited. */
  lemma RestrictAll<W>(m: map<string, W>, D: set<string>, k: string)
    requires D <= m.Keys && k in m
    ensures Restrict(m, D)[k := m[k]] == Restrict(m, D + {k})
  {
  }

  /** Taking `k` off the keys still to visit adds it to the keys visited. */
  lemma Visited(keys: set<string>, todo: set<string>, k: string)
    requires k in todo && todo <= keys
    ensures keys - (todo - {k}) == (keys - todo) + {k}
  {
  }

  /** One entry of the row `d1` added to the transpose. */
  lemma RowStep<V>(sub: map<string, map<string, V>>, d1: string, row: map<string, V>, done2: set<string>, d2: string)
    requires done2 <= row.Keys && d2 in row
    ensures Rotated(sub[d1 := Restrict(row, done2 + {d2})])
         == Set(Rotated(sub[d1 := Restrict(row, done2)]), d2, d1, row[d2])
  {
    RotatedSet(sub[d1 := Restrict(row, done2)], d1, d2, row[d2]);
    RestrictAdd(sub, d1, row, done2, d2);
  }

  /** `dict_2d_rotate(obj)` */
  method Rotate2D<V>(obj: map<string, map<string, V>>) returns (out: map<string, map<string, V>>)
    ensures out == Rotated(obj)
  {
    out := map[];
    var todo1 := obj.Keys;
    assert Restrict(obj, obj.Keys - todo1) == map[];
    while todo1 != {}
      invariant todo1 <= obj.Keys
      invariant out == Rotated(Restrict(obj, obj.Keys - todo1))
      decreases todo1
    {
      var d1 :| d1 in todo1;
      ghost var sub := Restrict(obj, obj.Keys - todo1);
      var row := obj[d1];
      var todo2 := row.Keys;
      assert Restrict(row, row.Keys - todo2) == map[];
      RotatedEmptyRow(sub, d1);
      while todo2 != {}
        invariant todo2 <= row.Keys
        invariant out == Rotated(sub[d1 := Restrict(row, row.Keys - todo2)])
        decreases todo2
      {
        var d2 :| d2 in todo2;
        RowStep(sub, d1, row, row.Keys - todo2, d2);
        CreateThenSet(out, d2, d1, row[d2]);
        if d2 !in out {
          out := out[d2 := map[]];
        }
        out := out[d2 := out[d2][d1 := row[d2]]];
        Visited(row.Keys, todo2, d2);
        todo2 := todo2 - {d2};
      }
      assert Restrict(row, row.Keys - todo2) == row;
      RestrictAll(obj, obj.Keys - todo1, d1);
      Visited(obj.Keys, todo1, d1);
      todo1 := todo1 - {d1};
    }
    assert Restrict(obj, obj.Keys - todo1) == obj;
  }

  /** Rotating twice gives back `obj` exactly when no inner dictionary is empty:
      an empty one leaves no entry behind, so its key is lost. */
  lemma RotateTwice<V>(obj: map<string, map<string, V>>)
    ensures Rotated(Rotated(obj)) == obj <==> forall d1 :: d1 in obj ==> obj[d1] != map[]
  {
    var r := Rotated(obj);
    var rr := Rotated(r);
    forall d1 | d1 in rr ensures rr[d1] != map[] {
      RotatedRowsNonEmpty(r, d1);
    }
    if forall d1 :: d1 in obj ==> obj[d1] != map[] {
      forall a, b ensures Entry(obj, b, a) <==> Entry(r, a, b) {
        RotatedAt(obj, b, a);
      }
      forall a, b | Entry(r, a, b) ensures Entry(obj, b, a) && obj[b][a] == r[a][b] {
        RotatedAt(obj, b, a);
      }
      RotatedUnique(r, obj);
    }
  }
}
