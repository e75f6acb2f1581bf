/** JavaScript's `Map`: a finite map that remembers the order in which its
    keys were first inserted. `set` on a present key replaces the value in
    place, `set` on a new key appends, `delete` removes, and `values()` /
    `entries()` follow insertion order. Modelled as a sequence of entries
    whose keys are pairwise distinct (`Distinct`). */
module OrderedMap {
  import opened Common

  datatype Entry<K, V> = Entry(key: K, value: V)

  function Keys<K, V>(m: seq<Entry<K, V>>): set<K> {
    set i | 0 <= i < |m| :: m[i].key
  }

  /** No key occurs twice, as in every JavaScript `Map`. */
  predicate Distinct<K(==), V>(m: seq<Entry<K, V>>) {
    forall i, j :: 0 <= i < j < |m| ==> m[i].key != m[j].key
  }

  lemma KeysCons<K, V>(m: seq<Entry<K, V>>)
    requires m != []
    ensures Keys(m) == {m[0].key} + Keys(m[1..])
  {
    forall k | k in Keys(m) ensures k in {m[0].key} + Keys(m[1..]) {
      var i :| 0 <= i < |m| && m[i].key == k;
      if i > 0 { assert m[1..][i - 1] == m[i]; }
    }
    forall k | k in Keys(m[1..]) ensures k in Keys(m) {
      var i :| 0 <= i < |m| - 1 && m[1..][i].key == k;
      assert m[i + 1] == m[1..][i];
    }
  }

  /** `m.get(k)`. */
  function Get<K(==), V>(m: seq<Entry<K, V>>, k: K): (r: Option<V>)
    ensures r.Some? <==> k in Keys(m)
    ensures Distinct(m) ==> forall i :: 0 <= i < |m| && m[i].key == k ==> r == Some(m[i].value)
  {
    if m == [] then None
    else if m[0].key == k then
      assert m[0].key in Keys(m);
      Some(m[0].value)
    else
      KeysCons(m);
      assert forall i :: 1 <= i < |m| ==> m[i] == m[1..][i - 1];
      Get(m[1..], k)
  }

  /** `m.set(k, v)`: a present key keeps its position and gets the new value;
      a new key goes to the end. */
  function Put<K(==, !new), V>(m: seq<Entry<K, V>>, k: K, v: V): (r: seq<Entry<K, V>>)
    ensures Keys(r) == Keys(m) + {k}
    ensures Get(r, k) == Some(v)
    ensures forall k' :: k' != k ==> Get(r, k') == Get(m, k')
    ensures k !in Keys(m) ==> r == m + [Entry(k, v)]
  {
    if m == [] then
      assert Keys([Entry(k, v)]) == {k} by { KeysCons([Entry(k, v)]); }
      [Entry(k, v)]
    else if m[0].key == k then
      var r := [Entry(k, v)] + m[1..];
      KeysCons(m);
      KeysCons(r);
      assert r[1..] == m[1..];
      r
    else
      var t := Put(m[1..], k, v);
      var r := [m[0]] + t;
      KeysCons(m);
      KeysCons(r);
      assert r[1..] == t;
      assert k !in Keys(m) ==> r == m + [Entry(k, v)] by {
        if k !in Keys(m) { assert m == [m[0]] + m[1..]; }
      }
      r
  }

  lemma DistinctTail<K, V>(m: seq<Entry<K, V>>)
    requires m != [] && Distinct(m)
    ensures Distinct(m[1..])
  {
    forall i, j | 0 <= i < j < |m| - 1 ensures m[1..][i].key != m[1..][j].key {
      assert m[1..][i] == m[i + 1] && m[1..][j] == m[j + 1];
    }
  }

  /** With distinct keys, setting a present key replaces that entry in place. */
  lemma {:induction false} PutInPlace<K(!new), V>(m: seq<Entry<K, V>>, i: nat, v: V)
    requires Distinct(m) && i < |m|
    ensures Put(m, m[i].key, v) == m[i := Entry(m[i].key, v)]
  {
    var k := m[i].key;
    if i > 0 {
      assert m[1..][i - 1] == m[i];
      DistinctTail(m);
      calc {
        Put(m, k, v);
        == { PutCons(m, k, v); }
        [m[0]] + Put(m[1..], k, v);
        == { PutInPlace(m[1..], i - 1, v); }
        [m[0]] + m[1..][i - 1 := Entry(k, v)];
        == { assert m == [m[0]] + m[1..]; }
        m[i := Entry(k, v)];
      }
    } else {
      assert m[0 := Entry(k, v)] == [Entry(k, v)] + m[1..];
    }
  }

  lemma PutDistinct<K(!new), V>(m: seq<Entry<K, V>>, k: K, v: V)
    requires Distinct(m)
    ensures Distinct(Put(m, k, v))
  {
    if k in Keys(m) {
      var i :| 0 <= i < |m| && m[i].key == k;
      PutInPlace(m, i, v);
    } else {
      var r := m + [Entry(k, v)];
      forall i, j | 0 <= i < j < |r| ensures r[i].key != r[j].key {
        if j == |m| { assert m[i].key in Keys(m); }
      }
    }
  }

  /** `m.delete(k)`: drops the entry for `k`, if any; the others keep their order. */
  function Remove<K(==, !new), V>(m: seq<Entry<K, V>>, k: K): (r: seq<Entry<K, V>>)
    ensures Keys(r) == Keys(m) - {k}
    ensures Get(r, k) == None
    ensures forall k' :: k' != k ==> Get(r, k') == Get(m, k')
    ensures k !in Keys(m) ==> r == m
  {
    if m == [] then []
    else
      var t := Remove(m[1..], k);
      KeysCons(m);
      assert m == [m[0]] + m[1..];
      if m[0].key == k then t
      else
        var r := [m[0]] + t;
        KeysCons(r);
        assert r[1..] == t;
        r
  }

  /** Deleting keeps the keys distinct. */
  lemma {:induction false} RemoveDistinct<K(!new), V>(m: seq<Entry<K, V>>, k: K)
    requires Distinct(m)
    ensures Distinct(Remove(m, k))
  {
    if m != [] {
      var t := Remove(m[1..], k);
      assert Distinct(m[1..]) by {
        forall i, j | 0 <= i < j < |m| - 1 ensures m[1..][i].key != m[1..][j].key {
          assert m[1..][i] == m[i + 1] && m[1..][j] == m[j + 1];
        }
      }
      RemoveDistinct(m[1..], k);
      if m[0].key != k {
        var r := [m[0]] + t;
        KeysCons(m);
        forall n | 0 <= n < |m| - 1 ensures m[1..][n].key != m[0].key {
          assert m[n + 1] == m[1..][n];
        }
        assert m[0].key !in Keys(m[1..]);
        forall i, j | 0 <= i < j < |r| ensures r[i].key != r[j].key {
          if i == 0 { assert r[j] == t[j - 1]; assert t[j - 1].key in Keys(t); }
          else { assert r[i] == t[i - 1] && r[j] == t[j - 1]; }
        }
      }
    }
  }

  /** `Array.from(m.values())`. */
  function Values<K, V>(m: seq<Entry<K, V>>): (vs: seq<V>)
    ensures |vs| == |m|
    ensures forall i :: 0 <= i < |m| ==> vs[i] == m[i].value
  {
    seq(|m|, i requires 0 <= i < |m| => m[i].value)
  }

  /** Setting a new key appends its value to `values()`. */
  lemma ValuesOfAppend<K(!new), V>(m: seq<Entry<K, V>>, k: K, v: V)
    requires k !in Keys(m)
    ensures Values(Put(m, k, v)) == Values(m) + [v]
  {
  }

  lemma PutCons<K(!new), V>(m: seq<Entry<K, V>>, k: K, v: V)
    requires m != [] && m[0].key != k
    ensures Put(m, k, v) == [m[0]] + Put(m[1..], k, v)
  {
  }

  /** Setting the key of an entry updates that entry where it stands. */
  lemma {:induction false} PutAt<K(!new), V>(a: seq<Entry<K, V>>, e: Entry<K, V>, b: seq<Entry<K, V>>, v: V)
    requires e.key !in Keys(a)
    ensures Put(a + [e] + b, e.key, v) == a + [Entry(e.key, v)] + b
  {
    var m := a + [e] + b;
    if a != [] {
      assert m[0] == a[0] && m[1..] == a[1..] + [e] + b;
      KeysCons(a);
      calc {
        Put(m, e.key, v);
        == { PutCons(m, e.key, v); }
        [a[0]] + Put(a[1..] + [e] + b, e.key, v);
        == { PutAt(a[1..], e, b, v); }
        [a[0]] + (a[1..] + [Entry(e.key, v)] + b);
        == { assert a == [a[0]] + a[1..]; }
        a + [Entry(e.key, v)] + b;
      }
    } else {
      assert m == [e] + b && m[1..] == b;
    }
  }

  lemma RemoveCons<K(!new), V>(m: seq<Entry<K, V>>, k: K)
    requires m != []
    ensures Remove(m, k) == if m[0].key == k then Remove(m[1..], k) else [m[0]] + Remove(m[1..], k)
  {
  }

  /** Deleting the key of an entry that occurs nowhere else drops just that entry. */
  lemma {:induction false} RemoveAt<K(!new), V>(a: seq<Entry<K, V>>, e: Entry<K, V>, b: seq<Entry<K, V>>)
    requires e.key !in Keys(a) && e.key !in Keys(b)
    ensures Remove(a + [e] + b, e.key) == a + b
  {
    var m := a + [e] + b;
    if a != [] {
      assert m[0] == a[0] && m[1..] == a[1..] + [e] + b;
      KeysCons(a);
      calc {
        Remove(m, e.key);
        == { RemoveCons(m, e.key); }
        [a[0]] + Remove(a[1..] + [e] + b, e.key);
        == { RemoveAt(a[1..], e, b); }
        [a[0]] + (a[1..] + b);
        == { assert a == [a[0]] + a[1..]; }
        a + b;
      }
    } else {
      assert m[0] == e && m[1..] == b;
      RemoveCons(m, e.key);
    }
  }

  /** `get` on a map extended at the end. */
  lemma {:induction false} GetAppend<K, V>(m: seq<Entry<K, V>>, x: Entry<K, V>, k: K)
    ensures Keys(m + [x]) == Keys(m) + {x.key}
    ensures Get(m + [x], k) == if k in Keys(m) then Get(m, k) else if x.key == k then Some(x.value) else None
  {
    if m == [] {
      assert m + [x] == [x] && [x][1..] == [];
      KeysCons([x]);
    } else {
      var n := m + [x];
      assert n[0] == m[0] && n[1..] == m[1..] + [x];
      KeysCons(m);
      KeysCons(n);
      GetAppend(m[1..], x, k);
    }
  }

  /** Extending a map at the end keeps keys distinct exactly when the new key is new. */
  lemma DistinctAppend<K, V>(m: seq<Entry<K, V>>, x: Entry<K, V>)
    ensures Distinct(m + [x]) <==> Distinct(m) && x.key !in Keys(m)
  {
    var n := m + [x];
    if Distinct(n) {
      assert forall i :: 0 <= i < |m| ==> n[i] == m[i];
      forall i | 0 <= i < |m| ensures m[i].key != x.key { assert n[i].key != n[|m|].key; }
    }
  }

  /** Every entry left by `delete` was in the map before. */
  lemma {:induction false} RemoveSubset<K(!new), V>(m: seq<Entry<K, V>>, k: K)
    ensures forall i :: 0 <= i < |Remove(m, k)| ==> Remove(m, k)[i] in m
  {
    if m != [] {
      RemoveSubset(m[1..], k);
      var t := Remove(m[1..], k);
      assert forall e :: e in t ==> e in m by {
        forall e | e in t ensures e in m {
          var j :| 0 <= j < |m[1..]| && m[1..][j] == e;
          assert m[j + 1] == e;
        }
      }
    }
  }
}
