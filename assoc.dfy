/** Python dicts whose insertion order reaches an output: the entries in insertion order. */
module Assoc {
  import opened Wrappers

  type Dict<K, V> = seq<(K, V)>

  /** No key occurs twice, as in every Python dict. */
  predicate DistinctKeys<K(==), V>(d: Dict<K, V>)
  {
    forall i, j :: 0 <= i < j < |d| ==> d[i].0 != d[j].0
  }

  predicate HasKey<K(==), V>(d: Dict<K, V>, k: K)
  {
    exists i :: 0 <= i < |d| && d[i].0 == k
  }

  /** `d.get(k)`: the value of the first entry for `k`. */
  function Get<K(==), V>(d: Dict<K, V>, k: K): Option<V>
  {
    if d == [] then None else if d[0].0 == k then Some(d[0].1) else Get(d[1..], k)
  }

  /** `Get` finds exactly the keys present, with the value of the entry for the key. */
  lemma {:induction false} GetSpec<K, V>(d: Dict<K, V>, k: K)
    ensures Get(d, k).None? <==> !HasKey(d, k)
    ensures Get(d, k).Some? ==> exists i :: 0 <= i < |d| && d[i] == (k, Get(d, k).value)
    ensures forall i :: 0 <= i < |d| && d[i].0 == k && DistinctKeys(d) ==> Get(d, k) == Some(d[i].1)
  {
    if d != [] && d[0].0 != k {
      GetSpec(d[1..], k);
      assert forall i :: 1 <= i < |d| ==> d[1..][i - 1] == d[i];
      if HasKey(d, k) {
        var i :| 0 <= i < |d| && d[i].0 == k;
        assert d[1..][i - 1].0 == k;
      }
    }
  }

  /** `d[k] = v`: an existing key keeps its place and takes the new value, a new key goes last. */
  function Put<K(==), V>(d: Dict<K, V>, k: K, v: V): (r: Dict<K, V>)
    ensures |r| == |d| || r == d + [(k, v)]
    ensures forall i :: 0 <= i < |d| ==> r[i].0 == d[i].0
  {
    if d == [] then [(k, v)]
    else if d[0].0 == k then [(k, v)] + d[1..]
    else [d[0]] + Put(d[1..], k, v)
  }

  /** After `d[k] = v`, `k` reads `v` and every other key reads as before. */
  lemma {:induction false} PutGet<K, V>(d: Dict<K, V>, k: K, v: V, k': K)
    ensures Get(Put(d, k, v), k') == if k' == k then Some(v) else Get(d, k')
  {
    if d != [] && d[0].0 != k {
      PutGet(d[1..], k, v, k');
    }
  }

  /** A new key is appended; a present key changes nothing but its value. */
  lemma PutShape<K, V>(d: Dict<K, V>, k: K, v: V)
    ensures !HasKey(d, k) ==> Put(d, k, v) == d + [(k, v)]
    ensures HasKey(d, k) ==> |Put(d, k, v)| == |d|
    ensures DistinctKeys(d) ==> DistinctKeys(Put(d, k, v))
  {
    PutNew(d, k, v);
    PutPresent(d, k, v);
    if DistinctKeys(d) {
      PutDistinct(d, k, v);
    }
  }

  lemma PutDistinct<K, V>(d: Dict<K, V>, k: K, v: V)
    requires DistinctKeys(d)
    requires !HasKey(d, k) ==> Put(d, k, v) == d + [(k, v)]
    requires HasKey(d, k) ==> |Put(d, k, v)| == |d|
    ensures DistinctKeys(Put(d, k, v))
  {
    var r := Put(d, k, v);
    forall i, j | 0 <= i < j < |r| ensures r[i].0 != r[j].0 {
      if j < |d| {
        assert r[i].0 == d[i].0 && r[j].0 == d[j].0;
      } else {
        assert r[j].0 == k && r[i].0 == d[i].0;
      }
    }
  }

  lemma {:induction false} PutNew<K, V>(d: Dict<K, V>, k: K, v: V)
    ensures !HasKey(d, k) ==> Put(d, k, v) == d + [(k, v)]
  {
    if d != [] && d[0].0 != k {
      PutNew(d[1..], k, v);
      if !HasKey(d, k) {
        assert forall i :: 0 <= i < |d[1..]| ==> d[1..][i] == d[i + 1];
        assert d == [d[0]] + d[1..];
      }
    }
  }

  lemma {:induction false} PutPresent<K, V>(d: Dict<K, V>, k: K, v: V)
    ensures HasKey(d, k) ==> |Put(d, k, v)| == |d|
  {
    if d != [] && d[0].0 != k {
      PutPresent(d[1..], k, v);
      if HasKey(d, k) {
        var i :| 0 <= i < |d| && d[i].0 == k;
        assert d[1..][i - 1].0 == k;
      }
    }
  }

  /** `d[k] = v` adds `k` to the keys, and every entry afterwards was an entry before or is
      the new one. */
  lemma {:induction false} PutEntries<K, V>(d: Dict<K, V>, k: K, v: V)
    ensures Keys(Put(d, k, v)) == Keys(d) + {k}
    ensures forall e :: e in Put(d, k, v) ==> e in d || e == (k, v)
  {
    if d != [] && d[0].0 != k {
      PutEntries(d[1..], k, v);
      assert d == [d[0]] + d[1..];
      assert Keys(d) == {d[0].0} + Keys(d[1..]) by {
        forall x | x in Keys(d) ensures x in {d[0].0} + Keys(d[1..]) {
          var i :| 0 <= i < |d| && d[i].0 == x;
          if i > 0 { assert d[1..][i - 1].0 == x; }
        }
      }
      var r := Put(d, k, v);
      assert r == [d[0]] + Put(d[1..], k, v);
      assert Keys(r) == {d[0].0} + Keys(Put(d[1..], k, v)) by {
        forall x | x in Keys(r) ensures x in {d[0].0} + Keys(Put(d[1..], k, v)) {
          var i :| 0 <= i < |r| && r[i].0 == x;
          if i > 0 { assert Put(d[1..], k, v)[i - 1].0 == x; }
        }
        assert r[0].0 == d[0].0;
        forall x | x in Keys(Put(d[1..], k, v)) ensures x in Keys(r) {
          var i :| 0 <= i < |Put(d[1..], k, v)| && Put(d[1..], k, v)[i].0 == x;
          assert r[i + 1].0 == x;
        }
      }
    } else if d != [] {
      var r := Put(d, k, v);
      assert r == [(k, v)] + d[1..];
      forall x | x in Keys(r) ensures x in Keys(d) + {k} {
        var i :| 0 <= i < |r| && r[i].0 == x;
        if i > 0 { assert d[i].0 == x; }
      }
      forall x | x in Keys(d) ensures x in Keys(r) {
        var i :| 0 <= i < |d| && d[i].0 == x;
        assert r[i].0 == x;
      }
    } else {
      assert Put(d, k, v) == [(k, v)];
      assert Keys(Put(d, k, v)) == {k} by {
        assert Put(d, k, v)[0].0 == k;
      }
    }
  }

  /** `d.update(e)`: every entry of `e` put in turn. */
  function Update<K(==), V>(d: Dict<K, V>, e: Dict<K, V>): Dict<K, V>
    decreases |e|
  {
    if e == [] then d else Update(Put(d, e[0].0, e[0].1), e[1..])
  }

  /** After an update, a key of the update reads the update's last value for it; any other
      key reads as before. */
  lemma {:induction false} UpdateGet<K, V>(d: Dict<K, V>, e: Dict<K, V>, k: K)
    ensures Get(Update(d, e), k) == (if HasKey(e, k) then Get(Reversed(e), k) else Get(d, k))
    decreases |e|
  {
    if e != [] {
      PutGet(d, e[0].0, e[0].1, k);
      UpdateGet(Put(d, e[0].0, e[0].1), e[1..], k);
      assert Reversed(e) == Reversed(e[1..]) + [e[0]];
      GetAppend(Reversed(e[1..]), [e[0]], k);
      ReversedKeys(e[1..], k);
      assert HasKey(e, k) <==> HasKey(e[1..], k) || e[0].0 == k by {
        assert forall i :: 1 <= i < |e| ==> e[1..][i - 1] == e[i];
        if HasKey(e[1..], k) {
          var i :| 0 <= i < |e[1..]| && e[1..][i].0 == k;
          assert e[i + 1].0 == k;
        }
      }
      GetSpec([e[0]], k);
    }
  }

  /** An update keeps the keys of `d` in their places and their distinctness. */
  lemma {:induction false} UpdateShape<K, V>(d: Dict<K, V>, e: Dict<K, V>)
    ensures |Update(d, e)| >= |d|
    ensures forall i :: 0 <= i < |d| ==> Update(d, e)[i].0 == d[i].0
    ensures DistinctKeys(d) ==> DistinctKeys(Update(d, e))
    decreases |e|
  {
    if e != [] {
      var d' := Put(d, e[0].0, e[0].1);
      PutShape(d, e[0].0, e[0].1);
      UpdateShape(d', e[1..]);
    }
  }

  function Reversed<T>(s: seq<T>): (r: seq<T>)
    ensures |r| == |s|
  {
    if s == [] then [] else Reversed(s[1..]) + [s[0]]
  }

  lemma {:induction false} ReversedKeys<K, V>(e: Dict<K, V>, k: K)
    ensures HasKey(Reversed(e), k) <==> HasKey(e, k)
  {
    if e != [] {
      ReversedKeys(e[1..], k);
      var r := Reversed(e);
      assert r == Reversed(e[1..]) + [e[0]];
      assert r[|r| - 1] == e[0];
      assert forall i :: 1 <= i < |e| ==> e[1..][i - 1] == e[i];
      if HasKey(e, k) && e[0].0 != k {
        var i :| 0 <= i < |e| && e[i].0 == k;
        assert e[1..][i - 1].0 == k;
      }
      if HasKey(r, k) {
        var i :| 0 <= i < |r| && r[i].0 == k;
        if i < |e| - 1 {
          assert Reversed(e[1..])[i].0 == k;
          assert HasKey(e[1..], k);
          var j :| 0 <= j < |e[1..]| && e[1..][j].0 == k;
          assert e[j + 1].0 == k;
        }
      }
      if HasKey(e[1..], k) {
        var i :| 0 <= i < |Reversed(e[1..])| && Reversed(e[1..])[i].0 == k;
        assert r[i].0 == k;
      }
    }
  }

  lemma {:induction false} GetAppend<K, V>(a: Dict<K, V>, b: Dict<K, V>, k: K)
    ensures Get(a + b, k) == if HasKey(a, k) then Get(a, k) else Get(b, k)
  {
    GetSpec(a, k);
    if a != [] {
      assert (a + b)[1..] == a[1..] + b;
      GetAppend(a[1..], b, k);
      GetSpec(a[1..], k);
    } else {
      assert a + b == b;
    }
  }
  /** `d[k].append(x)` on a `defaultdict(list)`. */
  function Append<K(==), V>(d: Dict<K, seq<V>>, k: K, x: V): (r: Dict<K, seq<V>>)
    ensures Get(r, k) == Some((if Get(d, k).Some? then Get(d, k).value else []) + [x])
  {
    PutGet(d, k, (if Get(d, k).Some? then Get(d, k).value else []) + [x], k);
    Put(d, k, (if Get(d, k).Some? then Get(d, k).value else []) + [x])
  }

  lemma AppendGet<K, V>(d: Dict<K, seq<V>>, k: K, x: V, k': K)
    ensures Get(Append(d, k, x), k') == if k' == k then Some((if Get(d, k).Some? then Get(d, k).value else []) + [x]) else Get(d, k')
  {
    PutGet(d, k, (if Get(d, k).Some? then Get(d, k).value else []) + [x], k');
  }

  /** The keys of `d`. */
  function Keys<K, V>(d: Dict<K, V>): set<K>
  {
    set i | 0 <= i < |d| :: d[i].0
  }

  lemma KeysAppend<K, V>(d: Dict<K, V>, k: K, v: V)
    ensures Keys(d + [(k, v)]) == Keys(d) + {k}
  {
    var r := d + [(k, v)];
    forall x | x in Keys(r) ensures x in Keys(d) + {k} {
      var i :| 0 <= i < |r| && r[i].0 == x;
      if i < |d| { assert d[i].0 == x; }
    }
    forall x | x in Keys(d) ensures x in Keys(r) {
      var i :| 0 <= i < |d| && d[i].0 == x;
      assert r[i].0 == x;
    }
    assert r[|d|].0 == k;
  }

  /** `for k, v in e.items(): if k not in d: d[k] = v`: the first value seen for a key stays. */
  function AddAbsent<K(==), V>(d: Dict<K, V>, e: Dict<K, V>): Dict<K, V>
    decreases |e|
  {
    if e == [] then d else AddAbsent(if Get(d, e[0].0).Some? then d else d + [e[0]], e[1..])
  }

  lemma {:induction false} AddAbsentGet<K, V>(d: Dict<K, V>, e: Dict<K, V>, k: K)
    ensures Get(AddAbsent(d, e), k) == if Get(d, k).Some? then Get(d, k) else Get(e, k)
    ensures Keys(AddAbsent(d, e)) == Keys(d) + Keys(e)
    decreases |e|
  {
    if e != [] {
      var d' := if Get(d, e[0].0).Some? then d else d + [e[0]];
      AddAbsentGet(d', e[1..], k);
      GetAppend(d, [e[0]], k);
      GetSpec(d, k);
      GetSpec(d, e[0].0);
      GetSpec([e[0]], k);
      assert e == [e[0]] + e[1..];
      assert Keys(e) == {e[0].0} + Keys(e[1..]) by {
        forall x | x in Keys(e) ensures x in {e[0].0} + Keys(e[1..]) {
          var i :| 0 <= i < |e| && e[i].0 == x;
          if i > 0 { assert e[1..][i - 1].0 == x; }
        }
      }
      if Get(d, e[0].0).Some? {
        var i :| 0 <= i < |d| && d[i] == (e[0].0, Get(d, e[0].0).value);
        assert e[0].0 in Keys(d);
      } else {
        assert d' == d + [e[0]];
        assert Keys(d') == Keys(d) + {e[0].0} by {
          forall x | x in Keys(d') ensures x in Keys(d) + {e[0].0} {
            var i :| 0 <= i < |d'| && d'[i].0 == x;
            if i < |d| { assert d[i].0 == x; }
          }
          forall x | x in Keys(d) ensures x in Keys(d') {
            var i :| 0 <= i < |d| && d[i].0 == x;
            assert d'[i].0 == x;
          }
          assert d'[|d|].0 == e[0].0;
        }
      }
    }
  }

  /** In a dict, the first and the last entry for a key are the same entry. */
  lemma {:induction false} DistinctReversedGet<K, V>(e: Dict<K, V>, k: K)
    requires DistinctKeys(e)
    ensures Get(Reversed(e), k) == Get(e, k)
  {
    if e != [] {
      assert forall i :: 1 <= i < |e| ==> e[1..][i - 1] == e[i];
      assert DistinctKeys(e[1..]);
      DistinctReversedGet(e[1..], k);
      GetAppend(Reversed(e[1..]), [e[0]], k);
      ReversedKeys(e[1..], k);
      GetSpec(e[1..], k);
    }
  }
}
