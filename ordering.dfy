/** Python's `sorted()` over a set of strings (code-point lexicographic order) and over a
    set of natural numbers. */
module Ordering {

  /** Python's `a < b` on strings. */
  predicate Below(a: string, b: string)
  {
    if a == [] then b != []
    else b != [] && (a[0] < b[0] || (a[0] == b[0] && Below(a[1..], b[1..])))
  }

  lemma {:induction false} BelowIrreflexive(a: string)
    ensures !Below(a, a)
  {
    if a != [] {
      BelowIrreflexive(a[1..]);
    }
  }

  lemma {:induction false} BelowTransitive(a: string, b: string, c: string)
    requires Below(a, b) && Below(b, c)
    ensures Below(a, c)
  {
    if a != [] && b != [] && c != [] && a[0] == b[0] == c[0] {
      BelowTransitive(a[1..], b[1..], c[1..]);
    }
  }

  lemma {:induction false} BelowTotal(a: string, b: string)
    requires a != b
    ensures Below(a, b) || Below(b, a)
  {
    if a != [] && b != [] && a[0] == b[0] {
      assert a == [a[0]] + a[1..] && b == [b[0]] + b[1..];
      BelowTotal(a[1..], b[1..]);
    }
  }

  predicate StrictlySorted(s: seq<string>)
  {
    forall i, j :: 0 <= i < j < |s| ==> Below(s[i], s[j])
  }

  /** A finite non-empty set of strings has a least element. */
  lemma LeastExists(s: set<string>)
    requires s != {}
    ensures exists m :: m in s && forall x :: x in s && x != m ==> Below(m, x)
  {
    var m := Least(s);
  }

  /** The least element of a finite non-empty set of strings. */
  lemma {:induction false} Least(s: set<string>) returns (m: string)
    requires s != {}
    ensures m in s && forall x :: x in s && x != m ==> Below(m, x)
    decreases |s|
  {
    var y :| y in s;
    if s - {y} == {} {
      m := y;
      forall x | x in s ensures x == y {
        assert x == y || x in s - {y};
      }
    } else {
      var least := Least(s - {y});
      if Below(least, y) {
        m := least;
      } else {
        BelowTotal(least, y);
        m := y;
        LeastBelow(s, y, least);
      }
    }
  }

  /** An element below the least of the others is the least of all. */
  lemma LeastBelow(s: set<string>, y: string, least: string)
    requires y in s && least in s - {y} && Below(y, least)
    requires forall x :: x in s - {y} && x != least ==> Below(least, x)
    ensures forall x :: x in s && x != y ==> Below(y, x)
  {
    forall x | x in s && x != y ensures Below(y, x) {
      if x != least {
        assert x in s - {y};
        BelowTransitive(y, least, x);
      }
    }
  }

  /** `sorted(s)`: the elements of `s`, each once, in increasing order. */
  method SortedStrings(s: set<string>) returns (r: seq<string>)
    ensures StrictlySorted(r)
    ensures forall x :: x in r <==> x in s
    ensures |r| == |s|
  {
    r := [];
    var rest := s;
    while rest != {}
      invariant SortedSoFar(s, r, rest)
      decreases |rest|
    {
      LeastExists(rest);
      var m :| m in rest && forall x :: x in rest && x != m ==> Below(m, x);
      SortedStep(s, r, rest, m);
      r := r + [m];
      rest := rest - {m};
    }
  }

  /** Part way through `sorted(s)`: `r` is increasing, below everything still in `rest`, and
      the two split `s`. */
  ghost predicate SortedSoFar(s: set<string>, r: seq<string>, rest: set<string>)
  {
    StrictlySorted(r) &&
    (forall x :: x in s <==> x in r || x in rest) &&
    (forall x :: x in r ==> x !in rest) &&
    (forall i, x :: 0 <= i < |r| && x in rest ==> Below(r[i], x)) &&
    |r| + |rest| == |s|
  }

  /** Moving the least element of `rest` to the end of `r` keeps `SortedSoFar`. */
  lemma SortedStep(s: set<string>, r: seq<string>, rest: set<string>, m: string)
    requires SortedSoFar(s, r, rest)
    requires m in rest && forall x :: x in rest && x != m ==> Below(m, x)
    ensures SortedSoFar(s, r + [m], rest - {m})
  {
    var r' := r + [m];
    forall i, j | 0 <= i < j < |r'| ensures Below(r'[i], r'[j]) {
      if j == |r| {
        assert r'[i] == r[i];
      } else {
        assert r'[i] == r[i] && r'[j] == r[j];
      }
    }
    forall i, x | 0 <= i < |r'| && x in rest - {m} ensures Below(r'[i], x) {
      if i < |r| {
        assert r'[i] == r[i];
      }
    }
    assert |rest - {m}| == |rest| - 1;
  }

  /** `list(s)`: the elements of `s`, each once, in an order Python leaves unspecified. */
  method ListOfSet(s: set<string>) returns (r: seq<string>)
    ensures forall x :: x in r <==> x in s
    ensures forall i, j :: 0 <= i < j < |r| ==> r[i] != r[j]
    ensures |r| == |s|
  {
    r := [];
    var rest := s;
    while rest != {}
      invariant forall x :: x in s <==> x in r || x in rest
      invariant forall x :: x in r ==> x !in rest
      invariant forall i, j :: 0 <= i < j < |r| ==> r[i] != r[j]
      invariant |r| + |rest| == |s|
      decreases |rest|
    {
      var x :| x in rest;
      r := r + [x];
      rest := rest - {x};
    }
  }

  /** Two increasing sequences with the same elements are equal, so `sorted()` is determined. */
  lemma {:induction false} SortedUnique(a: seq<string>, b: seq<string>)
    requires StrictlySorted(a) && StrictlySorted(b)
    requires forall x :: x in a <==> x in b
    ensures a == b
    decreases |a|
  {
    assert a != [] ==> a[0] in a;
    assert b != [] ==> b[0] in b;
    if a != [] && b != [] {
      assert a[0] == b[0] by {
        if a[0] != b[0] {
          assert a[0] in a && b[0] in b;
          var i :| 0 <= i < |b| && b[i] == a[0];
          var j :| 0 <= j < |a| && a[j] == b[0];
          assert i > 0 && j > 0;
          BelowTransitive(a[0], a[j], a[0]);
          BelowIrreflexive(a[0]);
        }
      }
      forall x ensures x in a[1..] <==> x in b[1..] {
        if x in a[1..] {
          var i :| 1 <= i < |a| && a[i] == x;
          assert Below(a[0], x);
          BelowIrreflexive(x);
          assert x in b;
        }
        if x in b[1..] {
          var i :| 1 <= i < |b| && b[i] == x;
          assert Below(b[0], x);
          BelowIrreflexive(x);
          assert x in a;
        }
      }
      SortedUnique(a[1..], b[1..]);
      assert a == [a[0]] + a[1..] && b == [b[0]] + b[1..];
    }
  }

  /** The least element of a non-empty set of naturals. */
  function MinNat(s: set<nat>): (m: nat)
    requires s != {}
    ensures m in s && forall x :: x in s ==> m <= x
  {
    MinNatExists(s);
    var m :| m in s && forall x :: x in s ==> m <= x; m
  }

  lemma MinNatExists(s: set<nat>)
    requires s != {}
    ensures exists m :: m in s && forall x :: x in s ==> m <= x
  {
    var m := LeastNat(s);
  }

  /** A least element, found by taking one element out at a time. */
  lemma {:induction false} LeastNat(s: set<nat>) returns (least: nat)
    requires s != {}
    ensures least in s && forall x :: x in s ==> least <= x
    decreases |s|
  {
    var y :| y in s;
    if s == {y} {
      least := y;
    } else {
      var rest := s - {y};
      var m := LeastNat(rest);
      least := if y < m then y else m;
      assert forall x :: x in s ==> x == y || x in rest;
    }
  }

  /** `sorted(s)` for naturals. */
  function SortedNats(s: set<nat>): (r: seq<nat>)
    ensures forall i, j :: 0 <= i < j < |r| ==> r[i] < r[j]
    ensures forall x :: x in r <==> x in s
    ensures |r| == |s|
    decreases |s|
  {
    if s == {} then []
    else
      var m := MinNat(s);
      [m] + SortedNats(s - {m})
  }
}
