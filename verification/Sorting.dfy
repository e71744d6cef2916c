// Go's maps are walked in no fixed order; what is printed from one is sorted
// first, and does not depend on that order.
module Sorting {

  // Strings in byte order.
  predicate AtMost(a: string, b: string) {
    a == "" || (b != "" && (a[0] < b[0] || (a[0] == b[0] && AtMost(a[1..], b[1..]))))
  }

  predicate Sorted(s: seq<string>) {
    forall i, j :: 0 <= i < j < |s| ==> AtMost(s[i], s[j])
  }

  lemma {:induction false} Total(a: string, b: string)
    ensures AtMost(a, b) || AtMost(b, a)
    ensures AtMost(a, b) && AtMost(b, a) ==> a == b
    decreases |a|
  {
    if a != "" && b != "" && a[0] == b[0] {
      Total(a[1..], b[1..]);
      assert a == [a[0]] + a[1..] && b == [b[0]] + b[1..];
    }
  }

  // The first place where two strings differ decides, and a prefix comes first.
  lemma {:induction false} ByFirstDifference(a: string, b: string, i: nat)
    requires i <= |a| && i <= |b| && a[..i] == b[..i]
    ensures i == |a| ==> AtMost(a, b)
    ensures i == |b| < |a| ==> !AtMost(a, b)
    ensures i < |a| && i < |b| && a[i] != b[i] ==> (AtMost(a, b) <==> a[i] < b[i])
    decreases i
  {
    if i > 0 {
      assert a[0] == a[..i][0] && b[0] == b[..i][0];
      assert a[1..][..i - 1] == a[..i][1..] && b[1..][..i - 1] == b[..i][1..];
      ByFirstDifference(a[1..], b[1..], i - 1);
    }
  }

  lemma {:induction false} Transitive(a: string, b: string, c: string)
    requires AtMost(a, b) && AtMost(b, c)
    ensures AtMost(a, c)
    decreases |a|
  {
    if a != "" && a[0] == b[0] && b[0] == c[0] {
      Transitive(a[1..], b[1..], c[1..]);
    }
  }

  function Insert(x: string, s: seq<string>): (r: seq<string>)
    requires Sorted(s)
    ensures Sorted(r) && multiset(r) == multiset(s) + multiset{x}
  {
    if s == [] then [x]
    else if AtMost(x, s[0]) then
      (forall j | 0 <= j < |s| ensures AtMost(x, s[j]) { if j > 0 { Transitive(x, s[0], s[j]); } }
       [x] + s)
    else
      Total(x, s[0]);
      var rest := Insert(x, s[1..]);
      assert s == [s[0]] + s[1..];
      (forall j | 0 <= j < |rest| ensures AtMost(s[0], rest[j]) { assert rest[j] in multiset(rest); }
       [s[0]] + rest)
  }

  // sort.Strings.
  function Sort(s: seq<string>): (r: seq<string>)
    ensures Sorted(r) && multiset(r) == multiset(s)
  {
    if s == [] then []
    else
      assert s == [s[0]] + s[1..];
      Insert(s[0], Sort(s[1..]))
  }

  lemma {:induction false} SortedIsUnique(a: seq<string>, b: seq<string>)
    requires Sorted(a) && Sorted(b) && multiset(a) == multiset(b)
    ensures a == b
    decreases |a|
  {
    hide AtMost, Sorted;
    assert |a| == |multiset(a)| == |multiset(b)| == |b|;
    if a != [] {
      LeastFirst(a, b);
      LeastFirst(b, a);
      Total(a[0], b[0]);
      SameRests(a, b);
      SortedIsUnique(a[1..], b[1..]);
      assert a == [a[0]] + a[1..] && b == [b[0]] + b[1..];
    }
  }

  lemma RestOf(s: seq<string>)
    requires s != [] && Sorted(s)
    ensures Sorted(s[1..]) && multiset(s[1..]) == multiset(s) - multiset{s[0]}
  {
    assert s == [s[0]] + s[1..];
  }

  lemma SameRests(a: seq<string>, b: seq<string>)
    requires a != [] && b != [] && Sorted(a) && Sorted(b) && multiset(a) == multiset(b) && a[0] == b[0]
    ensures Sorted(a[1..]) && Sorted(b[1..]) && multiset(a[1..]) == multiset(b[1..])
  {
    hide Sorted;
    RestOf(a);
    RestOf(b);
  }

  lemma LeastFirst(a: seq<string>, b: seq<string>)
    requires Sorted(a) && a != [] && b != [] && multiset(a) == multiset(b)
    ensures AtMost(a[0], b[0])
  {
    assert b[0] in multiset(b);
    var i :| 0 <= i < |a| && a[i] == b[0];
    Total(a[0], a[0]);
  }

  ghost predicate Lists<T>(s: seq<T>, keys: set<T>) {
    && (forall i, j :: 0 <= i < j < |s| ==> s[i] != s[j])
    && (forall x :: x in s ==> x in keys)
    && (forall x :: x in keys ==> x in s)
  }

  ghost function Enumerated<T>(keys: set<T>): (s: seq<T>)
    ensures Lists(s, keys)
  {
    if keys == {} then []
    else
      var x :| x in keys;
      var rest := Enumerated(keys - {x});
      assert forall i :: 0 <= i < |rest| ==> rest[i] in keys - {x};
      [x] + rest
  }

  // The keys of a header map in the order they are printed.
  ghost function KeysInOrder<V>(m: map<string, V>): (keys: seq<string>)
    ensures Sorted(keys) && Lists(keys, m.Keys)
  {
    SortLists(Enumerated(m.Keys), m.Keys);
    Sort(Enumerated(m.Keys))
  }

  lemma {:induction false} ListsMultiset<T>(s: seq<T>, keys: set<T>)
    ensures Lists(s, keys) <==> multiset(s) == multiset(keys)
    decreases |s|
  {
    if s == [] {
      if multiset(s) == multiset(keys) {
        forall x ensures x !in keys { assert multiset(keys)[x] == 0; }
      }
    } else {
      var x, rest := s[0], s[1..];
      assert s == [x] + rest;
      assert multiset(s) == multiset{x} + multiset(rest);
      assert multiset(rest) == multiset(s) - multiset{x};
      if x in keys {
        ListsMultiset(rest, keys - {x});
        assert multiset(keys) == multiset{x} + multiset(keys - {x});
        if Lists(rest, keys - {x}) {
          ListsFront(x, rest, keys);
        } else if Lists(s, keys) {
          ListsRest(s, keys);
        }
      } else {
        assert multiset(s)[x] > 0 && multiset(keys)[x] == 0;
        assert x in s;
      }
    }
  }

  lemma ListsFront<T>(x: T, rest: seq<T>, keys: set<T>)
    requires x in keys && Lists(rest, keys - {x})
    ensures Lists([x] + rest, keys)
  {
    var s := [x] + rest;
    forall i, j | 0 <= i < j < |s| ensures s[i] != s[j] {
      assert s[j] == rest[j - 1] && rest[j - 1] in keys - {x};
    }
    forall y ensures y in s <==> y in keys {
      assert y in s <==> y == x || y in rest;
    }
  }

  lemma ListsRest<T>(s: seq<T>, keys: set<T>)
    requires s != [] && Lists(s, keys)
    ensures Lists(s[1..], keys - {s[0]})
  {
    forall y ensures y in s[1..] <==> y in keys - {s[0]} {
      assert s == [s[0]] + s[1..];
    }
  }

  lemma SortLists(s: seq<string>, keys: set<string>)
    requires Lists(s, keys)
    ensures Lists(Sort(s), keys)
  {
    ListsMultiset(s, keys);
    ListsMultiset(Sort(s), keys);
  }

  // Collecting a map's keys in any order and sorting them.
  method SortedKeys<V>(m: map<string, V>) returns (keys: seq<string>)
    ensures keys == KeysInOrder(m)
  {
    keys := [];
    var rest := m.Keys;
    while rest != {}
      invariant rest <= m.Keys && Lists(keys, m.Keys - rest)
      decreases rest
    {
      var k :| k in rest;
      AddKey(keys, m.Keys - rest, k);
      keys := keys + [k];
      assert m.Keys - rest + {k} == m.Keys - (rest - {k});
      rest := rest - {k};
    }
    assert m.Keys - rest == m.Keys;
    SortLists(keys, m.Keys);
    keys := Sort(keys);
    ListsMultiset(keys, m.Keys);
    ListsMultiset(KeysInOrder(m), m.Keys);
    SortedIsUnique(keys, KeysInOrder(m));
  }

  lemma AddKey(keys: seq<string>, have: set<string>, k: string)
    requires Lists(keys, have) && k !in have
    ensures Lists(keys + [k], have + {k})
  {
    forall x ensures x in keys + [k] <==> x in have + {k} {
      assert x in keys + [k] <==> x in keys || x == k;
    }
  }
}
