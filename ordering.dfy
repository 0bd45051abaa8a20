/** The ordering behind `this.books.sort(compare)`. The engine's sorting algorithm is
    not visible from app.js; it is modelled by an insertion sort. The lemmas below
    prove what Array.prototype.sort promises: the result is a permutation of the
    input and, whenever the comparison callback is consistent, ordered by it and
    stable. For a callback that is not consistent the insertion sort still fixes
    one particular order, which ECMAScript leaves to the engine. */
module Ordering {

  /** A comparison callback is consistent when "`cmp(a, b) <= 0`, a may stay before b"
      is a total preorder: any two values can be placed one way or the other, and the
      relation is transitive. */
  ghost predicate Consistent<T(!new)>(cmp: (T, T) -> int) {
    && (forall a, b :: cmp(a, b) <= 0 || cmp(b, a) <= 0)
    && (forall a, b, c :: cmp(a, b) <= 0 && cmp(b, c) <= 0 ==> cmp(a, c) <= 0)
  }

  /** A callback that compares two values by comparing a key of each with a consistent
      callback is consistent. */
  lemma ConsistentByKey<K(!new), T(!new)>(collate: (K, K) -> int, key: T -> K, cmp: (T, T) -> int)
    requires forall a, b :: cmp(a, b) == collate(key(a), key(b))
    ensures Consistent(collate) ==> Consistent(cmp)
  {
  }

  /** No pair of elements is out of order under cmp. */
  ghost predicate SortedBy<T>(s: seq<T>, cmp: (T, T) -> int) {
    forall i, j :: 0 <= i < j < |s| ==> cmp(s[i], s[j]) <= 0
  }

  /** Places x in front of the first element it may precede. */
  function Insert<T>(x: T, s: seq<T>, cmp: (T, T) -> int): (r: seq<T>)
    ensures multiset(r) == multiset(s) + multiset{x}
  {
    if s == [] then [x]
    else if cmp(x, s[0]) <= 0 then [x] + s
    else
      assert s == [s[0]] + s[1..];
      [s[0]] + Insert(x, s[1..], cmp)
  }

  /** The model of Array.prototype.sort with a comparison callback. */
  function Sort<T>(s: seq<T>, cmp: (T, T) -> int): (r: seq<T>)
    ensures multiset(r) == multiset(s)
  {
    if s == [] then []
    else
      assert s == [s[0]] + s[1..];
      Insert(s[0], Sort(s[1..], cmp), cmp)
  }

  /** The tail of an ordered sequence is ordered. */
  lemma SortedTail<T>(s: seq<T>, cmp: (T, T) -> int)
    requires s != [] && SortedBy(s, cmp)
    ensures SortedBy(s[1..], cmp)
  {
  }

  /** An element that may precede every element of an ordered sequence can be put in
      front of it. */
  lemma SortedCons<T>(y: T, t: seq<T>, cmp: (T, T) -> int)
    requires SortedBy(t, cmp)
    requires forall k :: 0 <= k < |t| ==> cmp(y, t[k]) <= 0
    ensures SortedBy([y] + t, cmp)
  {
  }

  /** Inserting into an ordered sequence keeps it ordered. */
  lemma {:induction false} InsertSorted<T(!new)>(x: T, s: seq<T>, cmp: (T, T) -> int)
    requires Consistent(cmp) && SortedBy(s, cmp)
    ensures SortedBy(Insert(x, s, cmp), cmp)
  {
    if s == [] {
    } else if cmp(x, s[0]) <= 0 {
      forall k | 0 <= k < |s| ensures cmp(x, s[k]) <= 0 {
        if k > 0 {
          assert cmp(s[0], s[k]) <= 0;
        }
      }
      SortedCons(x, s, cmp);
    } else {
      assert cmp(s[0], x) <= 0;
      SortedTail(s, cmp);
      InsertSorted(x, s[1..], cmp);
      var t := Insert(x, s[1..], cmp);
      forall k | 0 <= k < |t| ensures cmp(s[0], t[k]) <= 0 {
        var e := t[k];
        assert e in multiset(t);
        if e != x {
          assert e in multiset(s[1..]);
          var m :| 0 <= m < |s[1..]| && s[1..][m] == e;
          assert s[m + 1] == e;
        }
      }
      SortedCons(s[0], t, cmp);
    }
  }

  /** The sort's result is ordered by a consistent callback. */
  lemma {:induction false} SortSorted<T(!new)>(s: seq<T>, cmp: (T, T) -> int)
    requires Consistent(cmp)
    ensures SortedBy(Sort(s, cmp), cmp)
  {
    if s != [] {
      SortSorted(s[1..], cmp);
      InsertSorted(s[0], Sort(s[1..], cmp), cmp);
    }
  }

  /** Neither a nor b may be placed after the other. */
  predicate Tied<T>(cmp: (T, T) -> int, a: T, b: T) {
    cmp(a, b) <= 0 && cmp(b, a) <= 0
  }

  /** The elements of s tied with x, in their order in s. */
  function Ties<T>(s: seq<T>, x: T, cmp: (T, T) -> int): seq<T> {
    if s == [] then []
    else (if Tied(cmp, x, s[0]) then [s[0]] else []) + Ties(s[1..], x, cmp)
  }

  /** One step of InsertTies: y goes past the head h of t, which is not tied with x
      when y is. */
  lemma InsertTiesStep<T>(y: T, t: seq<T>, x: T, cmp: (T, T) -> int)
    requires t != [] && cmp(y, t[0]) > 0
    requires !(Tied(cmp, x, y) && Tied(cmp, x, t[0]))
    requires Ties(Insert(y, t[1..], cmp), x, cmp) == (if Tied(cmp, x, y) then [y] else []) + Ties(t[1..], x, cmp)
    ensures Ties(Insert(y, t, cmp), x, cmp) == (if Tied(cmp, x, y) then [y] else []) + Ties(t, x, cmp)
  {
    var r, u := Insert(y, t, cmp), Insert(y, t[1..], cmp);
    assert r == [t[0]] + u;
    assert r[0] == t[0] && r[1..] == u;
    if Tied(cmp, x, y) {
      assert Ties(r, x, cmp) == Ties(u, x, cmp) == [y] + Ties(t[1..], x, cmp);
      assert Ties(t, x, cmp) == Ties(t[1..], x, cmp);
    } else {
      assert Ties(u, x, cmp) == Ties(t[1..], x, cmp);
    }
  }

  /** Insertion places y ahead of every element it may precede, in particular (when
      y is tied with x) ahead of the other elements tied with x; so the ties with x
      keep their order and y joins them at the front when it is one of them. */
  lemma {:induction false} InsertTies<T>(y: T, t: seq<T>, x: T, cmp: (T, T) -> int)
    requires Tied(cmp, x, y) ==> forall k :: 0 <= k < |t| && Tied(cmp, x, t[k]) ==> cmp(y, t[k]) <= 0
    ensures Ties(Insert(y, t, cmp), x, cmp) == (if Tied(cmp, x, y) then [y] else []) + Ties(t, x, cmp)
  {
    if t == [] || cmp(y, t[0]) <= 0 {
      var r := Insert(y, t, cmp);
      assert r == [y] + t && r[1..] == t;
    } else {
      assert Tied(cmp, x, y) ==> forall k :: 0 <= k < |t[1..]| && Tied(cmp, x, t[1..][k]) ==> cmp(y, t[1..][k]) <= 0 by {
        forall k | 0 <= k < |t[1..]| ensures t[1..][k] == t[k + 1] {}
      }
      InsertTies(y, t[1..], x, cmp);
      InsertTiesStep(y, t, x, cmp);
    }
  }

  /** The sort is stable: elements the callback ties keep their relative order. */
  lemma {:induction false} SortStable<T(!new)>(s: seq<T>, x: T, cmp: (T, T) -> int)
    requires Consistent(cmp)
    ensures Ties(Sort(s, cmp), x, cmp) == Ties(s, x, cmp)
  {
    if s != [] {
      SortStable(s[1..], x, cmp);
      var y, t := s[0], Sort(s[1..], cmp);
      forall k | 0 <= k < |t| && Tied(cmp, x, y) && Tied(cmp, x, t[k]) ensures cmp(y, t[k]) <= 0 {
        assert cmp(y, x) <= 0 && cmp(x, t[k]) <= 0;
      }
      InsertTies(y, t, x, cmp);
    }
  }

  /** A sequence already in order is left as it is. */
  lemma {:induction false} SortKeepsSorted<T(!new)>(s: seq<T>, cmp: (T, T) -> int)
    requires SortedBy(s, cmp)
    ensures Sort(s, cmp) == s
  {
    if s != [] {
      var t := s[1..];
      SortedTail(s, cmp);
      SortKeepsSorted(t, cmp);
      assert Sort(s, cmp) == Insert(s[0], t, cmp);
      if t != [] {
        assert t[0] == s[1] && cmp(s[0], s[1]) <= 0;
      }
      assert Insert(s[0], t, cmp) == [s[0]] + t;
      assert s == [s[0]] + t;
    }
  }
}
