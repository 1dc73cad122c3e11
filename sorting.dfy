/** JavaScript's `Array.prototype.sort` with a numeric comparator `(x1, x2) => key(x1) - key(x2)`:
    a stable sort by an integer key (lib/plugins/environments.js:93, 117). */
module Sorting {

  /** Keys never decrease along `s`. */
  predicate SortedBy<T>(s: seq<T>, key: T -> int)
  {
    forall i, j :: 0 <= i < j < |s| ==> key(s[i]) <= key(s[j])
  }

  /** Elements of `s` with equal keys are equal: the key identifies an element. */
  ghost predicate KeyDetermines<T>(s: seq<T>, key: T -> int)
  {
    forall i, j :: 0 <= i < |s| && 0 <= j < |s| && key(s[i]) == key(s[j]) ==> s[i] == s[j]
  }

  /** Inserts `x` before the first element whose key is not smaller. */
  function InsertBy<T>(x: T, s: seq<T>, key: T -> int): seq<T>
  {
    if s == [] || key(x) <= key(s[0]) then [x] + s
    else [s[0]] + InsertBy(x, s[1..], key)
  }

  /** Insertion adds exactly `x`. */
  lemma {:induction false} InsertByAdds<T>(x: T, s: seq<T>, key: T -> int)
    ensures multiset(InsertBy(x, s, key)) == multiset(s) + multiset{x}
  {
    if s != [] && key(x) > key(s[0]) {
      InsertByAdds(x, s[1..], key);
      assert s == [s[0]] + s[1..];
    }
  }

  /** A lower bound on the keys of `s` and of `x` bounds the keys after insertion. */
  lemma {:induction false} InsertByBounded<T>(x: T, s: seq<T>, key: T -> int, m: int)
    requires m <= key(x)
    requires forall i :: 0 <= i < |s| ==> m <= key(s[i])
    ensures forall i :: 0 <= i < |InsertBy(x, s, key)| ==> m <= key(InsertBy(x, s, key)[i])
  {
    if s != [] && key(x) > key(s[0]) {
      InsertByBounded(x, s[1..], key, m);
    }
  }

  /** Insertion into a sorted sequence keeps it sorted. */
  lemma {:induction false} InsertBySorted<T>(x: T, s: seq<T>, key: T -> int)
    requires SortedBy(s, key)
    ensures SortedBy(InsertBy(x, s, key), key)
  {
    if s != [] && key(x) > key(s[0]) {
      InsertBySorted(x, s[1..], key);
      InsertByBounded(x, s[1..], key, key(s[0]));
    }
  }

  /** Stable insertion sort by `key`. Elements with equal keys keep their original order,
      as in a stable engine sort. */
  function SortBy<T>(s: seq<T>, key: T -> int): (r: seq<T>)
    ensures SortedBy(r, key)
    ensures multiset(r) == multiset(s)
  {
    if s == [] then []
    else
      var t := SortBy(s[1..], key);
      InsertBySorted(s[0], t, key);
      InsertByAdds(s[0], t, key);
      assert s == [s[0]] + s[1..];
      InsertBy(s[0], t, key)
  }

  /** Removing the first element keeps a sequence sorted, and removes one copy of it. */
  lemma SortedTail<T>(a: seq<T>, key: T -> int)
    requires a != [] && SortedBy(a, key)
    ensures SortedBy(a[1..], key)
    ensures multiset(a[1..]) == multiset(a) - multiset{a[0]}
  {
    assert a == [a[0]] + a[1..];
  }

  /** Removing the first element keeps the key identifying the elements. */
  lemma KeyedTail<T>(a: seq<T>, key: T -> int)
    requires a != [] && KeyDetermines(a, key)
    ensures KeyDetermines(a[1..], key)
  {
  }

  /** Two sorted arrangements of the same elements start with the same element when the key
      identifies an element. */
  lemma HeadsEqual<T>(a: seq<T>, b: seq<T>, key: T -> int)
    requires a != [] && SortedBy(a, key) && SortedBy(b, key)
    requires multiset(a) == multiset(b)
    requires KeyDetermines(a, key)
    ensures b != [] && a[0] == b[0]
  {
    assert a[0] in multiset(b);
    var j :| 0 <= j < |b| && b[j] == a[0];
    assert b[0] in multiset(a);
    var i :| 0 <= i < |a| && a[i] == b[0];
    assert key(b[0]) <= key(b[j]);
    assert key(a[0]) <= key(a[i]);
  }

  /** After equal heads, the tails of two sorted arrangements are again sorted arrangements
      of the same elements. */
  lemma TailsAgree<T>(a: seq<T>, b: seq<T>, key: T -> int)
    requires a != [] && SortedBy(a, key) && SortedBy(b, key)
    requires multiset(a) == multiset(b)
    requires KeyDetermines(a, key)
    ensures b != [] && a[0] == b[0]
    ensures SortedBy(a[1..], key) && SortedBy(b[1..], key)
    ensures multiset(a[1..]) == multiset(b[1..])
    ensures KeyDetermines(a[1..], key)
  {
    HeadsEqual(a, b, key);
    SortedTail(a, key);
    SortedTail(b, key);
    KeyedTail(a, key);
  }

  /** Two sorted arrangements of the same elements coincide when the key identifies an element:
      so sorting forgets the original order and nothing else. */
  lemma {:induction false} SortedPermutationsEqual<T>(a: seq<T>, b: seq<T>, key: T -> int)
    requires SortedBy(a, key) && SortedBy(b, key)
    requires multiset(a) == multiset(b)
    requires KeyDetermines(a, key)
    ensures a == b
  {
    if a != [] {
      TailsAgree(a, b, key);
      SortedPermutationsEqual(a[1..], b[1..], key);
      assert a == [a[0]] + a[1..] && b == [b[0]] + b[1..];
    } else {
      assert |b| == |multiset(b)| == 0;
    }
  }

  /** Comparing after sorting is comparing as multisets, when the key identifies an element. */
  lemma SortedEqualIffPermutation<T>(a: seq<T>, b: seq<T>, key: T -> int)
    requires KeyDetermines(a, key)
    ensures SortBy(a, key) == SortBy(b, key) <==> multiset(a) == multiset(b)
  {
    var sa, sb := SortBy(a, key), SortBy(b, key);
    if multiset(a) == multiset(b) {
      forall i, j | 0 <= i < |sa| && 0 <= j < |sa| && key(sa[i]) == key(sa[j])
        ensures sa[i] == sa[j]
      {
        assert sa[i] in multiset(a) && sa[j] in multiset(a);
        var p :| 0 <= p < |a| && a[p] == sa[i];
        var q :| 0 <= q < |a| && a[q] == sa[j];
      }
      SortedPermutationsEqual(sa, sb, key);
    }
  }
}
