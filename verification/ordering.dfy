/** The descending sort by average combat score (recent.js lines 171-174):
    `sort((a, b) => b.acs - a.acs)`. JavaScript's sort is stable, so this is a
    stable insertion sort on a sequence, generic in the element type and in the
    integer key it orders by. */
module Ordering {

  /** Non-increasing in `key`. */
  ghost predicate SortedDesc<T>(s: seq<T>, key: T -> int) {
    forall i, j :: 0 <= i < j < |s| ==> key(s[i]) >= key(s[j])
  }

  /** `[x]` when `x` has key `k`, otherwise nothing. */
  function Keep<T>(x: T, key: T -> int, k: int): seq<T> {
    if key(x) == k then [x] else []
  }

  /** The elements of `s` whose key is `k`, in their order in `s`. */
  function WithKey<T>(s: seq<T>, key: T -> int, k: int): seq<T> {
    if s == [] then [] else Keep(s[0], key, k) + WithKey(s[1..], key, k)
  }

  /** Places `x` after every element whose key is at least its own, so that among
      equal keys the later-inserted element comes last. */
  function Insert<T>(x: T, s: seq<T>, key: T -> int): (r: seq<T>)
    ensures multiset(r) == multiset(s) + multiset{x}
    ensures |r| == |s| + 1
  {
    if s == [] then [x]
    else if key(s[0]) >= key(x) then
      assert multiset(s) == multiset{s[0]} + multiset(s[1..]) by {
        assert s == [s[0]] + s[1..];
      }
      [s[0]] + Insert(x, s[1..], key)
    else [x] + s
  }

  /** Inserting into a sorted sequence gives a sorted sequence. */
  lemma {:induction false} InsertSorted<T>(x: T, s: seq<T>, key: T -> int)
    requires SortedDesc(s, key)
    ensures SortedDesc(Insert(x, s, key), key)
  {
    if s != [] && key(s[0]) >= key(x) {
      var rest := Insert(x, s[1..], key);
      assert SortedDesc(s[1..], key);
      InsertSorted(x, s[1..], key);
      assert rest[0] == x || rest[0] == s[1];
      assert Insert(x, s, key) == [s[0]] + rest;
    }
  }

  /** Stable descending sort: each element is inserted in input order. The result
      is a permutation of the input and is non-increasing in `key`. */
  function SortDesc<T>(s: seq<T>, key: T -> int): (r: seq<T>)
    ensures SortedDesc(r, key)
    ensures multiset(r) == multiset(s)
    ensures |r| == |s|
  {
    if s == [] then []
    else
      assert s == s[..|s| - 1] + [s[|s| - 1]];
      InsertSorted(s[|s| - 1], SortDesc(s[..|s| - 1], key), key);
      Insert(s[|s| - 1], SortDesc(s[..|s| - 1], key), key)
  }

  lemma WithKeyCons<T>(x: T, s: seq<T>, key: T -> int, k: int)
    ensures WithKey([x] + s, key, k) == Keep(x, key, k) + WithKey(s, key, k)
  {
    assert ([x] + s)[1..] == s;
  }

  lemma {:induction false} WithKeyAppend<T>(a: seq<T>, b: seq<T>, key: T -> int, k: int)
    ensures WithKey(a + b, key, k) == WithKey(a, key, k) + WithKey(b, key, k)
  {
    if a == [] {
      assert a + b == b;
    } else {
      assert (a + b)[1..] == a[1..] + b;
      WithKeyAppend(a[1..], b, key, k);
      var p, q, w := Keep(a[0], key, k), WithKey(a[1..], key, k), WithKey(b, key, k);
      assert WithKey(a + b, key, k) == p + (q + w);
      assert p + (q + w) == (p + q) + w;
    }
  }

  lemma {:induction false} WithKeyNone<T>(s: seq<T>, key: T -> int, k: int)
    requires forall i :: 0 <= i < |s| ==> key(s[i]) != k
    ensures WithKey(s, key, k) == []
  {
    if s != [] {
      WithKeyNone(s[1..], key, k);
    }
  }

  /** Inserting keeps the elements of every key in order, with the inserted
      element last among its equals (the sequence must be sorted when the
      element goes in ahead of it). */
  lemma {:induction false} InsertStable<T>(x: T, s: seq<T>, key: T -> int, k: int)
    requires SortedDesc(s, key)
    ensures WithKey(Insert(x, s, key), key, k) == WithKey(s, key, k) + Keep(x, key, k)
  {
    if s == [] {
      WithKeyCons(x, [], key, k);
    } else if key(s[0]) >= key(x) {
      InsertStable(x, s[1..], key, k);
      assert Insert(x, s, key) == [s[0]] + Insert(x, s[1..], key);
      ConsKeep(s[0], Insert(x, s[1..], key), s[1..], x, key, k);
    } else {
      InsertStableAhead(x, s, key, k);
    }
  }

  /** Putting one more element in front of two sequences that agree on key `k`
      up to a trailing `Keep(x)` preserves that agreement. */
  lemma ConsKeep<T>(y: T, rest: seq<T>, tail: seq<T>, x: T, key: T -> int, k: int)
    requires WithKey(rest, key, k) == WithKey(tail, key, k) + Keep(x, key, k)
    ensures WithKey([y] + rest, key, k) == Keep(y, key, k) + WithKey(tail, key, k) + Keep(x, key, k)
  {
    WithKeyCons(y, rest, key, k);
    var a, b, c := Keep(y, key, k), WithKey(tail, key, k), Keep(x, key, k);
    assert a + (b + c) == (a + b) + c;
  }

  lemma InsertStableAhead<T>(x: T, s: seq<T>, key: T -> int, k: int)
    requires SortedDesc(s, key) && s != [] && key(s[0]) < key(x)
    ensures WithKey(Insert(x, s, key), key, k) == WithKey(s, key, k) + Keep(x, key, k)
  {
    assert Insert(x, s, key) == [x] + s;
    WithKeyCons(x, s, key, k);
    if key(x) == k {
      WithKeyNone(s, key, k);
    }
  }

  /** The sort is stable: for every key, the elements with that key appear in the
      output in the same order as in the input. */
  lemma {:induction false} SortStable<T>(s: seq<T>, key: T -> int, k: int)
    ensures WithKey(SortDesc(s, key), key, k) == WithKey(s, key, k)
  {
    if s != [] {
      var init := s[..|s| - 1];
      var x := s[|s| - 1];
      assert s == init + [x];
      assert SortDesc(s, key) == Insert(x, SortDesc(init, key), key);
      SortStable(init, key, k);
      InsertStable(x, SortDesc(init, key), key, k);
      WithKeyAppend(init, [x], key, k);
      WithKeyCons(x, [], key, k);
      assert Keep(x, key, k) + [] == Keep(x, key, k);
    }
  }

  /** The first element with key `k` in `s` is the head of `WithKey(s, key, k)`. */
  lemma {:induction false} WithKeyHead<T>(s: seq<T>, key: T -> int, k: int, i: nat)
    requires i < |s| && key(s[i]) == k
    requires forall j :: 0 <= j < i ==> key(s[j]) != k
    ensures |WithKey(s, key, k)| > 0 && WithKey(s, key, k)[0] == s[i]
  {
    if i > 0 {
      WithKeyHead(s[1..], key, k, i - 1);
    }
  }

  /** Some element with key `k` has no earlier element with that key. */
  lemma {:induction false} FirstWithKey<T>(s: seq<T>, key: T -> int, k: int, i: nat)
    requires i < |s| && key(s[i]) == k
    ensures exists f :: 0 <= f <= i && key(s[f]) == k && forall j :: 0 <= j < f ==> key(s[j]) != k
  {
    if exists j :: 0 <= j < i && key(s[j]) == k {
      var j :| 0 <= j < i && key(s[j]) == k;
      FirstWithKey(s, key, k, j);
    }
  }

  /** The head of the sorted sequence is one of the input elements and has the
      greatest key. */
  lemma SortHeadIsMax<T>(s: seq<T>, key: T -> int)
    requires |s| > 0
    ensures exists i :: 0 <= i < |s| && s[i] == SortDesc(s, key)[0]
    ensures forall j :: 0 <= j < |s| ==> key(s[j]) <= key(SortDesc(s, key)[0])
  {
    var r := SortDesc(s, key);
    assert r[0] in multiset(s);
    forall j | 0 <= j < |s|
      ensures key(s[j]) <= key(r[0])
    {
      assert s[j] in multiset(r);
    }
  }

  /** The head of the sorted sequence is the earliest input element with the
      greatest key: ties go to whichever came first. */
  lemma SortHeadIsFirstMax<T>(s: seq<T>, key: T -> int)
    requires |s| > 0
    ensures exists f :: 0 <= f < |s| && s[f] == SortDesc(s, key)[0]
                        && forall j :: 0 <= j < f ==> key(s[j]) < key(s[f])
  {
    var r := SortDesc(s, key);
    SortHeadIsMax(s, key);
    var i0 :| 0 <= i0 < |s| && s[i0] == r[0];
    var m := key(r[0]);
    SortStable(s, key, m);
    WithKeyHead(r, key, m, 0);
    FirstWithKey(s, key, m, i0);
    var f :| 0 <= f <= i0 && key(s[f]) == m && forall j :: 0 <= j < f ==> key(s[j]) != m;
    WithKeyHead(s, key, m, f);
    assert s[f] == r[0];
    assert forall j :: 0 <= j < f ==> key(s[j]) < key(s[f]);
  }

  /** For a sequence without repeated elements: element `k` heads the sorted
      sequence exactly when no element has a greater key and every earlier
      element has a smaller one. */
  lemma SortHead<T>(s: seq<T>, key: T -> int, k: nat)
    requires k < |s|
    requires forall i, j :: 0 <= i < j < |s| ==> s[i] != s[j]
    ensures SortDesc(s, key)[0] == s[k] <==>
              (forall j :: 0 <= j < |s| ==> key(s[j]) <= key(s[k]))
              && (forall j :: 0 <= j < k ==> key(s[j]) < key(s[k]))
  {
    SortHeadIsMax(s, key);
    SortHeadIsFirstMax(s, key);
    var f :| 0 <= f < |s| && s[f] == SortDesc(s, key)[0] && forall j :: 0 <= j < f ==> key(s[j]) < key(s[f]);
    if (forall j :: 0 <= j < |s| ==> key(s[j]) <= key(s[k])) && (forall j :: 0 <= j < k ==> key(s[j]) < key(s[k])) {
      assert f == k by {
        if f < k {
          assert false;
        }
      }
    }
  }
}
