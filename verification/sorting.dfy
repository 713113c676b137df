/**
  Ascending sort of a sequence by a string key, as Ruby's `sort` does for the
  coverage table (pairs compared by file name first) and for the list of
  unreported names. Insertion sort over immutable sequences.
 */
module Sorting {
  import opened Lex

  /** The key of a name is the name itself. */
  function Identity(s: string): string
  {
    s
  }

  /** Every element's key is no later than the key of every element after it. */
  ghost predicate SortedBy<T>(s: seq<T>, key: T -> string)
  {
    forall i, j :: 0 <= i < j < |s| ==> LexLeq(key(s[i]), key(s[j]))
  }

  /** No two elements share a key. */
  ghost predicate DistinctKeys<T>(s: seq<T>, key: T -> string)
  {
    forall i, j :: 0 <= i < j < |s| ==> key(s[i]) != key(s[j])
  }

  /** Every key in `s` is at least `b`. */
  ghost predicate AllAtLeast<T>(s: seq<T>, b: string, key: T -> string)
  {
    forall i :: 0 <= i < |s| ==> LexLeq(b, key(s[i]))
  }

  lemma SortedCons<T>(x: T, s: seq<T>, key: T -> string)
    requires SortedBy(s, key) && AllAtLeast(s, key(x), key)
    ensures SortedBy([x] + s, key)
  {
    var r := [x] + s;
    forall i, j | 0 <= i < j < |r|
      ensures LexLeq(key(r[i]), key(r[j]))
    {
      if i > 0 {
        assert r[i] == s[i - 1] && r[j] == s[j - 1];
      }
    }
  }

  lemma InsertFront<T>(x: T, s: seq<T>, key: T -> string)
    requires SortedBy(s, key)
    requires |s| > 0 && LexLeq(key(x), key(s[0]))
    ensures SortedBy([x] + s, key)
  {
    forall i | 0 <= i < |s| ensures LexLeq(key(x), key(s[i])) {
      if i > 0 {
        LexLeqTransitive(key(x), key(s[0]), key(s[i]));
      }
    }
    SortedCons(x, s, key);
  }

  /** The tail of a sorted sequence is sorted, and no key in it is below the head's. */
  lemma TailOfSorted<T>(s: seq<T>, key: T -> string)
    requires SortedBy(s, key) && |s| > 0
    ensures SortedBy(s[1..], key)
    ensures AllAtLeast(s[1..], key(s[0]), key)
  {
    var t := s[1..];
    forall i | 0 <= i < |t| ensures LexLeq(key(s[0]), key(t[i])) {
      assert t[i] == s[i + 1];
    }
    forall i, j | 0 <= i < j < |t| ensures LexLeq(key(t[i]), key(t[j])) {
      assert t[i] == s[i + 1] && t[j] == s[j + 1];
    }
  }

  /** Puts `x` into the sorted sequence `s` in front of the first element whose key is not smaller. */
  function Insert<T>(x: T, s: seq<T>, key: T -> string): (r: seq<T>)
    requires SortedBy(s, key)
    ensures SortedBy(r, key)
    ensures multiset(r) == multiset(s) + multiset{x}
    ensures |r| == |s| + 1
    ensures forall b :: AllAtLeast(s, b, key) && LexLeq(b, key(x)) ==> AllAtLeast(r, b, key)
    decreases |s|
  {
    if |s| == 0 then
      [x]
    else if LexLeq(key(x), key(s[0])) then
      InsertFront(x, s, key);
      [x] + s
    else
      TailOfSorted(s, key);
      var rest := Insert(x, s[1..], key);
      InsertBehindHead(x, s, rest, key);
      [s[0]] + rest
  }

  /**
    The step of `Insert` that keeps the head: when `x` sorts after the head,
    inserting it into the tail and putting the head back in front is sorted.
   */
  lemma InsertBehindHead<T>(x: T, s: seq<T>, rest: seq<T>, key: T -> string)
    requires SortedBy(s, key) && |s| > 0 && !LexLeq(key(x), key(s[0]))
    requires SortedBy(rest, key)
    requires multiset(rest) == multiset(s[1..]) + multiset{x}
    requires |rest| == |s|
    requires forall b :: AllAtLeast(s[1..], b, key) && LexLeq(b, key(x)) ==> AllAtLeast(rest, b, key)
    ensures SortedBy([s[0]] + rest, key)
    ensures multiset([s[0]] + rest) == multiset(s) + multiset{x}
    ensures forall b :: AllAtLeast(s, b, key) && LexLeq(b, key(x)) ==> AllAtLeast([s[0]] + rest, b, key)
  {
    LexLeqTotal(key(x), key(s[0]));
    TailOfSorted(s, key);
    assert s == [s[0]] + s[1..];
    SortedCons(s[0], rest, key);
    forall b | AllAtLeast(s, b, key) && LexLeq(b, key(x)) ensures AllAtLeast([s[0]] + rest, b, key) {
      assert LexLeq(b, key(s[0]));
      var r := [s[0]] + rest;
      forall i | 0 <= i < |r| ensures LexLeq(b, key(r[i])) {
        if i > 0 {
          assert r[i] == rest[i - 1];
          assert AllAtLeast(s[1..], b, key) by {
            forall k | 0 <= k < |s[1..]| ensures LexLeq(b, key(s[1..][k])) {
              assert s[1..][k] == s[k + 1];
            }
          }
        }
      }
    }
  }

  /** Ascending order by `key`, and a permutation of the input. */
  function Sort<T>(s: seq<T>, key: T -> string): (r: seq<T>)
    ensures SortedBy(r, key)
    ensures multiset(r) == multiset(s)
    ensures |r| == |s|
    decreases |s|
  {
    if |s| == 0 then []
    else
      assert s == [s[0]] + s[1..];
      Insert(s[0], Sort(s[1..], key), key)
  }

  /** The set of keys of the elements of `s`. */
  ghost function Keys<T>(s: seq<T>, key: T -> string): set<string>
  {
    set i | 0 <= i < |s| :: key(s[i])
  }

  lemma KeysCons<T>(x: T, s: seq<T>, key: T -> string)
    ensures Keys([x] + s, key) == {key(x)} + Keys(s, key)
  {
    var r := [x] + s;
    forall k | k in Keys(r, key) ensures k in {key(x)} + Keys(s, key) {
      var i :| 0 <= i < |r| && key(r[i]) == k;
      if i > 0 { assert r[i] == s[i - 1]; }
    }
    forall k | k in {key(x)} + Keys(s, key) ensures k in Keys(r, key) {
      if k != key(x) {
        var i :| 0 <= i < |s| && key(s[i]) == k;
        assert r[i + 1] == s[i];
      } else {
        assert r[0] == x;
      }
    }
  }

  lemma DistinctCons<T>(x: T, s: seq<T>, key: T -> string)
    requires DistinctKeys(s, key) && key(x) !in Keys(s, key)
    ensures DistinctKeys([x] + s, key)
  {
    var r := [x] + s;
    forall i, j | 0 <= i < j < |r| ensures key(r[i]) != key(r[j]) {
      assert r[j] == s[j - 1];
      if i > 0 {
        assert r[i] == s[i - 1];
      }
    }
  }

  /** Keys are distinct exactly when there are as many keys as elements. */
  lemma {:induction false} DistinctKeysCount<T>(s: seq<T>, key: T -> string)
    ensures |Keys(s, key)| <= |s|
    ensures DistinctKeys(s, key) <==> |Keys(s, key)| == |s|
    decreases |s|
  {
    if |s| > 0 {
      var t := s[1..];
      assert s == [s[0]] + t;
      KeysCons(s[0], t, key);
      DistinctKeysCount(t, key);
      if key(s[0]) in Keys(t, key) {
        var i :| 0 <= i < |t| && key(t[i]) == key(s[0]);
        assert s[i + 1] == t[i];
        assert !DistinctKeys(s, key);
      } else {
        assert |Keys(s, key)| == |Keys(t, key)| + 1;
        if DistinctKeys(t, key) {
          forall i, j | 0 <= i < j < |s| ensures key(s[i]) != key(s[j]) {
            assert s[j] == t[j - 1];
            if i > 0 { assert s[i] == t[i - 1]; }
          }
        } else {
          var i, j :| 0 <= i < j < |t| && key(t[i]) == key(t[j]);
          assert s[i + 1] == t[i] && s[j + 1] == t[j];
        }
      }
    }
  }

  /** Sorting keeps distinct keys distinct. */
  lemma SortKeepsDistinctKeys<T>(s: seq<T>, key: T -> string)
    requires DistinctKeys(s, key)
    ensures DistinctKeys(Sort(s, key), key)
  {
    var r := Sort(s, key);
    KeysOfPermutation(s, r, key);
    DistinctKeysCount(s, key);
    DistinctKeysCount(r, key);
  }

  /** Two sequences holding the same elements have the same keys. */
  lemma KeysOfPermutation<T>(a: seq<T>, b: seq<T>, key: T -> string)
    requires multiset(a) == multiset(b)
    ensures Keys(a, key) == Keys(b, key)
  {
    forall k | k in Keys(a, key) ensures k in Keys(b, key) {
      var i :| 0 <= i < |a| && key(a[i]) == k;
      assert a[i] in multiset(b);
    }
    forall k | k in Keys(b, key) ensures k in Keys(a, key) {
      var i :| 0 <= i < |b| && key(b[i]) == k;
      assert b[i] in multiset(a);
    }
  }

  /** Two sorted sequences with the same elements start with the same element. */
  lemma SortedPermutationsSameHead(a: seq<string>, b: seq<string>)
    requires SortedBy(a, Identity) && SortedBy(b, Identity)
    requires multiset(a) == multiset(b)
    requires |a| > 0
    ensures |b| > 0 && a[0] == b[0]
  {
    assert a[0] in multiset(b);
    var j :| 0 <= j < |b| && b[j] == a[0];
    assert b[0] in multiset(a);
    var i :| 0 <= i < |a| && a[i] == b[0];
    if j > 0 { assert LexLeq(b[0], b[j]); } else { LexLeqReflexive(b[0]); }
    if i > 0 { assert LexLeq(a[0], a[i]); } else { LexLeqReflexive(a[0]); }
    LexLeqAntisymmetric(a[0], b[0]);
  }

  lemma SortedTail(a: seq<string>)
    requires SortedBy(a, Identity) && |a| > 0
    ensures SortedBy(a[1..], Identity)
    ensures multiset(a[1..]) == multiset(a) - multiset([a[0]])
  {
    assert a == [a[0]] + a[1..];
  }

  /**
    Sorting by the elements themselves does not depend on input order: two
    sorted sequences with the same elements are equal.
   */
  lemma {:induction false} SortedPermutationsEqual(a: seq<string>, b: seq<string>)
    requires SortedBy(a, Identity) && SortedBy(b, Identity)
    requires multiset(a) == multiset(b)
    ensures a == b
    decreases |a|
  {
    if |a| == 0 {
      assert |b| == |multiset(b)| == 0;
    } else {
      SortedPermutationsSameHead(a, b);
      SortedTail(a);
      SortedTail(b);
      SortedPermutationsEqual(a[1..], b[1..]);
      assert a == [a[0]] + a[1..];
      assert b == [b[0]] + b[1..];
    }
  }

  /** The result of sorting names depends only on which names there are and how often. */
  lemma SortIgnoresInputOrder(a: seq<string>, b: seq<string>)
    requires multiset(a) == multiset(b)
    ensures Sort(a, Identity) == Sort(b, Identity)
  {
    SortedPermutationsEqual(Sort(a, Identity), Sort(b, Identity));
  }
}
