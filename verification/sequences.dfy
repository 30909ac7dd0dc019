/** Order-aware operations on sequences: first match, filtering, duplicate
    removal and sorting by an integer key. */
module Sequences {
  import opened Wrappers

  /** `k` is the position of the first element of `s` that satisfies `p`. */
  predicate IsFirst<T>(s: seq<T>, p: T -> bool, k: int)
  {
    0 <= k < |s| && p(s[k]) && forall j :: 0 <= j < k ==> !p(s[j])
  }

  /** Position of the first element satisfying `p`, scanning left to right. */
  function FirstIndex<T>(s: seq<T>, p: T -> bool): (r: Option<nat>)
    ensures r.Some? ==> IsFirst(s, p, r.value)
    ensures r.None? ==> forall j :: 0 <= j < |s| ==> !p(s[j])
    decreases |s|
  {
    if |s| == 0 then None
    else if p(s[0]) then Some(0)
    else match FirstIndex(s[1..], p)
      case None => None
      case Some(k) => Some(k + 1)
  }

  /** The first match is unique. */
  lemma IsFirstUnique<T>(s: seq<T>, p: T -> bool, k: int, k': int)
    requires IsFirst(s, p, k) && IsFirst(s, p, k')
    ensures k == k'
  {
  }

  /** Keeps the elements satisfying `p`, in order, with their multiplicities. */
  function Filter<T(!new)>(s: seq<T>, p: T -> bool): (r: seq<T>)
    ensures |r| <= |s|
    ensures forall x :: multiset(r)[x] == if p(x) then multiset(s)[x] else 0
    ensures forall x :: x in r <==> x in s && p(x)
    decreases |s|
  {
    if |s| == 0 then []
    else
      assert s == [s[0]] + s[1..];
      (if p(s[0]) then [s[0]] else []) + Filter(s[1..], p)
  }

  /** Keeping every element is the identity. */
  lemma {:induction false} FilterAll<T(!new)>(s: seq<T>, p: T -> bool)
    requires forall x :: x in s ==> p(x)
    ensures Filter(s, p) == s
    decreases |s|
  {
    if |s| > 0 {
      FilterAll(s[1..], p);
    }
  }

  predicate NoDuplicates<T(==)>(s: seq<T>)
  {
    forall i, j :: 0 <= i < j < |s| ==> s[i] != s[j]
  }

  /** Without duplicates, every element occurs at most once. */
  lemma {:induction false} NoDuplicatesCount<T>(s: seq<T>, x: T)
    requires NoDuplicates(s)
    ensures multiset(s)[x] == if x in s then 1 else 0
    decreases |s|
  {
    if |s| > 0 {
      assert s == [s[0]] + s[1..];
      NoDuplicatesCount(s[1..], x);
      if x == s[0] {
        assert x !in s[1..] by {
          forall j | 0 <= j < |s[1..]| ensures s[1..][j] != x {
            assert s[1..][j] == s[j + 1];
          }
        }
      }
    }
  }

  /** At most one occurrence of everything means no duplicates. */
  lemma NoDuplicatesFromCount<T>(s: seq<T>)
    requires forall x :: multiset(s)[x] <= 1
    ensures NoDuplicates(s)
  {
    forall i, j | 0 <= i < j < |s| ensures s[i] != s[j] {
      assert s == s[..j] + [s[j]] + s[j + 1..];
      assert multiset(s)[s[j]] == multiset(s[..j])[s[j]] + 1 + multiset(s[j + 1..])[s[j]];
      assert s[i] in multiset(s[..j]);
    }
  }

  /** Removes repeated elements, keeping the first occurrence of each
      (pandas' `drop_duplicates` with `keep='first'`). */
  function Dedup<T(==,!new)>(s: seq<T>): (r: seq<T>)
    ensures NoDuplicates(r)
    ensures forall x :: x in r <==> x in s
    ensures |r| <= |s|
    decreases |s|
  {
    if |s| == 0 then []
    else
      var init := Dedup(s[..|s| - 1]);
      var last := s[|s| - 1];
      assert s == s[..|s| - 1] + [last];
      if last in init then init else init + [last]
  }

  /** Position of the first occurrence of `x` in `s`. */
  function FirstPos<T(==)>(s: seq<T>, x: T): (k: nat)
    requires x in s
    ensures k < |s| && s[k] == x
    ensures forall j :: 0 <= j < k ==> s[j] != x
  {
    var r := FirstIndex(s, (y: T) => y == x);
    assert r.Some? by {
      var i :| 0 <= i < |s| && s[i] == x;
    }
    r.value
  }

  lemma FirstPosPrefix<T>(s: seq<T>, m: nat, x: T)
    requires m <= |s| && x in s[..m]
    ensures x in s && FirstPos(s, x) == FirstPos(s[..m], x)
  {
    var k := FirstPos(s[..m], x);
    assert s[k] == x;
    var k' := FirstPos(s, x);
    if k' < k {
      assert s[..m][k'] == x;
    }
  }

  /** Duplicate removal keeps, for every distinct element, its first
      occurrence: the survivors appear in the order of their first
      occurrences in the input. */
  lemma {:induction false} DedupKeepsFirstOccurrences<T(!new)>(s: seq<T>)
    ensures forall i, j :: 0 <= i < j < |Dedup(s)| ==> FirstPos(s, Dedup(s)[i]) < FirstPos(s, Dedup(s)[j])
    decreases |s|
  {
    if |s| > 0 {
      var s' := s[..|s| - 1];
      var init := Dedup(s');
      DedupKeepsFirstOccurrences(s');
      var r := Dedup(s);
      forall i, j | 0 <= i < j < |r| ensures FirstPos(s, r[i]) < FirstPos(s, r[j]) {
        DedupStepOrder(s, s', init, r, i, j);
      }
    }
  }

  /** The inductive step of `DedupKeepsFirstOccurrences` for one pair:
      `r` is the deduplicated `s`, `init` the deduplicated prefix `s'`. */
  lemma DedupStepOrder<T(!new)>(s: seq<T>, s': seq<T>, init: seq<T>, r: seq<T>, i: nat, j: nat)
    requires |s| > 0 && s' == s[..|s| - 1] && init == Dedup(s') && r == Dedup(s) && i < j < |r|
    requires r[i] in s && r[j] in s
    requires j < |init| ==> init[i] in s' && init[j] in s' && FirstPos(s', init[i]) < FirstPos(s', init[j])
    ensures FirstPos(s, r[i]) < FirstPos(s, r[j])
  {
    var last := s[|s| - 1];
    assert s == s' + [last];
    assert r == if last in init then init else init + [last];
    assert r[i] == init[i];
    FirstPosPrefix(s, |s| - 1, init[i]);
    if j < |init| {
      assert r[j] == init[j];
      FirstPosPrefix(s, |s| - 1, init[j]);
    } else {
      LastIsNew(s, s', last);
    }
  }

  /** An element absent from the prefix first occurs at the end. */
  lemma LastIsNew<T>(s: seq<T>, s': seq<T>, last: T)
    requires s == s' + [last] && last !in s'
    ensures FirstPos(s, last) == |s'|
  {
  }

  /** Duplicate removal changes nothing when there is nothing to remove. */
  lemma {:induction false} DedupNoDuplicates<T(!new)>(s: seq<T>)
    requires NoDuplicates(s)
    ensures Dedup(s) == s
    decreases |s|
  {
    if |s| > 0 {
      var s' := s[..|s| - 1];
      DedupNoDuplicates(s');
      assert s[|s| - 1] !in s' by {
        forall j | 0 <= j < |s'| ensures s'[j] != s[|s| - 1] {
          assert s'[j] == s[j];
        }
      }
      assert s == s' + [s[|s| - 1]];
    }
  }

  /** `s` is in non-decreasing order of `key`. */
  predicate SortedBy<T>(s: seq<T>, key: T -> int)
  {
    forall i, j :: 0 <= i < j < |s| ==> key(s[i]) <= key(s[j])
  }

  /** Inserts `x` into a sorted sequence, keeping it sorted. */
  function InsertBy<T>(x: T, s: seq<T>, key: T -> int): (r: seq<T>)
    requires SortedBy(s, key)
    ensures SortedBy(r, key)
    ensures multiset(r) == multiset(s) + multiset{x}
    ensures |r| == |s| + 1
    decreases |s|
  {
    if |s| == 0 then [x]
    else if key(x) <= key(s[0]) then [x] + s
    else
      var tail := InsertBy(x, s[1..], key);
      InsertBehindHead(x, s, key, tail);
      [s[0]] + tail
  }

  /** Putting the head of a sorted `s` in front of `x` inserted into the rest
      of `s` gives a sorted sequence when `x` does not go first. */
  lemma InsertBehindHead<T>(x: T, s: seq<T>, key: T -> int, tail: seq<T>)
    requires |s| > 0 && SortedBy(s, key) && key(s[0]) < key(x)
    requires SortedBy(tail, key) && multiset(tail) == multiset(s[1..]) + multiset{x}
    ensures SortedBy([s[0]] + tail, key)
    ensures multiset([s[0]] + tail) == multiset(s) + multiset{x}
  {
    assert s == [s[0]] + s[1..];
    forall j | 0 <= j < |tail| ensures key(s[0]) <= key(tail[j]) {
      assert tail[j] in multiset(tail);
      if tail[j] != x {
        assert tail[j] in multiset(s[1..]);
        var k :| 0 <= k < |s[1..]| && s[1..][k] == tail[j];
        assert s[k + 1] == tail[j];
      }
    }
  }

  /** Sorts by `key`; only the order of keys is promised, not the order of
      elements with equal keys. */
  function SortBy<T>(s: seq<T>, key: T -> int): (r: seq<T>)
    ensures SortedBy(r, key)
    ensures multiset(r) == multiset(s)
    ensures |r| == |s|
    decreases |s|
  {
    if |s| == 0 then []
    else
      assert s == [s[0]] + s[1..];
      InsertBy(s[0], SortBy(s[1..], key), key)
  }
}
