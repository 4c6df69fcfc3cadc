/**
 * The three `CharSeq` operations the name check uses — `replaceAll` with a
 * single-character class, `distinct` and `sorted` — restated as functions on
 * `string`, with the predicates that describe their results.
 */
module CharSeqs {

  /** Every character occurs at most once. */
  predicate NoDuplicates(s: string) {
    forall i, j :: 0 <= i < j < |s| ==> s[i] != s[j]
  }

  /** Characters appear in non-decreasing order. */
  predicate Sorted(s: string) {
    forall i, j :: 0 <= i < j < |s| ==> s[i] <= s[j]
  }

  /** Characters appear in ascending order, so none is repeated. */
  predicate StrictlyIncreasing(s: string) {
    forall i, j :: 0 <= i < j < |s| ==> s[i] < s[j]
  }

  /**
   * `replaceAll(cls, "")` for a character class `cls`: every character the
   * class matches is removed, each other one is kept as often as it occurs.
   * The body keeps their order; the contract states only which characters
   * remain, which is all the following `distinct().sorted()` observes.
   */
  function RemoveAll(s: string, cls: char -> bool): (r: string)
    ensures |r| <= |s|
    ensures forall c :: c in r <==> c in s && !cls(c)
    ensures forall c :: multiset(r)[c] == if cls(c) then 0 else multiset(s)[c]
  {
    if |s| == 0 then []
    else
      assert s == [s[0]] + s[1..];
      (if cls(s[0]) then [] else [s[0]]) + RemoveAll(s[1..], cls)
  }

  /**
   * `distinct()`: every character of `s` exactly once. The body keeps first
   * occurrences in order; the contract states only which characters remain,
   * which is all the following `sorted()` observes.
   */
  function Distinct(s: string): (r: string)
    ensures |r| <= |s|
    ensures NoDuplicates(r)
    ensures forall c :: c in r <==> c in s
  {
    if |s| == 0 then []
    else
      var init := s[..|s| - 1];
      var last := s[|s| - 1];
      assert s == init + [last];
      var d := Distinct(init);
      if last in d then d else d + [last]
  }

  /** Putting a character no greater than any of a sorted `t` in front keeps it sorted. */
  lemma SortedCons(h: char, t: string)
    requires Sorted(t)
    requires forall c :: c in t ==> h <= c
    ensures Sorted([h] + t)
  {
    var r := [h] + t;
    forall i, j | 0 <= i < j < |r|
      ensures r[i] <= r[j]
    {
      assert r[j] == t[j - 1];
      if i > 0 {
        assert r[i] == t[i - 1];
      } else {
        assert t[j - 1] in t;
      }
    }
  }

  /** The strict form of `SortedCons`. */
  lemma StrictlyIncreasingCons(h: char, t: string)
    requires StrictlyIncreasing(t)
    requires forall c :: c in t ==> h < c
    ensures StrictlyIncreasing([h] + t)
  {
    var r := [h] + t;
    forall i, j | 0 <= i < j < |r|
      ensures r[i] < r[j]
    {
      assert r[j] == t[j - 1];
      if i > 0 {
        assert r[i] == t[i - 1];
      } else {
        assert t[j - 1] in t;
      }
    }
  }

  /** Places `x` into the sorted `t` before the first character above it. */
  function Insert(x: char, t: string): (r: string)
    requires Sorted(t)
    ensures forall c :: c in r <==> c == x || c in t
  {
    if |t| == 0 || x <= t[0] then [x] + t
    else [t[0]] + Insert(x, t[1..])
  }

  /** Every character of the sorted `t` is at least its first one. */
  lemma HeadIsLeast(t: string)
    requires Sorted(t) && |t| > 0
    ensures forall c :: c in t ==> t[0] <= c
  {
  }

  /** The characters after the first of a strictly increasing `t` are above it. */
  lemma HeadIsBelowRest(t: string)
    requires StrictlyIncreasing(t) && |t| > 0
    ensures forall c :: c in t[1..] ==> t[0] < c
  {
  }

  /** Inserting into a sorted sequence keeps it sorted, and strictly so when `x` is new. */
  lemma {:induction false} InsertOrdered(x: char, t: string)
    requires Sorted(t)
    ensures Sorted(Insert(x, t))
    ensures StrictlyIncreasing(t) && x !in t ==> StrictlyIncreasing(Insert(x, t))
  {
    if |t| == 0 || x <= t[0] {
      if |t| > 0 {
        HeadIsLeast(t);
      }
      SortedCons(x, t);
      if StrictlyIncreasing(t) && x !in t {
        StrictlyIncreasingCons(x, t);
      }
    } else {
      var rest := Insert(x, t[1..]);
      InsertOrdered(x, t[1..]);
      HeadIsLeast(t);
      assert forall c :: c in t[1..] ==> c in t;
      SortedCons(t[0], rest);
      if StrictlyIncreasing(t) && x !in t {
        HeadIsBelowRest(t);
        StrictlyIncreasingCons(t[0], rest);
      }
    }
  }

  /** Inserting adds exactly one occurrence of `x` and keeps every other character. */
  lemma {:induction false} InsertPermutes(x: char, t: string)
    requires Sorted(t)
    ensures multiset(Insert(x, t)) == multiset(t) + multiset{x}
  {
    if |t| == 0 || x <= t[0] {
    } else {
      InsertPermutes(x, t[1..]);
      assert t == [t[0]] + t[1..];
    }
  }

  /** Without duplicates, the first character does not recur and the rest has no duplicates. */
  lemma NoDuplicatesTail(s: string)
    requires NoDuplicates(s) && |s| > 0
    ensures NoDuplicates(s[1..]) && s[0] !in s[1..]
  {
  }

  /** `sorted()`: the characters of `s` in ascending order (insertion sort). */
  function Sort(s: string): (r: string)
    ensures Sorted(r)
    ensures multiset(r) == multiset(s)
    ensures NoDuplicates(s) ==> StrictlyIncreasing(r)
  {
    if |s| == 0 then []
    else
      var sorted := Sort(s[1..]);
      assert s == [s[0]] + s[1..];
      InsertPermutes(s[0], sorted);
      InsertOrdered(s[0], sorted);
      if NoDuplicates(s) then
        NoDuplicatesTail(s);
        assert s[0] !in multiset(sorted);
        Insert(s[0], sorted)
      else
        Insert(s[0], sorted)
  }

  /** `distinct().sorted()`: each character of `s` once, in ascending order. */
  function DistinctSorted(s: string): (t: string)
    ensures StrictlyIncreasing(t)
    ensures forall c :: c in t <==> c in s
  {
    var d := Distinct(s);
    var t := Sort(d);
    assert forall c :: c in t <==> c in multiset(d);
    t
  }

  /** Two sequences with the same characters are both empty or both not. */
  lemma SameCharactersSameEmptiness(a: string, b: string)
    requires forall c :: c in a <==> c in b
    ensures |a| == 0 <==> |b| == 0
  {
    if |a| > 0 {
      assert a[0] in b;
    }
    if |b| > 0 {
      assert b[0] in a;
    }
  }

  /**
   * A strictly increasing sequence is determined by the characters it
   * contains: two of them with the same characters are equal. Hence any
   * correct sort of the distinct characters gives the same text.
   */
  lemma {:induction false} StrictlyIncreasingUnique(a: string, b: string)
    requires StrictlyIncreasing(a) && StrictlyIncreasing(b)
    requires forall c :: c in a <==> c in b
    ensures a == b
    decreases |a|
  {
    SameCharactersSameEmptiness(a, b);
    if |a| > 0 {
      assert a[0] in b;
      var j :| 0 <= j < |b| && b[j] == a[0];
      assert b[0] in a;
      var i :| 0 <= i < |a| && a[i] == b[0];
      assert a[0] <= a[i];
      assert b[0] <= b[j];
      forall c | c in a[1..]
        ensures c in b[1..]
      {
        var k :| 1 <= k < |a| && a[k] == c;
        assert c in b;
        var m :| 0 <= m < |b| && b[m] == c;
        assert m != 0;
      }
      forall c | c in b[1..]
        ensures c in a[1..]
      {
        var k :| 1 <= k < |b| && b[k] == c;
        assert c in a;
        var m :| 0 <= m < |a| && a[m] == c;
        assert m != 0;
      }
      StrictlyIncreasingUnique(a[1..], b[1..]);
      assert a == [a[0]] + a[1..];
      assert b == [b[0]] + b[1..];
    }
  }
}
