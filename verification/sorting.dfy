/** `sorted()` on a list of strings: Python orders strings
    lexicographically by code point, a proper prefix first. */
module Sorting {
  import opened Python

  /** `a < b` for Python strings. */
  predicate StrLess(a: string, b: string)
    decreases |a|
  {
    && |b| > 0
    && (|a| == 0 || a[0] < b[0] || (a[0] == b[0] && StrLess(a[1..], b[1..])))
  }

  /** `a <= b` for Python strings. */
  predicate StrLessEq(a: string, b: string)
  {
    !StrLess(b, a)
  }

  lemma {:induction false} StrLessIrreflexive(a: string)
    ensures !StrLess(a, a)
    decreases |a|
  {
    if |a| > 0 { StrLessIrreflexive(a[1..]); }
  }

  lemma StrLessAsymmetric(a: string, b: string)
    requires StrLess(a, b)
    ensures !StrLess(b, a)
  {
    if StrLess(b, a) {
      StrLessTransitive(a, b, a);
      StrLessIrreflexive(a);
    }
  }

  /** Two different strings are ordered one way or the other. */
  lemma {:induction false} StrLessTotal(a: string, b: string)
    ensures a == b || StrLess(a, b) || StrLess(b, a)
    decreases |a|
  {
    if |a| > 0 && |b| > 0 && a[0] == b[0] {
      StrLessTotal(a[1..], b[1..]);
      if a[1..] == b[1..] {
        assert a == [a[0]] + a[1..] && b == [b[0]] + b[1..];
      }
    }
  }

  lemma {:induction false} StrLessTransitive(a: string, b: string, c: string)
    requires StrLess(a, b) && StrLess(b, c)
    ensures StrLess(a, c)
    decreases |a|
  {
    if |a| > 0 && a[0] == b[0] && b[0] == c[0] {
      StrLessTransitive(a[1..], b[1..], c[1..]);
    }
  }

  /** `<=` between strings is transitive. */
  lemma StrLessEqTransitive(a: string, b: string, c: string)
    requires StrLessEq(a, b) && StrLessEq(b, c)
    ensures StrLessEq(a, c)
  {
    if StrLess(c, a) {
      StrLessTotal(a, b);
      StrLessTotal(b, c);
      if a == b {
      } else if b == c {
      } else {
        StrLessTransitive(a, b, c);
        StrLessIrreflexive(a);
        StrLessTransitive(a, c, a);
      }
    }
  }

  predicate Sorted(s: seq<string>)
  {
    forall i, j :: 0 <= i < j < |s| ==> StrLessEq(s[i], s[j])
  }

  /** Inserts x before the first element that is not smaller. */
  function Insert(x: string, s: seq<string>): seq<string>
  {
    if s == [] then [x]
    else if StrLess(s[0], x) then [s[0]] + Insert(x, s[1..])
    else [x] + s
  }

  /** Inserting adds x once and keeps every other element. */
  lemma {:induction false} InsertPermutation(x: string, s: seq<string>)
    ensures multiset(Insert(x, s)) == multiset(s) + multiset{x}
  {
    if s != [] && StrLess(s[0], x) {
      InsertPermutation(x, s[1..]);
      assert s == [s[0]] + s[1..];
    }
  }

  /** Inserting into a sorted list keeps it sorted. */
  lemma {:induction false} InsertSorted(x: string, s: seq<string>)
    requires Sorted(s)
    ensures Sorted(Insert(x, s))
  {
    if s == [] {
    } else if StrLess(s[0], x) {
      SortedTail(s);
      InsertSorted(x, s[1..]);
      InsertPermutation(x, s[1..]);
      InsertBehind(x, s[0], s[1..], Insert(x, s[1..]));
      assert s == [s[0]] + s[1..];
    } else {
      InsertFront(x, s);
    }
  }

  /** A head below x stays in front of the sorted insertion into the tail. */
  lemma InsertBehind(x: string, h: string, tail: seq<string>, t: seq<string>)
    requires StrLess(h, x) && Sorted([h] + tail)
    requires Sorted(t) && multiset(t) == multiset(tail) + multiset{x}
    ensures Sorted([h] + t)
  {
    var r := [h] + t;
    forall j | 0 < j < |r| ensures StrLessEq(h, r[j]) {
      assert r[j] == t[j - 1];
      assert r[j] in multiset(t);
      if r[j] == x {
        StrLessAsymmetric(h, x);
      } else {
        assert r[j] in multiset(tail);
        var k :| 0 <= k < |tail| && tail[k] == r[j];
        assert ([h] + tail)[0] == h && ([h] + tail)[k + 1] == r[j];
      }
    }
    forall i, j | 0 < i < j < |r| ensures StrLessEq(r[i], r[j]) {
      assert r[i] == t[i - 1] && r[j] == t[j - 1];
    }
  }

  /** x not above the head of a sorted list goes first. */
  lemma InsertFront(x: string, s: seq<string>)
    requires Sorted(s) && s != [] && !StrLess(s[0], x)
    ensures Sorted([x] + s)
  {
    var r := [x] + s;
    forall j | 0 < j < |r| ensures StrLessEq(x, r[j]) {
      StrLessIrreflexive(s[0]);
      StrLessEqTransitive(x, s[0], r[j]);
    }
    forall i, j | 0 < i < j < |r| ensures StrLessEq(r[i], r[j]) {
      assert r[i] == s[i - 1] && r[j] == s[j - 1];
    }
  }

  /** `sorted(names)`. */
  function Sort(names: seq<string>): seq<string>
  {
    if names == [] then [] else Insert(names[0], Sort(names[1..]))
  }

  /** `sorted` returns a sorted permutation of its argument. */
  lemma SortSpec(names: seq<string>)
    ensures Sorted(Sort(names))
    ensures multiset(Sort(names)) == multiset(names)
    ensures |Sort(names)| == |names|
  {
    SortSorted(names);
    SortPermutation(names);
    assert |multiset(Sort(names))| == |multiset(names)|;
  }

  lemma {:induction false} SortSorted(names: seq<string>)
    ensures Sorted(Sort(names))
  {
    if names != [] {
      SortSorted(names[1..]);
      InsertSorted(names[0], Sort(names[1..]));
    }
  }

  lemma {:induction false} SortPermutation(names: seq<string>)
    ensures multiset(Sort(names)) == multiset(names)
  {
    if names != [] {
      SortPermutation(names[1..]);
      InsertPermutation(names[0], Sort(names[1..]));
      assert names == [names[0]] + names[1..];
    }
  }

  /** A sorted list is fixed by its elements: two sorted permutations of
      one another are equal, so `Sort` is the only sorted permutation. */
  lemma {:induction false} SortedUnique(a: seq<string>, b: seq<string>)
    requires Sorted(a) && Sorted(b) && multiset(a) == multiset(b)
    ensures a == b
    decreases |a|
  {
    assert |a| == |multiset(a)| == |b|;
    if a != [] {
      SortedHeads(a, b);
      assert a == [a[0]] + a[1..] && b == [b[0]] + b[1..];
      assert multiset(a[1..]) == multiset(a) - multiset{a[0]};
      assert multiset(b[1..]) == multiset(b) - multiset{b[0]};
      SortedTail(a);
      SortedTail(b);
      SortedUnique(a[1..], b[1..]);
    }
  }

  /** Two sorted permutations of one another start alike: each head is
      below every element of the other list. */
  lemma SortedHeads(a: seq<string>, b: seq<string>)
    requires Sorted(a) && Sorted(b) && multiset(a) == multiset(b) && a != []
    ensures b != [] && a[0] == b[0]
  {
    assert a[0] in multiset(b);
    assert b[0] in multiset(a);
    var i :| 0 <= i < |b| && b[i] == a[0];
    var j :| 0 <= j < |a| && a[j] == b[0];
    StrLessIrreflexive(a[0]);
    assert StrLessEq(b[0], a[0]);
    assert StrLessEq(a[0], b[0]);
    StrLessTotal(a[0], b[0]);
  }

  lemma SortedTail(a: seq<string>)
    requires Sorted(a) && a != []
    ensures Sorted(a[1..])
  {
    forall i, j | 0 <= i < j < |a| - 1 ensures StrLessEq(a[1..][i], a[1..][j]) {
      assert a[1..][i] == a[i + 1] && a[1..][j] == a[j + 1];
    }
  }
  // Rank: how many names sort below a given one

  /** The number of elements of `s` satisfying `P`. */
  function Count(s: seq<string>, P: string -> bool): nat
  {
    if s == [] then 0 else (if P(s[0]) then 1 else 0) + Count(s[1..], P)
  }

  /** The test "sorts strictly before x". */
  function Below(x: string): string -> bool
  {
    e => StrLess(e, x)
  }

  /** The test "sorts before x or equals it". */
  function UpTo(x: string): string -> bool
  {
    e => StrLessEq(e, x)
  }

  lemma {:induction false} CountConcat(a: seq<string>, b: seq<string>, P: string -> bool)
    ensures Count(a + b, P) == Count(a, P) + Count(b, P)
  {
    if a == [] {
      assert a + b == b;
    } else {
      assert (a + b)[1..] == a[1..] + b;
      CountConcat(a[1..], b, P);
    }
  }

  lemma {:induction false} CountAtMost(s: seq<string>, P: string -> bool)
    ensures Count(s, P) <= |s|
  {
    if s != [] { CountAtMost(s[1..], P); }
  }

  lemma {:induction false} CountAll(s: seq<string>, P: string -> bool)
    requires forall i :: 0 <= i < |s| ==> P(s[i])
    ensures Count(s, P) == |s|
  {
    if s != [] {
      assert forall i :: 0 <= i < |s| - 1 ==> s[1..][i] == s[i + 1];
      CountAll(s[1..], P);
    }
  }

  lemma {:induction false} CountNone(s: seq<string>, P: string -> bool)
    requires forall i :: 0 <= i < |s| ==> !P(s[i])
    ensures Count(s, P) == 0
  {
    if s != [] {
      assert forall i :: 0 <= i < |s| - 1 ==> s[1..][i] == s[i + 1];
      CountNone(s[1..], P);
    }
  }

  /** Inserting x counts x once more and nothing else. */
  lemma {:induction false} CountInsert(x: string, s: seq<string>, P: string -> bool)
    ensures Count(Insert(x, s), P) == Count(s, P) + (if P(x) then 1 else 0)
  {
    if s != [] {
      if StrLess(s[0], x) {
        assert ([s[0]] + Insert(x, s[1..]))[1..] == Insert(x, s[1..]);
        CountInsert(x, s[1..], P);
      } else {
        assert ([x] + s)[1..] == s;
      }
    }
  }

  /** Sorting does not change how many names pass a test. */
  lemma {:induction false} CountSort(names: seq<string>, P: string -> bool)
    ensures Count(Sort(names), P) == Count(names, P)
  {
    if names != [] {
      CountSort(names[1..], P);
      CountInsert(names[0], Sort(names[1..]), P);
    }
  }

  /** In a sorted list the element at position p has at most p elements
      below it and more than p up to it; with no repeats exactly p elements
      sort below it. */
  lemma SortedRank(t: seq<string>, p: nat)
    requires Sorted(t) && p < |t|
    ensures Count(t, Below(t[p])) <= p < Count(t, UpTo(t[p]))
    ensures Distinct(t) ==> Count(t, Below(t[p])) == p
  {
    var f := t[p];
    var front, back := t[..p], t[p..];
    assert t == front + back;
    CountConcat(front, back, Below(f));
    CountConcat(front, back, UpTo(f));
    StrLessIrreflexive(f);
    forall i | 0 <= i < |back|
      ensures !Below(f)(back[i])
    {
      assert back[i] == t[p + i];
      if i > 0 {
        assert StrLessEq(t[p], t[p + i]);
      }
    }
    CountNone(back, Below(f));
    CountAtMost(front, Below(f));
    forall i | 0 <= i < |front|
      ensures UpTo(f)(front[i])
    {
      assert StrLessEq(t[i], t[p]);
    }
    CountAll(front, UpTo(f));
    assert back[0] == f && UpTo(f)(f);
    if Distinct(t) {
      forall i | 0 <= i < |front|
        ensures Below(f)(front[i])
      {
        assert StrLessEq(t[i], t[p]) && t[i] != t[p];
        StrLessTotal(t[i], f);
      }
      CountAll(front, Below(f));
    }
  }

  /** The name `sorted` puts at position p has at most p names below it
      and more than p up to it; with no repeats exactly p sort below it. */
  lemma SortRank(names: seq<string>, p: nat)
    requires p < |names|
    ensures |Sort(names)| == |names|
    ensures Count(names, Below(Sort(names)[p])) <= p < Count(names, UpTo(Sort(names)[p]))
    ensures Distinct(names) ==> Count(names, Below(Sort(names)[p])) == p
  {
    SortSpec(names);
    var f := Sort(names)[p];
    SortedRank(Sort(names), p);
    CountSort(names, Below(f));
    CountSort(names, UpTo(f));
    if Distinct(names) {
      SortDistinct(names);
    }
  }

  /** Inserting a new name into a list without repeats keeps it so. */
  lemma {:induction false} InsertDistinct(x: string, s: seq<string>)
    requires Distinct(s) && x !in s
    ensures Distinct(Insert(x, s))
  {
    if s == [] {
    } else if StrLess(s[0], x) {
      var tail := s[1..];
      assert forall i :: 0 <= i < |tail| ==> tail[i] == s[i + 1];
      InsertDistinct(x, tail);
      InsertPermutation(x, tail);
      assert s[0] !in tail;
      assert s[0] !in multiset(Insert(x, tail));
      ConsDistinct(s[0], Insert(x, tail));
    } else {
      ConsDistinct(x, s);
    }
  }

  /** Sorting a list without repeats leaves none. */
  lemma {:induction false} SortDistinct(names: seq<string>)
    requires Distinct(names)
    ensures Distinct(Sort(names))
  {
    if names != [] {
      var tail := names[1..];
      assert forall i :: 0 <= i < |tail| ==> tail[i] == names[i + 1];
      SortDistinct(tail);
      SortPermutation(tail);
      assert names[0] !in tail;
      assert names[0] !in multiset(Sort(tail));
      InsertDistinct(names[0], Sort(tail));
    }
  }
}
