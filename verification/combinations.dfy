/** `generate_combinations`: the Cartesian product of the trait ranges of
    all layers, the exclusion filter, the optional shuffle and the cut to
    the requested size. */
module Combinations {
  import opened Python

  /** One trait index per layer, in layer order. */
  type Combination = seq<nat>

  /** An exclusion: `(layer, trait index)`. */
  type Pair = (nat, nat)

  /** The product of the trait counts. */
  function Prod(counts: seq<nat>): nat
  {
    if counts == [] then 1 else counts[0] * Prod(counts[1..])
  }

  /** The combination has one entry per layer, entry i in 1..counts[i]. */
  predicate InRange(c: Combination, counts: seq<nat>)
  {
    |c| == |counts| && forall i :: 0 <= i < |c| ==> 1 <= c[i] <= counts[i]
  }

  // ---------------------------------------------------------------------
  // itertools.product

  /** `[a] + t` for every t. */
  function Prefixed(a: nat, tails: seq<Combination>): (r: seq<Combination>)
    ensures |r| == |tails| && forall i :: 0 <= i < |r| ==> r[i] == [a] + tails[i]
  {
    seq(|tails|, i requires 0 <= i < |tails| => [a] + tails[i])
  }

  /** `[a] + t` for a in 1..n (outer) and t in tails (inner). */
  function Expand(n: nat, tails: seq<Combination>): seq<Combination>
  {
    if n == 0 then [] else Expand(n - 1, tails) + Prefixed(n, tails)
  }

  /** `itertools.product(*[range(1, count + 1) for count in counts])`: the
      first layer outermost, the last layer varying fastest. With no layers
      it holds the one empty combination. */
  function CartesianProduct(counts: seq<nat>): seq<Combination>
  {
    if counts == [] then [[]] else Expand(counts[0], CartesianProduct(counts[1..]))
  }

  lemma {:induction false} ExpandLength(n: nat, tails: seq<Combination>)
    ensures |Expand(n, tails)| == n * |tails|
  {
    if n > 0 { ExpandLength(n - 1, tails); }
  }

  /** The product has as many combinations as the product of the counts. */
  lemma {:induction false} ProductLength(counts: seq<nat>)
    ensures |CartesianProduct(counts)| == Prod(counts)
    decreases |counts|
  {
    if counts != [] {
      ProductLength(counts[1..]);
      ExpandLength(counts[0], CartesianProduct(counts[1..]));
    }
  }

  lemma {:induction false} ExpandMembers(n: nat, tails: seq<Combination>, c: Combination)
    ensures c in Expand(n, tails) <==> |c| > 0 && 1 <= c[0] <= n && c[1..] in tails
  {
    if n > 0 {
      ExpandMembers(n - 1, tails, c);
      if |c| > 0 && c[0] == n && c[1..] in tails {
        var i :| 0 <= i < |tails| && tails[i] == c[1..];
        assert Prefixed(n, tails)[i] == c;
      }
    }
  }

  /** A combination is produced exactly when it is in range. */
  lemma {:induction false} ProductMembers(counts: seq<nat>, c: Combination)
    ensures c in CartesianProduct(counts) <==> InRange(c, counts)
    decreases |counts|
  {
    if counts == [] {
    } else {
      ExpandMembers(counts[0], CartesianProduct(counts[1..]), c);
      if |c| > 0 {
        ProductMembers(counts[1..], c[1..]);
        if InRange(c, counts) {
          assert InRange(c[1..], counts[1..]) by {
            forall i | 0 <= i < |c| - 1 ensures 1 <= c[1..][i] <= counts[1..][i] {
              assert 1 <= c[i + 1] <= counts[i + 1];
            }
          }
        }
        if InRange(c[1..], counts[1..]) && 1 <= c[0] <= counts[0] {
          forall i | 0 <= i < |c| ensures 1 <= c[i] <= counts[i] {
            if i > 0 { assert c[i] == c[1..][i - 1]; }
          }
        }
      }
    }
  }

  /** Strict lexicographic order on combinations of one length. */
  predicate LexLess(a: Combination, b: Combination)
    decreases |a|
  {
    |a| > 0 && |b| > 0 && (a[0] < b[0] || (a[0] == b[0] && LexLess(a[1..], b[1..])))
  }

  /** Each combination comes strictly after the one before it. */
  predicate Increasing(s: seq<Combination>)
  {
    forall i, j :: 0 <= i < j < |s| ==> LexLess(s[i], s[j])
  }

  lemma {:induction false} LexLessIrreflexive(a: Combination)
    ensures !LexLess(a, a)
    decreases |a|
  {
    if |a| > 0 { LexLessIrreflexive(a[1..]); }
  }

  /** A strictly increasing list repeats nothing. */
  lemma IncreasingDistinct(s: seq<Combination>)
    requires Increasing(s)
    ensures Distinct(s)
  {
    forall i, j | 0 <= i < j < |s| ensures s[i] != s[j] {
      LexLessIrreflexive(s[i]);
    }
  }

  lemma {:induction false} ExpandIncreasing(n: nat, tails: seq<Combination>)
    requires Increasing(tails)
    ensures Increasing(Expand(n, tails))
  {
    if n > 0 {
      ExpandIncreasing(n - 1, tails);
      var left, right := Expand(n - 1, tails), Prefixed(n, tails);
      var s := left + right;
      forall i, j | 0 <= i < j < |s| ensures LexLess(s[i], s[j]) {
        if j < |left| {
          assert s[i] == left[i] && s[j] == left[j];
        } else if i >= |left| {
          assert s[i] == [n] + tails[i - |left|] && s[j] == [n] + tails[j - |left|];
          assert s[i][1..] == tails[i - |left|] && s[j][1..] == tails[j - |left|];
        } else {
          assert s[i] == left[i] && s[i] in left;
          ExpandMembers(n - 1, tails, s[i]);
          assert s[j][0] == n;
        }
      }
    }
  }

  /** Row-major order: the product is strictly increasing in lexicographic
      order, so lower indices of earlier layers come first and the last
      layer varies fastest; in particular no combination repeats. */
  lemma {:induction false} ProductIncreasing(counts: seq<nat>)
    ensures Increasing(CartesianProduct(counts))
    decreases |counts|
  {
    if counts != [] {
      ProductIncreasing(counts[1..]);
      ExpandIncreasing(counts[0], CartesianProduct(counts[1..]));
    }
  }

  // ---------------------------------------------------------------------
  // The exclusion filter

  /** `comb in exclusions` for a tuple and a set of pairs: a combination is
      equal to a pair only when it has exactly two entries. */
  predicate Excluded(c: Combination, exclusions: set<Pair>)
  {
    |c| == 2 && (c[0], c[1]) in exclusions
  }

  /** `[comb for comb in combs if comb not in exclusions]`. */
  function RemoveExcluded(combs: seq<Combination>, exclusions: set<Pair>): (r: seq<Combination>)
    ensures forall c :: c in r <==> c in combs && !Excluded(c, exclusions)
    ensures |r| <= |combs|
  {
    if combs == [] then []
    else if Excluded(combs[0], exclusions) then RemoveExcluded(combs[1..], exclusions)
    else [combs[0]] + RemoveExcluded(combs[1..], exclusions)
  }

  /** Filtering keeps the order. */
  lemma {:induction false} RemoveExcludedIncreasing(combs: seq<Combination>, exclusions: set<Pair>)
    requires Increasing(combs)
    ensures Increasing(RemoveExcluded(combs, exclusions))
  {
    if combs != [] {
      RemoveExcludedIncreasing(combs[1..], exclusions);
      var rest := RemoveExcluded(combs[1..], exclusions);
      forall c | c in rest ensures LexLess(combs[0], c) {
        var j :| 0 <= j < |combs[1..]| && combs[1..][j] == c;
        assert combs[j + 1] == c;
      }
    }
  }

  /** With other than two layers no combination can equal a pair, so the
      filter removes nothing. */
  lemma {:induction false} RemoveNothing(combs: seq<Combination>, exclusions: set<Pair>)
    requires forall c :: c in combs ==> |c| != 2
    ensures RemoveExcluded(combs, exclusions) == combs
  {
    if combs != [] {
      RemoveNothing(combs[1..], exclusions);
      assert combs == [combs[0]] + combs[1..];
    }
  }

  /** The filtered list the generator draws from. */
  function ValidCombinations(counts: seq<nat>, exclusions: set<Pair>): seq<Combination>
  {
    RemoveExcluded(CartesianProduct(counts), exclusions)
  }

  /** What survives the filter: the in-range combinations that are not, as
      a two-layer tuple, an exclusion pair; in row-major order. */
  lemma ValidCombinationsSpec(counts: seq<nat>, exclusions: set<Pair>)
    ensures forall c :: c in ValidCombinations(counts, exclusions) <==> InRange(c, counts) && !Excluded(c, exclusions)
    ensures Increasing(ValidCombinations(counts, exclusions))
    ensures Distinct(ValidCombinations(counts, exclusions))
  {
    forall c ensures c in CartesianProduct(counts) <==> InRange(c, counts) {
      ProductMembers(counts, c);
    }
    ProductIncreasing(counts);
    RemoveExcludedIncreasing(CartesianProduct(counts), exclusions);
    IncreasingDistinct(ValidCombinations(counts, exclusions));
  }

  /** With other than two layers the exclusions do not change the list. */
  lemma ValidIgnoresExclusions(counts: seq<nat>, exclusions: set<Pair>)
    requires |counts| != 2
    ensures ValidCombinations(counts, exclusions) == CartesianProduct(counts)
    ensures |ValidCombinations(counts, exclusions)| == Prod(counts)
  {
    forall c | c in CartesianProduct(counts) ensures |c| != 2 {
      ProductMembers(counts, c);
    }
    RemoveNothing(CartesianProduct(counts), exclusions);
    ProductLength(counts);
  }

  // ---------------------------------------------------------------------
  // random.shuffle

  /** The list with the items at i and j exchanged. */
  function Swap(s: seq<Combination>, i: nat, j: nat): (r: seq<Combination>)
    requires i < |s| && j < |s|
    ensures |r| == |s| && r[i] == s[j] && r[j] == s[i]
    ensures forall k :: 0 <= k < |s| && k != i && k != j ==> r[k] == s[k]
    ensures multiset(r) == multiset(s)
  {
    s[i := s[j]][j := s[i]]
  }

  lemma SwapDistinct(s: seq<Combination>, i: nat, j: nat)
    requires i < |s| && j < |s| && Distinct(s)
    ensures Distinct(Swap(s, i, j))
  {
    var r := Swap(s, i, j);
    forall p, q | 0 <= p < q < |r| ensures r[p] != r[q] {
      var p' := if p == i then j else if p == j then i else p;
      var q' := if q == i then j else if q == j then i else q;
      assert r[p] == s[p'] && r[q] == s[q'] && p' != q';
    }
  }

  /** Steps i, i - 1, ..., 1 of CPython's `random.shuffle`: step i exchanges
      item i with item `randbelow(i + 1)`. The random draws are a parameter:
      `randbelow(i + 1)` is the next draw modulo i + 1 (0 once they run out). */
  function ShuffleSteps(s: seq<Combination>, draws: seq<nat>, i: nat): (r: seq<Combination>)
    requires i < |s|
    ensures multiset(r) == multiset(s) && |r| == |s|
    ensures Distinct(s) ==> Distinct(r)
    decreases i
  {
    if i == 0 then s
    else
      var j := if draws == [] then 0 else draws[0] % (i + 1);
      assert Distinct(s) ==> Distinct(Swap(s, i, j)) by {
        if Distinct(s) { SwapDistinct(s, i, j); }
      }
      ShuffleSteps(Swap(s, i, j), if draws == [] then [] else draws[1..], i - 1)
  }

  /** `random.shuffle(x)`: a permutation of x chosen by the draws. */
  function Shuffle(s: seq<Combination>, draws: seq<nat>): (r: seq<Combination>)
    ensures multiset(r) == multiset(s) && |r| == |s|
    ensures Distinct(s) ==> Distinct(r)
  {
    if |s| <= 1 then s else ShuffleSteps(s, draws, |s| - 1)
  }

  // ---------------------------------------------------------------------
  // generate_combinations

  /** `generate_combinations(trait_counts, collection_size, randomize,
      exclusions)`, the shuffle driven by `draws`. The size may be negative
      (the caller passes the adjusted maximum), in which case Python's slice
      drops items from the end. */
  function GenerateCombinations(counts: seq<nat>, size: int, randomize: bool, exclusions: set<Pair>,
                                draws: seq<nat>): (r: seq<Combination>)
    ensures !randomize ==> r == PyTake(ValidCombinations(counts, exclusions), size)
    ensures |r| == |PyTake(ValidCombinations(counts, exclusions), size)|
    ensures Distinct(r)
    ensures forall c :: c in r ==> InRange(c, counts) && !Excluded(c, exclusions)
  {
    var valid := ValidCombinations(counts, exclusions);
    ValidCombinationsSpec(counts, exclusions);
    var pool := if randomize then Shuffle(valid, draws) else valid;
    var r := PyTake(pool, size);
    assert forall c :: c in r ==> c in multiset(valid);
    assert Distinct(r) by {
      assert forall i :: 0 <= i < |r| ==> r[i] == pool[i];
    }
    r
  }

  /** Without shuffling, the generator returns the first `size` valid
      combinations in row-major order: in range, not excluded, increasing,
      and a prefix of the filtered product. */
  lemma OrderedGeneration(counts: seq<nat>, size: int, exclusions: set<Pair>, draws: seq<nat>)
    ensures var r := GenerateCombinations(counts, size, false, exclusions, draws);
            && r <= ValidCombinations(counts, exclusions)
            && Increasing(r)
            && (size >= 0 ==> |r| == Min(size, |ValidCombinations(counts, exclusions)|))
  {
    var r := GenerateCombinations(counts, size, false, exclusions, draws);
    ValidCombinationsSpec(counts, exclusions);
    var valid := ValidCombinations(counts, exclusions);
    assert forall i :: 0 <= i < |r| ==> r[i] == valid[i];
  }

  /** p holds the same items as s, each as often. */
  predicate IsPermutation(p: seq<Combination>, s: seq<Combination>)
  {
    multiset(p) == multiset(s)
  }

  /** With shuffling, the generator returns as many combinations as without,
      all distinct and all taken from the filtered product: a prefix of a
      permutation of it. */
  lemma ShuffledGeneration(counts: seq<nat>, size: int, exclusions: set<Pair>, draws: seq<nat>)
    ensures var r := GenerateCombinations(counts, size, true, exclusions, draws);
            && |r| == |GenerateCombinations(counts, size, false, exclusions, draws)|
            && Distinct(r)
            && (forall c :: c in r ==> c in ValidCombinations(counts, exclusions))
            && exists p :: IsPermutation(p, ValidCombinations(counts, exclusions)) && r <= p
  {
    var valid := ValidCombinations(counts, exclusions);
    var p := Shuffle(valid, draws);
    var r := GenerateCombinations(counts, size, true, exclusions, draws);
    ValidCombinationsSpec(counts, exclusions);
    assert r <= p && IsPermutation(p, valid);
    forall c | c in r ensures c in valid {
      assert c in multiset(p);
    }
  }
}
