/** The two sizes `main` reports before generating: the maximum collection
    size and the "adjusted" maximum after exclusions. */
module Sizes {
  import opened Python
  import opened Combinations

  /** Lines 150-152: the running product of the trait counts. */
  method MaxCollectionSize(counts: seq<nat>) returns (m: int)
    ensures m == Prod(counts)
  {
    m := 1;
    var k := 0;
    while k < |counts|
      invariant 0 <= k <= |counts|
      invariant m * Prod(counts[k..]) == Prod(counts)
    {
      assert counts[k..] == [counts[k]] + counts[k + 1..];
      m := m * counts[k];
      k := k + 1;
    }
    assert counts[k..] == [];
  }

  /** The size of the full combination space is the maximum size. */
  lemma MaxIsSpaceSize(counts: seq<nat>)
    ensures |CartesianProduct(counts)| == Prod(counts)
  {
    ProductLength(counts);
  }

  /** `trait_counts[layer - 1]` can be read for every exclusion pair. */
  ghost predicate AllIndexable(exclusions: set<Pair>, counts: seq<nat>)
  {
    forall p :: p in exclusions ==> PyIndex(counts, p.0 as int - 1).Some?
  }

  /** The product of `trait_counts[layer - 1]` over all exclusion pairs,
      whatever their order. */
  ghost function ExcludedProduct(exclusions: set<Pair>, counts: seq<nat>): int
    requires AllIndexable(exclusions, counts)
    decreases |exclusions|
  {
    if exclusions == {} then 1
    else
      var p :| p in exclusions;
      PyIndex(counts, p.0 as int - 1).value * ExcludedProduct(exclusions - {p}, counts)
  }

  lemma Commute(a: int, b: int, x: int)
    ensures a * (b * x) == b * (a * x)
  {
  }

  /** Any pair can be taken out first: the product does not depend on the
      order in which the set is iterated. */
  lemma {:induction false} ExcludedProductPick(exclusions: set<Pair>, counts: seq<nat>, q: Pair)
    requires AllIndexable(exclusions, counts) && q in exclusions
    ensures ExcludedProduct(exclusions, counts)
            == PyIndex(counts, q.0 as int - 1).value * ExcludedProduct(exclusions - {q}, counts)
    decreases |exclusions|
  {
    var p :| p in exclusions && ExcludedProduct(exclusions, counts)
             == PyIndex(counts, p.0 as int - 1).value * ExcludedProduct(exclusions - {p}, counts);
    if p != q {
      var rest := exclusions - {p} - {q};
      assert exclusions - {q} - {p} == rest;
      var a, b := PyIndex(counts, p.0 as int - 1).value, PyIndex(counts, q.0 as int - 1).value;
      var x := ExcludedProduct(rest, counts);
      ExcludedProductPick(exclusions - {p}, counts, q);
      assert ExcludedProduct(exclusions - {p}, counts) == b * x;
      ExcludedProductPick(exclusions - {q}, counts, p);
      assert ExcludedProduct(exclusions - {q}, counts) == a * x;
      Commute(a, b, x);
    }
  }

  /** One step of the loop at lines 169-170: multiplying the running total by
      the count of a pair and dropping the pair keeps the overall product. */
  lemma ProductStep(rest: set<Pair>, counts: seq<nat>, p: Pair, total: int, all: int)
    requires AllIndexable(rest, counts) && p in rest
    requires total * ExcludedProduct(rest, counts) == all
    ensures (total * PyIndex(counts, p.0 as int - 1).value) * ExcludedProduct(rest - {p}, counts) == all
  {
    ExcludedProductPick(rest, counts, p);
    var c, x := PyIndex(counts, p.0 as int - 1).value, ExcludedProduct(rest - {p}, counts);
    Associate(total, c, x);
  }

  lemma Associate(a: int, b: int, x: int)
    ensures a * (b * x) == (a * b) * x
  {
  }

  /** Lines 168-170: the running product over the exclusion set, iterated
      in whatever order the set yields; None where `trait_counts[layer - 1]`
      raises IndexError. */
  method ExcludedTotal(exclusions: set<Pair>, counts: seq<nat>) returns (r: Option<int>)
    ensures r.Some? <==> AllIndexable(exclusions, counts)
    ensures r.Some? ==> r.value == ExcludedProduct(exclusions, counts)
  {
    ghost var all := AllIndexable(exclusions, counts);
    ghost var product := if all then ExcludedProduct(exclusions, counts) else 0;
    var total := 1;
    var rest := exclusions;
    while rest != {}
      invariant rest <= exclusions
      invariant AllIndexable(exclusions - rest, counts)
      invariant all ==> AllIndexable(rest, counts) && total * ExcludedProduct(rest, counts) == product
      decreases |rest|
    {
      var p :| p in rest;
      var count := PyIndex(counts, p.0 as int - 1);
      if count.None? {
        return None;
      }
      if all {
        ProductStep(rest, counts, p, total, product);
      }
      total := total * count.value;
      rest := rest - {p};
    }
    assert exclusions - rest == exclusions;
    r := Some(total);
  }

  /** The adjusted maximum as a value, for reasoning about the script as a
      whole. */
  ghost function AdjustedSize(maxSize: int, exclusions: set<Pair>, counts: seq<nat>): Result<int>
  {
    if exclusions == {} then Ok(maxSize)
    else if AllIndexable(exclusions, counts) then Ok(maxSize - ExcludedProduct(exclusions, counts))
    else Raised(IndexError)
  }

  /** Lines 167-173: with no exclusions the maximum; otherwise the maximum
      minus the product (not the sum) of `trait_counts[layer - 1]` over all
      exclusion pairs, which may be negative. A layer number past the end of
      `trait_counts` raises IndexError; 0 reads the last count. */
  method AdjustedMaxSize(maxSize: int, exclusions: set<Pair>, counts: seq<nat>) returns (r: Result<int>)
    ensures r == AdjustedSize(maxSize, exclusions, counts)
    ensures exclusions == {} ==> r == Ok(maxSize)
    ensures exclusions != {} && AllIndexable(exclusions, counts) ==>
              r == Ok(maxSize - ExcludedProduct(exclusions, counts))
    ensures exclusions != {} && !AllIndexable(exclusions, counts) ==> r == Raised(IndexError)
  {
    if |exclusions| > 0 {
      var total := ExcludedTotal(exclusions, counts);
      if total.None? {
        return Raised(IndexError);
      }
      r := Ok(maxSize - total.value);
    } else {
      r := Ok(maxSize);
    }
  }

  /** With every trait count at least 1 the excluded product is at least 1. */
  lemma {:induction false} ExcludedProductPositive(exclusions: set<Pair>, counts: seq<nat>)
    requires AllIndexable(exclusions, counts)
    requires forall i :: 0 <= i < |counts| ==> counts[i] >= 1
    ensures ExcludedProduct(exclusions, counts) >= 1
    decreases |exclusions|
  {
    if exclusions != {} {
      var p :| p in exclusions;
      ExcludedProductPick(exclusions, counts, p);
      ExcludedProductPositive(exclusions - {p}, counts);
      AtLeastOne(PyIndex(counts, p.0 as int - 1).value, ExcludedProduct(exclusions - {p}, counts));
    }
  }

  lemma AtLeastOne(a: int, b: int)
    requires a >= 1 && b >= 1
    ensures a * b >= 1
  {
  }

  /** With other than two layers the filter removes nothing, yet any
      exclusion lowers the adjusted maximum: it is always below the number
      of combinations actually available. */
  lemma AdjustedUndercounts(exclusions: set<Pair>, counts: seq<nat>)
    requires |counts| != 2 && exclusions != {}
    requires AllIndexable(exclusions, counts)
    requires forall i :: 0 <= i < |counts| ==> counts[i] >= 1
    ensures Prod(counts) - ExcludedProduct(exclusions, counts) < |ValidCombinations(counts, exclusions)|
  {
    ValidIgnoresExclusions(counts, exclusions);
    ExcludedProductPositive(exclusions, counts);
  }

  /** Two layers of 2 and 1 traits with the exclusion (1, 1): one of the
      two combinations survives the filter, but the adjusted maximum is
      2 - 2 = 0, so asking for "max" generates nothing. */
  lemma AdjustedMaxExample()
    ensures ExcludedProduct({(1, 1)}, [2, 1]) == 2
    ensures AdjustedSize(Prod([2, 1]), {(1, 1)}, [2, 1]) == Ok(0)
    ensures ValidCombinations([2, 1], {(1, 1)}) == [[2, 1]]
  {
    ExcludedProductPick({(1, 1)}, [2, 1], (1, 1));
    assert {(1, 1)} - {(1, 1)} == {};
    var tails := CartesianProduct([1]);
    assert [2, 1][1..] == [1];
    assert tails == [[1]] by {
      assert [1][1..] == [];
      assert tails == Expand(1, [[]]);
      assert Expand(1, [[]]) == Expand(0, [[]]) + Prefixed(1, [[]]);
      var e: Combination := [];
      assert [1] + e == [1];
      assert Prefixed(1, [e])[0] == [1];
      assert Prefixed(1, [[]]) == [[1]];
    }
    assert [1] + [1] == [1, 1] && [2] + [1] == [2, 1];
    assert Prefixed(1, tails)[0] == [1, 1];
    assert Prefixed(1, tails) == [[1, 1]];
    assert Prefixed(2, tails)[0] == [2, 1];
    assert Prefixed(2, tails) == [[2, 1]];
    assert Expand(1, tails) == Expand(0, tails) + Prefixed(1, tails);
    assert Expand(2, tails) == Expand(1, tails) + Prefixed(2, tails);
    assert CartesianProduct([2, 1]) == Expand(2, tails);
    assert CartesianProduct([2, 1]) == [[1, 1], [2, 1]];
    var s := [[1, 1], [2, 1]];
    assert Excluded(s[0], {(1, 1)});
    assert s[1..] == [[2, 1]];
  }
}
