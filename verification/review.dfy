/**
 * `Review`: the ordered criteria a QA review is conducted on, and the
 * maximum number of points the review can reach.
 */
module Reviews {
  import Criteria

  datatype Review = Review(criteria: seq<Criteria.Criterion>)

  /**
   * The `.map(|c| c.max_points()).sum()` fold over `criteria`, in the
   * iterator's left-to-right order: never negative, and at least the maximum
   * of any single criterion.
   */
  function SumMaxPoints(criteria: seq<Criteria.Criterion>): (total: int)
    ensures total >= 0
    ensures forall i :: 0 <= i < |criteria| ==> Criteria.MaxPoints(criteria[i]) <= total
  {
    if |criteria| == 0 then 0
    else SumMaxPoints(criteria[..|criteria| - 1]) + Criteria.MaxPoints(criteria[|criteria| - 1])
  }

  /**
   * `Review::max_points`: the sum of the criteria's maxima, never negative
   * and never below the maximum of any one criterion.
   */
  function MaxPoints(r: Review): (total: int)
    ensures total >= 0
    ensures forall i :: 0 <= i < |r.criteria| ==> Criteria.MaxPoints(r.criteria[i]) <= total
  {
    SumMaxPoints(r.criteria)
  }

  /** The sum splits over a concatenation of criteria lists. */
  lemma {:induction false} SumMaxPointsAppend(a: seq<Criteria.Criterion>, b: seq<Criteria.Criterion>)
    ensures SumMaxPoints(a + b) == SumMaxPoints(a) + SumMaxPoints(b)
    decreases |b|
  {
    if |b| > 0 {
      var b' := b[..|b| - 1];
      assert (a + b)[..|a + b| - 1] == a + b';
      SumMaxPointsAppend(a, b');
    } else {
      assert a + b == a;
    }
  }

  /** Two lists of criteria that offer the same options position by position. */
  predicate SameOptions(a: seq<Criteria.Criterion>, b: seq<Criteria.Criterion>) {
    |a| == |b| && forall i :: 0 <= i < |a| ==> a[i].options == b[i].options
  }

  /**
   * The maximum depends only on the options on offer: labels and selections
   * play no part.
   */
  lemma {:induction false} MaxPointsDependsOnlyOnOptions(r: Review, r': Review)
    requires SameOptions(r.criteria, r'.criteria)
    ensures MaxPoints(r) == MaxPoints(r')
  {
    SumOfSameOptions(r.criteria, r'.criteria);
  }

  lemma {:induction false} SumOfSameOptions(a: seq<Criteria.Criterion>, b: seq<Criteria.Criterion>)
    requires SameOptions(a, b)
    ensures SumMaxPoints(a) == SumMaxPoints(b)
    decreases |a|
  {
    if |a| > 0 {
      var n := |a| - 1;
      assert SameOptions(a[..n], b[..n]);
      SumOfSameOptions(a[..n], b[..n]);
      assert Criteria.MaxPoints(a[n]) == Criteria.MaxPoints(b[n]) by {
        assert a[n].options == b[n].options;
        Criteria.MaxPointsUnique(b[n], Criteria.MaxPoints(a[n]));
      }
    }
  }

  /**
   * Selecting an option of criterion `k` in place, as a caller holding the
   * criterion does, leaves the review's maximum unchanged.
   */
  lemma MaxPointsIgnoresSelection(r: Review, k: nat, index: nat)
    requires k < |r.criteria| && index < |r.criteria[k].options|
    ensures MaxPoints(Review(r.criteria[k := Criteria.SetSelection(r.criteria[k], index)])) == MaxPoints(r)
  {
    MaxPointsDependsOnlyOnOptions(r, Review(r.criteria[k := Criteria.SetSelection(r.criteria[k], index)]));
  }
}
