/**
 * `CriterionOption` and `Criterion`: one question of a scorecard, its fixed
 * list of answer options and the index of the option currently selected.
 */
module Criteria {
  import opened Optional
  import opened Int32
  import opened Scores

  /** A labelled answer option; `CriterionOption::new` is the constructor, `label()` (here `name`) and `score()` its fields. */
  datatype CriterionOption = CriterionOption(name: string, score: OptionScore)

  /** A criterion; `selectionIndex` is `None` until an option has been selected. */
  datatype Criterion = Criterion(name: string, options: seq<CriterionOption>, selectionIndex: Option<nat>)
  {
    /** The representation invariant: a selected index always names one of the options. */
    predicate Valid() {
      selectionIndex.Some? ==> selectionIndex.value < |options|
    }
  }

  /** True when option `i` is worth exactly `p` points. */
  predicate OffersPoints(options: seq<CriterionOption>, i: int, p: int) {
    0 <= i < |options| && options[i].score.Points? && options[i].score.points == p
  }

  /** `Criterion::new`: the given label (`name`) and options, nothing selected yet. */
  function NewCriterion(name: string, options: seq<CriterionOption>): (c: Criterion)
    ensures c.Valid() && c.name == name && c.options == options
    ensures SelectionScore(c).None?
  {
    Criterion(name, options, None)
  }

  /** One step of the `max_points` loop: a larger point value replaces the running maximum, `Fatal` is skipped. */
  function RaiseTo(best: int32, score: OptionScore): int32 {
    match score
    case Points(p) => if p > best then p else best
    case Fatal => best
  }

  /**
   * The `max_points` loop from the running maximum `best` over the remaining
   * options: the result is at least `best`, at least every point value on
   * offer, and is `best` itself or one of those point values.
   */
  function FoldMax(options: seq<CriterionOption>, best: int32): (m: int32)
    ensures best <= m
    ensures forall i :: 0 <= i < |options| && options[i].score.Points? ==> options[i].score.points <= m
    ensures m == best || exists i :: OffersPoints(options, i, m)
  {
    if |options| == 0 then best
    else
      var best' := RaiseTo(best, options[0].score);
      var m := FoldMax(options[1..], best');
      assert m == best || exists i :: OffersPoints(options, i, m) by {
        if m != best' {
          var j :| OffersPoints(options[1..], j, m);
          assert OffersPoints(options, j + 1, m);
        } else if best' != best {
          assert OffersPoints(options, 0, m);
        }
      }
      m
  }

  /**
   * `Criterion::max_points`: never negative, at least every point value on
   * offer, and either 0 or one of those point values; `Fatal` options play no part.
   */
  function MaxPoints(c: Criterion): (m: int32)
    ensures IsFlooredMax(c.options, m)
  {
    FoldMax(c.options, 0)
  }

  /** `m` is the largest point value on offer, floored at 0: never negative, at least every point value, and 0 or one of them. */
  ghost predicate IsFlooredMax(options: seq<CriterionOption>, m: int) {
    && m >= 0
    && (forall i :: 0 <= i < |options| && options[i].score.Points? ==> options[i].score.points <= m)
    && (m == 0 || exists i :: OffersPoints(options, i, m))
  }

  /** The properties `MaxPoints` promises fix its value. */
  lemma MaxPointsUnique(c: Criterion, m: int)
    ensures IsFlooredMax(c.options, m) <==> m == MaxPoints(c)
  {
  }

  /** A criterion is worth 0 points at best exactly when no option offers a positive point value. */
  lemma MaxPointsZeroIff(c: Criterion)
    ensures MaxPoints(c) == 0 <==> forall i :: 0 <= i < |c.options| && c.options[i].score.Points? ==> c.options[i].score.points <= 0
  {
  }

  /** Inserting a `Fatal` option anywhere leaves the maximum unchanged. */
  lemma FatalOptionKeepsMax(c: Criterion, k: nat, o: CriterionOption)
    requires k <= |c.options| && o.score == Fatal
    ensures MaxPoints(c.(options := c.options[..k] + [o] + c.options[k..])) == MaxPoints(c)
  {
    var c' := c.(options := c.options[..k] + [o] + c.options[k..]);
    var m := MaxPoints(c);
    forall i | 0 <= i < |c'.options| && c'.options[i].score.Points?
      ensures c'.options[i].score.points <= m
    {
      if i < k {
        assert c'.options[i] == c.options[i];
      } else if i > k {
        assert c'.options[i] == c.options[i - 1];
      }
    }
    if m != 0 {
      var j :| OffersPoints(c.options, j, m);
      assert OffersPoints(c'.options, if j < k then j else j + 1, m);
    }
    MaxPointsUnique(c', m);
  }

  /** The order of the options does not matter: any rearrangement has the same maximum. */
  lemma MaxPointsPermutation(c: Criterion, options': seq<CriterionOption>)
    requires multiset(options') == multiset(c.options)
    ensures MaxPoints(c.(options := options')) == MaxPoints(c)
  {
    var c' := c.(options := options');
    var m := MaxPoints(c);
    forall i | 0 <= i < |options'| && options'[i].score.Points?
      ensures options'[i].score.points <= m
    {
      assert options'[i] in multiset(c.options);
      var j :| 0 <= j < |c.options| && c.options[j] == options'[i];
    }
    if m != 0 {
      var j :| OffersPoints(c.options, j, m);
      assert c.options[j] in multiset(options');
      var i :| 0 <= i < |options'| && options'[i] == c.options[j];
      assert OffersPoints(options', i, m);
    }
    MaxPointsUnique(c', m);
  }

  /**
   * `Criterion::set_selection`: the index must name an existing option (the
   * source asserts this and panics otherwise). Afterwards that option is the
   * selection and its score the selection score; label, options and the
   * maximum are as before.
   */
  function SetSelection(c: Criterion, index: nat): (c': Criterion)
    requires index < |c.options|
    ensures c'.Valid() && c'.name == c.name && c'.options == c.options
    ensures c'.selectionIndex == Some(index)
    ensures Selection(c') == c.options[index]
    ensures SelectionScore(c') == Some(c.options[index].score)
    ensures MaxPoints(c') == MaxPoints(c)
  {
    c.(selectionIndex := Some(index))
  }

  /**
   * `Criterion::selection`: defined only once an option is selected (the source
   * unwraps); the invariant keeps the index in range, and the option returned
   * is the one at the selected index, whose score is the selection score.
   */
  function Selection(c: Criterion): (o: CriterionOption)
    requires c.Valid() && c.selectionIndex.Some?
    ensures exists i :: 0 <= i < |c.options| && c.selectionIndex == Some(i) && o == c.options[i]
    ensures SelectionScore(c) == Some(o.score)
  {
    c.options[c.selectionIndex.value]
  }

  /**
   * `Criterion::selection_score`: `None` exactly when nothing is selected,
   * otherwise the score of the option at the selected index.
   */
  function SelectionScore(c: Criterion): (r: Option<OptionScore>)
    requires c.Valid()
    ensures r.None? <==> c.selectionIndex.None?
    ensures r.Some? ==> exists i :: 0 <= i < |c.options| && c.selectionIndex == Some(i) && c.options[i].score == r.value
  {
    match c.selectionIndex
    case None => None
    case Some(index) => Some(c.options[index].score)
  }
}
