/**
 * The concrete expectations of the library's own tests, and parser examples,
 * stated as lemmas about the model.
 */
module Examples {
  import opened Optional
  import opened Scores
  import Criteria
  import Reviews

  /** Options YES = 1, PARTIALLY = 0, NO = Fatal: the best case is 1 point. */
  lemma CriterionMaxPointsExample()
    ensures Criteria.MaxPoints(Criteria.NewCriterion("Test criterion", [
              Criteria.CriterionOption("YES", Points(1)),
              Criteria.CriterionOption("PARTIALLY", Points(0)),
              Criteria.CriterionOption("NO", Fatal)])) == 1
  {
  }

  /** Three criteria whose best options are worth 1, 2 and 3 points: the review's maximum is 6. */
  lemma ReviewMaxPointsExample()
    ensures Reviews.MaxPoints(Reviews.Review([
              Criteria.NewCriterion("Criterion 1", [
                Criteria.CriterionOption("YES", Points(1)),
                Criteria.CriterionOption("NO", Points(0)),
                Criteria.CriterionOption("N/A", Points(1))]),
              Criteria.NewCriterion("Criterion 2", [
                Criteria.CriterionOption("YES", Points(2)),
                Criteria.CriterionOption("NO", Points(0))]),
              Criteria.NewCriterion("Criterion 3", [
                Criteria.CriterionOption("EXCEEDS", Points(3)),
                Criteria.CriterionOption("MEETS", Points(2)),
                Criteria.CriterionOption("BELOW", Points(0))])])) == 6
  {
    var c1 := Criteria.NewCriterion("Criterion 1", [
                Criteria.CriterionOption("YES", Points(1)),
                Criteria.CriterionOption("NO", Points(0)),
                Criteria.CriterionOption("N/A", Points(1))]);
    var c2 := Criteria.NewCriterion("Criterion 2", [
                Criteria.CriterionOption("YES", Points(2)),
                Criteria.CriterionOption("NO", Points(0))]);
    var c3 := Criteria.NewCriterion("Criterion 3", [
                Criteria.CriterionOption("EXCEEDS", Points(3)),
                Criteria.CriterionOption("MEETS", Points(2)),
                Criteria.CriterionOption("BELOW", Points(0))]);
    assert Criteria.MaxPoints(c1) == 1;
    assert Criteria.MaxPoints(c2) == 2;
    assert Criteria.MaxPoints(c3) == 3;
    var cs := [c1, c2, c3];
    assert cs[..2] == [c1, c2] && [c1, c2][..1] == [c1] && [c1][..0] == [];
    assert Reviews.SumMaxPoints([c1]) == 1;
    assert Reviews.SumMaxPoints([c1, c2]) == 3;
    assert Reviews.SumMaxPoints(cs) == 6;
  }

  /** Selecting option 0 of EXCEEDS = 3, MEETS = 2, BELOW = 0 makes the selection score 3 points. */
  lemma SelectionScoreExample()
    ensures Criteria.SelectionScore(Criteria.SetSelection(Criteria.NewCriterion("Criterion", [
              Criteria.CriterionOption("EXCEEDS", Points(3)),
              Criteria.CriterionOption("MEETS", Points(2)),
              Criteria.CriterionOption("BELOW", Points(0))]), 0)) == Some(Points(3))
  {
  }

  /** With two options of equal score, the selection is the option at the selected index, not merely one with its score. */
  lemma SelectionExample()
    ensures Criteria.Selection(Criteria.Criterion("Criterion", [
              Criteria.CriterionOption("YES", Points(1)),
              Criteria.CriterionOption("N/A", Points(1))], Some(0))) == Criteria.CriterionOption("YES", Points(1))
  {
  }

  /** Every case of FATAL parses to `Fatal`. */
  lemma FatalSpellingsExample()
    ensures FromStr("FATAL") == Some(Fatal)
    ensures FromStr("fatal") == Some(Fatal)
    ensures FromStr("Fatal") == Some(Fatal)
  {
  }

  /** Decimals, words, a lone sign and the empty string parse to nothing rather than an error. */
  lemma RejectedTextExample()
    ensures FromStr("3.5") == None
    ensures FromStr("abc") == None
    ensures FromStr("") == None
    ensures FromStr("-") == None
  {
  }

  /** Signed literals parse to their value. */
  lemma SignedLiteralExample()
    ensures FromStr("+7") == Some(Points(7))
    ensures FromStr("-12") == Some(Points(-12))
  {
  }

  /** The i32 range is accepted up to both ends and rejected one beyond. */
  lemma RangeEndsExample()
    ensures FromStr("2147483647") == Some(Points(2147483647))
    ensures FromStr("-2147483648") == Some(Points(-2147483648))
    ensures FromStr("2147483648") == None
  {
    var top := "2147483647";
    assert Int32.DigitPart(top) == top;
    NineDigitPrefixValue();
    assert top[..9] == "214748364";
    var past := "2147483648";
    assert Int32.DigitPart(past) == past;
    assert past[..9] == "214748364";
    assert Int32.DigitPart("-2147483648") == past;
  }

  /** The first nine digits of the i32 bounds, evaluated digit by digit. */
  lemma NineDigitPrefixValue()
    ensures Int32.AllDigits("214748364") && Int32.DigitsValue("214748364") == 214748364
  {
    assert "21"[..1] == "2";
    assert Int32.DigitsValue("21") == 21;
    assert "214"[..2] == "21";
    assert Int32.DigitsValue("214") == 214;
    assert "2147"[..3] == "214";
    assert Int32.DigitsValue("2147") == 2147;
    assert "21474"[..4] == "2147";
    assert Int32.DigitsValue("21474") == 21474;
    assert "214748"[..5] == "21474";
    assert Int32.DigitsValue("214748") == 214748;
    assert "2147483"[..6] == "214748";
    assert Int32.DigitsValue("2147483") == 2147483;
    assert "21474836"[..7] == "2147483";
    assert Int32.DigitsValue("21474836") == 21474836;
    assert "214748364"[..8] == "21474836";
    assert Int32.DigitsValue("214748364") == 214748364;
  }
}
