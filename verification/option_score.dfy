/**
 * `OptionScore`: how one answer option of a criterion counts towards a review,
 * either a fixed number of points or the `Fatal` marker, and its text parser.
 */
module Scores {
  import opened Optional
  import opened Int32

  /** A point value (possibly negative) or the fatal marker that zeroes a whole review. */
  datatype OptionScore = Fatal | Points(points: int32)

  /** The text that stands for `Fatal`, compared after upper-casing. */
  const FATAL_STR: string := "FATAL"

  /** Upper-casing of one character, for ASCII letters; every other character is left as it is. */
  function UpperAscii(c: char): char {
    if 'a' <= c <= 'z' then ((c as int) - 32) as char else c
  }

  function ToUpper(s: string): string {
    seq(|s|, i requires 0 <= i < |s| => UpperAscii(s[i]))
  }

  /** Reference definition: the five letters of FATAL, each in either case. */
  predicate SpellsFatal(s: string) {
    |s| == 5 && forall i :: 0 <= i < 5 ==> s[i] == "FATAL"[i] || s[i] == "fatal"[i]
  }

  lemma UpperIsFatalIff(s: string)
    ensures ToUpper(s) == FATAL_STR <==> SpellsFatal(s)
  {
  }

  /** A string spelling FATAL is never a decimal literal, so the two outcomes of the parser never compete. */
  lemma FatalIsNotLiteral(s: string)
    requires SpellsFatal(s)
    ensures !IsDecimalLiteral(s)
  {
  }

  /**
   * `OptionScore::from_str`: any spelling of FATAL in any mix of cases gives
   * `Fatal`; otherwise an i32 decimal literal gives its points; anything else
   * gives `None`.
   */
  function FromStr(s: string): (r: Option<OptionScore>)
    ensures r == Some(Fatal) <==> SpellsFatal(s)
    ensures r.Some? && r.value.Points? <==> IsDecimalLiteral(s) && InRange(LiteralValue(s))
    ensures r.Some? && r.value.Points? ==> IsDecimalLiteral(s) && r.value.points == LiteralValue(s)
    ensures r.None? <==> !SpellsFatal(s) && !(IsDecimalLiteral(s) && InRange(LiteralValue(s)))
  {
    UpperIsFatalIff(s);
    assert SpellsFatal(s) ==> !IsDecimalLiteral(s) by {
      if SpellsFatal(s) { FatalIsNotLiteral(s); }
    }
    if ToUpper(s) == FATAL_STR then
      Some(Fatal)
    else
      match ParseI32(s)
      case Some(points) => Some(Points(points))
      case None => None
  }

  /** Round trip: the decimal text of any i32 point value parses back to those points. */
  lemma FromStrDecimal(n: int32)
    ensures FromStr(Decimal(n)) == Some(Points(n))
  {
    ParseDecimal(n);
  }
}
