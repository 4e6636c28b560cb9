# qams_core scoring model

A Dafny model of the scoring core of `qams_core`, the shared library of a
Quality Assurance Management System. A scorecard is a `Review` made of
`Criterion`s. Each criterion offers a fixed list of `CriterionOption`s and may
have one of them selected. Each option carries an `OptionScore`: either
`Points(n)` for a signed 32-bit `n`, or `Fatal`.

The model covers these parts of the library:

- the text parser `OptionScore::from_str`. Any case of `FATAL` gives `Fatal`. An
  i32 decimal literal gives `Points`. Anything else gives `None`.
- the criterion operations: construction, `max_points`, `set_selection`,
  `selection` and `selection_score`.
- `Review::max_points`.

Modules:

- `Optional` (`optional.dfy`): the `Option` type.
- `Int32` (`int32.dfy`): the `i32` range, and `str::parse::<i32>` written out
  digit by digit as Rust's `i32::from_str` does it. A reference definition of
  the accepted literals goes with it.
- `Scores` (`option_score.dfy`): `OptionScore` and `from_str`.
- `Criteria` (`criterion.dfy`): `CriterionOption` and `Criterion`.
- `Reviews` (`review.dfy`): `Review` and its maximum.
- `Examples` (`examples.dfy`): the library's unit-test expectations, plus
  parser examples.

Representation choices:

- The structs are immutable datatypes. The mutating `set_selection` returns the
  updated criterion.
- `label` is a Dafny keyword, so the label field is called `name`.
- The private `selection_index: Option<usize>` is `selectionIndex: Option<nat>`.
  `Criterion.Valid()` states the invariant that the library keeps by
  encapsulation: a selected index is always in range.
- The `assert!` in `set_selection` is a precondition.
- The `unwrap`s in `selection` are preconditions too: a selection must exist,
  and the index must be in range.

The doc comment on `from_str` says that point values contain only numeric
characters. The code calls `str::parse::<i32>`, which also accepts one
leading `+` or `-`. The model follows the code, so `"+7"` and `"-12"` parse
to points.

## Model

| member | source | states |
|---|---|---|
| Int32.ParseI32 | src/lib.rs:32-35 | `parse::<i32>` succeeds exactly on an optional sign followed by one or more digits whose value lies in the i32 range. On success the result is that value. Otherwise the result is `None`. |
| Int32.Accumulate | src/lib.rs:32 | The per-digit loop with checked multiply and add/subtract. It succeeds exactly when the rest is all digits and the signed total stays in range, and then returns that total. |
| Int32.ParseDecimal | src/lib.rs:32-33 | Round trip: the decimal text of any i32 parses back to the same i32. |
| Scores.FromStr | src/lib.rs:28-37 | `Some(Fatal)` exactly for the five letters of FATAL in any mix of cases. `Some(Points(n))` exactly for an in-range decimal literal denoting `n`. `None` for every other input, never an error. |
| Scores.UpperIsFatalIff | src/lib.rs:29-30 | Comparing the upper-cased text with `FATAL_STR` is the same as a case-insensitive match of each letter of FATAL. |
| Scores.FatalIsNotLiteral | src/lib.rs:29-35 | No spelling of FATAL is a numeric literal, so the two successful outcomes of `from_str` never overlap. |
| Scores.FromStrDecimal | src/lib.rs:31-33 | Round trip: the decimal text of any i32 point value parses back to `Some(Points(n))`. |
| Criteria.NewCriterion | src/lib.rs:84-86 | A new criterion keeps the given label and options, has no selection, and its selection score is `None`. |
| Criteria.FoldMax | src/lib.rs:100-112 | The `max_points` loop from a running maximum. The result is at least the start value and at least every `Points` value. It is the start value or one of those `Points` values. `Fatal` is skipped. |
| Criteria.MaxPoints | src/lib.rs:99-113 | A criterion's maximum is never negative and is at least every `Points` value among its options. It is either 0 or one of those values. |
| Criteria.MaxPointsUnique | src/lib.rs:99-113 | Those properties hold of exactly one number. So `max_points` is the largest point value, floored at 0. |
| Criteria.MaxPointsZeroIff | src/lib.rs:100-112 | The maximum is 0 exactly when no option offers a positive point value. This covers empty and all-`Fatal` option lists. |
| Criteria.FatalOptionKeepsMax | src/lib.rs:109 | Inserting a `Fatal` option at any position leaves the maximum unchanged. |
| Criteria.MaxPointsPermutation | src/lib.rs:101-111 | Any rearrangement of the options has the same maximum. |
| Criteria.SetSelection | src/lib.rs:116-119 | The index must be in range. Afterwards the selection is that index, the selected option is `options[index]`, and the selection score is its score. Label, options and maximum are unchanged, and the invariant holds. |
| Criteria.Selection | src/lib.rs:122-124 | When a selection exists, the returned option is the option at the selected index, and its score is the selection score. |
| Criteria.SelectionScore | src/lib.rs:127-132 | `None` exactly when nothing is selected. Otherwise it is the score of the option at the selected index. |
| Reviews.SumMaxPoints | src/lib.rs:146 | The left-to-right sum of the criteria's maxima is never negative. It is at least each criterion's maximum. |
| Reviews.MaxPoints | src/lib.rs:145-147 | A review's maximum is never negative. It is at least the maximum of every criterion. |
| Reviews.SumMaxPointsAppend | src/lib.rs:146 | The sum over a concatenation of criteria lists is the sum of the two parts. |
| Reviews.MaxPointsDependsOnlyOnOptions | src/lib.rs:145-147 | Two reviews whose criteria offer the same options position by position have the same maximum, whatever their labels and selections. |
| Reviews.MaxPointsIgnoresSelection | src/lib.rs:145-147 | Selecting an option of any criterion leaves the review's maximum unchanged. |
| Examples.CriterionMaxPointsExample | src/lib.rs:157-166 | The options 1, 0 and `Fatal` give a maximum of 1. |
| Examples.ReviewMaxPointsExample | src/lib.rs:170-191 | Criteria with maxima 1, 2 and 3 give a review maximum of 6. |
| Examples.SelectionScoreExample | src/lib.rs:194-211 | Selecting index 0 of the options 3, 2 and 0 gives the selection score `Points(3)`. |
| Examples.SelectionExample | src/lib.rs:122-124 | With options YES = 1 and N/A = 1 and index 0 selected, the selection is YES, not N/A. |
| Examples.FatalSpellingsExample | src/lib.rs:28-30 | "FATAL", "fatal" and "Fatal" all parse to `Fatal`. |
| Examples.RejectedTextExample | src/lib.rs:31-35 | "3.5", "abc", "" and "-" parse to `None`. |
| Examples.SignedLiteralExample | src/lib.rs:32-33 | "+7" parses to `Points(7)` and "-12" parses to `Points(-12)`. |
| Examples.RangeEndsExample | src/lib.rs:32-35 | "2147483647" and "-2147483648" parse to the i32 bounds. "2147483648" parses to `None`. |

## Left out

- Review total points, the review-level fatal override, percentage scoring, comments and CSV import/export are not in this revision of `src/lib.rs`. They are not modelled.
- Reviews.MaxPoints: the sum uses unbounded integers. Rust's i32 `.sum()` panics on overflow in debug builds and wraps in release builds. Neither is modelled, and no bound is imposed on the input.
- `Scores.ToUpper` upper-cases ASCII letters only and leaves every other character unchanged; full Unicode case mapping is not written out. The verdict of `Scores.FromStr` is still exact: under Unicode's case tables no non-ASCII character upper-cases to a letter or letter pair of FATAL (ı→I, ſ→S, ﬀ/ﬁ/ﬂ→FF/FI/FL, ẗ→T̈, ẚ→Aʾ), so `to_uppercase() == "FATAL"` holds exactly for `SpellsFatal`. That fact about Unicode is taken from its tables, not proved here.
- Int32.ParseI32: Rust's `ParseIntError` kinds (empty, invalid digit, overflow) all become `None`, because `from_str` discards them.
- The accessors `CriterionOption::label/score` and `Criterion::label/options` are the datatype's fields. `CriterionOption::new` is the datatype's constructor, and so is the `Review { criteria }` literal the tests use.
- Rust ownership and `to_string` copies are not modelled, and neither is `#[derive(Debug)]` formatting.
- `Int32.Decimal` is not part of the library. It exists only as the inverse that `Int32.ParseDecimal` pairs with the parser.
