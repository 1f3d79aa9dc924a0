/**
 * The two command-line validators, `validatePage` and `validateCount`. The
 * source prints a message and calls `process.exit(1)` on bad input; here that
 * exit is the `Err` alternative of a result.
 */
module Validation {
  import opened Text

  datatype ValidationError =
    | PageRequired   // 'Page is a required parameter.'
    | CountInvalid   // 'Count must be a non-negative integer.'

  datatype Result<T> = Ok(value: T) | Err(error: ValidationError)

  /** A command-line option as the program sees it: absent, or a string. */
  datatype Arg = Undefined | Defined(text: string)

  /**
   * A JavaScript number, as produced by `Number(value)`. Finite values are
   * kept exact; the coercion itself is outside the model.
   */
  datatype JsNumber = NaN | PositiveInfinity | NegativeInfinity | Finite(value: real)

  /** The segment that `validatePage` strips from a page slug. */
  const SeriesPathSegment: string := "fugazi_live_series/"

  /** `Number.isInteger`: finite and without fractional part. */
  predicate IsInteger(n: JsNumber) {
    n.Finite? && n.value.Floor as real == n.value
  }

  /**
   * `validatePage`: an undefined slug is an error; otherwise the first
   * `fugazi_live_series/` is removed, and only that one.
   */
  function ValidatePage(page: Arg): (r: Result<string>)
    ensures r.Err? <==> page.Undefined?
    ensures r.Err? ==> r.error == PageRequired
    ensures page.Defined? && FirstOccurrence(page.text, SeriesPathSegment).None? ==>
      r == Ok(page.text)
    ensures page.Defined? && FirstOccurrence(page.text, SeriesPathSegment).Some? ==>
      |r.value| == |page.text| - 19
  {
    match page
    case Undefined => Err(PageRequired)
    case Defined(text) => Ok(RemoveFirst(text, SeriesPathSegment))
  }

  /** A slug given with the series path in front is reduced to the bare slug. */
  lemma ValidatePageStripsLeadingSegment(slug: string)
    ensures ValidatePage(Defined(SeriesPathSegment + slug)) == Ok(slug)
  {
    RemoveFirstOfPrefix(SeriesPathSegment, slug);
  }

  /**
   * What `validatePage` removed can be put back: the input is the result
   * with the segment reinserted at the first occurrence.
   */
  lemma ValidatePageReinsert(text: string)
    requires FirstOccurrence(text, SeriesPathSegment).Some?
    ensures var k := FirstOccurrence(text, SeriesPathSegment).value;
      var slug := ValidatePage(Defined(text)).value;
      slug[..k] + SeriesPathSegment + slug[k..] == text
  {
    RemoveFirstInverse(text, SeriesPathSegment);
  }

  /**
   * `validateCount`: the value comes back unchanged exactly when it is an
   * integer at least 0; every other value, NaN and the infinities included,
   * is an error.
   */
  function ValidateCount(n: JsNumber): (r: Result<nat>)
    ensures r.Ok? <==> IsInteger(n) && n.value >= 0.0
    ensures r.Ok? ==> r.value as real == n.value
    ensures r.Err? ==> r.error == CountInvalid
  {
    if IsInteger(n) && n.value >= 0.0 then
      Ok(n.value.Floor)
    else
      Err(CountInvalid)
  }

  /** Every page limit the program can run with is accepted as itself. */
  lemma ValidateCountAcceptsEveryLimit(limit: nat)
    ensures ValidateCount(Finite(limit as real)) == Ok(limit)
  {
  }

  /** A count with a fractional part is refused, wherever it lies. */
  lemma {:induction false} ValidateCountRejectsFraction(whole: int, fraction: real)
    requires 0.0 < fraction < 1.0
    ensures ValidateCount(Finite(whole as real + fraction)) == Err(CountInvalid)
  {
    var x := whole as real + fraction;
    assert x.Floor == whole by {
      assert whole as real <= x < (whole + 1) as real;
    }
  }
}
