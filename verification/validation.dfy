/** The logger's two input validators (data.py). */
module Validation {
  import opened Wrappers
  import opened PyInt

  /** `validate_initial_score`: an integer greater than zero, otherwise `None`. */
  function ValidateInitialScore(s: string): (r: Option<int>)
    ensures r.Some? <==> ParseInt(s).Some? && ParseInt(s).value > 0
    ensures r.Some? ==> r == ParseInt(s)
  {
    match ParseInt(s)
    case Some(n) => if n > 0 then Some(n) else None
    case None => None
  }

  /** The only score changes the logger accepts; the set is closed. */
  const AllowedChanges: set<int> := {-20, -10, -5, 0, 20}

  /** `validate_score_change`: an integer from `AllowedChanges`, otherwise `None`. */
  function ValidateScoreChange(s: string): (r: Option<int>)
    ensures r.Some? <==> ParseInt(s).Some? && ParseInt(s).value in AllowedChanges
    ensures r.Some? ==> r == ParseInt(s)
  {
    match ParseInt(s)
    case Some(c) => if c in AllowedChanges then Some(c) else None
    case None => None
  }

  /** The decimal spelling of `n` is accepted as an initial score exactly when `n > 0`. */
  lemma InitialScoreOfStr(n: int)
    ensures ValidateInitialScore(Str(n)) == if n > 0 then Some(n) else None
  {
    ParseStr(n);
  }

  /**
   * The decimal spelling of `c` is accepted as a change exactly when `c` is
   * one of -20, -10, -5, 0 and 20; so "-15" or "5" is refused.
   */
  lemma ScoreChangeOfStr(c: int)
    ensures ValidateScoreChange(Str(c)) == if c in {-20, -10, -5, 0, 20} then Some(c) else None
  {
    ParseStr(c);
  }
}
