/** The closed severity type shared by every check (src/base_check.py, the `State` literal type). */
module Severity {
  import opened Results

  /** Exactly the three states a check can be in. */
  datatype State = OK | WARNING | CRITICAL

  /** The bare token under which a state is written to, and read back from, a state record. */
  function Token(s: State): (t: string)
    ensures |t| > 0
  {
    match s
    case OK => "OK"
    case WARNING => "WARNING"
    case CRITICAL => "CRITICAL"
  }

  /** Distinct states have distinct tokens. */
  lemma TokenInjective(a: State, b: State)
    requires Token(a) == Token(b)
    ensures a == b
  {
  }

  /** Exact-match recognition of a state token: no trimming, no case folding. */
  function ParseToken(t: string): (r: Option<State>)
    ensures r.Some? ==> Token(r.value) == t
    ensures r.None? ==> forall s: State :: Token(s) != t
  {
    if t == "OK" then Some(OK)
    else if t == "WARNING" then Some(WARNING)
    else if t == "CRITICAL" then Some(CRITICAL)
    else None
  }

  /** Every state token is recognised as the state it names. */
  lemma ParseTokenRoundTrip(s: State)
    ensures ParseToken(Token(s)) == Some(s)
  {
  }

  /** The process exit code that reports a state; it doubles as the severity rank. */
  function ExitCode(s: State): (code: int)
    ensures 0 <= code <= 2
    ensures code == 0 <==> s == OK
    ensures code == 2 <==> s == CRITICAL
  {
    match s
    case OK => 0
    case WARNING => 1
    case CRITICAL => 2
  }

  /** The exit code determines the state, so a scheduler reading only the code loses nothing. */
  lemma ExitCodeInjective(a: State, b: State)
    requires ExitCode(a) == ExitCode(b)
    ensures a == b
  {
  }
}
