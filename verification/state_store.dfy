/**
 The per-check state records of src/base_check.py. The directory of
 `{check_name}.state` files is a map from check name to file contents; a
 name absent from the map is a file that does not exist.
 */
module StateStore {
  import opened Results
  import opened Severity
  import opened Text

  type Store = map<string, string>

  /** The state a record's text names once stripped: its token's state, or OK for any other text. */
  function StateOfText(text: string): (s: State)
    ensures forall x: State :: Token(x) == text ==> s == x
    ensures Token(s) != text ==> s == OK
  {
    match ParseToken(text)
    case Some(s) => s
    case None => OK
  }

  /**
   `load_last_state`: the stored text, stripped of whitespace, is taken as a
   state only when it is exactly one of the three tokens; any other text,
   and a missing record, read as OK.
   */
  function LoadLastState(store: Store, check: string): (s: State)
    ensures check !in store ==> s == OK
    ensures check in store ==> forall x: State :: Token(x) == Strip(store[check], Whitespace) ==> s == x
    ensures check in store && Token(s) != Strip(store[check], Whitespace) ==> s == OK
  {
    if check !in store then OK
    else StateOfText(Strip(store[check], Whitespace))
  }

  /** `save_state`: the record for `check` is replaced by the bare token; no other record changes. */
  function SaveState(store: Store, check: string, s: State): (r: Store)
    ensures check in r && r[check] == Token(s)
    ensures r.Keys == store.Keys + {check}
    ensures forall other :: other in store && other != check ==> r[other] == store[other]
  {
    store[check := Token(s)]
  }

  /** No token carries whitespace at either end, so stripping leaves it alone. */
  lemma StripToken(s: State)
    ensures Strip(Token(s), Whitespace) == Token(s)
  {
    StripNothing(Token(s), Whitespace);
  }

  /** Saving a state and loading it back gives the state. */
  lemma SaveLoadRoundTrip(store: Store, check: string, s: State)
    ensures LoadLastState(SaveState(store, check, s), check) == s
  {
    StripToken(s);
    ParseTokenRoundTrip(s);
  }

  /** Saving overwrites: only the last of two saves to one record survives. */
  lemma SaveOverwrites(store: Store, check: string, a: State, b: State)
    ensures SaveState(SaveState(store, check, a), check, b) == SaveState(store, check, b)
  {
  }

  /** Loading after a sequence of saves gives the last state saved. */
  function SaveAll(store: Store, check: string, states: seq<State>): (r: Store)
    ensures |states| > 0 ==> LoadLastState(r, check) == states[|states| - 1]
    ensures |states| == 0 ==> r == store
  {
    if |states| == 0 then store
    else
      var r := SaveState(SaveAll(store, check, states[..|states| - 1]), check, states[|states| - 1]);
      SaveLoadRoundTrip(SaveAll(store, check, states[..|states| - 1]), check, states[|states| - 1]);
      r
  }

  /** A record holding text other than a token, after stripping, reads as OK. */
  lemma UnrecognisedReadsOk(store: Store, check: string)
    requires check in store
    requires forall x: State :: Token(x) != Strip(store[check], Whitespace)
    ensures LoadLastState(store, check) == OK
  {
  }

  /** A missing record reads exactly like a record holding "OK", with or without surrounding whitespace. */
  lemma MissingReadsLikeOk(store: Store, check: string, pre: string, post: string)
    requires AllIn(pre, Whitespace) && AllIn(post, Whitespace)
    ensures LoadLastState(store - {check}, check) == LoadLastState(store[check := pre + "OK" + post], check)
  {
    StripSurrounded(pre, "OK", post, Whitespace);
  }

  /** Surrounding whitespace, such as a trailing newline, does not change what a record reads as. */
  lemma LoadIgnoresSurroundingWhitespace(store: Store, check: string, s: State, pre: string, post: string)
    requires AllIn(pre, Whitespace) && AllIn(post, Whitespace)
    ensures LoadLastState(store[check := pre + Token(s) + post], check) == s
  {
    StripSurrounded(pre, Token(s), post, Whitespace);
    ParseTokenRoundTrip(s);
  }

  /** A save depends only on the records it does not replace. */
  lemma SaveForgetsOldRecord(a: Store, b: Store, check: string, s: State)
    requires a - {check} == b - {check}
    ensures SaveState(a, check, s) == SaveState(b, check, s)
  {
    assert forall k :: k in a && k != check ==> k in a - {check};
    assert forall k :: k in b && k != check ==> k in b - {check};
  }

  /** Removing a record and replacing it leave the same other records behind. */
  lemma ForgetRecord(store: Store, check: string)
    ensures (store - {check}) - {check} == store[check := "OK"] - {check}
  {
  }

  /** Records of different checks never interact: saving one leaves every other check's reading unchanged. */
  lemma SaveIsolated(store: Store, check: string, other: string, s: State)
    requires other != check
    ensures LoadLastState(SaveState(store, check, s), other) == LoadLastState(store, other)
  {
  }
}
