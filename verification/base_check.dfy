/**
 The transition-and-alerting engine of src/base_check.py (class BaseCheck):
 compare the freshly classified state with the recorded one, decide whether
 an alert or a recovery notice is due, record the new state and report it
 as an exit code.
 */
module BaseCheck {
  import opened Results
  import opened Severity
  import opened Text
  import opened StateStore

  /** What `send_alert` is asked to deliver; the transport itself is outside the model. */
  datatype Notification = Notification(title: string, message: string, level: State)

  /** Everything one `handle_state_change` call changes or reports. */
  datatype Transition = Transition(store: Store, sent: seq<Notification>, exitCode: int)

  /** The exit code of `sys.exit(2)` on a configuration error. */
  const ConfigErrorExit := 2

  /** Outcome of `validate_thresholds`: return normally, or end the process with an exit code. */
  datatype Validation = Valid | Exit(code: int)

  /**
   A state worth alerting on: it differs from the last one and is not OK;
   in terms of exit codes, the run moves to a different, non-zero code.
   */
  predicate ShouldAlert(last: State, current: State)
    ensures ShouldAlert(last, current) <==> ExitCode(current) > 0 && ExitCode(last) != ExitCode(current)
  {
    last != current && current != OK
  }

  /** A return to OK from a non-OK state: from a non-zero exit code to 0. */
  predicate ShouldRecover(last: State, current: State)
    ensures ShouldRecover(last, current) <==> ExitCode(last) > 0 && ExitCode(current) == 0
  {
    last != OK && current == OK
  }

  /** At most one of the two notices is ever due, and a state that does not change makes neither due. */
  lemma AlertRecoverExclusive(last: State, current: State)
    ensures !(ShouldAlert(last, current) && ShouldRecover(last, current))
    ensures last == current ==> !ShouldAlert(last, current) && !ShouldRecover(last, current)
    ensures ShouldAlert(last, current) || ShouldRecover(last, current) <==> last != current
  {
  }

  /** The alert sent on entering a non-OK state. */
  function AlertNotice(current: State, metricName: string, metricValue: string): (n: Notification)
    ensures n.level == current
    ensures |n.title| > |Token(current)| && n.title[..|Token(current)|] == Token(current)
    ensures |n.message| >= |metricValue| && n.message[|n.message| - |metricValue|..] == metricValue
  {
    Notification(Token(current) + ": " + metricName, metricName + ": " + metricValue, current)
  }

  /** The recovery notice sent on returning to OK. */
  function RecoveryNotice(check: string, metricName: string, metricValue: string): (n: Notification)
    ensures n.level == OK
    ensures |n.title| == |check| + 13 && n.title[..10] == "RECOVERY: "
    ensures |n.message| >= |metricValue| && n.message[|n.message| - |metricValue|..] == metricValue
  {
    Notification("RECOVERY: " + TitleCase(check) + " OK", metricName + " normalizado: " + metricValue, OK)
  }

  /**
   The notices `handle_state_change` sends for a move from `last` to
   `current`: the alert or the recovery notice, each only when due.
   */
  function Notices(last: State, check: string, current: State, metricName: string, metricValue: string): (ns: seq<Notification>)
    ensures |ns| <= 1
    ensures |ns| == 1 <==> last != current
    ensures |ns| == 1 && current != OK ==>
      ns[0] == Notification(Token(current) + ": " + metricName, metricName + ": " + metricValue, current)
    ensures |ns| == 1 && current == OK ==>
      ns[0] == Notification("RECOVERY: " + TitleCase(check) + " OK", metricName + " normalizado: " + metricValue, OK)
  {
    var alerts := if ShouldAlert(last, current) then [AlertNotice(current, metricName, metricValue)] else [];
    var recoveries := if ShouldRecover(last, current) then [RecoveryNotice(check, metricName, metricValue)] else [];
    alerts + recoveries
  }

  /**
   `handle_state_change`: notify on a change of state (an alert when the new
   state is not OK, a recovery notice when it is), record the new state
   whether or not anything was sent, and return its exit code.
   */
  function HandleStateChange(store: Store, check: string, current: State, metricName: string, metricValue: string): (r: Transition)
    // a notice is sent exactly when the state changed, and never two
    ensures |r.sent| <= 1
    ensures |r.sent| == 1 <==> LoadLastState(store, check) != current
    // the alert: its level is the new state, its title names state and metric
    ensures |r.sent| == 1 && current != OK ==>
      r.sent[0] == Notification(Token(current) + ": " + metricName, metricName + ": " + metricValue, current)
    // the recovery notice: level OK, title names the check, message says the metric is back to normal
    ensures |r.sent| == 1 && current == OK ==>
      r.sent[0] == Notification("RECOVERY: " + TitleCase(check) + " OK", metricName + " normalizado: " + metricValue, OK)
    // the new state is what the next invocation reads, and no other check's record moves
    ensures LoadLastState(r.store, check) == current
    ensures r.store.Keys == store.Keys + {check}
    ensures forall other :: other in store && other != check ==> r.store[other] == store[other]
    ensures r.exitCode == ExitCode(current)
  {
    SaveLoadRoundTrip(store, check, current);
    Transition(SaveState(store, check, current), Notices(LoadLastState(store, check), check, current, metricName, metricValue), ExitCode(current))
  }

  /** Running the same classification twice notifies at most once: the second run finds the state already recorded. */
  lemma HandleStateChangeIdempotent(store: Store, check: string, current: State, metricName: string, metricValue: string)
    ensures var first := HandleStateChange(store, check, current, metricName, metricValue);
            var second := HandleStateChange(first.store, check, current, metricName, metricValue);
            && second.sent == []
            && second.store == first.store
            && second.exitCode == first.exitCode
  {
    var first := HandleStateChange(store, check, current, metricName, metricValue);
    SaveOverwrites(store, check, current, current);
  }

  /** Back to normal after CRITICAL: one recovery notice, OK recorded, exit code 0. */
  lemma RecoveryScenario(store: Store, check: string, metricName: string, metricValue: string)
    requires check in store && store[check] == Token(CRITICAL)
    ensures var r := HandleStateChange(store, check, OK, metricName, metricValue);
      && |r.sent| == 1 && r.sent[0].level == OK
      && LoadLastState(r.store, check) == OK
      && r.exitCode == 0
  {
    StripToken(CRITICAL);
    ParseTokenRoundTrip(CRITICAL);
    assert LoadLastState(store, check) == CRITICAL;
    SaveLoadRoundTrip(store, check, OK);
  }

  /** WARNING again after WARNING: nothing is sent, WARNING stays recorded, exit code 1. */
  lemma SteadyWarningScenario(store: Store, check: string, metricName: string, metricValue: string)
    requires check in store && store[check] == Token(WARNING)
    ensures var r := HandleStateChange(store, check, WARNING, metricName, metricValue);
      && r.sent == []
      && r.store == store
      && r.exitCode == 1
  {
    assert store == SaveState(store, check, WARNING);
    SaveLoadRoundTrip(store, check, WARNING);
  }

  /** A missing record and one holding "OK" lead to the same notices, record and exit code. */
  lemma MissingRecordActsAsOk(store: Store, check: string, current: State, metricName: string, metricValue: string)
    ensures HandleStateChange(store - {check}, check, current, metricName, metricValue)
         == HandleStateChange(store[check := "OK"], check, current, metricName, metricValue)
  {
    var missing := store - {check};
    var okRecord := store[check := "OK"];
    SaveLoadRoundTrip(store, check, OK);
    ForgetRecord(store, check);
    SameLastSameTransition(missing, okRecord, check, current, metricName, metricValue);
  }

  /** Apart from the record being replaced, a transition depends only on the state the record reads as. */
  lemma SameLastSameTransition(a: Store, b: Store, check: string, current: State, metricName: string, metricValue: string)
    requires LoadLastState(a, check) == LoadLastState(b, check)
    requires a - {check} == b - {check}
    ensures HandleStateChange(a, check, current, metricName, metricValue)
         == HandleStateChange(b, check, current, metricName, metricValue)
  {
    SaveForgetsOldRecord(a, b, check, current);
  }

  /**
   `validate_thresholds`: in normal mode the warning threshold must be below
   the critical one, in inverted mode above it; anything else ends the
   process with exit code 2.
   */
  function ValidateThresholds(warning: int, critical: int, inverted: bool): (r: Validation)
    ensures !inverted ==> (r == Valid <==> warning < critical)
    ensures inverted ==> (r == Valid <==> warning > critical)
    ensures r != Valid ==> r == Exit(ConfigErrorExit)
  {
    if inverted then
      if warning <= critical then Exit(ConfigErrorExit) else Valid
    else
      if warning >= critical then Exit(ConfigErrorExit) else Valid
  }

  /** Equal thresholds are rejected in both modes. */
  lemma EqualThresholdsRejected(t: int, inverted: bool)
    ensures ValidateThresholds(t, t, inverted) == Exit(ConfigErrorExit)
  {
  }

  /** Inverted mode accepts exactly the pairs normal mode accepts with the thresholds swapped. */
  lemma InvertedIsSwapped(warning: int, critical: int)
    ensures ValidateThresholds(warning, critical, true) == ValidateThresholds(critical, warning, false)
  {
  }

  /** The configuration error shares its exit code with CRITICAL. */
  lemma ConfigErrorLooksCritical()
    ensures ConfigErrorExit == ExitCode(CRITICAL)
  {
  }
}
