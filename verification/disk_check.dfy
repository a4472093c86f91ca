/**
 The disk check of src/disk_check.py: validate the thresholds, read the
 Use% column of `df -h <path>`, classify it and hand the state to the
 engine. The `df` run is a parameter: its exit status and standard output.
 */
module DiskCheck {
  import opened Results
  import opened Severity
  import opened Text
  import opened StateStore
  import opened BaseCheck

  /** The check's name, which also names its state record. */
  const CheckName := "disk"

  /** The metric label used in notices. */
  const MetricName := "Uso de disco"

  /** What the `df` subprocess reported. */
  datatype DfResult = DfResult(returnCode: int, stdout: string)

  /** Why the output of `df` yields no percentage. */
  datatype DfError = TooFewLines | TooFewFields | NotAnInteger(field: string)

  /** The observable end of one run of the check: exit code, records afterwards, notices sent. */
  datatype Run = Run(exitCode: int, store: Store, sent: seq<Notification>)

  /** The value of the fifth field of the second line, with '%' stripped from both ends. */
  function ParseUsePercent(stdout: string): (r: Result<nat, DfError>)
    ensures r == Failure(TooFewLines) <==> |SplitLines(stdout)| < 2
    ensures r == Failure(TooFewFields) <==>
      |SplitLines(stdout)| >= 2 && |Fields(SplitLines(stdout)[1], Whitespace)| < 5
    ensures r.Success? ==>
      |SplitLines(stdout)| >= 2 && |Fields(SplitLines(stdout)[1], Whitespace)| >= 5 &&
      ParseNat(Strip(Fields(SplitLines(stdout)[1], Whitespace)[4], {'%'})) == Some(r.value)
    ensures r.Failure? && r.error.NotAnInteger? ==>
      |SplitLines(stdout)| >= 2 && |Fields(SplitLines(stdout)[1], Whitespace)| >= 5 &&
      r.error.field == Fields(SplitLines(stdout)[1], Whitespace)[4] &&
      ParseNat(Strip(r.error.field, {'%'})) == None
  {
    var lines := SplitLines(stdout);
    if |lines| < 2 then Failure(TooFewLines)
    else
      var parts := Fields(lines[1], Whitespace);
      if |parts| < 5 then Failure(TooFewFields)
      else
        match ParseNat(Strip(parts[4], {'%'}))
        case Some(use) => Success(use)
        case None => Failure(NotAnInteger(parts[4]))
  }

  /** The three-way classification of a usage percentage against the two thresholds. */
  function Classify(use: int, warning: int, critical: int): (s: State)
    ensures s == OK <==> use < warning
    ensures s == WARNING <==> warning <= use < critical
    ensures s == CRITICAL <==> use >= warning && use >= critical
  {
    if use < warning then OK
    else if use < critical then WARNING
    else CRITICAL
  }

  /** With validated thresholds, each threshold itself already belongs to the higher state. */
  lemma ClassifyBoundaries(warning: int, critical: int)
    requires ValidateThresholds(warning, critical, false) == Valid
    ensures Classify(warning - 1, warning, critical) == OK
    ensures Classify(warning, warning, critical) == WARNING
    ensures Classify(critical - 1, warning, critical) == WARNING
    ensures Classify(critical, warning, critical) == CRITICAL
  {
  }

  /** Severity never decreases as usage grows. */
  lemma ClassifyMonotone(u: int, v: int, warning: int, critical: int)
    requires u <= v
    ensures ExitCode(Classify(u, warning, critical)) <= ExitCode(Classify(v, warning, critical))
  {
  }

  /** The thresholds pass validation exactly when some usage classifies as WARNING. */
  lemma ValidIffWarningReachable(warning: int, critical: int)
    ensures ValidateThresholds(warning, critical, false) == Valid <==>
      exists use :: Classify(use, warning, critical) == WARNING
  {
    if warning < critical {
      assert Classify(warning, warning, critical) == WARNING;
    }
  }

  /**
   `main` after reading its settings: validate, run `df`, parse, classify,
   then let the engine notify, record and choose the exit code. Every
   failure before the engine exits with 2 and leaves records and channel untouched.
   */
  function RunDiskCheck(store: Store, warning: int, critical: int, diskPath: string, df: DfResult): (r: Run)
    ensures 0 <= r.exitCode <= 2
    ensures ValidateThresholds(warning, critical, false) != Valid ==> r == Run(ConfigErrorExit, store, [])
    ensures df.returnCode != 0 || ParseUsePercent(df.stdout).Failure? ==> r == Run(2, store, [])
    ensures ValidateThresholds(warning, critical, false) == Valid && df.returnCode == 0 &&
            ParseUsePercent(df.stdout).Success? ==>
      var state := Classify(ParseUsePercent(df.stdout).value, warning, critical);
      && r.exitCode == ExitCode(state)
      && LoadLastState(r.store, CheckName) == state
      && (forall other :: other in store && other != CheckName ==> other in r.store && r.store[other] == store[other])
      && |r.sent| <= 1
      && (|r.sent| == 1 <==> LoadLastState(store, CheckName) != state)
      && (|r.sent| == 1 ==> r.sent[0].level == state)
  {
    if ValidateThresholds(warning, critical, false) != Valid then Run(ConfigErrorExit, store, [])
    else if df.returnCode != 0 then Run(2, store, [])
    else
      match ParseUsePercent(df.stdout)
      case Failure(_) => Run(2, store, [])
      case Success(use) =>
        var state := Classify(use, warning, critical);
        var t := HandleStateChange(store, CheckName, state, MetricName, NatToString(use) + "% en " + diskPath);
        Run(t.exitCode, t.store, t.sent)
  }

  /**
   Once a percentage is read, the run is exactly the engine's transition for
   its classification: the process exits with what `handle_state_change` returned.
   */
  lemma RunHandsOffToEngine(store: Store, warning: int, critical: int, diskPath: string, df: DfResult)
    requires ValidateThresholds(warning, critical, false) == Valid
    requires df.returnCode == 0 && ParseUsePercent(df.stdout).Success?
    ensures var use := ParseUsePercent(df.stdout).value;
            var t := HandleStateChange(store, CheckName, Classify(use, warning, critical), MetricName, NatToString(use) + "% en " + diskPath);
            RunDiskCheck(store, warning, critical, diskPath, df) == Run(t.exitCode, t.store, t.sent)
  {
  }

  /** Thresholds are checked before sampling: with bad thresholds what `df` printed makes no difference. */
  lemma ValidationPrecedesSampling(store: Store, warning: int, critical: int, diskPath: string, df1: DfResult, df2: DfResult)
    requires ValidateThresholds(warning, critical, false) != Valid
    ensures RunDiskCheck(store, warning, critical, diskPath, df1) == RunDiskCheck(store, warning, critical, diskPath, df2)
  {
  }

  /** A row of fields padded with separators that are not line breaks is one line. */
  lemma RowOneLine(ws: seq<string>, seps: seq<string>)
    requires |seps| + 1 == |ws|
    requires forall j :: 0 <= j < |ws| ==> IsField(ws[j], Whitespace)
    requires forall j :: 0 <= j < |seps| ==> NoneIn(seps[j], LineBreaks)
    ensures NoneIn(JoinWith(ws, seps), LineBreaks)
  {
    LineBreaksAreWhitespace();
    forall j | 0 <= j < |ws|
      ensures NoneIn(ws[j], LineBreaks)
    {
      assert IsField(ws[j], Whitespace);
    }
    JoinWithAvoids(ws, seps, LineBreaks);
  }

  /** The parse reads the fifth field of the second line, whatever produced them. */
  lemma ParseUsePercentOf(stdout: string, lines: seq<string>, parts: seq<string>, use: nat)
    requires SplitLines(stdout) == lines && |lines| >= 2
    requires Fields(lines[1], Whitespace) == parts && |parts| >= 5
    requires ParseNat(Strip(parts[4], {'%'})) == Some(use)
    ensures ParseUsePercent(stdout) == Success(use)
  {
  }

  /** A printed percentage, stripped of its '%', parses back to the number. */
  lemma PercentRoundTrip(use: nat)
    ensures ParseNat(Strip(NatToString(use) + "%", {'%'})) == Some(use)
  {
    var digits := NatToString(use);
    StripSurrounded([], digits, "%", {'%'});
    assert [] + digits + "%" == digits + "%";
    ParseNatToString(use);
  }

  /**
   Reading back a `df` report: for a header line, a row of fields padded
   with runs of blanks (any whitespace but line breaks) whose fifth field is
   a printed percentage, and any further lines, the parse gives the percentage.
   */
  lemma DfReportRoundTrip(header: string, row: seq<string>, seps: seq<string>, use: nat, rest: seq<string>)
    requires NoneIn(header, LineBreaks)
    requires |seps| + 1 == |row|
    requires forall j :: 0 <= j < |row| ==> IsField(row[j], Whitespace)
    requires forall j :: 0 <= j < |seps| ==> IsSeparator(seps[j], Whitespace) && NoneIn(seps[j], LineBreaks)
    requires |row| >= 5 && row[4] == NatToString(use) + "%"
    requires forall j :: 0 <= j < |rest| ==> NoneIn(rest[j], LineBreaks)
    ensures ParseUsePercent(JoinTerminated([header, JoinWith(row, seps)] + rest)) == Success(use)
  {
    var lines := [header, JoinWith(row, seps)] + rest;
    RowOneLine(row, seps);
    ReportLines(header, JoinWith(row, seps), rest);
    FieldsJoinWith(row, seps, Whitespace);
    PercentRoundTrip(use);
    ParseUsePercentOf(JoinTerminated(lines), lines, row, use);
  }

  /** A report whose lines carry no line break splits back into those lines. */
  lemma ReportLines(header: string, second: string, rest: seq<string>)
    requires NoneIn(header, LineBreaks) && NoneIn(second, LineBreaks)
    requires forall j :: 0 <= j < |rest| ==> NoneIn(rest[j], LineBreaks)
    ensures SplitLines(JoinTerminated([header, second] + rest)) == [header, second] + rest
  {
    PairThen(header, second, rest);
    SplitLinesJoinTerminated(rest);
    SplitLinesCons(second, JoinTerminated(rest));
    SplitLinesCons(header, JoinTerminated([second] + rest));
  }

  // The scenario lemmas below take their literal inputs as parameters fixed by
  // `requires`, so that the verifier does not unfold the recursive string
  // functions on the literals while it proves the general steps.

  /**
   The report GNU `df -h /` prints for a disk at 95% use, columns padded with
   runs of spaces, parses to 95:
     Filesystem      Size  Used Avail Use% Mounted on
     /dev/sda1        50G   45G  3.0G  95% /
   */
  lemma FullDiskReportParses(header: seq<string>, headerPad: seq<string>, row: seq<string>, rowPad: seq<string>)
    requires header == ["Filesystem", "Size", "Used", "Avail", "Use%", "Mounted", "on"]
    requires headerPad == ["      ", "  ", " ", " ", " ", " "]
    requires row == ["/dev/sda1", "50G", "45G", "3.0G", "95%", "/"]
    requires rowPad == ["        ", "   ", "  ", "  ", " "]
    ensures ParseUsePercent(JoinTerminated([JoinWith(header, headerPad), JoinWith(row, rowPad)])) == Success(95)
  {
    Words(header);
    Padding(headerPad);
    RowOneLine(header, headerPad);
    Words(row);
    Padding(rowPad);
    assert row[4] == NatToString(95) + "%" by {
      assert NatToString(95) == "95";
    }
    DfReportRoundTrip(JoinWith(header, headerPad), row, rowPad, 95, []);
    assert [JoinWith(header, headerPad), JoinWith(row, rowPad)] + [] == [JoinWith(header, headerPad), JoinWith(row, rowPad)];
  }

  /** Words of visible ASCII characters are fields of a whitespace split. */
  lemma Words(ws: seq<string>)
    requires ws == ["Filesystem", "Size", "Used", "Avail", "Use%", "Mounted", "on"]
          || ws == ["/dev/sda1", "50G", "45G", "3.0G", "95%", "/"]
    ensures forall j :: 0 <= j < |ws| ==> IsField(ws[j], Whitespace)
  {
    forall j | 0 <= j < |ws|
      ensures IsField(ws[j], Whitespace)
    {
      assert |ws[j]| > 0 && Printable(ws[j]);
      PrintableIsField(ws[j]);
    }
  }

  /** Runs of spaces are separators of a whitespace split and break no line. */
  lemma Padding(pads: seq<string>)
    requires pads == ["      ", "  ", " ", " ", " ", " "] || pads == ["        ", "   ", "  ", "  ", " "]
    ensures forall j :: 0 <= j < |pads| ==> IsSeparator(pads[j], Whitespace) && NoneIn(pads[j], LineBreaks)
  {
    forall j | 0 <= j < |pads|
      ensures IsSeparator(pads[j], Whitespace) && NoneIn(pads[j], LineBreaks)
    {
      assert |pads[j]| > 0 && Blank(pads[j]);
      BlankIsSeparator(pads[j]);
    }
  }

  /** Visible ASCII characters, from '!' to '~'. */
  predicate Printable(w: string) {
    forall k :: 0 <= k < |w| ==> '!' <= w[k] <= '~'
  }

  /** Only spaces. */
  predicate Blank(w: string) {
    forall k :: 0 <= k < |w| ==> w[k] == ' '
  }

  /** A word of visible ASCII characters is a field of a whitespace split. */
  lemma PrintableIsField(w: string)
    requires |w| > 0 && Printable(w)
    ensures IsField(w, Whitespace)
  {
  }

  /** A run of spaces separates fields and breaks no line. */
  lemma BlankIsSeparator(w: string)
    requires |w| > 0 && Blank(w)
    ensures IsSeparator(w, Whitespace) && NoneIn(w, LineBreaks)
  {
  }

  /**
   A full disk after a quiet period: with the default thresholds 80 and 90,
   no record yet, and `df` reporting 95%, the check sends one CRITICAL
   alert, records CRITICAL and exits with 2.
   */
  lemma FullDiskScenario(store: Store, stdout: string)
    requires CheckName !in store
    requires ParseUsePercent(stdout) == Success(95)
    ensures var r := RunDiskCheck(store, 80, 90, "/", DfResult(0, stdout));
            && r.exitCode == 2
            && LoadLastState(r.store, CheckName) == CRITICAL
            && r.sent == [Notification("CRITICAL: Uso de disco", "Uso de disco: 95% en /", CRITICAL)]
  {
    FirstAlert(store, 80, 90, "/", DfResult(0, stdout));
    FullDiskAlertText();
  }

  /** A run that finds a new non-OK state sends exactly the alert for it. */
  lemma FirstAlert(store: Store, warning: int, critical: int, diskPath: string, df: DfResult)
    requires ValidateThresholds(warning, critical, false) == Valid
    requires df.returnCode == 0 && ParseUsePercent(df.stdout).Success?
    requires var s := Classify(ParseUsePercent(df.stdout).value, warning, critical);
             s != OK && LoadLastState(store, CheckName) != s
    ensures var use := ParseUsePercent(df.stdout).value;
      RunDiskCheck(store, warning, critical, diskPath, df).sent
        == [AlertNotice(Classify(use, warning, critical), MetricName, NatToString(use) + "% en " + diskPath)]
  {
    RunHandsOffToEngine(store, warning, critical, diskPath, df);
  }

  lemma FullDiskAlertText()
    ensures AlertNotice(CRITICAL, MetricName, NatToString(95) + "% en " + "/")
         == Notification("CRITICAL: Uso de disco", "Uso de disco: 95% en /", CRITICAL)
  {
    FullDiskValue(NatToString(95) + "% en " + "/");
    AlertTitle(Token(CRITICAL), MetricName);
    AlertMessage(MetricName, "95% en /");
  }

  lemma FullDiskValue(v: string)
    requires v == NatToString(95) + "% en " + "/"
    ensures v == "95% en /"
  {
    assert NatToString(95) == "95";
  }

  lemma AlertTitle(token: string, metric: string)
    requires token == "CRITICAL" && metric == "Uso de disco"
    ensures token + ": " + metric == "CRITICAL: Uso de disco"
  {
  }

  lemma AlertMessage(metric: string, value: string)
    requires metric == "Uso de disco" && value == "95% en /"
    ensures metric + ": " + value == "Uso de disco: 95% en /"
  {
  }
}
