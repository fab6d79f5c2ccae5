/** The decision logic of `GoogleClosureCompilerProcessor.process`: the
    library-kind check, the `shouldRunCompiler` gate, the strict-mode rule,
    the error/warning classification and the write on success.

    The Closure Compiler is a parameter: `shouldRunCompiler` is a predicate
    over the argument vector, and `compile` maps a request (arguments,
    strict-mode override, script name and text) to the error count, the
    warning count and the emitted source. The output writer is the sequence
    of strings written during the call; the log is the tier chosen. */
module Processor {
  import opened JavaText
  import opened ArgumentMap
  import opened Maybe
  import opened OptionTranslator
  import opened CommandLine

  /** The client-library asset kinds. */
  datatype LibraryType = JS | CSS

  /** What the compiler is run with. */
  datatype CompileRequest = CompileRequest(
    args: seq<string>,
    forceStrictModeInputOff: bool,
    sourceName: string,
    sourceText: string)

  /** What the compiler's error manager and `toSource` report. */
  datatype CompileReport = CompileReport(errorCount: nat, warningCount: nat, output: string)

  /** Which log statement the call ends on. */
  datatype LogTier =
    | NotHandled         // debug: not a script
    | InvalidParameters  // error: the gate refused the arguments
    | ErrorsAndWarnings  // error
    | Errors             // error
    | Warnings           // warn
    | Clean              // info

  datatype Severity = Debug | Info | Warn | Error

  /** The slf4j level each tier is logged at. */
  function SeverityOf(t: LogTier): Severity
  {
    match t
    case NotHandled => Debug
    case InvalidParameters => Error
    case ErrorsAndWarnings => Error
    case Errors => Error
    case Warnings => Warn
    case Clean => Info
  }

  function Rank(s: Severity): nat
  {
    match s
    case Debug => 0
    case Info => 1
    case Warn => 2
    case Error => 3
  }

  /** Everything one call of `process` does that can be observed: its
      result, what it wrote, how it logged, the argument vector handed to
      the gate (if it got that far) and the request the compiler ran on
      (if it ran). */
  datatype Outcome = Outcome(
    success: bool,
    written: seq<string>,
    tier: LogTier,
    gateInput: Option<seq<string>>,
    request: Option<CompileRequest>)

  /** `handles`: only JavaScript libraries are processed. */
  predicate Handles(kind: LibraryType)
  {
    kind == JS
  }

  /** The four-way classification of a finished compile, as a relation
      between the tier and the counts: each tier holds exactly in its own
      quadrant. */
  predicate ClassifiedAs(t: LogTier, rep: CompileReport)
  {
    && (t == ErrorsAndWarnings <==> rep.errorCount > 0 && rep.warningCount > 0)
    && (t == Errors <==> rep.errorCount > 0 && rep.warningCount == 0)
    && (t == Warnings <==> rep.errorCount == 0 && rep.warningCount > 0)
    && (t == Clean <==> rep.errorCount == 0 && rep.warningCount == 0)
  }

  /** `process`. */
  function Process(
    kind: LibraryType,
    scriptName: string,
    scriptText: string,
    opts: seq<Entry>,
    shouldRunCompiler: seq<string> -> bool,
    compile: CompileRequest -> CompileReport): (r: Outcome)
    // Not a script: nothing is translated, checked, compiled or written.
    ensures !Handles(kind) ==> r == Outcome(false, [], NotHandled, None, None)
    // A script: the gate sees the serialised flag map.
    ensures Handles(kind) ==>
      r.gateInput == Some(CreateArguments(PopulateDefaultParameters(opts)))
    // The compiler runs exactly when the gate lets the arguments through.
    ensures r.request.Some? <==> r.gateInput.Some? && shouldRunCompiler(r.gateInput.value)
    ensures r.gateInput.Some? && r.request.None? ==>
      !r.success && r.written == [] && r.tier == InvalidParameters
    // The request carries the arguments and the script; strict-mode input
    // is forced off exactly when the flag map has no `--strict_mode_input`.
    ensures r.request.Some? ==>
      && r.request.value.args == r.gateInput.value
      && r.request.value.sourceName == scriptName
      && r.request.value.sourceText == scriptText
      && (r.request.value.forceStrictModeInputOff <==>
            StrictModeInputFlag !in ToMap(PopulateDefaultParameters(opts)))
    // After a compile: success exactly when there are no errors, the
    // output written once on success and never otherwise, and the tier
    // chosen by both counts.
    ensures r.request.Some? ==>
      && (r.success <==> compile(r.request.value).errorCount == 0)
      && (r.success ==> r.written == [compile(r.request.value).output])
      && (!r.success ==> r.written == [])
      && ClassifiedAs(r.tier, compile(r.request.value))
  {
    if Handles(kind) then
      var gccArgs := PopulateDefaultParameters(opts);
      var args := CreateArguments(gccArgs);
      if shouldRunCompiler(args) then
        var forceOff := StrictModeInputFlag !in Keys(gccArgs);
        var req := CompileRequest(args, forceOff, scriptName, scriptText);
        var rep := compile(req);
        if rep.errorCount > 0 then
          var tier := if rep.warningCount > 0 then ErrorsAndWarnings else Errors;
          Outcome(false, [], tier, Some(args), Some(req))
        else
          var tier := if rep.warningCount > 0 then Warnings else Clean;
          Outcome(true, [rep.output], tier, Some(args), Some(req))
      else
        Outcome(false, [], InvalidParameters, Some(args), None)
    else
      Outcome(false, [], NotHandled, None, None)
  }

  /** Warnings never decide the result: two compilers that agree on the
      error count and the output lead to the same result, the same writes
      and the same compiler run, whatever their warning counts. */
  lemma WarningsNeverDecideSuccess(
    kind: LibraryType, scriptName: string, scriptText: string, opts: seq<Entry>,
    shouldRunCompiler: seq<string> -> bool,
    compile1: CompileRequest -> CompileReport, compile2: CompileRequest -> CompileReport)
    requires forall req :: compile1(req).errorCount == compile2(req).errorCount
    requires forall req :: compile1(req).output == compile2(req).output
    ensures var r1 := Process(kind, scriptName, scriptText, opts, shouldRunCompiler, compile1);
            var r2 := Process(kind, scriptName, scriptText, opts, shouldRunCompiler, compile2);
            r1.success == r2.success && r1.written == r2.written && r1.request == r2.request
  {
  }

  /** `failOnWarning` changes nothing `process` does: not the arguments,
      not the result, not the writes. */
  lemma FailOnWarningNeverChangesProcess(
    kind: LibraryType, scriptName: string, scriptText: string,
    a: seq<Entry>, key: string, value: string, b: seq<Entry>,
    shouldRunCompiler: seq<string> -> bool, compile: CompileRequest -> CompileReport)
    requires EqualsIgnoreCase(key, FailOnWarningKey)
    ensures Process(kind, scriptName, scriptText, a + [(key, value)] + b, shouldRunCompiler, compile)
         == Process(kind, scriptName, scriptText, a + b, shouldRunCompiler, compile)
  {
    FailOnWarningHasNoEffect(a, key, value, b);
    ProcessSeesOnlyFlagMap(kind, scriptName, scriptText, a + [(key, value)] + b, a + b,
      shouldRunCompiler, compile);
  }

  /** `process` depends on the options only through the flag map built
      from them. */
  lemma ProcessSeesOnlyFlagMap(
    kind: LibraryType, scriptName: string, scriptText: string,
    opts1: seq<Entry>, opts2: seq<Entry>,
    shouldRunCompiler: seq<string> -> bool, compile: CompileRequest -> CompileReport)
    requires PopulateDefaultParameters(opts1) == PopulateDefaultParameters(opts2)
    ensures Process(kind, scriptName, scriptText, opts1, shouldRunCompiler, compile)
         == Process(kind, scriptName, scriptText, opts2, shouldRunCompiler, compile)
  {
  }

  /** Strict-mode input is forced off exactly when no option writes
      `--strict_mode_input`; it is not among the defaults. */
  lemma StrictModeForcedOffUnlessRequested(
    kind: LibraryType, scriptName: string, scriptText: string, opts: seq<Entry>,
    shouldRunCompiler: seq<string> -> bool, compile: CompileRequest -> CompileReport)
    ensures var r := Process(kind, scriptName, scriptText, opts, shouldRunCompiler, compile);
            r.request.Some? ==>
              (r.request.value.forceStrictModeInputOff <==>
                 forall j :: 0 <= j < |opts| ==> !Writes(opts[j], StrictModeInputFlag))
  {
    WrittenFlagsMeaning(opts, StrictModeInputFlag);
    assert StrictModeInputFlag !in Defaults;
  }

  /** Not handling a library kind is logged below every failure; a
      successful compile is logged at warn or info, a failed one at error. */
  lemma ProcessSeverity(
    kind: LibraryType, scriptName: string, scriptText: string, opts: seq<Entry>,
    shouldRunCompiler: seq<string> -> bool, compile: CompileRequest -> CompileReport)
    ensures var r := Process(kind, scriptName, scriptText, opts, shouldRunCompiler, compile);
            && (!Handles(kind) ==> SeverityOf(r.tier) == Debug)
            && (Handles(kind) && !r.success ==> SeverityOf(r.tier) == Error)
            && (r.success ==> SeverityOf(r.tier) == Warn || SeverityOf(r.tier) == Info)
            && (Handles(kind) ==> Rank(Debug) < Rank(SeverityOf(r.tier)))
  {
  }
}
