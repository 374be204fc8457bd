/** The wrapper's ad-hoc scan of its command line: it walks the arguments
    once, keeps its own settings, and collects the arguments that are handed
    on to the compiler unchanged.

    The scan is `ScanFrom`, a fold whose body `Step` performs the update the
    selected `switch` case makes. Beside it stands a reference description by
    positions: `Visits` says which positions the loop reads as arguments (and
    not as the value consumed by the flag before them), and every result of
    the scan is characterised in terms of those positions. */
module ArgScanner {
  import opened Wrappers

  /** The case labels of the `switch`; every other argument is `Other`. */
  datatype Flag =
    | Info | OutputErrors | Suppress
    | ExpectFailure | ExpectWarnings | ExportTestFunctions
    | JsModuleRoot | JsOutputFile | ChecksOnly | CreateSourceMap
    | DisablePropertyRenaming | ExperimentalDevBuild
    | Other
  {
    /** Wrapper flags that consume the following argument with `next()`. */
    predicate Consumes() {
      Info? || OutputErrors? || Suppress?
    }

    /** Compiler flags whose value is read with `peek()`: the value stays in
        place and is read again as the next argument. */
    predicate Peeks() {
      JsModuleRoot? || JsOutputFile? || CreateSourceMap?
    }

    /** Flags whose case ends in `continue`: they never reach the compiler. */
    predicate IsOwn() {
      Consumes() || ExpectFailure? || ExpectWarnings? || ExportTestFunctions?
      || DisablePropertyRenaming? || ExperimentalDevBuild?
    }

    /** Flags that fail when nothing follows them (`next()` or `peek()` at the end). */
    predicate NeedsValue() {
      Consumes() || Peeks()
    }

    /** Arguments whose case reaches `passThroughArgs.add`. */
    predicate PassesThrough() {
      !IsOwn()
    }
  }

  /** Which case of the `switch` an argument selects. */
  function FlagOf(arg: string): Flag {
    match arg
    case "--info" => Info
    case "--output_errors" => OutputErrors
    case "--suppress" => Suppress
    case "--expect_failure" => ExpectFailure
    case "--expect_warnings" => ExpectWarnings
    case "--export_test_functions" => ExportTestFunctions
    case "--js_module_root" => JsModuleRoot
    case "--js_output_file" => JsOutputFile
    case "--checks_only" => ChecksOnly
    case "--create_source_map" => CreateSourceMap
    case "--disable_property_renaming" => DisablePropertyRenaming
    case "--experimental_dev_build" => ExperimentalDevBuild
    case _ => Other
  }

  /** The case each argument selects, position by position. The reference
      description below speaks only of this classification. */
  function Kinds(args: seq<string>): (ks: seq<Flag>)
    ensures |ks| == |args|
  {
    seq(|args|, k requires 0 <= k < |args| => FlagOf(args[k]))
  }

  /** The wrapper's own settings, as the local variables of the source. */
  datatype Settings = Settings(
    infos: seq<string>,              // paths given to --info, in order
    roots: seq<string>,              // values of --js_module_root, in order
    suppressCodes: seq<string>,      // codes given to --suppress, in order
    outputErrors: Option<string>,
    expectFailure: bool,
    expectWarnings: bool,
    exportTestFunctions: bool,
    checksOnly: bool,
    disablePropertyRenaming: bool,
    devBuild: bool,
    jsOutputFile: Option<string>,
    createSourceMap: Option<string>)

  /** The settings plus the arguments handed on to the compiler. */
  datatype Scanned = Scanned(settings: Settings, passThrough: seq<string>)

  /** The iterator ran out: `flag` wanted a value and none followed it. */
  datatype ScanError = MissingValue(flag: string)

  /** Every setting at its initial value, nothing passed through. */
  const Start: Scanned :=
    Scanned(Settings([], [], [], None, false, false, false, false, false, false, None, None), [])

  // ---------------------------------------------------------------------
  // Reference description by positions, over the classification `ks`
  // ---------------------------------------------------------------------

  /** The position the loop reads after reading position `i`. */
  function Next(ks: seq<Flag>, i: nat): (r: nat)
    requires i < |ks|
    ensures i < r
  {
    if ks[i].Consumes() then i + 2 else i + 1
  }

  /** Starting at `i`, the loop reads position `j` as an argument. */
  predicate Visits(ks: seq<Flag>, i: nat, j: nat)
    ensures Visits(ks, i, j) ==> i <= j < |ks|
    decreases |ks| - i
  {
    i < |ks| && (j == i || (i < j && Visits(ks, Next(ks, i), j)))
  }

  /** Which read positions `PositionsFrom` lists: those of one flag, or those
      passed through to the compiler. */
  datatype Select = Only(flag: Flag) | Passed {
    predicate Keeps(k: Flag) {
      match this
      case Only(f) => k == f
      case Passed => k.PassesThrough()
    }
  }

  /** The positions read from `i` onwards whose case `keep` selects, in order. */
  function PositionsFrom(ks: seq<Flag>, i: nat, keep: Select): seq<nat>
    decreases |ks| - i
  {
    if i >= |ks| then []
    else (if keep.Keeps(ks[i]) then [i] else []) + PositionsFrom(ks, Next(ks, i), keep)
  }

  /** The argument `offset` places after each of the positions `ps`, skipping
      a position whose argument lies beyond the end. */
  function At(args: seq<string>, ps: seq<nat>, offset: nat): seq<string>
    decreases |ps|
  {
    if |ps| == 0 then []
    else (if ps[0] + offset < |args| then [args[ps[0] + offset]] else []) + At(args, ps[1..], offset)
  }

  /** The argument after every read occurrence of `f` from `i` onwards, in order. */
  function ValuesFrom(args: seq<string>, ks: seq<Flag>, i: nat, f: Flag): seq<string> {
    At(args, PositionsFrom(ks, i, Only(f)), 1)
  }

  /** The arguments read from `i` onwards that reach the compiler, in order. */
  function PassedFrom(args: seq<string>, ks: seq<Flag>, i: nat): seq<string> {
    At(args, PositionsFrom(ks, i, Passed), 0)
  }

  /** `f` is read as an argument somewhere from `i` onwards. */
  predicate OccursFrom(ks: seq<Flag>, i: nat, f: Flag)
    decreases |ks| - i
  {
    i < |ks| && (ks[i] == f || OccursFrom(ks, Next(ks, i), f))
  }

  /** From `i` onwards the loop reaches, at the very end, a flag that needs a value. */
  predicate MissingValueFrom(ks: seq<Flag>, i: nat)
    decreases |ks| - i
  {
    i < |ks| && ((ks[i].NeedsValue() && i + 1 == |ks|) || MissingValueFrom(ks, Next(ks, i)))
  }

  /** `current`, overridden by the last of `later` when there is one. */
  function LastOr(current: Option<string>, later: seq<string>): Option<string> {
    if |later| == 0 then current else Some(later[|later| - 1])
  }

  function LastOf(vs: seq<string>): Option<string> {
    LastOr(None, vs)
  }

  /** What the rest of the loop, started at `i` with accumulated `acc`, must produce. */
  function Resume(acc: Scanned, args: seq<string>, ks: seq<Flag>, i: nat): Scanned {
    var s := acc.settings;
    Scanned(
      Settings(
        s.infos + ValuesFrom(args, ks, i, Info),
        s.roots + ValuesFrom(args, ks, i, JsModuleRoot),
        s.suppressCodes + ValuesFrom(args, ks, i, Suppress),
        LastOr(s.outputErrors, ValuesFrom(args, ks, i, OutputErrors)),
        s.expectFailure || OccursFrom(ks, i, ExpectFailure),
        s.expectWarnings || OccursFrom(ks, i, ExpectWarnings),
        s.exportTestFunctions || OccursFrom(ks, i, ExportTestFunctions),
        s.checksOnly || OccursFrom(ks, i, ChecksOnly),
        s.disablePropertyRenaming || OccursFrom(ks, i, DisablePropertyRenaming),
        s.devBuild || OccursFrom(ks, i, ExperimentalDevBuild),
        LastOr(s.jsOutputFile, ValuesFrom(args, ks, i, JsOutputFile)),
        LastOr(s.createSourceMap, ValuesFrom(args, ks, i, CreateSourceMap))),
      acc.passThrough + PassedFrom(args, ks, i))
  }

  // ---------------------------------------------------------------------
  // The scan
  // ---------------------------------------------------------------------

  /** The body of the loop for the argument at `i`, which selects case `k`.
      `--info` and `--suppress` append the next argument to their lists,
      `--output_errors` replaces its path with it, and the five switches of
      the wrapper set their booleans; none of these reaches the compiler.
      `--js_module_root`, `--js_output_file` and `--create_source_map` record
      the next argument without consuming it, `--checks_only` sets its
      boolean, and each of them, like every unknown argument, is passed on. */
  function Step(acc: Scanned, args: seq<string>, i: nat, k: Flag): Scanned
    requires i < |args| && !(k.NeedsValue() && i + 1 == |args|)
  {
    var s := acc.settings;
    var value := if k.NeedsValue() then args[i + 1] else "";
    Scanned(
      Settings(
        s.infos + (if k == Info then [value] else []),
        s.roots + (if k == JsModuleRoot then [value] else []),
        s.suppressCodes + (if k == Suppress then [value] else []),
        if k == OutputErrors then Some(value) else s.outputErrors,
        s.expectFailure || k == ExpectFailure,
        s.expectWarnings || k == ExpectWarnings,
        s.exportTestFunctions || k == ExportTestFunctions,
        s.checksOnly || k == ChecksOnly,
        s.disablePropertyRenaming || k == DisablePropertyRenaming,
        s.devBuild || k == ExperimentalDevBuild,
        if k == JsOutputFile then Some(value) else s.jsOutputFile,
        if k == CreateSourceMap then Some(value) else s.createSourceMap),
      acc.passThrough + (if k.PassesThrough() then [args[i]] else []))
  }

  lemma AtCons(args: seq<string>, p: nat, ps: seq<nat>, offset: nat)
    ensures At(args, [p] + ps, offset)
         == (if p + offset < |args| then [args[p + offset]] else []) + At(args, ps, offset)
  {
    assert ([p] + ps)[1..] == ps;
  }

  lemma ValuesHead(args: seq<string>, ks: seq<Flag>, i: nat, f: Flag)
    requires |ks| == |args| && i < |ks| && !(ks[i].NeedsValue() && i + 1 == |ks|) && f.NeedsValue()
    ensures ValuesFrom(args, ks, i, f)
         == (if ks[i] == f then [args[i + 1]] else []) + ValuesFrom(args, ks, Next(ks, i), f)
  {
    var rest := PositionsFrom(ks, Next(ks, i), Only(f));
    if ks[i] == f {
      assert PositionsFrom(ks, i, Only(f)) == [i] + rest;
      AtCons(args, i, rest, 1);
    } else {
      assert PositionsFrom(ks, i, Only(f)) == rest;
    }
  }

  lemma ValuesStep(args: seq<string>, ks: seq<Flag>, i: nat, f: Flag, prefix: seq<string>)
    requires |ks| == |args| && i < |ks| && !(ks[i].NeedsValue() && i + 1 == |ks|) && f.NeedsValue()
    ensures prefix + ValuesFrom(args, ks, i, f)
         == (prefix + (if ks[i] == f then [args[i + 1]] else [])) + ValuesFrom(args, ks, Next(ks, i), f)
  {
    ValuesHead(args, ks, i, f);
    var head := if ks[i] == f then [args[i + 1]] else [];
    assert prefix + (head + ValuesFrom(args, ks, Next(ks, i), f))
        == (prefix + head) + ValuesFrom(args, ks, Next(ks, i), f);
  }

  lemma LastOrStep(args: seq<string>, ks: seq<Flag>, i: nat, f: Flag, current: Option<string>)
    requires |ks| == |args| && i < |ks| && !(ks[i].NeedsValue() && i + 1 == |ks|) && f.NeedsValue()
    ensures LastOr(current, ValuesFrom(args, ks, i, f))
         == LastOr(if ks[i] == f then Some(args[i + 1]) else current, ValuesFrom(args, ks, Next(ks, i), f))
  {
    ValuesHead(args, ks, i, f);
  }

  lemma PassThroughStep(args: seq<string>, ks: seq<Flag>, i: nat, prefix: seq<string>)
    requires |ks| == |args| && i < |ks|
    ensures prefix + PassedFrom(args, ks, i)
         == (prefix + (if ks[i].PassesThrough() then [args[i]] else [])) + PassedFrom(args, ks, Next(ks, i))
  {
    var rest := PositionsFrom(ks, Next(ks, i), Passed);
    if ks[i].PassesThrough() {
      assert PositionsFrom(ks, i, Passed) == [i] + rest;
      AtCons(args, i, rest, 0);
    } else {
      assert PositionsFrom(ks, i, Passed) == rest;
    }
  }

  /** One turn of the loop leaves the promised final result unchanged. */
  lemma ResumeStep(acc: Scanned, args: seq<string>, ks: seq<Flag>, i: nat)
    requires |ks| == |args| && i < |ks| && !(ks[i].NeedsValue() && i + 1 == |ks|)
    ensures Resume(Step(acc, args, i, ks[i]), args, ks, Next(ks, i)) == Resume(acc, args, ks, i)
  {
    var s := acc.settings;
    ValuesStep(args, ks, i, Info, s.infos);
    ValuesStep(args, ks, i, JsModuleRoot, s.roots);
    ValuesStep(args, ks, i, Suppress, s.suppressCodes);
    LastOrStep(args, ks, i, OutputErrors, s.outputErrors);
    LastOrStep(args, ks, i, JsOutputFile, s.jsOutputFile);
    LastOrStep(args, ks, i, CreateSourceMap, s.createSourceMap);
    PassThroughStep(args, ks, i, acc.passThrough);
    var a, b := Resume(Step(acc, args, i, ks[i]), args, ks, Next(ks, i)), Resume(acc, args, ks, i);
    assert a.settings.infos == b.settings.infos && a.settings.roots == b.settings.roots;
    assert a.settings.suppressCodes == b.settings.suppressCodes;
    assert a.settings.outputErrors == b.settings.outputErrors && a.settings.jsOutputFile == b.settings.jsOutputFile;
    assert a.settings.createSourceMap == b.settings.createSourceMap;
    assert a.passThrough == b.passThrough;
  }

  /** The loop from position `i` on, with the settings and pass-through list
      accumulated so far in `acc`. */
  function ScanFrom(args: seq<string>, i: nat, acc: Scanned): (r: Result<Scanned, ScanError>)
    requires i <= |args|
    ensures r.Failure? <==> MissingValueFrom(Kinds(args), i)
    ensures r.Failure? ==> 0 < |args| && r.error == MissingValue(args[|args| - 1])
    ensures r.Success? ==> r.value == Resume(acc, args, Kinds(args), i)
    decreases |args| - i
  {
    var ks := Kinds(args);
    if i == |args| then Success(acc)
    else if ks[i].NeedsValue() && i + 1 == |args| then Failure(MissingValue(args[i]))
    else
      ResumeStep(acc, args, ks, i);
      ScanFrom(args, Next(ks, i), Step(acc, args, i, ks[i]))
  }

  /** From the initial settings, the promised result is the reference description itself. */
  lemma ResumeStart(args: seq<string>, ks: seq<Flag>)
    ensures var r := Resume(Start, args, ks, 0);
      && r.settings.infos == ValuesFrom(args, ks, 0, Info)
      && r.settings.roots == ValuesFrom(args, ks, 0, JsModuleRoot)
      && r.settings.suppressCodes == ValuesFrom(args, ks, 0, Suppress)
      && r.passThrough == PassedFrom(args, ks, 0)
  {
    assert [] + ValuesFrom(args, ks, 0, Info) == ValuesFrom(args, ks, 0, Info);
    assert [] + ValuesFrom(args, ks, 0, JsModuleRoot) == ValuesFrom(args, ks, 0, JsModuleRoot);
    assert [] + ValuesFrom(args, ks, 0, Suppress) == ValuesFrom(args, ks, 0, Suppress);
    assert [] + PassedFrom(args, ks, 0) == PassedFrom(args, ks, 0);
  }

  /** The whole scan: fails exactly when a value-taking flag ends the command
      line, naming that flag; otherwise every setting is described by the read
      positions, and the pass-through list is the passed-through arguments at
      those positions, in order. */
  function Scan(args: seq<string>): (r: Result<Scanned, ScanError>)
    ensures r.Failure? <==> MissingValueFrom(Kinds(args), 0)
    ensures r.Failure? ==> 0 < |args| && r.error == MissingValue(args[|args| - 1])
    ensures r.Success? ==> r.value.passThrough == PassedFrom(args, Kinds(args), 0)
    ensures r.Success? ==> var s := r.value.settings; var ks := Kinds(args);
      && s.infos == ValuesFrom(args, ks, 0, Info)
      && s.roots == ValuesFrom(args, ks, 0, JsModuleRoot)
      && s.suppressCodes == ValuesFrom(args, ks, 0, Suppress)
      && s.outputErrors == LastOf(ValuesFrom(args, ks, 0, OutputErrors))
      && s.jsOutputFile == LastOf(ValuesFrom(args, ks, 0, JsOutputFile))
      && s.createSourceMap == LastOf(ValuesFrom(args, ks, 0, CreateSourceMap))
    ensures r.Success? ==> var s := r.value.settings; var ks := Kinds(args);
      && s.expectFailure == OccursFrom(ks, 0, ExpectFailure)
      && s.expectWarnings == OccursFrom(ks, 0, ExpectWarnings)
      && s.exportTestFunctions == OccursFrom(ks, 0, ExportTestFunctions)
      && s.checksOnly == OccursFrom(ks, 0, ChecksOnly)
      && s.disablePropertyRenaming == OccursFrom(ks, 0, DisablePropertyRenaming)
      && s.devBuild == OccursFrom(ks, 0, ExperimentalDevBuild)
  {
    ResumeStart(args, Kinds(args));
    ScanFrom(args, 0, Start)
  }

  // ---------------------------------------------------------------------
  // What the reference description means
  // ---------------------------------------------------------------------

  /** A position is listed exactly when the loop reads it and `keep` selects its case. */
  lemma {:induction false} PositionsExactly(ks: seq<Flag>, i: nat, keep: Select, j: nat)
    ensures j in PositionsFrom(ks, i, keep) <==> Visits(ks, i, j) && keep.Keeps(ks[j])
    decreases |ks| - i
  {
    if i < |ks| {
      PositionsExactly(ks, Next(ks, i), keep, j);
    }
  }

  /** Listed positions lie in the command line, after the start. */
  lemma PositionsBounded(ks: seq<Flag>, i: nat, keep: Select)
    ensures forall k :: 0 <= k < |PositionsFrom(ks, i, keep)| ==>
      i <= PositionsFrom(ks, i, keep)[k] < |ks|
  {
    var ps := PositionsFrom(ks, i, keep);
    forall k | 0 <= k < |ps|
      ensures i <= ps[k] < |ks|
    {
      PositionsExactly(ks, i, keep, ps[k]);
    }
  }

  /** The listed positions are strictly increasing: the loop only moves forward. */
  lemma {:induction false} PositionsIncrease(ks: seq<Flag>, i: nat, keep: Select)
    ensures forall k, l :: 0 <= k < l < |PositionsFrom(ks, i, keep)| ==>
      PositionsFrom(ks, i, keep)[k] < PositionsFrom(ks, i, keep)[l]
    decreases |ks| - i
  {
    if i < |ks| {
      var rest := PositionsFrom(ks, Next(ks, i), keep);
      PositionsIncrease(ks, Next(ks, i), keep);
      PositionsBounded(ks, Next(ks, i), keep);
      if keep.Keeps(ks[i]) {
        var r := [i] + rest;
        assert PositionsFrom(ks, i, keep) == r;
        forall k, l | 0 <= k < l < |r|
          ensures r[k] < r[l]
        {
          assert r[l] == rest[l - 1] && Next(ks, i) <= rest[l - 1];
          if 0 < k {
            assert r[k] == rest[k - 1];
          }
        }
      } else {
        assert PositionsFrom(ks, i, keep) == rest;
      }
    }
  }

  /** A switch is set exactly when the loop reads it as an argument. */
  lemma {:induction false} OccursExactly(ks: seq<Flag>, i: nat, f: Flag)
    ensures OccursFrom(ks, i, f) <==> exists j: nat :: Visits(ks, i, j) && ks[j] == f
    decreases |ks| - i
  {
    if i < |ks| {
      OccursExactly(ks, Next(ks, i), f);
      if OccursFrom(ks, Next(ks, i), f) {
        var j: nat :| Visits(ks, Next(ks, i), j) && ks[j] == f;
        assert Visits(ks, i, j);
      }
      if exists j: nat :: Visits(ks, i, j) && ks[j] == f {
        var j: nat :| Visits(ks, i, j) && ks[j] == f;
        if j != i {
          assert Visits(ks, Next(ks, i), j);
        }
      }
    }
  }

  /** The scan fails exactly when the last argument is read, and not consumed,
      and it is a flag that needs a value. */
  lemma {:induction false} MissingValueExactly(ks: seq<Flag>, i: nat)
    ensures MissingValueFrom(ks, i) <==> 0 < |ks| && Visits(ks, i, |ks| - 1) && ks[|ks| - 1].NeedsValue()
    decreases |ks| - i
  {
    if i < |ks| {
      MissingValueExactly(ks, Next(ks, i));
    }
  }

  /** When every position has its argument, `At` picks exactly those arguments. */
  lemma {:induction false} AtExactly(args: seq<string>, ps: seq<nat>, offset: nat)
    requires forall k :: 0 <= k < |ps| ==> ps[k] + offset < |args|
    ensures |At(args, ps, offset)| == |ps|
    ensures forall k :: 0 <= k < |ps| ==> At(args, ps, offset)[k] == args[ps[k] + offset]
    decreases |ps|
  {
    if |ps| > 0 {
      AtExactly(args, ps[1..], offset);
      assert At(args, ps, offset) == [args[ps[0] + offset]] + At(args, ps[1..], offset);
    }
  }

  /** Once the scan succeeds, every read value-taking flag has an argument after
      it, and the values of `f` are the arguments after its read positions, in order. */
  lemma ValuesAreSuccessors(args: seq<string>, ks: seq<Flag>, i: nat, f: Flag)
    requires |ks| == |args| && f.NeedsValue() && !MissingValueFrom(ks, i)
    ensures forall k :: 0 <= k < |PositionsFrom(ks, i, Only(f))| ==>
      PositionsFrom(ks, i, Only(f))[k] + 1 < |args|
    ensures |ValuesFrom(args, ks, i, f)| == |PositionsFrom(ks, i, Only(f))|
    ensures forall k :: 0 <= k < |PositionsFrom(ks, i, Only(f))| ==>
      ValuesFrom(args, ks, i, f)[k] == args[PositionsFrom(ks, i, Only(f))[k] + 1]
  {
    var ps := PositionsFrom(ks, i, Only(f));
    MissingValueExactly(ks, i);
    forall k | 0 <= k < |ps|
      ensures ps[k] + 1 < |args|
    {
      PositionsExactly(ks, i, Only(f), ps[k]);
    }
    AtExactly(args, ps, 1);
  }

  /** The pass-through list holds, in order, exactly the arguments at the
      positions the loop reads and passes on. */
  lemma PassedAreArguments(args: seq<string>, ks: seq<Flag>, i: nat)
    requires |ks| == |args|
    ensures forall k :: 0 <= k < |PositionsFrom(ks, i, Passed)| ==> PositionsFrom(ks, i, Passed)[k] < |args|
    ensures |PassedFrom(args, ks, i)| == |PositionsFrom(ks, i, Passed)|
    ensures forall k :: 0 <= k < |PositionsFrom(ks, i, Passed)| ==>
      PassedFrom(args, ks, i)[k] == args[PositionsFrom(ks, i, Passed)[k]]
  {
    PositionsBounded(ks, i, Passed);
    AtExactly(args, PositionsFrom(ks, i, Passed), 0);
  }

  /** `j` is the last position at which the loop reads flag `f`. */
  ghost predicate IsLastOccurrence(ks: seq<Flag>, f: Flag, j: nat) {
    && Visits(ks, 0, j) && ks[j] == f
    && forall j': nat :: Visits(ks, 0, j') && j < j' ==> ks[j'] != f
  }

  /** A path-valued setting of the wrapper (`--output_errors`,
      `--js_output_file`, `--create_source_map`) stays null exactly when its
      flag is never read. */
  lemma AbsentExactlyWhenNeverRead(args: seq<string>, ks: seq<Flag>, f: Flag)
    requires |ks| == |args| && f.NeedsValue() && !MissingValueFrom(ks, 0)
    ensures LastOf(ValuesFrom(args, ks, 0, f)).None? <==> !OccursFrom(ks, 0, f)
  {
    var ps := PositionsFrom(ks, 0, Only(f));
    ValuesAreSuccessors(args, ks, 0, f);
    OccursExactly(ks, 0, f);
    if |ps| > 0 {
      PositionsExactly(ks, 0, Only(f), ps[|ps| - 1]);
    }
    if OccursFrom(ks, 0, f) {
      var j: nat :| Visits(ks, 0, j) && ks[j] == f;
      PositionsExactly(ks, 0, Only(f), j);
    }
  }

  /** For the same settings the last read occurrence wins: the setting is the
      argument after that occurrence. */
  lemma LastOccurrenceWins(args: seq<string>, ks: seq<Flag>, f: Flag, j: nat)
    requires |ks| == |args| && f.NeedsValue() && !MissingValueFrom(ks, 0)
    requires IsLastOccurrence(ks, f, j)
    ensures j + 1 < |args| && LastOf(ValuesFrom(args, ks, 0, f)) == Some(args[j + 1])
  {
    var ps := PositionsFrom(ks, 0, Only(f));
    ValuesAreSuccessors(args, ks, 0, f);
    PositionsIncrease(ks, 0, Only(f));
    PositionsExactly(ks, 0, Only(f), j);
    var k :| 0 <= k < |ps| && ps[k] == j;
    var last := |ps| - 1;
    PositionsExactly(ks, 0, Only(f), ps[last]);
    assert ps[last] <= j;
    assert k == last;
  }

  /** After a read position that does not consume a value the loop reads the next one. */
  lemma {:induction false} VisitsStep(ks: seq<Flag>, i: nat, j: nat)
    requires Visits(ks, i, j) && !ks[j].Consumes() && j + 1 < |ks|
    ensures Visits(ks, i, j + 1)
    decreases |ks| - i
  {
    if j != i {
      VisitsStep(ks, Next(ks, i), j);
    }
  }

  /** A peeked value stays where it was: when a peeking flag is passed through
      and its value is passed through too, the value is the very next argument
      passed through. */
  lemma PeekedValueFollows(ks: seq<Flag>, j: nat)
    requires Visits(ks, 0, j) && ks[j].Peeks()
    requires j + 1 < |ks| && ks[j + 1].PassesThrough()
    ensures var ps := PositionsFrom(ks, 0, Passed);
      exists k :: 0 <= k && k + 1 < |ps| && ps[k] == j && ps[k + 1] == j + 1
  {
    var ps := PositionsFrom(ks, 0, Passed);
    PositionsIncrease(ks, 0, Passed);
    VisitsStep(ks, 0, j);
    PositionsExactly(ks, 0, Passed, j);
    PositionsExactly(ks, 0, Passed, j + 1);
    var k :| 0 <= k < |ps| && ps[k] == j;
    var l :| 0 <= l < |ps| && ps[l] == j + 1;
    assert k < l;
    assert ps[k] < ps[k + 1] <= ps[l];
  }

  // ---------------------------------------------------------------------
  // The pass-through list, in terms of the command line
  // ---------------------------------------------------------------------

  /** The compiler never sees a wrapper-only flag as an argument: every
      passed-through argument selects a case that reaches `passThroughArgs.add`. */
  lemma PassThroughOmitsOwnFlags(args: seq<string>)
    requires Scan(args).Success?
    ensures forall a :: a in Scan(args).value.passThrough ==> FlagOf(a).PassesThrough()
  {
    var ks := Kinds(args);
    var ps := PositionsFrom(ks, 0, Passed);
    PassedAreArguments(args, ks, 0);
    forall k | 0 <= k < |ps|
      ensures FlagOf(args[ps[k]]).PassesThrough()
    {
      PositionsExactly(ks, 0, Passed, ps[k]);
    }
  }

  /** The pass-through list (which `Scan` proves equal to `PassedFrom` from
      position 0) is the command line with some arguments removed: its
      elements sit at strictly increasing positions of `args`. */
  lemma PassThroughIsSubsequence(args: seq<string>)
    ensures var pt := PassedFrom(args, Kinds(args), 0);
      exists ps: seq<nat> :: (|ps| == |pt|
        && (forall k, l :: 0 <= k < l < |ps| ==> ps[k] < ps[l])
        && (forall k :: 0 <= k < |ps| ==> ps[k] < |args| && pt[k] == args[ps[k]]))
  {
    var ks := Kinds(args);
    var ps := PositionsFrom(ks, 0, Passed);
    PassedAreArguments(args, ks, 0);
    PositionsIncrease(ks, 0, Passed);
  }

  /** Every argument the loop reads and does not keep for itself (among them
      every read `--js_module_root`, `--js_output_file`, `--checks_only` and
      `--create_source_map`) has its own element in the pass-through list:
      the element at the index that lists its position. */
  lemma PassThroughKeepsReadArguments(args: seq<string>, j: nat)
    requires Visits(Kinds(args), 0, j) && FlagOf(args[j]).PassesThrough()
    ensures var ps := PositionsFrom(Kinds(args), 0, Passed); var pt := PassedFrom(args, Kinds(args), 0);
      exists k :: 0 <= k < |ps| && k < |pt| && ps[k] == j && pt[k] == args[j]
  {
    var ks := Kinds(args);
    var ps := PositionsFrom(ks, 0, Passed);
    PassedAreArguments(args, ks, 0);
    PositionsExactly(ks, 0, Passed, j);
    var k :| 0 <= k < |ps| && ps[k] == j;
    assert PassedFrom(args, ks, 0)[k] == args[j];
  }
}
