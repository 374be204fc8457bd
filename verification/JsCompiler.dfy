/** One run of the wrapper, end to end: scan the command line, load the
    library descriptors named by `--info`, derive the build policy, hand
    everything to the compiler, and finish the run.

    Everything outside the wrapper's own logic is a parameter of the run, an
    `Environment`: the descriptor each `--info` path holds, the diagnostic
    types each `--suppress` code stands for, the registry of suppress codes,
    and the compiler itself, seen as a function from what it is given to what
    it leaves behind. */
module JsCompiler {
  import opened Wrappers
  import ArgScanner
  import BuildPolicy
  import Outcome

  /** Everything the wrapper hands to the compiler runner and its warnings guard. */
  datatype CompilerInputs = CompilerInputs(
    passThrough: seq<string>,
    roots: seq<string>,
    labels: map<string, string>,
    legacyModules: set<string>,
    suppressions: map<string, set<BuildPolicy.DiagnosticType>>,
    globalSuppressions: set<BuildPolicy.DiagnosticType>,
    exportTestFunctions: bool,
    disablePropertyRenaming: bool,
    devBuild: bool)

  /** The world the run sees. */
  datatype Environment = Environment(
    load: string -> BuildPolicy.Descriptor,               // the descriptor file at a path
    typesForCode: string -> set<BuildPolicy.DiagnosticType>, // what a `--suppress` code stands for
    table: BuildPolicy.TypeTable,                          // suppress codes of library rules
    compile: CompilerInputs -> Outcome.CompilerReport)

  /** Why a run ends in an exception instead of an exit code. */
  datatype RunError =
    | ScanFailed(scan: ArgScanner.ScanError)
    | DerivationFailed(derivation: BuildPolicy.DerivationError)

  /** The settings of the run and what the compiler is given. */
  datatype Prepared = Prepared(settings: ArgScanner.Settings, inputs: CompilerInputs)

  /** The descriptors at the given paths, in order. */
  function Load(env: Environment, paths: seq<string>): (r: seq<BuildPolicy.Descriptor>)
    ensures |r| == |paths|
    ensures forall i :: 0 <= i < |paths| ==> r[i] == env.load(paths[i])
  {
    seq(|paths|, i requires 0 <= i < |paths| => env.load(paths[i]))
  }

  /** The descriptors of a command line: those at the `--info` paths the loop reads. */
  function Descriptors(args: seq<string>, env: Environment): seq<BuildPolicy.Descriptor> {
    Load(env, ArgScanner.ValuesFrom(args, ArgScanner.Kinds(args), 0, ArgScanner.Info))
  }

  /** Everything before the compiler runs. It fails on a value-taking flag at
      the end of the command line, and otherwise exactly when a strict
      descriptor names an unknown suppress code. On success the compiler is
      given the passed-through arguments and module roots in command-line
      order; the legacy set, labels and per-module suppressions the
      descriptors determine; every type some `--suppress` code stands for;
      and the switches that were read. */
  function Prepare(args: seq<string>, env: Environment): (r: Result<Prepared, RunError>)
    ensures ArgScanner.MissingValueFrom(ArgScanner.Kinds(args), 0) ==>
      0 < |args| && r == Failure(ScanFailed(ArgScanner.MissingValue(args[|args| - 1])))
    ensures !ArgScanner.MissingValueFrom(ArgScanner.Kinds(args), 0) ==>
      (r.Failure? <==> exists d :: d in Descriptors(args, env) && BuildPolicy.Unresolvable(d, env.table))
    ensures r.Failure? && !ArgScanner.MissingValueFrom(ArgScanner.Kinds(args), 0) ==> r.error.DerivationFailed?
    ensures r.Success? ==> var ks := ArgScanner.Kinds(args); var n := r.value.inputs;
      && n.passThrough == ArgScanner.PassedFrom(args, ks, 0)
      && n.roots == ArgScanner.ValuesFrom(args, ks, 0, ArgScanner.JsModuleRoot)
      && n.exportTestFunctions == ArgScanner.OccursFrom(ks, 0, ArgScanner.ExportTestFunctions)
      && n.disablePropertyRenaming == ArgScanner.OccursFrom(ks, 0, ArgScanner.DisablePropertyRenaming)
      && n.devBuild == ArgScanner.OccursFrom(ks, 0, ArgScanner.ExperimentalDevBuild)
    ensures r.Success? ==> var infos := Descriptors(args, env); var n := r.value.inputs;
      && (forall m :: m in n.legacyModules <==>
           BuildPolicy.HasLegacyOwner(infos, m) && !BuildPolicy.HasStrictOwner(infos, m))
      && n.labels.Keys == BuildPolicy.StrictModules(infos)
      && (forall m, k: nat :: BuildPolicy.LastStrictOwner(infos, m, k) ==>
           m in n.labels && n.labels[m] == infos[k].buildLabel)
      && (forall m, t :: t in BuildPolicy.Lookup(n.suppressions, m) <==>
           BuildPolicy.Suppresses(infos, env.table, m, t))
    ensures r.Success? ==> var codes := ArgScanner.ValuesFrom(args, ArgScanner.Kinds(args), 0, ArgScanner.Suppress);
      forall t :: t in r.value.inputs.globalSuppressions <==> exists c :: c in codes && t in env.typesForCode(c)
    ensures r.Success? ==> Success(ArgScanner.Scanned(r.value.settings, r.value.inputs.passThrough)) == ArgScanner.Scan(args)
  {
    var scan := ArgScanner.Scan(args);
    if scan.Failure? then Failure(ScanFailed(scan.error))
    else
      var s := scan.value.settings;
      var policy := BuildPolicy.Derive(Load(env, s.infos), env.table);
      if policy.Failure? then Failure(DerivationFailed(policy.error))
      else
        var p := policy.value;
        BuildPolicy.DeriveLabels(Load(env, s.infos), env.table);
        var inputs := CompilerInputs(
          scan.value.passThrough, s.roots, p.labels, p.legacyModules, p.suppressions,
          BuildPolicy.GlobalSuppressions(s.suppressCodes, env.typesForCode),
          s.exportTestFunctions, s.disablePropertyRenaming, s.devBuild);
        Success(Prepared(s, inputs))
  }

  /** The whole run. It ends in an exception exactly when the preparation
      fails; otherwise it is the finish of the run, for the settings read
      and what the compiler leaves behind (`c`). Spelled out on the command
      line: the exit code is 0 exactly when the compilation failed if and
      only if `--expect_failure` was read; the notice appears exactly when an
      expected failure did not happen; the captured lines are echoed exactly
      when neither `--expect_failure` nor `--expect_warnings` was read; the
      capture file and the source map named by the last of their flags
      exist; and a checks-only run, or an expected failure that happened,
      leaves an empty output file. */
  function Run(args: seq<string>, env: Environment): (r: Result<Outcome.Exit, RunError>)
    ensures ArgScanner.MissingValueFrom(ArgScanner.Kinds(args), 0) ==>
      0 < |args| && r == Failure(ScanFailed(ArgScanner.MissingValue(args[|args| - 1])))
    ensures !ArgScanner.MissingValueFrom(ArgScanner.Kinds(args), 0) ==>
      (r.Failure? <==> exists d :: d in Descriptors(args, env) && BuildPolicy.Unresolvable(d, env.table))
    ensures r.Failure? && !ArgScanner.MissingValueFrom(ArgScanner.Kinds(args), 0) ==> r.error.DerivationFailed?
    ensures r.Success? ==> Prepare(args, env).Success?
    ensures r.Success? ==> var prepared := Prepare(args, env).value;
      r.value == Outcome.Finish(prepared.settings, env.compile(prepared.inputs))
    ensures r.Success? ==> var ks := ArgScanner.Kinds(args);
      var c := env.compile(Prepare(args, env).value.inputs);
      (!ArgScanner.OccursFrom(ks, 0, ArgScanner.ExpectFailure) && !ArgScanner.OccursFrom(ks, 0, ArgScanner.ExpectWarnings))
      ==> forall i :: 0 <= i < |c.stderr| ==> i < |r.value.stderr| && r.value.stderr[i] == Outcome.Echoed(c.stderr[i])
    ensures r.Success? ==> var ks := ArgScanner.Kinds(args);
      var c := env.compile(Prepare(args, env).value.inputs);
      var expected := ArgScanner.OccursFrom(ks, 0, ArgScanner.ExpectFailure);
      && (r.value.code == 0 <==> Outcome.Failed(c) == expected)
      && (Outcome.ExpectedFailureNotice in r.value.stderr <==> !Outcome.Failed(c) && expected)
    ensures r.Success? ==> var ks := ArgScanner.Kinds(args);
      (ArgScanner.OccursFrom(ks, 0, ArgScanner.ExpectFailure) || ArgScanner.OccursFrom(ks, 0, ArgScanner.ExpectWarnings))
      ==> forall i :: 0 <= i < |r.value.stderr| ==> !r.value.stderr[i].Echoed?
    ensures r.Success? ==> var ks := ArgScanner.Kinds(args);
      && (forall p :: ArgScanner.LastOf(ArgScanner.ValuesFrom(args, ks, 0, ArgScanner.CreateSourceMap)) == Some(p)
           ==> p in r.value.fs)
      && (forall p :: ArgScanner.LastOf(ArgScanner.ValuesFrom(args, ks, 0, ArgScanner.OutputErrors)) == Some(p)
           ==> p in r.value.fs)
    ensures r.Success? ==> var ks := ArgScanner.Kinds(args);
      var c := env.compile(Prepare(args, env).value.inputs);
      forall p :: ((ArgScanner.OccursFrom(ks, 0, ArgScanner.ChecksOnly)
          || (Outcome.Failed(c) && ArgScanner.OccursFrom(ks, 0, ArgScanner.ExpectFailure)))
        && ArgScanner.LastOf(ArgScanner.ValuesFrom(args, ks, 0, ArgScanner.JsOutputFile)) == Some(p)
        ==> p in r.value.fs && r.value.fs[p] == [])
  {
    var prepared :- Prepare(args, env);
    Success(Outcome.Finish(prepared.settings, env.compile(prepared.inputs)))
  }
}
