/** What the wrapper does once the compiler has finished: it folds the
    compiler's result into one `failed` bit, then echoes the captured
    diagnostics, writes the capture file, creates the output files the build
    expects, and chooses the exit code.

    The file system is abstract: a map from path to the lines a file holds,
    where an empty file holds no lines. Paths are compared as strings, and the
    writes happen in the order of the source, so a later write replaces an
    earlier one to the same path. */
module Outcome {
  import opened Wrappers
  import ArgScanner

  /** Every existing file, by path, with its contents as lines. */
  type FileSystem = map<string, seq<string>>

  /** One line the wrapper prints on standard error. */
  datatype ErrLine =
    | Echoed(text: string)           // a diagnostic line captured from the compiler
    | ExpectedFailureNotice          // "ERROR: Expected failure but didn't fail."

  /** What the compiler run left behind: whether the runner chose to run the
      compiler, the exit status of that run, whether any error was reported,
      the captured diagnostic lines, and the files as they are afterwards. */
  datatype CompilerReport = CompilerReport(
    shouldRun: bool,
    exitStatus: int,
    hasErrors: bool,
    stderr: seq<string>,
    fs: FileSystem)

  /** The end of a run: the exit code, what was printed on standard error, and the files. */
  datatype Exit = Exit(code: int, stderr: seq<ErrLine>, fs: FileSystem)

  /** The compilation failed: it ran and returned nonzero, or some error was reported. */
  predicate Failed(c: CompilerReport) {
    (c.shouldRun && c.exitStatus != 0) || c.hasErrors
  }

  /** The captured diagnostics are echoed unless a failure or warnings are expected. */
  predicate Echoes(s: ArgScanner.Settings) {
    !s.expectFailure && !s.expectWarnings
  }

  /** The build will take the run as a success without the compiler having
      written its output: an expected failure happened, or only checks ran. */
  predicate PlaceholderDue(s: ArgScanner.Settings, c: CompilerReport) {
    (Failed(c) && s.expectFailure) || s.checksOnly
  }

  /** A nullable path setting names `p`. */
  predicate Names(setting: Option<string>, p: string) {
    setting == Some(p)
  }

  /** `p` is the empty output placeholder of this run. */
  predicate Placed(s: ArgScanner.Settings, c: CompilerReport, p: string) {
    PlaceholderDue(s, c) && Names(s.jsOutputFile, p)
  }

  /** The expected failure did not happen. */
  predicate MissedFailure(s: ArgScanner.Settings, c: CompilerReport) {
    !Failed(c) && s.expectFailure
  }

  /** Write `content` to the path a nullable setting names, if it names one. */
  function WriteTo(fs: FileSystem, target: Option<string>, content: seq<string>): FileSystem {
    if target.Some? then fs[target.value := content] else fs
  }

  /** Create an empty file at the path a nullable setting names, unless it exists. */
  function CreateIfAbsent(fs: FileSystem, target: Option<string>): FileSystem {
    if target.Some? && target.value !in fs then fs[target.value := []] else fs
  }

  /** Every captured line, in order, as echoed on standard error. */
  function Echo(lines: seq<string>): (r: seq<ErrLine>)
    ensures |r| == |lines|
    ensures forall i :: 0 <= i < |lines| ==> r[i] == Echoed(lines[i])
  {
    seq(|lines|, i requires 0 <= i < |lines| => Echoed(lines[i]))
  }

  /** What the wrapper prints on standard error: the captured lines, echoed
      only when neither failure nor warnings are expected, followed by the
      notice exactly when an expected failure did not happen. */
  function ErrorStream(s: ArgScanner.Settings, c: CompilerReport): (r: seq<ErrLine>)
    ensures ExpectedFailureNotice in r <==> MissedFailure(s, c)
    ensures MissedFailure(s, c) ==> r[|r| - 1] == ExpectedFailureNotice
    ensures |r| == (if Echoes(s) then |c.stderr| else 0) + (if MissedFailure(s, c) then 1 else 0)
    ensures Echoes(s) ==> forall i :: 0 <= i < |c.stderr| ==> r[i] == Echoed(c.stderr[i])
    ensures forall i :: 0 <= i < |r| && r[i].Echoed? ==> Echoes(s) && r[i].text == c.stderr[i]
  {
    (if Echoes(s) then Echo(c.stderr) else []) + (if MissedFailure(s, c) then [ExpectedFailureNotice] else [])
  }

  /** The files after the run: those the compiler left, plus the capture file
      (whatever the flags), the empty output placeholder (only when the build
      will not get its output from the compiler) and the source map (created
      empty only when it is missing, so an existing one keeps its contents);
      nothing else is touched. */
  function Files(s: ArgScanner.Settings, c: CompilerReport): (r: FileSystem)
    ensures forall p :: p in r <==> (p in c.fs || Names(s.outputErrors, p)
      || Placed(s, c, p) || Names(s.createSourceMap, p))
    ensures forall p :: Placed(s, c, p) ==> r[p] == []
    ensures forall p :: (Names(s.outputErrors, p) && !Placed(s, c, p)
      ==> r[p] == c.stderr)
    ensures forall p :: (Names(s.createSourceMap, p) && p !in c.fs && !Names(s.outputErrors, p) && !Placed(s, c, p)
      ==> r[p] == [])
    ensures forall p :: (p in c.fs && !Names(s.outputErrors, p) && !Placed(s, c, p)
      ==> r[p] == c.fs[p])
  {
    var captured := WriteTo(c.fs, s.outputErrors, c.stderr);
    var placed := if PlaceholderDue(s, c) then WriteTo(captured, s.jsOutputFile, []) else captured;
    CreateIfAbsent(placed, s.createSourceMap)
  }

  /** The end of the run: exit code 0 exactly when the outcome matches the
      expectation, 1 otherwise, with the error stream and files above. */
  function Finish(s: ArgScanner.Settings, c: CompilerReport): (r: Exit)
    ensures r.code == 0 || r.code == 1
    ensures r.code == 0 <==> Failed(c) == s.expectFailure
    ensures r.stderr == ErrorStream(s, c) && r.fs == Files(s, c)
  {
    Exit(if Failed(c) == s.expectFailure then 0 else 1, ErrorStream(s, c), Files(s, c))
  }
}
