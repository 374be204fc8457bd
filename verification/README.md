# JsCompiler run: a verified model

`JsCompiler` is the Bazel-facing wrapper around the Closure Compiler in
rules_closure. One call of its `run` method does three things, one after
the other:

1. **Argument scan.** It walks the command line once. Its own flags go into
   its settings: `--info`, `--output_errors`, `--suppress`, `--expect_failure`,
   `--expect_warnings`, `--export_test_functions`, `--disable_property_renaming`
   and `--experimental_dev_build`. None of these reaches the compiler. The
   first three consume the next argument as their value.
   `--js_module_root`, `--js_output_file` and `--create_source_map` peek at
   the next argument without consuming it, so that argument is scanned
   again. These three, `--checks_only` and every unknown argument are passed
   through to the compiler.
2. **Build-policy derivation.** It reads the `closure_js_library`
   descriptors named by `--info` and derives three things:
   - the legacy-module set: modules declared by legacy rules and by no
     strict rule;
   - the module-to-label map, where the last strict declaration wins;
   - the module-to-suppressed-diagnostic-types multimap.

   A suppress code of a strict rule that the diagnostic registry does not
   know is fatal.
3. **Outcome.** The compiler runs and its result is folded into one
   `failed` bit. From that bit and the expectation flags the wrapper
   decides:
   - the exit code;
   - whether the captured diagnostics are echoed to stderr;
   - whether the capture file is written;
   - whether an empty output placeholder is written;
   - that the source map exists afterwards;
   - whether the "Expected failure but didn't fail" notice is printed.

Modules:

- `Wrappers`: `Option` and `Result`.
- `ArgScanner`: the scan is `ScanFrom`/`Scan`, a fold whose body `Step` is
  the `switch`. Next to it is a reference description by positions. It uses
  `Visits` (which positions the loop reads as arguments), `PositionsFrom`,
  `ValuesFrom`, `PassedFrom`, `OccursFrom` and `MissingValueFrom`. The
  scan's result is proved equal to that description.
- `BuildPolicy`: the two passes (`MarkLegacy`, then `IndexStrict` built from
  `AddStrict`), their composition `Derive`, and the run-wide
  `GlobalSuppressions`. Every result is characterised by membership-only
  predicates (`HasLegacyOwner`, `HasStrictOwner`, `StrictModules`,
  `Suppresses`, `Unresolvable`).
- `Outcome`: `Finish`, over an abstract file system (path to lines) and a
  list of stderr lines.
- `JsCompiler`: `Prepare` (scan, load, derive) and `Run` (prepare, compile,
  finish). Everything outside the wrapper is a parameter, an `Environment`:
  - the descriptor at each path;
  - the types a `--suppress` code stands for;
  - the registry of suppress codes;
  - the compiler, as a function from its inputs to a `CompilerReport`.

Three behaviours of the code are easy to miss:

- **No single-owner check.** The code does not check that a module has
  only one strict owner. The label is the last strict declaration's
  (`BuildPolicy.LabelOfLastWriter`), and the suppressions are the union over
  all strict declarations (lines 172-178).
- **Descriptors without modules never fail.** The unknown-code check sits
  inside the per-module loop (lines 172-177). So a strict descriptor with no
  modules never fails, whatever codes it names, and the codes of legacy
  descriptors are never looked up (`BuildPolicy.Unresolvable`).
- **`failed` depends on `shouldRunCompiler`.** `failed` counts the `go()`
  status only when `shouldRunCompiler()` holds; `hasErrors()` counts
  always (lines 199-202).

## Model

| member | source | states |
|---|---|---|
| ArgScanner.ScanFrom | java/com/google/javascript/jscomp/JsCompiler.java:108-152 | the loop from any position fails exactly when a value-taking flag is read as the last argument, naming that flag; otherwise its result is the position-based description applied to the accumulated state |
| ArgScanner.ResumeStep | java/com/google/javascript/jscomp/JsCompiler.java:109-151 | one turn of the loop (every `switch` case, including the re-scan after `peek()`) preserves the promised final result: this is the loop invariant of the scan |
| ArgScanner.Scan | java/com/google/javascript/jscomp/JsCompiler.java:105-152 | failure exactly on a missing value, naming the last argument; roots, info paths and suppress codes are the values after each read occurrence, in order; each path setting is the last of its values; each boolean is set exactly when its flag is read; the pass-through list is the passed-through arguments at their read positions |
| ArgScanner.PositionsExactly | java/com/google/javascript/jscomp/JsCompiler.java:108-151 | a position is listed exactly when the loop reads it as an argument and its case is the one selected |
| ArgScanner.PositionsIncrease | java/com/google/javascript/jscomp/JsCompiler.java:108-109 | the read positions strictly increase: the iterator only moves forward |
| ArgScanner.OccursExactly | java/com/google/javascript/jscomp/JsCompiler.java:120-147 | a switch is set exactly when some read position holds it |
| ArgScanner.MissingValueExactly | java/com/google/javascript/jscomp/JsCompiler.java:111-141 | the scan's error case holds exactly when the last argument is read (not consumed) and is a flag that calls `next()` or `peek()` |
| ArgScanner.ValuesAreSuccessors | java/com/google/javascript/jscomp/JsCompiler.java:111-141 | after a successful scan every read value-taking flag has a following argument, and its values are exactly the arguments after its read positions, in order |
| ArgScanner.PassedAreArguments | java/com/google/javascript/jscomp/JsCompiler.java:151 | the pass-through list has one element per passed read position, equal to the argument there |
| ArgScanner.AbsentExactlyWhenNeverRead | java/com/google/javascript/jscomp/JsCompiler.java:114-141 | a path setting (`--output_errors`, `--js_output_file`, `--create_source_map`) stays null exactly when its flag is never read |
| ArgScanner.LastOccurrenceWins | java/com/google/javascript/jscomp/JsCompiler.java:133-141 | a path setting equals the argument after the last read occurrence of its flag |
| ArgScanner.PeekedValueFollows | java/com/google/javascript/jscomp/JsCompiler.java:130-141 | the value of a peeking flag, when it is passed through itself, is the very next pass-through element after the flag |
| ArgScanner.PassThroughOmitsOwnFlags | java/com/google/javascript/jscomp/JsCompiler.java:111-129 | no element of the pass-through list is one of the eight wrapper-only flags |
| ArgScanner.PassThroughIsSubsequence | java/com/google/javascript/jscomp/JsCompiler.java:106-152 | the pass-through list (what `Scan` returns, by its contract) is an order-preserving subsequence of the command line |
| ArgScanner.PassThroughKeepsReadArguments | java/com/google/javascript/jscomp/JsCompiler.java:130-151 | every read argument whose case does not `continue` (the peeking flags, `--checks_only`, unknown arguments) gets its own pass-through element, at the same index as its position in the list of passed positions |
| BuildPolicy.MarkLegacy | java/com/google/javascript/jscomp/JsCompiler.java:156-161 | the first pass yields exactly the modules some legacy descriptor declares |
| BuildPolicy.FirstUnknown | java/com/google/javascript/jscomp/JsCompiler.java:174-177 | none exactly when every code is in the registry; otherwise the first code, in list order, that is not |
| BuildPolicy.AddStrict | java/com/google/javascript/jscomp/JsCompiler.java:171-179 | one strict descriptor fails exactly when it declares a module and names an unknown code (reporting the first one); otherwise its modules leave the legacy set, receive its label and gain its resolved types, and every other module keeps its label and types |
| BuildPolicy.IndexStrict | java/com/google/javascript/jscomp/JsCompiler.java:167-180 | the second pass fails exactly when some strict descriptor is unresolvable; otherwise the legacy set loses every strictly declared module and the label keys are exactly the strictly declared modules |
| BuildPolicy.IndexFirstError | java/com/google/javascript/jscomp/JsCompiler.java:167-177 | when descriptor k is the first unresolvable one in list order, the pass fails, reporting the first unknown code of descriptor k |
| BuildPolicy.IndexSuppresses | java/com/google/javascript/jscomp/JsCompiler.java:166-178 | after the pass a module's types are exactly the resolved codes of its strict owners |
| BuildPolicy.Derive | java/com/google/javascript/jscomp/JsCompiler.java:154-180 | failure exactly when a strict descriptor with modules names an unknown code; a module is legacy exactly when some legacy and no strict descriptor declares it; the labelled modules are the strictly declared ones, disjoint from the legacy set; each module's suppressions are the union over its strict owners |
| BuildPolicy.LabelOfLastWriter | java/com/google/javascript/jscomp/JsCompiler.java:164-173 | the same last-writer-wins rule for the whole derivation |
| BuildPolicy.DeriveLabels | java/com/google/javascript/jscomp/JsCompiler.java:164-173 | the same rule for every module and writer at once: each strict module's label is the build label of the last strict descriptor naming it |
| BuildPolicy.SomeLastStrictOwner | java/com/google/javascript/jscomp/JsCompiler.java:167-173 | every strictly declared module has a last strict declaration, so the rule above covers every labelled module |
| BuildPolicy.UniqueOwnerLabel | java/com/google/javascript/jscomp/JsCompiler.java:172-173 | a module with exactly one strict owner is labelled with that owner's label |
| BuildPolicy.DeriveIgnoresOrder | java/com/google/javascript/jscomp/JsCompiler.java:156-180 | for any permutation of the descriptors the derivation succeeds or fails alike, with the same legacy set, labelled modules and suppressions |
| BuildPolicy.GlobalSuppressions | java/com/google/javascript/jscomp/JsCompiler.java:117-119 | the run-wide suppressions are exactly the types some `--suppress` code stands for |
| Outcome.ErrorStream | java/com/google/javascript/jscomp/JsCompiler.java:205-210 | stderr holds the captured lines, in order, only when neither failure nor warnings are expected, followed as the last line by the notice exactly when an expected failure did not happen |
| Outcome.Files | java/com/google/javascript/jscomp/JsCompiler.java:211-225 | the capture file always holds the captured lines when requested; the empty placeholder is written exactly when the output is declared and an expected failure happened or only checks ran; a declared source map exists, is created empty only when missing and is never overwritten; every other file is untouched; later writes win on aliased paths |
| Outcome.Finish | java/com/google/javascript/jscomp/JsCompiler.java:183-230 | the exit code is 0 or 1, and 0 exactly when `failed` (nonzero status of a run compiler, or reported errors) equals the expectation of failure |
| JsCompiler.Prepare | java/com/google/javascript/jscomp/JsCompiler.java:88-198 | a run aborts on a missing flag value, and otherwise exactly when a loaded strict descriptor is unresolvable; the compiler is given the passed-through arguments, the roots, the legacy set, the labels (keyed by exactly the strict modules, each mapped to the label of the last strict descriptor naming it), the per-module suppressions, the run-wide suppressions and the switches as read |
| JsCompiler.Run | java/com/google/javascript/jscomp/JsCompiler.java:88-231 | end to end: a run ends in an exception exactly on a missing flag value (naming the last argument) or an unresolvable loaded strict descriptor; otherwise it equals `Outcome.Finish` of the scanned settings and what the compiler returns for the prepared inputs. In command-line terms: the exit code is 0 exactly when the compilation's failure matches `--expect_failure`, the notice appears exactly when an expected failure did not happen, the captured lines are echoed in order when neither `--expect_failure` nor `--expect_warnings` is read and none is echoed otherwise, the capture file and source map named by the last of their flags exist, and a checks-only run or an expected failure that happened leaves an empty output file |

## Left out

- Descriptor loading (`JsCheckerHelper.loadClosureJsLibraryInfo`, line 112) is the `load` parameter of the environment. It is total: the pbtxt parsing and its `IOException` are not modelled. JsCheckerHelper is not part of this model.
- Loading happens during the scan in the source. With a total `load`, the order of a load error and a later missing value cannot matter, so the model loads after the scan.
- `Paths.get` is not modelled: paths are the argument strings, compared as strings. Its normalisation and `InvalidPathException` are left out.
- `Diagnostics.getDiagnosticTypesForSuppressCode` (line 118) is the `typesForCode` parameter. It is total: the model assumes it never throws. In the source it is called during the scan, so an exception there would end the run before a later missing value is met. `Diagnostics.DIAGNOSTIC_TYPES` (line 176) is the `table` parameter. Their contents live in `Diagnostics`, which is not part of this model.
- `Compiler`, `JsCompilerRunner`, `JsCheckerErrorManager` and `JsCheckerErrorFormatter` (lines 184-202) are the `compile` parameter. Its results are `shouldRunCompiler`, the status of `go()`, `hasErrors()`, the captured stderr lines and the files afterwards. Colourised formatting is not modelled.
- `JsCompilerWarnings` (lines 189-190) decides, per diagnostic, whether it is suppressed. It is not part of this model, so no decision order is stated for it. The model only fixes what it is given.
- `Files.write`, `Files.exists` and `System.err` (lines 205-228) are an abstract map from path to lines plus a list of stderr lines. An empty byte array and an empty line list are the same empty file. I/O errors of these writes are not modelled.
- The wrapping of `IOException` into `RuntimeException` in `apply` (lines 80-86) is not modelled. The exceptions that end a run are the `Failure` cases of `Run`.
- No error is raised when two strict descriptors declare the same module, because the code raises none (lines 172-173).
