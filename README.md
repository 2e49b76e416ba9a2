# Ref resolution for the pyunderstand dependency bootstrap

This project models the decision logic of `setup_deps.py`, the script that
clones the `kaihendry/pyunderstand` repository as an editable local dependency,
and of `test_ref_resolution.py`, the script that checks that logic on five
scenarios.

The script picks the git ref to clone by an ordered chain; the first rule that
holds wins:

1. a non-empty `PYUNDERSTAND_REF` environment variable, verbatim;
2. the checked-out branch, when it is non-empty, is neither `main` nor `master`,
   and `git ls-remote --exit-code --heads` finds it on the remote;
3. a non-empty `version` from `config.yaml`;
4. nothing, meaning the remote's default branch.

It then builds `git clone --depth 1 [--branch <ref>] <url> <path>`.

Every process, filesystem and environment read is a parameter of the model:

- the environment is a `map<string, string>` snapshot;
- `git branch --show-current` is a `ProcessResult` (exit code, standard output);
- the remote's answer is a `bool`, and in the test model a set of branch heads;
- the config file is `Option<string>`, its text or no file at all.

Python truthiness is explicit (`PyStr.Truthy`): `None` and `""` both count as
absent at every step.

Modules:

- `PyStr` (`py_str.dfy`): the Python `str` built-ins the core relies on —
  `strip()` with Python's whitespace set, `startswith()`, `split(":", 1)`
  and `splitlines()` with Python's line boundaries.
- `SetupDeps` (`setup_deps.dfy`): current-branch extraction, the config-file
  fallback scanner, `resolve_ref` and the clone command.
- `RefResolutionTest` (`test_ref_resolution.dfy`): the test's own chain, the
  `SCENARIOS` table and the pass/fail tally of its `main`.

`ResolveRef` returns a `Resolution` that names the rule that fired. These are
the four cases the script's log lines distinguish. `Resolution.Ref()` is the
value `resolve_ref` returns.

## Model

| member | source | states |
|---|---|---|
| `PyStr.Strip` | setup_deps.py:30 | `strip()` result: a slice of the input that neither starts nor ends with whitespace, where everything cut off on either side is whitespace |
| `PyStr.StripIdempotent` | setup_deps.py:54 | stripping an already stripped value changes nothing |
| `PyStr.StripLeadingSpaces` | setup_deps.py:54 | `strip()` removes exactly the whitespace in front of an already trimmed text |
| `PyStr.SplitOnce` | setup_deps.py:54 | `split(":", 1)` has one part exactly when there is no colon; otherwise it has two parts, the first holds no colon, and joining them with the colon gives back the line |
| `PyStr.SplitLines` | setup_deps.py:52 | `splitlines()` yields lines holding no line boundary, at most one per character, and none for empty text |
| `PyStr.SplitLinesConsBreak` | setup_deps.py:52 | a boundary-free line followed by any one boundary character (`\r` only when no `\n` follows) splits off as exactly that line |
| `PyStr.SplitLinesConsCrLf` | setup_deps.py:52 | `\r\n` after a boundary-free line is one boundary: the line splits off and no empty line follows it |
| `PyStr.SplitLinesLastLine` | setup_deps.py:52 | a non-empty last line with no boundary after it is still one line |
| `PyStr.SplitJoinLines` | setup_deps.py:52 | joining boundary-free lines with `\n` and splitting again gives the same lines |
| `PyStr.JoinSplitLines` | setup_deps.py:52 | text whose only boundaries are `\n` and that ends in one is rebuilt exactly from its lines |
| `PyStr.JoinSplitLinesUnterminated` | setup_deps.py:52 | text whose only boundaries are `\n` and whose last line is unterminated loses nothing: joining its lines gives it back plus one `\n` |
| `SetupDeps.CurrentBranch` | setup_deps.py:28-30 | a branch exactly when the exit code is 0; it is then the stripped standard output; a failed command yields no branch |
| `SetupDeps.FirstDeclaredIsFirstMatch` | setup_deps.py:52-54 | the scanner returns the value after the first colon of the first line starting with `key:`, whatever earlier lines hold |
| `SetupDeps.FirstDeclaredNone` | setup_deps.py:52-55 | the scanner returns `None` if and only if no line starts with `key:` |
| `SetupDeps.FirstDeclaredIgnoresLater` | setup_deps.py:52-54 | once a line matches, appending more lines, matching or not, does not change the result |
| `SetupDeps.ValueOfSimpleLine` | setup_deps.py:53-54 | for a key without a colon, the line `key:text` matches and its value is `text` stripped |
| `SetupDeps.ScanConfigLines` | setup_deps.py:52-55 | the loop with its early return computes the scanner's result |
| `SetupDeps.ReadConfigVersion` | setup_deps.py:41-55 | a missing file gives `None`; a value is the value of the first line of `splitlines()` that starts with `key:`; `None` from an existing file means no such line |
| `SetupDeps.WrittenVersionReadsBack` | setup_deps.py:52-54 | a file whose first line is `key: value` (value already trimmed) reads back as `value`, whatever lines follow |
| `SetupDeps.ResolveRef` | setup_deps.py:58-78 | the override rule fires if and only if the override is non-empty, and returns it verbatim; the branch rule fires if and only if there is no override, the branch is eligible and the remote has it; the branch returned is never empty, `main` or `master`; the config rule fires if and only if the first two did not and the version is non-empty; otherwise the result is `None`; never `""` |
| `SetupDeps.FirstTruthy` | setup_deps.py:58-78 | reference chain: a result is a truthy candidate with no truthy candidate before it; `None` only if none is truthy |
| `SetupDeps.ResolveRefIsFirstTruthy` | setup_deps.py:58-78 | `resolve_ref` equals the first truthy value of (override, eligible branch on the remote, config version) |
| `SetupDeps.ConfigFileDecides` | setup_deps.py:71-74 | with no override and no matching branch on the remote, a config file whose first line is `version: value` resolves to `value` by the config rule |
| `SetupDeps.ResolutionCommands` | setup_deps.py:64-67 | an override launches no process; otherwise `git branch --show-current` runs first; `git ls-remote` runs only for an eligible branch, never for `main`/`master` |
| `SetupDeps.CloneCommand` | setup_deps.py:86-89 | starts `git clone --depth 1`; `--branch ref` at position 4 if and only if the ref is non-empty; ends with the GitHub URL then the path; length 8 with a ref, 6 without |
| `SetupDeps.BuildCloneCommand` | setup_deps.py:86-89 | the step-by-step `extend` construction yields exactly that command |
| `RefResolutionTest.ResolveRefForTest` | test_ref_resolution.py:52-74 | a non-empty override is returned; a non-`main`/`master` branch the remote has is returned otherwise; failing both, a non-empty config version is returned, else `None`; `""` only for an empty branch the remote accepts |
| `RefResolutionTest.TestChainAgreesWithResolveRef` | test_ref_resolution.py:52-74 | for a non-empty branch, the test's chain equals `resolve_ref` fed a successful branch query that printed that branch |
| `RefResolutionTest.TestChainDiffersOnEmptyBranch` | test_ref_resolution.py:60-67 | for an empty branch, the test's chain returns `""` when the remote answers yes, while `resolve_ref` never does |
| `RefResolutionTest.PassCount` | test_ref_resolution.py:84-95 | the pass count is at most the number of scenarios, and equals it if and only if every scenario passes |
| `RefResolutionTest.RunScenarios` | test_ref_resolution.py:77-108 | `passed` is the number of passing scenarios; `passed + failed` is the number of scenarios; the status is 0 or 1, and 0 exactly when nothing failed |
| `RefResolutionTest.OverrideScenario` | test_ref_resolution.py:14-20 | scenario 1 yields `feature-x` despite branch `main` and config `howdy`, whatever the remote holds |
| `RefResolutionTest.MatchingBranchScenario` | test_ref_resolution.py:21-27 | scenario 2 yields the branch `howdy`, not the config `v1.0.0`, when the remote has `howdy` |
| `RefResolutionTest.MatchingBranchScenarioNeedsRemote` | test_ref_resolution.py:21-27 | scenario 2 yields `v1.0.0` against a remote without `howdy` |
| `RefResolutionTest.MainBranchScenarios` | test_ref_resolution.py:28-48 | with branch `main`, scenario 3 yields the config `howdy` and scenario 5 yields `None`, whatever the remote holds |
| `RefResolutionTest.MissingBranchScenario` | test_ref_resolution.py:35-41 | scenario 4's branch, missing from the remote, falls through to the config `howdy` |
| `RefResolutionTest.AllScenariosPass` | test_ref_resolution.py:13-49 | against a remote with `howdy` and without `does-not-exist-xyz`, all five scenarios pass |
| `RefResolutionTest.ScenariosHoldForResolveRef` | test_ref_resolution.py:13-49 | each scenario's expectation also holds for `resolve_ref` itself |

## Left out

- Process execution: the `run` wrapper, its echo of the command line and `check=True`. Commands are modelled as argument lists and their results as inputs.
- Raising on a missing `git` executable: `subprocess.run` raises `FileNotFoundError` even with `check=False`, so a missing `git` aborts `resolve_ref` instead of falling through to the next rule. The model covers exit codes only and does not capture the exception.
- `branch_exists_in_remote` and its network call: the remote's answer is the `remoteHasBranch` input (exit code 0 of `git ls-remote`). `ResolutionCommands` records that the query is made.
- The YAML path of `read_config_version`: `yaml.safe_load` is a library outside this model. Only the line-scanner fallback is modelled.
- `ResolveRef` takes what `read_config_version()` returned as its `configVersion` input.
- Reading `config.yaml`: `Path.exists` and `read_text()` become the `Option<string>` text. The universal-newline translation of `read_text()` is not modelled.
- `clone_dependency`'s removal of an existing checkout (`shutil.rmtree`) and the clone itself: filesystem and process effects.
- `main` of `setup_deps.py` and its `uv add --editable` and `uv sync` calls: external package-manager processes.
- The log lines: `print` output of both scripts. `Resolution` keeps which rule fired, not the text.
- The live remote in `test_ref_resolution.py`: it is modelled as a set of branch heads.
