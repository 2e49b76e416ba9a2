/** The decision logic of the dependency bootstrap script: which git ref of the
    dependency to clone, read from the environment, the checked-out branch, the
    remote repository and the config file, and the clone command built from it.
    Every process, filesystem and environment read is a parameter here. */
module SetupDeps {
  import opened PyStr

  /** Exit code and captured standard output of one external process. */
  datatype ProcessResult = ProcessResult(exitCode: int, stdout: string)

  /** An argument list handed to the process runner. */
  type Command = seq<string>

  /** Environment variable whose non-empty value overrides every other rule. */
  const OverrideVariable := "PYUNDERSTAND_REF"

  /** Config key read by the resolution chain. */
  const VersionKey := "version"

  /** Branch names that never select a matching branch. */
  const DefaultBranchNames: set<string> := {"main", "master"}

  const ShowCurrentBranch: Command := ["git", "branch", "--show-current"]

  function RepoUrl(repo: string): string {
    "https://github.com/" + repo + ".git"
  }

  function LsRemoteCommand(repo: string, branch: string): Command {
    ["git", "ls-remote", "--exit-code", "--heads", RepoUrl(repo), branch]
  }

  /** `os.environ.get(name)` on an environment snapshot. */
  function EnvGet(env: map<string, string>, name: string): Option<string> {
    if name in env then Some(env[name]) else None
  }

  // ---------------------------------------------------------------------------
  // Current branch

  /** The checked-out branch: the trimmed output of `git branch --show-current`
      when that command succeeds, and no branch when it fails. */
  function CurrentBranch(probe: ProcessResult): (branch: Option<string>)
    ensures branch.Some? <==> probe.exitCode == 0
    ensures branch.Some? ==> branch.value == Strip(probe.stdout)
    ensures branch.Some? ==> exists i: nat :: SlicedFrom(probe.stdout, i, branch.value)
    ensures branch.Some? && branch.value != [] ==>
              !IsSpace(branch.value[0]) && !IsSpace(branch.value[|branch.value| - 1])
  {
    if probe.exitCode == 0 then Some(Strip(probe.stdout)) else None
  }

  // ---------------------------------------------------------------------------
  // Config file fallback scanner

  /** `line.startswith(f"{key}:")`. */
  predicate DeclaresKey(line: string, key: string) {
    StartsWith(line, key + ":")
  }

  lemma DeclaringLineHasColon(line: string, key: string)
    requires DeclaresKey(line, key)
    ensures ':' in line
  {
    assert line[|key|] == (key + ":")[|key|];
  }

  /** `line.split(":", 1)[1].strip()` for a line that declares a key. */
  function ValueAfterColon(line: string, key: string): string
    requires DeclaresKey(line, key)
  {
    DeclaringLineHasColon(line, key);
    Strip(SplitOnce(line, ':')[1])
  }

  /** The value of the first line that declares `key`, or `None`. */
  function FirstDeclared(lines: seq<string>, key: string): Option<string> {
    if lines == [] then None
    else if DeclaresKey(lines[0], key) then Some(ValueAfterColon(lines[0], key))
    else FirstDeclared(lines[1..], key)
  }

  /** The scanner finds the first declaring line and reads its value. */
  lemma {:induction false} FirstDeclaredIsFirstMatch(lines: seq<string>, key: string, i: nat)
    requires i < |lines| && DeclaresKey(lines[i], key)
    requires forall j :: 0 <= j < i ==> !DeclaresKey(lines[j], key)
    ensures FirstDeclared(lines, key) == Some(ValueAfterColon(lines[i], key))
  {
    if i > 0 {
      assert !DeclaresKey(lines[0], key);
      FirstDeclaredIsFirstMatch(lines[1..], key, i - 1);
    }
  }

  /** The scanner returns `None` exactly when no line declares `key`. */
  lemma {:induction false} FirstDeclaredNone(lines: seq<string>, key: string)
    ensures FirstDeclared(lines, key) == None <==>
            forall j :: 0 <= j < |lines| ==> !DeclaresKey(lines[j], key)
  {
    if lines != [] {
      FirstDeclaredNone(lines[1..], key);
      assert forall j :: 1 <= j < |lines| ==> lines[j] == lines[1..][j - 1];
    }
  }

  /** Lines after the first declaring line are never looked at. */
  lemma {:induction false} FirstDeclaredIgnoresLater(lines: seq<string>, later: seq<string>, key: string)
    requires FirstDeclared(lines, key).Some?
    ensures FirstDeclared(lines + later, key) == FirstDeclared(lines, key)
  {
    assert lines != [];
    assert (lines + later)[0] == lines[0];
    if !DeclaresKey(lines[0], key) {
      assert (lines + later)[1..] == lines[1..] + later;
      FirstDeclaredIgnoresLater(lines[1..], later, key);
    }
  }

  /** For a key without a colon, the value is the trimmed text after `key:`. */
  lemma ValueOfSimpleLine(line: string, key: string)
    requires ':' !in key && DeclaresKey(line, key)
    ensures ValueAfterColon(line, key) == Strip(line[|key| + 1..])
  {
    assert line[|key|] == (key + ":")[|key|];
    assert forall k :: 0 <= k < |key| ==> line[k] == (key + ":")[k] == key[k];
    assert IndexOf(line, ':') == |key|;
  }

  /** The fallback branch of `read_config_version`: its loop over the lines of
      the config file, returning at the first line that declares `key`. */
  method ScanConfigLines(lines: seq<string>, key: string) returns (version: Option<string>)
    ensures version == FirstDeclared(lines, key)
  {
    var i := 0;
    while i < |lines|
      invariant i <= |lines|
      invariant FirstDeclared(lines[i..], key) == FirstDeclared(lines, key)
    {
      if DeclaresKey(lines[i], key) {
        return Some(ValueAfterColon(lines[i], key));
      }
      assert lines[i..][1..] == lines[i + 1..];
      i := i + 1;
    }
    return None;
  }

  /** Line `j` is the first of `lines` that declares `key`. */
  predicate FirstDeclaringLine(lines: seq<string>, key: string, j: int) {
    && 0 <= j < |lines|
    && DeclaresKey(lines[j], key)
    && forall k :: 0 <= k < j ==> !DeclaresKey(lines[k], key)
  }

  /** `read_config_version(key)` without a YAML parser: no file reads as `None`,
      otherwise the first declaring line of `splitlines()` gives the value. */
  function ReadConfigVersion(configText: Option<string>, key: string): (version: Option<string>)
    ensures configText.None? ==> version.None?
    ensures version.Some? ==>
              exists j :: FirstDeclaringLine(SplitLines(configText.value), key, j)
                          && version.value == ValueAfterColon(SplitLines(configText.value)[j], key)
    ensures configText.Some? && version.None? ==>
              forall line :: line in SplitLines(configText.value) ==> !DeclaresKey(line, key)
  {
    match configText
    case None => None
    case Some(text) =>
      var lines := SplitLines(text);
      FirstDeclaredNone(lines, key);
      FirstDeclaredSound(lines, key);
      FirstDeclared(lines, key)
  }

  /** A value found by the scanner comes from the first declaring line. */
  lemma {:induction false} FirstDeclaredSound(lines: seq<string>, key: string)
    ensures FirstDeclared(lines, key).Some? ==>
              exists j :: FirstDeclaringLine(lines, key, j)
                          && FirstDeclared(lines, key).value == ValueAfterColon(lines[j], key)
  {
    if lines != [] {
      if DeclaresKey(lines[0], key) {
        assert FirstDeclaringLine(lines, key, 0);
      } else {
        FirstDeclaredSound(lines[1..], key);
        if FirstDeclared(lines, key).Some? {
          var j :| FirstDeclaringLine(lines[1..], key, j)
                   && FirstDeclared(lines[1..], key).value == ValueAfterColon(lines[1..][j], key);
          FirstDeclaringLineAfterFirst(lines, key, j);
        }
      }
    }
  }

  lemma FirstDeclaringLineAfterFirst(lines: seq<string>, key: string, j: int)
    requires lines != [] && !DeclaresKey(lines[0], key)
    requires FirstDeclaringLine(lines[1..], key, j)
    ensures FirstDeclaringLine(lines, key, j + 1) && lines[j + 1] == lines[1..][j]
  {
    forall k | 0 <= k < j + 1 ensures !DeclaresKey(lines[k], key) {
      if k > 0 {
        assert lines[k] == lines[1..][k - 1];
      }
    }
  }

  /** A config file whose first line is `key: value` reads back as `value`,
      whatever lines follow it. */
  lemma WrittenVersionReadsBack(key: string, value: string, others: seq<string>)
    requires ':' !in key && NoLineBreaks(key) && NoLineBreaks(value)
    requires value == [] || (!IsSpace(value[0]) && !IsSpace(value[|value| - 1]))
    requires forall j :: 0 <= j < |others| ==> NoLineBreaks(others[j])
    ensures ReadConfigVersion(Some(JoinLines([key + ": " + value] + others)), key) == Some(value)
  {
    var line := key + ": " + value;
    var lines := [line] + others;
    LinesWithoutBreaks(key, value, others);
    SplitJoinLines(lines);
    DeclaredValueOfSpacedLine(key, value);
    assert FirstDeclared(lines, key) == Some(value);
  }

  lemma LinesWithoutBreaks(key: string, value: string, others: seq<string>)
    requires NoLineBreaks(key) && NoLineBreaks(value)
    requires forall j :: 0 <= j < |others| ==> NoLineBreaks(others[j])
    ensures var lines := [key + ": " + value] + others;
            forall j :: 0 <= j < |lines| ==> NoLineBreaks(lines[j])
  {
    LineWithoutBreaks(key, value);
    var lines := [key + ": " + value] + others;
    forall j | 0 <= j < |lines| ensures NoLineBreaks(lines[j]) {
      if j > 0 {
        assert lines[j] == others[j - 1];
      }
    }
  }

  lemma DeclaredValueOfSpacedLine(key: string, value: string)
    requires ':' !in key
    requires value == [] || (!IsSpace(value[0]) && !IsSpace(value[|value| - 1]))
    ensures DeclaresKey(key + ": " + value, key)
    ensures ValueAfterColon(key + ": " + value, key) == value
  {
    var line := key + ": " + value;
    assert line[..|key| + 1] == key + ":";
    assert line[|key| + 1..] == " " + value;
    calc {
      ValueAfterColon(line, key);
      { ValueOfSimpleLine(line, key); }
      Strip(line[|key| + 1..]);
      Strip(" " + value);
      { StripLeadingSpaces(" ", value); }
      value;
    }
  }

  lemma LineWithoutBreaks(key: string, value: string)
    requires NoLineBreaks(key) && NoLineBreaks(value)
    ensures NoLineBreaks(key + ": " + value)
  {
    var line := key + ": " + value;
    forall k | 0 <= k < |line| ensures !IsLineBreak(line[k]) {
      if k < |key| {
        assert line[k] == key[k];
      } else if k >= |key| + 2 {
        assert line[k] == value[k - |key| - 2];
      }
    }
  }

  // ---------------------------------------------------------------------------
  // Ref resolution

  /** Which rule decided the ref, and the ref it chose (the log line printed
      for each rule names the same four cases). */
  datatype Resolution =
    | EnvOverride(ref: string)
    | MatchingBranch(ref: string)
    | ConfigVersion(ref: string)
    | DefaultBranch
  {
    /** The value `resolve_ref` returns: `None` means the remote's default branch. */
    function Ref(): Option<string> {
      if DefaultBranch? then None else Some(ref)
    }
  }

  /** `branch and branch not in ("main", "master")`. */
  predicate EligibleBranch(branch: Option<string>) {
    Truthy(branch) && branch.value !in DefaultBranchNames
  }

  /** `resolve_ref`: the first rule that holds wins. `branchProbe` is the result of
      `git branch --show-current`, `remoteHasBranch` whether `git ls-remote` finds
      that branch on the remote (asked only for an eligible branch), and
      `configVersion` what `read_config_version()` returned. */
  function ResolveRef(env: map<string, string>, branchProbe: ProcessResult, remoteHasBranch: bool,
                      configVersion: Option<string>): (r: Resolution)
    // 1. a non-empty override wins and is returned verbatim; an empty one is ignored
    ensures r.EnvOverride? <==> Truthy(EnvGet(env, OverrideVariable))
    ensures r.EnvOverride? ==> Some(r.ref) == EnvGet(env, OverrideVariable)
    // 2. an eligible branch that the remote has wins when no override is set
    ensures r.MatchingBranch? <==>
              !Truthy(EnvGet(env, OverrideVariable)) && EligibleBranch(CurrentBranch(branchProbe))
              && remoteHasBranch
    ensures r.MatchingBranch? ==>
              branchProbe.exitCode == 0 && r.ref == Strip(branchProbe.stdout)
              && r.ref != "" && r.ref != "main" && r.ref != "master"
    // 3. a non-empty config version wins only when rules 1 and 2 did not fire
    ensures r.ConfigVersion? <==>
              !Truthy(EnvGet(env, OverrideVariable))
              && !(EligibleBranch(CurrentBranch(branchProbe)) && remoteHasBranch)
              && Truthy(configVersion)
    ensures r.ConfigVersion? ==> Some(r.ref) == configVersion
    // never an empty ref: an empty string always falls through
    ensures r.Ref() != Some("")
  {
    var override := EnvGet(env, OverrideVariable);
    if Truthy(override) then EnvOverride(override.value)
    else
      var branch := CurrentBranch(branchProbe);
      if EligibleBranch(branch) && remoteHasBranch then MatchingBranch(branch.value)
      else if Truthy(configVersion) then ConfigVersion(configVersion.value)
      else DefaultBranch
  }

  /** Candidate `i` is truthy and every candidate before it is not. */
  predicate FirstTruthyAt(candidates: seq<Option<string>>, i: int) {
    && 0 <= i < |candidates|
    && Truthy(candidates[i])
    && forall k :: 0 <= k < i ==> !Truthy(candidates[k])
  }

  /** An independent statement of the priority chain: the first truthy candidate. */
  function FirstTruthy(candidates: seq<Option<string>>): (r: Option<string>)
    ensures r.Some? ==> exists i :: FirstTruthyAt(candidates, i) && r == candidates[i]
    ensures r.None? ==> forall j :: 0 <= j < |candidates| ==> !Truthy(candidates[j])
  {
    if candidates == [] then None
    else if Truthy(candidates[0]) then
      assert FirstTruthyAt(candidates, 0);
      candidates[0]
    else
      var r := FirstTruthy(candidates[1..]);
      assert r.Some? ==> exists i :: FirstTruthyAt(candidates, i) && r == candidates[i] by {
        if r.Some? {
          var i :| FirstTruthyAt(candidates[1..], i) && r == candidates[1..][i];
          assert forall k :: 1 <= k <= i ==> candidates[k] == candidates[1..][k - 1];
          assert FirstTruthyAt(candidates, i + 1);
        }
      }
      r
  }

  /** `resolve_ref` picks the first truthy one of: the override, the branch when
      it is eligible and on the remote, the config version. */
  lemma ResolveRefIsFirstTruthy(env: map<string, string>, branchProbe: ProcessResult,
                                remoteHasBranch: bool, configVersion: Option<string>)
    ensures
      var branch := CurrentBranch(branchProbe);
      var branchCandidate := if EligibleBranch(branch) && remoteHasBranch then branch else None;
      ResolveRef(env, branchProbe, remoteHasBranch, configVersion).Ref()
        == FirstTruthy([EnvGet(env, OverrideVariable), branchCandidate, configVersion])
  {
    var branch := CurrentBranch(branchProbe);
    var branchCandidate := if EligibleBranch(branch) && remoteHasBranch then branch else None;
    var cs := [EnvGet(env, OverrideVariable), branchCandidate, configVersion];
    assert cs[1..] == [branchCandidate, configVersion];
    assert cs[1..][1..] == [configVersion];
    assert [configVersion][1..] == [];
    assert FirstTruthy([configVersion]) == if Truthy(configVersion) then configVersion else None;
  }

  /** With neither an override nor a matching branch, a config file whose first
      line is `version: value` decides the ref, for any non-empty trimmed value. */
  lemma ConfigFileDecides(env: map<string, string>, branchProbe: ProcessResult,
                          remoteHasBranch: bool, value: string, others: seq<string>)
    requires !Truthy(EnvGet(env, OverrideVariable))
    requires !(EligibleBranch(CurrentBranch(branchProbe)) && remoteHasBranch)
    requires value != [] && NoLineBreaks(value) && !IsSpace(value[0]) && !IsSpace(value[|value| - 1])
    requires forall j :: 0 <= j < |others| ==> NoLineBreaks(others[j])
    ensures var config := Some(JoinLines([VersionKey + ": " + value] + others));
            ResolveRef(env, branchProbe, remoteHasBranch, ReadConfigVersion(config, VersionKey))
              == ConfigVersion(value)
  {
    var config := Some(JoinLines([VersionKey + ": " + value] + others));
    VersionKeyIsPlain();
    WrittenVersionReadsBack(VersionKey, value, others);
    var version := ReadConfigVersion(config, VersionKey);
    assert version == Some(value);
  }

  lemma VersionKeyIsPlain()
    ensures ':' !in VersionKey && NoLineBreaks(VersionKey)
  {
    assert VersionKey == ['v', 'e', 'r', 's', 'i', 'o', 'n'];
  }

  /** The processes `resolve_ref` launches: none when the override decides;
      otherwise `git branch --show-current`, followed by `git ls-remote` for an
      eligible branch only. */
  function ResolutionCommands(env: map<string, string>, repo: string, branchProbe: ProcessResult)
    : (cmds: seq<Command>)
    ensures cmds == [] <==> Truthy(EnvGet(env, OverrideVariable))
    ensures cmds != [] ==> cmds[0] == ShowCurrentBranch && |cmds| <= 2
    ensures |cmds| == 2 <==> cmds != [] && EligibleBranch(CurrentBranch(branchProbe))
    ensures |cmds| == 2 ==>
              var branch := CurrentBranch(branchProbe).value;
              cmds[1] == LsRemoteCommand(repo, branch) && branch !in DefaultBranchNames
  {
    if Truthy(EnvGet(env, OverrideVariable)) then []
    else
      var branch := CurrentBranch(branchProbe);
      [ShowCurrentBranch] + if EligibleBranch(branch) then [LsRemoteCommand(repo, branch.value)] else []
  }

  // ---------------------------------------------------------------------------
  // Clone command

  const ClonePrefix: Command := ["git", "clone", "--depth", "1"]

  /** The argument list `clone_dependency` hands to `git`: a shallow clone,
      `--branch ref` only for a non-empty ref, then the URL and the target path. */
  function CloneCommand(repo: string, path: string, ref: Option<string>): (cmd: Command)
    ensures |cmd| == if Truthy(ref) then 8 else 6
    ensures cmd[..4] == ClonePrefix
    ensures cmd[4] == "--branch" <==> Truthy(ref)
    ensures Truthy(ref) ==> cmd[5] == ref.value
    ensures cmd[|cmd| - 2..] == [RepoUrl(repo), path]
  {
    var selector := if Truthy(ref) then ["--branch", ref.value] else [];
    ClonePrefix + selector + [RepoUrl(repo), path]
  }

  /** `clone_dependency`'s construction of `cmd` by successive `extend` calls. */
  method BuildCloneCommand(repo: string, path: string, ref: Option<string>) returns (cmd: Command)
    ensures cmd == CloneCommand(repo, path, ref)
  {
    cmd := ["git", "clone", "--depth", "1"];
    if ref.Some? && ref.value != "" {
      cmd := cmd + ["--branch", ref.value];
    }
    cmd := cmd + [RepoUrl(repo), path];
  }
}
