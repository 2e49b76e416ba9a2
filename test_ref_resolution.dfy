/** The ref-resolution test script: its own restatement of the resolution chain,
    the five scenarios it checks, and the loop that tallies passes and failures.
    The remote repository is a set of branch heads instead of a live
    `git ls-remote` call. */
module RefResolutionTest {
  import opened PyStr
  import opened SetupDeps

  /** `resolve_ref_for_test`: the chain with the branch given as a plain string.
      Unlike `resolve_ref`, it asks the remote about any branch that is not
      main/master, the empty string included. */
  function ResolveRefForTest(env: map<string, string>, branch: string, remoteHasBranch: bool,
                             configVersion: Option<string>): (r: Option<string>)
    ensures Truthy(EnvGet(env, OverrideVariable)) ==> r == EnvGet(env, OverrideVariable)
    ensures (!Truthy(EnvGet(env, OverrideVariable)) && branch !in DefaultBranchNames
             && remoteHasBranch) ==> r == Some(branch)
    ensures (!Truthy(EnvGet(env, OverrideVariable))
             && !(branch !in DefaultBranchNames && remoteHasBranch))
            ==> r == (if Truthy(configVersion) then configVersion else None)
    ensures r.Some? ==> r == EnvGet(env, OverrideVariable) || r == Some(branch) || r == configVersion
    ensures r == Some("") ==> branch == "" && remoteHasBranch
    ensures r.None? ==> !Truthy(configVersion)
  {
    var override := EnvGet(env, OverrideVariable);
    if Truthy(override) then override
    else if branch !in DefaultBranchNames && remoteHasBranch then Some(branch)
    else if Truthy(configVersion) then configVersion
    else None
  }

  /** For a non-empty branch the test's chain agrees with `resolve_ref` fed a
      successful `git branch --show-current` that printed that branch. */
  lemma TestChainAgreesWithResolveRef(env: map<string, string>, branchProbe: ProcessResult,
                                      remoteHasBranch: bool, configVersion: Option<string>)
    requires branchProbe.exitCode == 0 && Strip(branchProbe.stdout) != ""
    ensures ResolveRefForTest(env, Strip(branchProbe.stdout), remoteHasBranch, configVersion)
            == ResolveRef(env, branchProbe, remoteHasBranch, configVersion).Ref()
  {
  }

  /** On an empty branch name the two chains part: the test returns `""` when the
      remote answers yes, `resolve_ref` never returns an empty ref. */
  lemma TestChainDiffersOnEmptyBranch(env: map<string, string>, configVersion: Option<string>)
    requires !Truthy(EnvGet(env, OverrideVariable))
    ensures ResolveRefForTest(env, "", true, configVersion) == Some("")
    ensures ResolveRef(env, ProcessResult(0, ""), true, configVersion).Ref() != Some("")
  {
  }

  /** One entry of `SCENARIOS`. */
  datatype Scenario = Scenario(name: string, env: map<string, string>, branch: string,
                               configVersion: Option<string>, expected: Option<string>)

  const Scenarios: seq<Scenario> := [
    Scenario("1. Environment variable override", map["PYUNDERSTAND_REF" := "feature-x"],
             "main", Some("howdy"), Some("feature-x")),
    Scenario("2. Matching branch (non-main)", map[], "howdy", Some("v1.0.0"), Some("howdy")),
    Scenario("3. Main branch falls through to config.yaml", map[], "main", Some("howdy"), Some("howdy")),
    Scenario("4. Non-existent branch falls through to config.yaml", map[], "does-not-exist-xyz",
             Some("howdy"), Some("howdy")),
    Scenario("5. No config.yaml uses default branch", map[], "main", None, None)
  ]

  /** The result the test computes for a scenario against a remote with `heads`. */
  function ScenarioResult(s: Scenario, heads: set<string>): Option<string> {
    ResolveRefForTest(s.env, s.branch, s.branch in heads, s.configVersion)
  }

  predicate Passes(s: Scenario, heads: set<string>) {
    ScenarioResult(s, heads) == s.expected
  }

  /** How many of `scenarios` pass. */
  function PassCount(scenarios: seq<Scenario>, heads: set<string>): (n: nat)
    ensures n <= |scenarios|
    ensures n == |scenarios| <==> forall j :: 0 <= j < |scenarios| ==> Passes(scenarios[j], heads)
  {
    if scenarios == [] then 0
    else
      var init := scenarios[..|scenarios| - 1];
      assert forall j :: 0 <= j < |init| ==> init[j] == scenarios[j];
      PassCount(init, heads) + if Passes(scenarios[|scenarios| - 1], heads) then 1 else 0
  }

  /** `main`: run every scenario, count passes and failures, and return the
      process status, 0 exactly when nothing failed. */
  method RunScenarios(scenarios: seq<Scenario>, heads: set<string>)
    returns (passed: nat, failed: nat, status: int)
    ensures passed == PassCount(scenarios, heads)
    ensures passed + failed == |scenarios|
    ensures status == 0 <==> failed == 0
    ensures status == 0 || status == 1
    ensures status == 0 <==> forall j :: 0 <= j < |scenarios| ==> Passes(scenarios[j], heads)
  {
    passed, failed := 0, 0;
    for i := 0 to |scenarios|
      invariant passed == PassCount(scenarios[..i], heads)
      invariant passed + failed == i
    {
      var result := ResolveRefForTest(scenarios[i].env, scenarios[i].branch,
                                      scenarios[i].branch in heads, scenarios[i].configVersion);
      assert scenarios[..i + 1][..i] == scenarios[..i];
      if result == scenarios[i].expected {
        passed := passed + 1;
      } else {
        failed := failed + 1;
      }
    }
    assert scenarios[..|scenarios|] == scenarios;
    status := if failed == 0 then 0 else 1;
  }

  /** Scenario 1: the override wins over branch "main" and config "howdy". */
  lemma OverrideScenario(heads: set<string>)
    ensures ScenarioResult(Scenarios[0], heads) == Some("feature-x")
  {
  }

  /** Scenario 2: a branch the remote has beats the config version. */
  lemma MatchingBranchScenario(heads: set<string>)
    requires "howdy" in heads
    ensures ScenarioResult(Scenarios[1], heads) == Some("howdy")
  {
  }

  /** Scenario 2 depends on the remote: without a `howdy` head it reads the config. */
  lemma MatchingBranchScenarioNeedsRemote(heads: set<string>)
    requires "howdy" !in heads
    ensures ScenarioResult(Scenarios[1], heads) == Some("v1.0.0")
  {
  }

  /** Scenarios 3 and 5: branch "main" never consults the remote, even if it has "main". */
  lemma MainBranchScenarios(heads: set<string>)
    ensures ScenarioResult(Scenarios[2], heads) == Some("howdy")
    ensures ScenarioResult(Scenarios[4], heads) == None
  {
  }

  /** Scenario 4: a branch missing from the remote falls through to the config. */
  lemma MissingBranchScenario(heads: set<string>)
    requires "does-not-exist-xyz" !in heads
    ensures ScenarioResult(Scenarios[3], heads) == Some("howdy")
  {
  }

  /** Against a remote that has `howdy` and not `does-not-exist-xyz`, all five
      scenarios pass, so `main` reports 5 passed, 0 failed and returns 0. */
  lemma {:induction false} AllScenariosPass(heads: set<string>)
    requires "howdy" in heads && "does-not-exist-xyz" !in heads
    ensures PassCount(Scenarios, heads) == |Scenarios| == 5
  {
    OverrideScenario(heads);
    MatchingBranchScenario(heads);
    MainBranchScenarios(heads);
    MissingBranchScenario(heads);
    forall j | 0 <= j < |Scenarios| ensures Passes(Scenarios[j], heads) {
    }
  }

  /** The expectations hold for `resolve_ref` itself too, given each branch as
      the output of a successful `git branch --show-current`. */
  lemma {:induction false} ScenariosHoldForResolveRef(heads: set<string>, j: nat)
    requires "howdy" in heads && "does-not-exist-xyz" !in heads
    requires j < |Scenarios|
    ensures var s := Scenarios[j];
            ResolveRef(s.env, ProcessResult(0, s.branch), s.branch in heads, s.configVersion).Ref()
            == s.expected
  {
    AllScenariosPass(heads);
    assert Passes(Scenarios[j], heads);
    var b := Scenarios[j].branch;
    assert b != [] && !IsSpace(b[0]) && !IsSpace(b[|b| - 1]);
    StripKeepsTrimmed(b);
    TestChainAgreesWithResolveRef(Scenarios[j].env, ProcessResult(0, b), b in heads,
                                  Scenarios[j].configVersion);
  }
}
