/** The plugin factory's environment set-up: `BRANCH` is kept when set,
    otherwise taken from `CI_COMMIT_REF_NAME`, otherwise from the current git
    branch. */
module PluginFactory {
  import opened Wrappers
  import opened Strings
  import opened PluginUtils

  const BranchVar := "BRANCH"
  const CiRefVar := "CI_COMMIT_REF_NAME"

  /** The variable is set to a non-empty string, so `||` stops at it. */
  predicate Truthy(env: map<string, string>, key: string)
  {
    key in env && env[key] != ""
  }

  /** `env.BRANCH || env.CI_COMMIT_REF_NAME || await getBranch()`, where
      `gitBranch` is what `getBranch` returns or throws. */
  function AmbientBranch(env: map<string, string>, gitBranch: Result<string>): Result<string>
  {
    if Truthy(env, BranchVar) then Ok(env[BranchVar])
    else if Truthy(env, CiRefVar) then Ok(env[CiRefVar])
    else gitBranch
  }

  /** Git is consulted only when both variables are unset or empty. */
  lemma GitOnlyAsLastResort(env: map<string, string>, g1: Result<string>, g2: Result<string>)
    ensures Truthy(env, BranchVar) || Truthy(env, CiRefVar) ==> AmbientBranch(env, g1) == AmbientBranch(env, g2)
    ensures !Truthy(env, BranchVar) && !Truthy(env, CiRefVar) ==> AmbientBranch(env, g1) == g1
    ensures Truthy(env, BranchVar) ==> AmbientBranch(env, g1) == Ok(env[BranchVar])
  {
  }

  /** `process.env.BRANCH` as `parseRepoUrl` reads it. */
  function BranchOf(env: map<string, string>): Option<string>
  {
    if BranchVar in env then Some(env[BranchVar]) else None
  }

  /** `process.env` (or the `env` of `setupScriptEnvironment`). */
  class ProcessEnv {
    var vars: map<string, string>

    constructor (vars: map<string, string>)
      ensures this.vars == vars
    {
      this.vars := vars;
    }

    /** `env.BRANCH = env.BRANCH || env.CI_COMMIT_REF_NAME || await getBranch()`.
        When `getBranch` throws, nothing is assigned. */
    method SetAmbientBranch(gitBranch: Result<string>) returns (r: Result<string>)
      modifies this
      ensures r == AmbientBranch(old(vars), gitBranch)
      ensures r.Ok? ==> vars == old(vars)[BranchVar := r.value]
      ensures r.Err? ==> vars == old(vars)
    {
      r := AmbientBranch(vars, gitBranch);
      if r.Ok? {
        vars := vars[BranchVar := r.value];
      }
    }
  }

  /** Once set to a non-empty value, `BRANCH` stays: a second set-up keeps it
      without asking git. */
  lemma AmbientBranchStable(env: map<string, string>, gitBranch: Result<string>, later: Result<string>)
    requires AmbientBranch(env, gitBranch).Ok? && AmbientBranch(env, gitBranch).value != ""
    ensures AmbientBranch(env[BranchVar := AmbientBranch(env, gitBranch).value], later) == AmbientBranch(env, gitBranch)
  {
  }

  /** After the set-up, a reference without a hash is parsed with the ambient
      branch as its hash. */
  lemma HashFallsBackToAmbient(env: map<string, string>, gitBranch: Result<string>, repo: string)
    requires AmbientBranch(env, gitBranch).Ok?
    requires repo != "" && NoneOf(repo, {'#'})
    ensures ParseRepoUrl(RepoUrl(repo, ""), BranchOf(env[BranchVar := AmbientBranch(env, gitBranch).value]))
         == Ok(RepoRef(repo, Some(AmbientBranch(env, gitBranch).value)))
  {
    ParseRepoUrlInverse(repo, "", BranchOf(env[BranchVar := AmbientBranch(env, gitBranch).value]));
  }
}
