/** The per-repository command loops of the orchestrator (`clone`, `run`,
    `install`) and the `setup` chain. Child processes are a `Shell` object that
    records every command line it is asked to run and reports, through a fixed
    function, whether that command succeeded. */
module Commands {
  import opened Wrappers
  import opened Disk
  import opened Tree
  import opened Labels
  import opened Link

  /** A command line and the directory it runs in. */
  datatype Invocation = Invocation(command: string, cwd: string)

  /** Every invocation in `invs` succeeds under `succeeds`. */
  predicate AllSucceed(succeeds: Invocation -> bool, invs: seq<Invocation>)
  {
    forall i :: 0 <= i < |invs| ==> succeeds(invs[i])
  }

  lemma AllSucceedAppend(succeeds: Invocation -> bool, first: seq<Invocation>, rest: seq<Invocation>)
    ensures AllSucceed(succeeds, first + rest) <==> AllSucceed(succeeds, first) && AllSucceed(succeeds, rest)
  {
    if AllSucceed(succeeds, first) && AllSucceed(succeeds, rest) {
      forall i | 0 <= i < |first + rest|
        ensures succeeds((first + rest)[i])
      {
        if i >= |first| {
          assert (first + rest)[i] == rest[i - |first|];
        }
      }
    }
    if AllSucceed(succeeds, first + rest) {
      forall i | 0 <= i < |first|
        ensures succeeds(first[i])
      {
        assert first[i] == (first + rest)[i];
      }
      forall i | 0 <= i < |rest|
        ensures succeeds(rest[i])
      {
        assert rest[i] == (first + rest)[|first| + i];
      }
    }
  }

  /** The child-process runner. */
  class Shell {
    const succeeds: Invocation -> bool
    var history: seq<Invocation>

    constructor (succeeds: Invocation -> bool)
      ensures this.succeeds == succeeds && history == []
    {
      this.succeeds := succeeds;
      history := [];
    }

    /** `exec(command, { cwd })`: resolves when the command succeeds. */
    method Exec(inv: Invocation) returns (ok: bool)
      modifies this
      ensures history == old(history) + [inv]
      ensures ok == succeeds(inv)
    {
      history := history + [inv];
      ok := succeeds(inv);
    }

    /** The loop shared by the stages: every invocation is run in order, a
        failure sets `hasErrors` without stopping the loop, and the result is
        `!hasErrors`. */
    method ExecAll(invs: seq<Invocation>) returns (ok: bool)
      modifies this
      ensures history == old(history) + invs
      ensures ok <==> AllSucceed(succeeds, invs)
    {
      var hasErrors := false;
      var i := 0;
      while i < |invs|
        invariant 0 <= i <= |invs|
        invariant history == old(history) + invs[..i]
        invariant !hasErrors <==> AllSucceed(succeeds, invs[..i])
      {
        var stepOk := Exec(invs[i]);
        if !stepOk {
          hasErrors := true;
        }
        AllSucceedAppend(succeeds, invs[..i], [invs[i]]);
        assert invs[..i + 1] == invs[..i] + [invs[i]];
        i := i + 1;
      }
      assert invs[..i] == invs;
      ok := !hasErrors;
    }
  }

  /** `branch ? ('--branch ' + branch) : ''`: an absent or empty branch is falsy. */
  function CloneParams(branch: Option<string>): (params: string)
    ensures branch.Some? && branch.value != "" ==> params == "--branch " + branch.value
    ensures branch.None? || branch.value == "" ==> params == ""
  {
    match branch
    case Some(b) => if b != "" then "--branch " + b else ""
    case None => ""
  }

  /** `git clone "${repo.url}" "${cd}" ${params}`, run in the root. */
  function CloneInvocation(root: string, branch: Option<string>, r: Repo): Invocation
  {
    Invocation("git clone \"" + Render(FromOption(r.url)) + "\" \"" + RepoPath(root, r) + "\" " + CloneParams(branch), root)
  }

  /** The user's command, run in the repository's directory. */
  function RunInvocation(root: string, cmd: string, r: Repo): Invocation
  {
    Invocation(cmd, RepoPath(root, r))
  }

  /** `yarn install`, run in the repository's directory. */
  function InstallInvocation(root: string, r: Repo): Invocation
  {
    Invocation("yarn install", RepoPath(root, r))
  }

  function CloneInvocations(root: string, branch: Option<string>, repos: seq<Repo>): (invs: seq<Invocation>)
    ensures |invs| == |repos|
    ensures forall i :: 0 <= i < |repos| ==> invs[i] == CloneInvocation(root, branch, repos[i])
  {
    seq(|repos|, i requires 0 <= i < |repos| => CloneInvocation(root, branch, repos[i]))
  }

  function RunInvocations(root: string, cmd: string, repos: seq<Repo>): (invs: seq<Invocation>)
    ensures |invs| == |repos|
    ensures forall i :: 0 <= i < |repos| ==> invs[i] == RunInvocation(root, cmd, repos[i])
  {
    seq(|repos|, i requires 0 <= i < |repos| => RunInvocation(root, cmd, repos[i]))
  }

  function InstallInvocations(root: string, repos: seq<Repo>): (invs: seq<Invocation>)
    ensures |invs| == |repos|
    ensures forall i :: 0 <= i < |repos| ==> invs[i] == InstallInvocation(root, repos[i])
  {
    seq(|repos|, i requires 0 <= i < |repos| => InstallInvocation(root, repos[i]))
  }

  /** `cloneRepos`: one clone per filtered repository, all of them attempted;
      true iff every clone succeeded. */
  method CloneRepos(shell: Shell, root: string, catalog: seq<Repo>, only: Option<seq<string>>,
                    exclude: Option<seq<string>>, branch: Option<string>) returns (ok: bool)
    modifies shell
    ensures shell.history == old(shell.history) + CloneInvocations(root, branch, FilteredRepos(catalog, only, exclude))
    ensures ok <==> AllSucceed(shell.succeeds, CloneInvocations(root, branch, FilteredRepos(catalog, only, exclude)))
  {
    ok := shell.ExecAll(CloneInvocations(root, branch, FilteredRepos(catalog, only, exclude)));
  }

  /** `runCommand`: `cmd` in every filtered repository; true iff every run succeeded. */
  method RunCommand(shell: Shell, root: string, catalog: seq<Repo>, only: Option<seq<string>>,
                    exclude: Option<seq<string>>, cmd: string) returns (ok: bool)
    modifies shell
    ensures shell.history == old(shell.history) + RunInvocations(root, cmd, FilteredRepos(catalog, only, exclude))
    ensures ok <==> AllSucceed(shell.succeeds, RunInvocations(root, cmd, FilteredRepos(catalog, only, exclude)))
  {
    ok := shell.ExecAll(RunInvocations(root, cmd, FilteredRepos(catalog, only, exclude)));
  }

  /** `installDependencies`: `yarn install` in every filtered repository. */
  method InstallDependencies(shell: Shell, root: string, catalog: seq<Repo>, only: Option<seq<string>>,
                             exclude: Option<seq<string>>) returns (ok: bool)
    modifies shell
    ensures shell.history == old(shell.history) + InstallInvocations(root, FilteredRepos(catalog, only, exclude))
    ensures ok <==> AllSucceed(shell.succeeds, InstallInvocations(root, FilteredRepos(catalog, only, exclude)))
  {
    ok := shell.ExecAll(InstallInvocations(root, FilteredRepos(catalog, only, exclude)));
  }

  /** `setup`: clone, then install only after a clean clone, then link only
      after a clean install; the chain's own result is always true. */
  method Setup(shell: Shell, disk: FileSystem, root: string, catalog: seq<Repo>, only: Option<seq<string>>,
               exclude: Option<seq<string>>, branch: Option<string>) returns (done: bool)
    requires disk.Valid()
    modifies shell, disk
    ensures disk.Valid()
    ensures done
    ensures
      var repos := FilteredRepos(catalog, only, exclude);
      var cloned := AllSucceed(shell.succeeds, CloneInvocations(root, branch, repos));
      var installed := cloned && AllSucceed(shell.succeeds, InstallInvocations(root, repos));
      && shell.history == old(shell.history) + CloneInvocations(root, branch, repos)
           + (if cloned then InstallInvocations(root, repos) else [])
      && disk.entries == (if installed then LinkAll(old(disk.entries), LinkJobs(root, catalog, only, exclude)).fs
                          else old(disk.entries))
  {
    var cloned := CloneRepos(shell, root, catalog, only, exclude, branch);
    if cloned {
      var installed := InstallDependencies(shell, root, catalog, only, exclude);
      if installed {
        var linked := Link.Link(disk, root, catalog, only, exclude);
      }
    } else {
      assert shell.history == old(shell.history) + CloneInvocations(root, branch, FilteredRepos(catalog, only, exclude)) + [];
    }
    done := true;
  }
}
