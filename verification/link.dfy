/** Link materialisation: every filtered repository is paired with the
    repositories its `requires` selectors match, and for each pair the entry
    `<repo>/node_modules/<package>` is replaced by a symlink to the target. */
module Link {
  import opened Wrappers
  import opened Paths
  import opened Disk
  import opened Tree
  import opened Labels

  /** One pair to link: the dependent's path, the target's path and the
      target's package name as the template string renders it. */
  datatype Job = Job(repoPath: string, targetPath: string, packageName: string)

  const NodeModules := "/node_modules"

  function ModulesDir(j: Job): string
  {
    j.repoPath + NodeModules
  }

  /** `${repoPath}/node_modules/${targetRepo.package}`. */
  function PackagePath(j: Job): (p: string)
    ensures Under(p, ModulesDir(j))
  {
    var p := j.repoPath + NodeModules + "/" + j.packageName;
    assert p[..|ModulesDir(j)|] == ModulesDir(j);
    p
  }

  /** `path.resolve(root, repo.uri)` for an absolute `root`. */
  function RepoPath(root: string, r: Repo): string
  {
    root + "/" + r.uri
  }

  function JobFor(root: string, repo: Repo, target: Repo): Job
  {
    Job(RepoPath(root, repo), RepoPath(root, target), Render(FromOption(target.package)))
  }

  /** The inner `link(repo, targetRepo)`: both paths must exist, then the
      package path is removed and re-created as a link to the target. */
  function LinkPair(fs: Fs, j: Job): (o: Outcome)
    requires WellFormed(fs)
    ensures WellFormed(o.fs)
  {
    if j.repoPath !in fs || j.targetPath !in fs then Outcome(fs, false)
    else
      RemoveTreeWellFormed(fs, PackagePath(j));
      var cleared := RemoveTree(fs, PackagePath(j));
      SymlinkAtWellFormed(cleared, j.targetPath, PackagePath(j));
      SymlinkAt(cleared, j.targetPath, PackagePath(j))
  }

  /** A pair whose dependent or target is missing fails and changes nothing.
      A target at or under the package path is removed with it, so the link
      then fails after the removal. Otherwise the pair succeeds exactly when
      no ancestor of the package path is a non-directory, and then the package
      path is a link to the target whatever was there before; a failure of
      that kind changes nothing. Entries outside the package path keep their
      value in every case. */
  lemma LinkPairEffect(fs: Fs, j: Job)
    requires WellFormed(fs)
    ensures j.repoPath !in fs || j.targetPath !in fs ==> LinkPair(fs, j) == Outcome(fs, false)
    ensures LinkPair(fs, j).ok <==>
      j.repoPath in fs && j.targetPath in fs && !Blocked(fs, PackagePath(j)) && !Under(j.targetPath, PackagePath(j))
    ensures LinkPair(fs, j).ok ==>
      PackagePath(j) in LinkPair(fs, j).fs && LinkPair(fs, j).fs[PackagePath(j)] == Symlink(j.targetPath)
    ensures forall q :: q in fs && !Under(q, PackagePath(j)) ==> q in LinkPair(fs, j).fs && LinkPair(fs, j).fs[q] == fs[q]
    ensures j.repoPath in fs && j.targetPath in fs && Under(j.targetPath, PackagePath(j)) ==>
      LinkPair(fs, j) == Outcome(RemoveTree(fs, PackagePath(j)), false)
    ensures !LinkPair(fs, j).ok && !Under(j.targetPath, PackagePath(j)) ==> LinkPair(fs, j).fs == fs
  {
    var p := PackagePath(j);
    if j.repoPath in fs && j.targetPath in fs {
      var cleared := RemoveTree(fs, p);
      assert Blocked(cleared, p) <==> Blocked(fs, p) by {
        forall a | a in Ancestors(p)
          ensures a in cleared <==> a in fs
        {
          assert !Under(a, p);
        }
      }
      if Blocked(fs, p) {
        var a :| a in Ancestors(p) && a in fs && fs[a] != Dir;
        NothingUnderBlocked(fs, p, a);
        assert cleared == fs;
      }
    }
  }

  /** In a well-formed filesystem, anything at or under `p` makes every
      present ancestor of `p` a directory; so nothing lies under a path that
      a non-directory blocks. */
  lemma NothingUnderBlocked(fs: Fs, p: string, a: string)
    requires WellFormed(fs) && IsAncestor(a, p) && a in fs
    ensures forall q :: q in fs && Under(q, p) ==> fs[a] == Dir
  {
    forall q | q in fs && Under(q, p)
      ensures fs[a] == Dir
    {
      if q != p {
        AncestorTransitive(a, p, q);
      }
    }
  }

  /** The pairs in order, folding the `hasErrors` flag: every pair is tried
      whatever the earlier ones did. */
  function LinkAll(fs: Fs, jobs: seq<Job>): (o: Outcome)
    requires WellFormed(fs)
    ensures WellFormed(o.fs)
  {
    if jobs == [] then Outcome(fs, true)
    else
      var before := LinkAll(fs, jobs[..|jobs| - 1]);
      var step := LinkPair(before.fs, jobs[|jobs| - 1]);
      Outcome(step.fs, before.ok && step.ok)
  }

  /** `getFilteredRepos(repo.requires)`: the requires selectors act as an
      `only` filter over the whole catalog, still under the default `exclude`. */
  function TargetsOf(catalog: seq<Repo>, repo: Repo, exclude: Option<seq<string>>): seq<Repo>
  {
    FilteredRepos(catalog, Some(repo.requirements), exclude)
  }

  function RepoJobs(root: string, repo: Repo, targets: seq<Repo>): seq<Job>
  {
    if targets == [] then []
    else RepoJobs(root, repo, targets[..|targets| - 1]) + [JobFor(root, repo, targets[|targets| - 1])]
  }

  function AllJobs(root: string, catalog: seq<Repo>, repos: seq<Repo>, exclude: Option<seq<string>>): seq<Job>
  {
    if repos == [] then []
    else
      var last := repos[|repos| - 1];
      AllJobs(root, catalog, repos[..|repos| - 1], exclude) + RepoJobs(root, last, TargetsOf(catalog, last, exclude))
  }

  /** Every (filtered repository, matched target) pair of one `link` run. */
  function LinkJobs(root: string, catalog: seq<Repo>, only: Option<seq<string>>, exclude: Option<seq<string>>): seq<Job>
  {
    AllJobs(root, catalog, FilteredRepos(catalog, only, exclude), exclude)
  }

  lemma {:induction false} RepoJobsAt(root: string, repo: Repo, targets: seq<Repo>)
    ensures |RepoJobs(root, repo, targets)| == |targets|
    ensures forall k :: 0 <= k < |targets| ==> RepoJobs(root, repo, targets)[k] == JobFor(root, repo, targets[k])
  {
    if targets != [] {
      RepoJobsAt(root, repo, targets[..|targets| - 1]);
    }
  }

  /** `j` links the `a`-th repository to its `b`-th matched target. */
  predicate PairAt(root: string, catalog: seq<Repo>, repos: seq<Repo>, exclude: Option<seq<string>>, j: Job, a: int, b: int)
  {
    && 0 <= a < |repos| && 0 <= b < |TargetsOf(catalog, repos[a], exclude)|
    && j == JobFor(root, repos[a], TargetsOf(catalog, repos[a], exclude)[b])
  }

  /** The pairs of a run are exactly the (repository, matched target) pairs. */
  lemma {:induction false} AllJobsMembers(root: string, catalog: seq<Repo>, repos: seq<Repo>, exclude: Option<seq<string>>)
    ensures forall j :: j in AllJobs(root, catalog, repos, exclude) <==>
      exists a, b :: PairAt(root, catalog, repos, exclude, j, a, b)
  {
    if repos != [] {
      var n := |repos|;
      var init := repos[..n - 1];
      var targets := TargetsOf(catalog, repos[n - 1], exclude);
      AllJobsMembers(root, catalog, init, exclude);
      RepoJobsAt(root, repos[n - 1], targets);
      forall j | j in AllJobs(root, catalog, repos, exclude)
        ensures exists a, b :: PairAt(root, catalog, repos, exclude, j, a, b)
      {
        if j in AllJobs(root, catalog, init, exclude) {
          var a, b :| PairAt(root, catalog, init, exclude, j, a, b);
          assert init[a] == repos[a];
          assert PairAt(root, catalog, repos, exclude, j, a, b);
        } else {
          var b :| 0 <= b < |targets| && RepoJobs(root, repos[n - 1], targets)[b] == j;
          assert PairAt(root, catalog, repos, exclude, j, n - 1, b);
        }
      }
      forall j, a, b | PairAt(root, catalog, repos, exclude, j, a, b)
        ensures j in AllJobs(root, catalog, repos, exclude)
      {
        if a < n - 1 {
          assert init[a] == repos[a];
          assert PairAt(root, catalog, init, exclude, j, a, b);
        } else {
          assert RepoJobs(root, repos[n - 1], targets)[b] == JobFor(root, repos[a], targets[b]);
        }
      }
    }
  }

  /** A repository with an empty `requires` list gets no pairs. */
  lemma NoRequirementsNoJobs(root: string, catalog: seq<Repo>, repo: Repo, exclude: Option<seq<string>>)
    requires repo.requirements == []
    ensures RepoJobs(root, repo, TargetsOf(catalog, repo, exclude)) == []
  {
    EmptyOnlyKeepsNothing(catalog, exclude);
  }

  lemma LinkAllSnoc(fs: Fs, jobs: seq<Job>, j: Job)
    requires WellFormed(fs)
    ensures LinkAll(fs, jobs + [j])
         == Outcome(LinkPair(LinkAll(fs, jobs).fs, j).fs, LinkAll(fs, jobs).ok && LinkPair(LinkAll(fs, jobs).fs, j).ok)
  {
    assert (jobs + [j])[..|jobs|] == jobs;
  }

  /** The inner `link` helper on the filesystem object. */
  method LinkOne(disk: FileSystem, j: Job) returns (ok: bool)
    requires disk.Valid()
    modifies disk
    ensures disk.Valid()
    ensures Outcome(disk.entries, ok) == LinkPair(old(disk.entries), j)
  {
    var dirs := [j.repoPath, j.targetPath];
    var d := 0;
    while d < |dirs|
      invariant 0 <= d <= |dirs|
      invariant disk.entries == old(disk.entries)
      invariant forall e :: 0 <= e < d ==> dirs[e] in disk.entries
    {
      if !disk.PathExists(dirs[d]) {
        assert dirs[d] == j.repoPath || dirs[d] == j.targetPath;
        return false;
      }
      d := d + 1;
    }
    assert dirs[0] in disk.entries && dirs[1] in disk.entries;
    var packagePath := PackagePath(j);
    disk.Remove(packagePath);
    assert disk.entries == RemoveTree(old(disk.entries), PackagePath(j));
    ok := disk.EnsureSymlink(j.targetPath, packagePath);
  }

  lemma {:induction false} LinkAllAppend(fs: Fs, first: seq<Job>, rest: seq<Job>)
    requires WellFormed(fs)
    ensures LinkAll(fs, first + rest)
         == Outcome(LinkAll(LinkAll(fs, first).fs, rest).fs, LinkAll(fs, first).ok && LinkAll(LinkAll(fs, first).fs, rest).ok)
  {
    if rest == [] {
      assert first + rest == first;
    } else {
      var init := rest[..|rest| - 1];
      var last := rest[|rest| - 1];
      assert rest == init + [last];
      assert first + rest == (first + init) + [last];
      LinkAllAppend(fs, first, init);
      LinkAllSnoc(fs, first + init, last);
      LinkAllSnoc(LinkAll(fs, first).fs, init, last);
    }
  }

  lemma AllJobsSnoc(root: string, catalog: seq<Repo>, repos: seq<Repo>, exclude: Option<seq<string>>, i: int)
    requires 0 <= i < |repos|
    ensures AllJobs(root, catalog, repos[..i + 1], exclude)
         == AllJobs(root, catalog, repos[..i], exclude) + RepoJobs(root, repos[i], TargetsOf(catalog, repos[i], exclude))
  {
    assert repos[..i + 1][..i] == repos[..i];
  }

  /** The inner loop of `link` for one repository: each matched target in turn. */
  method LinkTargets(disk: FileSystem, root: string, repo: Repo, targets: seq<Repo>) returns (ok: bool)
    requires disk.Valid()
    modifies disk
    ensures disk.Valid()
    ensures Outcome(disk.entries, ok) == LinkAll(old(disk.entries), RepoJobs(root, repo, targets))
  {
    ok := true;
    ghost var fs0 := disk.entries;
    var t := 0;
    assert targets[..0] == [];
    while t < |targets|
      invariant 0 <= t <= |targets|
      invariant disk.Valid()
      invariant Outcome(disk.entries, ok) == LinkAll(fs0, RepoJobs(root, repo, targets[..t]))
    {
      var job := JobFor(root, repo, targets[t]);
      LinkAllSnoc(fs0, RepoJobs(root, repo, targets[..t]), job);
      var pairOk := LinkOne(disk, job);
      if !pairOk {
        ok := false;
      }
      assert targets[..t + 1][..t] == targets[..t];
      t := t + 1;
    }
    assert targets[..t] == targets;
  }

  /** `link`: the nested loop over filtered repositories and their targets.
      A failing pair sets `hasErrors` and the loop goes on. */
  method Link(disk: FileSystem, root: string, catalog: seq<Repo>, only: Option<seq<string>>, exclude: Option<seq<string>>)
    returns (ok: bool)
    requires disk.Valid()
    modifies disk
    ensures disk.Valid()
    ensures Outcome(disk.entries, ok) == LinkAll(old(disk.entries), LinkJobs(root, catalog, only, exclude))
  {
    var hasErrors := false;
    var repos := FilteredRepos(catalog, only, exclude);
    ghost var fs0 := disk.entries;
    ghost var jobs: seq<Job> := [];
    var i := 0;
    while i < |repos|
      invariant 0 <= i <= |repos|
      invariant disk.Valid()
      invariant jobs == AllJobs(root, catalog, repos[..i], exclude)
      invariant disk.entries == LinkAll(fs0, jobs).fs && hasErrors == !LinkAll(fs0, jobs).ok
    {
      var repo := repos[i];
      var targets := TargetsOf(catalog, repo, exclude);
      ghost var repoJobs := RepoJobs(root, repo, targets);
      LinkAllAppend(fs0, jobs, repoJobs);
      var repoOk := LinkTargets(disk, root, repo, targets);
      if !repoOk {
        hasErrors := true;
      }
      AllJobsSnoc(root, catalog, repos, exclude, i);
      jobs := jobs + repoJobs;
      i := i + 1;
    }
    assert repos[..i] == repos;
    ok := !hasErrors;
  }
}
