/** What one `link` run leaves behind, and why running it a second time over
    its own result changes nothing and reports the same outcome. */
module LinkRerun {
  import opened Wrappers
  import opened Paths
  import opened Disk
  import opened Tree
  import opened Labels
  import opened Link

  /** No two pairs of a run write package paths nested in one another. */
  predicate Separated(jobs: seq<Job>)
  {
    forall a, b :: 0 <= a < |jobs| && 0 <= b < |jobs| && a != b ==> !Under(PackagePath(jobs[a]), PackagePath(jobs[b]))
  }

  /** No path a pair checks lies in a `node_modules` directory the run writes into. */
  predicate OutsideModules(jobs: seq<Job>)
  {
    forall a, b :: 0 <= a < |jobs| && 0 <= b < |jobs| ==>
      !Under(jobs[a].repoPath, ModulesDir(jobs[b])) && !Under(jobs[a].targetPath, ModulesDir(jobs[b]))
  }

  /** Whether the pair at index `i` succeeded during the run. */
  function StepOk(fs: Fs, jobs: seq<Job>, i: int): bool
    requires WellFormed(fs) && 0 <= i < |jobs|
  {
    LinkPair(LinkAll(fs, jobs[..i]).fs, jobs[i]).ok
  }

  /** A missing ancestor that `ensureSymlink` creates for a pair lies in the
      dependent's `node_modules`: the dependent's own directory and its
      ancestors are already present. */
  lemma CreatedInsideModules(fs: Fs, j: Job, q: string)
    requires WellFormed(fs) && j.repoPath in fs
    requires IsAncestor(q, PackagePath(j)) && q !in fs
    ensures Under(q, ModulesDir(j))
  {
    var r := j.repoPath;
    var p := PackagePath(j);
    var m := ModulesDir(j);
    assert p == r + NodeModules + "/" + j.packageName;
    assert p[..|r|] == r;
    assert p[..|m|] == m;
    if |q| < |r| {
      assert r[..|q|] == p[..|q|];
      assert IsAncestor(q, r);
    } else if |q| > |m| {
      assert q[..|m|] == p[..|m|];
      assert q[|m|] == p[|m|];
    }
  }

  /** One pair touches nothing outside its package path, and every entry it
      adds is the package path or one of its ancestors inside `node_modules`. */
  lemma StepFrame(g: Fs, j: Job)
    requires WellFormed(g)
    ensures forall q :: q in g && !Under(q, PackagePath(j)) ==> q in LinkPair(g, j).fs && LinkPair(g, j).fs[q] == g[q]
    ensures forall q :: q in LinkPair(g, j).fs && q !in g ==>
      (q == PackagePath(j) || IsAncestor(q, PackagePath(j))) && Under(q, ModulesDir(j))
  {
    var o := LinkPair(g, j);
    forall q | q in o.fs && q !in g
      ensures (q == PackagePath(j) || IsAncestor(q, PackagePath(j))) && Under(q, ModulesDir(j))
    {
      if q != PackagePath(j) {
        CreatedInsideModules(g, j, q);
      }
    }
  }

  /** The state a pair leaves behind: on success the package path is the link
      to a target that exists outside it, and nothing lies below it; on failure either a checked path is missing or
      an ancestor of the package path is not a directory and nothing lies at or
      below the package path. */
  ghost predicate Settled(g: Fs, j: Job, ok: bool)
  {
    if ok then
      && j.repoPath in g && j.targetPath in g && !Under(j.targetPath, PackagePath(j))
      && PackagePath(j) in g && g[PackagePath(j)] == Symlink(j.targetPath)
      && (forall q :: q in g && Under(q, PackagePath(j)) ==> q == PackagePath(j))
    else
      || j.repoPath !in g || j.targetPath !in g
      || (&& (exists a :: IsAncestor(a, PackagePath(j)) && a in g && g[a] != Dir)
          && (forall q :: q in g ==> !Under(q, PackagePath(j))))
  }

  /** Linking a pair once settles it. */
  lemma SettledAfterStep(g: Fs, j: Job)
    requires WellFormed(g) && !Under(j.targetPath, ModulesDir(j))
    ensures Settled(LinkPair(g, j).fs, j, LinkPair(g, j).ok)
  {
    var p := PackagePath(j);
    if j.repoPath in g && j.targetPath in g {
      if Under(j.targetPath, p) {
        UnderTransitive(j.targetPath, p, ModulesDir(j));
      }
      var cleared := RemoveTree(g, p);
      var s := SymlinkAt(cleared, j.targetPath, p);
      if !s.ok {
        assert Blocked(cleared, p);
        var a :| a in Ancestors(p) && a in cleared && cleared[a] != Dir;
        assert IsAncestor(a, p) && a in s.fs && s.fs[a] != Dir;
      }
    }
  }

  /** A settled pair stays settled while another, separated pair is linked. */
  lemma SettledPreserved(g: Fs, j: Job, ok: bool, k: Job)
    requires WellFormed(g) && Settled(g, j, ok)
    requires !Under(PackagePath(j), PackagePath(k)) && !Under(PackagePath(k), PackagePath(j))
    requires !Under(j.repoPath, ModulesDir(k)) && !Under(j.targetPath, ModulesDir(k))
    ensures Settled(LinkPair(g, k).fs, j, ok)
  {
    var o := LinkPair(g, k);
    var p := PackagePath(j);
    StepFrame(g, k);
    if Under(j.repoPath, PackagePath(k)) {
      UnderTransitive(j.repoPath, PackagePath(k), ModulesDir(k));
    }
    if Under(j.targetPath, PackagePath(k)) {
      UnderTransitive(j.targetPath, PackagePath(k), ModulesDir(k));
    }
    assert j.repoPath in o.fs <==> j.repoPath in g;
    assert j.targetPath in o.fs <==> j.targetPath in g;
    forall q | q in o.fs && q !in g && Under(q, p)
      ensures false
    {
      if q == PackagePath(k) {
      } else {
        UnderTransitive(PackagePath(k), q, p);
      }
    }
    if ok {
      assert p in o.fs && o.fs[p] == g[p];
    } else if j.repoPath in g && j.targetPath in g {
      var a :| IsAncestor(a, p) && a in g && g[a] != Dir;
      if Under(a, PackagePath(k)) {
        AncestorUnder(a, p, PackagePath(k));
      }
      assert a in o.fs && o.fs[a] != Dir;
    }
  }

  /** Linking a settled pair again changes nothing and reports the same result. */
  lemma SettledFixed(g: Fs, j: Job, ok: bool)
    requires WellFormed(g) && Settled(g, j, ok)
    ensures LinkPair(g, j) == Outcome(g, ok)
  {
    var p := PackagePath(j);
    if j.repoPath in g && j.targetPath in g {
      var cleared := RemoveTree(g, p);
      if ok {
        assert forall q :: q in cleared <==> q in g && q != p;
        forall a | a in Ancestors(p)
          ensures a in cleared && cleared[a] == Dir
        {
          assert a != p;
        }
        assert !Blocked(cleared, p);
        var dirs := map a | a in Ancestors(p) && a !in cleared :: Dir;
        assert dirs == map[];
        assert (dirs + cleared)[p := Symlink(j.targetPath)] == g;
      } else {
        assert cleared == g;
        var a :| IsAncestor(a, p) && a in g && g[a] != Dir;
        assert a in Ancestors(p);
      }
    }
  }

  /** Whether the pair at index `i` is decided the same way within the run
      of any longer prefix. */
  lemma StepOkPrefix(fs: Fs, jobs: seq<Job>, m: int, i: int)
    requires WellFormed(fs) && 0 <= i < m <= |jobs|
    ensures StepOk(fs, jobs[..m], i) == StepOk(fs, jobs, i)
  {
    assert jobs[..m][..i] == jobs[..i];
    assert jobs[..m][i] == jobs[i];
  }

  /** The flag of a non-empty run is that of its first `n - 1` pairs and the last. */
  lemma LinkAllLastOk(fs: Fs, jobs: seq<Job>)
    requires WellFormed(fs) && jobs != []
    ensures LinkAll(fs, jobs).ok == (LinkAll(fs, jobs[..|jobs| - 1]).ok && StepOk(fs, jobs, |jobs| - 1))
  {
  }

  /** A run reports success exactly when every pair succeeded. */
  lemma {:induction false} LinkAllOk(fs: Fs, jobs: seq<Job>)
    requires WellFormed(fs)
    ensures LinkAll(fs, jobs).ok <==> forall i :: 0 <= i < |jobs| ==> StepOk(fs, jobs, i)
  {
    if jobs != [] {
      var n := |jobs|;
      var init := jobs[..n - 1];
      LinkAllOk(fs, init);
      LinkAllLastOk(fs, jobs);
      if LinkAll(fs, jobs).ok {
        forall i | 0 <= i < n
          ensures StepOk(fs, jobs, i)
        {
          if i < n - 1 {
            assert StepOk(fs, init, i);
            StepOkPrefix(fs, jobs, n - 1, i);
          }
        }
      } else if StepOk(fs, jobs, n - 1) {
        var i :| 0 <= i < n - 1 && !StepOk(fs, init, i);
        StepOkPrefix(fs, jobs, n - 1, i);
      }
    }
  }

  /** The two pairs cannot disturb one another's checks and package paths. */
  predicate Apart(j: Job, k: Job)
  {
    && !Under(PackagePath(j), PackagePath(k)) && !Under(PackagePath(k), PackagePath(j))
    && !Under(j.repoPath, ModulesDir(k)) && !Under(j.targetPath, ModulesDir(k))
  }

  /** A settled pair stays settled through a run of pairs apart from it. */
  lemma {:induction false} SettledRest(g: Fs, rest: seq<Job>, j: Job, ok: bool)
    requires WellFormed(g) && Settled(g, j, ok)
    requires forall b :: 0 <= b < |rest| ==> Apart(j, rest[b])
    ensures Settled(LinkAll(g, rest).fs, j, ok)
  {
    if rest != [] {
      var n := |rest|;
      SettledRest(g, rest[..n - 1], j, ok);
      assert Apart(j, rest[n - 1]);
      SettledPreserved(LinkAll(g, rest[..n - 1]).fs, j, ok, rest[n - 1]);
    }
  }

  /** In a separated run, pair `i` is apart from every later pair. */
  lemma ApartFromLater(jobs: seq<Job>, i: int, rest: seq<Job>)
    requires Separated(jobs) && OutsideModules(jobs) && 0 <= i < |jobs|
    requires rest == jobs[i + 1..]
    ensures forall b :: 0 <= b < |rest| ==> Apart(jobs[i], rest[b])
  {
    forall b | 0 <= b < |rest|
      ensures Apart(jobs[i], rest[b])
    {
      assert rest[b] == jobs[i + 1 + b];
    }
  }

  /** Pair `i` is settled right after it is linked. */
  lemma SettledAfterOwnStep(fs: Fs, jobs: seq<Job>, i: int)
    requires WellFormed(fs) && OutsideModules(jobs) && 0 <= i < |jobs|
    ensures Settled(LinkAll(fs, jobs[..i + 1]).fs, jobs[i], StepOk(fs, jobs, i))
  {
    assert jobs[..i + 1] == jobs[..i] + [jobs[i]];
    LinkAllSnoc(fs, jobs[..i], jobs[i]);
    assert !Under(jobs[i].targetPath, ModulesDir(jobs[i]));
    SettledAfterStep(LinkAll(fs, jobs[..i]).fs, jobs[i]);
  }

  /** A run is its first `m` pairs followed by the rest. */
  lemma LinkAllSplit(fs: Fs, jobs: seq<Job>, m: int)
    requires WellFormed(fs) && 0 <= m <= |jobs|
    ensures LinkAll(fs, jobs).fs == LinkAll(LinkAll(fs, jobs[..m]).fs, jobs[m..]).fs
  {
    assert jobs == jobs[..m] + jobs[m..];
    LinkAllAppend(fs, jobs[..m], jobs[m..]);
  }

  /** Each pair, once linked, stays settled to the end of the run. */
  lemma SettledAtEnd(fs: Fs, jobs: seq<Job>, i: int)
    requires WellFormed(fs) && Separated(jobs) && OutsideModules(jobs)
    requires 0 <= i < |jobs|
    ensures Settled(LinkAll(fs, jobs).fs, jobs[i], StepOk(fs, jobs, i))
  {
    var mid := LinkAll(fs, jobs[..i + 1]).fs;
    var rest := jobs[i + 1..];
    SettledAfterOwnStep(fs, jobs, i);
    ApartFromLater(jobs, i, rest);
    SettledRest(mid, rest, jobs[i], StepOk(fs, jobs, i));
    LinkAllSplit(fs, jobs, i + 1);
  }

  /** Linking any pair of the run again over its final state changes nothing
      and reports what that pair reported during the run. */
  lemma FixedAtEnd(fs: Fs, jobs: seq<Job>, i: int)
    requires WellFormed(fs) && Separated(jobs) && OutsideModules(jobs)
    requires 0 <= i < |jobs|
    ensures LinkPair(LinkAll(fs, jobs).fs, jobs[i]) == Outcome(LinkAll(fs, jobs).fs, StepOk(fs, jobs, i))
  {
    SettledAtEnd(fs, jobs, i);
    SettledFixed(LinkAll(fs, jobs).fs, jobs[i], StepOk(fs, jobs, i));
  }

  /** The flag of the first `k` pairs is that of the first `k - 1` and pair `k - 1`. */
  lemma PrefixOk(fs: Fs, jobs: seq<Job>, k: int)
    requires WellFormed(fs) && 0 < k <= |jobs|
    ensures LinkAll(fs, jobs[..k]).ok == (LinkAll(fs, jobs[..k - 1]).ok && StepOk(fs, jobs, k - 1))
  {
    assert jobs[..k] == jobs[..k - 1] + [jobs[k - 1]];
    LinkAllSnoc(fs, jobs[..k - 1], jobs[k - 1]);
  }

  /** Pairs that each leave `g` as it is leave it as it is together. */
  lemma FixedSnoc(g: Fs, init: seq<Job>, j: Job, okInit: bool, okLast: bool)
    requires WellFormed(g)
    requires LinkAll(g, init) == Outcome(g, okInit)
    requires LinkPair(g, j) == Outcome(g, okLast)
    ensures LinkAll(g, init + [j]) == Outcome(g, okInit && okLast)
  {
    LinkAllSnoc(g, init, j);
  }

  /** Replaying the first `k` pairs over the final state leaves it as it is. */
  lemma {:induction false} ReplayPrefix(fs: Fs, jobs: seq<Job>, k: int)
    requires WellFormed(fs) && Separated(jobs) && OutsideModules(jobs)
    requires 0 <= k <= |jobs|
    ensures LinkAll(LinkAll(fs, jobs).fs, jobs[..k]) == Outcome(LinkAll(fs, jobs).fs, LinkAll(fs, jobs[..k]).ok)
  {
    var last := LinkAll(fs, jobs).fs;
    if k > 0 {
      ReplayPrefix(fs, jobs, k - 1);
      FixedAtEnd(fs, jobs, k - 1);
      PrefixOk(fs, jobs, k);
      FixedSnoc(last, jobs[..k - 1], jobs[k - 1], LinkAll(fs, jobs[..k - 1]).ok, StepOk(fs, jobs, k - 1));
      assert jobs[..k] == jobs[..k - 1] + [jobs[k - 1]];
    }
  }

  /** Running `link` again over the filesystem it produced changes nothing and
      returns the same result. */
  lemma LinkAllIdempotent(fs: Fs, jobs: seq<Job>)
    requires WellFormed(fs) && Separated(jobs) && OutsideModules(jobs)
    ensures LinkAll(LinkAll(fs, jobs).fs, jobs) == LinkAll(fs, jobs)
  {
    ReplayPrefix(fs, jobs, |jobs|);
    assert jobs[..|jobs|] == jobs;
  }

  /** Entries no pair's package path covers keep their value through the run,
      and every entry the run adds lies in some dependent's `node_modules`. */
  lemma {:induction false} LinkAllFrame(fs: Fs, jobs: seq<Job>, k: int)
    requires WellFormed(fs) && 0 <= k <= |jobs|
    ensures forall q :: q in fs && (forall b :: 0 <= b < |jobs| ==> !Under(q, PackagePath(jobs[b]))) ==>
      q in LinkAll(fs, jobs[..k]).fs && LinkAll(fs, jobs[..k]).fs[q] == fs[q]
    ensures forall q :: q in LinkAll(fs, jobs[..k]).fs && q !in fs ==>
      exists b :: 0 <= b < |jobs| && Under(q, ModulesDir(jobs[b]))
  {
    if k > 0 {
      LinkAllFrame(fs, jobs, k - 1);
      var before := LinkAll(fs, jobs[..k - 1]).fs;
      assert jobs[..k][..k - 1] == jobs[..k - 1];
      StepFrame(before, jobs[k - 1]);
    }
  }

  /** A path outside every `node_modules` the run writes is present at any
      point of the run exactly when it was present at the start. */
  lemma PresenceKept(fs: Fs, jobs: seq<Job>, k: int, c: string)
    requires WellFormed(fs) && 0 <= k <= |jobs|
    requires forall b :: 0 <= b < |jobs| ==> !Under(c, ModulesDir(jobs[b]))
    ensures c in LinkAll(fs, jobs[..k]).fs <==> c in fs
  {
    LinkAllFrame(fs, jobs, k);
    forall b | 0 <= b < |jobs|
      ensures !Under(c, PackagePath(jobs[b]))
    {
      if Under(c, PackagePath(jobs[b])) {
        UnderTransitive(c, PackagePath(jobs[b]), ModulesDir(jobs[b]));
      }
    }
  }

  /** A pair succeeds exactly when both its directories existed before the run
      and its package path is a link to its target afterwards. */
  lemma LinkAllEffect(fs: Fs, jobs: seq<Job>, i: int)
    requires WellFormed(fs) && Separated(jobs) && OutsideModules(jobs)
    requires 0 <= i < |jobs|
    ensures StepOk(fs, jobs, i) <==>
      && jobs[i].repoPath in fs && jobs[i].targetPath in fs
      && PackagePath(jobs[i]) in LinkAll(fs, jobs).fs
      && LinkAll(fs, jobs).fs[PackagePath(jobs[i])] == Symlink(jobs[i].targetPath)
  {
    assert jobs[..|jobs|] == jobs;
    SettledAtEnd(fs, jobs, i);
    PresenceKept(fs, jobs, |jobs|, jobs[i].repoPath);
    PresenceKept(fs, jobs, |jobs|, jobs[i].targetPath);
  }
}
