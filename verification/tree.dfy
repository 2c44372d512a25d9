/** The repository catalog: a nested `side -> scope -> name -> leaf` object,
    flattened into the list of repository descriptors every command filters.
    A JavaScript object is a sequence of key/value pairs in key-iteration order. */
module Tree {
  import opened Wrappers
  import opened Strings

  /** One leaf of the catalog: the attributes written for a repository. */
  datatype Leaf = Leaf(package: Option<string>, url: Option<string>, requirements: Option<seq<string>>)

  type Names = seq<(string, Leaf)>
  type Scopes = seq<(string, Names)>
  type ReposTree = seq<(string, Scopes)>

  /** A repository descriptor, with its fields in the order the source creates them. */
  datatype Repo = Repo(
    side: string,
    scope: string,
    name: string,
    uri: string,
    package: Option<string>,
    url: Option<string>,
    requirements: seq<string>)

  /** The descriptor pushed for the leaf at `side/scope/name`. */
  function Describe(side: string, scope: string, name: string, leaf: Leaf): Repo
  {
    Repo(side, scope, name, Join([side, scope, name], "/"), leaf.package, leaf.url,
         if leaf.requirements.Some? then leaf.requirements.value else [])
  }

  // ----- the flattened catalog, as a reference definition -----

  function ScopeRepos(side: string, scope: string, names: Names): seq<Repo>
  {
    if names == [] then []
    else
      var last := names[|names| - 1];
      ScopeRepos(side, scope, names[..|names| - 1]) + [Describe(side, scope, last.0, last.1)]
  }

  function SideRepos(side: string, scopes: Scopes): seq<Repo>
  {
    if scopes == [] then []
    else
      var last := scopes[|scopes| - 1];
      SideRepos(side, scopes[..|scopes| - 1]) + ScopeRepos(side, last.0, last.1)
  }

  function Catalog(tree: ReposTree): seq<Repo>
  {
    if tree == [] then []
    else
      var last := tree[|tree| - 1];
      Catalog(tree[..|tree| - 1]) + SideRepos(last.0, last.1)
  }

  // ----- leaf counting: where each leaf's descriptor sits -----

  function ScopesLeaves(scopes: Scopes): nat
  {
    if scopes == [] then 0 else ScopesLeaves(scopes[..|scopes| - 1]) + |scopes[|scopes| - 1].1|
  }

  function TreeLeaves(tree: ReposTree): nat
  {
    if tree == [] then 0 else TreeLeaves(tree[..|tree| - 1]) + ScopesLeaves(tree[|tree| - 1].1)
  }

  /** Number of leaves that come before scope `j` of side `i`. */
  function LeavesBefore(tree: ReposTree, i: nat, j: nat): nat
    requires i < |tree| && j <= |tree[i].1|
  {
    TreeLeaves(tree[..i]) + ScopesLeaves(tree[i].1[..j])
  }

  lemma Join3(a: string, b: string, c: string)
    ensures Join([a, b, c], "/") == a + "/" + b + "/" + c
  {
    assert [a, b, c][..2] == [a, b];
    assert [a, b][..1] == [a];
    assert Join([a], "/") == a;
    assert Join([a, b], "/") == a + "/" + b;
  }

  lemma ScopeReposSnoc(side: string, scope: string, names: Names, k: nat)
    requires k < |names|
    ensures ScopeRepos(side, scope, names[..k + 1])
         == ScopeRepos(side, scope, names[..k]) + [Describe(side, scope, names[k].0, names[k].1)]
  {
    assert names[..k + 1][..k] == names[..k];
  }

  lemma SideReposSnoc(side: string, scopes: Scopes, j: nat)
    requires j < |scopes|
    ensures SideRepos(side, scopes[..j + 1])
         == SideRepos(side, scopes[..j]) + ScopeRepos(side, scopes[j].0, scopes[j].1)
  {
    assert scopes[..j + 1][..j] == scopes[..j];
  }

  lemma CatalogSnoc(tree: ReposTree, i: nat)
    requires i < |tree|
    ensures Catalog(tree[..i + 1]) == Catalog(tree[..i]) + SideRepos(tree[i].0, tree[i].1)
  {
    assert tree[..i + 1][..i] == tree[..i];
  }

  /** The flattening loop of the source: three nested loops pushing one
      descriptor per leaf onto `repos`; the two inner loops are `PushSide` and
      `PushScope`. */
  method Flatten(tree: ReposTree) returns (repos: seq<Repo>)
    ensures repos == Catalog(tree)
  {
    repos := [];
    var i := 0;
    while i < |tree|
      invariant 0 <= i <= |tree|
      invariant repos == Catalog(tree[..i])
    {
      repos := PushSide(repos, tree[i].0, tree[i].1);
      CatalogSnoc(tree, i);
      i := i + 1;
    }
    assert tree[..i] == tree;
  }

  /** The loop over the scopes of one side. */
  method PushSide(repos: seq<Repo>, side: string, scopes: Scopes) returns (out: seq<Repo>)
    ensures out == repos + SideRepos(side, scopes)
  {
    out := repos;
    var j := 0;
    while j < |scopes|
      invariant 0 <= j <= |scopes|
      invariant out == repos + SideRepos(side, scopes[..j])
    {
      out := PushScope(out, side, scopes[j].0, scopes[j].1);
      SideReposSnoc(side, scopes, j);
      j := j + 1;
    }
    assert scopes[..j] == scopes;
  }

  /** The loop over the names of one scope, one push per leaf. */
  method PushScope(repos: seq<Repo>, side: string, scope: string, names: Names) returns (out: seq<Repo>)
    ensures out == repos + ScopeRepos(side, scope, names)
  {
    out := repos;
    var k := 0;
    while k < |names|
      invariant 0 <= k <= |names|
      invariant out == repos + ScopeRepos(side, scope, names[..k])
    {
      ScopeReposSnoc(side, scope, names, k);
      out := out + [Describe(side, scope, names[k].0, names[k].1)];
      k := k + 1;
    }
    assert names[..k] == names;
  }

  // ----- one descriptor per leaf, in side, scope, name order -----

  lemma {:induction false} ScopeReposAt(side: string, scope: string, names: Names, k: nat)
    requires k < |names|
    ensures |ScopeRepos(side, scope, names)| == |names|
    ensures ScopeRepos(side, scope, names)[k] == Describe(side, scope, names[k].0, names[k].1)
  {
    var n := |names|;
    ScopeReposLength(side, scope, names[..n - 1]);
    if k < n - 1 {
      ScopeReposAt(side, scope, names[..n - 1], k);
    }
  }

  lemma {:induction false} ScopeReposLength(side: string, scope: string, names: Names)
    ensures |ScopeRepos(side, scope, names)| == |names|
  {
    if names != [] {
      ScopeReposLength(side, scope, names[..|names| - 1]);
    }
  }

  lemma {:induction false} SideReposLength(side: string, scopes: Scopes)
    ensures |SideRepos(side, scopes)| == ScopesLeaves(scopes)
  {
    if scopes != [] {
      var n := |scopes|;
      SideReposLength(side, scopes[..n - 1]);
      ScopeReposLength(side, scopes[n - 1].0, scopes[n - 1].1);
    }
  }

  lemma {:induction false} CatalogLength(tree: ReposTree)
    ensures |Catalog(tree)| == TreeLeaves(tree)
  {
    if tree != [] {
      var n := |tree|;
      CatalogLength(tree[..n - 1]);
      SideReposLength(tree[n - 1].0, tree[n - 1].1);
    }
  }

  lemma {:induction false} SideReposAt(side: string, scopes: Scopes, j: nat, k: nat)
    requires j < |scopes| && k < |scopes[j].1|
    ensures ScopesLeaves(scopes[..j]) + k < |SideRepos(side, scopes)|
    ensures SideRepos(side, scopes)[ScopesLeaves(scopes[..j]) + k]
         == Describe(side, scopes[j].0, scopes[j].1[k].0, scopes[j].1[k].1)
  {
    var n := |scopes|;
    var init := scopes[..n - 1];
    var last := scopes[n - 1];
    assert SideRepos(side, scopes) == SideRepos(side, init) + ScopeRepos(side, last.0, last.1);
    SideReposLength(side, init);
    if j < n - 1 {
      assert init[..j] == scopes[..j] && init[j] == scopes[j];
      SideReposAt(side, init, j, k);
    } else {
      assert scopes[..j] == init;
      ScopeReposAt(side, last.0, last.1, k);
    }
  }

  lemma {:induction false} ScopesLeavesMonotone(scopes: Scopes, m: nat)
    requires m <= |scopes|
    ensures ScopesLeaves(scopes[..m]) <= ScopesLeaves(scopes)
    ensures 0 < m ==> ScopesLeaves(scopes[..m - 1]) + |scopes[m - 1].1| <= ScopesLeaves(scopes)
  {
    if m < |scopes| {
      var n := |scopes|;
      assert scopes[..n - 1][..m] == scopes[..m];
      if 0 < m {
        assert scopes[..n - 1][..m - 1] == scopes[..m - 1];
        assert scopes[..n - 1][m - 1] == scopes[m - 1];
      }
      ScopesLeavesMonotone(scopes[..n - 1], m);
    } else {
      assert scopes[..m] == scopes;
      if 0 < m {
        assert scopes[..m - 1] == scopes[..|scopes| - 1];
      }
    }
  }

  lemma {:induction false} TreeLeavesMonotone(tree: ReposTree, m: nat)
    requires m < |tree|
    ensures TreeLeaves(tree[..m]) + ScopesLeaves(tree[m].1) <= TreeLeaves(tree)
  {
    var n := |tree|;
    if m < n - 1 {
      assert tree[..n - 1][..m] == tree[..m];
      TreeLeavesMonotone(tree[..n - 1], m);
    } else {
      assert tree[..m] == tree[..n - 1];
    }
  }

  lemma {:induction false} CatalogIndex(tree: ReposTree, i: nat, j: nat, k: nat)
    requires i < |tree| && j < |tree[i].1| && k < |tree[i].1[j].1|
    ensures LeavesBefore(tree, i, j) + k < |Catalog(tree)|
    ensures Catalog(tree)[LeavesBefore(tree, i, j) + k]
         == Describe(tree[i].0, tree[i].1[j].0, tree[i].1[j].1[k].0, tree[i].1[j].1[k].1)
  {
    var n := |tree|;
    var init := tree[..n - 1];
    var last := tree[n - 1];
    var before, after := Catalog(init), SideRepos(last.0, last.1);
    var d := Describe(tree[i].0, tree[i].1[j].0, tree[i].1[j].1[k].0, tree[i].1[j].1[k].1);
    var p := LeavesBefore(tree, i, j) + k;
    assert Catalog(tree) == before + after;
    if i < n - 1 {
      assert p < |before| && before[p] == d by {
        assert init[..i] == tree[..i] && init[i] == tree[i];
        CatalogIndex(init, i, j, k);
        assert LeavesBefore(init, i, j) == LeavesBefore(tree, i, j);
      }
      assert (before + after)[p] == before[p];
    } else {
      assert p == |before| + ScopesLeaves(last.1[..j]) + k by {
        assert tree[..i] == init;
        CatalogLength(init);
      }
      assert p - |before| < |after| && after[p - |before|] == d by {
        SideReposAt(last.0, last.1, j, k);
      }
      assert (before + after)[p] == after[p - |before|];
    }
  }

  /** Exactly one descriptor per leaf: the catalog has as many entries as the
      tree has leaves, and the leaf at side `i`, scope `j`, name `k` sits at
      position `LeavesBefore(tree, i, j) + k`, with its keys as `side`, `scope`
      and `name`, `uri` their slash-join, `package` and `url` copied and
      `requires` defaulting to the empty list. */
  lemma CatalogAt(tree: ReposTree, i: nat, j: nat, k: nat)
    requires i < |tree| && j < |tree[i].1| && k < |tree[i].1[j].1|
    ensures |Catalog(tree)| == TreeLeaves(tree)
    ensures LeavesBefore(tree, i, j) + k < |Catalog(tree)|
    ensures
      var r := Catalog(tree)[LeavesBefore(tree, i, j) + k];
      var leaf := tree[i].1[j].1[k].1;
      && r.side == tree[i].0 && r.scope == tree[i].1[j].0 && r.name == tree[i].1[j].1[k].0
      && r.uri == r.side + "/" + r.scope + "/" + r.name
      && r.package == leaf.package && r.url == leaf.url
      && r.requirements == (if leaf.requirements.None? then [] else leaf.requirements.value)
  {
    CatalogLength(tree);
    CatalogIndex(tree, i, j, k);
    Join3(tree[i].0, tree[i].1[j].0, tree[i].1[j].1[k].0);
  }

  /** Positions of distinct leaves are distinct and ordered by side, then scope,
      then name: a later scope of the same side, or a later side, starts after
      every leaf of an earlier one. */
  lemma LeavesBeforeOrdered(tree: ReposTree, i: nat, j: nat, i': nat, j': nat)
    requires i < |tree| && j < |tree[i].1| && i' < |tree| && j' <= |tree[i'].1|
    requires i < i' || (i == i' && j < j')
    ensures LeavesBefore(tree, i, j) + |tree[i].1[j].1| <= LeavesBefore(tree, i', j')
  {
    ScopesLeavesMonotone(tree[i].1, j + 1);
    assert tree[i].1[..j + 1][..j] == tree[i].1[..j];
    if i < i' {
      TreeLeavesMonotone(tree[..i'], i);
      assert tree[..i'][..i] == tree[..i];
      ScopesLeavesMonotone(tree[i].1, |tree[i].1|);
      assert tree[i].1[..|tree[i].1|] == tree[i].1;
    } else {
      ScopesLeavesMonotone(tree[i].1[..j'], j + 1);
      assert tree[i].1[..j'][..j + 1] == tree[i].1[..j + 1];
    }
  }
}

/** Uniqueness of `uri` across the catalog, which the join construction gives
    when keys are distinct at each level and free of `/`. */
module TreeUris {
  import opened Strings
  import opened Tree

  predicate DistinctKeys<T>(s: seq<(string, T)>)
  {
    forall a, b :: 0 <= a < b < |s| ==> s[a].0 != s[b].0
  }

  /** The scopes of one side, and the names of each scope, have distinct keys. */
  predicate DistinctScopes(scopes: Scopes)
  {
    DistinctKeys(scopes) && forall j :: 0 <= j < |scopes| ==> DistinctKeys(scopes[j].1)
  }

  /** Keys are distinct at every level of the tree, as the keys of a
      JavaScript object always are. */
  predicate DistinctTree(tree: ReposTree)
  {
    DistinctKeys(tree) && forall i :: 0 <= i < |tree| ==> DistinctScopes(tree[i].1)
  }

  predicate SlashFree(s: string)
  {
    NoneOf(s, {'/'})
  }

  /** No key at any level of the tree contains `/`. */
  predicate SlashFreeTree(tree: ReposTree)
  {
    forall i, j, k :: 0 <= i < |tree| && 0 <= j < |tree[i].1| && 0 <= k < |tree[i].1[j].1| ==>
      SlashFree(tree[i].0) && SlashFree(tree[i].1[j].0) && SlashFree(tree[i].1[j].1[k].0)
  }

  /** Keys are distinct at every level of the tree and contain no `/`. */
  predicate WellKeyed(tree: ReposTree)
  {
    DistinctTree(tree) && SlashFreeTree(tree)
  }

  /** The descriptor's `uri` is the slash-join of its three keys. */
  predicate JoinedUri(r: Repo)
  {
    r.uri == Join([r.side, r.scope, r.name], "/")
  }

  /** The descriptor's keys are slash-free and its `uri` is their join. */
  predicate KeyedPath(r: Repo)
  {
    SlashFree(r.side) && SlashFree(r.scope) && SlashFree(r.name) && JoinedUri(r)
  }

  /** The descriptor's scope and name are the key of one of `scopes` and the
      key of one of that scope's names. */
  predicate InScopes(r: Repo, scopes: Scopes)
  {
    exists j, k :: 0 <= j < |scopes| && 0 <= k < |scopes[j].1|
      && r.scope == scopes[j].0 && r.name == scopes[j].1[k].0
  }

  /** The descriptor's side, scope and name are the keys along one path of the tree. */
  predicate OnPath(r: Repo, tree: ReposTree)
  {
    exists i, j, k :: 0 <= i < |tree| && 0 <= j < |tree[i].1| && 0 <= k < |tree[i].1[j].1|
      && r.side == tree[i].0 && r.scope == tree[i].1[j].0 && r.name == tree[i].1[j].1[k].0
  }

  /** Every leaf of a scope carries the side's and the scope's key, the key of
      one of the names, and their join as `uri`. */
  lemma ScopeReposMembers(side: string, scope: string, names: Names)
    ensures forall a :: 0 <= a < |ScopeRepos(side, scope, names)| ==>
      && ScopeRepos(side, scope, names)[a].side == side
      && ScopeRepos(side, scope, names)[a].scope == scope
      && JoinedUri(ScopeRepos(side, scope, names)[a])
      && exists k :: 0 <= k < |names| && ScopeRepos(side, scope, names)[a].name == names[k].0
  {
    var rs := ScopeRepos(side, scope, names);
    ScopeReposLength(side, scope, names);
    forall a | 0 <= a < |rs|
      ensures rs[a] == Describe(side, scope, names[a].0, names[a].1)
    {
      ScopeReposAt(side, scope, names, a);
    }
  }

  /** No two leaves of a scope share a name. */
  lemma ScopeReposDistinct(side: string, scope: string, names: Names)
    requires DistinctKeys(names)
    ensures forall a, b :: 0 <= a < b < |ScopeRepos(side, scope, names)| ==>
      ScopeRepos(side, scope, names)[a].name != ScopeRepos(side, scope, names)[b].name
  {
    var rs := ScopeRepos(side, scope, names);
    ScopeReposLength(side, scope, names);
    forall a | 0 <= a < |rs|
      ensures rs[a] == Describe(side, scope, names[a].0, names[a].1)
    {
      ScopeReposAt(side, scope, names, a);
    }
  }

  /** Every leaf of a side carries the side's key, the keys of one of its
      scopes and of one of that scope's names, and their join as `uri`. */
  lemma {:induction false} SideReposMembers(side: string, scopes: Scopes)
    ensures forall a :: 0 <= a < |SideRepos(side, scopes)| ==>
      && SideRepos(side, scopes)[a].side == side
      && JoinedUri(SideRepos(side, scopes)[a])
      && InScopes(SideRepos(side, scopes)[a], scopes)
  {
    if scopes == [] {
      assert SideRepos(side, scopes) == [];
    } else {
      var n := |scopes|;
      var init := scopes[..n - 1];
      var last := scopes[n - 1];
      SideReposMembers(side, init);
      ScopeReposMembers(side, last.0, last.1);
      var p := SideRepos(side, init);
      var q := ScopeRepos(side, last.0, last.1);
      var rs := SideRepos(side, scopes);
      assert rs == p + q;
      forall a | 0 <= a < |rs|
        ensures rs[a].side == side && JoinedUri(rs[a]) && InScopes(rs[a], scopes)
      {
        if a < |p| {
          assert rs[a] == p[a];
          assert InScopes(p[a], init);
          var j, k :| 0 <= j < |init| && 0 <= k < |init[j].1|
            && p[a].scope == init[j].0 && p[a].name == init[j].1[k].0;
          assert init[j] == scopes[j];
          assert 0 <= j < |scopes| && 0 <= k < |scopes[j].1|
            && rs[a].scope == scopes[j].0 && rs[a].name == scopes[j].1[k].0;
        } else {
          assert rs[a] == q[a - |p|];
          var k :| 0 <= k < |last.1| && q[a - |p|].name == last.1[k].0;
          assert 0 <= n - 1 < |scopes| && 0 <= k < |scopes[n - 1].1|
            && rs[a].scope == scopes[n - 1].0 && rs[a].name == scopes[n - 1].1[k].0;
        }
      }
    }
  }

  /** No two descriptors share both scope and name. */
  predicate ScopedNamesDistinct(rs: seq<Repo>)
  {
    forall a, b :: 0 <= a < b < |rs| ==> (rs[a].scope, rs[a].name) != (rs[b].scope, rs[b].name)
  }

  /** No two descriptors share side, scope and name. */
  predicate PathsDistinct(rs: seq<Repo>)
  {
    forall a, b :: 0 <= a < b < |rs| ==> (rs[a].side, rs[a].scope, rs[a].name) != (rs[b].side, rs[b].scope, rs[b].name)
  }

  lemma ScopedNamesDistinctAppend(p: seq<Repo>, q: seq<Repo>)
    requires ScopedNamesDistinct(p) && ScopedNamesDistinct(q)
    requires forall a, b :: 0 <= a < |p| && 0 <= b < |q| ==> p[a].scope != q[b].scope
    ensures ScopedNamesDistinct(p + q)
  {
    var rs := p + q;
    forall a, b | 0 <= a < b < |rs|
      ensures (rs[a].scope, rs[a].name) != (rs[b].scope, rs[b].name)
    {
      if b < |p| {
        assert rs[a] == p[a] && rs[b] == p[b];
      } else if a >= |p| {
        assert rs[a] == q[a - |p|] && rs[b] == q[b - |p|];
      } else {
        assert rs[a] == p[a] && rs[b] == q[b - |p|];
      }
    }
  }

  lemma PathsDistinctAppend(p: seq<Repo>, q: seq<Repo>)
    requires PathsDistinct(p) && PathsDistinct(q)
    requires forall a, b :: 0 <= a < |p| && 0 <= b < |q| ==> p[a].side != q[b].side
    ensures PathsDistinct(p + q)
  {
    var rs := p + q;
    forall a, b | 0 <= a < b < |rs|
      ensures (rs[a].side, rs[a].scope, rs[a].name) != (rs[b].side, rs[b].scope, rs[b].name)
    {
      if b < |p| {
        assert rs[a] == p[a] && rs[b] == p[b];
      } else if a >= |p| {
        assert rs[a] == q[a - |p|] && rs[b] == q[b - |p|];
      } else {
        assert rs[a] == p[a] && rs[b] == q[b - |p|];
      }
    }
  }

  /** When the last scope's key is new, every leaf of the earlier scopes has
      another scope key. */
  lemma EarlierScopesApart(side: string, init: Scopes, key: string)
    requires forall j :: 0 <= j < |init| ==> init[j].0 != key
    ensures forall a :: 0 <= a < |SideRepos(side, init)| ==> SideRepos(side, init)[a].scope != key
  {
    var p := SideRepos(side, init);
    SideReposMembers(side, init);
    forall a | 0 <= a < |p|
      ensures p[a].scope != key
    {
      assert InScopes(p[a], init);
    }
  }

  /** No two leaves of a side share both scope and name. */
  lemma {:induction false} SideReposDistinct(side: string, scopes: Scopes)
    requires DistinctScopes(scopes)
    ensures ScopedNamesDistinct(SideRepos(side, scopes))
  {
    if scopes == [] {
      assert SideRepos(side, scopes) == [];
    } else {
      var n := |scopes|;
      var init := scopes[..n - 1];
      var last := scopes[n - 1];
      assert DistinctScopes(init);
      assert DistinctKeys(last.1);
      SideReposDistinct(side, init);
      ScopeReposMembers(side, last.0, last.1);
      ScopeReposDistinct(side, last.0, last.1);
      assert forall j :: 0 <= j < |init| ==> init[j].0 != last.0;
      EarlierScopesApart(side, init, last.0);
      ScopedNamesDistinctAppend(SideRepos(side, init), ScopeRepos(side, last.0, last.1));
    }
  }

  /** Every leaf of the catalog carries the keys along one path of the tree,
      and their join as `uri`. */
  lemma {:induction false} CatalogMembers(tree: ReposTree)
    ensures forall a :: 0 <= a < |Catalog(tree)| ==>
      && JoinedUri(Catalog(tree)[a])
      && OnPath(Catalog(tree)[a], tree)
  {
    if tree == [] {
      assert Catalog(tree) == [];
    } else {
      var n := |tree|;
      var init := tree[..n - 1];
      var last := tree[n - 1];
      CatalogMembers(init);
      SideReposMembers(last.0, last.1);
      var p := Catalog(init);
      var q := SideRepos(last.0, last.1);
      var rs := Catalog(tree);
      assert rs == p + q;
      forall a | 0 <= a < |rs|
        ensures JoinedUri(rs[a]) && OnPath(rs[a], tree)
      {
        if a < |p| {
          assert rs[a] == p[a];
          assert OnPath(p[a], init);
          var i, j, k :| 0 <= i < |init| && 0 <= j < |init[i].1| && 0 <= k < |init[i].1[j].1|
            && p[a].side == init[i].0 && p[a].scope == init[i].1[j].0 && p[a].name == init[i].1[j].1[k].0;
          assert init[i] == tree[i];
          assert 0 <= i < |tree| && 0 <= j < |tree[i].1| && 0 <= k < |tree[i].1[j].1|
            && rs[a].side == tree[i].0 && rs[a].scope == tree[i].1[j].0 && rs[a].name == tree[i].1[j].1[k].0;
        } else {
          assert rs[a] == q[a - |p|];
          assert InScopes(q[a - |p|], last.1);
          var j, k :| 0 <= j < |last.1| && 0 <= k < |last.1[j].1|
            && q[a - |p|].scope == last.1[j].0 && q[a - |p|].name == last.1[j].1[k].0;
          assert 0 <= n - 1 < |tree| && 0 <= j < |tree[n - 1].1| && 0 <= k < |tree[n - 1].1[j].1|
            && rs[a].side == tree[n - 1].0 && rs[a].scope == tree[n - 1].1[j].0
            && rs[a].name == tree[n - 1].1[j].1[k].0;
        }
      }
    }
  }

  /** When the last side's key is new, every leaf of the earlier sides has
      another side key. */
  lemma EarlierSidesApart(init: ReposTree, key: string)
    requires forall i :: 0 <= i < |init| ==> init[i].0 != key
    ensures forall a :: 0 <= a < |Catalog(init)| ==> Catalog(init)[a].side != key
  {
    var p := Catalog(init);
    CatalogMembers(init);
    forall a | 0 <= a < |p|
      ensures p[a].side != key
    {
      assert OnPath(p[a], init);
    }
  }

  /** No two leaves of the catalog share side, scope and name. */
  lemma {:induction false} CatalogDistinct(tree: ReposTree)
    requires DistinctTree(tree)
    ensures PathsDistinct(Catalog(tree))
  {
    if tree == [] {
      assert Catalog(tree) == [];
    } else {
      var n := |tree|;
      var init := tree[..n - 1];
      var last := tree[n - 1];
      assert DistinctTree(init);
      assert DistinctScopes(last.1);
      CatalogDistinct(init);
      SideReposDistinct(last.0, last.1);
      SideReposMembers(last.0, last.1);
      assert forall i :: 0 <= i < |init| ==> init[i].0 != last.0;
      EarlierSidesApart(init, last.0);
      PathsDistinctAppend(Catalog(init), SideRepos(last.0, last.1));
    }
  }

  /** In a tree whose keys contain no `/`, every descriptor has slash-free keys
      and their join as `uri`. */
  lemma CatalogKeyed(tree: ReposTree)
    requires SlashFreeTree(tree)
    ensures forall a :: 0 <= a < |Catalog(tree)| ==> KeyedPath(Catalog(tree)[a])
  {
    var rs := Catalog(tree);
    CatalogMembers(tree);
    forall a | 0 <= a < |rs|
      ensures KeyedPath(rs[a])
    {
      assert OnPath(rs[a], tree);
      var i, j, k :| 0 <= i < |tree| && 0 <= j < |tree[i].1| && 0 <= k < |tree[i].1[j].1|
        && rs[a].side == tree[i].0 && rs[a].scope == tree[i].1[j].0 && rs[a].name == tree[i].1[j].1[k].0;
    }
  }

  /** A slash-joined path of three slash-free keys determines the keys. */
  lemma UriDeterminesKeys(r: Repo, r': Repo)
    requires KeyedPath(r) && KeyedPath(r')
    ensures r.uri == r'.uri ==> r.side == r'.side && r.scope == r'.scope && r.name == r'.name
  {
    forall x: Repo | KeyedPath(x)
      ensures Split(Join([x.side, x.scope, x.name], "/"), {'/'}) == [x.side, x.scope, x.name]
    {
      Join3(x.side, x.scope, x.name);
      SplitHead(x.side, '/', x.scope + "/" + x.name, {'/'});
      assert x.side + "/" + x.scope + "/" + x.name == x.side + ['/'] + (x.scope + "/" + x.name);
      SplitHead(x.scope, '/', x.name, {'/'});
      assert x.scope + "/" + x.name == x.scope + ['/'] + x.name;
      SplitNoSeparator(x.name, {'/'});
    }
  }

  /** No two descriptors of a well-keyed catalog share a `uri`. */
  lemma UrisUnique(tree: ReposTree)
    requires WellKeyed(tree)
    ensures forall a, b :: 0 <= a < b < |Catalog(tree)| ==> Catalog(tree)[a].uri != Catalog(tree)[b].uri
  {
    var rs := Catalog(tree);
    CatalogDistinct(tree);
    CatalogKeyed(tree);
    forall a, b | 0 <= a < b < |rs|
      ensures rs[a].uri != rs[b].uri
    {
      UriDeterminesKeys(rs[a], rs[b]);
    }
  }

  /** Keys containing `/` defeat uniqueness: two different leaves of a tree
      whose keys are distinct at every level get the same `uri`. */
  lemma SlashedKeysCollide(leaf: Leaf)
    ensures var tree := [("a", [("b/c", [("d", leaf)]), ("b", [("c/d", leaf)])])];
      && DistinctTree(tree)
      && |Catalog(tree)| == 2 && Catalog(tree)[0].uri == Catalog(tree)[1].uri
  {
    var tree := [("a", [("b/c", [("d", leaf)]), ("b", [("c/d", leaf)])])];
    CatalogAt(tree, 0, 0, 0);
    CatalogAt(tree, 0, 1, 0);
    assert tree[0].1[..0] == [];
    assert tree[0].1[..1] == [("b/c", [("d", leaf)])];
    assert tree[..0] == [];
  }
}
