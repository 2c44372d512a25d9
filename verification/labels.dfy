/** Label filtering: a repository's condition list, the OR-of-AND label
    expressions matched against it, and the `only`/`exclude` filter that every
    command applies to the catalog. */
module Labels {
  import opened Wrappers
  import opened Strings
  import opened Tree

  /** A JavaScript property value of a descriptor: a string, `undefined`, or an
      array of strings (`requires`). */
  datatype Value = Text(s: string) | Missing | Items(xs: seq<string>)

  /** The value as a template literal renders it. */
  function Render(v: Value): string
  {
    match v
    case Text(s) => s
    case Missing => "undefined"
    case Items(xs) => Join(xs, ",")
  }

  function FromOption(o: Option<string>): Value
  {
    if o.Some? then Text(o.value) else Missing
  }

  /** The descriptor's own keys with their values, in creation order. */
  function Fields(r: Repo): seq<(string, Value)>
  {
    [ ("side", Text(r.side)), ("scope", Text(r.scope)), ("name", Text(r.name)),
      ("uri", Text(r.uri)), ("package", FromOption(r.package)), ("url", FromOption(r.url)),
      ("requires", Items(r.requirements)) ]
  }

  /** flatMap of `[value, "key:value"]` over the fields. */
  function Conditions(fields: seq<(string, Value)>): seq<Value>
  {
    if fields == [] then []
    else [fields[0].1, Text(fields[0].0 + ":" + Render(fields[0].1))] + Conditions(fields[1..])
  }

  /** `getRepoConditions(repo)`. */
  function RepoConditions(r: Repo): seq<Value>
  {
    Conditions(Fields(r))
  }

  /** The condition list holds, for every key in order, the value followed by
      `key:value`, so it is twice as long as the key list. */
  lemma {:induction false} ConditionsLayout(fields: seq<(string, Value)>)
    ensures |Conditions(fields)| == 2 * |fields|
    ensures forall k :: 0 <= k < |fields| ==>
      && Conditions(fields)[2 * k] == fields[k].1
      && Conditions(fields)[2 * k + 1] == Text(fields[k].0 + ":" + Render(fields[k].1))
  {
    if fields != [] {
      ConditionsLayout(fields[1..]);
      var c := Conditions(fields);
      forall k | 1 <= k < |fields|
        ensures c[2 * k] == fields[k].1
        ensures c[2 * k + 1] == Text(fields[k].0 + ":" + Render(fields[k].1))
      {
        assert c[2 * k] == Conditions(fields[1..])[2 * (k - 1)];
        assert c[2 * k + 1] == Conditions(fields[1..])[2 * (k - 1) + 1];
      }
    }
  }

  /** A bare label matches a string-valued attribute of the descriptor, and a
      `key:value` label matches that very key. */
  lemma LabelsOfRepo(r: Repo)
    ensures |RepoConditions(r)| == 14
    ensures Text(r.side) in RepoConditions(r) && Text(r.scope) in RepoConditions(r)
    ensures Text(r.name) in RepoConditions(r) && Text(r.uri) in RepoConditions(r)
    ensures Text("side:" + r.side) in RepoConditions(r) && Text("scope:" + r.scope) in RepoConditions(r)
    ensures Text("name:" + r.name) in RepoConditions(r) && Text("uri:" + r.uri) in RepoConditions(r)
    ensures Text("package:" + Render(FromOption(r.package))) in RepoConditions(r)
  {
    var f := Fields(r);
    ConditionsLayout(f);
    assert f[0] == ("side", Text(r.side)) && f[1] == ("scope", Text(r.scope));
    assert f[2] == ("name", Text(r.name)) && f[3] == ("uri", Text(r.uri));
    assert f[4] == ("package", FromOption(r.package));
    assert RepoConditions(r)[0] == Text(r.side) && RepoConditions(r)[1] == Text("side:" + r.side);
    assert RepoConditions(r)[2] == Text(r.scope) && RepoConditions(r)[3] == Text("scope:" + r.scope);
    assert RepoConditions(r)[4] == Text(r.name) && RepoConditions(r)[5] == Text("name:" + r.name);
    assert RepoConditions(r)[6] == Text(r.uri) && RepoConditions(r)[7] == Text("uri:" + r.uri);
    assert RepoConditions(r)[9] == Text("package:" + Render(FromOption(r.package)));
  }

  /** One AND group: every piece of the group split on `+` or `&` is a string
      element of the condition list. */
  predicate GroupMatches(group: string, conditions: seq<Value>)
  {
    forall piece :: piece in Split(group, {'+', '&'}) ==> Text(piece) in conditions
  }

  /** `matchRepoLabels`: absent labels match nothing, otherwise some group matches. */
  predicate Matches(r: Repo, labels: Option<seq<string>>)
  {
    labels.Some? && exists g :: g in labels.value && GroupMatches(g, RepoConditions(r))
  }

  /** `matchRepoLabels(repo, labels)`: the loop over the OR groups that returns
      at the first group whose every condition the repository carries. */
  method MatchRepoLabels(r: Repo, labels: Option<seq<string>>) returns (matched: bool)
    ensures matched <==>
      labels.Some? && exists i :: 0 <= i < |labels.value| && GroupMatches(labels.value[i], RepoConditions(r))
    ensures matched == Matches(r, labels)
  {
    if labels.None? {
      return false;
    }
    var groups := labels.value;
    var i := 0;
    while i < |groups|
      invariant 0 <= i <= |groups|
      invariant forall m :: 0 <= m < i ==> !GroupMatches(groups[m], RepoConditions(r))
    {
      var conditions := RepoConditions(r);
      var pieces := Split(groups[i], {'+', '&'});
      var every := true;
      var k := 0;
      while k < |pieces| && every
        invariant 0 <= k <= |pieces|
        invariant every <==> forall m :: 0 <= m < k ==> Text(pieces[m]) in conditions
      {
        every := Text(pieces[k]) in conditions;
        k := k + 1;
      }
      if every {
        assert GroupMatches(groups[i], conditions);
        return true;
      }
      assert pieces[k - 1] in pieces;
      i := i + 1;
    }
    return false;
  }

  // ----- getFilteredRepos -----

  /** `repos.filter(repo => !only || matchRepoLabels(repo, only))`. */
  function SelectOnly(repos: seq<Repo>, only: Option<seq<string>>): seq<Repo>
  {
    if repos == [] then []
    else (if only.None? || Matches(repos[0], only) then [repos[0]] else []) + SelectOnly(repos[1..], only)
  }

  /** `.filter(repo => !matchRepoLabels(repo, exclude))`. */
  function DropExcluded(repos: seq<Repo>, exclude: Option<seq<string>>): seq<Repo>
  {
    if repos == [] then []
    else (if !Matches(repos[0], exclude) then [repos[0]] else []) + DropExcluded(repos[1..], exclude)
  }

  /** `getFilteredRepos(only, exclude)` over the catalog `repos`. */
  function FilteredRepos(repos: seq<Repo>, only: Option<seq<string>>, exclude: Option<seq<string>>): seq<Repo>
  {
    DropExcluded(SelectOnly(repos, only), exclude)
  }

  /** Whether a repository survives both filters. Note that an empty `only`
      list is present, so it keeps nothing. */
  predicate Kept(r: Repo, only: Option<seq<string>>, exclude: Option<seq<string>>)
  {
    (only.None? || Matches(r, only)) && !Matches(r, exclude)
  }

  /** `a` is `b` with some elements left out, the rest in their order. */
  predicate IsSubsequence(a: seq<Repo>, b: seq<Repo>)
  {
    if a == [] then true
    else if b == [] then false
    else (a[0] == b[0] && IsSubsequence(a[1..], b[1..])) || IsSubsequence(a, b[1..])
  }

  lemma {:induction false} FilteredReposUnfold(repos: seq<Repo>, only: Option<seq<string>>, exclude: Option<seq<string>>)
    requires repos != []
    ensures FilteredRepos(repos, only, exclude)
         == (if Kept(repos[0], only, exclude) then [repos[0]] else []) + FilteredRepos(repos[1..], only, exclude)
  {
    var head := if only.None? || Matches(repos[0], only) then [repos[0]] else [];
    var tail := SelectOnly(repos[1..], only);
    assert SelectOnly(repos, only) == head + tail;
    if head == [] {
      assert head + tail == tail;
    } else {
      assert (head + tail)[0] == repos[0];
      assert (head + tail)[1..] == tail;
    }
  }

  /** `getFilteredRepos` keeps exactly the repositories that the `only` filter
      (when given) matches and the `exclude` filter does not, in catalog order. */
  lemma {:induction false} FilteredReposSpec(repos: seq<Repo>, only: Option<seq<string>>, exclude: Option<seq<string>>)
    ensures IsSubsequence(FilteredRepos(repos, only, exclude), repos)
    ensures forall r :: r in FilteredRepos(repos, only, exclude) <==> r in repos && Kept(r, only, exclude)
  {
    if repos != [] {
      FilteredReposUnfold(repos, only, exclude);
      FilteredReposSpec(repos[1..], only, exclude);
      var rest := FilteredRepos(repos[1..], only, exclude);
      if Kept(repos[0], only, exclude) {
        assert ([repos[0]] + rest)[1..] == rest;
      } else {
        assert [] + rest == rest;
        SkipHead(rest, repos);
      }
      assert forall r :: r in repos <==> r == repos[0] || r in repos[1..];
    }
  }

  lemma {:induction false} SkipHead(a: seq<Repo>, b: seq<Repo>)
    requires b != [] && IsSubsequence(a, b[1..])
    ensures IsSubsequence(a, b)
  {
  }

  /** With neither `only` nor `exclude`, every repository is kept, in order. */
  lemma {:induction false} FilteredReposUnfiltered(repos: seq<Repo>)
    ensures FilteredRepos(repos, None, None) == repos
  {
    if repos != [] {
      FilteredReposUnfold(repos, None, None);
      FilteredReposUnfiltered(repos[1..]);
    }
  }

  /** An empty `only` list keeps nothing: no group, so no match. */
  lemma {:induction false} EmptyOnlyKeepsNothing(repos: seq<Repo>, exclude: Option<seq<string>>)
    ensures FilteredRepos(repos, Some([]), exclude) == []
  {
    if repos != [] {
      FilteredReposUnfold(repos, Some([]), exclude);
      EmptyOnlyKeepsNothing(repos[1..], exclude);
    }
  }
}
