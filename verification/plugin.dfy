/** The string logic of the Yarn plugin's `useUtils`: the `polyrepo+` protocol,
    `parseRepoUrl`, the GitLab project and archive command of `useArchivator`,
    the error annotation of `clone`, `makeGitEnvironment` and the prefix filter
    of `clearCache`. */
module PluginUtils {
  import opened Wrappers
  import opened Strings
  import opened Paths
  import opened Disk
  import opened UriComponent

  /** `/^polyrepo\+/`. */
  const Protocol := "polyrepo+"

  /** `supportsDescriptor`, `supportsLocator` and the fetcher's `supports`:
      the range or reference begins with the protocol. */
  predicate Supports(reference: string)
  {
    StartsWith(reference, Protocol)
  }

  /** The characters `.` does not match in a JavaScript regular expression. */
  const LineTerminators := {'\n', '\r', '\U{2028}', '\U{2029}'}

  /** The longest prefix of `s` holding none of `stop`: a greedy `[^...]*`. */
  function PrefixBefore(s: string, stop: set<char>): (p: string)
    ensures |p| <= |s| && p == s[..|p|]
    ensures NoneOf(p, stop)
    ensures |p| < |s| ==> s[|p|] in stop
  {
    if s == [] || s[0] in stop then "" else [s[0]] + PrefixBefore(s[1..], stop)
  }

  /** The greedy prefix stops exactly where the first `stop` character is. */
  lemma PrefixBeforeStops(x: string, tail: string, stop: set<char>)
    requires NoneOf(x, stop) && (tail == "" || tail[0] in stop)
    ensures PrefixBefore(x + tail, stop) == x
  {
    assert (x + tail)[..|x|] == x;
  }

  datatype RepoRef = RepoRef(repo: string, hash: Option<string>)

  /** The message of the `TypeError` thrown when a match result is `null`. */
  const NoMatchMessage := "match result is null"

  /** `parseRepoUrl(url)` against `/^polyrepo\+([^#]+)#?(.*)/`, where `branch`
      is `process.env.BRANCH`: `repo` runs up to the first `#`, `hash` is what
      follows that `#` up to a line break, and an empty `hash` gives way to
      `branch`. A reference the pattern rejects makes the destructuring throw. */
  function ParseRepoUrl(url: string, branch: Option<string>): (r: Result<RepoRef>)
    ensures !Supports(url) ==> r.Err?
    ensures r.Ok? ==> r.value.repo != "" && NoneOf(r.value.repo, {'#'}) && StartsWith(url, Protocol + r.value.repo)
    ensures r.Ok? ==>
      (|| r.value.hash == branch
       || (&& r.value.hash.Some? && r.value.hash.value != ""
           && StartsWith(url, Protocol + r.value.repo + "#" + r.value.hash.value)))
  {
    if !(Supports(url) && |url| > |Protocol| && url[|Protocol|] != '#') then Err(Error(NoMatchMessage))
    else
      var rest := url[|Protocol|..];
      var repo := PrefixBefore(rest, {'#'});
      var hash := if |repo| < |rest| then PrefixBefore(rest[|repo| + 1..], LineTerminators) else "";
      assert url[..|Protocol| + |repo|] == Protocol + repo;
      assert |repo| < |rest| ==> url[..|Protocol| + |repo| + 1 + |hash|] == Protocol + repo + "#" + hash;
      Ok(RepoRef(repo, if hash != "" then Some(hash) else branch))
  }

  /** The reference a dependency declares: `polyrepo+<repo>[#<hash>]`. */
  function RepoUrl(repo: string, hash: string): string
  {
    Protocol + repo + (if hash == "" then "" else "#" + hash)
  }

  /** A reference built on the protocol passes its check and leaves `rest`. */
  lemma ProtocolPrefix(rest: string)
    requires rest != ""
    ensures Supports(Protocol + rest) && (Protocol + rest)[|Protocol|..] == rest
    ensures |Protocol + rest| > |Protocol| && (Protocol + rest)[|Protocol|] == rest[0]
  {
    assert (Protocol + rest)[..|Protocol|] == Protocol;
  }

  lemma ParseRepoUrlNoHash(repo: string, branch: Option<string>)
    requires repo != "" && NoneOf(repo, {'#'})
    ensures ParseRepoUrl(Protocol + repo, branch) == Ok(RepoRef(repo, branch))
  {
    ProtocolPrefix(repo);
    assert PrefixBefore(repo, {'#'}) == repo by {
      PrefixBeforeStops(repo, "", {'#'});
      assert repo + "" == repo;
    }
  }

  lemma ParseRepoUrlWithHash(repo: string, hash: string, branch: Option<string>)
    requires repo != "" && NoneOf(repo, {'#'}) && hash != "" && NoneOf(hash, LineTerminators)
    ensures ParseRepoUrl(Protocol + (repo + "#" + hash), branch) == Ok(RepoRef(repo, Some(hash)))
  {
    var rest := repo + "#" + hash;
    ProtocolPrefix(rest);
    assert PrefixBefore(rest, {'#'}) == repo by {
      PrefixBeforeStops(repo, "#" + hash, {'#'});
      assert repo + ("#" + hash) == rest;
    }
    assert rest[|repo| + 1..] == hash;
    assert PrefixBefore(hash, LineTerminators) == hash by {
      PrefixBeforeStops(hash, "", LineTerminators);
      assert hash + "" == hash;
    }
  }

  /** `parseRepoUrl` reads back what `RepoUrl` wrote, taking `branch` when no
      hash was written. */
  lemma ParseRepoUrlInverse(repo: string, hash: string, branch: Option<string>)
    requires repo != "" && NoneOf(repo, {'#'}) && NoneOf(hash, LineTerminators)
    ensures ParseRepoUrl(RepoUrl(repo, hash), branch) == Ok(RepoRef(repo, if hash != "" then Some(hash) else branch))
  {
    if hash == "" {
      assert RepoUrl(repo, hash) == Protocol + repo;
      ParseRepoUrlNoHash(repo, branch);
    } else {
      assert RepoUrl(repo, hash) == Protocol + (repo + "#" + hash);
      ParseRepoUrlWithHash(repo, hash, branch);
    }
  }

  /** `polyrepo+<repo>#` with nothing after the `#` still takes `branch`. */
  lemma EmptyHashTakesBranch(repo: string, branch: Option<string>)
    requires repo != "" && NoneOf(repo, {'#'})
    ensures ParseRepoUrl(Protocol + repo + "#", branch) == Ok(RepoRef(repo, branch))
  {
    var url := Protocol + repo + "#";
    assert url == Protocol + (repo + "#");
    assert url[..|Protocol|] == Protocol;
    assert url[|Protocol|..] == repo + "#";
    PrefixBeforeStops(repo, "#", {'#'});
    assert (repo + "#")[|repo| + 1..] == "";
  }

  /** `tail` has, at `k`, one character, `git`, and then its end or a `#`:
      where `(.*).git(?:#.*)?$` can stop its capture. */
  predicate GitSuffixAt(tail: string, k: int)
  {
    0 <= k && k + 4 <= |tail| && tail[k + 1..k + 4] == "git" && (k + 4 == |tail| || tail[k + 4] == '#')
  }

  /** The greedy capture's end: the largest `k` up to `bound` where the suffix fits. */
  function LastGitSuffix(tail: string, bound: int): (r: Option<int>)
    requires -1 <= bound
    ensures r.Some? ==> r.value <= bound && GitSuffixAt(tail, r.value)
    ensures r.Some? ==> forall k :: r.value < k <= bound ==> !GitSuffixAt(tail, k)
    ensures r.None? ==> forall k :: 0 <= k <= bound ==> !GitSuffixAt(tail, k)
    decreases bound + 1
  {
    if bound < 0 then None
    else if GitSuffixAt(tail, bound) then Some(bound)
    else LastGitSuffix(tail, bound - 1)
  }

  /** The optional `(?:polyrepo\+)?` at the start. */
  function StripProtocol(repo: string): string
  {
    if StartsWith(repo, Protocol) then repo[|Protocol|..] else repo
  }

  /** `https?:\/\/`: what follows the scheme, if there is one. */
  function AfterScheme(s: string): Option<string>
  {
    if StartsWith(s, "https://") then Some(s[8..])
    else if StartsWith(s, "http://") then Some(s[7..])
    else None
  }

  /** `gitlab.com\/` with its dot matching any character but a line break. */
  function AfterHost(h: string): Option<string>
  {
    if |h| >= 11 && h[..6] == "gitlab" && h[6] !in LineTerminators && h[7..11] == "com/" then Some(h[11..])
    else None
  }

  /** `(.*).git(?:#.*)?$` over the rest: no line break anywhere, and the
      greedy capture ends at the last place the suffix fits. */
  function ProjectOfTail(tail: string): Result<string>
  {
    if !NoneOf(tail, LineTerminators) then Err(Error(NoMatchMessage))
    else
      match LastGitSuffix(tail, |tail|)
      case None => Err(Error(NoMatchMessage))
      case Some(k) => Ok(tail[..k])
  }

  /** `repo.match(/^(?:polyrepo\+)?https?:\/\/gitlab.com\/(.*).git(?:#.*)?$/)[1]`. */
  function GitLabProject(repo: string): Result<string>
  {
    match AfterScheme(StripProtocol(repo))
    case None => Err(Error(NoMatchMessage))
    case Some(h) =>
      match AfterHost(h)
      case None => Err(Error(NoMatchMessage))
      case Some(tail) => ProjectOfTail(tail)
  }

  lemma NoneOfAppend(a: string, b: string, stop: set<char>)
    requires NoneOf(a, stop) && NoneOf(b, stop)
    ensures NoneOf(a + b, stop)
  {
    forall i | 0 <= i < |a + b|
      ensures (a + b)[i] !in stop
    {
      if i >= |a| {
        assert (a + b)[i] == b[i - |a|];
      }
    }
  }

  lemma ProjectOfTailGit(project: string)
    requires NoneOf(project, LineTerminators)
    ensures ProjectOfTail(project + ".git") == Ok(project)
  {
    var tail := project + ".git";
    assert GitSuffixAt(tail, |project|) by {
      assert tail[|project| + 1..|project| + 4] == "git";
    }
    NoneOfAppend(project, ".git", LineTerminators);
    assert tail[..|project|] == project;
  }

  lemma SchemeAndHost(scheme: string, rest: string)
    requires scheme == "https://" || scheme == "http://"
    ensures AfterScheme(StripProtocol(scheme + "gitlab.com/" + rest)) == Some("gitlab.com/" + rest)
    ensures AfterHost("gitlab.com/" + rest) == Some(rest)
  {
    var h := "gitlab.com/" + rest;
    var url := scheme + h;
    assert scheme + "gitlab.com/" + rest == url;
    assert url[0] == 'h';
    if scheme == "http://" {
      assert url[4] == ':';
    }
    assert url[|scheme|..] == h;
    assert h[..6] == "gitlab" && h[6] == '.' && h[7..11] == "com/" && h[11..] == rest;
  }

  /** The project of a plain GitLab URL is the text between the host and `.git`. */
  lemma GitLabProjectOfUrl(scheme: string, project: string)
    requires scheme == "https://" || scheme == "http://"
    requires NoneOf(project, LineTerminators)
    ensures GitLabProject(scheme + "gitlab.com/" + project + ".git") == Ok(project)
  {
    assert scheme + "gitlab.com/" + project + ".git" == scheme + "gitlab.com/" + (project + ".git");
    SchemeAndHost(scheme, project + ".git");
    ProjectOfTailGit(project);
  }

  /** The command line that fetches the archive. */
  datatype Command = Command(program: string, args: seq<string>)

  datatype Archivator = Archivator(endpoint: string, cmd: Command, project: string)

  const ArchiveName := "archive.tar.gz"
  const ApiProjects := "https://gitlab.com/api/v4/projects/"
  const ArchivePath := "/repository/archive.tar.gz?sha="

  /** `CI_JOB_TOKEN` is set and not empty. */
  predicate HasToken(token: Option<string>)
  {
    token.Some? && token.value != ""
  }

  /** Where the archive is fetched from. */
  function ArchiveEndpoint(project: string, hash: string, token: Option<string>): string
  {
    if HasToken(token) then ApiProjects + Encode(project) + ArchivePath + Encode(hash)
    else "git@gitlab.com:" + project + ".git"
  }

  /** How the archive is fetched from `endpoint`. */
  function ArchiveCommand(endpoint: string, hash: string, token: Option<string>): Command
  {
    if HasToken(token) then Command("curl", ["--header", "PRIVATE-TOKEN: " + token.value, endpoint, "-o", ArchiveName])
    else Command("git", ["archive", hash, "--remote", endpoint, "--format", "tar.gz", "--output", ArchiveName])
  }

  /** `useArchivator(repo, hash)`, `token` being `process.env.CI_JOB_TOKEN`:
      through the GitLab API with `curl` when a token is present, otherwise
      `git archive` over SSH. */
  function UseArchivator(repo: string, hash: string, token: Option<string>): (r: Result<Archivator>)
    ensures r.Ok? <==> GitLabProject(repo).Ok?
    ensures r.Ok? ==> r.value.project == GitLabProject(repo).value
    ensures r.Ok? ==> r.value.cmd.program == (if HasToken(token) then "curl" else "git")
  {
    match GitLabProject(repo)
    case Err(e) => Err(e)
    case Ok(project) =>
      var endpoint := ArchiveEndpoint(project, hash, token);
      Ok(Archivator(endpoint, ArchiveCommand(endpoint, hash, token), project))
  }

  /** The file an argument list writes to: the argument after the first `-o`
      or `--output`. */
  function OutputOf(args: seq<string>): Option<string>
  {
    if |args| < 2 then None
    else if args[0] == "-o" || args[0] == "--output" then Some(args[1])
    else OutputOf(args[1..])
  }

  /** The output is the argument after the first output flag. */
  lemma {:induction false} OutputAfterFlag(args: seq<string>, k: int)
    requires 0 <= k < |args| - 1 && args[k] in {"-o", "--output"}
    requires forall i :: 0 <= i < k ==> args[i] !in {"-o", "--output"}
    ensures OutputOf(args) == Some(args[k + 1])
  {
    if k > 0 {
      assert args[0] !in {"-o", "--output"};
      OutputAfterFlag(args[1..], k - 1);
    }
  }

  /** Both commands write the archive to the file `clone` reads back, as long
      as the hash cannot be read as an option. */
  lemma ArchiveWrittenWhereRead(project: string, hash: string, token: Option<string>)
    requires !StartsWith(hash, "-")
    ensures OutputOf(ArchiveCommand(ArchiveEndpoint(project, hash, token), hash, token).args) == Some(ArchiveName)
  {
    var endpoint := ArchiveEndpoint(project, hash, token);
    var args := ArchiveCommand(endpoint, hash, token).args;
    if HasToken(token) {
      assert args[1][0] == 'P' && endpoint[0] == 'h';
      OutputAfterFlag(args, 3);
    } else {
      assert hash != "-o" && hash != "--output";
      assert endpoint[0] == 'g';
      OutputAfterFlag(args, 6);
    }
  }

  /** Without a token, a GitLab reference becomes its SSH remote. */
  lemma SshRemoteOfUrl(scheme: string, project: string, hash: string, token: Option<string>)
    requires scheme == "https://" || scheme == "http://"
    requires NoneOf(project, LineTerminators) && !HasToken(token)
    ensures UseArchivator(scheme + "gitlab.com/" + project + ".git", hash, token).Ok?
    ensures UseArchivator(scheme + "gitlab.com/" + project + ".git", hash, token).value.endpoint
         == "git@gitlab.com:" + project + ".git"
  {
    GitLabProjectOfUrl(scheme, project);
  }

  /** With a token, the project is encoded into the API endpoint and the ref
      follows `sha=`, encoded as well. */
  lemma ApiEndpointOfUrl(scheme: string, project: string, hash: string, token: Option<string>)
    requires scheme == "https://" || scheme == "http://"
    requires NoneOf(project, LineTerminators) && HasToken(token)
    ensures UseArchivator(scheme + "gitlab.com/" + project + ".git", hash, token).Ok?
    ensures UseArchivator(scheme + "gitlab.com/" + project + ".git", hash, token).value.endpoint
         == ApiProjects + Encode(project) + ArchivePath + Encode(hash)
  {
    GitLabProjectOfUrl(scheme, project);
  }

  const CloneFailedPrefix := "Repository clone failed: "

  /** The message after `clone`'s handler: prefixed when there is one. */
  function Annotated(message: string): (m: string)
    ensures message == "" ==> m == ""
    ensures message != "" ==> StartsWith(m, CloneFailedPrefix) && m[|CloneFailedPrefix|..] == message
  {
    if message != "" then CloneFailedPrefix + message else message
  }

  /** A thrown error whose `message` the handler rewrites in place. */
  class ThrownError {
    var message: string

    constructor (message: string)
      ensures this.message == message
    {
      this.message := message;
    }
  }

  /** `if (error && error.message) error.message = ...; throw error`. */
  method AnnotateCloneError(error: ThrownError?)
    modifies error
    ensures error != null ==> error.message == Annotated(old(error.message))
  {
    if error != null && error.message != "" {
      error.message := CloneFailedPrefix + error.message;
    }
  }

  /** The command `clone` runs for a locator reference: `parseRepoUrl` is outside
      the `try`, so its error passes unchanged; `useArchivator` is inside it, so
      its error is annotated. An absent hash becomes `''`. */
  function CloneCommand(url: string, branch: Option<string>, token: Option<string>): (r: Result<Command>)
    ensures ParseRepoUrl(url, branch).Err? ==> r.Err? && r.error.message == NoMatchMessage
    ensures ParseRepoUrl(url, branch).Ok? && r.Err? ==> StartsWith(r.error.message, CloneFailedPrefix)
  {
    match ParseRepoUrl(url, branch)
    case Err(e) => Err(e)
    case Ok(ref) =>
      var hash := if ref.hash.Some? then ref.hash.value else "";
      match UseArchivator(ref.repo, hash, token)
      case Err(e) => Err(Error(Annotated(e.message)))
      case Ok(a) => Ok(a.cmd)
  }

  const GitSshVar := "GIT_SSH_COMMAND"
  const GitSshCommand := "ssh -o BatchMode=yes"

  /** `makeGitEnvironment`: the process environment with SSH made non-interactive. */
  function GitEnvironment(env: map<string, string>): (e: map<string, string>)
    ensures GitSshVar in e && e[GitSshVar] == GitSshCommand
    ensures forall k :: k in env && k != GitSshVar ==> k in e && e[k] == env[k]
    ensures forall k :: k in e ==> k in env || k == GitSshVar
  {
    env[GitSshVar := GitSshCommand]
  }

  /** `clearCache`'s test: the entry belongs to a `@polyrepo-` or `@shared` package. */
  predicate Stale(cwd: string, p: string)
  {
    StartsWith(p, cwd + "/@polyrepo-") || StartsWith(p, cwd + "/@shared")
  }

  function StaleEntries(cwd: string, marked: seq<string>): (stale: seq<string>)
    ensures forall p :: p in stale <==> p in marked && Stale(cwd, p)
  {
    if marked == [] then []
    else
      var init := StaleEntries(cwd, marked[..|marked| - 1]);
      var last := marked[|marked| - 1];
      assert marked == marked[..|marked| - 1] + [last];
      if Stale(cwd, last) then init + [last] else init
  }

  /** `xfs.removePromise` of each path in turn. */
  function RemoveAll(fs: Fs, paths: seq<string>): Fs
  {
    if paths == [] then fs else RemoveTree(RemoveAll(fs, paths[..|paths| - 1]), paths[|paths| - 1])
  }

  /** What survives removing several paths: the entries under none of them. */
  lemma {:induction false} RemoveAllSpec(fs: Fs, paths: seq<string>)
    ensures forall q :: q in RemoveAll(fs, paths) <==> q in fs && forall p :: p in paths ==> !Under(q, p)
    ensures forall q :: q in RemoveAll(fs, paths) ==> RemoveAll(fs, paths)[q] == fs[q]
  {
    if paths != [] {
      var init := paths[..|paths| - 1];
      RemoveAllSpec(fs, init);
      assert paths == init + [paths[|paths| - 1]];
    }
  }

  lemma RemoveAllWellFormed(fs: Fs, paths: seq<string>)
    requires WellFormed(fs)
    ensures WellFormed(RemoveAll(fs, paths))
  {
    if paths != [] {
      RemoveAllWellFormed(fs, paths[..|paths| - 1]);
      RemoveTreeWellFormed(RemoveAll(fs, paths[..|paths| - 1]), paths[|paths| - 1]);
    }
  }

  /** `clearCache`: every marked file under a polyrepo or shared package name
      is removed. */
  method ClearCache(disk: FileSystem, cwd: string, marked: seq<string>)
    requires disk.Valid()
    modifies disk
    ensures disk.Valid()
    ensures disk.entries == RemoveAll(old(disk.entries), StaleEntries(cwd, marked))
  {
    ghost var fs0 := disk.entries;
    var i := 0;
    while i < |marked|
      invariant 0 <= i <= |marked|
      invariant disk.Valid()
      invariant disk.entries == RemoveAll(fs0, StaleEntries(cwd, marked[..i]))
    {
      var path := marked[i];
      assert marked[..i + 1][..i] == marked[..i];
      if Stale(cwd, path) {
        disk.Remove(path);
        assert StaleEntries(cwd, marked[..i + 1]) == StaleEntries(cwd, marked[..i]) + [path];
      }
      i := i + 1;
    }
    assert marked[..i] == marked;
  }

  /** After `clearCache` exactly the entries at or under a stale marked path are
      gone; every other entry is kept as it was. */
  lemma ClearCacheEffect(fs: Fs, cwd: string, marked: seq<string>)
    ensures forall q :: q in RemoveAll(fs, StaleEntries(cwd, marked)) <==>
      q in fs && forall p :: p in marked && Stale(cwd, p) ==> !Under(q, p)
    ensures forall q :: q in RemoveAll(fs, StaleEntries(cwd, marked)) ==> RemoveAll(fs, StaleEntries(cwd, marked))[q] == fs[q]
  {
    RemoveAllSpec(fs, StaleEntries(cwd, marked));
  }
}
