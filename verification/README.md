# polyrepo-cli, modelled in Dafny

polyrepo-cli manages a workspace of many git repositories, described by a
static catalog (`side -> scope -> name -> {package, url, requires}`), and
ships a Yarn plugin that installs packages straight from GitLab references
(`polyrepo+<url>[#<ref>]`). This project models its core and proves what the
core promises:

- **Catalog flattening** (module `Tree`, proved in `TreeUris` as well): the triple loop
  that turns the catalog into repository descriptors. It produces exactly one
  descriptor per leaf, in side/scope/name order. The `uri` is the slash-join of
  the keys, and `requires` defaults to `[]`. When keys are distinct and contain
  no `/`, every `uri` is unique.
- **Label filtering and root discovery** (`Labels`, `Root`): the condition list of
  a descriptor, the OR-of-AND label match, the `only`/`exclude` filter, and the
  upward walk that finds the `.polyrepo` marker.
- **Linking and the command loops** (`Link`, `LinkRerun`, `Commands`): the nested
  loop of `link`. It pairs each filtered repository with the repositories its
  `requires` selectors match, then replaces `<repo>/node_modules/<package>` by a
  symlink. The `hasErrors` folds of `cloneRepos`, `runCommand` and
  `installDependencies` are modelled too, and so is the `setup` chain. Proved:
  - the result of a run is true exactly when every pair succeeded;
  - a failing pair changes nothing, unless its target lies inside its package
    path: that target is removed with the package path and the link then fails;
  - every entry outside the package path is kept;
  - when no package path of the run lies at or under another's, and no
    dependent or target path lies inside a `node_modules` the run writes, a
    second run over the first run's result changes nothing.
- **The Yarn plugin** (`PluginUtils`, `UriComponent`, `PluginResolver`,
  `PluginFactory`):
  - `parseRepoUrl` and its inverse;
  - the GitLab project and archive command of `useArchivator`, including
    `encodeURIComponent`;
  - the error prefix of `clone`;
  - `clearCache`;
  - the resolver's single candidate and version default;
  - the priority of the ambient `BRANCH`.

The filesystem is a map from absolute paths to entries (`Disk`). It is well
formed when every strict ancestor of an entry is a directory that is present.
`fse.remove` removes a whole subtree. `fse.ensureSymlink` creates missing parent
directories. It fails when an ancestor is not a directory or when its
(absolute) target does not exist. Child processes are
a `Shell` object: it records each command line and reports success through a
fixed function.

Four behaviours of the code that a reader might not expect:

- An `only` list that is present but empty keeps **nothing**. `!only` is false
  for an empty array, and no group then matches (`Labels.EmptyOnlyKeepsNothing`).
- A repository's link targets are filtered by its `requires` and still by the
  operator's `exclude`. `getFilteredRepos(repo.requires)` keeps the default
  `exclude` (`Link.TargetsOf`).
- A `requires` selector that matches no repository yields no pair and no failure.
- The condition list covers every key of the descriptor (`side`, `scope`,
  `name`, `uri`, `package`, `url`, `requires`), not only four of them.

## Model

| member | source | states |
|---|---|---|
| Tree.Flatten | src/tree.js:131-146 | the triple loop's `repos` equals the reference catalog `Catalog(tree)` |
| Tree.PushSide | src/tree.js:134-145 | the scope loop of one side appends exactly that side's descriptors |
| Tree.PushScope | src/tree.js:135-144 | the name loop appends one descriptor per name, in key order |
| Tree.CatalogLength | src/tree.js:133-146 | the catalog has exactly as many descriptors as the tree has leaves |
| Tree.CatalogIndex | src/tree.js:133-143 | the leaf at side `i`, scope `j`, name `k` is described at position `LeavesBefore(i, j) + k` |
| Tree.Describe | src/tree.js:136-143 | definition of the descriptor pushed for one leaf; its fields are stated by `Tree.CatalogAt` |
| Tree.CatalogAt | src/tree.js:136-143 | that descriptor has the path keys as side/scope/name, `uri = side/scope/name`, package and url copied, and requires equal to the leaf's list or `[]` |
| Tree.LeavesBeforeOrdered | src/tree.js:133-135 | the leaves of an earlier scope or side all come before those of a later one |
| Tree.Join3 | src/tree.js:137 | `[side, scope, name].join('/')` is `side + "/" + scope + "/" + name` |
| TreeUris.CatalogMembers | src/tree.js:133-139 | every descriptor's side, scope and name are the keys along one path of the tree, and its uri is their join |
| TreeUris.SideReposMembers | src/tree.js:134-139 | every descriptor of a side carries the side's key, the keys of one of its scopes and of one of that scope's names, and their join as uri |
| TreeUris.ScopeReposMembers | src/tree.js:135-139 | every descriptor of a scope carries the side's and the scope's keys, the key of one of its names, and their join as uri |
| TreeUris.CatalogKeyed | src/tree.js:137 | in a tree whose keys contain no `/`, every descriptor's keys are slash-free and its uri is their join |
| TreeUris.CatalogDistinct | src/tree.js:133-139 | with keys distinct at each level (as object keys are), no two descriptors share (side, scope, name), whatever characters the keys hold |
| TreeUris.SideReposDistinct | src/tree.js:134-139 | with distinct scope keys and distinct name keys in each scope, no two descriptors of a side share (scope, name) |
| TreeUris.ScopeReposDistinct | src/tree.js:135-139 | with distinct name keys, no two descriptors of a scope share a name |
| TreeUris.UriDeterminesKeys | src/tree.js:137 | a uri joined from slash-free keys determines the three keys |
| TreeUris.UrisUnique | src/tree.js:133-137 | with keys distinct per level and free of `/`, every uri is unique |
| TreeUris.SlashedKeysCollide | src/tree.js:137 | with a `/` inside a key, two different leaves of a tree whose keys are distinct at every level get the same uri |
| Labels.RepoConditions | src/utils.js:34 | definition of `getRepoConditions`; its layout and contents are stated by `Labels.ConditionsLayout` and `Labels.LabelsOfRepo` |
| Labels.ConditionsLayout | src/utils.js:34 | the condition list holds, per key in order, the value and then `key:value`, so its length is twice the number of keys |
| Labels.LabelsOfRepo | src/utils.js:34 | a descriptor's 14 conditions include its side, scope, name and uri as bare values and as `key:value`, and `package:<package>` |
| Labels.Matches | src/utils.js:35-43 | definition of what `matchRepoLabels` decides; the loop is proved against it by `Labels.MatchRepoLabels` |
| Labels.MatchRepoLabels | src/utils.js:35-43 | true iff labels are present and some group has every `+`/`&` piece among the conditions; hence false for absent and for empty labels |
| Labels.FilteredRepos | src/utils.js:45-49 | definition of `getFilteredRepos`; its properties are stated by `Labels.FilteredReposSpec`, `Labels.FilteredReposUnfold` and `Labels.EmptyOnlyKeepsNothing` |
| Labels.FilteredReposSpec | src/utils.js:45-49 | the filter returns an order-preserving subsequence holding exactly the repositories `only` matches (when present) and `exclude` does not |
| Labels.FilteredReposUnfold | src/utils.js:46-48 | the two filters decide the head repository on its own and the rest independently |
| Labels.FilteredReposUnfiltered | src/utils.js:47-48 | with neither `only` nor `exclude`, every repository is kept in order |
| Labels.EmptyOnlyKeepsNothing | src/utils.js:47 | an `only` list that is present but empty keeps nothing |
| Root.RootOf | src/utils.js:53-63 | definition of the root `findRoot` finds; its properties are stated by `Root.RootOfLongest` and `Root.Argv.FindRoot` |
| Root.RootOfLongest | src/utils.js:53-63 | the root found is the longest marked prefix of the start path's components; if none is found, no prefix is marked |
| Root.Argv.constructor | src/utils.js:20-21 | `setArgv` stores the parsed arguments, `root` among them |
| Root.Argv.FindRoot | src/utils.js:53-67 | the loop returns the longest marked prefix and stores it in `argv.root`; otherwise `root` is kept, and the process exits iff `required` |
| Root.FirstCandidate | src/utils.js:54-57 | the first candidate is the start path with every back-slash turned into `/` |
| Disk.RemoveTree | src/index.js:107 | `fse.remove` drops the entry and everything below it and keeps all else |
| Disk.RemoveTreeWellFormed | src/index.js:107 | removing a subtree keeps the filesystem well formed |
| Disk.SymlinkAt | src/index.js:108 | `ensureSymlink` makes the path a link to the target and its ancestors directories, or fails and changes nothing; at a free path it succeeds iff no ancestor is a non-directory and the target exists; it adds only the path and its ancestors |
| Disk.SymlinkAtWellFormed | src/index.js:108 | creating the link keeps the filesystem well formed |
| Disk.FileSystem.Remove | src/index.js:107 | the map becomes `RemoveTree` of the old one |
| Disk.FileSystem.EnsureSymlink | src/index.js:108 | the map and the flag are those of `SymlinkAt` on the old map |
| Link.PackagePath | src/index.js:97 | the package path lies inside the dependent's `node_modules` |
| Link.LinkPair | src/index.js:94-111 | the inner helper keeps the filesystem well formed |
| Link.LinkPairEffect | src/index.js:99-108 | if either path is missing, the pair fails and changes nothing; a target at or under the package path is removed with it and the pair fails; otherwise it succeeds iff no ancestor of the package path is a non-directory, and then the package path links to the target whatever was there, while a failure changes nothing; entries outside the package path are kept |
| Link.LinkOne | src/index.js:94-111 | the helper's loop over `[repoPath, targetPath]` and its remove/ensureSymlink have the effect and result of `LinkPair` |
| Link.LinkAll | src/index.js:113-122 | folding the pairs in order keeps the filesystem well formed |
| Link.LinkTargets | src/index.js:114-121 | the inner loop has the effect and flag of linking the repository's pairs in order |
| Link.Link | src/index.js:88-125 | the nested loop's final filesystem and result are those of linking every pair of the run in order |
| Link.TargetsOf | src/index.js:114 | definition of `getFilteredRepos(repo.requires)`; stated by `Link.AllJobsMembers` and `Link.NoRequirementsNoJobs` |
| Link.RepoJobs | src/index.js:114-121 | definition of the pairs of one repository; stated by `Link.RepoJobsAt` |
| Link.AllJobs | src/index.js:113-122 | definition of the pairs of the nested loop, in order; stated by `Link.AllJobsMembers` and `Link.Link` |
| Link.LinkJobs | src/index.js:113-115 | definition of the pairs of one `link` run over the filtered repositories; stated by `Link.AllJobsMembers` |
| Link.RepoJobsAt | src/index.js:114-115 | a repository gets one pair per matched target, in target order |
| Link.AllJobsMembers | src/index.js:113-115 | the pairs of a run are exactly the (filtered repository, target matched by its `requires`) pairs |
| Link.NoRequirementsNoJobs | src/index.js:114 | a repository whose `requires` is `[]` gets no pairs |
| Link.LinkAllAppend | src/index.js:113-122 | linking two runs one after the other is linking their concatenation, with the flags combined |
| LinkRerun.LinkAllOk | src/index.js:92-124 | `link` reports success iff every pair succeeded, and every pair is attempted |
| LinkRerun.StepFrame | src/index.js:107-108 | a pair changes nothing outside its package path, and what it adds lies in the dependent's `node_modules` |
| LinkRerun.CreatedInsideModules | src/index.js:108 | a directory that `ensureSymlink` creates lies inside `node_modules` |
| LinkRerun.SettledAfterStep | src/index.js:99-108 | for a target outside the dependent's `node_modules`, after a pair its package path is the link to that existing target with nothing below it, or the pair failed for a missing path or a blocking ancestor |
| LinkRerun.SettledPreserved | src/index.js:107-108 | a pair that is apart from another pair keeps its settled state when the other pair is linked |
| LinkRerun.SettledFixed | src/index.js:99-110 | linking a settled pair again changes nothing and returns the same flag |
| LinkRerun.SettledRest | src/index.js:113-122 | a settled pair stays settled through a run of pairs that are apart from it |
| LinkRerun.SettledAtEnd | src/index.js:113-122 | in a separated run, every pair is still settled at the end |
| LinkRerun.FixedAtEnd | src/index.js:107-108 | re-linking any pair over the final state changes nothing and repeats its result |
| LinkRerun.ReplayPrefix | src/index.js:113-122 | replaying any prefix of the run over its result changes nothing and repeats the prefix's flag |
| LinkRerun.LinkAllIdempotent | src/index.js:107-108 | running `link` twice gives the same filesystem and result as running it once |
| LinkRerun.LinkAllFrame | src/index.js:107-108 | entries under no package path keep their value, and every new entry lies in some `node_modules` |
| LinkRerun.PresenceKept | src/index.js:99-100 | a path outside every `node_modules` exists at each point of the run iff it existed at the start |
| LinkRerun.LinkAllEffect | src/index.js:99-108 | a pair succeeded iff both its paths existed before the run and its package path links to its target after it |
| Commands.AllSucceedAppend | src/index.js:55-65 | the `hasErrors` fold over a concatenation is the conjunction of the folds over its parts |
| Commands.Shell.constructor | src/utils.js:23-30 | the runner starts with no commands run |
| Commands.Shell.Exec | src/utils.js:23-30 | one command is run and recorded, and succeeds as the runner decides |
| Commands.Shell.ExecAll | src/index.js:55-67 | every command runs in order, and the result is true iff every one succeeded |
| Commands.CloneParams | src/index.js:58 | `--branch B` for a non-empty branch, otherwise empty |
| Commands.CloneInvocation | src/index.js:57-59 | definition of the `git clone` command line and its directory; its use is stated by `Commands.CloneRepos` |
| Commands.RunInvocation | src/index.js:77 | definition of the user's command and its directory; its use is stated by `Commands.RunCommand` |
| Commands.InstallInvocation | src/index.js:133 | definition of `yarn install` and its directory; its use is stated by `Commands.InstallDependencies` |
| Commands.CloneRepos | src/index.js:47-68 | one `git clone "<url>" "<root>/<uri>" <params>` in the root per filtered repository, all attempted; true iff all succeeded |
| Commands.RunCommand | src/index.js:70-86 | the command runs in every filtered repository's directory; true iff all succeeded |
| Commands.InstallDependencies | src/index.js:127-142 | `yarn install` runs in every filtered repository's directory; true iff all succeeded |
| Commands.Setup | src/index.js:144-147 | install runs only after a clean clone and link only after a clean install; the result is always true |
| PluginUtils.ParseRepoUrl | src/public/.yarn/plugins/polyrepo.js:26-33 | a reference without the protocol is rejected; `repo` is a non-empty `#`-free prefix after `polyrepo+`; `hash` is the text after the `#`, or the ambient branch when that text is empty |
| PluginUtils.PrefixBefore | src/public/.yarn/plugins/polyrepo.js:27 | a greedy `[^…]*` takes the longest prefix without the stop characters |
| PluginUtils.ParseRepoUrlInverse | src/public/.yarn/plugins/polyrepo.js:27-32 | parsing `polyrepo+<repo>[#<hash>]` gives back `repo` and `hash`, or the branch when no hash was written |
| PluginUtils.ParseRepoUrlNoHash | src/public/.yarn/plugins/polyrepo.js:27-32 | a reference without `#` takes the ambient branch |
| PluginUtils.ParseRepoUrlWithHash | src/public/.yarn/plugins/polyrepo.js:27-32 | a reference with a non-empty hash gives back that hash |
| PluginUtils.EmptyHashTakesBranch | src/public/.yarn/plugins/polyrepo.js:27-31 | a reference ending in a bare `#` takes the ambient branch |
| PluginUtils.GitLabProject | src/public/.yarn/plugins/polyrepo.js:40 | definition of the project capture; stated by `PluginUtils.LastGitSuffix`, `PluginUtils.GitLabProjectOfUrl` and `PluginUtils.UseArchivator` |
| PluginUtils.LastGitSuffix | src/public/.yarn/plugins/polyrepo.js:40 | the greedy project capture ends at the last place where `.git` followed by the end or a `#` fits |
| PluginUtils.GitLabProjectOfUrl | src/public/.yarn/plugins/polyrepo.js:40 | the project of `http(s)://gitlab.com/<project>.git` is `<project>` |
| PluginUtils.UseArchivator | src/public/.yarn/plugins/polyrepo.js:39-53 | it succeeds iff the GitLab pattern matches; the project is the capture; the command is curl with a token and git without |
| PluginUtils.ApiEndpointOfUrl | src/public/.yarn/plugins/polyrepo.js:42-46 | with a token, the endpoint is the API archive URL with the project and the hash percent-encoded |
| PluginUtils.SshRemoteOfUrl | src/public/.yarn/plugins/polyrepo.js:47-51 | without a token, the endpoint is `git@gitlab.com:<project>.git` |
| PluginUtils.ArchiveCommand | src/public/.yarn/plugins/polyrepo.js:41-52 | definition of the curl and git command lists; stated by `PluginUtils.UseArchivator` and `PluginUtils.ArchiveWrittenWhereRead` |
| PluginUtils.OutputAfterFlag | src/public/.yarn/plugins/polyrepo.js:44-49 | the output file of an argument list is the argument after its first `-o`/`--output` |
| PluginUtils.ArchiveWrittenWhereRead | src/public/.yarn/plugins/polyrepo.js:44-49 | both commands write `archive.tar.gz`, the file `clone` reads back |
| PluginUtils.Annotated | src/public/.yarn/plugins/polyrepo.js:80 | a non-empty message gets the prefix `Repository clone failed: `; an empty one stays |
| PluginUtils.AnnotateCloneError | src/public/.yarn/plugins/polyrepo.js:79-81 | the handler rewrites the thrown error's message in place as `Annotated` says |
| PluginUtils.CloneCommand | src/public/.yarn/plugins/polyrepo.js:55-82 | a parse error passes through unchanged, while an archivator error is prefixed |
| PluginUtils.GitEnvironment | src/public/.yarn/plugins/polyrepo.js:20-24 | the environment with `GIT_SSH_COMMAND` set and every other variable kept |
| PluginUtils.Stale | src/public/.yarn/plugins/polyrepo.js:89-93 | definition of the prefix test; stated by `PluginUtils.StaleEntries` and `PluginUtils.ClearCacheEffect` |
| PluginUtils.StaleEntries | src/public/.yarn/plugins/polyrepo.js:89-93 | exactly the marked paths that start with `<cwd>/@polyrepo-` or `<cwd>/@shared` |
| PluginUtils.RemoveAllSpec | src/public/.yarn/plugins/polyrepo.js:95 | removing several paths keeps exactly the entries under none of them, unchanged |
| PluginUtils.ClearCache | src/public/.yarn/plugins/polyrepo.js:88-98 | the loop removes exactly the stale marked paths |
| PluginUtils.ClearCacheEffect | src/public/.yarn/plugins/polyrepo.js:89-96 | after `clearCache`, an entry remains iff it lies under no stale marked path, and it keeps its value |
| UriComponent.Encode | src/public/.yarn/plugins/polyrepo.js:43 | definition of `encodeURIComponent`; stated by `UriComponent.EncodeUnreserved`, `UriComponent.EncodeAppend`, `UriComponent.EncodeAlphabet` and `UriComponent.EncodedHasNoDelimiters` |
| UriComponent.EncodeUnreserved | src/public/.yarn/plugins/polyrepo.js:43 | `encodeURIComponent` leaves unreserved text unchanged |
| UriComponent.EncodeAppend | src/public/.yarn/plugins/polyrepo.js:43 | encoding works character by character |
| UriComponent.EncodeAlphabet | src/public/.yarn/plugins/polyrepo.js:43 | the encoding holds only unreserved characters, `%` and hexadecimal digits |
| UriComponent.EncodedHasNoDelimiters | src/public/.yarn/plugins/polyrepo.js:43 | no `/`, `?`, `#`, `&` or `=` survives, so neither the project nor the ref can split the endpoint |
| UriComponent.EncodeProjectPath | src/public/.yarn/plugins/polyrepo.js:43 | `group/project` is encoded as `group%2Fproject` |
| PluginResolver.NormalizeLocator | src/public/.yarn/plugins/polyrepo.js:35-37 | rebuilding a locator from its own ident and reference gives the same locator |
| PluginResolver.GetCandidates | src/public/.yarn/plugins/polyrepo.js:127-131 | exactly one candidate, for the same package, whose reference is the range |
| PluginResolver.CandidateFetchable | src/public/.yarn/plugins/polyrepo.js:121-122 | a descriptor the resolver supports yields a candidate the locator check and the fetcher accept, before and after normalising |
| PluginResolver.Resolve | src/public/.yarn/plugins/polyrepo.js:135-161 | it fails with the assertion message iff no fetcher is configured |
| PluginResolver.ResolvedVersion | src/public/.yarn/plugins/polyrepo.js:145-159 | the version is the manifest's when it names one and `0.0.0` otherwise; the locator and the dependencies are carried over |
| PluginResolver.CandidateResolves | src/public/.yarn/plugins/polyrepo.js:127-148 | resolving the single candidate keeps the descriptor's range as the reference |
| PluginFactory.AmbientBranch | src/public/.yarn/plugins/polyrepo.js:253 | definition of the choice of `BRANCH`, then `CI_COMMIT_REF_NAME`, then `getBranch()`; stated by `PluginFactory.GitOnlyAsLastResort` and `PluginFactory.AmbientBranchStable` |
| PluginFactory.GitOnlyAsLastResort | src/public/.yarn/plugins/polyrepo.js:253 | an existing `BRANCH` wins, then `CI_COMMIT_REF_NAME`; git is asked only when both are unset or empty |
| PluginFactory.ProcessEnv.constructor | src/public/.yarn/plugins/polyrepo.js:260 | the environment object holds the given variables |
| PluginFactory.ProcessEnv.SetAmbientBranch | src/public/.yarn/plugins/polyrepo.js:261 | `BRANCH` is assigned the chosen value; when git fails, nothing is assigned |
| PluginFactory.AmbientBranchStable | src/public/.yarn/plugins/polyrepo.js:253 | once a non-empty `BRANCH` is set, a second set-up keeps it without asking git |
| PluginFactory.HashFallsBackToAmbient | src/public/.yarn/plugins/polyrepo.js:30 | after set-up, a reference without a hash resolves to the ambient branch |

## Left out

- The yargs command definitions and entry point, console logging and chalk styling.
- Child processes (`git clone`, `yarn install`, the user's command, `git archive`, `curl`, `git rev-parse`). Each one's success is the `Shell`'s fixed function or a `Result` parameter. Their effect on the filesystem is not modelled, so in `Commands.Setup` the link stage sees the filesystem as it was before the clones.
- The prelude of every command (`findRoot()`, and `markAsRoot` in `cloneRepos`) is not modelled: the commands take the root as a parameter. `update`, `updateYarn` and `markAsRoot` are plain file copies and writes, and are not modelled either.
- `path.resolve` is `root + "/" + uri` for an absolute root; its normalisation of `.`/`..` and repeated slashes is not modelled. `resolve` in `Root.Argv.FindRoot` is a parameter.
- `fse.pathExists` follows symbolic links, and so does `ensureSymlink`'s parent creation. The model does not follow links: a link counts as present, and a link in a parent position blocks.
- The catalog data itself and the JavaScript rule that integer-like keys iterate first: the tree is a sequence of key/value pairs in iteration order.
- Yarn core and fslib calls: `fetchPackageFromCache`, `mktempPromise`, `extractArchiveTo`, `prepareExternalProject`, `convertToZip`, `Manifest.find`, `execvp`. The manifest is a parameter of `PluginResolver.Resolve`, and a failing fetch is not modelled.
- The `cloneConcurrency` limiter, and Yarn's concurrent resolution.
- Locator and ident hashes of `structUtils`, `dependenciesMeta`/`peerDependenciesMeta`, and the constant members `shouldPersistResolution`, `bindDescriptor`, `getResolutionDependencies`, `getSatisfying` and `getLocalPath`.
- The engine's `TypeError` text, thrown when a pattern does not match: `NoMatchMessage` stands in for it.
- PluginUtils.ArchiveWrittenWhereRead: proved only for a hash that does not start with `-`. `git archive` would read such a hash as an option, and the proof does not cover that case.
- LinkRerun.LinkAllIdempotent: proved under two hypotheses. No package path of the run may lie at or under another's (`Separated`). No dependent or target path may lie inside a `node_modules` directory the run writes (`OutsideModules`). Without them, a later pair can remove what an earlier one linked.
- TreeUris.UrisUnique: needs keys without `/`; `TreeUris.SlashedKeysCollide` shows two different leaves sharing a uri otherwise.
- `encodeURIComponent` is over Unicode scalar values: the lone surrogates for which it throws cannot occur in a Dafny string.
