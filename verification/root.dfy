/** Workspace root discovery: walk the components of the start path upward
    until a directory holding the `.polyrepo` marker is found. */
module Root {
  import opened Wrappers
  import opened Strings
  import opened Disk

  const RootFileName := ".polyrepo"
  const PathSeparators := {'/', '\\'}

  /** `isRoot(path)`: the marker file is present directly inside `path`. */
  predicate IsRoot(fs: Fs, path: string)
  {
    path + "/" + RootFileName in fs
  }

  /** The longest prefix of `parts`, joined with `/`, whose directory is marked. */
  function RootOf(fs: Fs, parts: seq<string>): Option<string>
  {
    if parts == [] then None
    else if IsRoot(fs, Join(parts, "/")) then Some(Join(parts, "/"))
    else RootOf(fs, parts[..|parts| - 1])
  }

  /** The first `k` components form a marked directory and no longer prefix does. */
  predicate LongestMarked(fs: Fs, parts: seq<string>, k: nat)
    requires 1 <= k <= |parts|
  {
    && IsRoot(fs, Join(parts[..k], "/"))
    && RootOf(fs, parts) == Some(Join(parts[..k], "/"))
    && forall k' :: k < k' <= |parts| ==> !IsRoot(fs, Join(parts[..k'], "/"))
  }

  /** `RootOf` finds the longest marked prefix, or reports that no prefix of the
      start path is marked. */
  lemma {:induction false} RootOfLongest(fs: Fs, parts: seq<string>)
    ensures RootOf(fs, parts).Some? ==> exists k :: 1 <= k <= |parts| && LongestMarked(fs, parts, k)
    ensures RootOf(fs, parts).None? ==> forall k :: 1 <= k <= |parts| ==> !IsRoot(fs, Join(parts[..k], "/"))
  {
    if parts != [] {
      var n := |parts|;
      assert parts[..n] == parts;
      if IsRoot(fs, Join(parts, "/")) {
        assert LongestMarked(fs, parts, n);
      } else {
        var init := parts[..n - 1];
        RootOfLongest(fs, init);
        forall k | 1 <= k < n
          ensures init[..k] == parts[..k]
        {
        }
        if RootOf(fs, parts).Some? {
          var k :| 1 <= k <= |init| && LongestMarked(fs, init, k);
          assert LongestMarked(fs, parts, k);
        }
      }
    }
  }

  /** The parsed command-line arguments the source keeps in a module-level
      variable; `findRoot` overwrites `root` with the root it finds. */
  class Argv {
    var root: string

    constructor (root: string)
      ensures this.root == root
    {
      this.root := root;
    }

    /** `findRoot(required)`. `resolve` stands for `path.resolve(__dirname, _)`.
        `exits` is true where the source calls `process.exit(1)`. */
    method FindRoot(disk: FileSystem, resolve: string -> string, required: bool)
      returns (found: Option<string>, exits: bool)
      modifies this
      ensures found == RootOf(disk.entries, Split(resolve(old(root)), PathSeparators))
      ensures root == (if found.Some? then found.value else old(root))
      ensures exits <==> found.None? && required
    {
      var rootParts := Split(resolve(root), PathSeparators);
      ghost var parts := rootParts;
      while |rootParts| > 0
        invariant RootOf(disk.entries, rootParts) == RootOf(disk.entries, parts)
        invariant root == old(root)
      {
        var candidate := Join(rootParts, "/");
        if IsRoot(disk.entries, candidate) {
          root := candidate;
          return Some(candidate), false;
        }
        rootParts := rootParts[..|rootParts| - 1];
      }
      return None, required;
    }
  }

  /** The first candidate is the start path itself with every back-slash
      turned into `/`. */
  lemma FirstCandidate(start: string)
    ensures Join(Split(start, PathSeparators), "/") == ReplaceAll(start, PathSeparators, '/')
  {
    JoinSplit(start, PathSeparators, '/');
  }
}
