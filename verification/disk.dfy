/** The filesystem as the orchestrator sees it through `fs-extra`: a map from
    absolute paths to entries. `Remove` is the recursive `fse.remove`,
    `EnsureSymlink` is `fse.ensureSymlink`, which creates the missing parent
    directories of the link first. */
module Disk {
  import opened Paths

  datatype Entry = File | Dir | Symlink(target: string)

  type Fs = map<string, Entry>

  /** Every strict ancestor of an entry is a directory that is present. */
  ghost predicate WellFormed(fs: Fs)
  {
    forall p, a :: p in fs && IsAncestor(a, p) ==> a in fs && fs[a] == Dir
  }

  /** The tree rooted at `p` is gone, everything else is kept. */
  function RemoveTree(fs: Fs, p: string): (r: Fs)
    ensures forall q :: q in r <==> q in fs && !Under(q, p)
    ensures forall q :: q in r ==> r[q] == fs[q]
  {
    map q | q in fs && !Under(q, p) :: fs[q]
  }

  /** Some ancestor of `p` exists but is not a directory, so `mkdirs` fails. */
  predicate Blocked(fs: Fs, p: string)
  {
    exists a :: a in Ancestors(p) && a in fs && fs[a] != Dir
  }

  datatype Outcome = Outcome(fs: Fs, ok: bool)

  /** `fse.ensureSymlink(target, p)` for an absolute `target`: missing
      ancestors become directories and `p` becomes a link to `target`. It
      fails without a change when an ancestor is not a directory, when
      something other than that very link is already at `p`, or when `target`
      does not exist (the source path is checked before anything is created). */
  function SymlinkAt(fs: Fs, target: string, p: string): (o: Outcome)
    requires WellFormed(fs)
    ensures o.ok ==> p in o.fs && o.fs[p] == Symlink(target)
    ensures !o.ok ==> o.fs == fs
    ensures o.ok ==> forall a :: IsAncestor(a, p) ==> a in o.fs && o.fs[a] == Dir
    ensures forall q :: q in fs && q != p ==> q in o.fs && o.fs[q] == fs[q]
    ensures forall q :: q in o.fs && q !in fs ==> q == p || IsAncestor(q, p)
    ensures p !in fs ==> (o.ok <==> !Blocked(fs, p) && target in fs)
  {
    if Blocked(fs, p) then Outcome(fs, false)
    else if p in fs then Outcome(fs, fs[p] == Symlink(target))
    else if target !in fs then Outcome(fs, false)
    else
      var dirs := map a | a in Ancestors(p) && a !in fs :: Dir;
      Outcome((dirs + fs)[p := Symlink(target)], true)
  }

  lemma RemoveTreeWellFormed(fs: Fs, p: string)
    requires WellFormed(fs)
    ensures WellFormed(RemoveTree(fs, p))
  {
    var r := RemoveTree(fs, p);
    forall q, a | q in r && IsAncestor(a, q)
      ensures a in r && r[a] == Dir
    {
      if Under(a, p) {
        AncestorUnder(a, q, p);
      }
    }
  }

  lemma SymlinkAtWellFormed(fs: Fs, target: string, p: string)
    requires WellFormed(fs)
    ensures WellFormed(SymlinkAt(fs, target, p).fs)
  {
    var o := SymlinkAt(fs, target, p);
    if o.ok && p !in fs {
      forall q, a | q in o.fs && IsAncestor(a, q)
        ensures a in o.fs && o.fs[a] == Dir
      {
        if q !in fs && q != p {
          AncestorTransitive(a, q, p);
        }
      }
    }
  }

  class FileSystem {
    var entries: Fs

    ghost predicate Valid()
      reads this
    {
      WellFormed(entries)
    }

    constructor (initial: Fs)
      requires WellFormed(initial)
      ensures Valid() && entries == initial
    {
      entries := initial;
    }

    /** `fse.pathExists`: the path is present (links are not followed). */
    function PathExists(p: string): bool
      reads this
    {
      p in entries
    }

    /** `fse.remove(p)`. */
    method Remove(p: string)
      requires Valid()
      modifies this
      ensures Valid()
      ensures entries == RemoveTree(old(entries), p)
    {
      RemoveTreeWellFormed(entries, p);
      entries := RemoveTree(entries, p);
    }

    /** `fse.ensureSymlink(target, p)`; `ok` is false where it would throw. */
    method EnsureSymlink(target: string, p: string) returns (ok: bool)
      requires Valid()
      modifies this
      ensures Valid()
      ensures Outcome(entries, ok) == SymlinkAt(old(entries), target, p)
    {
      SymlinkAtWellFormed(entries, target, p);
      var o := SymlinkAt(entries, target, p);
      entries, ok := o.fs, o.ok;
    }
  }
}
