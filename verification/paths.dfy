/** Slash-separated paths as plain strings: the relation "lies at or under" that
    a recursive remove follows, and the strict ancestors a `mkdirs` creates. */
module Paths {

  /** `q` is `p` itself or lies somewhere below it. */
  predicate Under(q: string, p: string)
  {
    q == p || (|p| < |q| && q[..|p|] == p && q[|p|] == '/')
  }

  /** `a` is a non-empty proper directory prefix of `p` (the leading `/` of an
      absolute path is not an ancestor of its own). */
  predicate IsAncestor(a: string, p: string)
  {
    0 < |a| < |p| && p[..|a|] == a && p[|a|] == '/'
  }

  /** Every strict ancestor of `p`, as the set a `mkdirs` of its parent visits. */
  function Ancestors(p: string): (s: set<string>)
    ensures forall a :: a in s <==> IsAncestor(a, p)
  {
    var s := set k | 0 < k < |p| && p[k] == '/' :: p[..k];
    assert forall a :: IsAncestor(a, p) ==> p[..|a|] in s;
    s
  }

  lemma UnderTransitive(x: string, y: string, z: string)
    requires Under(x, y) && Under(y, z)
    ensures Under(x, z)
  {
    if x != y && y != z {
      assert x[..|y|][..|z|] == x[..|z|];
      assert x[|z|] == x[..|y|][|z|];
    }
  }

  lemma AncestorIsUnder(a: string, p: string)
    requires IsAncestor(a, p)
    ensures Under(p, a) && a != p
  {
  }

  lemma AncestorTransitive(b: string, a: string, p: string)
    requires IsAncestor(b, a) && IsAncestor(a, p)
    ensures IsAncestor(b, p)
  {
    assert p[..|a|][..|b|] == p[..|b|];
    assert p[|b|] == p[..|a|][|b|];
  }

  /** Two ancestors of one path are nested in one another. */
  lemma AncestorsNested(a: string, b: string, p: string)
    requires IsAncestor(a, p) && IsAncestor(b, p) && |b| < |a|
    ensures IsAncestor(b, a)
  {
    assert p[..|a|][..|b|] == p[..|b|];
    assert a[|b|] == p[|b|];
  }

  /** If an ancestor of `p` lies at or under `q`, so does `p`. */
  lemma AncestorUnder(a: string, p: string, q: string)
    requires IsAncestor(a, p) && Under(a, q)
    ensures Under(p, q)
  {
    UnderTransitive(p, a, q);
  }
}
