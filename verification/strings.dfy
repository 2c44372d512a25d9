/** String helpers with the semantics of the JavaScript built-ins the source uses:
    `String.prototype.split` on a character class, `Array.prototype.join` and
    `String.prototype.startsWith`. */
module Strings {

  predicate StartsWith(s: string, prefix: string)
  {
    |prefix| <= |s| && s[..|prefix|] == prefix
  }

  predicate NoneOf(s: string, seps: set<char>)
  {
    forall i :: 0 <= i < |s| ==> s[i] !in seps
  }

  /** `s.split(/[...]/)` where the character class is `seps`: the empty string
      splits into one empty piece, and two adjacent separators give an empty piece. */
  function Split(s: string, seps: set<char>): (pieces: seq<string>)
    ensures |pieces| >= 1
    ensures forall k :: 0 <= k < |pieces| ==> NoneOf(pieces[k], seps)
  {
    if s == [] then [""]
    else if s[0] in seps then [""] + Split(s[1..], seps)
    else
      var rest := Split(s[1..], seps);
      [[s[0]] + rest[0]] + rest[1..]
  }

  /** `parts.join(sep)`. */
  function Join(parts: seq<string>, sep: string): string
  {
    if parts == [] then ""
    else if |parts| == 1 then parts[0]
    else Join(parts[..|parts| - 1], sep) + sep + parts[|parts| - 1]
  }

  /** `s` with every character of `seps` replaced by `d`. */
  function ReplaceAll(s: string, seps: set<char>, d: char): (r: string)
    ensures |r| == |s|
  {
    if s == [] then "" else [if s[0] in seps then d else s[0]] + ReplaceAll(s[1..], seps, d)
  }

  lemma {:induction false} JoinCons(x: string, rest: seq<string>, sep: string)
    requires |rest| >= 1
    ensures Join([x] + rest, sep) == x + sep + Join(rest, sep)
  {
    var n := |rest|;
    if n == 1 {
      assert [x] + rest == [x, rest[0]];
      assert ([x] + rest)[..1] == [x];
    } else {
      assert ([x] + rest)[..n] == [x] + rest[..n - 1];
      JoinCons(x, rest[..n - 1], sep);
      assert ([x] + rest)[n] == rest[n - 1];
    }
  }

  /** Splitting on a class and joining with one of its characters rewrites every
      separator to that character: `findRoot` relies on this to turn a path
      with back-slashes into one with forward slashes. */
  lemma {:induction false} JoinSplit(s: string, seps: set<char>, d: char)
    requires d in seps
    ensures Join(Split(s, seps), [d]) == ReplaceAll(s, seps, d)
  {
    if s == [] {
    } else if s[0] in seps {
      JoinSplit(s[1..], seps, d);
      JoinCons("", Split(s[1..], seps), [d]);
    } else {
      var rest := Split(s[1..], seps);
      JoinSplit(s[1..], seps, d);
      if |rest| == 1 {
      } else {
        JoinCons(rest[0], rest[1..], [d]);
        assert [rest[0]] + rest[1..] == rest;
        JoinCons([s[0]] + rest[0], rest[1..], [d]);
      }
    }
  }

  /** A string without separators is a single piece. */
  lemma {:induction false} SplitNoSeparator(s: string, seps: set<char>)
    requires NoneOf(s, seps)
    ensures Split(s, seps) == [s]
  {
    if s != [] {
      assert s[0] !in seps;
      SplitNoSeparator(s[1..], seps);
      assert [s[0]] + s[1..] == s;
    }
  }

  /** A separator-free head followed by a separator splits off as its own piece. */
  lemma {:induction false} SplitHead(x: string, c: char, rest: string, seps: set<char>)
    requires NoneOf(x, seps) && c in seps
    ensures Split(x + [c] + rest, seps) == [x] + Split(rest, seps)
  {
    if x == [] {
      assert x + [c] + rest == [c] + rest;
    } else {
      assert (x + [c] + rest)[1..] == x[1..] + [c] + rest;
      SplitHead(x[1..], c, rest, seps);
      assert [x[0]] + x[1..] == x;
    }
  }
}
