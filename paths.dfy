/**
 * Filesystem paths as sequences of components. `os.path.join(p, name)` with a
 * plain entry name appends one component; `os.path.dirname` drops the last one
 * and `os.path.basename` keeps only the last one.
 */
module Paths {

  type Path = seq<string>

  function Join(p: Path, name: string): (r: Path)
    ensures |r| == |p| + 1 && r[..|p|] == p && r[|p|] == name
  {
    p + [name]
  }

  /** `os.path.basename`: the last component, or the empty name for the empty path. */
  function Basename(p: Path): string
  {
    if p == [] then "" else p[|p| - 1]
  }

  /** `os.path.dirname`: everything but the last component. */
  function Dirname(p: Path): (r: Path)
    ensures p != [] ==> |r| == |p| - 1
    ensures |r| <= |p| && r == p[..|r|]
  {
    if p == [] then [] else p[..|p| - 1]
  }

  /** Taking the parent of a joined path gives the original path back. */
  lemma {:induction false} DirnameJoin(p: Path, name: string)
    ensures Dirname(Join(p, name)) == p
    ensures Basename(Join(p, name)) == name
  {
  }

  predicate IsPrefix(p: Path, q: Path)
  {
    |p| <= |q| && q[..|p|] == p
  }

  /** `q` lies strictly below `p`. */
  predicate IsStrictPrefix(p: Path, q: Path)
  {
    |p| < |q| && q[..|p|] == p
  }

  /** Paths that differ in some shared position lie on separate branches. */
  lemma {:induction false} DivergeNotNested(a: Path, b: Path, n: nat)
    requires n < |a| && n < |b| && a[n] != b[n]
    ensures !IsStrictPrefix(a, b) && !IsStrictPrefix(b, a)
  {
    if |a| < |b| {
      assert b[..|a|][n] == b[n];
    }
    if |b| < |a| {
      assert a[..|b|][n] == a[n];
    }
  }
}
