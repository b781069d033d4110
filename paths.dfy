/** The parts of Python's `posixpath` the merger uses on file names:
    `basename`, `dirname` and a two-argument `join`. */
module Paths {
  import opened Text

  /** One past the last '/' of `p`, or 0 when there is none
      (`p.rfind('/') + 1`). */
  function SlashEnd(p: string): (k: nat)
    ensures k <= |p|
    ensures k > 0 ==> p[k - 1] == '/'
    ensures forall i :: k <= i < |p| ==> p[i] != '/'
  {
    if p == [] then 0
    else if p[|p| - 1] == '/' then |p|
    else SlashEnd(p[..|p| - 1])
  }

  /** `os.path.basename`: what follows the last '/'. */
  function Basename(p: string): (b: string)
    ensures '/' !in b
  {
    p[SlashEnd(p)..]
  }

  predicate AllSlashes(h: string)
  {
    forall i :: 0 <= i < |h| ==> h[i] == '/'
  }

  /** `h.rstrip('/')` */
  function StripSlashes(h: string): (r: string)
    ensures StartsWith(h, r)
    ensures r == [] || r[|r| - 1] != '/'
    ensures AllSlashes(h[|r|..])
  {
    if h != [] && h[|h| - 1] == '/' then StripSlashes(h[..|h| - 1]) else h
  }

  /** `os.path.dirname`: everything up to the last '/', without the
      trailing slashes unless it is made of slashes only. */
  function Dirname(p: string): string
  {
    var head := p[..SlashEnd(p)];
    if head != [] && !AllSlashes(head) then StripSlashes(head) else head
  }

  /** `os.path.join(a, b)` */
  function PathJoin(a: string, b: string): string
  {
    if StartsWith(b, "/") then b
    else if a == [] || a[|a| - 1] == '/' then a + b
    else a + "/" + b
  }

  lemma SlashEndAppend(a: string, b: string)
    requires a != [] && a[|a| - 1] == '/' && '/' !in b
    ensures SlashEnd(a + b) == |a|
    decreases |b|
  {
    if b != [] {
      assert (a + b)[..|a + b| - 1] == a + b[..|b| - 1];
      SlashEndAppend(a, b[..|b| - 1]);
    }
  }

  lemma SlashFree(b: string)
    requires '/' !in b
    ensures SlashEnd(b) == 0
  {
    if SlashEnd(b) > 0 {
      assert b[SlashEnd(b) - 1] == '/';
    }
  }

  /** A name under a directory that does not end in '/' comes back apart. */
  lemma SplitUnder(d: string, b: string)
    requires '/' !in b && d != [] && d[|d| - 1] != '/'
    ensures Dirname(d + "/" + b) == d && Basename(d + "/" + b) == b
  {
    var j := d + "/";
    assert d + "/" + b == j + b;
    SlashEndAppend(j, b);
    assert (j + b)[..|j|] == j && (j + b)[|j|..] == b;
    assert StripSlashes(j) == d by {
      assert j[..|j| - 1] == d;
    }
    assert !AllSlashes(j) by {
      assert j[|d| - 1] != '/';
    }
  }

  /** A name under a directory made of slashes comes back apart. */
  lemma SplitUnderRoot(d: string, b: string)
    requires '/' !in b && d != [] && AllSlashes(d)
    ensures Dirname(d + b) == d && Basename(d + b) == b
  {
    SlashEndAppend(d, b);
    assert (d + b)[..|d|] == d;
  }

  /** A name without '/' joined onto a directory comes back apart as that
      directory and that name. */
  lemma JoinDirname(p: string, b: string)
    requires '/' !in b
    ensures Dirname(PathJoin(Dirname(p), b)) == Dirname(p)
    ensures Basename(PathJoin(Dirname(p), b)) == b
  {
    var d := Dirname(p);
    assert !StartsWith(b, "/") by {
      if b != [] {
        assert b[..1][0] == b[0] != '/';
      }
    }
    if d == [] {
      SlashFree(b);
      assert d + b == b;
    } else if d[|d| - 1] == '/' {
      SplitUnderRoot(d, b);
    } else {
      SplitUnder(d, b);
    }
  }
}
