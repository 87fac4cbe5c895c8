/** The three operations of Node's `path` module that the updater and the
    archive wrapper use, on POSIX-style separators. Normalisation of `.`,
    `..`, repeated separators and Windows drive letters is not modelled. */
module Paths {

  /** `path.join(dir, name)`. */
  function Join(dir: string, name: string): string
  {
    dir + "/" + name
  }

  predicate IsAbsolute(p: string)
  {
    |p| > 0 && p[0] == '/'
  }

  /** `path.resolve(p)` against the working directory `cwd`. */
  function Resolve(cwd: string, p: string): (r: string)
    ensures IsAbsolute(p) ==> r == p
    ensures IsAbsolute(cwd) ==> IsAbsolute(r)
  {
    if IsAbsolute(p) then p else Join(cwd, p)
  }

  /** `path.basename(p)`: the last segment, trailing separators ignored. */
  function Basename(p: string): string
  {
    LastSegment(TrimTrailingSlashes(p))
  }

  function TrimTrailingSlashes(p: string): string
  {
    if |p| > 0 && p[|p| - 1] == '/' then TrimTrailingSlashes(p[..|p| - 1]) else p
  }

  /** The text after the last '/'. */
  function LastSegment(p: string): string
  {
    if p == [] || p[|p| - 1] == '/' then [] else LastSegment(p[..|p| - 1]) + [p[|p| - 1]]
  }

  /** The last segment is a suffix of the path without separators, preceded
      by a separator unless it is the whole path. */
  lemma {:induction false} LastSegmentSpec(p: string)
    ensures var b := LastSegment(p);
      && '/' !in b
      && |b| <= |p| && b == p[|p| - |b|..]
      && (|b| < |p| ==> p[|p| - |b| - 1] == '/')
  {
    if p != [] && p[|p| - 1] != '/' {
      var q, c := p[..|p| - 1], p[|p| - 1];
      LastSegmentSpec(q);
      var b := LastSegment(q);
      assert LastSegment(p) == b + [c];
      assert '/' !in b + [c];
      assert p[|p| - |b| - 1..] == q[|q| - |b|..] + [c] by {
        assert p[|p| - |b| - 1..] == p[|p| - |b| - 1..|p| - 1] + [c];
        assert p[|p| - |b| - 1..|p| - 1] == q[|q| - |b|..];
      }
      if |b| + 1 < |p| {
        assert p[|p| - |b| - 2] == q[|q| - |b| - 1];
      }
    }
  }

  /** A base name holds no separator. */
  lemma BasenameSpec(p: string)
    ensures '/' !in Basename(p)
  {
    LastSegmentSpec(TrimTrailingSlashes(p));
  }

  /** Resolving an already resolved path against an absolute working
      directory changes nothing. */
  lemma ResolveIdempotent(cwd: string, p: string)
    requires IsAbsolute(cwd)
    ensures Resolve(cwd, Resolve(cwd, p)) == Resolve(cwd, p)
  {
  }

  /** Joining a directory with a separator-free, non-empty name and taking
      the base name gives the name back. */
  lemma {:induction false} BasenameOfJoin(dir: string, name: string)
    requires name != [] && '/' !in name
    ensures Basename(Join(dir, name)) == name
  {
    var p := Join(dir, name);
    assert p[|p| - 1] == name[|name| - 1];
    assert TrimTrailingSlashes(p) == p;
    LastSegmentOfSuffix(dir + "/", name);
  }

  lemma {:induction false} LastSegmentOfSuffix(prefix: string, name: string)
    requires '/' !in name
    requires |prefix| > 0 && prefix[|prefix| - 1] == '/'
    ensures LastSegment(prefix + name) == name
  {
    var p := prefix + name;
    if name == [] {
      assert p == prefix;
    } else {
      assert p[|p| - 1] == name[|name| - 1];
      assert p[..|p| - 1] == prefix + name[..|name| - 1];
      assert name[|name| - 1] in name;
      assert forall i :: 0 <= i < |name| - 1 ==> name[..|name| - 1][i] == name[i];
      LastSegmentOfSuffix(prefix, name[..|name| - 1]);
      assert name[..|name| - 1] + [name[|name| - 1]] == name;
    }
  }

  /** Joining onto an absolute directory gives a path that resolving
      leaves alone. */
  lemma ResolveJoinAbsolute(cwd: string, dir: string, name: string)
    requires IsAbsolute(dir)
    ensures Resolve(cwd, Join(dir, name)) == Join(dir, name)
  {
    assert Join(dir, name)[0] == dir[0];
  }

  /** Different names in one directory give different paths. */
  lemma JoinInjective(dir: string, a: string, b: string)
    requires Join(dir, a) == Join(dir, b)
    ensures a == b
  {
    var n := |dir| + 1;
    assert a == Join(dir, a)[n..];
    assert b == Join(dir, b)[n..];
  }
}
