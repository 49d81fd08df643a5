/** The parts of Node's POSIX `path` module that `combine` and the per-file
    loop use: `join`, `dirname` and `relative`. Paths are cut at `/` into
    segments; `.` and empty segments vanish and `..` removes the segment before
    it, as Node's normalisation does. The working directory of the process,
    which `relative` resolves both of its arguments against, is a parameter. */
module Paths {
  import opened Text

  /** A segment list that a normalised path is made of: no empty, `.` or `..`
      segments, and no slash inside a segment. */
  ghost predicate Clean(segs: seq<string>) {
    forall k :: 0 <= k < |segs| ==> segs[k] != [] && segs[k] != "." && segs[k] != ".." && '/' !in segs[k]
  }

  /** One segment of Node's `normalizeString`. `..` removes the segment before
      it unless that is itself `..`; with nothing to remove it is kept on a
      relative path and dropped on an absolute one. */
  function Step(acc: seq<string>, seg: string, abs: bool): seq<string> {
    if seg == [] || seg == "." then acc
    else if seg == ".." then
      if |acc| > 0 && acc[|acc| - 1] != ".." then acc[..|acc| - 1]
      else if abs then acc
      else acc + [".."]
    else acc + [seg]
  }

  function Fold(acc: seq<string>, segs: seq<string>, abs: bool): seq<string>
    decreases |segs|
  {
    if segs == [] then acc else Fold(Step(acc, segs[0], abs), segs[1..], abs)
  }

  /** Normalising an absolute path leaves only ordinary segments. */
  lemma {:induction false} FoldAbsClean(acc: seq<string>, segs: seq<string>)
    requires Clean(acc)
    requires forall k :: 0 <= k < |segs| ==> '/' !in segs[k]
    ensures Clean(Fold(acc, segs, true))
    decreases |segs|
  {
    if segs != [] {
      FoldAbsClean(Step(acc, segs[0], true), segs[1..]);
    }
  }

  /** `path.normalize`. */
  function Normalize(p: string): (r: string)
    ensures r != []
  {
    if p == [] then "."
    else
      var abs := p[0] == '/';
      var trailing := p[|p| - 1] == '/';
      var body := JoinWith(Fold([], Split(p, '/'), abs), '/');
      if body == [] then (if abs then "/" else if trailing then "./" else ".")
      else
        var b := if trailing then body + "/" else body;
        if abs then "/" + b else b
  }

  /** `path.join(a, b)`: the non-empty arguments joined with `/`, then normalised. */
  function Join(a: string, b: string): (r: string)
    ensures r != []
  {
    if a == [] && b == [] then "."
    else if a == [] then Normalize(b)
    else if b == [] then Normalize(a)
    else Normalize(a + "/" + b)
  }

  /** The position Node's `dirname` cuts at: scanning back from `i`, the first
      `/` that follows a character other than `/`; -1 when there is none at
      index 1 or later. */
  function DirCut(p: string, i: int, matchedSlash: bool): (r: int)
    requires 0 <= i < |p|
    ensures r == -1 || (1 <= r <= i && p[r] == '/')
    decreases i
  {
    if i < 1 then -1
    else if p[i] == '/' then (if !matchedSlash then i else DirCut(p, i - 1, matchedSlash))
    else DirCut(p, i - 1, false)
  }

  /** `path.dirname`. */
  function Dirname(p: string): (r: string)
    ensures r != []
    ensures r == "." || r == "/" || r == "//" || (|r| < |p| && r == p[..|r|])
  {
    if p == [] then "."
    else
      var end := DirCut(p, |p| - 1, true);
      if end == -1 then (if p[0] == '/' then "/" else ".")
      else if p[0] == '/' && end == 1 then "//"
      else p[..end]
  }

  /** A child's directory is its parent: cutting `d/name` gives `d` back when
      `d` does not end in `/` and `name` holds no `/`. */
  lemma DirnameOfChild(d: string, name: string)
    requires |d| >= 1 && d[|d| - 1] != '/' && !(|d| == 1 && d[0] == '/')
    requires name != [] && '/' !in name
    ensures Dirname(d + "/" + name) == d
  {
    var p := d + "/" + name;
    DirCutChild(p, |d|, |p| - 1);
  }

  lemma {:induction false} DirCutChild(p: string, cut: nat, i: nat)
    requires 1 <= cut < |p| - 1 && cut <= i < |p|
    requires p[cut] == '/' && p[cut - 1] != '/'
    requires forall k :: cut < k < |p| ==> p[k] != '/'
    ensures DirCut(p, i, i == |p| - 1) == cut
    decreases i
  {
    if i > cut {
      DirCutChild(p, cut, i - 1);
    }
  }

  /** `path.resolve(p)` as segments: an absolute `p` alone, a relative one
      after the working directory. */
  function Resolve(p: string, cwd: string): (segs: seq<string>)
    ensures Clean(segs)
  {
    var whole := if p != [] && p[0] == '/' then p else cwd + "/" + p;
    FoldAbsClean([], Split(whole, '/'));
    Fold([], Split(whole, '/'), true)
  }

  /** How many leading segments two lists share. */
  function Common(a: seq<string>, b: seq<string>): (k: nat)
    ensures k <= |a| && k <= |b| && a[..k] == b[..k]
    ensures k == |a| || k == |b| || a[k] != b[k]
  {
    if a == [] || b == [] || a[0] != b[0] then 0
    else
      var k := Common(a[1..], b[1..]);
      assert a[..k + 1] == [a[0]] + a[1..][..k];
      assert b[..k + 1] == [b[0]] + b[1..][..k];
      1 + k
  }

  function Ups(n: nat): (r: seq<string>)
    ensures |r| == n && forall k :: 0 <= k < n ==> r[k] == ".."
  {
    if n == 0 then [] else Ups(n - 1) + [".."]
  }

  /** The segments of `path.relative(from, to)`: up out of what `from` does
      not share with `to`, then down into the rest of `to`. */
  function RelativeSegs(f: seq<string>, t: seq<string>): seq<string> {
    var k := Common(f, t);
    Ups(|f| - k) + t[k..]
  }

  /** `path.relative(from, to)`; the empty string when both resolve alike. */
  function Relative(from: string, to: string, cwd: string): string {
    JoinWith(RelativeSegs(Resolve(from, cwd), Resolve(to, cwd)), '/')
  }

  /** Walking the relative segments from `from` arrives at `to`. */
  lemma RelativeArrives(f: seq<string>, t: seq<string>)
    requires Clean(f) && Clean(t)
    ensures Fold(f, RelativeSegs(f, t), true) == t
  {
    var k := Common(f, t);
    var rest := t[k..];
    assert Clean(rest) by {
      forall i | 0 <= i < |rest| ensures rest[i] == t[k + i] {}
    }
    ClimbUpTo(f, |f| - k, rest, RelativeSegs(f, t));
    assert f[..|f| - (|f| - k)] + rest == t by {
      assert f[..k] == t[..k];
      assert t[..k] + rest == t;
    }
  }

  lemma ClimbUpTo(f: seq<string>, n: nat, rest: seq<string>, segs: seq<string>)
    requires Clean(f) && Clean(rest) && n <= |f| && segs == Ups(n) + rest
    ensures Fold(f, segs, true) == f[..|f| - n] + rest
  {
    ClimbUp(f, n, rest);
  }

  lemma {:induction false} ClimbUp(f: seq<string>, n: nat, rest: seq<string>)
    requires Clean(f) && Clean(rest) && n <= |f|
    ensures Fold(f, Ups(n) + rest, true) == f[..|f| - n] + rest
    decreases n
  {
    if n == 0 {
      assert Ups(0) + rest == rest;
      assert f[..|f|] == f;
      Descend(f, rest);
    } else {
      var up := Ups(n);
      assert up + rest == [".."] + (Ups(n - 1) + rest) by {
        UpsFront(n);
      }
      assert Step(f, "..", true) == f[..|f| - 1];
      ClimbUp(f[..|f| - 1], n - 1, rest);
      assert f[..|f| - 1][..|f| - 1 - (n - 1)] == f[..|f| - n];
    }
  }

  lemma {:induction false} UpsFront(n: nat)
    requires n >= 1
    ensures Ups(n) == [".."] + Ups(n - 1)
  {
    if n > 1 {
      UpsFront(n - 1);
    }
  }

  lemma {:induction false} Descend(acc: seq<string>, rest: seq<string>)
    requires Clean(rest)
    ensures Fold(acc, rest, true) == acc + rest
    decreases |rest|
  {
    if rest == [] {
      assert acc + rest == acc;
    } else {
      assert Step(acc, rest[0], true) == acc + [rest[0]];
      Descend(acc + [rest[0]], rest[1..]);
      assert acc + [rest[0]] + rest[1..] == acc + rest;
    }
  }
}
