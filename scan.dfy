/** The shape shared by every `s.replace(/pattern/g, ...)` of the plugin: the
    regular expression is tried at each position from left to right; where it
    matches, the matched text is handed to the replacement and the scan resumes
    after it; where it does not, one character is kept and the scan moves on.
    A pattern is given as a matcher: a function of the remaining text that says
    how long the match at its start is and what it captured. None of the plugin's
    patterns can match the empty string, so a match always consumes text. */
module Scan {

  datatype Option<T> = None | Some(value: T)

  /** A match at the start of the remaining text: its length and its captures. */
  datatype Found<M> = Found(len: nat, cap: M)

  /** One step of the scan: a character kept as it is, or a matched text. */
  datatype Piece<M> = Kept(c: char) | Hit(raw: string, cap: M)

  /** The matcher never reports an empty match nor one longer than the text. */
  ghost predicate Progress<M>(at: string -> Option<Found<M>>) {
    forall t :: at(t).Some? ==> 0 < at(t).value.len <= |t|
  }

  function Source<M>(p: Piece<M>): string {
    match p
    case Kept(c) => [c]
    case Hit(raw, _) => raw
  }

  /** The original text the pieces were cut from. */
  function Raw<M>(ps: seq<Piece<M>>): string {
    if ps == [] then [] else Source(ps[0]) + Raw(ps[1..])
  }

  /** Left-to-right, non-overlapping matching, as a global regular expression does. */
  function Pieces<M>(s: string, at: string -> Option<Found<M>>): (ps: seq<Piece<M>>)
    requires Progress(at)
    ensures Raw(ps) == s
    ensures forall k :: 0 <= k < |ps| && ps[k].Hit? ==> ps[k].raw != []
    decreases |s|
  {
    if s == [] then []
    else
      match at(s)
      case Some(f) =>
        assert s == s[..f.len] + s[f.len..];
        [Hit(s[..f.len], f.cap)] + Pieces(s[f.len..], at)
      case None =>
        assert s == [s[0]] + s[1..];
        [Kept(s[0])] + Pieces(s[1..], at)
  }

  /** `s.replace(/pattern/g, repl)` for a constant `repl`: every match is
      replaced by `repl`, every other character is kept. */
  function Replace<M>(s: string, at: string -> Option<Found<M>>, repl: string): string
    requires Progress(at)
    decreases |s|
  {
    if s == [] then []
    else
      match at(s)
      case Some(f) => repl + Replace(s[f.len..], at, repl)
      case None => [s[0]] + Replace(s[1..], at, repl)
  }

  function HitCount<M>(ps: seq<Piece<M>>): nat {
    if ps == [] then 0 else (if ps[0].Hit? then 1 else 0) + HitCount(ps[1..])
  }

  /** Where the pattern matches nowhere in `s`, the scan cuts out nothing and
      any replacement leaves `s` as it is. */
  lemma {:induction false} NoMatchKeepsText<M>(s: string, at: string -> Option<Found<M>>, repl: string)
    requires Progress(at)
    requires forall i :: 0 <= i < |s| ==> at(s[i..]).None?
    ensures HitCount(Pieces(s, at)) == 0
    ensures Replace(s, at, repl) == s
    decreases |s|
  {
    if s != [] {
      assert s[0..] == s;
      forall i | 0 <= i < |s[1..]| ensures at(s[1..][i..]).None? {
        assert s[1..][i..] == s[i + 1..];
      }
      NoMatchKeepsText(s[1..], at, repl);
      assert s == [s[0]] + s[1..];
    }
  }

  /** The piece `p`, starting at offset `o` of `s`, is what the matcher says
      there: a match of exactly the text the piece holds, or no match and the
      one character kept. */
  ghost predicate PieceFits<M>(s: string, at: string -> Option<Found<M>>, o: nat, p: Piece<M>) {
    o < |s| &&
    match p
    case Hit(raw, cap) => o + |raw| <= |s| && raw == s[o..o + |raw|] && at(s[o..]) == Some(Found(|raw|, cap))
    case Kept(c) => c == s[o] && at(s[o..]).None?
  }

  lemma PieceFitsShift<M>(s: string, at: string -> Option<Found<M>>, n: nat, o: nat, p: Piece<M>)
    requires n <= |s| && PieceFits(s[n..], at, o, p)
    ensures PieceFits(s, at, n + o, p)
  {
    assert s[n..][o..] == s[n + o..];
    if p.Hit? {
      assert s[n..][o..o + |p.raw|] == s[n + o..n + o + |p.raw|];
    }
  }

  lemma PiecesKept<M>(s: string, at: string -> Option<Found<M>>)
    requires Progress(at) && s != [] && at(s).None?
    ensures Pieces(s, at) == [Kept(s[0])] + Pieces(s[1..], at)
  {
  }

  /** The first piece, and the scan of the text after it. */
  lemma PiecesFirst<M>(s: string, at: string -> Option<Found<M>>) returns (h: Piece<M>, n: nat)
    requires Progress(at) && s != []
    ensures 0 < n <= |s| && |Source(h)| == n
    ensures PieceFits(s, at, 0, h)
    ensures Pieces(s, at) == [h] + Pieces(s[n..], at)
  {
    assert s[0..] == s;
    match at(s) {
      case Some(f) =>
        h, n := Hit(s[..f.len], f.cap), f.len;
      case None =>
        h, n := Kept(s[0]), 1;
    }
  }

  lemma RawCons<M>(p: Piece<M>, ps: seq<Piece<M>>)
    ensures Raw([p] + ps) == Source(p) + Raw(ps)
  {
    assert ([p] + ps)[1..] == ps;
  }

  /** Each piece is what the matcher says at the offset it starts at, the
      length of the text the pieces before it were cut from. */
  lemma {:induction false} PiecesAt<M>(s: string, at: string -> Option<Found<M>>,
                                       before: seq<Piece<M>>, p: Piece<M>, after: seq<Piece<M>>)
    requires Progress(at) && Pieces(s, at) == before + [p] + after
    ensures PieceFits(s, at, |Raw(before)|, p)
    decreases |before|
  {
    assert s != [];
    var h, n := PiecesFirst(s, at);
    if before == [] {
      assert Pieces(s, at)[0] == p;
    } else {
      var rest := Pieces(s[n..], at);
      assert before[0] == h;
      assert rest == before[1..] + [p] + after;
      PiecesAt(s[n..], at, before[1..], p, after);
      PiecesAtShift(s, at, h, n, before, p);
    }
  }

  /** The same for the `k`-th piece. */
  lemma PiecesAtIndex<M>(s: string, at: string -> Option<Found<M>>, k: nat)
    requires Progress(at) && k < |Pieces(s, at)|
    ensures PieceFits(s, at, |Raw(Pieces(s, at)[..k])|, Pieces(s, at)[k])
  {
    var ps := Pieces(s, at);
    SplitAround(ps, k);
    PiecesAt(s, at, ps[..k], ps[k], ps[k + 1..]);
  }

  lemma SplitAround<T>(xs: seq<T>, k: nat)
    requires k < |xs|
    ensures xs == xs[..k] + [xs[k]] + xs[k + 1..]
  {
  }

  lemma PiecesAtShift<M>(s: string, at: string -> Option<Found<M>>, h: Piece<M>, n: nat,
                         before: seq<Piece<M>>, p: Piece<M>)
    requires n <= |s| && |Source(h)| == n && before != [] && before[0] == h
    requires PieceFits(s[n..], at, |Raw(before[1..])|, p)
    ensures PieceFits(s, at, |Raw(before)|, p)
  {
    assert before == [h] + before[1..];
    RawCons(h, before[1..]);
    PieceFitsShift(s, at, n, |Raw(before[1..])|, p);
  }

  /** The matcher finds nothing at the first `i` offsets of `s`. */
  ghost predicate NoMatchBefore<M>(s: string, at: string -> Option<Found<M>>, i: nat)
    decreases i
  {
    i == 0 || (s != [] && at(s).None? && NoMatchBefore(s[1..], at, i - 1))
  }

  lemma {:induction false} NoMatchBeforeAll<M>(s: string, at: string -> Option<Found<M>>, i: nat)
    requires i <= |s| && forall k :: 0 <= k < i ==> at(s[k..]).None?
    ensures NoMatchBefore(s, at, i)
    decreases i
  {
    if i > 0 {
      assert s[0..] == s;
      forall k | 0 <= k < i - 1 ensures at(s[1..][k..]).None? {
        assert s[1..][k..] == s[k + 1..];
      }
      NoMatchBeforeAll(s[1..], at, i - 1);
    }
  }

  lemma DropOne(s: string, i: nat)
    requires 0 < i <= |s|
    ensures s[1..][i - 1..] == s[i..] && s[..i] == [s[0]] + s[1..][..i - 1]
  {
  }

  /** Before the first match the scan keeps the text as it is. */
  lemma {:induction false} ReplaceSkip<M>(s: string, at: string -> Option<Found<M>>, repl: string, i: nat)
    requires Progress(at) && i <= |s| && NoMatchBefore(s, at, i)
    ensures Replace(s, at, repl) == s[..i] + Replace(s[i..], at, repl)
    decreases i
  {
    if i == 0 {
      assert s[0..] == s;
    } else {
      ReplaceSkip(s[1..], at, repl, i - 1);
      DropOne(s, i);
    }
  }

  /** A match at the start is replaced, and the scan resumes after it. */
  lemma ReplaceHit<M>(t: string, at: string -> Option<Found<M>>, repl: string, n: nat)
    requires Progress(at) && t != [] && at(t).Some? && at(t).value.len == n
    ensures n <= |t|
    ensures Replace(t, at, repl) == repl + Replace(t[n..], at, repl)
  {
  }

  /** The text before the first match, which runs from `i` to `j`, then the
      replacement, then the scan resumed after the match. */
  lemma ReplaceFirstMatch<M>(s: string, at: string -> Option<Found<M>>, repl: string, i: nat, j: nat)
    requires Progress(at) && i <= j <= |s|
    requires forall k :: 0 <= k < i ==> at(s[k..]).None?
    requires at(s[i..]).Some? && at(s[i..]).value.len == j - i
    ensures Replace(s, at, repl) == s[..i] + repl + Replace(s[j..], at, repl)
  {
    NoMatchBeforeAll(s, at, i);
    ReplaceSkip(s, at, repl, i);
    ReplaceHit(s[i..], at, repl, j - i);
    assert s[i..][j - i..] == s[j..];
  }

  /** The same for an empty replacement: the first match is cut out. */
  lemma RemoveFirstMatch<M>(s: string, at: string -> Option<Found<M>>, i: nat, j: nat)
    requires Progress(at) && i <= j <= |s|
    requires forall k :: 0 <= k < i ==> at(s[k..]).None?
    requires at(s[i..]).Some? && at(s[i..]).value.len == j - i
    ensures Replace(s, at, "") == s[..i] + Replace(s[j..], at, "")
  {
    ReplaceFirstMatch(s, at, "", i, j);
    assert s[..i] + "" == s[..i];
  }

  // ---------------------------------------------------------------------
  // Backtracking over how much a quantifier takes

  /** A greedy quantifier that can take up to `w` repetitions: the rest of the
      pattern is tried after `w`, then `w - 1`, down to none; the first that
      matches wins. */
  function Greedy<T>(try: nat -> Option<T>, w: nat): Option<T>
    decreases w
  {
    if try(w).Some? || w == 0 then try(w) else Greedy(try, w - 1)
  }

  /** A lazy quantifier: the rest of the pattern is tried after `j`
      repetitions, then `j + 1`, up to `max`. */
  function Lazy<T>(try: nat -> Option<T>, j: nat, max: nat): Option<T>
    decreases max - j
  {
    if try(j).Some? || j >= max then try(j) else Lazy(try, j + 1, max)
  }

  /** What a greedy quantifier returns is what some count up to `w` gives. */
  lemma {:induction false} GreedyPicks<T>(try: nat -> Option<T>, w: nat)
    ensures Greedy(try, w).Some? ==> exists v :: 0 <= v <= w && Greedy(try, w) == try(v)
    decreases w
  {
    if try(w).None? && w > 0 {
      GreedyPicks(try, w - 1);
    }
  }

  /** A greedy quantifier matches whenever some count up to `w` does. */
  lemma {:induction false} GreedyFinds<T>(try: nat -> Option<T>, w: nat, v: nat)
    requires v <= w && try(v).Some?
    ensures Greedy(try, w).Some?
    decreases w
  {
    if w != v && try(w).None? {
      GreedyFinds(try, w - 1, v);
    }
  }

  /** What a lazy quantifier returns is what some count from `j` to `max` gives. */
  lemma {:induction false} LazyPicks<T>(try: nat -> Option<T>, j: nat, max: nat)
    ensures Lazy(try, j, max).Some? ==> exists v :: j <= v && (v <= max || v == j) && Lazy(try, j, max) == try(v)
    decreases max - j
  {
    if try(j).None? && j < max {
      LazyPicks(try, j + 1, max);
    }
  }

  /** A lazy quantifier matches whenever some count from `j` to `max` does. */
  lemma {:induction false} LazyFinds<T>(try: nat -> Option<T>, j: nat, max: nat, v: nat)
    requires j <= v <= max && try(v).Some?
    ensures Lazy(try, j, max).Some?
    decreases max - j
  {
    if j != v && try(j).None? {
      LazyFinds(try, j + 1, max, v);
    }
  }

  lemma {:induction false} RawAppend<M>(a: seq<Piece<M>>, b: seq<Piece<M>>)
    ensures Raw(a + b) == Raw(a) + Raw(b)
  {
    if a == [] {
      assert a + b == b;
    } else {
      assert (a + b)[1..] == a[1..] + b;
      RawAppend(a[1..], b);
    }
  }
}
