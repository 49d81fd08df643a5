/** Character classes of the JavaScript regular expressions the combiner uses, and
    the small string helpers the scanners are built from. */
module Text {

  /** JavaScript's `\s`: the white-space and line-terminator characters. */
  predicate IsSpace(c: char) {
    || c == ' ' || c == '\t' || c == '\n' || c == '\r' || c == '\U{000B}' || c == '\U{000C}'
    || c == '\U{00A0}' || c == '\U{1680}' || ('\U{2000}' <= c <= '\U{200A}')
    || c == '\U{2028}' || c == '\U{2029}' || c == '\U{202F}' || c == '\U{205F}'
    || c == '\U{3000}' || c == '\U{FEFF}'
  }

  /** JavaScript's `\w`. */
  predicate IsWord(c: char) {
    'a' <= c <= 'z' || 'A' <= c <= 'Z' || '0' <= c <= '9' || c == '_'
  }

  /** `[A-Za-z0-9]`, the characters of a file extension. */
  predicate IsAlnum(c: char) {
    'a' <= c <= 'z' || 'A' <= c <= 'Z' || '0' <= c <= '9'
  }

  /** `[\w\-\.\/\?=]`, the characters a stylesheet or asset reference is made of. */
  predicate IsRefChar(c: char) {
    IsWord(c) || c == '-' || c == '.' || c == '/' || c == '?' || c == '='
  }

  /** `[\w\-=]`, the characters of a query string value. */
  predicate IsQueryChar(c: char) {
    IsWord(c) || c == '-' || c == '='
  }

  /** `['"]` */
  predicate IsQuote(c: char) {
    c == '\'' || c == '"'
  }

  /** `[\{\}:;,]`, the punctuation that whitespace is collapsed around. */
  predicate IsPunct(c: char) {
    c == '{' || c == '}' || c == ':' || c == ';' || c == ','
  }

  /** The characters that JavaScript's `.` does not match. */
  predicate IsLineTerminator(c: char) {
    c == '\n' || c == '\r' || c == '\U{2028}' || c == '\U{2029}'
  }

  /** Case folding under the `i` flag. Only ASCII letters fold: JavaScript never
      folds a non-ASCII character onto an ASCII one, and every literal matched
      case-insensitively here is ASCII. */
  function Lower(c: char): char {
    if 'A' <= c <= 'Z' then (c as int + 32) as char else c
  }

  /** The lower-case ASCII literal `lit` occurs at position `i` of `t`, ignoring case. */
  predicate LitAt(t: string, i: nat, lit: string) {
    i + |lit| <= |t| && forall k :: 0 <= k < |lit| ==> Lower(t[i + k]) == lit[k]
  }

  lemma LitAtShift(t: string, i: nat, lit: string)
    requires i <= |t|
    ensures LitAt(t[i..], 0, lit) <==> LitAt(t, i, lit)
  {
    if i + |lit| <= |t| {
      assert forall k :: 0 <= k < |lit| ==> t[i..][k] == t[i + k];
    }
  }

  /** The literal `lit` occurs at position `i` of `t`, exactly. */
  predicate ExactAt(t: string, i: nat, lit: string) {
    i + |lit| <= |t| && t[i..i + |lit|] == lit
  }

  predicate AllSpace(s: string) {
    forall i :: 0 <= i < |s| ==> IsSpace(s[i])
  }

  /** Every character of `t[a..b]` is `\s`. */
  predicate SpacesIn(t: string, a: nat, b: nat) {
    forall i :: a <= i < b && i < |t| ==> IsSpace(t[i])
  }

  predicate AllRef(s: string) {
    forall i :: 0 <= i < |s| ==> IsRefChar(s[i])
  }

  /** Length of the longest run of `\s` starting at `i` (what a greedy `\s*` takes). */
  function SpaceRun(t: string, i: nat): (n: nat)
    requires i <= |t|
    ensures i + n <= |t|
    ensures i + n == |t| || !IsSpace(t[i + n])
    decreases |t| - i
  {
    if i < |t| && IsSpace(t[i]) then 1 + SpaceRun(t, i + 1) else 0
  }

  /** A greedy `\s*` takes only white space. */
  lemma {:induction false} SpaceRunSpaces(t: string, i: nat)
    requires i <= |t|
    ensures SpacesIn(t, i, i + SpaceRun(t, i))
    decreases |t| - i
  {
    if i < |t| && IsSpace(t[i]) {
      SpaceRunSpaces(t, i + 1);
    }
  }

  /** The run of white space from `i` has length `n` when `n` spaces are
      followed by something else. */
  lemma {:induction false} SpaceRunIs(t: string, i: nat, n: nat)
    requires i + n <= |t| && SpacesIn(t, i, i + n)
    requires i + n == |t| || !IsSpace(t[i + n])
    ensures SpaceRun(t, i) == n
    decreases n
  {
    if n > 0 {
      SpaceRunIs(t, i + 1, n - 1);
    }
  }

  /** The run of white space from `i + j` in `t` is the one from `j` in `t[i..]`. */
  lemma SpaceRunShift(t: string, i: nat, j: nat)
    requires i + j <= |t|
    ensures SpaceRun(t[i..], j) == SpaceRun(t, i + j)
  {
    var n := SpaceRun(t, i + j);
    SpaceRunSpaces(t, i + j);
    assert forall k :: j <= k < |t| - i ==> t[i..][k] == t[i + k];
    SpaceRunIs(t[i..], j, n);
  }

  /** A greedy `\s*` takes at least the spaces that are there. */
  lemma {:induction false} SpaceRunCovers(t: string, i: nat, m: nat)
    requires i + m <= |t| && SpacesIn(t, i, i + m)
    ensures SpaceRun(t, i) >= m
    decreases m
  {
    if m > 0 {
      SpaceRunCovers(t, i + 1, m - 1);
    }
  }

  /** Length of the longest run of `[\w\-\.\/\?=]` starting at `i`. */
  function RefRun(t: string, i: nat): (n: nat)
    requires i <= |t|
    ensures i + n <= |t|
    ensures AllRef(t[i..i + n])
    ensures i + n == |t| || !IsRefChar(t[i + n])
    decreases |t| - i
  {
    if i < |t| && IsRefChar(t[i]) then
      var m := RefRun(t, i + 1);
      assert t[i..i + 1 + m] == [t[i]] + t[i + 1..i + 1 + m];
      1 + m
    else 0
  }

  /** A greedy `[\w\-\.\/\?=]+` takes at least the reference characters that are there. */
  lemma {:induction false} RefRunCovers(t: string, i: nat, m: nat)
    requires i + m <= |t| && AllRef(t[i..i + m])
    ensures RefRun(t, i) >= m
    decreases m
  {
    if m > 0 {
      assert t[i..i + m][0] == t[i];
      assert t[i + 1..i + m] == t[i..i + m][1..];
      RefRunCovers(t, i + 1, m - 1);
    }
  }

  /** `s.split(sep)` with a one-character separator: the pieces between the
      separators, at least one. */
  function Split(s: string, sep: char): (r: seq<string>)
    ensures |r| >= 1
    ensures forall k :: 0 <= k < |r| ==> sep !in r[k]
    decreases |s|
  {
    if s == [] then [[]]
    else if s[0] == sep then [[]] + Split(s[1..], sep)
    else
      var rest := Split(s[1..], sep);
      [[s[0]] + rest[0]] + rest[1..]
  }

  /** `parts.join(sep)` */
  function JoinWith(parts: seq<string>, sep: char): string {
    if parts == [] then []
    else if |parts| == 1 then parts[0]
    else parts[0] + [sep] + JoinWith(parts[1..], sep)
  }

  /** Splitting and joining again gives the text back. */
  lemma {:induction false} JoinSplit(s: string, sep: char)
    ensures JoinWith(Split(s, sep), sep) == s
    decreases |s|
  {
    if s != [] {
      JoinSplit(s[1..], sep);
      var rest := Split(s[1..], sep);
      if s[0] == sep {
        assert s == [sep] + s[1..];
      } else if |rest| == 1 {
        assert s == [s[0]] + s[1..];
      } else {
        assert JoinWith(rest, sep) == rest[0] + [sep] + JoinWith(rest[1..], sep);
        assert s == [s[0]] + s[1..];
      }
    }
  }

  /** A piece free of the separator, then the separator, splits off first. */
  lemma {:induction false} SplitCons(a: string, sep: char, b: string)
    requires sep !in a
    ensures Split(a + [sep] + b, sep) == [a] + Split(b, sep)
    decreases |a|
  {
    if a == [] {
      assert a + [sep] + b == [sep] + b;
    } else {
      assert (a + [sep] + b)[1..] == a[1..] + [sep] + b;
      SplitCons(a[1..], sep, b);
      assert [a[0]] + a[1..] == a;
    }
  }

  /** Text free of the separator is one piece. */
  lemma {:induction false} SplitNone(a: string, sep: char)
    requires sep !in a
    ensures Split(a, sep) == [a]
    decreases |a|
  {
    if a != [] {
      SplitNone(a[1..], sep);
      assert [a[0]] + a[1..] == a;
    }
  }

  /** Every occurrence of `from` replaced by `to`; `s.replace(/\\/g, '/')` is
      `ReplaceChar(s, '\\', '/')`. */
  function ReplaceChar(s: string, from: char, to: char): (r: string)
    ensures |r| == |s|
    ensures forall i :: 0 <= i < |s| ==> r[i] == if s[i] == from then to else s[i]
  {
    seq(|s|, i requires 0 <= i < |s| => if s[i] == from then to else s[i])
  }

  /** With `from` and `to` distinct, no `from` is left, a second pass changes
      nothing, and every `from` has become one more `to`. */
  lemma {:induction false} ReplaceCharRemoves(s: string, from: char, to: char)
    requires from != to
    ensures from !in ReplaceChar(s, from, to)
    ensures ReplaceChar(ReplaceChar(s, from, to), from, to) == ReplaceChar(s, from, to)
    ensures Count(ReplaceChar(s, from, to), to) == Count(s, to) + Count(s, from)
    decreases |s|
  {
    if s != [] {
      ReplaceCharRemoves(s[1..], from, to);
      assert ReplaceChar(s, from, to)[1..] == ReplaceChar(s[1..], from, to);
    }
  }

  /** Number of occurrences of `c` in `s`. */
  function Count(s: string, c: char): nat {
    if s == [] then 0 else (if s[0] == c then 1 else 0) + Count(s[1..], c)
  }

  lemma CountAppend(a: string, b: string, c: char)
    ensures Count(a + b, c) == Count(a, c) + Count(b, c)
  {
    if a == [] {
      assert a + b == b;
    } else {
      assert (a + b)[1..] == a[1..] + b;
      CountAppend(a[1..], b, c);
    }
  }
}
