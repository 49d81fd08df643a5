/** What `combine` removes from a stylesheet before it looks for imports: a
    leading byte-order mark, block comments and `@charset` rules
    (tasks/css_to_js.js:45-52); the older plugin removes only comments there and
    `@charset` declarations later, in `compress` (grunt-jcss.js:54-55, 108). */
module Strip {
  import opened Text
  import opened Scan

  /** `/^\xef\xbb\xbf/`: the three characters U+00EF U+00BB U+00BF, which is how
      the UTF-8 byte-order mark reads when its bytes are taken as Latin-1. */
  const Bom: string := "\U{00EF}\U{00BB}\U{00BF}"

  /** The mark is removed only where the text begins with it. */
  function StripBom(s: string): (r: string)
    ensures |s| >= 3 && s[..3] == Bom ==> s == Bom + r
    ensures !(|s| >= 3 && s[..3] == Bom) ==> r == s
  {
    if |s| >= 3 && s[..3] == Bom then s[3..] else s
  }

  predicate OpenAt(t: string, k: nat) {
    k + 1 < |t| && t[k] == '/' && t[k + 1] == '*'
  }

  predicate CloseAt(t: string, k: nat) {
    k + 1 < |t| && t[k] == '*' && t[k + 1] == '/'
  }

  /** The first `*` `/` pair starting at `j` or later. */
  function CloseFrom(t: string, j: nat): (r: Option<nat>)
    ensures r.Some? ==> j <= r.value && CloseAt(t, r.value)
    ensures r.Some? ==> forall k :: j <= k < r.value ==> !CloseAt(t, k)
    ensures r.None? ==> forall k :: j <= k ==> !CloseAt(t, k)
    decreases |t| - j
  {
    if j + 1 >= |t| then None
    else if CloseAt(t, j) then Some(j)
    else CloseFrom(t, j + 1)
  }

  /** `\/\*[\s\S]*?\*\/` at the start of `t`: the lazy middle stops at the first
      `*` `/` that begins two or more characters after the opening `/`. */
  function CommentAt(t: string): (r: Option<Found<()>>)
    ensures r.Some? ==> 4 <= r.value.len <= |t|
    ensures r.Some? ==> OpenAt(t, 0) && CloseAt(t, r.value.len - 2)
    ensures r.Some? ==> forall k :: 2 <= k < r.value.len - 2 ==> !CloseAt(t, k)
    ensures OpenAt(t, 0) && (exists k :: 2 <= k && CloseAt(t, k)) ==> r.Some?
  {
    if OpenAt(t, 0) then
      match CloseFrom(t, 2)
      case Some(k) => Some(Found(k + 2, ()))
      case None => None
    else None
  }

  // s.replace(/\/\*[\s\S]*?\*\//g, '')
  function StripComments(s: string): string {
    Replace(s, CommentAt, "")
  }

  /** Text in which no comment opens is left as it is. */
  lemma NoCommentUnchanged(s: string)
    requires forall k :: !OpenAt(s, k)
    ensures StripComments(s) == s
  {
    forall i | 0 <= i < |s| ensures CommentAt(s[i..]).None? {
      assert !OpenAt(s, i);
    }
    NoMatchKeepsText(s, CommentAt, "");
  }

  /** A comment that is never closed stays: if no comment opens before `i`
      and no `*` `/` begins at `i + 2` or later, nothing is removed, whatever
      openers the text holds from `i` on. */
  lemma UnclosedCommentKept(s: string, i: nat)
    requires forall k: nat :: k < i ==> !OpenAt(s, k)
    requires forall k: nat :: i + 2 <= k ==> !CloseAt(s, k)
    ensures StripComments(s) == s
  {
    forall p | 0 <= p < |s| ensures CommentAt(s[p..]).None? {
      var t := s[p..];
      if CommentAt(t).Some? {
        assert OpenAt(s, p);
        var k := CommentAt(t).value.len - 2;
        assert CloseAt(t, k);
        assert CloseAt(s, p + k);
      }
    }
    NoMatchKeepsText(s, CommentAt, "");
  }

  /** The first comment, from its `/` `*` at `i` to the first `*` `/` at `j`
      (two or more characters later), is cut out, and the scan goes on after
      it. */
  lemma StripCommentsFirst(s: string, i: nat, j: nat)
    requires forall k: nat :: k < i ==> !OpenAt(s, k)
    requires OpenAt(s, i) && i + 2 <= j && CloseAt(s, j)
    requires forall k :: i + 2 <= k < j ==> !CloseAt(s, k)
    ensures StripComments(s) == s[..i] + StripComments(s[j + 2..])
  {
    NoCommentBefore(s, i);
    CommentAtFirst(s, i, j);
    RemoveFirstMatch(s, CommentAt, i, j + 2);
  }

  lemma NoCommentBefore(s: string, i: nat)
    requires i <= |s| && forall k: nat :: k < i ==> !OpenAt(s, k)
    ensures forall k :: 0 <= k < i ==> CommentAt(s[k..]).None?
  {
    forall k | 0 <= k < i ensures CommentAt(s[k..]).None? {
      assert !OpenAt(s, k);
    }
  }

  lemma CommentAtFirst(s: string, i: nat, j: nat)
    requires OpenAt(s, i) && i + 2 <= j && CloseAt(s, j)
    requires forall k :: i + 2 <= k < j ==> !CloseAt(s, k)
    ensures CommentAt(s[i..]) == Some(Found(j - i + 2, ()))
  {
    var t := s[i..];
    assert CloseAt(t, j - i);
    forall k | 2 <= k < j - i ensures !CloseAt(t, k) {
      assert !CloseAt(s, i + k);
    }
    CommentAtIs(t, j - i);
  }

  lemma CommentAtIs(t: string, n: nat)
    requires OpenAt(t, 0) && 2 <= n && CloseAt(t, n)
    requires forall k :: 2 <= k < n ==> !CloseAt(t, k)
    ensures CommentAt(t) == Some(Found(n + 2, ()))
  {
  }

  /** A closed comment followed by one left open: the first goes, the second
      stays. */
  lemma ClosedThenUnclosed()
    ensures StripComments("/*a*/b/*c") == "b/*c"
  {
    var s := "/*a*/b/*c";
    StripCommentsFirst(s, 0, 3);
    var rest := s[5..];
    assert rest == "b/*c";
    assert forall k: nat :: 3 <= k ==> !CloseAt(rest, k);
    UnclosedCommentKept(rest, 1);
  }

  /** `@charset`, in any case, at `p`, then a character other than `;`, and a
      `;` somewhere after it: what `@charset[^;]+;` needs to match at `p`. */
  predicate CharsetStarts(t: string, p: nat) {
    LitAt(t, p, "@charset") && p + 8 < |t| && t[p + 8] != ';'
    && exists k :: p + 9 <= k < |t| && t[k] == ';'
  }

  /** `@charset[^;]+;` (and `\s*` after it when `trailing`) at the start of `t`,
      ignoring case. */
  function CharsetAt(t: string, trailing: bool): (r: Option<Found<()>>)
    ensures r.Some? ==> 10 <= r.value.len <= |t|
  {
    if !LitAt(t, 0, "@charset") || |t| <= 8 || t[8] == ';' then None
    else
      match SemicolonFrom(t, 9)
      case None => None
      case Some(k) =>
        var n := if trailing then SpaceRun(t, k + 1) else 0;
        Some(Found(k + 1 + n, ()))
  }

  /** The pattern matches exactly where `@charset` starts a rule, and what it
      matches is `@charset`, at least one character other than `;`, the first
      `;` after it, and with `trailing` the white space after that. */
  lemma CharsetAtMatches(t: string, trailing: bool)
    ensures CharsetAt(t, trailing).Some? <==> CharsetStarts(t, 0)
    ensures CharsetAt(t, trailing).Some? ==>
      var n := CharsetAt(t, trailing).value.len;
      LitAt(t, 0, "@charset") &&
      exists k :: 9 <= k < n && t[k] == ';'
        && (forall j :: 8 <= j < k ==> t[j] != ';')
        && SpacesIn(t, k + 1, n)
        && n == k + 1 + (if trailing then SpaceRun(t, k + 1) else 0)
  {
    if CharsetStarts(t, 0) {
      var k :| 9 <= k < |t| && t[k] == ';';
      assert SemicolonFrom(t, 9).Some?;
      SpaceRunSpaces(t, SemicolonFrom(t, 9).value + 1);
    }
  }

  function SemicolonFrom(t: string, j: nat): (r: Option<nat>)
    ensures r.Some? ==> j <= r.value < |t| && t[r.value] == ';'
    ensures r.Some? ==> forall k :: j <= k < r.value ==> t[k] != ';'
    ensures r.None? ==> forall k :: j <= k < |t| ==> t[k] != ';'
    decreases |t| - j
  {
    if j >= |t| then None
    else if t[j] == ';' then Some(j)
    else SemicolonFrom(t, j + 1)
  }

  function CharsetRuleAt(t: string): (r: Option<Found<()>>)
    ensures r.Some? ==> 0 < r.value.len <= |t|
  {
    CharsetAt(t, true)
  }

  function CharsetDeclAt(t: string): (r: Option<Found<()>>)
    ensures r.Some? ==> 0 < r.value.len <= |t|
  {
    CharsetAt(t, false)
  }

  // s.replace(/@charset[^;]+;\s*/ig, '')
  function StripCharsetRules(s: string): string {
    Replace(s, CharsetRuleAt, "")
  }

  // s.replace(/@charset[^;]+;/ig, '')
  function StripCharsetDecls(s: string): string {
    Replace(s, CharsetDeclAt, "")
  }

  /** `@charset` read at `p` of `s` is `@charset` read at the start of `s[p..]`. */
  lemma CharsetStartsShift(s: string, p: nat)
    requires p <= |s|
    ensures CharsetStarts(s[p..], 0) <==> CharsetStarts(s, p)
  {
    var t := s[p..];
    assert forall k :: 0 <= k < |t| ==> t[k] == s[p + k];
    if CharsetStarts(s, p) {
      var k :| p + 9 <= k < |s| && s[k] == ';';
      assert t[k - p] == ';';
    }
    if CharsetStarts(t, 0) {
      var k :| 9 <= k < |t| && t[k] == ';';
      assert s[p + k] == ';';
    }
  }

  lemma NoCharsetBefore(s: string, i: nat, trailing: bool)
    requires i <= |s| && forall p: nat :: p < i ==> !CharsetStarts(s, p)
    ensures forall p :: 0 <= p < i ==> CharsetAt(s[p..], trailing).None?
  {
    forall p | 0 <= p < i ensures CharsetAt(s[p..], trailing).None? {
      CharsetStartsShift(s, p);
      CharsetAtMatches(s[p..], trailing);
    }
  }

  /** The rule starting at `i`, whose first `;` is at `k`, is as long as the
      text up to that `;` and, with `trailing`, the white space after it. */
  lemma CharsetAtFirst(s: string, i: nat, k: nat, trailing: bool)
    requires LitAt(s, i, "@charset") && i + 9 <= k < |s| && s[k] == ';'
    requires forall j :: i + 8 <= j < k ==> s[j] != ';'
    ensures CharsetAt(s[i..], trailing) == Some(Found(k + 1 - i + (if trailing then SpaceRun(s, k + 1) else 0), ()))
  {
    CharsetShift(s, i, k);
    CharsetAtIs(s[i..], k - i, trailing);
  }

  lemma CharsetShift(s: string, i: nat, k: nat)
    requires LitAt(s, i, "@charset") && i + 9 <= k < |s| && s[k] == ';'
    requires forall j :: i + 8 <= j < k ==> s[j] != ';'
    ensures LitAt(s[i..], 0, "@charset") && s[i..][k - i] == ';'
    ensures forall j :: 8 <= j < k - i ==> s[i..][j] != ';'
    ensures SpaceRun(s[i..], k - i + 1) == SpaceRun(s, k + 1)
  {
    var t := s[i..];
    LitAtShift(s, i, "@charset");
    forall j | 8 <= j < k - i ensures t[j] != ';' {
      assert t[j] == s[i + j];
    }
    SpaceRunShift(s, i, k - i + 1);
  }

  lemma CharsetAtIs(t: string, k: nat, trailing: bool)
    requires LitAt(t, 0, "@charset") && 9 <= k < |t| && t[k] == ';'
    requires forall j :: 8 <= j < k ==> t[j] != ';'
    ensures CharsetAt(t, trailing) == Some(Found(k + 1 + (if trailing then SpaceRun(t, k + 1) else 0), ()))
  {
    assert SemicolonFrom(t, 9) == Some(k);
  }

  /** The first `@charset` rule, at `i` with its first `;` at `k`, is cut out:
      up to that `;` by the declaration pass, and up to `m`, the end of the
      white space after it, by the rule pass; each scan goes on after what it
      cut. */
  lemma StripCharsetFirst(s: string, i: nat, k: nat, m: nat)
    requires forall p: nat :: p < i ==> !CharsetStarts(s, p)
    requires LitAt(s, i, "@charset") && i + 9 <= k < |s| && s[k] == ';'
    requires forall j :: i + 8 <= j < k ==> s[j] != ';'
    requires k < m <= |s| && SpacesIn(s, k + 1, m) && (m == |s| || !IsSpace(s[m]))
    ensures StripCharsetDecls(s) == s[..i] + StripCharsetDecls(s[k + 1..])
    ensures StripCharsetRules(s) == s[..i] + StripCharsetRules(s[m..])
  {
    StripCharsetDeclFirst(s, i, k);
    StripCharsetRuleFirst(s, i, k, m);
  }

  lemma StripCharsetDeclFirst(s: string, i: nat, k: nat)
    requires forall p: nat :: p < i ==> !CharsetStarts(s, p)
    requires LitAt(s, i, "@charset") && i + 9 <= k < |s| && s[k] == ';'
    requires forall j :: i + 8 <= j < k ==> s[j] != ';'
    ensures StripCharsetDecls(s) == s[..i] + StripCharsetDecls(s[k + 1..])
  {
    NoCharsetBefore(s, i, false);
    CharsetAtFirst(s, i, k, false);
    RemoveFirstMatch(s, CharsetDeclAt, i, k + 1);
  }

  lemma StripCharsetRuleFirst(s: string, i: nat, k: nat, m: nat)
    requires forall p: nat :: p < i ==> !CharsetStarts(s, p)
    requires LitAt(s, i, "@charset") && i + 9 <= k < |s| && s[k] == ';'
    requires forall j :: i + 8 <= j < k ==> s[j] != ';'
    requires k < m <= |s| && SpacesIn(s, k + 1, m) && (m == |s| || !IsSpace(s[m]))
    ensures StripCharsetRules(s) == s[..i] + StripCharsetRules(s[m..])
  {
    NoCharsetBefore(s, i, true);
    CharsetAtFirst(s, i, k, true);
    SpaceRunIs(s, k + 1, m - k - 1);
    CutCharsetRule(s, i, m);
  }

  lemma CutCharsetRule(s: string, i: nat, j: nat)
    requires i <= j <= |s| && forall p :: 0 <= p < i ==> CharsetAt(s[p..], true).None?
    requires CharsetAt(s[i..], true).Some? && CharsetAt(s[i..], true).value.len == j - i
    ensures StripCharsetRules(s) == s[..i] + StripCharsetRules(s[j..])
  {
    RemoveFirstMatch(s, CharsetRuleAt, i, j);
  }

  /** Text in which no `@charset` rule starts is left as it is. */
  lemma NoCharsetUnchanged(s: string)
    requires forall p: nat :: !CharsetStarts(s, p)
    ensures StripCharsetRules(s) == s
    ensures StripCharsetDecls(s) == s
  {
    NoCharsetBefore(s, |s|, true);
    NoCharsetBefore(s, |s|, false);
    NoMatchKeepsText(s, CharsetRuleAt, "");
    NoMatchKeepsText(s, CharsetDeclAt, "");
  }
}
