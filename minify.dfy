/** `compress`: the chain of replacements that shrinks a combined stylesheet,
    with the configured `@charset` rule put in front (tasks/css_to_js.js:102-108,
    grunt-jcss.js:105-112). Each global replacement is written as the scan it
    performs: at each position the pattern either matches, and the scan resumes
    after the match, or it does not, and one character is kept. */
module Minify {
  import opened Text
  import Strip

  // ---------------------------------------------------------------------
  // The steps

  /** `s.replace(/\s*([\{\}:;,])\s*\/g, '$1')`: the white space on both sides of
      each `{ } : ; ,` removed. The greedy `\s*` before the punctuation can only
      succeed by taking the whole run of spaces. */
  function Collapse(s: string): string
    decreases |s|
  {
    if s == [] then []
    else if PunctHere(s) then [s[SpaceRun(s, 0)]] + Collapse(s[PunctEnd(s)..])
    else [s[0]] + Collapse(s[1..])
  }

  /** White space, possibly none, then one of `{ } : ; ,` at the start of `s`. */
  predicate PunctHere(s: string) {
    SpaceRun(s, 0) < |s| && IsPunct(s[SpaceRun(s, 0)])
  }

  /** Where the match of `\s*([\{\}:;,])\s*` at the start of `s` ends. */
  function PunctEnd(s: string): (e: nat)
    requires PunctHere(s)
    ensures SpaceRun(s, 0) < e <= |s|
  {
    SpaceRun(s, 0) + 1 + SpaceRun(s, SpaceRun(s, 0) + 1)
  }

  const Important: string := "!important"

  /** `s.replace(/\s+!important/ig, '!important')`: the white space before
      `!important`, written in any case, removed; the word itself comes out in
      lower case. */
  function Tighten(s: string): string
    decreases |s|
  {
    if s == [] then []
    else
      if ImportantHere(s) then Important + Tighten(s[ImportantEnd(s)..])
      else [s[0]] + Tighten(s[1..])
  }

  /** White space, then `!important` in any case, at the start of `s`. */
  predicate ImportantHere(s: string) {
    SpaceRun(s, 0) >= 1 && LitAt(s, SpaceRun(s, 0), Important)
  }

  /** Where the match of `\s+!important` at the start of `s` ends. */
  function ImportantEnd(s: string): (e: nat)
    requires ImportantHere(s)
    ensures 0 < e <= |s|
  {
    SpaceRun(s, 0) + |Important|
  }

  /** `s.replace(/;\}/g, '}')` */
  function DropSemiBrace(s: string): string
    decreases |s|
  {
    if |s| >= 2 && s[0] == ';' && s[1] == '}' then "}" + DropSemiBrace(s[2..])
    else if s == [] then []
    else [s[0]] + DropSemiBrace(s[1..])
  }

  /** `s.replace(/\n+/g, '')`: every line feed removed (each run of them is one match). */
  function DropNewlines(s: string): string {
    if s == [] then []
    else if s[0] == '\n' then DropNewlines(s[1..])
    else [s[0]] + DropNewlines(s[1..])
  }

  /** No line feed is left. */
  lemma {:induction false} DropNewlinesNone(s: string)
    ensures forall k :: 0 <= k < |DropNewlines(s)| ==> DropNewlines(s)[k] != '\n'
    decreases |s|
  {
    if s != [] {
      DropNewlinesNone(s[1..]);
    }
  }

  /** Number of white-space characters at the end of `s`. */
  function TrailRun(s: string): (n: nat)
    ensures n <= |s| && SpacesIn(s, |s| - n, |s|)
    ensures n < |s| ==> !IsSpace(s[|s| - 1 - n])
  {
    if s == [] || !IsSpace(s[|s| - 1]) then 0
    else
      var n := TrailRun(s[..|s| - 1]);
      assert forall i :: |s| - 1 - n <= i < |s| - 1 ==> s[..|s| - 1][i] == s[i];
      1 + n
  }

  /** `s.replace(/^\s*(\S+(\s+\S+)*)\s*$/, '$1')`: leading and trailing white
      space removed; text with no other character does not match and is left as
      it is. */
  function Trim(s: string): string {
    var a := SpaceRun(s, 0);
    if a == |s| then s else s[a..|s| - TrailRun(s)]
  }

  /** Text that is all white space is kept; otherwise what remains is a slice
      with only white space cut on either side, and it neither starts nor ends
      with white space. */
  lemma TrimShape(s: string)
    ensures AllSpace(s) ==> Trim(s) == s
    ensures !AllSpace(s) ==> exists a, b :: 0 <= a < b <= |s| && Trim(s) == s[a..b]
                                && SpacesIn(s, 0, a) && SpacesIn(s, b, |s|)
    ensures !AllSpace(s) ==> Trim(s) != [] && !IsSpace(Trim(s)[0]) && !IsSpace(Trim(s)[|Trim(s)| - 1])
  {
    var a := SpaceRun(s, 0);
    SpaceRunSpaces(s, 0);
    if a == |s| {
      assert forall i :: 0 <= i < |s| ==> IsSpace(s[i]);
    } else {
      var b := |s| - TrailRun(s);
      assert a < b;
      assert !AllSpace(s);
    }
  }

  /** `compress` of tasks/css_to_js.js. */
  function Compress(charset: string, s: string): string {
    charset + Trim(DropNewlines(DropSemiBrace(Tighten(Collapse(s)))))
  }

  /** `compress` of grunt-jcss.js: `@charset` declarations are removed after
      `!important` is tightened. */
  function CompressJcss(charset: string, s: string): string {
    charset + Trim(DropNewlines(DropSemiBrace(Strip.StripCharsetDecls(Tighten(Collapse(s))))))
  }

  // ---------------------------------------------------------------------
  // No white space next to punctuation

  predicate PairOk(a: char, b: char) {
    !(IsSpace(a) && IsPunct(b)) && !(IsPunct(a) && IsSpace(b))
  }

  /** No white space stands right before or right after `{ } : ; ,`. */
  ghost predicate Tidy(s: string) {
    forall i :: 0 <= i < |s| - 1 ==> PairOk(s[i], s[i + 1])
  }

  lemma ConcatTidy(x: string, y: string)
    requires Tidy(x) && Tidy(y)
    requires x != [] && y != [] ==> PairOk(x[|x| - 1], y[0])
    ensures Tidy(x + y)
  {
    var xy := x + y;
    forall i | 0 <= i < |xy| - 1 ensures PairOk(xy[i], xy[i + 1]) {
      if i < |x| - 1 {
        assert xy[i] == x[i] && xy[i + 1] == x[i + 1];
      } else if i >= |x| {
        assert xy[i] == y[i - |x|] && xy[i + 1] == y[i - |x| + 1];
      }
    }
  }

  lemma SliceTidy(s: string, a: nat, b: nat)
    requires Tidy(s) && a <= b <= |s|
    ensures Tidy(s[a..b])
  {
    var t := s[a..b];
    forall i | 0 <= i < |t| - 1 ensures PairOk(t[i], t[i + 1]) {
      assert t[i] == s[a + i] && t[i + 1] == s[a + i + 1];
    }
  }

  /** Dropping a leading space shortens the leading run by one. */
  lemma SpaceRunTail(s: string)
    requires s != [] && IsSpace(s[0])
    ensures SpaceRun(s[1..], 0) == SpaceRun(s, 0) - 1
  {
    var w := SpaceRun(s, 0);
    var t := s[1..];
    SpaceRunSpaces(s, 0);
    assert forall k :: 0 <= k < w - 1 ==> t[k] == s[k + 1];
    SpaceRunIs(t, 0, w - 1);
  }

  /** After collapsing, no white space touches punctuation. */
  lemma {:induction false} CollapseTidy(s: string)
    ensures Tidy(Collapse(s))
    decreases |s|
  {
    if s != [] {
      if PunctHere(s) {
        CollapseTidy(s[PunctEnd(s)..]);
        CollapseMatchStep(s);
      } else {
        CollapseTidy(s[1..]);
        CollapseKeepStep(s);
      }
    }
  }

  /** The first character collapsing produces: the punctuation a leading run
      of spaces leads to, or else the first character itself. */
  lemma CollapseHead(t: string)
    requires t != []
    ensures Collapse(t) != []
    ensures var w := SpaceRun(t, 0);
      Collapse(t)[0] == if PunctHere(t) then t[w] else t[0]
  {
  }

  lemma CollapseMatchStep(s: string)
    requires s != [] && PunctHere(s)
    requires Tidy(Collapse(s[PunctEnd(s)..]))
    ensures Tidy(Collapse(s))
  {
    var w := SpaceRun(s, 0);
    var e := PunctEnd(s);
    var rest := s[e..];
    CollapseMatchUnfold(s);
    if rest != [] {
      assert rest[0] == s[e];
      CollapseHead(rest);
    }
    ConcatTidy([s[w]], Collapse(rest));
  }

  lemma CollapseMatchUnfold(s: string)
    requires s != [] && PunctHere(s)
    ensures Collapse(s) == [s[SpaceRun(s, 0)]] + Collapse(s[PunctEnd(s)..])
  {
  }

  lemma CollapseKeepStep(s: string)
    requires s != [] && !PunctHere(s)
    requires Tidy(Collapse(s[1..]))
    ensures Tidy(Collapse(s))
  {
    var rest := s[1..];
    if rest != [] {
      CollapseHead(rest);
      if IsSpace(s[0]) {
        SpaceRunTail(s);
        assert !IsPunct(Collapse(rest)[0]);
      }
    }
    ConcatTidy([s[0]], Collapse(rest));
  }

  // ---------------------------------------------------------------------
  // `!important`

  /** No white space stands right before a `!important`, in any case. */
  ghost predicate ImportantTight(s: string) {
    forall i: nat :: 1 <= i && LitAt(s, i, Important) ==> !IsSpace(s[i - 1])
  }

  /** A case-insensitive literal after a prefix is the literal in what follows. */
  lemma LitAtShift(x: string, y: string, i: nat, lit: string)
    requires i >= |x|
    ensures LitAt(x + y, i, lit) <==> LitAt(y, i - |x|, lit)
  {
    if LitAt(x + y, i, lit) {
      forall k | 0 <= k < |lit| ensures Lower(y[i - |x| + k]) == lit[k] {
        assert (x + y)[i + k] == y[i - |x| + k];
      }
    }
    if LitAt(y, i - |x|, lit) {
      forall k | 0 <= k < |lit| ensures Lower((x + y)[i + k]) == lit[k] {
        assert (x + y)[i + k] == y[i - |x| + k];
      }
    }
  }

  lemma TightenMatchUnfold(s: string)
    requires s != [] && ImportantHere(s)
    ensures Tighten(s) == Important + Tighten(s[ImportantEnd(s)..])
  {
  }

  lemma TightenKeepUnfold(s: string)
    requires s != [] && !ImportantHere(s)
    ensures Tighten(s) == [s[0]] + Tighten(s[1..])
  {
  }

  /** Up to the first `!` it produces, tightening copies its input unchanged. */
  lemma {:induction false} TightenVerbatim(u: string, n: nat)
    requires n <= |Tighten(u)|
    requires forall k :: 0 <= k < n ==> Tighten(u)[k] != '!'
    ensures n <= |u| && u[..n] == Tighten(u)[..n]
    decreases |u|
  {
    if n > 0 {
      assert u != [];
      if ImportantHere(u) {
        TightenMatchHead(u);
        assert false;
      } else {
        TightenKeepShift(u, n);
        TightenVerbatim(u[1..], n - 1);
        TightenKeepJoin(u, n);
      }
    }
  }

  /** Where nothing matches at the start, the output after its first
      character is the output for the input after its first character. */
  lemma TightenKeepShift(u: string, n: nat)
    requires u != [] && !ImportantHere(u) && 0 < n <= |Tighten(u)|
    requires forall k :: 0 <= k < n ==> Tighten(u)[k] != '!'
    ensures n - 1 <= |Tighten(u[1..])|
    ensures forall k :: 0 <= k < n - 1 ==> Tighten(u[1..])[k] != '!'
  {
    TightenKeepUnfold(u);
    var t, t1 := Tighten(u), Tighten(u[1..]);
    assert forall k :: 0 <= k < n - 1 ==> t1[k] == t[k + 1];
  }

  lemma TightenKeepJoin(u: string, n: nat)
    requires u != [] && !ImportantHere(u) && 0 < n
    requires n - 1 <= |u[1..]| && n - 1 <= |Tighten(u[1..])|
    requires u[1..][..n - 1] == Tighten(u[1..])[..n - 1]
    ensures n <= |u| && u[..n] == Tighten(u)[..n]
  {
    TightenKeepUnfold(u);
    var t, t1 := Tighten(u), Tighten(u[1..]);
    assert u[..n] == [u[0]] + u[1..][..n - 1];
    assert t[..n] == [u[0]] + t1[..n - 1];
  }

  /** Where a run of spaces was not followed by `!important`, tightening the
      rest after its first space cannot produce one. */
  lemma NoImportantAfterSpace(s: string)
    requires s != [] && IsSpace(s[0])
    requires !ImportantHere(s)
    ensures !LitAt(Tighten(s[1..]), 0, Important)
  {
    var u := s[1..];
    SpaceRunTail(s);
    if LitAt(Tighten(u), 0, Important) {
      if ImportantHere(u) {
        assert false;
      } else {
        ImportantKeptVerbatim(u);
        assert false;
      }
    }
  }

  /** A `!important` that tightening starts with, without having matched at
      the start, was in its input already. */
  lemma ImportantKeptVerbatim(u: string)
    requires u != [] && !ImportantHere(u)
    requires LitAt(Tighten(u), 0, Important)
    ensures LitAt(u, 0, Important) && SpaceRun(u, 0) == 0
  {
    TightenKeepUnfold(u);
    var t := Tighten(u);
    assert Lower(t[0 + 0]) == Important[0] == '!';
    assert u[0] == '!';
    var v := u[1..];
    assert Tighten(v) == t[1..];
    forall k | 0 <= k < |Important| - 1 ensures Tighten(v)[k] != '!' {
      assert Lower(t[k + 1]) == Important[k + 1];
      ImportantLetters(k + 1);
    }
    TightenVerbatim(v, |Important| - 1);
    forall k | 0 <= k < |Important| ensures Lower(u[k]) == Important[k] {
      if k > 0 {
        assert u[k] == v[..|Important| - 1][k - 1] == t[k];
      }
    }
  }

  /** After tightening, no white space stands before a `!important`. */
  lemma {:induction false} TightenImportantTight(s: string)
    ensures ImportantTight(Tighten(s))
    decreases |s|
  {
    if s != [] {
      var w := SpaceRun(s, 0);
      if ImportantHere(s) {
        var rest := s[ImportantEnd(s)..];
        TightenImportantTight(rest);
        TightenMatchUnfold(s);
        ImportantThenTight(Tighten(rest));
      } else {
        TightenImportantTight(s[1..]);
        TightenKeepTight(s);
      }
    }
  }

  /** Where nothing matches at the start, the kept character cannot be white
      space before a `!important`. */
  lemma TightenKeepTight(s: string)
    requires s != [] && !ImportantHere(s)
    requires ImportantTight(Tighten(s[1..]))
    ensures ImportantTight(Tighten(s))
  {
    TightenKeepUnfold(s);
    var out := Tighten(s);
    forall i: nat | 1 <= i && LitAt(out, i, Important) ensures !IsSpace(out[i - 1]) {
      LitAtShift([s[0]], Tighten(s[1..]), i, Important);
      if i == 1 && IsSpace(s[0]) {
        NoImportantAfterSpace(s);
      }
    }
  }

  lemma ImportantThenTight(y: string)
    requires ImportantTight(y)
    ensures ImportantTight(Important + y)
  {
    var out := Important + y;
    forall i: nat | 1 <= i && LitAt(out, i, Important) ensures !IsSpace(out[i - 1]) {
      if i < |Important| {
        assert Lower(out[i + 0]) == Important[0] == '!';
        ImportantLetters(i);
        assert false;
      } else {
        LitAtShift(Important, y, i, Important);
      }
    }
  }

  lemma TightenMatchHead(u: string)
    requires u != [] && ImportantHere(u)
    ensures Tighten(u) != [] && Tighten(u)[0] == '!'
  {
    TightenMatchUnfold(u);
  }

  /** After its `!`, the word is made of lower-case letters. */
  lemma ImportantLetters(k: nat)
    requires 1 <= k < |Important|
    ensures 'a' <= Important[k] <= 'z'
  {
    if k == 1 {} else if k == 2 {} else if k == 3 {} else if k == 4 {} else if k == 5 {}
    else if k == 6 {} else if k == 7 {} else if k == 8 {} else {}
  }

  lemma ImportantTidy()
    ensures Tidy(Important)
    ensures forall k :: 0 <= k < |Important| ==> !IsSpace(Important[k]) && !IsPunct(Important[k])
  {
    forall k | 0 <= k < |Important| ensures !IsSpace(Important[k]) && !IsPunct(Important[k]) {
      if k > 0 {
        ImportantLetters(k);
      }
    }
  }

  /** Tightening keeps text free of white space next to punctuation. */
  lemma {:induction false} TightenTidy(s: string)
    requires Tidy(s)
    ensures Tidy(Tighten(s))
    decreases |s|
  {
    if s != [] {
      var w := SpaceRun(s, 0);
      if ImportantHere(s) {
        var rest := s[ImportantEnd(s)..];
        SliceTidy(s, ImportantEnd(s), |s|);
        TightenTidy(rest);
        TightenMatchUnfold(s);
        ImportantTidy();
        ConcatTidy(Important, Tighten(rest));
      } else {
        SliceTidy(s, 1, |s|);
        TightenTidy(s[1..]);
        TightenKeepStep(s);
      }
    }
  }

  lemma TightenKeepStep(s: string)
    requires s != [] && !ImportantHere(s)
    requires Tidy(s) && Tidy(Tighten(s[1..]))
    ensures Tidy(Tighten(s))
  {
    TightenKeepUnfold(s);
    if |s| > 1 {
      TightenHead(s[1..]);
      assert PairOk(s[0], s[1]);
    }
    ConcatTidy([s[0]], Tighten(s[1..]));
  }

  /** Tightening starts with the first character or with a `!`. */
  lemma TightenHead(t: string)
    requires t != []
    ensures Tighten(t) != [] && (Tighten(t)[0] == t[0] || Tighten(t)[0] == '!')
  {
  }

  // ---------------------------------------------------------------------
  // `;}`, line feeds and the trim

  /** `s` without its semicolons. */
  function NoSemis(s: string): string {
    if s == [] then [] else (if s[0] == ';' then [] else [s[0]]) + NoSemis(s[1..])
  }

  lemma NoSemisCons(c: char, y: string)
    ensures NoSemis([c] + y) == (if c == ';' then [] else [c]) + NoSemis(y)
  {
    assert ([c] + y)[1..] == y;
  }

  /** Dropping the `;` of each `;}` removes semicolons and nothing else. */
  lemma {:induction false} DropSemiBraceOnlySemis(s: string)
    ensures NoSemis(DropSemiBrace(s)) == NoSemis(s)
    decreases |s|
  {
    if |s| >= 2 && s[0] == ';' && s[1] == '}' {
      DropSemiBraceOnlySemis(s[2..]);
      NoSemisCons('}', DropSemiBrace(s[2..]));
      assert s[1..][1..] == s[2..];
    } else if s != [] {
      DropSemiBraceOnlySemis(s[1..]);
      NoSemisCons(s[0], DropSemiBrace(s[1..]));
    }
  }

  /** Dropping `;` before `}` never brings white space next to punctuation. */
  lemma {:induction false} DropSemiBraceTidy(s: string)
    requires Tidy(s)
    ensures Tidy(DropSemiBrace(s))
    decreases |s|
  {
    if |s| >= 2 && s[0] == ';' && s[1] == '}' {
      SliceTidy(s, 2, |s|);
      DropSemiBraceTidy(s[2..]);
      if |s| > 2 {
        DropSemiBraceHead(s[2..]);
        assert PairOk(s[1], s[2]);
      }
      ConcatTidy("}", DropSemiBrace(s[2..]));
    } else if s != [] {
      SliceTidy(s, 1, |s|);
      DropSemiBraceTidy(s[1..]);
      if |s| > 1 {
        DropSemiBraceHead(s[1..]);
        assert PairOk(s[0], s[1]);
      }
      ConcatTidy([s[0]], DropSemiBrace(s[1..]));
    }
  }

  /** The output starts with the first character, or with the `}` of a
      leading `;}`. */
  lemma DropSemiBraceHead(t: string)
    requires t != []
    ensures DropSemiBrace(t) != []
    ensures DropSemiBrace(t)[0] == t[0] || (t[0] == ';' && DropSemiBrace(t)[0] == '}')
  {
  }

  /** Line feeds removed, every other character kept. */
  lemma {:induction false} DropNewlinesKeeps(s: string, c: char)
    requires c != '\n'
    ensures Count(DropNewlines(s), c) == Count(s, c)
    decreases |s|
  {
    if s != [] {
      DropNewlinesKeeps(s[1..], c);
      if s[0] != '\n' {
        assert ([s[0]] + DropNewlines(s[1..]))[1..] == DropNewlines(s[1..]);
      }
    }
  }

  /** Where the output of `DropNewlines` starts: at the first character that
      is not a line feed. */
  lemma {:induction false} DropNewlinesHead(t: string) returns (k: nat)
    requires DropNewlines(t) != []
    ensures k < |t| && DropNewlines(t)[0] == t[k]
    ensures forall j :: 0 <= j < k ==> t[j] == '\n'
    decreases |t|
  {
    if t[0] == '\n' {
      var k' := DropNewlinesHead(t[1..]);
      k := k' + 1;
    } else {
      k := 0;
    }
  }

  /** Removing line feeds never brings white space next to punctuation: a line
      feed between the two would already have stood next to the punctuation. */
  lemma {:induction false} DropNewlinesTidy(s: string)
    requires Tidy(s)
    ensures Tidy(DropNewlines(s))
    decreases |s|
  {
    if s != [] {
      SliceTidy(s, 1, |s|);
      DropNewlinesTidy(s[1..]);
      if s[0] != '\n' {
        var rest := DropNewlines(s[1..]);
        if rest != [] {
          var k := DropNewlinesHead(s[1..]);
          assert rest[0] == s[k + 1];
          if k > 0 {
            assert PairOk(s[0], s[1]) && s[1] == '\n';
            assert PairOk(s[k], s[k + 1]) && s[k] == '\n';
          } else {
            assert PairOk(s[0], s[1]);
          }
        }
        ConcatTidy([s[0]], rest);
      }
    }
  }

  lemma TrimTidy(s: string)
    requires Tidy(s)
    ensures Tidy(Trim(s))
  {
    TrimShape(s);
    if !AllSpace(s) {
      var a, b :| 0 <= a < b <= |s| && Trim(s) == s[a..b];
      SliceTidy(s, a, b);
    }
  }

  // ---------------------------------------------------------------------
  // What each step removes

  /** `;` of `;}` is dropped: every character is kept except a `;` that a `}`
      follows. */
  function SemiBraceFilter(s: string): string {
    if s == [] then []
    else (if |s| >= 2 && s[0] == ';' && s[1] == '}' then [] else [s[0]]) + SemiBraceFilter(s[1..])
  }

  /** Replacing `;}` by `}` removes exactly the semicolons a `}` follows. */
  lemma {:induction false} DropSemiBraceFilters(s: string)
    ensures DropSemiBrace(s) == SemiBraceFilter(s)
    decreases |s|
  {
    if |s| >= 2 && s[0] == ';' && s[1] == '}' {
      DropSemiBraceFilters(s[2..]);
      assert s[1..][1..] == s[2..];
      assert SemiBraceFilter(s[1..]) == "}" + SemiBraceFilter(s[2..]);
    } else if s != [] {
      DropSemiBraceFilters(s[1..]);
    }
  }

  /** Text with no `;}` is left as it is. */
  lemma {:induction false} DropSemiBraceNoPair(s: string)
    requires forall i :: 0 <= i < |s| - 1 ==> !(s[i] == ';' && s[i + 1] == '}')
    ensures DropSemiBrace(s) == s
    decreases |s|
  {
    if s != [] {
      var t := s[1..];
      forall i | 0 <= i < |t| - 1 ensures !(t[i] == ';' && t[i + 1] == '}') {
        assert t[i] == s[i + 1] && t[i + 1] == s[i + 2];
      }
      DropSemiBraceNoPair(t);
      assert !(|s| >= 2 && s[0] == ';' && s[1] == '}');
      assert s == [s[0]] + s[1..];
    }
  }

  /** The pieces glued together with nothing between them. */
  function Concat(parts: seq<string>): string {
    if parts == [] then [] else parts[0] + Concat(parts[1..])
  }

  /** Removing the line feeds joins the lines of the text, in order. */
  lemma {:induction false} DropNewlinesJoinsLines(s: string)
    ensures DropNewlines(s) == Concat(Split(s, '\n'))
    decreases |s|
  {
    if s != [] {
      DropNewlinesJoinsLines(s[1..]);
      var rest := Split(s[1..], '\n');
      if s[0] != '\n' {
        assert Split(s, '\n') == [[s[0]] + rest[0]] + rest[1..];
        assert Concat(rest) == rest[0] + Concat(rest[1..]);
        assert ([[s[0]] + rest[0]] + rest[1..])[1..] == rest[1..];
      }
    }
  }

  /** Text already free of white space next to `{ } : ; ,` is left as it is:
      every match of the pattern is then the bare punctuation. */
  lemma {:induction false} CollapseTidyFixed(s: string)
    requires Tidy(s)
    ensures Collapse(s) == s
    decreases |s|
  {
    if s != [] {
      SliceTidy(s, 1, |s|);
      CollapseTidyFixed(s[1..]);
      if PunctHere(s) {
        CollapseBarePunct(s);
      }
      assert s == [s[0]] + s[1..];
    }
  }

  lemma CollapseBarePunct(s: string)
    requires s != [] && PunctHere(s) && Tidy(s)
    ensures SpaceRun(s, 0) == 0 && PunctEnd(s) == 1
  {
    var w := SpaceRun(s, 0);
    SpaceRunSpaces(s, 0);
    assert w > 0 ==> IsSpace(s[w - 1]) && !PairOk(s[w - 1], s[w]);
    if |s| > 1 {
      assert PairOk(s[0], s[1]);
    }
  }

  /** Collapsing twice is collapsing once. */
  lemma CollapseIdempotent(s: string)
    ensures Collapse(Collapse(s)) == Collapse(s)
  {
    CollapseTidy(s);
    CollapseTidyFixed(Collapse(s));
  }

  // ---------------------------------------------------------------------
  // What `compress` keeps

  /** What is left of one character once white space is ignored. */
  function Keep(c: char): string {
    if IsSpace(c) then [] else [c]
  }

  /** The text with its white space removed and every other character kept,
      case included. */
  function Squash(s: string): string {
    if s == [] then [] else Keep(s[0]) + Squash(s[1..])
  }

  lemma SquashCons(c: char, y: string)
    ensures Squash([c] + y) == Keep(c) + Squash(y)
  {
    assert ([c] + y)[1..] == y;
  }

  lemma {:induction false} SquashAppend(x: string, y: string)
    ensures Squash(x + y) == Squash(x) + Squash(y)
    decreases |x|
  {
    if x == [] {
      assert x + y == y;
    } else {
      assert (x + y)[1..] == x[1..] + y;
      SquashAppend(x[1..], y);
    }
  }

  lemma SquashAt(s: string, a: nat)
    requires a < |s|
    ensures Squash(s[a..]) == Keep(s[a]) + Squash(s[a + 1..])
  {
    assert s[a..][1..] == s[a + 1..];
  }

  /** White space at the front does not count. */
  lemma {:induction false} SquashSkip(s: string, a: nat, b: nat)
    requires a <= b <= |s| && SpacesIn(s, a, b)
    ensures Squash(s[a..]) == Squash(s[b..])
    decreases b - a
  {
    if a < b {
      SquashAt(s, a);
      SquashSkip(s, a + 1, b);
    }
  }

  /** Text free of white space squashes to itself. */
  lemma {:induction false} SquashNoSpace(t: string)
    requires forall k :: 0 <= k < |t| ==> !IsSpace(t[k])
    ensures Squash(t) == t
    decreases |t|
  {
    if t != [] {
      SquashNoSpace(t[1..]);
      assert t == [t[0]] + t[1..];
    }
  }

  /** `!important`, in lower case, starts at position `p` of `y`. */
  predicate ImportantWordAt(y: string, p: nat) {
    p + |Important| <= |y| && y[p..p + |Important|] == Important
  }

  /** `y` is `x` with some letters lower-cased, each of them inside a
      `!important` of `y`; every other character is the same. */
  ghost predicate FoldsImportant(x: string, y: string) {
    && |x| == |y|
    && forall i :: 0 <= i < |x| ==>
         || x[i] == y[i]
         || (y[i] == Lower(x[i]) && exists p: nat :: p <= i < p + |Important| && ImportantWordAt(y, p))
  }

  lemma FoldsNothing(x: string)
    ensures FoldsImportant(x, x)
  {
  }

  lemma WordAtLeft(y1: string, y2: string, p: nat)
    requires ImportantWordAt(y1, p)
    ensures ImportantWordAt(y1 + y2, p)
  {
    assert (y1 + y2)[p..p + |Important|] == y1[p..p + |Important|];
  }

  lemma WordAtRight(y1: string, y2: string, p: nat)
    requires ImportantWordAt(y2, p)
    ensures ImportantWordAt(y1 + y2, |y1| + p)
  {
    assert (y1 + y2)[|y1| + p..|y1| + p + |Important|] == y2[p..p + |Important|];
  }

  /** Folding each part folds the whole. */
  lemma FoldsAppend(x1: string, y1: string, x2: string, y2: string)
    requires FoldsImportant(x1, y1) && FoldsImportant(x2, y2)
    ensures FoldsImportant(x1 + x2, y1 + y2)
  {
    var x, y := x1 + x2, y1 + y2;
    forall i | 0 <= i < |x| && x[i] != y[i]
      ensures y[i] == Lower(x[i]) && exists p: nat :: p <= i < p + |Important| && ImportantWordAt(y, p)
    {
      if i < |x1| {
        assert x[i] == x1[i] && y[i] == y1[i];
        var p: nat :| p <= i < p + |Important| && ImportantWordAt(y1, p);
        WordAtLeft(y1, y2, p);
      } else {
        var j := i - |x1|;
        assert x[i] == x2[j] && y[i] == y2[j];
        var p: nat :| p <= j < p + |Important| && ImportantWordAt(y2, p);
        WordAtRight(y1, y2, p);
      }
    }
  }

  /** `!important` written in any case folds to the lower-case word. */
  lemma FoldsWord(t: string)
    requires LitAt(t, 0, Important) && |t| == |Important|
    ensures FoldsImportant(t, Important)
  {
    assert ImportantWordAt(Important, 0);
    forall i | 0 <= i < |t|
      ensures Important[i] == Lower(t[i]) && exists p: nat :: p <= i < p + |Important| && ImportantWordAt(Important, p)
    {
      assert Lower(t[0 + i]) == Important[i];
    }
  }

  lemma SquashCollapseMatch(s: string)
    requires s != [] && PunctHere(s)
    requires Squash(Collapse(s[PunctEnd(s)..])) == Squash(s[PunctEnd(s)..])
    ensures Squash(Collapse(s)) == Squash(s)
  {
    var w := SpaceRun(s, 0);
    var e := PunctEnd(s);
    CollapseMatchUnfold(s);
    SquashCons(s[w], Collapse(s[e..]));
    SpaceRunSpaces(s, 0);
    SpaceRunSpaces(s, w + 1);
    assert s[0..] == s;
    SquashSkip(s, 0, w);
    SquashAt(s, w);
    SquashSkip(s, w + 1, e);
  }

  /** Collapsing removes white space only. */
  lemma {:induction false} SquashCollapse(s: string)
    ensures Squash(Collapse(s)) == Squash(s)
    decreases |s|
  {
    if s != [] {
      if PunctHere(s) {
        SquashCollapse(s[PunctEnd(s)..]);
        SquashCollapseMatch(s);
      } else {
        SquashCollapse(s[1..]);
        SquashCons(s[0], Collapse(s[1..]));
      }
    }
  }

  lemma SquashTightenMatch(s: string)
    requires s != [] && ImportantHere(s)
    requires FoldsImportant(Squash(s[ImportantEnd(s)..]), Squash(Tighten(s[ImportantEnd(s)..])))
    ensures FoldsImportant(Squash(s), Squash(Tighten(s)))
  {
    var w := SpaceRun(s, 0);
    var e := ImportantEnd(s);
    TightenMatchUnfold(s);
    SquashImportant(Tighten(s[e..]));
    SpaceRunSpaces(s, 0);
    assert s[0..] == s;
    SquashSkip(s, 0, w);
    SquashImportantAt(s, w, e);
    FoldsAppend(s[w..e], Important, Squash(s[e..]), Squash(Tighten(s[e..])));
  }

  lemma SquashImportant(y: string)
    ensures Squash(Important + y) == Important + Squash(y)
  {
    SquashAppend(Important, y);
    ImportantTidy();
    SquashNoSpace(Important);
  }

  /** A `!important` in any case has no white space in it, and folds to the
      lower-case word. */
  lemma SquashImportantAt(s: string, w: nat, e: nat)
    requires LitAt(s, w, Important) && e == w + |Important|
    ensures Squash(s[w..]) == s[w..e] + Squash(s[e..])
    ensures FoldsImportant(s[w..e], Important)
  {
    assert s[w..] == s[w..e] + s[e..];
    SquashAppend(s[w..e], s[e..]);
    ImportantTidy();
    forall k | 0 <= k < e - w ensures !IsSpace(s[w..e][k]) {
      assert Lower(s[w + k]) == Important[k];
    }
    SquashNoSpace(s[w..e]);
    assert LitAt(s[w..e], 0, Important) by {
      forall k | 0 <= k < |Important| ensures Lower(s[w..e][k]) == Important[k] {
        assert Lower(s[w + k]) == Important[k];
      }
    }
    FoldsWord(s[w..e]);
  }

  /** Tightening removes white space only, and lower-cases the letters of
      the `!important` it matches. */
  lemma {:induction false} SquashTighten(s: string)
    ensures FoldsImportant(Squash(s), Squash(Tighten(s)))
    decreases |s|
  {
    if s != [] {
      if ImportantHere(s) {
        SquashTighten(s[ImportantEnd(s)..]);
        SquashTightenMatch(s);
      } else {
        SquashTighten(s[1..]);
        TightenKeepUnfold(s);
        SquashCons(s[0], Tighten(s[1..]));
        SquashCons(s[0], s[1..]);
        assert [s[0]] + s[1..] == s;
        FoldsNothing(Keep(s[0]));
        FoldsAppend(Keep(s[0]), Keep(s[0]), Squash(s[1..]), Squash(Tighten(s[1..])));
      }
    }
  }

  /** Removing line feeds removes white space only. */
  lemma {:induction false} SquashDropNewlines(s: string)
    ensures Squash(DropNewlines(s)) == Squash(s)
    decreases |s|
  {
    if s != [] {
      SquashDropNewlines(s[1..]);
      if s[0] != '\n' {
        SquashCons(s[0], DropNewlines(s[1..]));
      }
    }
  }

  /** Trimming removes white space only. */
  lemma SquashTrim(s: string)
    ensures Squash(Trim(s)) == Squash(s)
  {
    TrimShape(s);
    if !AllSpace(s) {
      var a, b :| 0 <= a < b <= |s| && Trim(s) == s[a..b] && SpacesIn(s, 0, a) && SpacesIn(s, b, |s|);
      SquashCut(s, a, b);
    }
  }

  /** Cutting white space off both ends removes white space only. */
  lemma SquashCut(s: string, a: nat, b: nat)
    requires a <= b <= |s| && SpacesIn(s, 0, a) && SpacesIn(s, b, |s|)
    ensures Squash(s[a..b]) == Squash(s)
  {
    assert s[0..] == s;
    SquashSkip(s, 0, a);
    assert s[a..] == s[a..b] + s[b..];
    SquashAppend(s[a..b], s[b..]);
    SquashSkip(s, b, |s|);
    assert s[|s|..] == [];
  }

  // ---------------------------------------------------------------------
  // The whole of `compress`

  /** What `compress` of tasks/css_to_js.js produces: the configured charset
      rule, then a body with no line feed, no white space next to `{ } : ; ,`,
      and neither leading nor trailing white space (unless it is nothing but
      white space). */
  lemma CompressShape(charset: string, s: string)
    ensures var r := Compress(charset, s);
      |r| >= |charset| && r[..|charset|] == charset
      && var body := r[|charset|..];
      (forall k :: 0 <= k < |body| ==> body[k] != '\n')
      && Tidy(body)
      && (AllSpace(body) || (!IsSpace(body[0]) && !IsSpace(body[|body| - 1])))
  {
    var a := Tighten(Collapse(s));
    var b := DropNewlines(DropSemiBrace(a));
    CollapseTidy(s);
    TightenTidy(Collapse(s));
    DropSemiBraceTidy(a);
    DropNewlinesTidy(DropSemiBrace(a));
    DropNewlinesNone(DropSemiBrace(a));
    TrimTidy(b);
    TrimShape(b);
    assert (charset + Trim(b))[|charset|..] == Trim(b);
  }

  /** What `compress` of grunt-jcss.js produces: the configured charset rule,
      then a trimmed body with no line feed. */
  lemma CompressJcssShape(charset: string, s: string)
    ensures var r := CompressJcss(charset, s);
      |r| >= |charset| && r[..|charset|] == charset
      && var body := r[|charset|..];
      (forall k :: 0 <= k < |body| ==> body[k] != '\n')
      && (AllSpace(body) || (!IsSpace(body[0]) && !IsSpace(body[|body| - 1])))
  {
    var a := DropSemiBrace(Strip.StripCharsetDecls(Tighten(Collapse(s))));
    DropNewlinesNone(a);
    TrimmedBody(charset, DropNewlines(a));
  }

  /** The charset rule followed by a trimmed text free of line feeds. */
  lemma TrimmedBody(charset: string, b: string)
    requires forall k :: 0 <= k < |b| ==> b[k] != '\n'
    ensures var r := charset + Trim(b);
      |r| >= |charset| && r[..|charset|] == charset
      && var body := r[|charset|..];
      (forall k :: 0 <= k < |body| ==> body[k] != '\n')
      && (AllSpace(body) || (!IsSpace(body[0]) && !IsSpace(body[|body| - 1])))
  {
    TrimShape(b);
    assert (charset + Trim(b))[|charset|..] == Trim(b);
  }

  /** After the charset rule, `compress` of tasks/css_to_js.js changes only
      white space, the `;` right before a `}` and the case of `!important`:
      ignoring white space, the tightened text is the input with the letters
      of some `!important` lower-cased, and the body is that text with each
      `;` that a `}` follows removed. */
  lemma CompressContent(charset: string, s: string)
    ensures FoldsImportant(Squash(s), Squash(Tighten(Collapse(s))))
    ensures |Compress(charset, s)| >= |charset|
    ensures Squash(Compress(charset, s)[|charset|..]) == Squash(SemiBraceFilter(Tighten(Collapse(s))))
  {
    var a := Collapse(s);
    var b := Tighten(a);
    var c := DropSemiBrace(b);
    var d := DropNewlines(c);
    SquashCollapse(s);
    SquashTighten(a);
    DropSemiBraceFilters(b);
    SquashDropNewlines(c);
    SquashTrim(d);
    assert (charset + Trim(d))[|charset|..] == Trim(d);
  }

  /** The same for grunt-jcss.js, whose `compress` also removes the `@charset`
      declarations from the tightened text before the `;` of `;}` is dropped. */
  lemma CompressJcssContent(charset: string, s: string)
    ensures FoldsImportant(Squash(s), Squash(Tighten(Collapse(s))))
    ensures |CompressJcss(charset, s)| >= |charset|
    ensures Squash(CompressJcss(charset, s)[|charset|..])
         == Squash(SemiBraceFilter(Strip.StripCharsetDecls(Tighten(Collapse(s)))))
  {
    var a := Collapse(s);
    var b := Strip.StripCharsetDecls(Tighten(a));
    var c := DropSemiBrace(b);
    var d := DropNewlines(c);
    SquashCollapse(s);
    SquashTighten(a);
    DropSemiBraceFilters(b);
    SquashDropNewlines(c);
    SquashTrim(d);
    assert (charset + Trim(d))[|charset|..] == Trim(d);
  }

  // ---------------------------------------------------------------------
  // A `!important` split by a line feed

  /** Text whose characters are all non-space, or all non-punctuation, has no
      white space next to `{ } : ; ,`. */
  lemma PlainTidy(s: string)
    requires (forall c :: c in s ==> !IsSpace(c)) || (forall c :: c in s ==> !IsPunct(c))
    ensures Tidy(s)
  {
    forall i | 0 <= i < |s| - 1 ensures PairOk(s[i], s[i + 1]) {
      assert s[i] in s && s[i + 1] in s;
    }
  }

  /** Text without `!` holds no `!important`, so tightening leaves it as it is. */
  lemma {:induction false} TightenNoBang(s: string)
    requires '!' !in s
    ensures Tighten(s) == s
    decreases |s|
  {
    if s != [] {
      var w := SpaceRun(s, 0);
      assert w < |s| ==> s[w] in s && Lower(s[w + 0]) != Important[0];
      assert !ImportantHere(s);
      TightenNoBang(s[1..]);
      TightenKeepUnfold(s);
      assert s == [s[0]] + s[1..];
    }
  }

  /** Tightening copies a prefix free of `!` when what follows it starts with
      a `!` that does not begin `!important`. */
  lemma {:induction false} TightenBangPrefix(x: string, y: string)
    requires '!' !in x && y != [] && y[0] == '!' && !LitAt(y, 0, Important)
    ensures Tighten(x + y) == x + Tighten(y)
    decreases |x|
  {
    if x == [] {
      assert x + y == y;
    } else {
      BangPrefixMisses(x, y);
      TightenPrefixStep(x, y);
      BangTail(x);
      TightenBangPrefix(x[1..], y);
      ConsJoin(x, Tighten(x + y), Tighten(x[1..] + y), Tighten(y));
    }
  }

  lemma ConsJoin(x: string, t: string, u: string, v: string)
    requires x != [] && t == [x[0]] + u && u == x[1..] + v
    ensures t == x + v
  {
    assert x == [x[0]] + x[1..];
  }

  lemma TightenPrefixStep(x: string, y: string)
    requires x != [] && !ImportantHere(x + y)
    ensures Tighten(x + y) == [x[0]] + Tighten(x[1..] + y)
  {
    TightenKeepUnfold(x + y);
    assert (x + y)[1..] == x[1..] + y;
  }

  lemma BangTail(x: string)
    requires x != [] && '!' !in x
    ensures '!' !in x[1..]
  {
    assert forall c :: c in x[1..] ==> c in x;
  }

  /** No `!important` match starts inside such a prefix. */
  lemma BangPrefixMisses(x: string, y: string)
    requires '!' !in x && x != [] && y != [] && y[0] == '!' && !LitAt(y, 0, Important)
    ensures !ImportantHere(x + y)
  {
    var xy := x + y;
    var w := SpaceRun(xy, 0);
    SpaceRunSpaces(xy, 0);
    assert xy[|x|] == '!';
    assert w <= |x|;
    if w < |x| {
      assert xy[w] == x[w] && x[w] in x;
      assert Important[0] == '!' && Lower(xy[w + 0]) != Important[0];
    } else {
      LitAtShift(x, y, w, Important);
    }
  }

  /** Text without `;` holds no `;}`. */
  lemma NoSemiKept(s: string)
    requires ';' !in s
    ensures DropSemiBrace(s) == s
  {
    forall i | 0 <= i < |s| - 1 ensures !(s[i] == ';' && s[i + 1] == '}') {
      assert s[i] in s;
    }
    DropSemiBraceNoPair(s);
  }

  lemma {:induction false} DropNewlinesAppend(x: string, y: string)
    ensures DropNewlines(x + y) == DropNewlines(x) + DropNewlines(y)
    decreases |x|
  {
    if x == [] {
      assert x + y == y;
    } else {
      assert (x + y)[1..] == x[1..] + y;
      DropNewlinesAppend(x[1..], y);
    }
  }

  /** Text without a line feed is left as it is. */
  lemma {:induction false} DropNewlinesNoLine(s: string)
    requires '\n' !in s
    ensures DropNewlines(s) == s
    decreases |s|
  {
    if s != [] {
      assert s[0] in s;
      DropNewlinesNoLine(s[1..]);
      assert s == [s[0]] + s[1..];
    }
  }

  /** The word, in lower case, stands at the end of `x` in `x + Important + y`. */
  lemma ImportantAfter(x: string, y: string)
    ensures LitAt(x + Important + y, |x|, Important)
  {
    var t := Important + y;
    forall k | 0 <= k < |Important| ensures Lower(t[k]) == Important[k] {
      if k > 0 {
        ImportantLetters(k);
      }
    }
    assert x + Important + y == x + t;
    LitAtShift(x, t, |x|, Important);
  }

  /** The stylesheet text `a{color:red !` + line feed + `important}`. */
  const SplitImportant: string := "a{color:red !\nimportant}"

  /** What `compress` makes of it. */
  const SplitImportantOut: string := "a{color:red !important}"

  /** Three pieces, the outer ones free of white space and the middle one
      free of punctuation, meeting without white space next to punctuation. */
  lemma TidyParts(x: string, y: string, z: string)
    requires forall c :: c in x ==> !IsSpace(c)
    requires forall c :: c in y ==> !IsPunct(c)
    requires forall c :: c in z ==> !IsSpace(c)
    requires x != [] && y != [] && PairOk(x[|x| - 1], y[0])
    requires z != [] ==> PairOk(y[|y| - 1], z[0])
    ensures Tidy(x + y + z)
  {
    PlainTidy(x);
    PlainTidy(y);
    PlainTidy(z);
    ConcatTidy(x, y);
    assert (x + y)[|x + y| - 1] == y[|y| - 1];
    ConcatTidy(x + y, z);
  }

  /** No white space stands next to punctuation in it: collapsing changes nothing. */
  lemma SplitImportantCollapse(e: string)
    requires e == SplitImportant
    ensures Collapse(e) == e
  {
    var x: string, y: string, z: string := "a{color:red", " !\nimportant", "}";
    assert e == x + y + z;
    TidyParts(x, y, z);
    CollapseTidyFixed(e);
  }

  /** A `!` followed by a line feed, with no other `!` about: tightening
      changes nothing. */
  lemma TightenBangLine(x: string, z: string)
    requires '!' !in x && '!' !in z
    ensures Tighten(x + "!\n" + z) == x + "!\n" + z
  {
    var y := "!\n" + z;
    assert y[1] == '\n' && Lower(y[1]) != Important[1];
    assert x + "!\n" + z == x + y;
    TightenBangPrefix(x, y);
    assert y[1..] == "\n" + z;
    TightenNoBang(y[1..]);
    TightenKeepUnfold(y);
    assert y == [y[0]] + y[1..];
  }

  /** Its only `!` is followed by a line feed: tightening changes nothing. */
  lemma SplitImportantTighten(e: string)
    requires e == SplitImportant
    ensures Tighten(e) == e
  {
    var x: string, z: string := "a{color:red ", "important}";
    assert e == x + "!\n" + z;
    TightenBangLine(x, z);
  }

  /** Removing the only line feed joins the text on either side of it. */
  lemma DropOneNewline(x: string, z: string)
    requires '\n' !in x && '\n' !in z
    ensures DropNewlines(x + "\n" + z) == x + z
  {
    var n := "\n";
    DropNewlinesAppend(x + n, z);
    DropNewlinesAppend(x, n);
    DropNewlinesLineFeed(n);
    DropNewlinesNoLine(x);
    DropNewlinesNoLine(z);
    assert DropNewlines(x + n) == x;
  }

  /** A lone line feed is removed. */
  lemma DropNewlinesLineFeed(n: string)
    requires n == "\n"
    ensures DropNewlines(n) == []
  {
    assert n[1..] == [];
  }

  /** Removing the line feed joins `!` and the word. */
  lemma SplitImportantJoined(e: string, r: string)
    requires e == SplitImportant && r == SplitImportantOut
    ensures DropNewlines(e) == r
  {
    var x: string, z: string := "a{color:red !", "important}";
    assert e == x + "\n" + z;
    assert r == x + z;
    DropOneNewline(x, z);
  }

  lemma SplitImportantTrim(r: string)
    requires r == SplitImportantOut
    ensures Trim(r) == r
  {
    assert TrailRun(r) == 0;
    assert r[0..|r|] == r;
  }

  lemma SplitImportantNoSemi(e: string)
    requires e == SplitImportant
    ensures DropSemiBrace(e) == e
  {
    NoSemiKept(e);
  }

  /** White space stands right before the `!important` of the output. */
  lemma SplitImportantLoose(r: string)
    requires r == SplitImportantOut
    ensures !ImportantTight(r)
  {
    var x: string, z: string := "a{color:red ", "}";
    assert r == x + Important + z;
    ImportantAfter(x, z);
    assert LitAt(r, 12, Important) && IsSpace(r[11]);
  }

  /** Where each step but the line-feed removal leaves the text as it is. */
  lemma CompressFixed(charset: string, e: string, r: string)
    requires Collapse(e) == e && Tighten(e) == e && DropSemiBrace(e) == e
    requires DropNewlines(e) == r && Trim(r) == r
    ensures Compress(charset, e) == charset + r
  {
  }

  /** A `!important` whose `!` a line feed separates from the word escapes the
      tightening, and the line feed is removed only afterwards: white space is
      left right before `!important` in the output. */
  lemma CompressImportantLoose(e: string)
    requires e == SplitImportant
    ensures Compress("", e) == SplitImportantOut
    ensures !ImportantTight(Compress("", e))
  {
    var r := SplitImportantOut;
    SplitImportantCollapse(e);
    SplitImportantTighten(e);
    SplitImportantNoSemi(e);
    SplitImportantJoined(e, r);
    SplitImportantTrim(r);
    CompressFixed("", e, r);
    assert "" + r == r;
    SplitImportantLoose(r);
  }
}
