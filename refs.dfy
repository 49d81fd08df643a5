/** The two reference patterns of `combine`: `@import` directives and `url(...)`
    references, for both plugins. Each pattern is tried at the start of the
    remaining text and explores its alternatives in the order a backtracking
    JavaScript matcher does (a lazy `\s*?` from short to long, greedy parts from
    long to short, an optional part first taken, then skipped), so the capture it
    returns is the one JavaScript returns.

    tasks/css_to_js.js:55 and :62 write the reference as `(?!\/)[\w\-\.\/\?=]+`;
    grunt-jcss.js:58 and :65 write it as `[^\/][\w\-\.\/\?=]+`. */
module Refs {
  import opened Text
  import opened Scan

  datatype RefRule =
    | NoLeadingSlash    // (?!\/)[\w\-\.\/\?=]+
    | AnyLeadThenClass  // [^\/][\w\-\.\/\?=]+

  /** What the reference sub-pattern accepts. */
  predicate ValidRef(rule: RefRule, r: string) {
    match rule
    case NoLeadingSlash => |r| >= 1 && r[0] != '/' && AllRef(r)
    case AnyLeadThenClass => |r| >= 2 && r[0] != '/' && AllRef(r[1..])
  }

  function MinRef(rule: RefRule): nat {
    if rule.NoLeadingSlash? then 1 else 2
  }

  /** The longest reference the rule accepts at `a` (greedy), 0 when it cannot start there. */
  function MaxRef(rule: RefRule, t: string, a: nat): (n: nat)
    requires a <= |t|
    ensures a + n <= |t|
  {
    if a == |t| || t[a] == '/' then 0
    else
      match rule
      case NoLeadingSlash => RefRun(t, a)
      case AnyLeadThenClass =>
        var m := RefRun(t, a + 1);
        assert t[a..a + 1 + m][1..] == t[a + 1..a + 1 + m];
        1 + m
  }

  /** The `n` characters from `a` are there, and the rule accepts them if
      there are enough of them. */
  predicate RefFits(rule: RefRule, t: string, a: nat, n: nat) {
    a + n <= |t| && (n >= MinRef(rule) ==> ValidRef(rule, t[a..a + n]))
  }

  /** The rule accepts the greedy reference whenever it is long enough. */
  lemma MaxRefValid(rule: RefRule, t: string, a: nat)
    requires a <= |t|
    ensures RefFits(rule, t, a, MaxRef(rule, t, a))
  {
    if a < |t| && t[a] != '/' && rule.AnyLeadThenClass? {
      var m := RefRun(t, a + 1);
      assert t[a..a + 1 + m][1..] == t[a + 1..a + 1 + m];
    }
  }

  /** Backtracking to a shorter reference keeps it acceptable. */
  lemma ShorterRef(rule: RefRule, t: string, a: nat, n: nat)
    requires a + n <= |t| && n > MinRef(rule) && ValidRef(rule, t[a..a + n])
    ensures ValidRef(rule, t[a..a + n - 1])
  {
    var r := t[a..a + n];
    assert t[a..a + n - 1] == r[..n - 1];
    match rule
    case NoLeadingSlash =>
      AllRefPrefix(r, n - 1);
    case AnyLeadThenClass =>
      assert r[..n - 1][1..] == r[1..][..n - 2];
      AllRefPrefix(r[1..], n - 2);
  }

  lemma AllRefPrefix(r: string, k: nat)
    requires k <= |r| && AllRef(r)
    ensures AllRef(r[..k])
  {
    assert forall i :: 0 <= i < k ==> r[..k][i] == r[i];
  }

  predicate QuoteOk(q: string) {
    q == [] || (|q| == 1 && IsQuote(q[0]))
  }

  // ---------------------------------------------------------------------
  // url\(\s*(['"]?)(REF)\1\s*\)

  /** Where the reference starts (relative to the match), the reference, and the quote around it. */
  datatype UrlCap = UrlCap(start: nat, ref: string, quote: string)

  /** `t[..f.len]` is `url(`, spaces, a quote or none, the reference, the same
      quote, spaces and `)`. */
  ghost predicate UrlShape(rule: RefRule, t: string, f: Found<UrlCap>) {
    var c := f.cap;
    var e := c.start + |c.ref|;
    && LitAt(t, 0, "url(")
    && QuoteOk(c.quote)
    && 4 + |c.quote| <= c.start
    && e + |c.quote| < f.len <= |t|
    && SpacesIn(t, 4, c.start - |c.quote|)
    && t[c.start - |c.quote|..c.start] == c.quote
    && t[c.start..e] == c.ref
    && ValidRef(rule, c.ref)
    && t[e..e + |c.quote|] == c.quote
    && SpacesIn(t, e + |c.quote|, f.len - 1)
    && t[f.len - 1] == ')'
  }

  function UrlAt(rule: RefRule, t: string): (r: Option<Found<UrlCap>>)
    ensures r.Some? ==> UrlShape(rule, t, r.value)
  {
    if LitAt(t, 0, "url(") then
      var r := Greedy(UrlTry(rule, t), SpaceRun(t, 4));
      assert r.Some? ==> UrlShape(rule, t, r.value) by {
        GreedyPicks(UrlTry(rule, t), SpaceRun(t, 4));
        if r.Some? {
          var v :| 0 <= v <= SpaceRun(t, 4) && r == UrlTry(rule, t)(v);
          UrlTryShape(rule, t, v);
        }
      }
      r
    else None
  }

  /** The rest of the pattern after `url(` and `w` spaces, the greedy `\s*`
      having taken `w`. */
  function UrlTry(rule: RefRule, t: string): nat -> Option<Found<UrlCap>> {
    (w: nat) => if LitAt(t, 0, "url(") && 4 + w <= |t| && SpacesIn(t, 4, 4 + w) then UrlQuote(rule, t, 4 + w) else None
  }

  /** `(['"]?)`: take the quote if there is one, else (or if that fails) none. */
  function UrlQuote(rule: RefRule, t: string, q: nat): Option<Found<UrlCap>>
    requires LitAt(t, 0, "url(") && 4 <= q <= |t| && SpacesIn(t, 4, q)
  {
    var quoted := if q < |t| && IsQuote(t[q]) then UrlQuoted(rule, t, q) else None;
    MaxRefValid(rule, t, q);
    if quoted.Some? then quoted else UrlRef(rule, t, q, [], MaxRef(rule, t, q))
  }

  /** The quote at `q` taken. */
  function UrlQuoted(rule: RefRule, t: string, q: nat): Option<Found<UrlCap>>
    requires LitAt(t, 0, "url(") && 4 <= q < |t| && SpacesIn(t, 4, q) && IsQuote(t[q])
  {
    assert t[q..q + 1] == [t[q]];
    MaxRefValid(rule, t, q + 1);
    UrlRef(rule, t, q + 1, [t[q]], MaxRef(rule, t, q + 1))
  }

  /** `t[..a]` is `url(`, spaces and the quote, and the rule accepts the
      `n` characters from `a` if there are enough of them. */
  predicate UrlRefPre(rule: RefRule, t: string, a: nat, quote: string, n: nat) {
    && LitAt(t, 0, "url(") && QuoteOk(quote) && 4 + |quote| <= a && a + n <= |t|
    && SpacesIn(t, 4, a - |quote|) && t[a - |quote|..a] == quote
    && (n >= MinRef(rule) ==> ValidRef(rule, t[a..a + n]))
  }

  /** The greedy reference, from `n` characters down to the shortest the rule allows. */
  function UrlRef(rule: RefRule, t: string, a: nat, quote: string, n: nat): Option<Found<UrlCap>>
    requires UrlRefPre(rule, t, a, quote, n)
    decreases n
  {
    if n < MinRef(rule) then None
    else
      match UrlClose(t, a + n, quote)
      case Some(len) => Some(Found(len, UrlCap(a, t[a..a + n], quote)))
      case None =>
        if n == MinRef(rule) then None
        else ShorterRef(rule, t, a, n); UrlRef(rule, t, a, quote, n - 1)
  }

  // Every match the search returns has the shape above.

  lemma UrlTryShape(rule: RefRule, t: string, w: nat)
    ensures UrlTry(rule, t)(w).Some? ==> UrlShape(rule, t, UrlTry(rule, t)(w).value)
  {
    if LitAt(t, 0, "url(") && 4 + w <= |t| && SpacesIn(t, 4, 4 + w) {
      UrlQuoteShape(rule, t, 4 + w);
    }
  }

  lemma UrlQuoteShape(rule: RefRule, t: string, q: nat)
    requires LitAt(t, 0, "url(") && 4 <= q <= |t| && SpacesIn(t, 4, q)
    ensures UrlQuote(rule, t, q).Some? ==> UrlShape(rule, t, UrlQuote(rule, t, q).value)
  {
    if q < |t| && IsQuote(t[q]) {
      UrlQuotedShape(rule, t, q);
    }
    UrlPlainShape(rule, t, q);
  }

  lemma UrlQuotedShape(rule: RefRule, t: string, q: nat)
    requires LitAt(t, 0, "url(") && 4 <= q < |t| && SpacesIn(t, 4, q) && IsQuote(t[q])
    ensures UrlQuoted(rule, t, q).Some? ==> UrlShape(rule, t, UrlQuoted(rule, t, q).value)
  {
    assert t[q..q + 1] == [t[q]];
    MaxRefValid(rule, t, q + 1);
    UrlRefShape(rule, t, q + 1, [t[q]], MaxRef(rule, t, q + 1));
  }

  lemma UrlPlainShape(rule: RefRule, t: string, q: nat)
    requires LitAt(t, 0, "url(") && 4 <= q <= |t| && SpacesIn(t, 4, q)
    ensures UrlRefPre(rule, t, q, [], MaxRef(rule, t, q))
    ensures UrlRef(rule, t, q, [], MaxRef(rule, t, q)).Some? ==> UrlShape(rule, t, UrlRef(rule, t, q, [], MaxRef(rule, t, q)).value)
  {
    MaxRefValid(rule, t, q);
    UrlRefShape(rule, t, q, [], MaxRef(rule, t, q));
  }

  lemma {:induction false} UrlRefShape(rule: RefRule, t: string, a: nat, quote: string, n: nat)
    requires UrlRefPre(rule, t, a, quote, n)
    ensures UrlRef(rule, t, a, quote, n).Some? ==> UrlShape(rule, t, UrlRef(rule, t, a, quote, n).value)
    decreases n
  {
    if n >= MinRef(rule) {
      match UrlClose(t, a + n, quote)
      case Some(len) => UrlHit(rule, t, a, quote, n, len);
      case None =>
        if n > MinRef(rule) {
          UrlRefStep(rule, t, a, quote, n);
          UrlRefShape(rule, t, a, quote, n - 1);
        }
    }
  }

  lemma UrlHit(rule: RefRule, t: string, a: nat, quote: string, n: nat, len: nat)
    requires LitAt(t, 0, "url(") && QuoteOk(quote) && 4 + |quote| <= a && a + n <= |t|
    requires SpacesIn(t, 4, a - |quote|) && t[a - |quote|..a] == quote
    requires ValidRef(rule, t[a..a + n])
    requires UrlClose(t, a + n, quote) == Some(len)
    ensures UrlShape(rule, t, Found(len, UrlCap(a, t[a..a + n], quote)))
  {
  }

  /** `\1\s*\)` */
  function UrlClose(t: string, e: nat, quote: string): (r: Option<nat>)
    requires e <= |t|
    ensures r.Some? ==> e + |quote| < r.value <= |t| && t[e..e + |quote|] == quote
    ensures r.Some? ==> SpacesIn(t, e + |quote|, r.value - 1) && t[r.value - 1] == ')'
  {
    if ExactAt(t, e, quote) then
      var e1 := e + |quote|;
      var e2 := e1 + SpaceRun(t, e1);
      SpaceRunSpaces(t, e1);
      if e2 < |t| && t[e2] == ')' then Some(e2 + 1) else None
    else None
  }

  // Every `url(...)` of the shape above is matched (perhaps by a longer match).

  /** The greedy reference is at least as long as any reference the rule accepts there. */
  lemma MaxRefCovers(rule: RefRule, t: string, a: nat, n: nat)
    requires a + n <= |t| && n >= MinRef(rule) && ValidRef(rule, t[a..a + n])
    ensures n <= MaxRef(rule, t, a)
  {
    assert t[a] == t[a..a + n][0];
    match rule
    case NoLeadingSlash =>
      RefRunCovers(t, a, n);
    case AnyLeadThenClass =>
      assert t[a + 1..a + n] == t[a..a + n][1..];
      RefRunCovers(t, a + 1, n - 1);
  }

  lemma UrlCloseIs(t: string, e: nat, quote: string, len: nat)
    requires e + |quote| < len <= |t| && t[e..e + |quote|] == quote
    requires SpacesIn(t, e + |quote|, len - 1) && t[len - 1] == ')'
    ensures UrlClose(t, e, quote) == Some(len)
  {
    SpaceRunIs(t, e + |quote|, len - 1 - (e + |quote|));
  }

  /** Trying shorter and shorter references reaches any that closes. */
  lemma {:induction false} UrlRefFinds(rule: RefRule, t: string, a: nat, quote: string, n: nat, m: nat)
    requires UrlRefPre(rule, t, a, quote, n)
    requires MinRef(rule) <= m <= n && UrlClose(t, a + m, quote).Some?
    ensures UrlRef(rule, t, a, quote, n).Some?
    decreases n
  {
    if n > m && UrlClose(t, a + n, quote).None? {
      UrlRefStep(rule, t, a, quote, n);
      UrlRefFinds(rule, t, a, quote, n - 1, m);
    }
  }

  /** A reference that does not close gives way to the one a character shorter. */
  lemma UrlRefStep(rule: RefRule, t: string, a: nat, quote: string, n: nat)
    requires UrlRefPre(rule, t, a, quote, n) && n > MinRef(rule) && UrlClose(t, a + n, quote).None?
    ensures UrlRefPre(rule, t, a, quote, n - 1)
    ensures UrlRef(rule, t, a, quote, n) == UrlRef(rule, t, a, quote, n - 1)
  {
    ShorterRef(rule, t, a, n);
  }

  lemma UrlShapePre(rule: RefRule, t: string, f: Found<UrlCap>)
    requires UrlShape(rule, t, f)
    ensures UrlRefPre(rule, t, f.cap.start, f.cap.quote, MaxRef(rule, t, f.cap.start))
  {
    MaxRefValid(rule, t, f.cap.start);
  }

  lemma UrlShapeCloses(rule: RefRule, t: string, f: Found<UrlCap>)
    requires UrlShape(rule, t, f)
    ensures UrlClose(t, f.cap.start + |f.cap.ref|, f.cap.quote).Some?
  {
    UrlCloseIs(t, f.cap.start + |f.cap.ref|, f.cap.quote, f.len);
  }

  lemma UrlShapeCovered(rule: RefRule, t: string, f: Found<UrlCap>)
    requires UrlShape(rule, t, f)
    ensures MinRef(rule) <= |f.cap.ref| <= MaxRef(rule, t, f.cap.start)
  {
    MaxRefCovers(rule, t, f.cap.start, |f.cap.ref|);
  }

  /** The quote (or no quote) of a well-formed `url(...)` leads to a match. */
  lemma UrlShapeFinds(rule: RefRule, t: string, f: Found<UrlCap>)
    requires UrlShape(rule, t, f)
    ensures UrlQuote(rule, t, f.cap.start - |f.cap.quote|).Some?
  {
    UrlShapeReaches(rule, t, f);
    if f.cap.quote != [] {
      UrlShapeQuoted(rule, t, f);
    } else {
      assert f.cap.start - |f.cap.quote| == f.cap.start;
      UrlQuoteFalls(rule, t, f.cap.start);
    }
  }

  /** The reference of a well-formed `url(...)` is reached by backtracking
      from the greedy one. */
  lemma UrlShapeReaches(rule: RefRule, t: string, f: Found<UrlCap>)
    requires UrlShape(rule, t, f)
    ensures UrlRefPre(rule, t, f.cap.start, f.cap.quote, MaxRef(rule, t, f.cap.start))
    ensures UrlRef(rule, t, f.cap.start, f.cap.quote, MaxRef(rule, t, f.cap.start)).Some?
  {
    UrlShapePre(rule, t, f);
    UrlShapeCloses(rule, t, f);
    UrlShapeCovered(rule, t, f);
    UrlRefFinds(rule, t, f.cap.start, f.cap.quote, MaxRef(rule, t, f.cap.start), |f.cap.ref|);
  }

  lemma UrlShapeQuoted(rule: RefRule, t: string, f: Found<UrlCap>)
    requires UrlShape(rule, t, f) && f.cap.quote != []
    requires UrlRefPre(rule, t, f.cap.start, f.cap.quote, MaxRef(rule, t, f.cap.start))
    requires UrlRef(rule, t, f.cap.start, f.cap.quote, MaxRef(rule, t, f.cap.start)).Some?
    ensures UrlQuote(rule, t, f.cap.start - |f.cap.quote|).Some?
  {
    var c := f.cap;
    var q := c.start - |c.quote|;
    assert c.quote == [t[q]] by {
      assert c.quote[0] == t[q..c.start][0];
    }
    UrlQuotedSome(rule, t, q, c.start, c.quote);
    UrlQuoteTakes(rule, t, q);
  }

  lemma UrlQuotedSome(rule: RefRule, t: string, q: nat, a: nat, quote: string)
    requires LitAt(t, 0, "url(") && 4 <= q < |t| && SpacesIn(t, 4, q) && IsQuote(t[q])
    requires a == q + 1 && quote == [t[q]]
    requires UrlRef(rule, t, a, quote, MaxRef(rule, t, a)).Some?
    ensures UrlQuoted(rule, t, q).Some?
  {
  }

  /** With a quote at `q`, the search first tries the reference after it. */
  lemma UrlQuoteTakes(rule: RefRule, t: string, q: nat)
    requires LitAt(t, 0, "url(") && 4 <= q < |t| && SpacesIn(t, 4, q) && IsQuote(t[q])
    requires UrlQuoted(rule, t, q).Some?
    ensures UrlQuote(rule, t, q).Some?
  {
  }

  /** Whatever the quote attempt gives, the search falls back to no quote. */
  lemma UrlQuoteFalls(rule: RefRule, t: string, q: nat)
    requires LitAt(t, 0, "url(") && 4 <= q <= |t| && SpacesIn(t, 4, q)
    requires UrlRef(rule, t, q, [], MaxRef(rule, t, q)).Some?
    ensures UrlQuote(rule, t, q).Some?
  {
  }

  /** A match found after `url(` and white space up to `q` is one the greedy
      search may try. */
  lemma UrlAtFrom(rule: RefRule, t: string, q: nat)
    requires LitAt(t, 0, "url(") && 4 <= q <= |t| && SpacesIn(t, 4, q)
    requires UrlQuote(rule, t, q).Some?
    ensures UrlAt(rule, t).Some?
  {
    var w := q - 4;
    assert UrlTry(rule, t)(w).Some?;
    SpaceRunCovers(t, 4, w);
    GreedyFinds(UrlTry(rule, t), SpaceRun(t, 4), w);
  }

  /** Text that begins with a well-formed `url(...)` has a match at its start. */
  lemma UrlAtComplete(rule: RefRule, t: string, f: Found<UrlCap>)
    requires UrlShape(rule, t, f)
    ensures UrlAt(rule, t).Some?
  {
    UrlShapeFinds(rule, t, f);
    UrlAtFrom(rule, t, f.cap.start - |f.cap.quote|);
  }

  // ---------------------------------------------------------------------
  // \s*@import\s*?(?: url\(\s*)?(['"])?(REF)\1\s*\)?\s*;

  datatype ImportCap = ImportCap(start: nat, ref: string, quote: string)

  /** `t[p..g]` is what may stand between `@import` and the reference (with its
      quote): spaces, or spaces ending in a plain space, `url(` and spaces. */
  ghost predicate ImportLead(t: string, p: nat, g: nat)
    requires p <= g <= |t|
  {
    || SpacesIn(t, p, g)
    || exists v :: UrlGroup(t, p, v, g)
  }

  /** `t` starts with spaces and `@import`, which end at `p`. */
  ghost predicate ImportHead(t: string, p: nat) {
    LitAt(t, SpaceRun(t, 0), "@import") && p == SpaceRun(t, 0) + 7
  }

  /** `t[p..g]` is spaces ending in a plain space, `url(` at `v`, and spaces. */
  ghost predicate UrlGroup(t: string, p: nat, v: nat, g: nat) {
    && p < v && v + 4 <= g <= |t| && t[v - 1] == ' ' && SpacesIn(t, p, v)
    && LitAt(t, v, "url(") && SpacesIn(t, v + 4, g)
  }

  /** `t[e..end]` is spaces, an optional `)`, spaces and `;`. */
  ghost predicate ImportTail(t: string, e: nat, end: nat)
    requires e < end <= |t|
  {
    && t[end - 1] == ';'
    && (|| SpacesIn(t, e, end - 1)
        || exists k :: e <= k < end - 1 && t[k] == ')' && SpacesIn(t, e, k) && SpacesIn(t, k + 1, end - 1))
  }

  /** The match begins with spaces, `@import`, what may stand between it and
      the reference, and the opening quote; the reference starts at `a`. */
  ghost predicate ImportFrontAt(t: string, a: nat, quote: string) {
    var w := SpaceRun(t, 0);
    && LitAt(t, w, "@import")
    && QuoteOk(quote)
    && w + 7 + |quote| <= a <= |t|
    && ImportLead(t, w + 7, a - |quote|)
    && t[a - |quote|..a] == quote
  }

  ghost predicate ImportFront(t: string, c: ImportCap) {
    ImportFrontAt(t, c.start, c.quote)
  }

  /** The reference, the closing quote and the tail up to the `;` that ends the match. */
  ghost predicate ImportBack(rule: RefRule, t: string, f: Found<ImportCap>) {
    var c := f.cap;
    var e := c.start + |c.ref|;
    && e + |c.quote| < f.len <= |t|
    && t[c.start..e] == c.ref
    && ValidRef(rule, c.ref)
    && t[e..e + |c.quote|] == c.quote
    && ImportTail(t, e + |c.quote|, f.len)
  }

  ghost predicate ImportShape(rule: RefRule, t: string, f: Found<ImportCap>) {
    ImportFront(t, f.cap) && ImportBack(rule, t, f)
  }

  function ImportAt(rule: RefRule, t: string): (r: Option<Found<ImportCap>>)
    ensures r.Some? ==> ImportShape(rule, t, r.value)
  {
    var w := SpaceRun(t, 0);
    if LitAt(t, w, "@import") then
      var p := w + 7;
      var r := Lazy(ImportTry(rule, t, p), 0, SpaceRun(t, p));
      assert r.Some? ==> ImportShape(rule, t, r.value) by {
        LazyPicks(ImportTry(rule, t, p), 0, SpaceRun(t, p));
        if r.Some? {
          var v :| 0 <= v && (v <= SpaceRun(t, p) || v == 0) && r == ImportTry(rule, t, p)(v);
          ImportTryShape(rule, t, p, v);
        }
      }
      r
    else None
  }

  /** The rest of the pattern once the lazy `\s*?` after `@import` (ending at
      `p`) has taken `j` spaces: the `url(` group first, then no group. */
  function ImportTry(rule: RefRule, t: string, p: nat): nat -> Option<Found<ImportCap>> {
    (j: nat) =>
      if LitAt(t, SpaceRun(t, 0), "@import") && p == SpaceRun(t, 0) + 7 && p + j <= |t| && SpacesIn(t, p, p + j) then
        ImportFrom(rule, t, p, p + j)
      else None
  }

  /** The spaces after `@import` end at `g`: the `url(` group first, then no group. */
  function ImportFrom(rule: RefRule, t: string, p: nat, g: nat): Option<Found<ImportCap>>
    requires LitAt(t, SpaceRun(t, 0), "@import") && p == SpaceRun(t, 0) + 7
    requires p <= g <= |t| && SpacesIn(t, p, g)
  {
    var viaUrl := ImportGroup(rule, t, p, g);
    if viaUrl.Some? then viaUrl else ImportBody(rule, t, g)
  }

  /** `(?: url\(\s*)` taken: a plain space, `url(` in any case, and the greedy `\s*`. */
  function ImportGroup(rule: RefRule, t: string, p: nat, g: nat): Option<Found<ImportCap>>
    requires LitAt(t, SpaceRun(t, 0), "@import") && p == SpaceRun(t, 0) + 7
    requires p <= g <= |t| && SpacesIn(t, p, g)
  {
    if ExactAt(t, g, " ") && LitAt(t, g + 1, "url(") then
      Greedy(GroupTry(rule, t, p, g + 5), SpaceRun(t, g + 5))
    else None
  }

  /** The rest of the pattern once the greedy `\s*` inside the group (from
      `u`) has taken `w` spaces. */
  function GroupTry(rule: RefRule, t: string, p: nat, u: nat): nat -> Option<Found<ImportCap>> {
    (w: nat) =>
      if GroupAt(t, p, u) && u + w <= |t| && SpacesIn(t, u, u + w) then ImportBody(rule, t, u + w)
      else None
  }

  /** `t[p..u]` is spaces ending in a plain space, then `url(`. */
  predicate GroupAt(t: string, p: nat, u: nat) {
    && LitAt(t, SpaceRun(t, 0), "@import") && p == SpaceRun(t, 0) + 7
    && p + 5 <= u <= |t| && t[u - 5] == ' ' && SpacesIn(t, p, u - 4) && LitAt(t, u - 4, "url(")
  }

  lemma GroupLead(t: string, p: nat, u: nat, w: nat)
    requires GroupAt(t, p, u) && u + w <= |t| && SpacesIn(t, u, u + w)
    ensures ImportLead(t, p, u + w)
  {
    assert UrlGroup(t, p, u - 4, u + w);
  }

  /** `(['"])?`: take the quote at `q` if there is one, else (or if that fails) none. */
  function ImportBody(rule: RefRule, t: string, q: nat): Option<Found<ImportCap>>
    requires q <= |t|
  {
    var quoted := if q < |t| && IsQuote(t[q]) then ImportQuoted(rule, t, q) else None;
    MaxRefValid(rule, t, q);
    if quoted.Some? then quoted else ImportRef(rule, t, q, [], MaxRef(rule, t, q))
  }

  /** The quote at `q` taken. */
  function ImportQuoted(rule: RefRule, t: string, q: nat): Option<Found<ImportCap>>
    requires q < |t|
  {
    MaxRefValid(rule, t, q + 1);
    ImportRef(rule, t, q + 1, [t[q]], MaxRef(rule, t, q + 1))
  }

  /** The greedy reference from `a`, from `n` characters down to the shortest
      the rule allows, followed by the closing `quote`. */
  function ImportRef(rule: RefRule, t: string, a: nat, quote: string, n: nat): Option<Found<ImportCap>>
    requires RefFits(rule, t, a, n)
    decreases n
  {
    if n < MinRef(rule) then None
    else
      match ImportClose(t, a + n, quote)
      case Some(len) => Some(Found(len, ImportCap(a, t[a..a + n], quote)))
      case None =>
        if n == MinRef(rule) then None
        else ShorterRef(rule, t, a, n); ImportRef(rule, t, a, quote, n - 1)
  }

  // Every match the search returns has the shape above.

  lemma ImportTryShape(rule: RefRule, t: string, p: nat, j: nat)
    ensures ImportTry(rule, t, p)(j).Some? ==> ImportShape(rule, t, ImportTry(rule, t, p)(j).value)
  {
    if LitAt(t, SpaceRun(t, 0), "@import") && p == SpaceRun(t, 0) + 7 && p + j <= |t| && SpacesIn(t, p, p + j) {
      ImportFromShape(rule, t, p, p + j);
    }
  }

  lemma ImportFromShape(rule: RefRule, t: string, p: nat, g: nat)
    requires LitAt(t, SpaceRun(t, 0), "@import") && p == SpaceRun(t, 0) + 7
    requires p <= g <= |t| && SpacesIn(t, p, g)
    ensures ImportFrom(rule, t, p, g).Some? ==> ImportShape(rule, t, ImportFrom(rule, t, p, g).value)
  {
    ImportGroupShape(rule, t, p, g);
    ImportBodyShape(rule, t, p, g);
  }

  lemma ImportGroupShape(rule: RefRule, t: string, p: nat, g: nat)
    requires LitAt(t, SpaceRun(t, 0), "@import") && p == SpaceRun(t, 0) + 7
    requires p <= g <= |t| && SpacesIn(t, p, g)
    ensures ImportGroup(rule, t, p, g).Some? ==> ImportShape(rule, t, ImportGroup(rule, t, p, g).value)
  {
    if ExactAt(t, g, " ") && LitAt(t, g + 1, "url(") {
      GroupPickShape(rule, t, p, g + 5);
    }
  }

  lemma GroupPickShape(rule: RefRule, t: string, p: nat, u: nat)
    requires u <= |t|
    ensures var r := Greedy(GroupTry(rule, t, p, u), SpaceRun(t, u));
            r.Some? ==> ImportShape(rule, t, r.value)
  {
    var r := Greedy(GroupTry(rule, t, p, u), SpaceRun(t, u));
    GreedyPicks(GroupTry(rule, t, p, u), SpaceRun(t, u));
    if r.Some? {
      var v :| 0 <= v <= SpaceRun(t, u) && r == GroupTry(rule, t, p, u)(v);
      GroupTryShape(rule, t, p, u, v);
    }
  }

  lemma GroupTryShape(rule: RefRule, t: string, p: nat, u: nat, w: nat)
    ensures GroupTry(rule, t, p, u)(w).Some? ==> ImportShape(rule, t, GroupTry(rule, t, p, u)(w).value)
  {
    if GroupAt(t, p, u) && u + w <= |t| && SpacesIn(t, u, u + w) {
      GroupLead(t, p, u, w);
      ImportBodyShape(rule, t, p, u + w);
    }
  }

  lemma ImportBodyShape(rule: RefRule, t: string, p: nat, q: nat)
    requires LitAt(t, SpaceRun(t, 0), "@import") && p == SpaceRun(t, 0) + 7
    requires p <= q <= |t| && ImportLead(t, p, q)
    ensures ImportBody(rule, t, q).Some? ==> ImportShape(rule, t, ImportBody(rule, t, q).value)
  {
    if q < |t| && IsQuote(t[q]) {
      ImportQuotedFront(t, p, q);
      ImportQuotedShape(rule, t, q);
    }
    ImportPlainFront(t, p, q);
    ImportPlainShape(rule, t, q);
  }

  lemma ImportQuotedFront(t: string, p: nat, q: nat)
    requires LitAt(t, SpaceRun(t, 0), "@import") && p == SpaceRun(t, 0) + 7
    requires p <= q < |t| && ImportLead(t, p, q) && IsQuote(t[q])
    ensures ImportFrontAt(t, q + 1, [t[q]])
  {
    assert t[q..q + 1] == [t[q]];
    LeadSame(t, p, q, q + 1 - |[t[q]]|);
  }

  lemma ImportPlainFront(t: string, p: nat, q: nat)
    requires LitAt(t, SpaceRun(t, 0), "@import") && p == SpaceRun(t, 0) + 7
    requires p <= q <= |t| && ImportLead(t, p, q)
    ensures ImportFrontAt(t, q, [])
  {
    var none: string := [];
    assert t[q - |none|..q] == none;
    LeadSame(t, p, q, q - |none|);
  }

  lemma LeadSame(t: string, p: nat, x: nat, y: nat)
    requires p <= x <= |t| && x == y && ImportLead(t, p, x)
    ensures ImportLead(t, p, y)
  {
  }

  lemma ImportQuotedShape(rule: RefRule, t: string, q: nat)
    requires q < |t| && ImportFrontAt(t, q + 1, [t[q]])
    ensures ImportQuoted(rule, t, q).Some? ==> ImportShape(rule, t, ImportQuoted(rule, t, q).value)
  {
    MaxRefValid(rule, t, q + 1);
    ImportRefShape(rule, t, q + 1, [t[q]], MaxRef(rule, t, q + 1));
  }

  lemma ImportPlainShape(rule: RefRule, t: string, q: nat)
    requires q <= |t| && ImportFrontAt(t, q, [])
    ensures RefFits(rule, t, q, MaxRef(rule, t, q))
    ensures ImportRef(rule, t, q, [], MaxRef(rule, t, q)).Some?
            ==> ImportShape(rule, t, ImportRef(rule, t, q, [], MaxRef(rule, t, q)).value)
  {
    MaxRefValid(rule, t, q);
    ImportRefShape(rule, t, q, [], MaxRef(rule, t, q));
  }

  lemma ImportRefShape(rule: RefRule, t: string, a: nat, quote: string, n: nat)
    requires RefFits(rule, t, a, n) && ImportFrontAt(t, a, quote)
    ensures ImportRef(rule, t, a, quote, n).Some? ==> ImportShape(rule, t, ImportRef(rule, t, a, quote, n).value)
  {
    ImportRefBack(rule, t, a, quote, n);
  }

  /** What follows the front: the match starts its reference at `a`, keeps
      the quote and has the back shape. */
  lemma {:induction false} ImportRefBack(rule: RefRule, t: string, a: nat, quote: string, n: nat)
    requires RefFits(rule, t, a, n)
    ensures var r := ImportRef(rule, t, a, quote, n);
            r.Some? ==> r.value.cap.start == a && r.value.cap.quote == quote && ImportBack(rule, t, r.value)
    decreases n
  {
    if n >= MinRef(rule) {
      match ImportClose(t, a + n, quote)
      case Some(len) => ImportHitBack(rule, t, a, quote, n, len);
      case None =>
        if n > MinRef(rule) {
          ShorterRef(rule, t, a, n);
          ImportRefBack(rule, t, a, quote, n - 1);
        }
    }
  }

  lemma ImportHitBack(rule: RefRule, t: string, a: nat, quote: string, n: nat, len: nat)
    requires a + n <= |t| && ValidRef(rule, t[a..a + n])
    requires ImportClose(t, a + n, quote) == Some(len)
    ensures ImportBack(rule, t, Found(len, ImportCap(a, t[a..a + n], quote)))
  {
  }

  /** `\1\s*\)?\s*;`. Whatever the backtracking, the match can only end at the
      first `;` after the spaces and the optional `)`. */
  function ImportClose(t: string, e: nat, quote: string): (r: Option<nat>)
    requires e <= |t|
    ensures r.Some? ==> e + |quote| < r.value <= |t| && t[e..e + |quote|] == quote
    ensures r.Some? ==> ImportTail(t, e + |quote|, r.value)
  {
    if ExactAt(t, e, quote) then ImportSemi(t, e + |quote|) else None
  }

  /** `\s*\)?\s*;` from `e`. */
  function ImportSemi(t: string, e: nat): (r: Option<nat>)
    requires e <= |t|
    ensures r.Some? ==> e < r.value <= |t| && ImportTail(t, e, r.value)
  {
    var k := e + SpaceRun(t, e);
    SpaceRunSpaces(t, e);
    if k < |t| && t[k] == ';' then Some(k + 1)
    else if k < |t| && t[k] == ')' then ImportParenSemi(t, e, k)
    else None
  }

  /** `\s*;` after the `)` at `k`. */
  function ImportParenSemi(t: string, e: nat, k: nat): (r: Option<nat>)
    requires e <= k < |t| && t[k] == ')' && SpacesIn(t, e, k)
    ensures r.Some? ==> k < r.value <= |t| && ImportTail(t, e, r.value)
  {
    var k2 := k + 1 + SpaceRun(t, k + 1);
    SpaceRunSpaces(t, k + 1);
    if k2 < |t| && t[k2] == ';' then Some(k2 + 1) else None
  }

  // Conversely, the search finds every well-formed `@import`.

  /** Spaces then `;` close the match. */
  lemma ImportSemiDirect(t: string, e: nat, len: nat)
    requires e < len <= |t| && t[len - 1] == ';' && SpacesIn(t, e, len - 1)
    ensures ImportSemi(t, e).Some?
  {
    SpaceRunIs(t, e, len - 1 - e);
  }

  /** Spaces, `)` at `k`, spaces and `;` close the match. */
  lemma ImportSemiParen(t: string, e: nat, k: nat, len: nat)
    requires e <= k < len - 1 && len <= |t| && t[len - 1] == ';' && t[k] == ')'
    requires SpacesIn(t, e, k) && SpacesIn(t, k + 1, len - 1)
    ensures ImportSemi(t, e).Some?
  {
    SpaceRunIs(t, e, k - e);
    SpaceRunIs(t, k + 1, len - 1 - (k + 1));
  }

  lemma ImportSemiIs(t: string, e: nat, len: nat)
    requires e < len <= |t| && ImportTail(t, e, len)
    ensures ImportSemi(t, e).Some?
  {
    if SpacesIn(t, e, len - 1) {
      ImportSemiDirect(t, e, len);
    } else {
      var k :| e <= k < len - 1 && t[k] == ')' && SpacesIn(t, e, k) && SpacesIn(t, k + 1, len - 1);
      ImportSemiParen(t, e, k, len);
    }
  }

  lemma ImportCloseIs(t: string, e: nat, quote: string, len: nat)
    requires e + |quote| < len <= |t| && t[e..e + |quote|] == quote
    requires ImportTail(t, e + |quote|, len)
    ensures ImportClose(t, e, quote).Some?
  {
    ImportSemiIs(t, e + |quote|, len);
  }

  /** Trying shorter and shorter references reaches any that closes. */
  lemma {:induction false} ImportRefFinds(rule: RefRule, t: string, a: nat, quote: string, n: nat, m: nat)
    requires RefFits(rule, t, a, n)
    requires MinRef(rule) <= m <= n && ImportClose(t, a + m, quote).Some?
    ensures ImportRef(rule, t, a, quote, n).Some?
    decreases n
  {
    if n > m && ImportClose(t, a + n, quote).None? {
      ShorterRef(rule, t, a, n);
      ImportRefFinds(rule, t, a, quote, n - 1, m);
    }
  }

  lemma ImportShapeCloses(rule: RefRule, t: string, f: Found<ImportCap>)
    requires ImportShape(rule, t, f) == true
    ensures ImportClose(t, f.cap.start + |f.cap.ref|, f.cap.quote).Some?
  {
    ImportCloseIs(t, f.cap.start + |f.cap.ref|, f.cap.quote, f.len);
  }

  lemma ImportShapeCovered(rule: RefRule, t: string, f: Found<ImportCap>)
    requires ImportShape(rule, t, f) == true
    ensures MinRef(rule) <= |f.cap.ref| <= MaxRef(rule, t, f.cap.start)
  {
    MaxRefCovers(rule, t, f.cap.start, |f.cap.ref|);
  }

  /** The greedy reference search from the start of a well-formed reference succeeds. */
  lemma ImportShapeReaches(rule: RefRule, t: string, f: Found<ImportCap>)
    requires ImportShape(rule, t, f) == true
    ensures RefFits(rule, t, f.cap.start, MaxRef(rule, t, f.cap.start))
    ensures ImportRef(rule, t, f.cap.start, f.cap.quote, MaxRef(rule, t, f.cap.start)).Some?
  {
    var c := f.cap;
    MaxRefValid(rule, t, c.start);
    ImportShapeCloses(rule, t, f);
    ImportShapeCovered(rule, t, f);
    ImportRefFinds(rule, t, c.start, c.quote, MaxRef(rule, t, c.start), |c.ref|);
  }

  /** The quoted search from the quote of a well-formed quoted `@import` succeeds. */
  lemma ImportQuotedSome(rule: RefRule, t: string, f: Found<ImportCap>)
    requires ImportShape(rule, t, f) == true && f.cap.quote != []
    ensures 0 < f.cap.start <= |t| && ImportQuoted(rule, t, f.cap.start - 1).Some?
  {
    ImportShapeReaches(rule, t, f);
    ImportFrontQuote(t, f.cap);
  }

  lemma ImportBodyTakes(rule: RefRule, t: string, q: nat)
    requires q < |t| && IsQuote(t[q]) && ImportQuoted(rule, t, q).Some?
    ensures ImportBody(rule, t, q).Some?
  {
  }

  lemma ImportBodyFalls(rule: RefRule, t: string, q: nat)
    requires q <= |t| && RefFits(rule, t, q, MaxRef(rule, t, q))
    requires ImportRef(rule, t, q, [], MaxRef(rule, t, q)).Some?
    ensures ImportBody(rule, t, q).Some?
  {
  }

  /** The quote (or no quote) of a well-formed `@import` leads to a match. */
  lemma ImportShapeFinds(rule: RefRule, t: string, f: Found<ImportCap>)
    requires ImportShape(rule, t, f) == true
    ensures f.cap.start - |f.cap.quote| <= |t|
    ensures ImportBody(rule, t, f.cap.start - |f.cap.quote|).Some?
  {
    if f.cap.quote != [] {
      ImportShapeQuoted(rule, t, f);
    } else {
      ImportShapePlain(rule, t, f);
    }
  }

  lemma ImportShapePlain(rule: RefRule, t: string, f: Found<ImportCap>)
    requires ImportShape(rule, t, f) == true && f.cap.quote == []
    ensures ImportBody(rule, t, f.cap.start - |f.cap.quote|).Some?
  {
    ImportShapeReaches(rule, t, f);
    assert f.cap.start - |f.cap.quote| == f.cap.start;
    ImportBodyFalls(rule, t, f.cap.start);
  }

  lemma ImportShapeQuoted(rule: RefRule, t: string, f: Found<ImportCap>)
    requires ImportShape(rule, t, f) == true && f.cap.quote != []
    ensures ImportBody(rule, t, f.cap.start - |f.cap.quote|).Some?
  {
    ImportQuotedSome(rule, t, f);
    ImportFrontQuote(t, f.cap);
    ImportBodyTakes(rule, t, f.cap.start - 1);
  }

  /** The one-character quote is the character before the reference. */
  lemma ImportFrontQuote(t: string, c: ImportCap)
    requires ImportFront(t, c) == true && c.quote != []
    ensures 0 < c.start <= |t| && c.quote == [t[c.start - 1]] && IsQuote(t[c.start - 1])
    ensures c.start - |c.quote| == c.start - 1
  {
    assert c.quote[0] == t[c.start - |c.quote|..c.start][0];
  }

  lemma ImportFromBody(rule: RefRule, t: string, p: nat, g: nat)
    requires LitAt(t, SpaceRun(t, 0), "@import") && p == SpaceRun(t, 0) + 7
    requires p <= g <= |t| && SpacesIn(t, p, g)
    requires ImportBody(rule, t, g).Some?
    ensures ImportFrom(rule, t, p, g).Some?
  {
  }

  lemma ImportFromGroup(rule: RefRule, t: string, p: nat, g: nat)
    requires LitAt(t, SpaceRun(t, 0), "@import") && p == SpaceRun(t, 0) + 7
    requires p <= g <= |t| && SpacesIn(t, p, g)
    requires ImportGroup(rule, t, p, g).Some?
    ensures ImportFrom(rule, t, p, g).Some?
  {
  }

  lemma ImportTryFrom(rule: RefRule, t: string, p: nat, j: nat)
    requires LitAt(t, SpaceRun(t, 0), "@import") && p == SpaceRun(t, 0) + 7
    requires p + j <= |t| && SpacesIn(t, p, p + j)
    requires ImportFrom(rule, t, p, p + j).Some?
    ensures ImportTry(rule, t, p)(j).Some?
  {
  }

  lemma FromSame(rule: RefRule, t: string, p: nat, g: nat, h: nat)
    requires LitAt(t, SpaceRun(t, 0), "@import") && p == SpaceRun(t, 0) + 7
    requires p <= g <= |t| && SpacesIn(t, p, g) && ImportFrom(rule, t, p, g).Some? && h == g
    ensures p <= h <= |t| && SpacesIn(t, p, h) && ImportFrom(rule, t, p, h).Some?
  {
  }

  lemma ImportAtLazy(rule: RefRule, t: string, p: nat, j: nat)
    requires LitAt(t, SpaceRun(t, 0), "@import") && p == SpaceRun(t, 0) + 7 && p <= |t|
    requires j <= SpaceRun(t, p) && ImportTry(rule, t, p)(j).Some?
    ensures ImportAt(rule, t).Some?
  {
    LazyFinds(ImportTry(rule, t, p), 0, SpaceRun(t, p), j);
  }

  /** The spaces after `@import` end at `g` and the search from there succeeds. */
  lemma ImportAtFrom(rule: RefRule, t: string, p: nat, g: nat)
    requires LitAt(t, SpaceRun(t, 0), "@import") && p == SpaceRun(t, 0) + 7
    requires p <= g <= |t| && SpacesIn(t, p, g)
    requires ImportFrom(rule, t, p, g).Some?
    ensures ImportAt(rule, t).Some?
  {
    var j := g - p;
    FromSame(rule, t, p, g, p + j);
    ImportTryFrom(rule, t, p, j);
    SpaceRunCovers(t, p, j);
    ImportAtLazy(rule, t, p, j);
  }

  /** `url(` at `v`, after spaces that end in a plain space: the group route. */
  lemma ImportAtGroup(rule: RefRule, t: string, p: nat, v: nat, q: nat)
    requires LitAt(t, SpaceRun(t, 0), "@import") && p == SpaceRun(t, 0) + 7
    requires UrlGroup(t, p, v, q) == true && ImportBody(rule, t, q).Some?
    ensures ImportAt(rule, t).Some?
  {
    GroupAtFrom(t, p, v, q);
    GroupFinds(rule, t, p, v + 4, q);
    GroupTaken(rule, t, p, v + 4);
    ImportAtViaGroup(rule, t, p, v + 4 - 5);
  }

  lemma GroupAtFrom(t: string, p: nat, v: nat, q: nat)
    requires LitAt(t, SpaceRun(t, 0), "@import") && p == SpaceRun(t, 0) + 7
    requires UrlGroup(t, p, v, q) == true
    ensures GroupAt(t, p, v + 4) == true && v + 4 <= q <= |t| && SpacesIn(t, v + 4, q)
  {
  }

  lemma GroupFinds(rule: RefRule, t: string, p: nat, u: nat, q: nat)
    requires GroupAt(t, p, u) == true && u <= q <= |t| && SpacesIn(t, u, q)
    requires ImportBody(rule, t, q).Some?
    ensures Greedy(GroupTry(rule, t, p, u), SpaceRun(t, u)).Some?
  {
    var w := q - u;
    assert u + w == q;
    assert GroupTry(rule, t, p, u)(w).Some?;
    SpaceRunCovers(t, u, w);
    GreedyFinds(GroupTry(rule, t, p, u), SpaceRun(t, u), w);
  }

  lemma GroupTaken(rule: RefRule, t: string, p: nat, u: nat)
    requires GroupAt(t, p, u) == true && Greedy(GroupTry(rule, t, p, u), SpaceRun(t, u)).Some?
    ensures LitAt(t, SpaceRun(t, 0), "@import") && p == SpaceRun(t, 0) + 7
    ensures p <= u - 5 <= |t| && SpacesIn(t, p, u - 5) && ImportGroup(rule, t, p, u - 5).Some?
  {
    assert t[u - 5..u - 4] == [t[u - 5]];
    assert u - 5 + 1 == u - 4 && u - 5 + 5 == u;
  }

  lemma ImportAtViaGroup(rule: RefRule, t: string, p: nat, g: nat)
    requires LitAt(t, SpaceRun(t, 0), "@import") && p == SpaceRun(t, 0) + 7
    requires p <= g <= |t| && SpacesIn(t, p, g) && ImportGroup(rule, t, p, g).Some?
    ensures ImportAt(rule, t).Some?
  {
    ImportFromGroup(rule, t, p, g);
    ImportAtFrom(rule, t, p, g);
  }

  /** A search that succeeds after what may stand before the reference. */
  lemma ImportAtLead(rule: RefRule, t: string, p: nat, q: nat)
    requires ImportHead(t, p) == true
    requires p <= q <= |t| && ImportLead(t, p, q) == true && ImportBody(rule, t, q).Some?
    ensures ImportAt(rule, t).Some?
  {
    if SpacesIn(t, p, q) {
      ImportAtPlain(rule, t, p, q);
    } else {
      var v :| UrlGroup(t, p, v, q);
      ImportAtGroup(rule, t, p, v, q);
    }
  }

  lemma ImportFrontLead(t: string, c: ImportCap, p: nat, q: nat)
    requires ImportFront(t, c) == true && p == SpaceRun(t, 0) + 7 && q == c.start - |c.quote|
    ensures ImportHead(t, p) == true && p <= q <= |t| && ImportLead(t, p, q) == true
  {
  }

  /** Only spaces between `@import` and the reference: no group. */
  lemma ImportAtPlain(rule: RefRule, t: string, p: nat, q: nat)
    requires LitAt(t, SpaceRun(t, 0), "@import") && p == SpaceRun(t, 0) + 7
    requires p <= q <= |t| && SpacesIn(t, p, q) && ImportBody(rule, t, q).Some?
    ensures ImportAt(rule, t).Some?
  {
    ImportFromBody(rule, t, p, q);
    ImportAtFrom(rule, t, p, q);
  }

  /** Every well-formed `@import` at the head of `t` is found. */
  lemma ImportAtComplete(rule: RefRule, t: string, f: Found<ImportCap>)
    requires ImportShape(rule, t, f)
    ensures ImportAt(rule, t).Some?
  {
    ImportShapeFinds(rule, t, f);
    ImportAtCap(rule, t, f);
  }

  lemma ImportAtCap(rule: RefRule, t: string, f: Found<ImportCap>)
    requires ImportShape(rule, t, f) == true
    requires f.cap.start - |f.cap.quote| <= |t| && ImportBody(rule, t, f.cap.start - |f.cap.quote|).Some?
    ensures ImportAt(rule, t).Some?
  {
    var p := SpaceRun(t, 0) + 7;
    var q := f.cap.start - |f.cap.quote|;
    ImportFrontLead(t, f.cap, p, q);
    ImportAtLead(rule, t, p, q);
  }


  // ---------------------------------------------------------------------
  // Scans over a whole text

  function ImportMatcher(rule: RefRule): string -> Option<Found<ImportCap>> {
    t => ImportAt(rule, t)
  }

  function UrlMatcher(rule: RefRule): string -> Option<Found<UrlCap>> {
    t => UrlAt(rule, t)
  }

  /** `text.replace(/...@import.../ig, fn)`: the matches the callback sees, in order. */
  function ImportPieces(rule: RefRule, s: string): (ps: seq<Piece<ImportCap>>)
    ensures Raw(ps) == s
  {
    Pieces(s, ImportMatcher(rule))
  }

  /** `text.replace(/url\(...\)/ig, fn)`: the matches the callback sees, in order. */
  function UrlPieces(rule: RefRule, s: string): (ps: seq<Piece<UrlCap>>)
    ensures Raw(ps) == s
  {
    Pieces(s, UrlMatcher(rule))
  }

  lemma ImportProgress(rule: RefRule)
    ensures Progress(ImportMatcher(rule))
  {
    forall t | ImportMatcher(rule)(t).Some? ensures 0 < ImportMatcher(rule)(t).value.len <= |t| {
      assert ImportMatcher(rule)(t) == ImportAt(rule, t);
    }
  }

  lemma UrlProgress(rule: RefRule)
    ensures Progress(UrlMatcher(rule))
  {
    forall t | UrlMatcher(rule)(t).Some? ensures 0 < UrlMatcher(rule)(t).value.len <= |t| {
      assert UrlMatcher(rule)(t) == UrlAt(rule, t);
    }
  }

  /** No well-formed `@import` starts where the search finds none. */
  lemma ImportNone(rule: RefRule, t: string)
    requires ImportAt(rule, t).None?
    ensures forall f :: !ImportShape(rule, t, f)
  {
    forall f | ImportShape(rule, t, f) ensures false {
      ImportAtComplete(rule, t, f);
    }
  }

  /** No well-formed `url(...)` starts where the search finds none. */
  lemma UrlNone(rule: RefRule, t: string)
    requires UrlAt(rule, t).None?
    ensures forall f :: !UrlShape(rule, t, f)
  {
    forall f | UrlShape(rule, t, f) ensures false {
      UrlAtComplete(rule, t, f);
    }
  }

  /** What the `@import` scan's piece says about the text at its offset. */
  ghost predicate ImportPieceFits(rule: RefRule, s: string, o: nat, p: Piece<ImportCap>) {
    && o < |s|
    && (p.Hit? ==> && o + |p.raw| <= |s| && p.raw == s[o..o + |p.raw|]
                   && ImportAt(rule, s[o..]) == Some(Found(|p.raw|, p.cap))
                   && ImportShape(rule, s[o..], Found(|p.raw|, p.cap)))
    && (p.Kept? ==> && p.c == s[o] && ImportAt(rule, s[o..]).None?
                    && forall f :: !ImportShape(rule, s[o..], f))
  }

  /** What the `url(...)` scan's piece says about the text at its offset. */
  ghost predicate UrlPieceFits(rule: RefRule, s: string, o: nat, p: Piece<UrlCap>) {
    && o < |s|
    && (p.Hit? ==> && o + |p.raw| <= |s| && p.raw == s[o..o + |p.raw|]
                   && UrlAt(rule, s[o..]) == Some(Found(|p.raw|, p.cap))
                   && UrlShape(rule, s[o..], Found(|p.raw|, p.cap)))
    && (p.Kept? ==> && p.c == s[o] && UrlAt(rule, s[o..]).None?
                    && forall f :: !UrlShape(rule, s[o..], f))
  }

  lemma ImportFits(rule: RefRule, s: string, o: nat, p: Piece<ImportCap>)
    requires PieceFits(s, ImportMatcher(rule), o, p)
    ensures ImportPieceFits(rule, s, o, p)
  {
    assert ImportMatcher(rule)(s[o..]) == ImportAt(rule, s[o..]);
    if p.Kept? {
      ImportNone(rule, s[o..]);
    }
  }

  lemma UrlFits(rule: RefRule, s: string, o: nat, p: Piece<UrlCap>)
    requires PieceFits(s, UrlMatcher(rule), o, p)
    ensures UrlPieceFits(rule, s, o, p)
  {
    assert UrlMatcher(rule)(s[o..]) == UrlAt(rule, s[o..]);
    if p.Kept? {
      UrlNone(rule, s[o..]);
    }
  }

  /** Each piece of the `@import` scan starts where the pieces before it end:
      a match is the well-formed `@import` the search finds there, and a kept
      character starts none. */
  lemma ImportPiecesMatch(rule: RefRule, s: string, k: nat)
    requires k < |ImportPieces(rule, s)|
    ensures ImportPieceFits(rule, s, |Raw(ImportPieces(rule, s)[..k])|, ImportPieces(rule, s)[k])
  {
    ImportProgress(rule);
    PiecesAtIndex(s, ImportMatcher(rule), k);
    ImportFits(rule, s, |Raw(ImportPieces(rule, s)[..k])|, ImportPieces(rule, s)[k]);
  }

  /** The same for the `url(...)` scan. */
  lemma UrlPiecesMatch(rule: RefRule, s: string, k: nat)
    requires k < |UrlPieces(rule, s)|
    ensures UrlPieceFits(rule, s, |Raw(UrlPieces(rule, s)[..k])|, UrlPieces(rule, s)[k])
  {
    UrlProgress(rule);
    PiecesAtIndex(s, UrlMatcher(rule), k);
    UrlFits(rule, s, |Raw(UrlPieces(rule, s)[..k])|, UrlPieces(rule, s)[k]);
  }

  // ---------------------------------------------------------------------
  // Replacing the reference inside a url(...) match

  /** The first index at which `pat` occurs in `s`. */
  function IndexOf(s: string, pat: string, from: nat): (r: Option<nat>)
    ensures r.Some? ==> from <= r.value && ExactAt(s, r.value, pat)
    ensures r.Some? ==> forall k :: from <= k < r.value ==> !ExactAt(s, k, pat)
    ensures r.None? ==> forall k :: from <= k ==> !ExactAt(s, k, pat)
    decreases |s| - from
  {
    if from + |pat| > |s| then None
    else if ExactAt(s, from, pat) then Some(from)
    else IndexOf(s, pat, from + 1)
  }

  /** `s.replace(pat, rep)` with a string `pat`: its first occurrence only
      (the `$` forms inside `rep` are not modelled). */
  function ReplaceFirst(s: string, pat: string, rep: string): string {
    match IndexOf(s, pat, 0)
    case Some(k) => s[..k] + rep + s[k + |pat|..]
    case None => s
  }
}
