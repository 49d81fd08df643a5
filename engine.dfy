/** The engine both plugins share: `combine`, which joins a stylesheet with
    the stylesheets it imports and turns its relative `url(...)` references
    into absolute, versioned ones (tasks/css_to_js.js:36-71, grunt-jcss.js:45-74),
    and the loop that compresses, wraps and writes each combined source
    (tasks/css_to_js.js:116-126, grunt-jcss.js:120-132). The two copies differ
    in what they strip before looking for imports, in the reference pattern
    and in `compress`; `Plugin` says which copy is meant.

    `Canon` is what `combine` returns for a file, defined by recursion over the
    import graph; `Combiner.Combine` is `combine` itself, with its memo
    (`combinedMap`, `combineCache`) and the version memo, proved to return
    `Canon` as long as every entry of the memo was combined under the settings
    in force. The file system is a map from path to content: a path missing
    from it is a file `grunt.file.read` fails on, which ends the whole run. */
module Engine {
  import opened Text
  import opened Scan
  import Strip
  import opened Refs
  import opened Paths
  import opened Versioning
  import Minify
  import Emit

  /** A value, or the path of the file that could not be read. */
  datatype Result<T> = Ok(value: T) | Err(missing: string)

  /** Which copy of the engine: tasks/css_to_js.js or grunt-jcss.js. */
  datatype Plugin = CssToJsTask | JcssTask

  /** What `combine` sees: the plugin, the files, the digest function, the
      working directory that `path.relative` resolves against, and the two
      settings of the `url(...)` pass: the base URL and the local directory
      it stands for (`baseDir` in tasks/css_to_js.js, `baseSrc` in
      grunt-jcss.js). */
  datatype Env = Env(plugin: Plugin, files: map<string, string>, md5: string -> HexDigest, cwd: string,
                     baseUrl: string, baseDir: string)

  /** What the per-file loop adds: the charset prefix, the base settings and
      the register function (tasks/css_to_js.js:26-31; per file group in
      grunt-jcss.js:120-123). */
  datatype Options = Options(charset: string, baseUrl: string, baseDir: string, regFn: string)

  // ---------------------------------------------------------------------
  // One file

  /** The text of a file before imports are looked for: without a leading
      byte-order mark, comments and `@charset` rules (tasks/css_to_js.js:45-52),
      or only without comments (grunt-jcss.js:54-55). */
  function Prepare(plugin: Plugin, content: string): string {
    match plugin
    case CssToJsTask => Strip.StripCharsetRules(Strip.StripComments(Strip.StripBom(content)))
    case JcssTask => Strip.StripComments(content)
  }

  /** The reference pattern: `(?!\/)[\w\-\.\/\?=]+` (tasks/css_to_js.js:55, 62)
      or `[^\/][\w\-\.\/\?=]+` (grunt-jcss.js:58, 65). */
  function Rule(plugin: Plugin): RefRule {
    match plugin
    case CssToJsTask => NoLeadingSlash
    case JcssTask => AnyLeadThenClass
  }

  /** `path.join(path.dirname(p), ref).replace(/\\/g, '/')`: a reference taken
      relative to the directory of the file it appears in. */
  function Sibling(p: string, ref: string): string {
    ReplaceChar(Join(Dirname(p), ref), '\\', '/')
  }

  /** The `@import` matches of a file, in order. */
  function Imports(plugin: Plugin, files: map<string, string>, p: string): seq<Piece<ImportCap>>
    requires p in files
  {
    ImportPieces(Rule(plugin), Prepare(plugin, files[p]))
  }

  /** The absolute URL a relative reference of `p` becomes
      (tasks/css_to_js.js:63-65, grunt-jcss.js:66-68). */
  function AbsUrl(env: Env, p: string, ref: string): string {
    var target := Sibling(p, ref);
    var versioned := Versioned(target, Version(env.files, env.md5, StripQuery(target)));
    env.baseUrl + ReplaceChar(Relative(env.baseDir, versioned, env.cwd), '\\', '/')
  }

  /** What one `url(...)` match `raw` is replaced by: the match with the
      first occurrence of its reference replaced (tasks/css_to_js.js:66,
      grunt-jcss.js:69). */
  function RewriteMatch(env: Env, p: string, raw: string, cap: UrlCap): string {
    ReplaceFirst(raw, cap.ref, AbsUrl(env, p, cap.ref))
  }

  /** The reference is replaced where it first occurs in the match, which
      can be inside `url(` itself: `url(l)` becomes `ur`, the absolute URL,
      then `(l)`. Both patterns match `url(l)` with the reference `l`
      (`Jcss.OneCharRefKept` shows the one of tasks/css_to_js.js). */
  lemma RewriteInsideKeyword(env: Env, p: string)
    ensures RewriteMatch(env, p, "url(l)", UrlCap(4, "l", "")) == "ur" + AbsUrl(env, p, "l") + "(l)"
  {
    var t := "url(l)";
    assert t[0..1][0] == 'u' && t[1..2][0] == 'r' && t[2..3] == "l";
    assert IndexOf(t, "l", 0) == Some(2);
    assert t[..2] == "ur" && t[3..] == "(l)";
  }

  /** `text.replace(/url\(.../ig, ...)` inside `combine(p)`: the matches,
      found from left to right, each rewritten, and the rest kept. */
  function RewriteUrls(env: Env, p: string, text: string): string
    decreases |text|
  {
    if text == [] then []
    else
      match UrlAt(Rule(env.plugin), text)
      case Some(f) => RewriteMatch(env, p, text[..f.len], f.cap) + RewriteUrls(env, p, text[f.len..])
      case None => [text[0]] + RewriteUrls(env, p, text[1..])
  }

  /** The scan at a match: the match is rewritten and skipped. */
  lemma RewriteHit(env: Env, p: string, text: string, f: Found<UrlCap>)
    requires text != [] && UrlAt(Rule(env.plugin), text) == Some(f)
    ensures 0 < f.len <= |text|
    ensures RewriteUrls(env, p, text) == RewriteMatch(env, p, text[..f.len], f.cap) + RewriteUrls(env, p, text[f.len..])
  {
  }

  /** The scan where nothing matches: one character is kept. */
  lemma RewriteMiss(env: Env, p: string, text: string)
    requires text != [] && UrlAt(Rule(env.plugin), text).None?
    ensures RewriteUrls(env, p, text) == [text[0]] + RewriteUrls(env, p, text[1..])
  {
  }

  /** One step of the `url(...)` pass at the head of `text`: the rewritten
      match and its length, or the first character and 1. */
  function ScanStep(env: Env, p: string, text: string): (string, nat)
    requires text != []
  {
    match UrlAt(Rule(env.plugin), text)
    case Some(f) => (RewriteMatch(env, p, text[..f.len], f.cap), f.len)
    case None => ([text[0]], 1)
  }

  /** The pass is the step at the head followed by the pass after it. */
  lemma StepThen(env: Env, p: string, text: string)
    requires text != []
    ensures 0 < ScanStep(env, p, text).1 <= |text|
    ensures ScanStep(env, p, text).0 + RewriteUrls(env, p, text[ScanStep(env, p, text).1..])
            == RewriteUrls(env, p, text)
  {
    match UrlAt(Rule(env.plugin), text) {
      case Some(f) => RewriteHit(env, p, text, f);
      case None => RewriteMiss(env, p, text);
    }
  }

  lemma Regroup(done: string, next: string, rest: string, whole: string)
    requires done + (next + rest) == whole
    ensures (done + next) + rest == whole
  {
  }

  /** Text without any `url(...)` match is left as it is. */
  lemma {:induction false} RewriteUrlsNone(env: Env, p: string, text: string)
    requires forall i :: 0 <= i < |text| ==> UrlAt(Rule(env.plugin), text[i..]).None?
    ensures RewriteUrls(env, p, text) == text
    decreases |text|
  {
    if text != [] {
      assert text[0..] == text;
      forall i | 0 <= i < |text[1..]| ensures UrlAt(Rule(env.plugin), text[1..][i..]).None? {
        assert text[1..][i..] == text[i + 1..];
      }
      RewriteUrlsNone(env, p, text[1..]);
      assert text == [text[0]] + text[1..];
    }
  }

  // ---------------------------------------------------------------------
  // The import graph

  /** Every import among `ps`, the import pieces of `p`, that names an
      existing file leads to a lower rank. */
  ghost predicate RankedPieces(files: map<string, string>, rank: string -> nat, p: string, ps: seq<Piece<ImportCap>>) {
    forall k :: 0 <= k < |ps| && ps[k].Hit? && Sibling(p, ps[k].cap.ref) in files
                ==> rank(Sibling(p, ps[k].cap.ref)) < rank(p)
  }

  /** The import pieces of every file, and a rank that every import of an
      existing file lowers: the imports form no cycle. `combine` stores a
      file's text only once its imports are done, so a cycle never ends. */
  datatype Graph = Graph(imports: map<string, seq<Piece<ImportCap>>>, rank: string -> nat)

  ghost predicate Acyclic(files: map<string, string>, g: Graph) {
    && g.imports.Keys == files.Keys
    && forall p :: p in g.imports ==> RankedPieces(files, g.rank, p, g.imports[p])
  }

  /** `g` holds the import pieces of each file. */
  ghost predicate GraphOf(plugin: Plugin, files: map<string, string>, g: Graph) {
    forall p {:trigger Imports(plugin, files, p)} :: p in files ==> p in g.imports && g.imports[p] == Imports(plugin, files, p)
  }

  /** The combined text of `p`: its prepared text with each import replaced by
      the combined text of the imported file, then its `url(...)` references
      rewritten; or the first file, in reading order, that is missing. */
  ghost function Canon(env: Env, g: Graph, p: string): Result<string>
    requires Acyclic(env.files, g)
    decreases g.rank(p), 1, 0
  {
    if p !in env.files then Err(p)
    else
      var ps := g.imports[p];
      match Spliced(env, g, p, ps, |ps|)
      case Err(m) => Err(m)
      case Ok(text) => Ok(RewriteUrls(env, p, text))
  }

  /** The first `n` import pieces `ps` of `p`, each import replaced. */
  ghost function Spliced(env: Env, g: Graph, p: string, ps: seq<Piece<ImportCap>>, n: nat): Result<string>
    requires Acyclic(env.files, g) && RankedPieces(env.files, g.rank, p, ps) && n <= |ps|
    decreases g.rank(p), 0, n
  {
    if n == 0 then Ok([])
    else
      match Spliced(env, g, p, ps, n - 1)
      case Err(m) => Err(m)
      case Ok(a) => SpliceStep(env, g, p, ps, n - 1, a)
  }

  /** The import piece `ps[k]` of `p` after the text `a`: a kept character,
      or the combined text of the imported file, or the file that is missing. */
  ghost function SpliceStep(env: Env, g: Graph, p: string, ps: seq<Piece<ImportCap>>, k: nat, a: string): Result<string>
    requires Acyclic(env.files, g) && RankedPieces(env.files, g.rank, p, ps) && k < |ps|
    decreases g.rank(p), 0, k
  {
    match ps[k]
    case Kept(c) => Ok(a + [c])
    case Hit(_, cap) =>
      var t := Sibling(p, cap.ref);
      if t !in env.files then Err(t)
      else
        match Canon(env, g, t)
        case Err(m) => Err(m)
        case Ok(b) => Ok(a + b)
  }

  /** Once a missing file is met, the rest of the imports are not looked at. */
  lemma {:induction false} SplicedErrSticks(env: Env, g: Graph, p: string, ps: seq<Piece<ImportCap>>, k: nat, n: nat)
    requires Acyclic(env.files, g) && RankedPieces(env.files, g.rank, p, ps) && k <= n <= |ps|
    requires Spliced(env, g, p, ps, k).Err?
    ensures Spliced(env, g, p, ps, n) == Spliced(env, g, p, ps, k)
    decreases n
  {
    if n > k {
      SplicedErrSticks(env, g, p, ps, k, n - 1);
      SplicedErrNext(env, g, p, ps, n);
    }
  }

  lemma SplicedErrNext(env: Env, g: Graph, p: string, ps: seq<Piece<ImportCap>>, n: nat)
    requires Acyclic(env.files, g) && RankedPieces(env.files, g.rank, p, ps) && 0 < n <= |ps|
    requires Spliced(env, g, p, ps, n - 1).Err?
    ensures Spliced(env, g, p, ps, n) == Spliced(env, g, p, ps, n - 1)
  {
  }

  /** One more import piece: the pass so far followed by the step. */
  lemma SplicedStep(env: Env, g: Graph, p: string, ps: seq<Piece<ImportCap>>, k: nat, text: string)
    requires Acyclic(env.files, g) && RankedPieces(env.files, g.rank, p, ps) && k < |ps|
    requires Spliced(env, g, p, ps, k) == Ok(text)
    ensures Spliced(env, g, p, ps, k + 1) == SpliceStep(env, g, p, ps, k, text)
    ensures SpliceStep(env, g, p, ps, k, text).Err? ==> Spliced(env, g, p, ps, |ps|) == SpliceStep(env, g, p, ps, k, text)
  {
    if SpliceStep(env, g, p, ps, k, text).Err? {
      SplicedErrSticks(env, g, p, ps, k + 1, |ps|);
    }
  }

  /** The file `combine` reports is one that does not exist. */
  lemma {:induction false} CanonErrMissing(env: Env, g: Graph, p: string)
    requires Acyclic(env.files, g)
    ensures Canon(env, g, p).Err? ==> Canon(env, g, p).missing !in env.files
    decreases g.rank(p), 1, 0
  {
    if p in env.files {
      var ps := g.imports[p];
      SplicedErrMissing(env, g, p, ps, |ps|);
    }
  }

  lemma {:induction false} SplicedErrMissing(env: Env, g: Graph, p: string, ps: seq<Piece<ImportCap>>, n: nat)
    requires Acyclic(env.files, g) && RankedPieces(env.files, g.rank, p, ps) && n <= |ps|
    ensures Spliced(env, g, p, ps, n).Err? ==> Spliced(env, g, p, ps, n).missing !in env.files
    decreases g.rank(p), 0, n
  {
    if n > 0 {
      SplicedErrMissing(env, g, p, ps, n - 1);
      if Spliced(env, g, p, ps, n - 1).Ok? && ps[n - 1].Hit? {
        var t := Sibling(p, ps[n - 1].cap.ref);
        if t in env.files {
          CanonErrMissing(env, g, t);
        }
      }
    }
  }

  /** A file without imports and without `url(...)` references combines to
      its prepared text. */
  lemma CanonPlain(env: Env, g: Graph, p: string)
    requires Acyclic(env.files, g) && GraphOf(env.plugin, env.files, g) && p in env.files
    requires var t := Prepare(env.plugin, env.files[p]);
      forall i :: 0 <= i < |t| ==> ImportAt(Rule(env.plugin), t[i..]).None? && UrlAt(Rule(env.plugin), t[i..]).None?
    ensures Canon(env, g, p) == Ok(Prepare(env.plugin, env.files[p]))
  {
    var t := Prepare(env.plugin, env.files[p]);
    var ps := Imports(env.plugin, env.files, p);
    NoMatchKeepsText(t, s => ImportAt(Rule(env.plugin), s), "");
    NoHits(ps);
    SplicedRaw(env, g, p, ps, |ps|);
    assert ps[..|ps|] == ps;
    RewriteUrlsNone(env, p, t);
  }

  lemma {:induction false} NoHits<M>(ps: seq<Piece<M>>)
    requires HitCount(ps) == 0
    ensures forall k :: 0 <= k < |ps| ==> ps[k].Kept?
  {
    if ps != [] {
      NoHits(ps[1..]);
      assert forall k :: 1 <= k < |ps| ==> ps[k] == ps[1..][k - 1];
    }
  }

  /** Pieces with no import among them splice to their own text. */
  lemma {:induction false} SplicedRaw(env: Env, g: Graph, p: string, ps: seq<Piece<ImportCap>>, n: nat)
    requires Acyclic(env.files, g) && RankedPieces(env.files, g.rank, p, ps) && n <= |ps|
    requires forall k :: 0 <= k < n ==> ps[k].Kept?
    ensures Spliced(env, g, p, ps, n) == Ok(Raw(ps[..n]))
    decreases n
  {
    if n > 0 {
      SplicedRaw(env, g, p, ps, n - 1);
      SplicedStep(env, g, p, ps, n - 1, Raw(ps[..n - 1]));
      RawKept(ps, n);
    }
  }

  lemma RawKept<M>(ps: seq<Piece<M>>, n: nat)
    requires 0 < n <= |ps| && ps[n - 1].Kept?
    ensures Raw(ps[..n]) == Raw(ps[..n - 1]) + [ps[n - 1].c]
  {
    RawAppend(ps[..n - 1], [ps[n - 1]]);
    assert Raw([ps[n - 1]]) == [ps[n - 1].c];
    assert ps[..n] == ps[..n - 1] + [ps[n - 1]];
  }

  // ---------------------------------------------------------------------
  // The per-file loop (tasks/css_to_js.js:116-126, grunt-jcss.js:120-132)

  /** One source: the path `combine` is asked for, the file the script is
      written to, and the name the stylesheet registers under. */
  datatype Job = Job(src: string, dest: string, name: string)

  datatype Write = Write(path: string, content: string)

  /** How far a run gets: the combined texts of the sources it compiled, in
      order, and the missing file that ended it. */
  datatype Outcome = Outcome(texts: seq<string>, failed: Option<string>)

  /** What is written for one source whose combined text is `css`: the
      compressed text wrapped by `css2js` as written, which escapes only `'`. */
  function Output(plugin: Plugin, opts: Options, job: Job, css: string): Write {
    Write(job.dest, Emit.RegisterAsWritten(opts.regFn, job.name, Compressed(plugin, opts.charset, css)))
  }

  /** `compress(css)` of the plugin. */
  function Compressed(plugin: Plugin, charset: string, css: string): string {
    match plugin
    case CssToJsTask => Minify.Compress(charset, css)
    case JcssTask => Minify.CompressJcss(charset, css)
  }

  /** The writes for the first `|texts|` sources, from their combined texts. */
  function Scripts(plugin: Plugin, opts: Options, jobs: seq<Job>, texts: seq<string>): seq<Write>
    requires |texts| <= |jobs|
  {
    seq(|texts|, i requires 0 <= i < |texts| => Output(plugin, opts, jobs[i], texts[i]))
  }

  /** One more combined text adds its script at the end. */
  lemma ScriptsSnoc(plugin: Plugin, opts: Options, jobs: seq<Job>, texts: seq<string>, css: string)
    requires |texts| < |jobs|
    ensures Scripts(plugin, opts, jobs, texts) + [Output(plugin, opts, jobs[|texts|], css)]
            == Scripts(plugin, opts, jobs, texts + [css])
  {
    var longer := texts + [css];
    assert forall i :: 0 <= i < |texts| ==> longer[i] == texts[i];
  }

  /** The run over sources whose combined texts are `rs`, in order: each
      text is kept until the first source that cannot be combined. */
  function RunOf(rs: seq<Result<string>>): Outcome {
    if rs == [] then Outcome([], None)
    else Advance(RunOf(rs[..|rs| - 1]), rs[|rs| - 1])
  }

  /** The run after one more source, whose combined text is `css`. */
  function Advance(o: Outcome, css: Result<string>): Outcome {
    if o.failed.Some? then o
    else
      match css
      case Err(m) => Outcome(o.texts, Some(m))
      case Ok(text) => Outcome(o.texts + [text], None)
  }

  /** The run keeps a prefix of the texts; it stops short exactly at the
      first source that fails, and reports that source's missing file. */
  lemma {:induction false} RunOfShape(rs: seq<Result<string>>)
    ensures var o := RunOf(rs);
      && |o.texts| <= |rs|
      && (o.failed.None? <==> |o.texts| == |rs|)
      && (forall i :: 0 <= i < |o.texts| ==> rs[i] == Ok(o.texts[i]))
      && (o.failed.Some? ==> rs[|o.texts|] == Err(o.failed.value))
    decreases |rs|
  {
    if rs != [] {
      var init := rs[..|rs| - 1];
      RunOfShape(init);
      assert forall i :: 0 <= i < |init| ==> rs[i] == init[i];
    }
  }

  /** After a failure nothing more is kept. */
  lemma {:induction false} RunOfSticks(done: seq<Result<string>>, all: seq<Result<string>>)
    requires done <= all && RunOf(done).failed.Some?
    ensures RunOf(all) == RunOf(done)
    decreases |all|
  {
    if |all| > |done| {
      var init := all[..|all| - 1];
      assert done <= init;
      RunOfSticks(done, init);
    } else {
      assert done == all;
    }
  }

  /** What `combine` gives for each source, in order. */
  ghost function Results(env: Env, g: Graph, jobs: seq<Job>): (rs: seq<Result<string>>)
    requires Acyclic(env.files, g)
    ensures |rs| == |jobs|
  {
    seq(|jobs|, i requires 0 <= i < |jobs| => Canon(env, g, jobs[i].src))
  }

  /** The run over `jobs`. */
  ghost function Emitted(env: Env, g: Graph, jobs: seq<Job>): Outcome
    requires Acyclic(env.files, g)
  {
    RunOf(Results(env, g, jobs))
  }

  /** The run compiles a prefix of the sources, each to its combined text;
      it stops short exactly when a file is missing, and then the first
      source that cannot be combined names that file. */
  lemma EmittedWrites(env: Env, g: Graph, jobs: seq<Job>)
    requires Acyclic(env.files, g)
    ensures var o := Emitted(env, g, jobs);
      && |o.texts| <= |jobs|
      && (o.failed.None? <==> |o.texts| == |jobs|)
      && (forall i :: 0 <= i < |o.texts| ==> Canon(env, g, jobs[i].src) == Ok(o.texts[i]))
      && (o.failed.Some? ==>
            Canon(env, g, jobs[|o.texts|].src) == Err(o.failed.value) && o.failed.value !in env.files)
  {
    var rs := Results(env, g, jobs);
    RunOfShape(rs);
    var o := RunOf(rs);
    if o.failed.Some? {
      CanonErrMissing(env, g, jobs[|o.texts|].src);
    }
  }

  /** One source more: its combined text is added, or the run stops on
      the file that is missing. */
  lemma RunStep(rs: seq<Result<string>>, k: nat, texts: seq<string>)
    requires k < |rs| && |texts| == k && RunOf(rs[..k]) == Outcome(texts, None)
    ensures rs[k].Err? ==> RunOf(rs) == Outcome(texts, Some(rs[k].missing))
    ensures rs[k].Ok? ==> RunOf(rs[..k + 1]) == Outcome(texts + [rs[k].value], None)
  {
    assert rs[..k + 1][..k] == rs[..k];
    if rs[k].Err? {
      RunOfSticks(rs[..k + 1], rs);
    }
  }

  // ---------------------------------------------------------------------
  // `combine`, with its memo

  /** No entry of the memo `m0` that is not empty is lost or changed in `m1`:
      `combine` only fills in entries that are missing or empty. */
  ghost predicate Retains(m0: map<string, string>, m1: map<string, string>) {
    forall k {:trigger m0[k]} :: k in m0 && m0[k] != [] ==> k in m1 && m1[k] == m0[k]
  }

  /** Two calls in a row that each keep the memo's entries keep them. */
  lemma RetainsTrans(m0: map<string, string>, m1: map<string, string>, m2: map<string, string>)
    requires m0.Keys <= m1.Keys <= m2.Keys && Retains(m0, m1) && Retains(m1, m2)
    ensures m0.Keys <= m2.Keys && Retains(m0, m2)
  {
  }

  /** The paths `combine` is asked for, one per source. */
  ghost function Srcs(jobs: seq<Job>): (ks: seq<string>)
    ensures |ks| == |jobs| && forall k :: 0 <= k < |jobs| ==> ks[k] == jobs[k].src
  {
    seq(|jobs|, k requires 0 <= k < |jobs| => jobs[k].src)
  }

  /** Each text that is not empty is what the memo `m` holds for its path
      `keys[j]`. */
  ghost predicate Recorded(m: map<string, string>, keys: seq<string>, texts: seq<string>)
    requires |texts| <= |keys|
  {
    forall j :: 0 <= j < |texts| && texts[j] != [] ==> keys[j] in m && m[keys[j]] == texts[j]
  }

  /** A text whose path had an entry that was not empty in `m` is that entry. */
  ghost predicate FromMemo(m: map<string, string>, keys: seq<string>, texts: seq<string>)
    requires |texts| <= |keys|
  {
    forall j :: 0 <= j < |texts| && keys[j] in m && m[keys[j]] != [] ==> texts[j] == m[keys[j]]
  }

  /** A path met again after it gave a text that is not empty gives that
      same text again. */
  ghost predicate Reused(keys: seq<string>, texts: seq<string>)
    requires |texts| <= |keys|
  {
    forall j1, j2 :: 0 <= j1 < j2 < |texts| && keys[j1] == keys[j2] && texts[j1] != [] ==> texts[j2] == texts[j1]
  }

  /** What a run over the paths `keys` keeps true of the memo, from `m0`
      when it started to `m` now, for the texts `texts` it has so far. */
  ghost predicate MemoAgrees(m0: map<string, string>, m: map<string, string>, keys: seq<string>, texts: seq<string>) {
    && |texts| <= |keys|
    && Retains(m0, m)
    && Recorded(m, keys, texts)
    && FromMemo(m0, keys, texts)
    && Reused(keys, texts)
  }

  /** A call that keeps the memo's entries keeps what was recorded in it. */
  lemma MemoKeep(m0: map<string, string>, c0: map<string, string>, c1: map<string, string>,
                 keys: seq<string>, texts: seq<string>)
    requires |texts| <= |keys| && Recorded(c0, keys, texts)
    requires Retains(m0, c0) && Retains(c0, c1)
    ensures Recorded(c1, keys, texts) && Retains(m0, c1)
  {
  }

  /** One text `v` more, for the path `keys[|texts|]`: it was stored in the
      memo when it is not empty, and it was taken from the memo when the
      memo had an entry that is not empty. Then the texts still agree with
      the memo and with each other. */
  lemma MemoStep(m0: map<string, string>, c0: map<string, string>, c1: map<string, string>,
                 keys: seq<string>, texts: seq<string>, v: string)
    requires |texts| < |keys|
    requires Recorded(c0, keys, texts) && Reused(keys, texts) && FromMemo(m0, keys, texts)
    requires Retains(m0, c0) && Retains(c0, c1)
    requires v != [] ==> keys[|texts|] in c1 && c1[keys[|texts|]] == v
    requires keys[|texts|] in c0 && c0[keys[|texts|]] != [] ==> v == c0[keys[|texts|]]
    ensures Recorded(c1, keys, texts + [v]) && Reused(keys, texts + [v])
    ensures FromMemo(m0, keys, texts + [v]) && Retains(m0, c1)
  {
    MemoKeep(m0, c0, c1, keys, texts);
  }

  /** The texts of one more group of sources, `t` for the paths `b`, after
      the texts `texts` of the earlier ones; `keys` are the paths of all
      sources, with `b` right after the first `|texts|`. The memo the group
      started on, `m0`, kept its entries, and the group's own texts agree
      with the memo it ended on and took what `m0` already held. */
  lemma JoinMemo(m0: map<string, string>, m1: map<string, string>,
                 keys: seq<string>, b: seq<string>, texts: seq<string>, t: seq<string>)
    requires |texts| + |b| <= |keys| && keys[|texts|..|texts| + |b|] == b && |t| <= |b|
    requires Recorded(m0, keys, texts) && Reused(keys, texts)
    requires Retains(m0, m1) && Recorded(m1, b, t) && FromMemo(m0, b, t) && Reused(b, t)
    ensures Recorded(m1, keys, texts + t) && Reused(keys, texts + t)
  {
  }

  class Combiner {
    /** The settings `combine` reads; grunt-jcss.js sets the base URL and
        directory anew for every file group. */
    var env: Env
    ghost const g: Graph
    /** `combinedMap` (tasks/css_to_js.js:33), `combineCache` (grunt-jcss.js:42) */
    var combined: map<string, string>
    /** Whether every entry of the memo was combined under the base URL and
        directory now in force. */
    ghost var uniform: bool
    /** `getVersionedUrl` with `fileVersMap` (`fileVers` in grunt-jcss.js) */
    const versions: VersionCache

    ghost predicate Valid()
      reads this, versions
    {
      && VersionsValid()
      && MemoValid()
    }

    /** The version memo reads the same files with the same digest. */
    ghost predicate VersionsValid()
      reads this, versions
    {
      versions.Valid() && versions.files == env.files && versions.md5 == env.md5
    }

    /** While the memo is uniform, every entry is the combined text of its file. */
    ghost predicate MemoValid()
      reads this
    {
      && Acyclic(env.files, g)
      && GraphOf(env.plugin, env.files, g)
      && (uniform ==> forall k {:trigger combined[k]} :: k in combined ==> Canon(env, g, k) == Ok(combined[k]))
    }

    constructor(env: Env, ghost g: Graph)
      requires Acyclic(env.files, g) && GraphOf(env.plugin, env.files, g)
      ensures Valid() && uniform
      ensures this.env == env && this.g == g && combined == map[]
      ensures fresh(versions) && versions.vers == map[]
    {
      this.env := env;
      this.g := g;
      combined := map[];
      uniform := true;
      versions := new VersionCache(env.files, env.md5);
    }

    /** The start of a file group in grunt-jcss.js: `baseUrl` and `baseSrc`
        are set from the group, and the memo is kept. Entries combined under
        other settings make it no longer uniform. */
    method SetBase(baseUrl: string, baseDir: string)
      requires Valid()
      modifies this`env, this`uniform
      ensures Valid()
      ensures env == old(env).(baseUrl := baseUrl, baseDir := baseDir)
      ensures uniform == ((old(uniform) && baseUrl == old(env.baseUrl) && baseDir == old(env.baseDir)) || combined == map[])
    {
      uniform := (uniform && baseUrl == env.baseUrl && baseDir == env.baseDir) || combined == map[];
      env := env.(baseUrl := baseUrl, baseDir := baseDir);
    }

    /** `combine(p)`: the combined text of `p`, from the memo when an entry
        that is not empty is there, else worked out and stored; a failure
        names a file that does not exist. */
    method Combine(p: string) returns (r: Result<string>)
      requires Valid()
      modifies this`combined, versions
      ensures Valid()
      ensures uniform ==> r == Canon(env, g, p)
      ensures r.Ok? ==> p in combined && combined[p] == r.value
      ensures r.Err? ==> r.missing !in env.files
      ensures old(combined).Keys <= combined.Keys
      ensures Retains(old(combined), combined)
      ensures uniform ==> forall k :: k in old(combined) ==> combined[k] == old(combined)[k]
      ensures old(p in combined && combined[p] != []) ==>
                r == Ok(old(combined)[p]) && combined == old(combined) && unchanged(versions)
      decreases g.rank(p), 1, 0
    {
      if p in combined && combined[p] != [] {
        return Ok(combined[p]);
      }
      if p !in env.files {
        return Err(p);
      }
      var ps := Imports(env.plugin, env.files, p);
      var spliced := SpliceImports(p, ps);
      if spliced.Err? {
        return Err(spliced.missing);
      }
      var rewritten := RewriteText(p, spliced.value);
      combined := combined[p := rewritten];
      r := Ok(rewritten);
    }

    /** The sources `jobs` in order, each combined, compressed, wrapped and
        written, until a file cannot be read. `texts` are the combined texts
        of the sources that were written; while the memo is uniform they are
        what `Emitted` says. */
    method RunJobs(opts: Options, jobs: seq<Job>) returns (writes: seq<Write>, failed: Option<string>, ghost texts: seq<string>)
      requires Valid()
      modifies this`combined, versions
      ensures Valid()
      ensures |texts| <= |jobs| && writes == Scripts(env.plugin, opts, jobs, texts)
      ensures failed.None? <==> |texts| == |jobs|
      ensures failed.Some? ==> failed.value !in env.files
      ensures uniform ==> Outcome(texts, failed) == Emitted(env, g, jobs)
      ensures MemoAgrees(old(combined), combined, Srcs(jobs), texts)
    {
      writes, failed, texts := [], None, [];
      ghost var rs := Results(env, g, jobs);
      ghost var ks := Srcs(jobs);
      var k := 0;
      while k < |jobs|
        invariant 0 <= k <= |jobs|
        invariant Valid()
        invariant |texts| == k
        invariant writes == Scripts(env.plugin, opts, jobs, texts)
        invariant uniform ==> RunOf(rs[..k]) == Outcome(texts, None)
        invariant MemoAgrees(old(combined), combined, ks, texts)
        decreases |jobs| - k
      {
        var css, more := RunNext(opts, jobs, k, rs, texts, writes, old(combined));
        if css.Err? {
          return writes, Some(css.missing), texts;
        }
        writes := more;
        texts := texts + [css.value];
        k := k + 1;
      }
      assert rs[..k] == rs;
    }

    /** The `k`-th source: combined, and on success its script written. */
    method RunNext(opts: Options, jobs: seq<Job>, k: nat, ghost rs: seq<Result<string>>, ghost texts: seq<string>, writes: seq<Write>,
                   ghost m0: map<string, string>)
      returns (css: Result<string>, more: seq<Write>)
      requires Valid() && rs == Results(env, g, jobs) && k < |jobs| && |texts| == k
      requires MemoAgrees(m0, combined, Srcs(jobs), texts)
      requires uniform ==> RunOf(rs[..k]) == Outcome(texts, None)
      requires writes == Scripts(env.plugin, opts, jobs, texts)
      modifies this`combined, versions
      ensures Valid()
      ensures css.Err? ==> css.missing !in env.files
      ensures css.Ok? ==> more == Scripts(env.plugin, opts, jobs, texts + [css.value])
      ensures uniform && css.Err? ==> RunOf(rs) == Outcome(texts, Some(css.missing))
      ensures uniform && css.Ok? ==> RunOf(rs[..k + 1]) == Outcome(texts + [css.value], None)
      ensures Retains(old(combined), combined)
      ensures css.Ok? ==> jobs[k].src in combined && combined[jobs[k].src] == css.value
      ensures old(jobs[k].src in combined && combined[jobs[k].src] != []) ==> css == Ok(old(combined)[jobs[k].src])
      ensures css.Err? ==> MemoAgrees(m0, combined, Srcs(jobs), texts)
      ensures css.Ok? ==> MemoAgrees(m0, combined, Srcs(jobs), texts + [css.value])
    {
      ghost var c0 := combined;
      css := Combine(jobs[k].src);
      if css.Ok? {
        MemoStep(m0, c0, combined, Srcs(jobs), texts, css.value);
      } else {
        MemoKeep(m0, c0, combined, Srcs(jobs), texts);
      }
      more := writes;
      if css.Ok? {
        ScriptsSnoc(env.plugin, opts, jobs, texts, css.value);
        more := writes + [Output(env.plugin, opts, jobs[k], css.value)];
      }
      if uniform {
        RunStep(rs, k, texts);
      }
    }

    /** The `@import` pass of `combine(p)` over its import pieces `ps`: each
        import replaced by what `combine` returns for the imported file. */
    method SpliceImports(p: string, ps: seq<Piece<ImportCap>>) returns (r: Result<string>)
      requires Valid() && p in env.files && RankedPieces(env.files, g.rank, p, ps)
      modifies this`combined, versions
      ensures Valid()
      ensures uniform ==> r == Spliced(env, g, p, ps, |ps|)
      ensures r.Err? ==> r.missing !in env.files
      ensures old(combined).Keys <= combined.Keys
      ensures Retains(old(combined), combined)
      decreases g.rank(p), 0, |ps| + 3
    {
      r := SpliceFrom(p, ps, 0, []);
    }

    /** The pass from the piece `k` on, after the text `text` of the pieces
        before it. */
    method SpliceFrom(p: string, ps: seq<Piece<ImportCap>>, k: nat, text: string) returns (r: Result<string>)
      requires Valid() && p in env.files && RankedPieces(env.files, g.rank, p, ps) && k <= |ps|
      requires uniform ==> Spliced(env, g, p, ps, k) == Ok(text)
      modifies this`combined, versions
      ensures Valid()
      ensures uniform ==> r == Spliced(env, g, p, ps, |ps|)
      ensures r.Err? ==> r.missing !in env.files
      ensures old(combined).Keys <= combined.Keys
      ensures Retains(old(combined), combined)
      decreases g.rank(p), 0, |ps| - k + 2
    {
      if k == |ps| {
        return Ok(text);
      }
      var next := SpliceNext(p, ps, k, text);
      if next.Err? {
        return next;
      }
      ghost var m1 := combined;
      r := SpliceFrom(p, ps, k + 1, next.value);
      RetainsTrans(old(combined), m1, combined);
    }

    /** One piece more of the `@import` pass: the piece itself, or the
        combined text of the file it imports. */
    method SpliceNext(p: string, ps: seq<Piece<ImportCap>>, k: nat, text: string) returns (r: Result<string>)
      requires Valid() && p in env.files && RankedPieces(env.files, g.rank, p, ps) && k < |ps|
      requires uniform ==> Spliced(env, g, p, ps, k) == Ok(text)
      modifies this`combined, versions
      ensures Valid()
      ensures uniform ==> r == Spliced(env, g, p, ps, k + 1)
      ensures uniform && r.Err? ==> r == Spliced(env, g, p, ps, |ps|)
      ensures r.Err? ==> r.missing !in env.files
      ensures old(combined).Keys <= combined.Keys
      ensures Retains(old(combined), combined)
      decreases g.rank(p), 0, 1
    {
      match ps[k] {
        case Kept(c) =>
          r := Ok(text + [c]);
        case Hit(_, cap) =>
          r := SpliceFile(p, ps, k, text, Sibling(p, cap.ref));
      }
      if uniform {
        SplicedStep(env, g, p, ps, k, text);
      }
    }

    /** The callback for the import `ps[k]` of `p`, which names the file `t`:
        `combine(t)` after the text so far, or a failure. */
    method SpliceFile(p: string, ps: seq<Piece<ImportCap>>, k: nat, text: string, t: string) returns (r: Result<string>)
      requires Valid() && p in env.files && RankedPieces(env.files, g.rank, p, ps) && k < |ps|
      requires ps[k].Hit? && t == Sibling(p, ps[k].cap.ref)
      modifies this`combined, versions
      ensures Valid()
      ensures uniform ==> r == SpliceStep(env, g, p, ps, k, text)
      ensures r.Err? ==> r.missing !in env.files
      ensures old(combined).Keys <= combined.Keys
      ensures Retains(old(combined), combined)
      decreases g.rank(p), 0, 0
    {
      if t !in env.files {
        r := Err(t);
      } else {
        var sub := Combine(t);
        r := if sub.Err? then sub else Ok(text + sub.value);
      }
    }

    /** The `url(...)` pass of `combine(p)`, asking the version memo for each
        reference in turn. */
    method RewriteText(p: string, text: string) returns (out: string)
      requires VersionsValid()
      modifies versions
      ensures VersionsValid()
      ensures out == RewriteUrls(env, p, text)
    {
      out := [];
      var rest := text;
      while rest != []
        invariant VersionsValid()
        invariant out + RewriteUrls(env, p, rest) == RewriteUrls(env, p, text)
        decreases |rest|
      {
        var piece, n := RewriteNext(p, rest);
        StepThen(env, p, rest);
        Regroup(out, piece, RewriteUrls(env, p, rest[n..]), RewriteUrls(env, p, text));
        out := out + piece;
        rest := rest[n..];
      }
    }

    /** One step of the scan at the head of `rest`: the rewritten match there
        and its length, or the first character and 1. */
    method RewriteNext(p: string, rest: string) returns (piece: string, n: nat)
      requires VersionsValid() && rest != []
      modifies versions
      ensures VersionsValid()
      ensures (piece, n) == ScanStep(env, p, rest)
    {
      match UrlAt(Rule(env.plugin), rest) {
        case Some(f) =>
          piece := RewriteRef(p, rest[..f.len], f.cap);
          n := f.len;
        case None =>
          piece, n := [rest[0]], 1;
      }
    }

    /** The replacement callback of the `url(...)` pass for the match `raw`. */
    method RewriteRef(p: string, raw: string, cap: UrlCap) returns (replaced: string)
      requires VersionsValid()
      modifies versions
      ensures VersionsValid()
      ensures replaced == RewriteMatch(env, p, raw, cap)
    {
      var url := versions.VersionedUrl(Sibling(p, cap.ref));
      var abs := env.baseUrl + ReplaceChar(Relative(env.baseDir, url, env.cwd), '\\', '/');
      replaced := ReplaceFirst(raw, cap.ref, abs);
    }
  }
}
