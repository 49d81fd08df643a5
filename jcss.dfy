/** The `jcss` multi-task (grunt-jcss.js), the older copy of the engine: its
    one option, where each source is read from and written to, and the run
    over the file groups. Each group sets `baseSrc`, `baseUrl` and `regFn`
    afresh (grunt-jcss.js:121-123) while `combineCache` and `fileVers` stay
    the same for the whole run, so a file combined for one group is handed
    to later groups with the URLs of the first. */
module Jcss {
  import opened Text
  import opened Scan
  import opened Refs
  import opened Paths
  import opened Versioning
  import opened Engine
  import Emit

  /** The default of the `charset` option (grunt-jcss.js:35-37). */
  const DefaultCharset: string := "@charset \"UTF-8\";"

  /** A file group: the directory its sources are read under, the sources,
      the output directory and the three settings the group brings. */
  datatype FileGroup = FileGroup(cwd: string, src: seq<string>, dst: string,
                                 baseSrc: string, baseUrl: string, regFn: string)

  /** The options a group's sources are compressed and wrapped with. */
  function GroupOptions(charset: string, grp: FileGroup): Options {
    Options(charset, grp.baseUrl, grp.baseSrc, grp.regFn)
  }

  /** What `combine` sees while the group `grp` is processed. */
  function GroupEnv(files: map<string, string>, md5: string -> HexDigest, cwd: string, grp: FileGroup): Env {
    Env(JcssTask, files, md5, cwd, grp.baseUrl, grp.baseSrc)
  }

  /** The source `f` is read from `join(cwd, f)` with `\` turned into `/`,
      and written to `join(dst, f)` with a final `.css` turned into `.js`. */
  function JobFor(grp: FileGroup, f: string): Job {
    Job(ReplaceChar(Join(grp.cwd, f), '\\', '/'), Emit.JsPath(Join(grp.dst, f)), f)
  }

  function GroupJobs(grp: FileGroup): seq<Job> {
    seq(|grp.src|, i requires 0 <= i < |grp.src| => JobFor(grp, grp.src[i]))
  }

  /** One source of the run with the options of its group. */
  datatype Task = Task(opts: Options, job: Job)

  function GroupTasks(charset: string, grp: FileGroup): (ts: seq<Task>)
    ensures |ts| == |grp.src|
  {
    seq(|grp.src|, i requires 0 <= i < |grp.src| => Task(GroupOptions(charset, grp), JobFor(grp, grp.src[i])))
  }

  /** The sources of all groups, in order. */
  function Tasks(charset: string, groups: seq<FileGroup>): seq<Task> {
    if groups == [] then [] else Tasks(charset, groups[..|groups| - 1]) + GroupTasks(charset, groups[|groups| - 1])
  }

  /** What is written for one source whose combined text is `css`. */
  function Written(t: Task, css: string): Write {
    Output(JcssTask, t.opts, t.job, css)
  }

  /** The sources of the groups before `i` come first, then those of group `i`. */
  lemma TasksSnoc(charset: string, groups: seq<FileGroup>, i: nat)
    requires i < |groups|
    ensures Tasks(charset, groups[..i + 1]) == Tasks(charset, groups[..i]) + GroupTasks(charset, groups[i])
  {
    assert groups[..i + 1][..i] == groups[..i];
  }

  /** The sources of the first `i` groups begin the sources of all groups. */
  lemma {:induction false} TasksPrefix(charset: string, groups: seq<FileGroup>, i: nat)
    requires i <= |groups|
    ensures Tasks(charset, groups[..i]) <= Tasks(charset, groups)
    decreases |groups| - i
  {
    if i == |groups| {
      assert groups[..i] == groups;
    } else {
      TasksSnoc(charset, groups, i);
      TasksPrefix(charset, groups, i + 1);
    }
  }

  /** Source `k` of group `i` is source `j` of the whole run. */
  lemma TasksAt(charset: string, groups: seq<FileGroup>, i: nat, j: nat, k: nat)
    requires i < |groups| && k < |groups[i].src| && j == |Tasks(charset, groups[..i])| + k
    ensures j < |Tasks(charset, groups)|
    ensures Tasks(charset, groups)[j] == Task(GroupOptions(charset, groups[i]), GroupJobs(groups[i])[k])
  {
    TasksSnoc(charset, groups, i);
    TasksPrefix(charset, groups, i + 1);
    var a, b := Tasks(charset, groups[..i]), GroupTasks(charset, groups[i]);
    AppendAt(a, b, j, k);
    assert Tasks(charset, groups)[j] == (a + b)[j];
  }

  /** The path each source is combined from (`gruntRelPath`, the key of
      `combineCache`). */
  ghost function TaskSrcs(ts: seq<Task>): (ks: seq<string>)
    ensures |ks| == |ts| && forall j :: 0 <= j < |ts| ==> ks[j] == ts[j].job.src
  {
    seq(|ts|, j requires 0 <= j < |ts| => ts[j].job.src)
  }

  /** The paths of the sources of group `i` follow those of the groups
      before it among the paths of all sources. */
  lemma GroupSrcs(charset: string, groups: seq<FileGroup>, i: nat)
    requires i < |groups|
    ensures |Tasks(charset, groups[..i])| + |GroupJobs(groups[i])| <= |Tasks(charset, groups)|
    ensures var n := |Tasks(charset, groups[..i])|;
      TaskSrcs(Tasks(charset, groups))[n..n + |GroupJobs(groups[i])|] == Srcs(GroupJobs(groups[i]))
  {
    GroupLengths(charset, groups, i);
    var n, jobs, keys := |Tasks(charset, groups[..i])|, GroupJobs(groups[i]), TaskSrcs(Tasks(charset, groups));
    forall k | 0 <= k < |jobs| ensures keys[n..n + |jobs|][k] == Srcs(jobs)[k] {
      TasksAt(charset, groups, i, n + k, k);
    }
  }

  /** The writes of group `i` follow those of the groups before it. */
  lemma GroupWrites(charset: string, groups: seq<FileGroup>, i: nat,
                     writes: seq<Write>, texts: seq<string>, w: seq<Write>, t: seq<string>)
    requires i < |groups| && |writes| == |texts| == |Tasks(charset, groups[..i])|
    requires |writes| <= |Tasks(charset, groups)|
    requires forall j :: 0 <= j < |writes| ==> writes[j] == Written(Tasks(charset, groups)[j], texts[j])
    requires |t| <= |GroupJobs(groups[i])| && w == Scripts(JcssTask, GroupOptions(charset, groups[i]), GroupJobs(groups[i]), t)
    ensures |writes + w| == |texts + t| <= |Tasks(charset, groups)|
    ensures |t| == |GroupJobs(groups[i])| ==> |writes + w| == |Tasks(charset, groups[..i + 1])|
    ensures |t| < |GroupJobs(groups[i])| ==> |writes + w| < |Tasks(charset, groups)|
    ensures forall j :: 0 <= j < |writes + w| ==> (writes + w)[j] == Written(Tasks(charset, groups)[j], (texts + t)[j])
  {
    GroupLengths(charset, groups, i);
    GroupWritesJoin(charset, groups, i, writes, texts, w, t);
  }

  /** Group `i` adds one source per job to those of the groups before it. */
  lemma GroupLengths(charset: string, groups: seq<FileGroup>, i: nat)
    requires i < |groups|
    ensures |Tasks(charset, groups[..i])| + |GroupJobs(groups[i])| == |Tasks(charset, groups[..i + 1])|
    ensures |Tasks(charset, groups[..i + 1])| <= |Tasks(charset, groups)|
  {
    TasksSnoc(charset, groups, i);
    TasksPrefix(charset, groups, i + 1);
  }

  /** Each write, old or new, is the script of its own source. */
  lemma GroupWritesJoin(charset: string, groups: seq<FileGroup>, i: nat,
                        writes: seq<Write>, texts: seq<string>, w: seq<Write>, t: seq<string>)
    requires i < |groups| && |writes| == |texts| == |Tasks(charset, groups[..i])| <= |Tasks(charset, groups)|
    requires forall j :: 0 <= j < |writes| ==> writes[j] == Written(Tasks(charset, groups)[j], texts[j])
    requires |t| <= |GroupJobs(groups[i])| && w == Scripts(JcssTask, GroupOptions(charset, groups[i]), GroupJobs(groups[i]), t)
    ensures |writes + w| == |texts + t| <= |Tasks(charset, groups)|
    ensures forall j :: 0 <= j < |writes + w| ==> (writes + w)[j] == Written(Tasks(charset, groups)[j], (texts + t)[j])
  {
    var n := |writes|;
    GroupLengths(charset, groups, i);
    forall j | 0 <= j < |writes + w| ensures (writes + w)[j] == Written(Tasks(charset, groups)[j], (texts + t)[j]) {
      if j < n {
        AppendBefore(Written, Tasks(charset, groups), writes, texts, w, t, j);
      } else {
        GroupWriteAt(charset, groups, i, writes, texts, w, t, j);
      }
    }
  }

  /** A value among the first keys keeps its place when more are appended. */
  lemma AppendBefore<A, B, C>(f: (B, C) -> A, all: seq<B>, xs: seq<A>, ys: seq<C>, w: seq<A>, t: seq<C>, j: nat)
    requires |xs| == |ys| && |w| == |t| && j < |xs| && j < |all| && xs[j] == f(all[j], ys[j])
    ensures (xs + w)[j] == f(all[j], (ys + t)[j])
  {
    assert (xs + w)[j] == xs[j] && (ys + t)[j] == ys[j];
  }

  /** Past the end of `xs`, `xs + ys` reads from `ys`. */
  lemma AppendAt<A>(xs: seq<A>, ys: seq<A>, j: nat, k: nat)
    requires k < |ys| && j == |xs| + k
    ensures j < |xs + ys| && (xs + ys)[j] == ys[k]
  {
  }

  /** Write `j`, past the writes of the groups before group `i`, is the
      script of source `j` of the run. */
  lemma GroupWriteAt(charset: string, groups: seq<FileGroup>, i: nat,
                     writes: seq<Write>, texts: seq<string>, w: seq<Write>, t: seq<string>, j: nat)
    requires i < |groups| && |writes| == |texts| == |Tasks(charset, groups[..i])|
    requires |writes| <= j < |writes| + |t| && |t| <= |GroupJobs(groups[i])|
    requires w == Scripts(JcssTask, GroupOptions(charset, groups[i]), GroupJobs(groups[i]), t)
    ensures j < |Tasks(charset, groups)| && j < |writes + w| && j < |texts + t|
    ensures (writes + w)[j] == Written(Tasks(charset, groups)[j], (texts + t)[j])
  {
    var k := j - |writes|;
    var opts, job := GroupOptions(charset, groups[i]), GroupJobs(groups[i])[k];
    TasksAt(charset, groups, i, j, k);
    AppendAt(writes, w, j, k);
    AppendAt(texts, t, j, k);
    assert w[k] == Output(JcssTask, opts, job, t[k]);
    WrittenIs(Tasks(charset, groups)[j], opts, job, t[k]);
  }

  /** The write for a source is its script under the source's own settings. */
  lemma WrittenIs(task: Task, opts: Options, job: Job, css: string)
    requires task == Task(opts, job)
    ensures Written(task, css) == Output(JcssTask, opts, job, css)
  {
  }

  /** One group: its settings replace the previous group's, then its
      sources are compiled in order, after the writes of the groups before
      it. A group that starts on an empty memo gets the combined texts
      `Emitted` gives for its settings. */
  method RunGroup(c: Combiner, charset: string, groups: seq<FileGroup>, i: nat,
                  writes: seq<Write>, ghost texts: seq<string>)
    returns (writes': seq<Write>, failed: Option<string>, ghost texts': seq<string>)
    requires c.Valid() && c.env.plugin == JcssTask && i < |groups|
    requires |writes| == |texts| == |Tasks(charset, groups[..i])| <= |Tasks(charset, groups)|
    requires forall j :: 0 <= j < |writes| ==> writes[j] == Written(Tasks(charset, groups)[j], texts[j])
    requires Recorded(c.combined, TaskSrcs(Tasks(charset, groups)), texts)
    requires Reused(TaskSrcs(Tasks(charset, groups)), texts)
    modifies c`env, c`uniform, c`combined, c.versions
    ensures c.Valid() && c.env == old(c.env).(baseUrl := groups[i].baseUrl, baseDir := groups[i].baseSrc)
    ensures |writes'| == |texts'| <= |Tasks(charset, groups)|
    ensures forall j :: 0 <= j < |writes'| ==> writes'[j] == Written(Tasks(charset, groups)[j], texts'[j])
    ensures failed.None? ==> |writes'| == |Tasks(charset, groups[..i + 1])|
    ensures failed.Some? ==> failed.value !in c.env.files && |writes'| < |Tasks(charset, groups)|
    ensures texts <= texts'
    ensures old(c.combined) == map[] ==>
      var o := Emitted(c.env, c.g, GroupJobs(groups[i])); texts' == texts + o.texts && failed == o.failed
    ensures Retains(old(c.combined), c.combined)
    ensures Recorded(c.combined, TaskSrcs(Tasks(charset, groups)), texts')
    ensures Reused(TaskSrcs(Tasks(charset, groups)), texts')
  {
    var grp := groups[i];
    c.SetBase(grp.baseUrl, grp.baseSrc);
    var w;
    ghost var t;
    w, failed, t := c.RunJobs(GroupOptions(charset, grp), GroupJobs(grp));
    GroupWrites(charset, groups, i, writes, texts, w, t);
    writes' := writes + w;
    texts' := texts + t;
    assert texts'[..|texts|] == texts;
    GroupSrcs(charset, groups, i);
    JoinMemo(old(c.combined), c.combined, TaskSrcs(Tasks(charset, groups)), Srcs(GroupJobs(grp)), texts, t);
  }

  /** The task body. Sources are compiled group by group, in order, until a
      file cannot be read; each write is the script of its source's
      combined text `texts[j]`, wrapped with its group's options. The first
      group sees an empty memo, so its sources get their combined texts as
      `Emitted` gives them; later groups may be handed entries combined
      under the settings of an earlier group. */
  method Run(files: map<string, string>, md5: string -> HexDigest, cwd: string, charset: string,
             groups: seq<FileGroup>, ghost g: Graph)
    returns (writes: seq<Write>, failed: Option<string>, ghost texts: seq<string>)
    requires Acyclic(files, g) && GraphOf(JcssTask, files, g)
    ensures |writes| == |texts| <= |Tasks(charset, groups)|
    ensures forall j :: 0 <= j < |writes| ==> writes[j] == Written(Tasks(charset, groups)[j], texts[j])
    ensures failed.None? <==> |writes| == |Tasks(charset, groups)|
    ensures failed.Some? ==> failed.value !in files
    ensures |groups| > 0 ==> var o := Emitted(GroupEnv(files, md5, cwd, groups[0]), g, GroupJobs(groups[0]));
      o.texts <= texts && (o.failed.Some? ==> failed == o.failed && texts == o.texts)
    ensures Reused(TaskSrcs(Tasks(charset, groups)), texts)
  {
    var c := new Combiner(Env(JcssTask, files, md5, cwd, "", ""), g);
    writes, failed, texts := [], None, [];
    var i := 0;
    TasksPrefix(charset, groups, 0);
    while i < |groups|
      invariant 0 <= i <= |groups| && failed.None?
      invariant fresh(c) && fresh(c.versions) && c.Valid() && c.g == g
      invariant c.env.plugin == JcssTask && c.env.files == files && c.env.md5 == md5 && c.env.cwd == cwd
      invariant |writes| == |texts| == |Tasks(charset, groups[..i])| <= |Tasks(charset, groups)|
      invariant forall j :: 0 <= j < |writes| ==> writes[j] == Written(Tasks(charset, groups)[j], texts[j])
      invariant i == 0 ==> c.combined == map[] && texts == []
      invariant i > 0 ==> var o := Emitted(GroupEnv(files, md5, cwd, groups[0]), g, GroupJobs(groups[0]));
        o.failed.None? && o.texts <= texts
      invariant Recorded(c.combined, TaskSrcs(Tasks(charset, groups)), texts)
      invariant Reused(TaskSrcs(Tasks(charset, groups)), texts)
      decreases |groups| - i
    {
      writes, failed, texts := RunGroup(c, charset, groups, i, writes, texts);
      if failed.Some? {
        return;
      }
      TasksPrefix(charset, groups, i + 1);
      i := i + 1;
    }
    assert groups[..i] == groups;
  }

  // ---------------------------------------------------------------------
  // The reference pattern `[^\/][\w\-\.\/\?=]+`

  /** A one-character reference is never matched. */
  lemma OneCharRefKept()
    ensures UrlAt(AnyLeadThenClass, "url(l)").None?
    ensures UrlAt(NoLeadingSlash, "url(l)") == Some(Found(6, UrlCap(4, "l", "")))
  {
    var t := "url(l)";
    assert LitAt(t, 0, "url(") && SpaceRun(t, 4) == 0;
    assert RefRun(t, 5) == 0;
    assert RefRun(t, 4) == 1;
    assert UrlClose(t, 5, []) == Some(6);
    assert t[4..5] == "l";
  }

  /** An absolute reference after a space is matched, space included: the
      first character of the pattern may be the space. */
  lemma SpacedAbsoluteMatched()
    ensures UrlAt(AnyLeadThenClass, "url( /a)") == Some(Found(8, UrlCap(4, " /a", "")))
  {
    var t := "url( /a)";
    assert LitAt(t, 0, "url(") && SpaceRun(t, 4) == 1;
    assert RefRun(t, 7) == 0;
    assert RefRun(t, 6) == 1;
    assert RefRun(t, 5) == 2;
    assert UrlClose(t, 7, []) == Some(8);
    assert t[4..7] == " /a";
  }

  /** The pattern of tasks/css_to_js.js leaves the same reference alone. */
  lemma SpacedAbsoluteKept()
    ensures UrlAt(NoLeadingSlash, "url( /a)").None?
  {
    var t := "url( /a)";
    assert LitAt(t, 0, "url(") && SpaceRun(t, 4) == 1;
    assert RefRun(t, 4) == 0;
  }
}
