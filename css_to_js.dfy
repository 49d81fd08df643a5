/** The `css_to_js` multi-task (tasks/css_to_js.js): its options, where each
    source is read from and written to, and the run over all file groups with
    one memo and one set of options. */
module CssToJs {
  import opened Text
  import opened Scan
  import opened Paths
  import opened Versioning
  import opened Engine
  import Emit

  /** The defaults of `this.options` (tasks/css_to_js.js:26-31). */
  const Defaults: Options := Options("@charset \"utf-8\";", "/", ".", "jcssReg")

  /** A file group of the task: `cwd` is empty when the group has none. */
  datatype FileGroup = FileGroup(cwd: string, src: seq<string>, dest: string)

  /** With a `cwd` every source is looked up under it and written under
      `dest`; without one it is read as it is and written to `dest` itself. */
  function JobFor(grp: FileGroup, f: string): Job {
    var dirMode := grp.cwd != [];
    Job(ReplaceChar(if dirMode then Join(grp.cwd, f) else f, '\\', '/'),
        Emit.JsPath(if dirMode then Join(grp.dest, f) else grp.dest),
        f)
  }

  function GroupJobs(grp: FileGroup): seq<Job> {
    seq(|grp.src|, i requires 0 <= i < |grp.src| => JobFor(grp, grp.src[i]))
  }

  /** The sources of all groups, in order. */
  function Jobs(groups: seq<FileGroup>): seq<Job> {
    if groups == [] then [] else Jobs(groups[..|groups| - 1]) + GroupJobs(groups[|groups| - 1])
  }

  /** Without a `cwd`, every source of a group writes the same file, so the
      script of the last one that is combined is what remains of the group. */
  lemma GroupFileModeSameDest(grp: FileGroup, i: nat, j: nat)
    requires grp.cwd == [] && i < |grp.src| && j < |grp.src|
    ensures GroupJobs(grp)[i].dest == GroupJobs(grp)[j].dest == Emit.JsPath(grp.dest)
    ensures GroupJobs(grp)[i].src == ReplaceChar(grp.src[i], '\\', '/')
  {
  }

  /** What `combine` sees in a run with the options `opts`. */
  function EnvOf(files: map<string, string>, md5: string -> HexDigest, cwd: string, opts: Options): Env {
    Env(CssToJsTask, files, md5, cwd, opts.baseUrl, opts.baseDir)
  }

  /** The task body: one memo for the whole run, and every source of every
      group combined, compressed, wrapped and written in order, until a
      file cannot be read. */
  method Run(files: map<string, string>, md5: string -> HexDigest, cwd: string, opts: Options,
             groups: seq<FileGroup>, ghost g: Graph)
    returns (writes: seq<Write>, failed: Option<string>)
    requires Acyclic(files, g) && GraphOf(CssToJsTask, files, g)
    ensures var o := Emitted(EnvOf(files, md5, cwd, opts), g, Jobs(groups));
      && |o.texts| <= |Jobs(groups)|
      && failed == o.failed && writes == Scripts(CssToJsTask, opts, Jobs(groups), o.texts)
  {
    var c := new Combiner(EnvOf(files, md5, cwd, opts), g);
    ghost var texts;
    writes, failed, texts := c.RunJobs(opts, Jobs(groups));
  }
}
