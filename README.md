# grunt-css-to-js in Dafny

This project models the stylesheet-combining core of two Grunt tasks:

- `css_to_js` (tasks/css_to_js.js);
- its older copy `jcss` (grunt-jcss.js).

For every source stylesheet of every file group, the task does four things:

1. **Combine.** `combine(path)` reads the file and strips what it does not want:
   - `css_to_js` removes a leading byte-order mark, comments and `@charset` rules;
   - `jcss` removes only comments.

   It then replaces each `@import` by the combined text of the imported file. Imported paths are resolved next to the importing file. Each relative `url(...)` reference is rewritten to `baseUrl` plus the path of the asset relative to `baseDir`, with a `?v=<version>` query. The version is eight characters taken from the asset's MD5 digest, or `0` when the asset cannot be read.
2. **Memoise.** Combined texts are kept in a memo for the whole run, and so are the versions.
3. **Compress.** `compress` collapses white space and adds the charset rule in front.
4. **Register.** `css2js` wraps the result in `regFn('<name>', '<code>');`, which is written next to the source as a `.js` file.

The two copies share one engine, `Engine`:

- The combined text of a file is defined by recursion over the import graph (`Canon`).
- `Combiner.Combine` is `combine` itself, with its memo and the version memo, written imperatively. While every memo entry was made under the settings in force, it is proved to return `Canon`.
- `CssToJs.Run` and `Jcss.Run` are the two task bodies.
  - `css_to_js` has one set of options for the whole run, so its result is exactly the canonical run `Emitted`.
  - `jcss` changes `baseUrl`/`baseSrc` per file group but keeps one memo. Its first group is proved to follow `Emitted`; for later groups the model states only what still holds.

Regular expressions are modelled as matchers that explore alternatives in JavaScript's backtracking order:
- a lazy `\s*?` from short to long;
- greedy parts from long to short;
- an optional group taken first.

The captures are therefore the ones JavaScript reports. Node's `path.join`, `path.dirname` and `path.relative` are modelled on `/`-separated segments. The process working directory is a parameter.

Behaviour the code does not have, which the model leaves out too:

- No duplicate-import set: a file imported twice is included twice.
- No cycle guard: a circular import recurses without end in the code, so the model requires an acyclic import graph.
- No debug mode.
- No stripping of `#fragment`s.
- No line-based scanning.

## Model

| member | source | states |
|---|---|---|
| Text.ReplaceCharRemoves | tasks/css_to_js.js:56 | `replace(/\\/g, '/')` leaves no `\` in a path, a second pass changes nothing, and every `\` has become one more `/` |
| Text.JoinSplit | tasks/css_to_js.js:88 | joining the pieces of `split(sep)` with `sep` gives the text back |
| Text.SplitCons | tasks/css_to_js.js:88 | a piece free of the separator, then the separator, is split off first |
| Strip.StripBom | tasks/css_to_js.js:46 | the mark `\xef\xbb\xbf` is removed only when the text begins with it, and nothing else changes |
| Strip.CommentAt | tasks/css_to_js.js:49 | a comment match opens with `/*` and ends at the first `*/` after it; whenever such a closer exists, the comment matches |
| Strip.NoCommentUnchanged | tasks/css_to_js.js:49 | text in which no comment opens is left as it is |
| Strip.UnclosedCommentKept | tasks/css_to_js.js:49 | where no comment opens before `i` and no `*/` starts from `i + 2` on, whatever follows from `i` (an unclosed `/*`) is not removed |
| Strip.StripCommentsFirst | tasks/css_to_js.js:49 | the first comment, from its `/*` to the first `*/` after it, is cut out and the scan goes on after it; with `UnclosedCommentKept` this decides every text |
| Strip.ClosedThenUnclosed | tasks/css_to_js.js:49 | `/*a*/b/*c` becomes `b/*c`: the closed comment goes, the trailing unclosed one stays |
| Strip.CharsetAtMatches | tasks/css_to_js.js:52 | the pattern matches exactly where `@charset`, in any case, is followed by a character other than `;` and a later `;`; the match runs to the first `;` and, for the rule pass, the white space after it |
| Strip.StripCharsetFirst | tasks/css_to_js.js:52 | the first `@charset` rule is cut out, up to its `;` (and the white space after it for the rule pass), and each scan goes on after it |
| Strip.NoCharsetUnchanged | tasks/css_to_js.js:52 | text without `@charset` in any case is unchanged by both `@charset` passes |
| Scan.Pieces | tasks/css_to_js.js:55-67 | the left-to-right non-overlapping scan cuts the text into kept characters and non-empty matches that concatenate back to it |
| Scan.PiecesAtIndex | tasks/css_to_js.js:55-67 | piece k starts where the pieces before it end; a match there is what the pattern matches at that offset, and a kept character is one where the pattern matches nothing |
| Scan.ReplaceFirstMatch | tasks/css_to_js.js:49-52 | a global replace is the text before the first match, the replacement, then the replace resumed after the match |
| Scan.NoMatchKeepsText | tasks/css_to_js.js:49 | where the pattern matches nowhere, a global replace finds nothing and returns the text |
| Refs.MaxRef | tasks/css_to_js.js:62 | the greedy reference at a position is accepted by the plugin's reference pattern |
| Refs.ShorterRef | tasks/css_to_js.js:62 | backtracking to a shorter reference keeps it acceptable |
| Refs.UrlAt | tasks/css_to_js.js:62 | a `url(...)` match is `url(`, spaces, an optional quote, a valid reference, the same quote, spaces and `)` |
| Refs.UrlAtComplete | tasks/css_to_js.js:62 | conversely, whenever the text starts with such a `url(...)`, the pattern matches there |
| Refs.UrlClose | tasks/css_to_js.js:62 | the end of a `url(...)` match is the quote, spaces and `)` |
| Refs.ImportAt | tasks/css_to_js.js:55 | an `@import` match has the spaces, keyword, optional `url(` group, quote, valid reference, quote, optional `)` and `;` of the pattern |
| Refs.ImportAtComplete | tasks/css_to_js.js:55 | conversely, whenever the text starts with such an `@import`, the pattern matches there |
| Refs.ImportClose | tasks/css_to_js.js:55 | the end of an `@import` match is the quote, spaces, an optional `)`, spaces and `;` |
| Refs.ImportPiecesMatch | tasks/css_to_js.js:55-59 | each piece of the `@import` pass starts where those before it end: a match is the well-formed `@import` found there, and a kept character starts none |
| Refs.UrlPiecesMatch | tasks/css_to_js.js:62-67 | the same for the `url(...)` pass |
| Refs.IndexOf | tasks/css_to_js.js:66 | the first position at which the reference occurs in the match, or none |
| Paths.Join | tasks/css_to_js.js:56 | `path.join` never gives the empty path |
| Paths.Dirname | tasks/css_to_js.js:42 | `path.dirname` is `.`, `/`, `//` or a proper prefix of the path |
| Paths.DirnameOfChild | tasks/css_to_js.js:42 | the directory of `d/name` is `d` |
| Paths.Resolve | tasks/css_to_js.js:64 | a resolved path has no empty, `.` or `..` segment |
| Paths.Common | tasks/css_to_js.js:64 | the shared leading segments of two paths, and no more |
| Paths.RelativeArrives | tasks/css_to_js.js:64 | walking `path.relative(from, to)` from `from` arrives at `to` |
| Versioning.B64Char | tasks/css_to_js.js:14-22 | every entry of `b64Map` is a character of the query pattern `[\w\-=]` |
| Versioning.B64Index | tasks/css_to_js.js:14-22 | a character of `b64Map` has a position in it |
| Versioning.B64Distinct | tasks/css_to_js.js:14-22 | no two entries of `b64Map` are alike |
| Versioning.CutAt | tasks/css_to_js.js:88 | the dashes of `(\w)(?=(\w{4})+$)` fall after every fourth digit except the last |
| Versioning.HexArrIsGroups | tasks/css_to_js.js:88 | for a 32-digit digest, `hexArr` is exactly its eight groups of four digits |
| Versioning.Groups | tasks/css_to_js.js:88 | a digest has eight groups, all hex |
| Versioning.TokenChar | tasks/css_to_js.js:93 | the character of a group is taken from `b64Map` |
| Versioning.FileVersion | tasks/css_to_js.js:82-100 | the loop over `hexArr` computes the version: the token of the digest, or `0` for a file that cannot be read |
| Versioning.TokenShape | tasks/css_to_js.js:91-95 | a token has eight characters from `b64Map` |
| Versioning.VersionShape | tasks/css_to_js.js:82-100 | a version is `0` or eight characters of `b64Map` |
| Versioning.TokenDecodes | tasks/css_to_js.js:92-93 | character i of a token decodes to bits 5 to 10 of group i of the digest |
| Versioning.ExtAt | tasks/css_to_js.js:76 | the extension pattern at a dot: alphanumerics, then the end or a query, with no dot after |
| Versioning.FindExt | tasks/css_to_js.js:76 | the leftmost position where the extension pattern matches, or none |
| Versioning.FindExtAt | tasks/css_to_js.js:76 | where the pattern matches at i, the leftmost match is at i |
| Versioning.VersionedShape | tasks/css_to_js.js:79 | a path with an extension is versioned as the path without its query, then `?v=` and the version |
| Versioning.StripThenVersion | tasks/css_to_js.js:76-79 | versioning a path with its query removed is versioning the path |
| Versioning.VersionedStrips | tasks/css_to_js.js:76-79 | the query of a versioned path is removed again before hashing |
| Versioning.VersionIsQuery | tasks/css_to_js.js:76-98 | every version is non-empty and accepted by the query pattern |
| Versioning.VersionCache.constructor | tasks/css_to_js.js:34 | the version memo starts empty |
| Versioning.VersionCache.VersionedUrl | tasks/css_to_js.js:73-80 | the versioned URL of a path; a remembered version is reused, otherwise it is computed once and stored |
| Minify.CollapseTidy | tasks/css_to_js.js:103 | after collapsing, no white space stands next to `{ } : ; ,` |
| Minify.CollapseTidyFixed | tasks/css_to_js.js:103 | text with no white space next to `{ } : ; ,` is left as it is |
| Minify.CollapseIdempotent | tasks/css_to_js.js:103 | collapsing twice is collapsing once |
| Minify.TightenImportantTight | tasks/css_to_js.js:104 | after tightening, no white space stands before `!important` |
| Minify.TightenTidy | tasks/css_to_js.js:104 | tightening keeps text free of white space next to punctuation |
| Minify.DropSemiBraceOnlySemis | tasks/css_to_js.js:105 | removing `;` before `}` removes semicolons and nothing else |
| Minify.DropSemiBraceFilters | tasks/css_to_js.js:105 | replacing `;}` by `}` keeps every character except a `;` that a `}` follows |
| Minify.DropSemiBraceNoPair | tasks/css_to_js.js:105 | text without `;}` is left as it is |
| Minify.DropSemiBraceTidy | tasks/css_to_js.js:105 | removing `;` before `}` keeps the text tidy |
| Minify.DropNewlinesNone | tasks/css_to_js.js:106 | no line feed is left |
| Minify.DropNewlinesKeeps | tasks/css_to_js.js:106 | every character other than a line feed keeps its count |
| Minify.DropNewlinesJoinsLines | tasks/css_to_js.js:106 | removing the line feeds is joining the lines, in order |
| Minify.DropNewlinesTidy | tasks/css_to_js.js:106 | removing line feeds keeps the text tidy |
| Minify.TrimShape | tasks/css_to_js.js:107 | all-space text is kept; otherwise a slice remains that starts and ends with non-space |
| Minify.TrimTidy | tasks/css_to_js.js:107 | trimming keeps the text tidy |
| Minify.CompressShape | tasks/css_to_js.js:102-108 | the output is the charset rule, then a tidy, trimmed body without line feeds |
| Minify.CompressJcssShape | grunt-jcss.js:105-112 | the output of `jcss` is the charset rule, then a trimmed body without line feeds |
| Minify.SquashCollapse | tasks/css_to_js.js:103 | collapsing removes white space only: with white space ignored, the text is unchanged, `;` and letter case included |
| Minify.SquashTighten | tasks/css_to_js.js:104 | with white space ignored, tightening changes only letters that lie inside a `!important` of the result, each to its lower case |
| Minify.SquashDropNewlines | tasks/css_to_js.js:106 | removing line feeds removes white space only: with white space ignored, the text is unchanged |
| Minify.SquashTrim | tasks/css_to_js.js:107 | trimming removes white space only: with white space ignored, the text is unchanged |
| Minify.CompressContent | tasks/css_to_js.js:102-108 | with white space ignored, the tightened text is the input with only the letters of matched `!important` lower-cased, and the body after the charset rule is that text with each `;` directly before `}` removed |
| Minify.CompressJcssContent | grunt-jcss.js:105-112 | the same for `jcss`, where the `@charset` declarations are removed from the tightened text before the `;` of `;}` is dropped |
| Minify.CompressImportantLoose | tasks/css_to_js.js:102-108 | `a{color:red !` + line feed + `important}` compresses to `a{color:red !important}`: white space is left before `!important` |
| Emit.Escape | tasks/css_to_js.js:111 | escaping as written grows the text by one character per `'` |
| Emit.EscapeRoundTrip | tasks/css_to_js.js:111 | text without backslashes and line breaks reads back unchanged from the literal as written |
| Emit.EscapeLosesBackslash | tasks/css_to_js.js:111 | `\e600` reads back as `e600` from the literal as written |
| Emit.EscapeKeepsCarriageReturn | tasks/css_to_js.js:111 | a carriage return makes the literal as written unreadable |
| Emit.EscapeLiteralLength | tasks/css_to_js.js:111 | each backslash, quote, line feed and carriage return grows by one |
| Emit.EscapeLiteralRoundTrip | tasks/css_to_js.js:111 | every stylesheet reads back unchanged from the corrected literal |
| Emit.CssStem | tasks/css_to_js.js:112 | a path has a stem exactly when it ends in `.css`, in any case; the stem is what precedes it |
| Emit.NoLineTerminator | tasks/css_to_js.js:112 | whether the first n characters are free of line terminators, which `.` cannot match |
| Emit.RenameCss | tasks/css_to_js.js:112-120 | a `.css` name registers under its stem and is written to stem + `.js` |
| Emit.RenameOther | tasks/css_to_js.js:112-120 | any other name is kept for both |
| Emit.RegisterReadsBack | tasks/css_to_js.js:110-114 | the corrected call, which the code does not make, holds the name and a literal that reads back as the stylesheet |
| Emit.EscapeAgrees | tasks/css_to_js.js:111 | without `\`, line feed or carriage return, escaping as written is the corrected escaping |
| Emit.RegisterAsWrittenReadsBack | tasks/css_to_js.js:110-114 | for such a stylesheet the call `css2js` makes is the corrected call, and its literal reads back as the stylesheet |
| Emit.RegisterDiffers | tasks/css_to_js.js:110-114 | for `\e600` the call `css2js` makes differs from the corrected call |
| Engine.RewriteUrlsNone | tasks/css_to_js.js:62-67 | text without a `url(...)` match is unchanged |
| Engine.RewriteInsideKeyword | tasks/css_to_js.js:66 | in `url(l)` the reference `l` is replaced inside the `url` keyword |
| Engine.SplicedStep | tasks/css_to_js.js:55-59 | one more import piece extends the splice by its step, and a failure there is final |
| Engine.SplicedErrSticks | tasks/css_to_js.js:55-59 | once a missing file is met, the rest of the imports do not matter |
| Engine.CanonErrMissing | tasks/css_to_js.js:43 | the file `combine` fails on is one that does not exist |
| Engine.SplicedErrMissing | tasks/css_to_js.js:43-58 | the same for any prefix of the import pass |
| Engine.CanonPlain | tasks/css_to_js.js:36-71 | a file without imports and `url(...)` references combines to its prepared text |
| Engine.SplicedRaw | tasks/css_to_js.js:55-59 | pieces without imports splice to their own text |
| Engine.ScriptsSnoc | tasks/css_to_js.js:122-124 | one more combined text adds its script at the end |
| Engine.RunOfShape | tasks/css_to_js.js:116-126 | a run keeps a prefix of the texts and stops exactly at the first missing file |
| Engine.RunOfSticks | tasks/css_to_js.js:116-126 | after a failure, nothing more is kept |
| Engine.Results | tasks/css_to_js.js:122 | one combined text per source |
| Engine.EmittedWrites | tasks/css_to_js.js:116-126 | the canonical run compiles a prefix of the sources, each to its canonical text, and fails only on a missing file |
| Engine.RunStep | tasks/css_to_js.js:118-125 | one source more either adds its text or ends the run with its missing file |
| Engine.MemoStep | grunt-jcss.js:45-72 | one text more, stored when not empty and taken from the memo when its entry was not empty, keeps the texts in agreement with the memo and with each other |
| Engine.JoinMemo | grunt-jcss.js:42-49 | the texts of one more group, after those of the earlier groups, on a cache shared by all groups: the texts stay in agreement with the cache and with each other |
| Jcss.GroupSrcs | grunt-jcss.js:120-125 | the source paths of group i follow those of the groups before it among all source paths |
| Engine.Combiner.constructor | tasks/css_to_js.js:33-34 | both memos start empty |
| Engine.Combiner.SetBase | grunt-jcss.js:121-122 | a group's settings replace the previous ones; the memo stays valid for the new settings only if they are unchanged or the memo is empty |
| Engine.Combiner.Combine | tasks/css_to_js.js:36-71 | returns `Canon`, stores it, leaves old entries alone; a non-empty memo entry is returned without change; no non-empty entry of any path is lost or changed (`Retains`); failure names a missing file |
| Engine.Combiner.RunJobs | tasks/css_to_js.js:116-126 | writes the scripts `css2js` makes (escaping only `'`) of the sources combined so far, stops at the first missing file, and follows `Emitted` while every memo entry was combined under the current settings; in every case the memo keeps its non-empty entries, each non-empty text is the memo entry of its source path, a source whose path had a non-empty entry gets that entry, and a path met again after a non-empty text gets that text again (`MemoAgrees`) |
| Engine.Combiner.RunNext | tasks/css_to_js.js:119-124 | one source: combined, and on success its script, as `css2js` writes it, is appended; the memo facts of `MemoAgrees` carry over to the texts with the new one |
| Engine.Combiner.SpliceImports | tasks/css_to_js.js:55-59 | the `@import` pass returns the splice of all pieces; non-empty memo entries are kept |
| Engine.Combiner.SpliceFrom | tasks/css_to_js.js:55-59 | the pass from piece k on completes the splice; non-empty memo entries are kept |
| Engine.Combiner.SpliceNext | tasks/css_to_js.js:55-58 | one piece of the pass: kept, or the import replaced; non-empty memo entries are kept |
| Engine.Combiner.SpliceFile | tasks/css_to_js.js:56-58 | the callback gives `combine` of the sibling path, or fails for a missing file; non-empty memo entries are kept |
| Engine.Combiner.RewriteText | tasks/css_to_js.js:62-67 | the `url(...)` pass as a loop equals `RewriteUrls` |
| Engine.Combiner.RewriteNext | tasks/css_to_js.js:62-67 | one step of that loop |
| Engine.Combiner.RewriteRef | tasks/css_to_js.js:63-66 | the callback replaces the reference by its absolute versioned URL |
| CssToJs.GroupFileModeSameDest | tasks/css_to_js.js:117-120 | without a `cwd`, every source of a group is written to the same file |
| CssToJs.Run | tasks/css_to_js.js:116-126 | the task writes exactly the scripts of the canonical run, as `css2js` writes them, and fails exactly where it does |
| Jcss.TasksSnoc | grunt-jcss.js:120-124 | the sources of a group follow those of the groups before it |
| Jcss.TasksPrefix | grunt-jcss.js:120-124 | the sources of the first groups begin the sources of all groups |
| Jcss.TasksAt | grunt-jcss.js:120-124 | source j of group i, counted over the whole run, with its group's options |
| Jcss.GroupWrites | grunt-jcss.js:124-131 | a group's writes follow those of the groups before it, each with its own group's options |
| Jcss.RunGroup | grunt-jcss.js:121-131 | one group: its settings are installed, its sources compiled; on an empty memo it follows `Emitted`; the shared cache keeps its non-empty entries, and over all texts so far each non-empty text is the cache entry of its path and a path met again after a non-empty text, in this group or an earlier one, gets that text |
| Jcss.Run | grunt-jcss.js:120-132 | each write is the script of its source with its group's options; the run stops at a missing file; the first group gets its canonical texts; `Reused(TaskSrcs(Tasks(...)), texts)`: for j1 < j2, when sources j1 and j2 read the same path and text j1 is not empty, text j2 is text j1, whichever groups they belong to |
| Jcss.OneCharRefKept | grunt-jcss.js:65 | `url(l)` is not matched by the `jcss` pattern, but is by that of `css_to_js` |
| Jcss.SpacedAbsoluteMatched | grunt-jcss.js:65 | `url( /a)` is matched by `jcss`, with the reference ` /a` |
| Jcss.SpacedAbsoluteKept | tasks/css_to_js.js:62 | `url( /a)` is not matched by `css_to_js` |

## Left out

- I/O: `grunt.file.read`, `fs.readFileSync` and `grunt.file.write` are modelled as follows.
  - The files are a map from path to content.
  - A read failure is a path missing from the map.
  - The writes are returned as a list.
  - Which exception ends the run is not modelled, only that it ends.
- Logging: `console.log`, `console.warn` and `console.error` are left out.
- MD5: `crypto` is a parameter, a function from content to 32 lower-case hex digits.
- `path`: only POSIX separators are modelled. The working directory of the process is a parameter.
- Circular imports: these make `combine` recurse without end. The model requires an acyclic import graph instead.
- Acyclic: the rank that proves the import graph acyclic covers every file in the map, not only those the sources reach, so a cycle among files no source imports also excludes the run.
- `!important` after a line feed: compress removes white space before `!important` only when the two are adjacent in its input; a line feed between `!` and the word is removed only later (see `Minify.CompressImportantLoose`), so the output is not always free of white space before `!important`.
- `$` forms: the forms `$&`, `$1` and so on inside the replacement string of `matchString.replace(relUrl, absUrl)` are not modelled.
- Engine.Combiner.Combine: the result is tied to `Canon` only while every memo entry was combined under the current `baseUrl`/`baseDir`. That always holds for `css_to_js`, but not for a later `jcss` group. For that case the method states only the following:
  - a non-empty entry is returned;
  - the result is stored;
  - keys are kept, and no non-empty entry is lost or changed;
  - a failure names a missing file.
- Jcss.Run: writes after the first group are tied to some combined text, not to a closed form, for the same reason. What is stated about them is that they come from the shared cache: a path met again after a non-empty text gets that same text, whichever group it is in.
- Undefined group settings: in `jcss`, a group without `baseSrc`, `baseUrl` or `regFn` makes JavaScript use `undefined` or throw. The model takes every setting as a string.
- Byte order mark: `grunt.file.read` drops a leading U+FEFF, but the `fs.readFileSync` behind the version digest keeps it. The model reads both from the one file map and does not drop U+FEFF on the `combine` side, so such a file keeps the character in its combined text.
- Writes read back: the file map is a fixed snapshot, so a script written by `grunt.file.write` is never seen by a later read or version digest.
- Inherited object keys: `combinedMap` and `fileVersMap` are plain JavaScript objects, so a path such as `toString` or `constructor` finds an inherited function that `combine` would return. The model's memos are maps holding only what was stored.
- Missing `dest`: in `css_to_js` file mode, a group without `dest` throws on `undefined.replace` (tasks/css_to_js.js:120). The model takes `dest` as a string.
- JavaScript strings are UTF-16 code units. The model uses Dafny characters, and case folding under the `i` flag is done only for ASCII letters, the only ones the literal patterns contain.

## Findings

| source | as written | input that shows it | evidently intended | confidence | as-written member | corrected member |
|---|---|---|---|---|---|---|
| tasks/css_to_js.js:111 | only `'` is escaped before the stylesheet is put inside a single-quoted JavaScript literal | a compressed stylesheet holding `\e600` (icon-font `content`) reads back as `e600` | the literal reads back as the stylesheet, so `\`, line feed and carriage return are escaped too; the task bodies of the model keep the call as written, and `Emit.Register` is the corrected call | not executed | Emit.EscapeLosesBackslash | Emit.EscapeLiteralRoundTrip |
