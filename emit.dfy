/** `css2js` and the `.css` renames (tasks/css_to_js.js:110-114, 120;
    grunt-jcss.js:114-118, 126): the compressed stylesheet is wrapped in a call
    of the register function, `regFn('<name>', '<code>');`, where `<name>` is
    the source path without its `.css` and `<code>` is the stylesheet inside a
    single-quoted JavaScript string literal.

    What the JavaScript engine will read back from that literal is given by
    `JsLiteral`, a decoder of the body of a single-quoted string literal. The
    code as written escapes only `'` (`Escape`); a backslash in the stylesheet,
    such as the one in `content: "\e600"`, then starts an escape sequence and is
    lost, and a carriage return ends the literal. The engine writes what
    `RegisterAsWritten` gives, as the code does. `EscapeLiteral` escapes
    everything a single-quoted literal cannot hold as it is; `Register`, the
    call with that escaping, is the corrected `css2js`, and the two calls agree
    on every stylesheet without a backslash, line feed or carriage return. */
module Emit {
  import opened Text
  import opened Scan

  // ---------------------------------------------------------------------
  // Reading a single-quoted JavaScript string literal

  /** The character the escape `\c` stands for; None for the escapes this model
      does not decode (`\0` to `\9`, `\x`, `\u`, a line continuation). */
  function EscapeValue(c: char): Option<char> {
    if c == 'n' then Some('\n')
    else if c == 't' then Some('\t')
    else if c == 'r' then Some('\r')
    else if c == 'b' then Some('\U{0008}')
    else if c == 'f' then Some('\U{000C}')
    else if c == 'v' then Some('\U{000B}')
    else if '0' <= c <= '9' || c == 'x' || c == 'u' || IsLineTerminator(c) then None
    else Some(c)
  }

  /** The string that `t`, written between single quotes in JavaScript source,
      denotes; None when `t` cannot stand there (an unescaped `'`, a line feed
      or carriage return, a lone trailing backslash) or uses an escape that
      `EscapeValue` does not decode. */
  function JsLiteral(t: string): Option<string>
    decreases |t|
  {
    if t == [] then Some([])
    else if t[0] == '\'' || t[0] == '\n' || t[0] == '\r' then None
    else if t[0] == '\\' then
      if |t| == 1 then None
      else
        match (EscapeValue(t[1]), JsLiteral(t[2..]))
        case (Some(c), Some(rest)) => Some([c] + rest)
        case _ => None
    else
      match JsLiteral(t[1..])
      case Some(rest) => Some([t[0]] + rest)
      case None => None
  }

  // ---------------------------------------------------------------------
  // Escaping as written: `code.replace(/\'/g, "\\'")`

  function Escape(s: string): (r: string)
    ensures |r| == |s| + Count(s, '\'')
  {
    if s == [] then []
    else (if s[0] == '\'' then "\\'" else [s[0]]) + Escape(s[1..])
  }

  /** Escaping only `'` is enough while the stylesheet holds no backslash, line
      feed or carriage return: the literal then reads back as the stylesheet. */
  lemma {:induction false} EscapeRoundTrip(s: string)
    requires forall k :: 0 <= k < |s| ==> s[k] != '\\' && s[k] != '\n' && s[k] != '\r'
    ensures JsLiteral(Escape(s)) == Some(s)
    decreases |s|
  {
    if s != [] {
      var rest := Escape(s[1..]);
      EscapeRoundTrip(s[1..]);
      if s[0] == '\'' {
        var t := "\\'" + rest;
        assert t[0] == '\\' && t[1] == '\'' && t[2..] == rest;
      } else {
        var t := [s[0]] + rest;
        assert t[1..] == rest;
      }
      assert [s[0]] + s[1..] == s;
    }
  }

  /** A backslash escape in the stylesheet does not survive: `\e600` reads back
      as `e600`. */
  lemma EscapeLosesBackslash()
    ensures Escape("\\e600") == "\\e600"
    ensures JsLiteral(Escape("\\e600")) == Some("e600")
  {
    assert Escape("\\e600") == "\\e600" by {
      assert "\\e600"[1..] == "e600";
      assert Escape("e600") == "e600" by {
        assert "e600"[1..] == "600";
        assert "600"[1..] == "00";
        assert "00"[1..] == "0";
        assert "0"[1..] == "";
      }
    }
    assert JsLiteral("e600") == Some("e600") by {
      assert "e600"[1..] == "600";
      assert "600"[1..] == "00";
      assert "00"[1..] == "0";
      assert "0"[1..] == "";
    }
    assert "\\e600"[2..] == "600";
    assert JsLiteral("600") == Some("600") by {
      assert JsLiteral("e600") == Some("e600");
      assert "e600"[1..] == "600";
    }
  }

  /** A carriage return, which `compress` does not remove, makes the literal
      invalid. */
  lemma EscapeKeepsCarriageReturn()
    ensures JsLiteral(Escape("a\rb")) == None
  {
    assert Escape("a\rb") == "a\rb" by {
      assert "a\rb"[1..] == "\rb";
      assert "\rb"[1..] == "b";
      assert "b"[1..] == "";
    }
    assert "a\rb"[1..] == "\rb";
  }

  // ---------------------------------------------------------------------
  // Escaping so that the literal reads back as the stylesheet

  /** What `c` is written as inside a single-quoted literal. */
  function EscapeChar(c: char): string {
    if c == '\\' then "\\\\"
    else if c == '\'' then "\\'"
    else if c == '\n' then "\\n"
    else if c == '\r' then "\\r"
    else [c]
  }

  function EscapeLiteral(s: string): string {
    if s == [] then []
    else EscapeChar(s[0]) + EscapeLiteral(s[1..])
  }

  /** Each backslash, quote, line feed and carriage return grows by one. */
  lemma {:induction false} EscapeLiteralLength(s: string)
    ensures |EscapeLiteral(s)| == |s| + Count(s, '\\') + Count(s, '\'') + Count(s, '\n') + Count(s, '\r')
    decreases |s|
  {
    if s != [] {
      EscapeLiteralLength(s[1..]);
    }
  }

  /** Every string comes back unchanged from its escaped literal. */
  lemma {:induction false} EscapeLiteralRoundTrip(s: string)
    ensures JsLiteral(EscapeLiteral(s)) == Some(s)
    decreases |s|
  {
    if s != [] {
      EscapeLiteralRoundTrip(s[1..]);
      EscapeCharReads(s[0], EscapeLiteral(s[1..]), s[1..]);
      assert [s[0]] + s[1..] == s;
    }
  }

  lemma EscapeCharReads(c: char, rest: string, v: string)
    requires JsLiteral(rest) == Some(v)
    ensures JsLiteral(EscapeChar(c) + rest) == Some([c] + v)
  {
    var t := EscapeChar(c) + rest;
    if |EscapeChar(c)| == 2 {
      assert t[2..] == rest;
    } else {
      assert t[1..] == rest;
    }
  }

  // ---------------------------------------------------------------------
  // The `.css` suffix: `p.replace(/^(.*)\.css$/i, ...)`

  /** The part of `p` before a final `.css`, in any case; `.` does not match a
      line terminator, so a stem holding one does not match. */
  function CssStem(p: string): (r: Option<string>)
    ensures r.Some? <==> |p| >= 4 && LitAt(p, |p| - 4, ".css")
                         && forall k :: 0 <= k < |p| - 4 ==> !IsLineTerminator(p[k])
    ensures r.Some? ==> r.value == p[..|p| - 4]
  {
    if |p| >= 4 && LitAt(p, |p| - 4, ".css") && NoLineTerminator(p, |p| - 4) then Some(p[..|p| - 4])
    else None
  }

  function NoLineTerminator(p: string, n: nat): (b: bool)
    requires n <= |p|
    ensures b <==> forall k :: 0 <= k < n ==> !IsLineTerminator(p[k])
  {
    n == 0 || (!IsLineTerminator(p[n - 1]) && NoLineTerminator(p, n - 1))
  }

  /** The name a stylesheet registers under: `$1`. */
  function RegName(p: string): string {
    match CssStem(p)
    case Some(stem) => stem
    case None => p
  }

  /** The file a stylesheet is written to: `$1.js`. */
  function JsPath(p: string): string {
    match CssStem(p)
    case Some(stem) => stem + ".js"
    case None => p
  }

  /** A `.css` name loses exactly its suffix, and its script is that name plus
      `.js`; any other name is kept as it is for both. */
  lemma RenameCss(stem: string, ext: string)
    requires |ext| == 4 && LitAt(ext, 0, ".css")
    requires forall k :: 0 <= k < |stem| ==> !IsLineTerminator(stem[k])
    ensures RegName(stem + ext) == stem
    ensures JsPath(stem + ext) == stem + ".js"
  {
    var p := stem + ext;
    assert p[..|p| - 4] == stem;
    forall k | 0 <= k < 4 ensures Lower(p[|p| - 4 + k]) == ".css"[k] {
      assert p[|p| - 4 + k] == ext[k];
    }
  }

  lemma RenameOther(p: string)
    requires !(|p| >= 4 && LitAt(p, |p| - 4, ".css"))
    ensures RegName(p) == p && JsPath(p) == p
  {
  }

  // ---------------------------------------------------------------------
  // `css2js`

  /** `css2js(css, p)` with the escaping corrected; the code does not do this. */
  function Register(regFn: string, p: string, css: string): string {
    regFn + "('" + RegName(p) + "', '" + EscapeLiteral(css) + "');"
  }

  /** The register call holds the stylesheet's name and a literal that reads
      back as the stylesheet. */
  lemma RegisterReadsBack(regFn: string, p: string, css: string)
    ensures exists lit :: Register(regFn, p, css) == regFn + "('" + RegName(p) + "', '" + lit + "');"
                          && JsLiteral(lit) == Some(css)
  {
    EscapeLiteralRoundTrip(css);
  }

  /** `css2js(css, p)` as written. */
  function RegisterAsWritten(regFn: string, p: string, css: string): string {
    regFn + "('" + RegName(p) + "', '" + Escape(css) + "');"
  }

  /** Without a backslash, line feed or carriage return in the stylesheet the
      two escapings coincide. */
  lemma {:induction false} EscapeAgrees(s: string)
    requires forall k :: 0 <= k < |s| ==> s[k] != '\\' && s[k] != '\n' && s[k] != '\r'
    ensures Escape(s) == EscapeLiteral(s)
    decreases |s|
  {
    if s != [] {
      EscapeAgrees(s[1..]);
    }
  }

  /** Where the stylesheet has no backslash, line feed or carriage return,
      the call as written is the corrected call, and its literal reads back as
      the stylesheet. */
  lemma RegisterAsWrittenReadsBack(regFn: string, p: string, css: string)
    requires forall k :: 0 <= k < |css| ==> css[k] != '\\' && css[k] != '\n' && css[k] != '\r'
    ensures RegisterAsWritten(regFn, p, css) == Register(regFn, p, css)
    ensures JsLiteral(Escape(css)) == Some(css)
  {
    EscapeAgrees(css);
    EscapeRoundTrip(css);
  }

  /** For `\e600` the call as written is not the corrected call. */
  lemma RegisterDiffers(regFn: string, p: string)
    ensures RegisterAsWritten(regFn, p, "\\e600") != Register(regFn, p, "\\e600")
  {
    var css := "\\e600";
    RegisterLengths(regFn, p, css);
    EscapeLiteralLength(css);
    E600Counts();
  }

  /** The two calls differ only in how the stylesheet is escaped. */
  lemma RegisterLengths(regFn: string, p: string, css: string)
    ensures |Register(regFn, p, css)| == |regFn| + |RegName(p)| + |EscapeLiteral(css)| + 9
    ensures |RegisterAsWritten(regFn, p, css)| == |regFn| + |RegName(p)| + |Escape(css)| + 9
  {
  }

  lemma E600Counts()
    ensures Count("\\e600", '\\') == 1 && Count("\\e600", '\'') == 0
    ensures Count("\\e600", '\n') == 0 && Count("\\e600", '\r') == 0
  {
    var s := "\\e600";
    assert s[1..] == "e600" && s[1..][1..] == "600" && s[1..][1..][1..] == "00";
    assert s[1..][1..][1..][1..] == "0" && s[1..][1..][1..][1..][1..] == "";
  }
}
