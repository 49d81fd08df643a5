/** The cache-busting version of an asset: `getFileVersion` turns the MD5 hex
    digest of a file into eight characters of a 64-letter alphabet, and
    `getVersionedUrl` puts that token into the query string of the asset's
    path, computing it at most once per path (tasks/css_to_js.js:73-100,
    grunt-jcss.js:76-103). The digest itself is a parameter. */
module Versioning {
  import opened Text
  import opened Scan

  /** Entry `k` of `b64Map` (tasks/css_to_js.js:14-22): the ten digits, the
      lower-case letters, the upper-case letters, then `-` and `_`. */
  function B64Char(k: nat): (ch: char)
    requires k < 64
    ensures IsQueryChar(ch)
  {
    if k < 10 then ('0' as int + k) as char
    else if k < 36 then ('a' as int + k - 10) as char
    else if k < 62 then ('A' as int + k - 36) as char
    else if k == 62 then '-'
    else '_'
  }

  /** The 64 entries of `b64Map`, in order. */
  function B64Map(): (m: string)
    ensures |m| == 64 && forall k :: 0 <= k < 64 ==> m[k] == B64Char(k)
  {
    seq(64, k requires 0 <= k < 64 => B64Char(k))
  }

  /** `b64Map` */
  const B64: string := B64Map()

  predicate IsHexDigit(c: char) {
    '0' <= c <= '9' || 'a' <= c <= 'f'
  }

  /** What `digest('hex')` of an MD5 hash gives: 32 lower-case hex digits. */
  type HexDigest = s: string | |s| == 32 && forall i :: 0 <= i < |s| ==> IsHexDigit(s[i])
    witness "00000000000000000000000000000000"

  predicate AllHex(s: string) {
    forall i :: 0 <= i < |s| ==> IsHexDigit(s[i])
  }

  predicate AllWord(s: string) {
    forall i :: 0 <= i < |s| ==> IsWord(s[i])
  }

  function HexValue(c: char): (v: nat)
    requires IsHexDigit(c)
    ensures v < 16
  {
    if c <= '9' then c as int - '0' as int else c as int - 'a' as int + 10
  }

  /** `parseInt(g, 16)` for a string of hex digits. */
  function ParseHex(g: string): (n: nat)
    requires AllHex(g)
    decreases |g|
  {
    if g == [] then 0 else ParseHex(g[..|g| - 1]) * 16 + HexValue(g[|g| - 1])
  }

  /** Whether `hexMd5.replace(/(\w)(?=(\w{4})+$)/g, '$1-')` puts a `-` after
      position `i`: a word character followed, up to the end, by a positive
      multiple of four word characters. */
  predicate CutAfter(s: string, i: nat)
    requires i < |s|
  {
    && IsWord(s[i])
    && |s| - 1 - i > 0 && (|s| - 1 - i) % 4 == 0
    && forall k :: i < k < |s| ==> IsWord(s[k])
  }

  /** The text from position `i` on, with the dashes put in. */
  function DashFrom(s: string, i: nat): string
    requires i <= |s|
    decreases |s| - i
  {
    if i == |s| then []
    else [s[i]] + (if CutAfter(s, i) then "-" else "") + DashFrom(s, i + 1)
  }

  /** `hexArr`: the digest cut with dashes, then split at them. */
  function HexArr(h: string): seq<string> {
    Split(DashFrom(h, 0), '-')
  }

  /** The groups of four digits from group `m` up to group `n`. */
  function Quads(s: string, m: nat, n: nat): (gs: seq<string>)
    requires m <= n && 4 * n <= |s|
    ensures |gs| == n - m
    ensures AllHex(s) ==> forall k :: 0 <= k < |gs| ==> AllHex(gs[k])
    decreases n - m
  {
    if m == n then [] else [s[4 * m..4 * m + 4]] + Quads(s, m + 1, n)
  }

  /** The eight groups of four hex digits of a digest. */
  function Groups(h: HexDigest): (gs: seq<string>)
    ensures |gs| == 8 && forall i :: 0 <= i < 8 ==> AllHex(gs[i])
  {
    Quads(h, 0, 8)
  }

  /** `b64Map[num >> 5 & 0x3F]`: bits 5 to 10 of the group's value. */
  function TokenChar(g: string): (c: char)
    requires AllHex(g)
    ensures c in B64
  {
    B64[ParseHex(g) / 32 % 64]
  }

  /** The version token of a digest: one character per group. */
  function Token(h: HexDigest): string {
    seq(8, i requires 0 <= i < 8 => TokenChar(Groups(h)[i]))
  }

  /** The version of the file at `path`: the token of its content's digest, or
      `"0"` when it cannot be read (the `catch` branch). */
  function Version(files: map<string, string>, md5: string -> HexDigest, path: string): string {
    if path in files then Token(md5(files[path])) else "0"
  }

  // ---------------------------------------------------------------------
  // The digest cut into groups

  /** In a run of hex digits of length `4 * n`, the dashes fall after every
      fourth digit but the last. */
  lemma CutAt(s: string, n: nat, m: nat, r: nat)
    requires |s| == 4 * n && AllHex(s) && r < 4 && 4 * m + r < |s|
    ensures CutAfter(s, 4 * m + r) <==> (r == 3 && m + 1 < n)
  {
    var i := 4 * m + r;
    assert |s| - 1 - i == 4 * (n - m - 1) + (3 - r);
    assert IsWord(s[i]);
    assert forall k :: i < k < |s| ==> IsWord(s[k]);
  }

  /** From a multiple of four on, the cut text is the next four digits, a dash
      unless they are the last, and the cut text after them. */
  lemma DashQuad(s: string, n: nat, m: nat)
    requires |s| == 4 * n && AllHex(s) && m < n
    ensures DashFrom(s, 4 * m) == s[4 * m..4 * m + 4] + (if m + 1 < n then "-" else "") + DashFrom(s, 4 * m + 4)
  {
    var i := 4 * m;
    DashLast(s, n, m);
    DashPlain(s, n, m, 2);
    DashPlain(s, n, m, 1);
    DashPlain(s, n, m, 0);
    Slice4(s, i);
    Cons4(s[i], s[i + 1], s[i + 2], s[i + 3], if m + 1 < n then "-" else "", DashFrom(s, i + 4));
  }

  lemma Cons4(a: char, b: char, c: char, d: char, dash: string, rest: string)
    ensures [a] + ([b] + ([c] + ([d] + (dash + rest)))) == [a, b, c, d] + dash + rest
  {
  }

  /** No dash inside a group. */
  lemma DashPlain(s: string, n: nat, m: nat, r: nat)
    requires |s| == 4 * n && AllHex(s) && m < n && r < 3
    ensures DashFrom(s, 4 * m + r) == [s[4 * m + r]] + DashFrom(s, 4 * m + r + 1)
  {
    CutAt(s, n, m, r);
    var cut := DashOne(s, 4 * m + r);
  }

  /** A dash after a group unless it is the last. */
  lemma DashLast(s: string, n: nat, m: nat)
    requires |s| == 4 * n && AllHex(s) && m < n
    ensures DashFrom(s, 4 * m + 3) == [s[4 * m + 3]] + ((if m + 1 < n then "-" else "") + DashFrom(s, 4 * m + 4))
  {
    CutAt(s, n, m, 3);
    var cut := DashOne(s, 4 * m + 3);
  }

  lemma Slice4(s: string, i: nat)
    requires i + 4 <= |s|
    ensures s[i..i + 4] == [s[i], s[i + 1], s[i + 2], s[i + 3]]
  {
  }

  /** One step of the cut text. */
  lemma DashOne(s: string, i: nat) returns (cut: bool)
    requires i < |s|
    ensures cut == CutAfter(s, i)
    ensures DashFrom(s, i) == [s[i]] + (if cut then "-" else "") + DashFrom(s, i + 1)
  {
    cut := CutAfter(s, i);
  }

  /** Splitting the cut text from group `m` on gives the groups from `m` on. */
  lemma {:induction false} HexArrFrom(s: string, n: nat, m: nat)
    requires |s| == 4 * n && AllHex(s) && m < n
    ensures Split(DashFrom(s, 4 * m), '-') == Quads(s, m, n)
    decreases n - m
  {
    DashQuad(s, n, m);
    var quad := s[4 * m..4 * m + 4];
    assert '-' !in quad by {
      assert forall k :: 0 <= k < 4 ==> IsHexDigit(quad[k]);
    }
    if m + 1 == n {
      assert DashFrom(s, 4 * m) == quad;
      SplitNone(quad, '-');
    } else {
      HexArrFrom(s, n, m + 1);
      SplitCons(quad, '-', DashFrom(s, 4 * m + 4));
    }
  }

  /** Group `k` counted from `m` is the four digits at `4 * (m + k)`. */
  lemma {:induction false} QuadsAt(s: string, m: nat, n: nat, k: nat)
    requires m <= n && 4 * n <= |s| && k < n - m
    ensures Quads(s, m, n)[k] == s[4 * (m + k)..4 * (m + k) + 4]
    decreases k
  {
    if k > 0 {
      QuadsAt(s, m + 1, n, k - 1);
      assert m + 1 + (k - 1) == m + k;
    }
  }

  /** For a digest, `hexArr` is exactly its eight groups. */
  lemma HexArrIsGroups(h: HexDigest)
    ensures HexArr(h) == Groups(h)
  {
    assert AllHex(h);
    HexArrFrom(h, 8, 0);
  }

  // ---------------------------------------------------------------------
  // getFileVersion

  /** `getFileVersion(path)`: the loop over `hexArr` pushing one character of
      `b64Map` per group, or `"0"` when the file cannot be read. */
  method FileVersion(files: map<string, string>, md5: string -> HexDigest, path: string) returns (ver: string)
    ensures ver == Version(files, md5, path)
  {
    if path !in files {
      return "0";
    }
    var h := md5(files[path]);
    var hexArr := HexArr(h);
    HexArrIsGroups(h);
    ver := [];
    var i := 0;
    while i < |hexArr|
      invariant 0 <= i <= |hexArr| == 8
      invariant |ver| == i && forall k :: 0 <= k < i ==> ver[k] == Token(h)[k]
    {
      TokenNext(h, hexArr, i);
      var num := ParseHex(hexArr[i]);
      ver := ver + [B64[num / 32 % 64]];
      i := i + 1;
    }
    assert ver == Token(h);
  }

  /** One turn of the loop: the character pushed for group `i` is the token's
      character `i`. */
  lemma TokenNext(h: HexDigest, gs: seq<string>, i: nat)
    requires gs == Groups(h) && i < 8
    ensures AllHex(gs[i]) && Token(h)[i] == B64[ParseHex(gs[i]) / 32 % 64]
  {
  }

  /** A token has exactly eight characters, all from `b64Map`. */
  lemma TokenShape(h: HexDigest)
    ensures |Token(h)| == 8
    ensures forall i :: 0 <= i < 8 ==> Token(h)[i] in B64
  {
  }

  /** Every version is `"0"` or a token: eight alphabet characters. */
  lemma VersionShape(files: map<string, string>, md5: string -> HexDigest, path: string)
    ensures var v := Version(files, md5, path);
      (v == "0" && path !in files) || (|v| == 8 && path in files)
    ensures forall c :: c in Version(files, md5, path) ==> c in B64
  {
    assert B64[0] == '0';
  }

  /** The position of a character in `b64Map`. */
  function B64Index(c: char): (k: nat)
    requires c in B64
    ensures k < 64 && B64[k] == c
  {
    if '0' <= c <= '9' then c as int - '0' as int
    else if 'a' <= c <= 'z' then c as int - 'a' as int + 10
    else if 'A' <= c <= 'Z' then c as int - 'A' as int + 36
    else if c == '-' then 62
    else 63
  }

  /** The i-th character of a token decodes to bits 5 to 10 of the i-th group:
      no two entries of `b64Map` are alike. */
  lemma TokenDecodes(h: HexDigest, i: nat)
    requires i < 8
    ensures var g := h[4 * i..4 * i + 4];
      AllHex(g) && Token(h)[i] in B64 && B64Index(Token(h)[i]) == ParseHex(g) / 32 % 64
  {
    QuadsAt(h, 0, 8, i);
    var k := ParseHex(Groups(h)[i]) / 32 % 64;
    assert Token(h)[i] == B64Char(k);
    B64Distinct(k);
  }

  /** No two entries of `b64Map` are alike. */
  lemma B64Distinct(k: nat)
    requires k < 64
    ensures B64Char(k) in B64 && B64Index(B64Char(k)) == k
  {
    assert B64[k] == B64Char(k);
  }

  // ---------------------------------------------------------------------
  // getVersionedUrl: /(\.[A-Za-z0-9]+)(\?[\w\-=]+)?$/

  predicate AllQuery(s: string) {
    forall i :: 0 <= i < |s| ==> IsQueryChar(s[i])
  }

  function AlnumRun(t: string, i: nat): (n: nat)
    requires i <= |t|
    ensures i + n <= |t|
    ensures forall k :: i <= k < i + n ==> IsAlnum(t[k])
    ensures i + n == |t| || !IsAlnum(t[i + n])
    decreases |t| - i
  {
    if i < |t| && IsAlnum(t[i]) then 1 + AlnumRun(t, i + 1) else 0
  }

  /** The pattern at position `i`: a dot, an extension, and either the end of
      the path or a non-empty query string running to the end. The result is
      where the extension ends. */
  function ExtAt(p: string, i: nat): (r: Option<nat>)
    requires i <= |p|
    ensures r.Some? ==> i + 2 <= r.value <= |p| && p[i] == '.'
    ensures r.Some? ==> forall k :: i < k < r.value ==> IsAlnum(p[k])
    ensures r.Some? && r.value < |p| ==> p[r.value] == '?' && r.value + 1 < |p| && AllQuery(p[r.value + 1..])
    ensures r.Some? ==> forall k :: i < k < |p| ==> p[k] != '.'
  {
    if i < |p| && p[i] == '.' then
      var m := AlnumRun(p, i + 1);
      var j := i + 1 + m;
      if m == 0 then None
      else if j == |p| then Some(j)
      else if p[j] == '?' && j + 1 < |p| && AllQuery(p[j + 1..]) then
        assert forall k :: j + 1 <= k < |p| ==> p[k] == p[j + 1..][k - (j + 1)];
        Some(j)
      else None
    else None
  }

  /** The leftmost position where the pattern matches, and where its extension ends. */
  function FindExt(p: string, i: nat): (r: Option<(nat, nat)>)
    requires i <= |p|
    ensures r.Some? ==> i <= r.value.0 <= |p| && ExtAt(p, r.value.0) == Some(r.value.1)
    ensures r.Some? ==> forall k :: i <= k < r.value.0 ==> ExtAt(p, k).None?
    ensures r.None? ==> forall k :: i <= k <= |p| ==> ExtAt(p, k).None?
    decreases |p| - i
  {
    match ExtAt(p, i)
    case Some(j) => Some((i, j))
    case None => if i == |p| then None else FindExt(p, i + 1)
  }

  /** `path.replace(/(\.[A-Za-z0-9]+)(\?[\w\-=]+)?$/, '$1')`: the query after
      the extension dropped; a path without an extension is unchanged. */
  function StripQuery(p: string): string {
    match FindExt(p, 0)
    case Some((i, j)) => p[..j]
    case None => p
  }

  /** `path.replace(/(\.[A-Za-z0-9]+)(\?[\w\-=]+)?$/, '$1?v=' + ver)`. */
  function Versioned(p: string, ver: string): string {
    match FindExt(p, 0)
    case Some((i, j)) => p[..j] + "?v=" + ver
    case None => p
  }

  /** Where the pattern matches at `i`, it matches nowhere before `i`: the
      match runs to the end and holds no other dot. */
  lemma {:induction false} FindExtAt(p: string, i: nat, from: nat)
    requires from <= i <= |p| && ExtAt(p, i).Some?
    ensures FindExt(p, from) == Some((i, ExtAt(p, i).value))
    decreases i - from
  {
    if from < i {
      assert ExtAt(p, from).None?;
      FindExtAt(p, i, from + 1);
    }
  }

  /** The versioned path of an asset with an extension ends in `?v=` and the
      version, in place of any query it had. */
  lemma VersionedShape(p: string, ver: string)
    requires FindExt(p, 0).Some?
    ensures Versioned(p, ver) == StripQuery(p) + "?v=" + ver
  {
  }

  /** The run of extension characters from `i` ends at the first character
      that is not one. */
  lemma {:induction false} AlnumRunTo(q: string, i: nat, j: nat)
    requires i <= j <= |q|
    requires forall k :: i <= k < j ==> IsAlnum(q[k])
    requires j == |q| || !IsAlnum(q[j])
    ensures AlnumRun(q, i) == j - i
    decreases j - i
  {
    if i < j {
      AlnumRunTo(q, i + 1, j);
    }
  }

  /** The pattern matches at a dot followed by an extension that runs to the
      end or to a non-empty query string that does. */
  lemma ExtAtShape(q: string, i: nat, j: nat)
    requires i + 2 <= j <= |q| && q[i] == '.'
    requires forall k :: i < k < j ==> IsAlnum(q[k])
    requires j == |q| || (q[j] == '?' && j + 1 < |q| && AllQuery(q[j + 1..]))
    ensures ExtAt(q, i) == Some(j)
  {
    AlnumRunTo(q, i + 1, j);
  }

  /** Versioning a path whose query was stripped is versioning the path. */
  lemma StripThenVersion(p: string, ver: string)
    ensures Versioned(StripQuery(p), ver) == Versioned(p, ver)
  {
    match FindExt(p, 0)
    case None =>
    case Some((i, j)) =>
      var q := p[..j];
      ExtAtShape(q, i, j);
      FindExtAt(q, i, 0);
  }

  /** The query a versioned path carries is dropped again before hashing: the
      file whose version is taken is the same with or without it. */
  lemma VersionedStrips(p: string, ver: string)
    requires ver != [] && AllQuery(ver)
    ensures StripQuery(Versioned(p, ver)) == StripQuery(p)
  {
    match FindExt(p, 0)
    case None =>
    case Some((i, j)) =>
      var q := p[..j] + "?v=" + ver;
      var tail := "v=" + ver;
      assert q[j + 1..] == tail;
      assert AllQuery(tail) by {
        assert forall k :: 2 <= k < |tail| ==> tail[k] == ver[k - 2];
      }
      ExtAtShape(q, i, j);
      FindExtAt(q, i, 0);
      assert q[..j] == p[..j];
  }

  /** Every version is a value the query pattern accepts. */
  lemma VersionIsQuery(files: map<string, string>, md5: string -> HexDigest, path: string)
    ensures Version(files, md5, path) != [] && AllQuery(Version(files, md5, path))
  {
    if path in files {
      var v := Token(md5(files[path]));
      forall i | 0 <= i < |v| ensures IsQueryChar(v[i]) {
        var k := ParseHex(Groups(md5(files[path]))[i]) / 32 % 64;
        assert v[i] == B64Char(k);
      }
    }
  }

  // ---------------------------------------------------------------------
  // The memo table of versions

  /** `fileVersMap` / `fileVers`: the version of each path asked for, keyed by
      the path as given (with its query). `computed` records, in order, every
      path whose version was worked out. */
  class VersionCache {
    const files: map<string, string>
    const md5: string -> HexDigest
    var vers: map<string, string>
    ghost var computed: seq<string>

    ghost predicate Valid()
      reads this
    {
      && (forall k :: k in vers ==> vers[k] == Version(files, md5, StripQuery(k)))
      && (forall a, b :: 0 <= a < b < |computed| ==> computed[a] != computed[b])
      && (forall k :: k in vers <==> k in computed)
    }

    constructor(files: map<string, string>, md5: string -> HexDigest)
      ensures Valid()
      ensures this.files == files && this.md5 == md5
      ensures vers == map[] && computed == []
    {
      this.files := files;
      this.md5 := md5;
      vers := map[];
      computed := [];
    }

    /** `getVersionedUrl(path)`: the version is worked out on the first request
        for `path` only; every request gets the path with `?v=` and the version
        in place of its query. */
    method VersionedUrl(path: string) returns (url: string)
      requires Valid()
      modifies this
      ensures Valid()
      ensures url == Versioned(path, Version(files, md5, StripQuery(path)))
      ensures old(path in vers) ==> vers == old(vers) && computed == old(computed)
      ensures !old(path in vers) ==>
        && vers == old(vers)[path := Version(files, md5, StripQuery(path))]
        && computed == old(computed) + [path]
    {
      if path !in vers {
        var ver := FileVersion(files, md5, StripQuery(path));
        vers := vers[path := ver];
        computed := computed + [path];
      }
      url := Versioned(path, vers[path]);
    }
  }
}
