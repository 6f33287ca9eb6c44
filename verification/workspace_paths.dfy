/** Mapping between local paths, workspace paths and exported file names. */
module WorkspacePaths {
  import opened Base
  import opened Text
  import opened PosixPath
  import opened Failures

  /** One leading `./` removed, as done for every extra segment of a workspace path. */
  function DropDotSlash(x: string): (r: string)
    ensures StartsWith(x, "./") ==> "./" + r == x
    ensures !StartsWith(x, "./") ==> r == x
  {
    if StartsWith(x, "./") then x[2..] else x
  }

  /** `mk_workspace_path(s, *extra)` where `root` is the configured default root:
      an absolute `s` is kept, a relative one is joined under the root, and the extra
      segments (each without one leading `./`) are joined on with `os.path.join`. */
  function MkWorkspacePath(root: string, s: string, extra: seq<string>): (r: string)
    ensures extra == [] && IsAbsolute(s) ==> r == s
    ensures extra == [] && !IsAbsolute(s) ==> r == Join(root, s)
    ensures extra != [] ==> EndsWith(r, DropDotSlash(extra[|extra| - 1]))
  {
    var pathRoot := if IsAbsolute(s) then s else Join(root, s);
    var additional := seq(|extra|, i requires 0 <= i < |extra| => DropDotSlash(extra[i]));
    if |additional| > 0 then
      assert additional[|additional| - 1] == DropDotSlash(extra[|extra| - 1]);
      JoinAll(pathRoot, additional)
    else pathRoot
  }

  /** With an absolute (or empty) default root, mapping a workspace path a second
      time changes nothing. */
  lemma MkWorkspacePathIdempotent(root: string, s: string)
    requires root == "" || IsAbsolute(root)
    ensures var p := MkWorkspacePath(root, s, []); MkWorkspacePath(root, p, []) == p
  {
    var p := MkWorkspacePath(root, s, []);
    if !IsAbsolute(s) && root != "" {
      assert StartsWith(p, root);
      assert p[..1] == root[..1];
    }
  }

  /** With a relative default root the root is prepended again on a second mapping:
      mapping `b` under `a` gives `a/b`, and mapping that again gives `a/a/b`. */
  lemma RelativeRootPrefixesTwice(root: string, s: string)
    requires root != "" && !IsAbsolute(root) && !EndsWith(root, "/")
    requires !IsAbsolute(s)
    ensures MkWorkspacePath(root, s, []) == root + "/" + s
    ensures MkWorkspacePath(root, MkWorkspacePath(root, s, []), []) == root + "/" + root + "/" + s
  {
    var once := root + "/" + s;
    assert once[..1] == root[..1];
    assert (root + "/" + once) == root + "/" + root + "/" + s;
  }


  /** A workspace folder and a relative name under it map to `folder/name`. */
  lemma MkWorkspacePathChild(root: string, folder: string, name: string)
    requires IsAbsolute(folder) && !EndsWith(folder, "/")
    requires !IsAbsolute(name) && !StartsWith(name, "./")
    ensures MkWorkspacePath(root, folder, [name]) == folder + "/" + name
  {
    assert folder != "";
    var additional := seq(1, i requires 0 <= i < 1 => DropDotSlash([name][i]));
    assert additional == [name];
    assert JoinAll(folder, [name]) == JoinAll(Join(folder, name), []);
  }

  /** `adjust_local_paths(fpath, args)`: rejects a directory part that starts with
      `..`; in recursive mode rewrites the directory `.` to `./**/`; with `absolute`
      re-roots a `./` path at the working directory `cwd`. */
  function AdjustLocalPaths(fpath: string, recursive: bool, absolute: bool, cwd: string): (r: Result<string, SyncError>)
    ensures r.Err? <==> StartsWith(Dirname(fpath), "..")
    ensures r.Ok? ==> EndsWith(r.value, Basename(fpath))
    ensures r.Ok? && recursive && !absolute && Dirname(fpath) == "." ==> r.value == "./**/" + Basename(fpath)
    ensures r.Ok? && recursive && absolute && Dirname(fpath) == "." ==> r.value == Join(cwd, "**/" + Basename(fpath))
    ensures Dirname(fpath) == "" ==> r == Ok(fpath)
    ensures r.Ok? && EndsWith(Dirname(fpath), "/") ==> r.value == Dirname(fpath) + Basename(fpath)
    ensures var dir := Dirname(fpath); var joined := dir + "/" + Basename(fpath);
      r.Ok? && !(recursive && dir == ".") && dir != "" && !EndsWith(dir, "/") ==>
        r.value == if absolute && StartsWith(joined, "./") then Join(cwd, joined[2..]) else joined
  {
    var localDir := Dirname(fpath);
    if StartsWith(localDir, "..") then Err(ParentPathNotSupported(fpath))
    else
      var dir := if localDir == "." && recursive then "./**/" else localDir;
      var patt := Basename(fpath);
      DirnameEdges(fpath);
      RejoinRecursiveDot(patt, absolute, cwd);
      RejoinSlashFolder(localDir, patt, absolute, cwd);
      Ok(RejoinLocal(dir, patt, absolute, cwd))
  }

  /** With absolute paths asked for, the recursive pattern `./**/` is re-rooted at `cwd`. */
  lemma RejoinRecursiveDot(patt: string, absolute: bool, cwd: string)
    requires '/' !in patt
    ensures absolute ==> RejoinLocal("./**/", patt, absolute, cwd) == Join(cwd, "**/" + patt)
  {
    assert ("./**/" + patt)[..2] == "./" && ("./**/" + patt)[2..] == "**/" + patt;
  }

  /** An absolute folder ending with `/` is kept as it is, with the pattern appended. */
  lemma RejoinSlashFolder(dir: string, patt: string, absolute: bool, cwd: string)
    requires '/' !in patt
    ensures IsAbsolute(dir) && EndsWith(dir, "/") ==> RejoinLocal(dir, patt, absolute, cwd) == dir + patt
  {
    var joined := dir + patt;
    if IsAbsolute(dir) {
      assert joined[0] == '/';
      assert !StartsWith(joined, "./") by {
        assert |joined| >= 2 ==> joined[..2][0] == '/';
      }
    }
  }

  /** A path without a folder is its own base name, and a folder that ends with `/`
      consists of slashes only, so it is absolute. */
  lemma DirnameEdges(p: string)
    ensures Dirname(p) == "" ==> Basename(p) == p
    ensures EndsWith(Dirname(p), "/") ==> IsAbsolute(Dirname(p))
  {
    var r := Split(p);
    if r.0 == "" {
      assert '/' !in p;
    }
    if EndsWith(r.0, "/") {
      var before := p[..|p| - |r.1|];
      assert r.0 != "" && r.0[|r.0| - 1] == '/';
      assert AllSlashes(before);
      assert r.0 == before && before[0] == '/';
    }
  }

  /** The second half of `adjust_local_paths`: join the (possibly rewritten)
      directory and the pattern, then re-root a `./` path at `cwd` when asked. */
  function RejoinLocal(dir: string, patt: string, absolute: bool, cwd: string): (r: string)
    requires '/' !in patt
    ensures EndsWith(r, patt)
    ensures dir == "./**/" && !absolute ==> r == "./**/" + patt
    ensures dir == "" ==> r == patt
    ensures dir != "" && !EndsWith(dir, "/") ==> var joined := dir + "/" + patt;
      r == if absolute && StartsWith(joined, "./") then Join(cwd, joined[2..]) else joined
    ensures EndsWith(dir, "/") ==> var joined := dir + patt;
      r == if absolute && StartsWith(joined, "./") then Join(cwd, joined[2..]) else joined
  {
    var localPath := Join(dir, patt);
    NotAbsoluteWithoutSlash(patt);
    assert EndsWith("./**/", "/");
    JoinedLocalPathTail(dir, patt);
    if StartsWith(localPath, "./") && absolute then
      var rest := localPath[2..];
      EndsWithTrans(Join(cwd, rest), rest, patt);
      Join(cwd, rest)
    else
      localPath
  }

  lemma NotAbsoluteWithoutSlash(name: string)
    requires '/' !in name
    ensures !IsAbsolute(name)
  {
    assert name != [] ==> name[0] in name;
  }

  /** A joined local path that starts with `./` still ends with the whole name once
      that `./` is cut off. */
  lemma JoinedLocalPathTail(dir: string, name: string)
    requires '/' !in name
    ensures var p := Join(dir, name); !StartsWith(p, "./") || EndsWith(p[2..], name)
  {
    var p := Join(dir, name);
    NotAbsoluteWithoutSlash(name);
    if dir == "" {
      assert |name| >= 2 ==> name[1] in name;
    } else if EndsWith(dir, "/") {
      if |dir| == 1 {
        assert p[0] == '/';
      } else {
        assert p[2..] == dir[2..] + name;
      }
    } else {
      assert p[2..] == (dir + "/")[2..] + name;
    }
  }

  // ---------------------------------------------------------------------------
  // Local file names for exported notebooks

  /** The language-to-extension map of the exporter. */
  function LanguageExtension(language: string): (ext: Option<string>)
    ensures ext.Some? <==> language in {"R", "PYTHON", "SCALA"}
  {
    if language == "R" then Some(".r")
    else if language == "PYTHON" then Some(".py")
    else if language == "SCALA" then Some(".scala")
    else None
  }

  /** The extension an export in `format` gets: by format for DBC and HTML, by
      language for SOURCE and JUPYTER, none for any other format. */
  function FormatExtension(language: string, format: string): Result<string, SyncError> {
    if format == "DBC" then Ok(".dbc")
    else if format == "HTML" then Ok(".html")
    else if format == "SOURCE" || format == "JUPYTER" then
      match LanguageExtension(language)
      case Some(ext) => Ok(ext)
      case None => Err(UnknownLanguage(language))
    else Ok("")
  }

  /** The character a parenthesis becomes in a local file name. */
  function Underscored(c: char): char {
    if c == '(' || c == ')' then '_' else c
  }

  /** `mk_local_file_from_notebook(path, language, format)`: the notebook path with
      its extension appended, every `(` and `)` then replaced by `_`. */
  function MkLocalFileFromNotebook(path: string, language: string, format: string): (r: Result<string, SyncError>)
    ensures r.Err? <==> (format == "SOURCE" || format == "JUPYTER") && LanguageExtension(language).None?
    ensures r.Ok? ==> '(' !in r.value && ')' !in r.value
    ensures r.Ok? ==> var full := path + FormatExtension(language, format).value;
      |r.value| == |full| && forall i | 0 <= i < |full| :: r.value[i] == Underscored(full[i])
  {
    var ext :- FormatExtension(language, format);
    var output := path + ext;
    var r := ReplaceAll(ReplaceAll(output, "(", "_"), ")", "_");
    assert r == ReplaceChar(ReplaceChar(output, '(', "_"), ')', "_") by {
      ReplaceAllOneChar(output, '(', "_");
      ReplaceAllOneChar(ReplaceChar(output, '(', "_"), ')', "_");
    }
    ReplaceCharRemoves(output, '(', '_');
    ReplaceCharRemoves(ReplaceChar(output, '(', "_"), ')', '_');
    assert '(' !in r by {
      ReplaceCharKeepsOthers(ReplaceChar(output, '(', "_"), ')', '_', '(');
    }
    UnderscoredPointwise(output);
    Ok(r)
  }

  lemma {:induction false} ReplaceCharKeepsOthers(s: string, c: char, d: char, e: char)
    requires e != c && e != d && e !in s
    ensures e !in ReplaceChar(s, c, [d])
    decreases |s|
  {
    if s != [] {
      assert e !in s[1..];
      ReplaceCharKeepsOthers(s[1..], c, d, e);
    }
  }

  lemma {:induction false} UnderscoredPointwise(s: string)
    ensures var r := ReplaceChar(ReplaceChar(s, '(', "_"), ')', "_");
      |r| == |s| && forall i | 0 <= i < |s| :: r[i] == Underscored(s[i])
    decreases |s|
  {
    if s != [] {
      UnderscoredPointwise(s[1..]);
      var h := if s[0] == '(' then "_" else [s[0]];
      assert ReplaceChar(s, '(', "_") == h + ReplaceChar(s[1..], '(', "_");
      ReplaceCharAppend(h, ReplaceChar(s[1..], '(', "_"), ')', "_");
    }
  }

  // ---------------------------------------------------------------------------
  // Shell escaping

  /** The escape sequence `escaped_file` writes for one character. */
  function EscapeChar(c: char): string {
    if c == ' ' then "\\ "
    else if c in {'?', '[', ']', '(', ')', '*'} then "\\\\" + [c]
    else [c]
  }

  /** `s` with every character replaced by its escape sequence. */
  function EscapeAll(s: string): string
    decreases |s|
  {
    if s == [] then [] else EscapeChar(s[0]) + EscapeAll(s[1..])
  }

  /** The replacements of `escaped_file`, in the order they are applied. */
  const Escapes: seq<(char, string)> := [
    (' ', "\\ "), ('?', "\\\\?"), ('[', "\\\\["), (']', "\\\\]"),
    ('(', "\\\\("), (')', "\\\\)"), ('*', "\\\\*")
  ]

  /** The replacements applied one after the other, each to the whole string. */
  function ReplaceEach(s: string, steps: seq<(char, string)>): string
    decreases |steps|
  {
    if steps == [] then s else ReplaceEach(ReplaceAll(s, [steps[0].0], steps[0].1), steps[1..])
  }

  /** `escaped_file(path)`: a chain of `replace` calls. Since no replacement text
      holds a character a later step replaces, the chain escapes every character
      independently. */
  function EscapedFile(path: string): (r: string)
    ensures r == EscapeAll(path)
  {
    EscapeChainPerChar(path);
    ReplaceEach(path, Escapes)
  }

  lemma {:induction false} ReplaceEachAppend(a: string, b: string, steps: seq<(char, string)>)
    ensures ReplaceEach(a + b, steps) == ReplaceEach(a, steps) + ReplaceEach(b, steps)
    decreases |steps|
  {
    if steps != [] {
      var (c, rep) := steps[0];
      ReplaceAllOneChar(a + b, c, rep);
      ReplaceAllOneChar(a, c, rep);
      ReplaceAllOneChar(b, c, rep);
      ReplaceCharAppend(a, b, c, rep);
      ReplaceEachAppend(ReplaceChar(a, c, rep), ReplaceChar(b, c, rep), steps[1..]);
    }
  }

  /** Steps whose characters do not occur in `s` leave it unchanged. */
  lemma {:induction false} ReplaceEachAbsent(s: string, steps: seq<(char, string)>)
    requires forall i | 0 <= i < |steps| :: steps[i].0 !in s
    ensures ReplaceEach(s, steps) == s
    decreases |steps|
  {
    if steps != [] {
      ReplaceAllOneChar(s, steps[0].0, steps[0].1);
      ReplaceCharAbsent(s, steps[0].0, steps[0].1);
      ReplaceEachAbsent(s, steps[1..]);
    }
  }

  /** A one-character string goes through the chain as the replacement of the one
      step that targets it, provided no earlier step targets it and no later step
      targets a character of that replacement. */
  lemma ReplaceEachSingle(c: char, steps: seq<(char, string)>, k: nat)
    requires k < |steps| && steps[k].0 == c
    requires forall i | 0 <= i < k :: steps[i].0 != c
    requires forall i | k < i < |steps| :: steps[i].0 !in steps[k].1
    ensures ReplaceEach([c], steps) == steps[k].1
  {
    var rep := steps[k].1;
    assert forall i | 0 <= i < k :: steps[..k][i].0 !in [c];
    ReplaceEachAbsent([c], steps[..k]);
    ReplaceEachSplit([c], steps, k);
    ReplaceAllOneChar([c], c, rep);
    assert ReplaceChar([c], c, rep) == rep + ReplaceChar([], c, rep);
    assert ReplaceAll([c], [c], rep) == rep;
    var later := steps[k + 1..];
    assert steps[k..][0] == steps[k] && steps[k..][1..] == later;
    assert ReplaceEach([c], steps[k..]) == ReplaceEach(rep, later);
    assert forall i | 0 <= i < |later| :: later[i].0 !in rep by {
      forall i | 0 <= i < |later| ensures later[i].0 !in rep {
        assert later[i] == steps[k + 1 + i];
      }
    }
    ReplaceEachAbsent(rep, later);
  }

  lemma EscapeOneChar(c: char)
    ensures ReplaceEach([c], Escapes) == EscapeChar(c)
  {
    if k :| 0 <= k < |Escapes| && Escapes[k].0 == c {
      EscapeListed(c, k);
    } else {
      ReplaceEachAbsent([c], Escapes);
    }
  }

  /** A character with a replacement is replaced by its escape sequence. */
  lemma EscapeListed(c: char, k: nat)
    requires k < |Escapes| && Escapes[k].0 == c
    ensures ReplaceEach([c], Escapes) == EscapeChar(c)
  {
    ReplaceEachSingle(c, Escapes, k);
  }

  lemma {:induction false} ReplaceEachSplit(s: string, steps: seq<(char, string)>, k: nat)
    requires k <= |steps|
    ensures ReplaceEach(s, steps) == ReplaceEach(ReplaceEach(s, steps[..k]), steps[k..])
    decreases k
  {
    if k > 0 {
      assert steps[1..][..k - 1] == steps[1..k];
      assert steps[1..][k - 1..] == steps[k..];
      ReplaceEachSplit(ReplaceAll(s, [steps[0].0], steps[0].1), steps[1..], k - 1);
    } else {
      assert steps[..0] == [] && steps[0..] == steps;
    }
  }

  lemma {:induction false} EscapeChainPerChar(s: string)
    ensures ReplaceEach(s, Escapes) == EscapeAll(s)
    decreases |s|
  {
    if s != [] {
      assert s == [s[0]] + s[1..];
      ReplaceEachAppend([s[0]], s[1..], Escapes);
      EscapeOneChar(s[0]);
      EscapeChainPerChar(s[1..]);
    } else {
      ReplaceEachAbsent(s, Escapes);
    }
  }
}
