/**
 * cmd/main.go: which file a request is answered from in serve mode, and
 * where each file of the source tree goes in generate mode. File I/O, the
 * HTTP server and filepath.Walk are not modelled; filepath.Join and
 * filepath.Clean are parameters. filepath.Base is written out for Unix
 * paths, since isHidden depends on exactly what it returns.
 */
module Cli {
  import opened Strs

  const HtmlSuffix := ".html"
  const MdSuffix := ".md"

  /** The path without its trailing slashes. */
  function TrimTrailingSlashes(s: string): (r: string)
    ensures r == [] || r[|r| - 1] != '/'
    ensures |r| <= |s| && r == s[..|r|]
    ensures forall i :: |r| <= i < |s| ==> s[i] == '/'
  {
    if |s| > 0 && s[|s| - 1] == '/' then TrimTrailingSlashes(s[..|s| - 1]) else s
  }

  /** What follows the last slash (all of `s` when it has none). */
  function AfterLastSlash(s: string): (r: string)
    ensures '/' !in r
    ensures HasSuffix(s, r)
    ensures |r| < |s| ==> s[|s| - |r| - 1] == '/'
  {
    if s == [] || s[|s| - 1] == '/' then []
    else AfterLastSlash(s[..|s| - 1]) + [s[|s| - 1]]
  }

  /** filepath.Base on Unix: the last element; "." for "", "/" for a path of slashes. */
  function Base(path: string): (r: string)
    ensures |r| > 0
  {
    if path == [] then "."
    else
      var e := AfterLastSlash(TrimTrailingSlashes(path));
      if e == [] then "/" else e
  }

  /** isHidden: the base name starts with a dot. */
  predicate IsHidden(path: string) {
    Base(path)[0] == '.'
  }

  /** The base name of `dir/name` is `name`, whatever `dir` is. */
  lemma {:induction false} BaseOfJoin(dir: string, name: string)
    requires name != [] && '/' !in name
    ensures Base(dir + "/" + name) == name
  {
    var p := dir + "/" + name;
    assert p[|p| - 1] == name[|name| - 1];
    assert name[|name| - 1] in name;
    assert TrimTrailingSlashes(p) == p;
    AfterLastSlashOf(dir + "/", name);
  }

  lemma {:induction false} AfterLastSlashOf(dir: string, name: string)
    requires '/' !in name && |dir| > 0 && dir[|dir| - 1] == '/'
    ensures AfterLastSlash(dir + name) == name
    decreases |name|
  {
    if name == [] {
      assert dir + name == dir;
    } else {
      var s := dir + name;
      assert s[|s| - 1] == name[|name| - 1] && name[|name| - 1] in name;
      assert s[..|s| - 1] == dir + name[..|name| - 1];
      assert name == name[..|name| - 1] + [name[|name| - 1]];
      assert '/' !in name[..|name| - 1];
      AfterLastSlashOf(dir, name[..|name| - 1]);
      assert name[..|name| - 1] + [name[|name| - 1]] == name;
    }
  }

  /** A file or directory is hidden exactly when its own name starts with a dot. */
  lemma HiddenIff(dir: string, name: string)
    requires name != [] && '/' !in name
    ensures IsHidden(dir + "/" + name) <==> name[0] == '.'
  {
    BaseOfJoin(dir, name);
  }

  /** "." (what filepath.Clean makes of an empty directory flag) and "" count as hidden. */
  lemma CurrentDirHidden()
    ensures IsHidden(".") && IsHidden("")
  {
    assert AfterLastSlash(".") == AfterLastSlash([]) + ".";
  }

  // ---------------------------------------------------------------- serve mode

  datatype Response = NotFound | Render(file: string) | Copy(file: string)

  /** The path asked for, and whether it is copied as is, before it is joined under the source directory. */
  function Requested(urlPath: string, entry: string, join: (string, string) -> string): (string, bool) {
    var p := if urlPath == "" || urlPath == "/" then join("/", entry) else urlPath;
    if HasSuffix(p, HtmlSuffix) then
      var stem := p[..|p| - |HtmlSuffix|];
      (if HasSuffix(stem, MdSuffix) then stem else stem + MdSuffix, false)
    else if HasSuffix(p, MdSuffix) then (p, false)
    else (p, true)
  }

  /** A cleaned path is served only inside the source directory and when it is not hidden. */
  predicate Admitted(full: string, srcDir: string) {
    HasPrefix(full, srcDir) && !IsHidden(full)
  }

  function ServeTarget(urlPath: string, entry: string, srcDir: string,
                       join: (string, string) -> string, clean: string -> string): Response
  {
    var (p, copy) := Requested(urlPath, entry, join);
    var full := clean(join(srcDir, p));
    if !Admitted(full, srcDir) then NotFound else if copy then Copy(full) else Render(full)
  }

  /** The request handler's path mapping (reading the file and writing the answer are not modelled). */
  method ServePath(urlPath: string, entry: string, srcDir: string,
                   join: (string, string) -> string, clean: string -> string) returns (r: Response)
    ensures r == ServeTarget(urlPath, entry, srcDir, join, clean)
  {
    var path := urlPath;
    if path == "" || path == "/" {
      path := join("/", entry);
    }
    var directCopy := true;
    if HasSuffix(path, HtmlSuffix) {
      directCopy := false;
      path := path[..|path| - |HtmlSuffix|];
      if !HasSuffix(path, MdSuffix) {
        path := path + MdSuffix;
      }
    } else if HasSuffix(path, MdSuffix) {
      directCopy := false;
    }
    assert (path, directCopy) == Requested(urlPath, entry, join);
    path := clean(join(srcDir, path));
    if !HasPrefix(path, srcDir) || IsHidden(path) {
      return NotFound;
    }
    r := if directCopy then Copy(path) else Render(path);
  }

  /** A page asked for as `.html` is rendered from a `.md` file of the same stem. */
  lemma HtmlServedFromMarkdown(urlPath: string, entry: string, join: (string, string) -> string)
    requires urlPath != "" && urlPath != "/" && HasSuffix(urlPath, HtmlSuffix)
    ensures var (q, copy) := Requested(urlPath, entry, join);
      var stem := urlPath[..|urlPath| - |HtmlSuffix|];
      !copy && HasSuffix(q, MdSuffix) && (q == stem || q == stem + MdSuffix)
  {
    var stem := urlPath[..|urlPath| - |HtmlSuffix|];
    assert (stem + MdSuffix)[|stem + MdSuffix| - |MdSuffix|..] == MdSuffix;
  }

  /** The site root is the configured entry page. */
  lemma RootIsEntry(entry: string, srcDir: string, join: (string, string) -> string, clean: string -> string)
    requires join("/", entry) != "" && join("/", entry) != "/"
    ensures ServeTarget("", entry, srcDir, join, clean) == ServeTarget(join("/", entry), entry, srcDir, join, clean)
    ensures ServeTarget("/", entry, srcDir, join, clean) == ServeTarget(join("/", entry), entry, srcDir, join, clean)
  {
    assert Requested("", entry, join) == Requested(join("/", entry), entry, join);
    assert Requested("/", entry, join) == Requested(join("/", entry), entry, join);
  }

  /**
   * The three answers: Not Found outside the source directory or for a
   * hidden file; otherwise a rendered page for `.html` and `.md`, the file
   * itself for anything else.
   */
  lemma {:induction false} ServeCases(urlPath: string, entry: string, srcDir: string,
                                      join: (string, string) -> string, clean: string -> string)
    ensures var p := if urlPath == "" || urlPath == "/" then join("/", entry) else urlPath;
      var full := clean(join(srcDir, Requested(urlPath, entry, join).0));
      var r := ServeTarget(urlPath, entry, srcDir, join, clean);
      (r.NotFound? <==> !Admitted(full, srcDir)) &&
      (r.Render? <==> Admitted(full, srcDir) && (HasSuffix(p, HtmlSuffix) || HasSuffix(p, MdSuffix))) &&
      (r.Copy? <==> Admitted(full, srcDir) && !HasSuffix(p, HtmlSuffix) && !HasSuffix(p, MdSuffix)) &&
      (!r.NotFound? ==> r.file == full && HasPrefix(r.file, srcDir))
  {
  }

  // ------------------------------------------------------------- generate mode

  /** What the walk callback does with one path. */
  datatype Step = Skip | SkipDir | MakeDir(dir: string) | WriteHtml(dst: string) | WriteCopy(dst: string)

  function GenerateTarget(path: string, isDir: bool, srcDir: string, dstDir: string,
                          configPath: string, entryPath: string, join: (string, string) -> string): Step
  {
    if path == configPath then Skip
    else if isDir then
      if IsHidden(path) then SkipDir else MakeDir(ReplaceFirst(path, srcDir, dstDir))
    else if IsHidden(path) then Skip
    else if HasSuffix(path, MdSuffix) then
      if path == entryPath then WriteHtml(join(dstDir, "index.html"))
      else WriteHtml(ReplaceFirst(path + HtmlSuffix, srcDir, dstDir))
    else WriteCopy(ReplaceFirst(path, srcDir, dstDir))
  }

  /** The walk callback's path mapping (the walk itself, reading and writing are not modelled). */
  method GenerateStep(path: string, isDir: bool, srcDir: string, dstDir: string,
                      configPath: string, entryPath: string, join: (string, string) -> string)
    returns (s: Step)
    ensures s == GenerateTarget(path, isDir, srcDir, dstDir, configPath, entryPath, join)
  {
    if path == configPath {
      return Skip;
    }
    var hidden := IsHidden(path);
    if isDir {
      if hidden {
        return SkipDir;
      }
      var dir := ReplaceFirst(path, srcDir, dstDir);
      return MakeDir(dir);
    } else if hidden {
      return Skip;
    }
    var p := path;
    if HasSuffix(p, MdSuffix) {
      if p == entryPath {
        p := join(dstDir, "index.html");
      } else {
        p := p + HtmlSuffix;
        p := ReplaceFirst(p, srcDir, dstDir);
      }
      return WriteHtml(p);
    }
    p := ReplaceFirst(p, srcDir, dstDir);
    s := WriteCopy(p);
  }

  /** Under the source directory, every destination is the same relative path under the destination directory. */
  lemma DestinationMirrorsSource(path: string, isDir: bool, srcDir: string, dstDir: string,
                                 configPath: string, entryPath: string, join: (string, string) -> string)
    requires HasPrefix(path, srcDir) && path != configPath && !IsHidden(path)
    requires !(HasSuffix(path, MdSuffix) && path == entryPath && !isDir)
    ensures var s := GenerateTarget(path, isDir, srcDir, dstDir, configPath, entryPath, join);
      var rel := path[|srcDir|..];
      if isDir then s == MakeDir(dstDir + rel)
      else if HasSuffix(path, MdSuffix) then s == WriteHtml(dstDir + rel + HtmlSuffix)
      else s == WriteCopy(dstDir + rel)
  {
    if isDir || !HasSuffix(path, MdSuffix) {
      ReplacePrefix(path, srcDir, dstDir);
    } else {
      MarkdownDestination(path, srcDir, dstDir);
    }
  }

  lemma MarkdownDestination(path: string, srcDir: string, dstDir: string)
    requires HasPrefix(path, srcDir)
    ensures ReplaceFirst(path + HtmlSuffix, srcDir, dstDir) == dstDir + path[|srcDir|..] + HtmlSuffix
  {
    var q := path + HtmlSuffix;
    assert HasPrefix(q, srcDir) by { assert q[..|srcDir|] == path[..|srcDir|]; }
    ReplacePrefix(q, srcDir, dstDir);
    assert q[|srcDir|..] == path[|srcDir|..] + HtmlSuffix;
  }

  /** The entry page becomes index.html of the destination directory. */
  lemma EntryBecomesIndex(srcDir: string, dstDir: string, configPath: string, entryPath: string,
                          join: (string, string) -> string)
    requires entryPath != configPath && !IsHidden(entryPath) && HasSuffix(entryPath, MdSuffix)
    ensures GenerateTarget(entryPath, false, srcDir, dstDir, configPath, entryPath, join) == WriteHtml(join(dstDir, "index.html"))
  {
  }

  /** The configuration, hidden directories (with all they hold) and hidden files produce nothing. */
  lemma SkippedPaths(path: string, isDir: bool, srcDir: string, dstDir: string,
                     configPath: string, entryPath: string, join: (string, string) -> string)
    ensures path == configPath ==> GenerateTarget(path, isDir, srcDir, dstDir, configPath, entryPath, join) == Skip
    ensures path != configPath && IsHidden(path) ==>
      GenerateTarget(path, isDir, srcDir, dstDir, configPath, entryPath, join) == (if isDir then SkipDir else Skip)
  {
  }

  /**
   * The walk starts at the source directory itself, so a source directory
   * whose own name starts with a dot, "." included, is skipped whole.
   */
  lemma HiddenSourceSkipped(srcDir: string, dstDir: string, configPath: string, entryPath: string,
                            join: (string, string) -> string)
    requires srcDir != configPath && (srcDir == "." || IsHidden(srcDir))
    ensures GenerateTarget(srcDir, true, srcDir, dstDir, configPath, entryPath, join) == SkipDir
  {
    CurrentDirHidden();
  }
}
