/**
  searchFiles and the match-and-format loop of the search handler.  The
  directory walk is taken as the sequence of callback invocations
  filepath.Walk makes, in its lexical order; reading and parsing a file is a
  given function from path to outcome.
 */
module FileSearch {
  import opened Wrappers
  import opened GoStrings
  import opened TextExtract

  /** One call of the walk callback: a visited path, or a path whose Lstat or ReadDir failed. */
  datatype WalkEntry = Visit(path: string, isDir: bool) | WalkFailure(path: string)

  /** The failures that abort a search, each with the path it happened at. */
  datatype SearchError = WalkError(path: string) | PatternError(path: string) | ReadError(path: string) | ParseError(path: string)

  /** filepath.Match applied with a fixed pattern: None stands for ErrBadPattern. */
  type Matcher = string -> Option<bool>

  // ---------------------------------------------------------------- base names

  function TrimTrailingSlashes(s: string): (r: string)
    ensures r == [] || r[|r| - 1] != '/'
    ensures |r| <= |s| && r == s[..|r|]
    decreases |s|
  {
    if |s| > 0 && s[|s| - 1] == '/' then TrimTrailingSlashes(s[..|s| - 1]) else s
  }

  /** The characters after the last '/', all of `s` when it has none. */
  function LastElement(s: string): (r: string)
    ensures '/' !in r
    ensures |r| <= |s| && r == s[|s| - |r|..]
    ensures |r| == |s| || s[|s| - |r| - 1] == '/'
    ensures s != [] && s[|s| - 1] != '/' ==> r != []
    decreases |s|
  {
    if s == [] || s[|s| - 1] == '/' then []
    else LastElement(s[..|s| - 1]) + [s[|s| - 1]]
  }

  /**
    filepath.Base with '/' as the separator: "." for "", "/" for a path of
    slashes only, otherwise the last element once trailing slashes are gone.
   */
  function Base(path: string): (b: string)
    ensures b != []
    ensures b == "/" || '/' !in b
  {
    if path == [] then "."
    else
      var t := TrimTrailingSlashes(path);
      if t == [] then "/" else LastElement(t)
  }

  /**
    What Base returns: "." for "", "/" for a path of slashes only, and
    otherwise the whole '/'-free tail of the path once trailing slashes are gone.
   */
  lemma BaseElement(path: string)
    ensures path == [] ==> Base(path) == "."
    ensures path != [] && TrimTrailingSlashes(path) == [] ==> Base(path) == "/"
    ensures var t := TrimTrailingSlashes(path); var b := Base(path);
      t != [] ==> '/' !in b && HasSuffix(t, b) && (|b| == |t| || t[|t| - |b| - 1] == '/')
  {
    if path != [] {
      var t := TrimTrailingSlashes(path);
      if t != [] {
        var b := LastElement(t);
        assert Base(path) == b;
        assert HasSuffix(t, b);
      }
    }
  }

  /** The base of a path that ends in "/name" is that name. */
  lemma BaseOfChild(dir: string, name: string)
    requires name != [] && '/' !in name
    ensures Base(dir + "/" + name) == name
  {
    var p := dir + "/" + name;
    assert p[|p| - 1] == name[|name| - 1];
    assert TrimTrailingSlashes(p) == p;
    var b := Base(p);
    BaseElement(p);
    assert p[|p| - |name|..] == name;
    assert p[|p| - |name| - 1] == '/';
  }

  // ---------------------------------------------------------------- glob patterns

  /**
    filepath.Match for patterns made of literal characters and '*', where '*'
    matches any run of characters other than '/'.
   */
  function Glob(pattern: string, name: string): bool
    ensures Glob(pattern, name) && '/' in name ==> '/' in pattern
    decreases |pattern| + |name|
  {
    if pattern == [] then name == []
    else if pattern[0] == '*' then
      Glob(pattern[1..], name) || (name != [] && name[0] != '/' && Glob(pattern, name[1..]))
    else name != [] && name[0] == pattern[0] && Glob(pattern[1..], name[1..])
  }

  /** A pattern without '*' matches only itself. */
  lemma {:induction false} GlobLiteral(lit: string, name: string)
    requires '*' !in lit
    ensures Glob(lit, name) <==> name == lit
    decreases |lit|
  {
    if lit != [] && name != [] {
      GlobLiteral(lit[1..], name[1..]);
      assert name == [name[0]] + name[1..];
      assert lit == [lit[0]] + lit[1..];
    }
  }

  /** `*` followed by a literal matches exactly the slash-free names ending in that literal. */
  lemma {:induction false} GlobStarSuffix(lit: string, name: string)
    requires '*' !in lit && '/' !in name
    ensures Glob("*" + lit, name) <==> HasSuffix(name, lit)
    decreases |name|
  {
    var p := "*" + lit;
    assert p[1..] == lit;
    GlobLiteral(lit, name);
    if name != [] {
      GlobStarSuffix(lit, name[1..]);
      if |lit| <= |name[1..]| {
        assert name[|name| - |lit|..] == name[1..][|name[1..]| - |lit|..];
      }
      if HasSuffix(name, lit) && |lit| == |name| {
        assert name == lit;
      }
    }
  }

  const HtmlPattern: string := "*.html"

  /** The matcher searchFiles is called with: the pattern "*.html", which never fails. */
  function HtmlMatch(name: string): Option<bool> {
    Some(Glob(HtmlPattern, name))
  }

  /** "*.html" accepts exactly the base names that end in ".html". */
  lemma HtmlMatchIsSuffix(path: string)
    ensures HtmlMatch(Base(path)) == Some(HasSuffix(Base(path), ".html"))
  {
    var b := Base(path);
    assert HtmlPattern == "*" + ".html";
    if b == "/" {
      assert !Glob(".html", "/");
      assert !Glob(HtmlPattern, "/") by {
        assert "/"[0] == '/';
        assert HtmlPattern[1..] == ".html";
      }
    } else {
      GlobStarSuffix(".html", b);
    }
  }

  // ---------------------------------------------------------------- searchFiles

  /** The error the callback returns for an entry, if any. */
  function EntryError(e: WalkEntry, m: Matcher): Option<SearchError> {
    match e
    case WalkFailure(p) => Some(WalkError(p))
    case Visit(p, isDir) => if !isDir && m(Base(p)).None? then Some(PatternError(p)) else None
  }

  /** The entry is a file whose base name the pattern accepts. */
  predicate Kept(e: WalkEntry, m: Matcher) {
    e.Visit? && !e.isDir && m(Base(e.path)) == Some(true)
  }

  /** What searchFiles returns for a walk: the first error, or the kept paths in walk order. */
  function Candidates(walk: seq<WalkEntry>, m: Matcher): (r: Result<seq<string>, SearchError>)
    ensures r.Failure? ==> r.error.WalkError? || r.error.PatternError?
    decreases |walk|
  {
    if walk == [] then Success([])
    else match EntryError(walk[0], m)
      case Some(err) => Failure(err)
      case None => Prepend(Listed(walk[0], m), Candidates(walk[1..], m))
  }

  /** What one entry that does not fail contributes: its path when it is kept, else nothing. */
  function Listed(e: WalkEntry, m: Matcher): seq<string> {
    if Kept(e, m) then [e.path] else []
  }


  /** Puts `front` before a successful list; a failure stays as it is. */
  function Prepend(front: seq<string>, r: Result<seq<string>, SearchError>): Result<seq<string>, SearchError> {
    match r
    case Success(v) => Success(front + v)
    case Failure(e) => Failure(e)
  }

  lemma PrependEmpty(r: Result<seq<string>, SearchError>)
    ensures Prepend([], r) == r
  {
    if r.Success? {
      assert [] + r.value == r.value;
    }
  }

  lemma AppendAssoc(x: seq<string>, y: seq<string>, z: seq<string>)
    ensures x + (y + z) == (x + y) + z
  {
  }

  lemma PrependTwice(a: seq<string>, b: seq<string>, r: Result<seq<string>, SearchError>)
    ensures Prepend(a, Prepend(b, r)) == Prepend(a + b, r)
  {
    if r.Success? {
      AppendAssoc(a, b, r.value);
    }
  }

  /** searchFiles: the walk callback appends kept paths and aborts the walk on an error. */
  method SearchFiles(walk: seq<WalkEntry>, m: Matcher) returns (r: Result<seq<string>, SearchError>)
    ensures r == Candidates(walk, m)
  {
    var matches: seq<string> := [];
    assert walk[0..] == walk;
    PrependEmpty(Candidates(walk, m));
    for i := 0 to |walk|
      invariant Candidates(walk, m) == Prepend(matches, Candidates(walk[i..], m))
    {
      assert walk[i..][1..] == walk[i + 1..];
      var e := walk[i];
      PrependTwice(matches, Listed(e, m), Candidates(walk[i + 1..], m));
      assert matches + [] == matches;
      if e.WalkFailure? {
        return Failure(WalkError(e.path));
      }
      if !e.isDir {
        var matched := m(Base(e.path));
        if matched.None? {
          return Failure(PatternError(e.path));
        } else if matched.value {
          matches := matches + [e.path];
        }
      }
    }
    assert walk[|walk|..] == [];
    assert matches + [] == matches;
    return Success(matches);
  }

  /**
    searchFiles fails exactly when some entry fails, and then with the error
    of the first failing entry; no partial list is returned.
   */
  lemma CandidatesFailure(walk: seq<WalkEntry>, m: Matcher)
    ensures Candidates(walk, m).Failure? <==>
      exists i :: 0 <= i < |walk| && EntryError(walk[i], m).Some?
    ensures Candidates(walk, m).Failure? ==>
      exists i :: 0 <= i < |walk| && EntryError(walk[i], m) == Some(Candidates(walk, m).error) &&
        forall j :: 0 <= j < i ==> EntryError(walk[j], m).None?
  {
    CandidatesFailsIff(walk, m);
    CandidatesFirstError(walk, m);
  }

  lemma {:induction false} CandidatesFailsIff(walk: seq<WalkEntry>, m: Matcher)
    ensures Candidates(walk, m).Failure? <==>
      exists i :: 0 <= i < |walk| && EntryError(walk[i], m).Some?
    decreases |walk|
  {
    if walk != [] && EntryError(walk[0], m).None? {
      CandidatesFailsIff(walk[1..], m);
      assert forall i :: 1 <= i < |walk| ==> walk[i] == walk[1..][i - 1];
    }
  }

  lemma {:induction false} CandidatesFirstError(walk: seq<WalkEntry>, m: Matcher)
    ensures Candidates(walk, m).Failure? ==>
      exists i :: 0 <= i < |walk| && EntryError(walk[i], m) == Some(Candidates(walk, m).error) &&
        forall j :: 0 <= j < i ==> EntryError(walk[j], m).None?
    decreases |walk|
  {
    if walk != [] && EntryError(walk[0], m).None? {
      CandidatesFirstError(walk[1..], m);
      if Candidates(walk, m).Failure? {
        var i :| 0 <= i < |walk[1..]| && EntryError(walk[1..][i], m) == Some(Candidates(walk, m).error) &&
          forall j :: 0 <= j < i ==> EntryError(walk[1..][j], m).None?;
        assert EntryError(walk[i + 1], m) == Some(Candidates(walk, m).error);
        assert forall j :: 1 <= j < i + 1 ==> walk[j] == walk[1..][j - 1];
      }
    }
  }

  /**
    A successful search holds exactly the paths of the kept entries: a
    directory, or a file whose base name does not match, is never listed.
   */
  lemma {:induction false} CandidatesMembers(walk: seq<WalkEntry>, m: Matcher, x: string)
    requires Candidates(walk, m).Success?
    ensures x in Candidates(walk, m).value <==>
      exists i :: 0 <= i < |walk| && Kept(walk[i], m) && walk[i].path == x
    decreases |walk|
  {
    if walk != [] {
      CandidatesMembers(walk[1..], m, x);
      assert forall i :: 1 <= i < |walk| ==> walk[i] == walk[1..][i - 1];
      if exists i :: 0 <= i < |walk| && Kept(walk[i], m) && walk[i].path == x {
        var i :| 0 <= i < |walk| && Kept(walk[i], m) && walk[i].path == x;
        if i > 0 {
          assert Kept(walk[1..][i - 1], m);
        }
      }
    }
  }

  /**
    Walk order is kept: the result for a walk split in two is the result for
    the first part followed by the result for the second.
   */
  /** A single entry that does not fail lists its path exactly when it is kept. */
  lemma CandidatesSingle(e: WalkEntry, m: Matcher)
    ensures EntryError(e, m).None? ==> Candidates([e], m) == Success(if Kept(e, m) then [e.path] else [])
  {
    assert [e][1..] == [];
    var front := Listed(e, m);
    assert front + [] == front;
  }

  lemma {:induction false} CandidatesInWalkOrder(a: seq<WalkEntry>, b: seq<WalkEntry>, m: Matcher)
    requires Candidates(a, m).Success? && Candidates(b, m).Success?
    ensures Candidates(a + b, m) == Success(Candidates(a, m).value + Candidates(b, m).value)
    decreases |a|
  {
    if a == [] {
      assert a + b == b;
      assert [] + Candidates(b, m).value == Candidates(b, m).value;
    } else {
      var ab := a + b;
      assert ab[1..] == a[1..] + b;
      assert ab[0] == a[0];
      CandidatesInWalkOrder(a[1..], b, m);
      var front := Listed(a[0], m);
      var va, vb := Candidates(a[1..], m).value, Candidates(b, m).value;
      AppendAssoc(front, va, vb);
    }
  }

  // ---------------------------------------------------------------- matching and formatting

  /** The outcome of ioutil.ReadFile followed by html.Parse for one file. */
  datatype Loaded = Unreadable | Unparsable | Parsed(doc: HtmlNode)

  type Loader = string -> Loaded

  /** The link path for a matched file: "/static/" + its path below the corpus, with '/' separators. */
  function FormatResult(file: string, dir: string): (r: string)
    ensures HasPrefix(r, "/static/")
    ensures '\\' !in r
    ensures HasPrefix(file, dir) ==> r == "/static/" + ReplaceAll(file[|dir|..], '\\', '/')
    ensures !HasPrefix(file, dir) ==> r == "/static/" + ReplaceAll(file, '\\', '/')
  {
    var r := "/static/" + ReplaceAll(TrimPrefix(file, dir), '\\', '/');
    assert r[..8] == "/static/";
    r
  }

  /** The document's text contains the (already lower-cased) query, ignoring case. */
  predicate Matches(doc: HtmlNode, lowerQuery: string) {
    Contains(ToLower(DocText(doc)), lowerQuery)
  }

  /** The error a file's load outcome aborts with, if any. */
  function LoadError(file: string, l: Loaded): Option<SearchError> {
    match l
    case Unreadable => Some(ReadError(file))
    case Unparsable => Some(ParseError(file))
    case Parsed(_) => None
  }

  predicate Hit(file: string, lowerQuery: string, load: Loader) {
    load(file).Parsed? && Matches(load(file).doc, lowerQuery)
  }

  /** The results of the match loop: the first load error, or the matching files' links in file order. */
  function MatchAll(files: seq<string>, dir: string, lowerQuery: string, load: Loader): (r: Result<seq<string>, SearchError>)
    ensures r.Failure? ==> r.error.ReadError? || r.error.ParseError?
    decreases |files|
  {
    if files == [] then Success([])
    else match LoadError(files[0], load(files[0]))
      case Some(err) => Failure(err)
      case None => Prepend(Found(files[0], dir, lowerQuery, load), MatchAll(files[1..], dir, lowerQuery, load))
  }

  /** What one parsed file contributes: its link when it matches, else nothing. */
  function Found(file: string, dir: string, lowerQuery: string, load: Loader): seq<string> {
    if Hit(file, lowerQuery, load) then [FormatResult(file, dir)] else []
  }


  /** The loop over the candidate files: read, parse, extract, compare, append. */
  method MatchFiles(files: seq<string>, dir: string, query: string, load: Loader)
    returns (r: Result<seq<string>, SearchError>)
    ensures r == MatchAll(files, dir, ToLower(query), load)
  {
    var results: seq<string> := [];
    var q := ToLower(query);
    assert files[0..] == files;
    PrependEmpty(MatchAll(files, dir, q, load));
    for i := 0 to |files|
      invariant MatchAll(files, dir, q, load) == Prepend(results, MatchAll(files[i..], dir, q, load))
    {
      assert files[i..][1..] == files[i + 1..];
      var file := files[i];
      PrependTwice(results, Found(file, dir, q, load),
        MatchAll(files[i + 1..], dir, q, load));
      assert results + [] == results;
      match load(file)
      case Unreadable =>
        return Failure(ReadError(file));
      case Unparsable =>
        return Failure(ParseError(file));
      case Parsed(doc) =>
        var text := ExtractText(doc);
        if Contains(ToLower(text), q) {
          results := results + [FormatResult(file, dir)];
        }
    }
    assert files[|files|..] == [];
    assert results + [] == results;
    return Success(results);
  }

  /** Any read or parse failure aborts the loop with no results; otherwise it succeeds. */
  lemma {:induction false} MatchAllFailure(files: seq<string>, dir: string, lowerQuery: string, load: Loader)
    ensures MatchAll(files, dir, lowerQuery, load).Failure? <==>
      exists i :: 0 <= i < |files| && !load(files[i]).Parsed?
    decreases |files|
  {
    if files != [] && load(files[0]).Parsed? {
      MatchAllFailure(files[1..], dir, lowerQuery, load);
      assert forall i :: 1 <= i < |files| ==> files[i] == files[1..][i - 1];
    }
  }

  /**
    A successful loop lists, for each file in order, its link exactly when the
    lower-cased text contains the lower-cased query: the result splits with
    the file list.
   */
  lemma {:induction false} MatchAllInFileOrder(a: seq<string>, b: seq<string>, dir: string, lowerQuery: string, load: Loader)
    requires MatchAll(a, dir, lowerQuery, load).Success? && MatchAll(b, dir, lowerQuery, load).Success?
    ensures MatchAll(a + b, dir, lowerQuery, load) ==
      Success(MatchAll(a, dir, lowerQuery, load).value + MatchAll(b, dir, lowerQuery, load).value)
    decreases |a|
  {
    if a == [] {
      assert a + b == b;
      assert [] + MatchAll(b, dir, lowerQuery, load).value == MatchAll(b, dir, lowerQuery, load).value;
    } else {
      var ab := a + b;
      assert ab[1..] == a[1..] + b;
      assert ab[0] == a[0];
      MatchAllInFileOrder(a[1..], b, dir, lowerQuery, load);
      var front := Found(a[0], dir, lowerQuery, load);
      var va, vb := MatchAll(a[1..], dir, lowerQuery, load).value, MatchAll(b, dir, lowerQuery, load).value;
      AppendAssoc(front, va, vb);
    }
  }

  /** One file on its own: its link if it matches, nothing if it does not. */
  lemma SingleFile(file: string, dir: string, lowerQuery: string, load: Loader)
    requires load(file).Parsed?
    ensures MatchAll([file], dir, lowerQuery, load) ==
      Success(if Matches(load(file).doc, lowerQuery) then [FormatResult(file, dir)] else [])
  {
    assert [file][1..] == [];
    var front := Found(file, dir, lowerQuery, load);
    assert front + [] == front;
  }

  /** Every result of a successful loop is a link that comes from a matching file. */
  lemma {:induction false} MatchAllMembers(files: seq<string>, dir: string, lowerQuery: string, load: Loader, x: string)
    requires MatchAll(files, dir, lowerQuery, load).Success?
    ensures x in MatchAll(files, dir, lowerQuery, load).value <==>
      exists i :: 0 <= i < |files| && Hit(files[i], lowerQuery, load) && FormatResult(files[i], dir) == x
    decreases |files|
  {
    if files != [] {
      MatchAllMembers(files[1..], dir, lowerQuery, load, x);
      assert forall i :: 1 <= i < |files| ==> files[i] == files[1..][i - 1];
      if exists i :: 0 <= i < |files| && Hit(files[i], lowerQuery, load) && FormatResult(files[i], dir) == x {
        var i :| 0 <= i < |files| && Hit(files[i], lowerQuery, load) && FormatResult(files[i], dir) == x;
        if i > 0 {
          assert Hit(files[1..][i - 1], lowerQuery, load);
        }
      }
    }
  }

  /** The query "HELLO" finds a document whose text is "hello world". */
  lemma ExampleCaseInsensitive(doc: HtmlNode)
    requires DocText(doc) == "hello world"
    ensures Matches(doc, ToLower("HELLO"))
  {
    var t := ToLower(DocText(doc));
    assert ToLower("HELLO") == "hello";
    assert t == "hello world" by {
      assert forall i :: 0 <= i < |t| ==> t[i] == LowerChar("hello world"[i]);
    }
    assert OccursAt(t, "hello", 0);
  }

  /**
    A corpus directory given without its trailing slash leaves the slash in
    the result, so the result has an empty segment after "static".
   */
  lemma ExampleDirectoryWithoutSlash()
    ensures FormatResult("docs/a.html", "docs") == "/static//a.html"
  {
    var file, dir := "docs/a.html", "docs";
    assert HasPrefix(file, dir);
    var rest := file[|dir|..];
    assert rest == "/a.html";
    var r := ReplaceAll(rest, '\\', '/');
    assert r == rest;
  }
}
