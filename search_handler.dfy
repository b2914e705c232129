/**
  handleSearch: the allowlist first, then the search form for an empty query,
  then the search with its error responses, then "No results found" or the
  results page.
 */
module SearchHandler {
  import opened Wrappers
  import opened GoStrings
  import opened AccessGuard
  import opened TextExtract
  import opened FileSearch
  import opened ResultTree

  /**
    The configuration the handler reads: the allowlist, each entry as
    net.ParseCIDR leaves it, and the corpus directory.
   */
  datatype Config = Config(ranges: seq<Option<Cidr>>, directory: string)

  /**
    A request as the handler sees it: the caller's address after
    net.SplitHostPort and net.ParseIP (None when that yields no IPv4
    address) and the value of the q parameter ("" when it is absent).
   */
  datatype Request = Request(ip: Option<IPv4>, query: string)

  /** The corpus directory as the handler sees it: its walk, and each file's read-and-parse outcome. */
  datatype Corpus = Corpus(walk: seq<WalkEntry>, load: Loader)

  const StatusForbidden: nat := 403
  const StatusNotFound: nat := 404
  const StatusInternalServerError: nat := 500

  datatype Response =
    | HttpError(status: nat, message: string)   // http.Error
    | SearchForm                                // http.ServeFile of search.html
    | ResultsPage(listing: string)              // the list items inside the results template
    | Crash                                     // a panic in the handler

  /** searchFiles for "*.html" followed by the match loop over its files. */
  function SearchResults(dir: string, query: string, c: Corpus): Result<seq<string>, SearchError> {
    match Candidates(c.walk, HtmlMatch)
    case Failure(e) => Failure(e)
    case Success(files) => MatchAll(files, dir, ToLower(query), c.load)
  }

  /** The http.Error a failed search answers with. */
  function FailureResponse(e: SearchError): Response {
    match e
    case WalkError(_) => HttpError(StatusInternalServerError, "Error searching files")
    case PatternError(_) => HttpError(StatusInternalServerError, "Error searching files")
    case ReadError(_) => HttpError(StatusInternalServerError, "Error reading file")
    case ParseError(_) => HttpError(StatusInternalServerError, "Error parsing HTML")
  }

  /** What handleSearch answers, branch by branch and in the order it checks. */
  function Respond(cfg: Config, req: Request, c: Corpus): Response {
    match Check(req.ip, cfg.ranges)
    case Panicked => Crash
    case Denied => HttpError(StatusForbidden, "Forbidden")
    case Allowed =>
      if req.query == "" then SearchForm
      else match SearchResults(cfg.directory, req.query, c)
        case Failure(e) => FailureResponse(e)
        case Success(results) =>
          if results == [] then HttpError(StatusNotFound, "No results found")
          else ResultsPage(RenderPage(Folded(results)))
  }

  /** handleSearch, step by step. */
  method HandleSearch(cfg: Config, req: Request, c: Corpus) returns (resp: Response)
    ensures resp == Respond(cfg, req, c)
  {
    var verdict := IsIPInRange(req.ip, cfg.ranges);
    if verdict == Panicked {
      return Crash;
    }
    if verdict == Denied {
      return HttpError(StatusForbidden, "Forbidden");
    }
    if req.query == "" {
      return SearchForm;
    }
    var files := SearchFiles(c.walk, HtmlMatch);
    if files.Failure? {
      return HttpError(StatusInternalServerError, "Error searching files");
    }
    var matched := MatchFiles(files.value, cfg.directory, req.query, c.load);
    match matched {
      case Failure(ReadError(_)) =>
        return HttpError(StatusInternalServerError, "Error reading file");
      case Failure(_) =>
        return HttpError(StatusInternalServerError, "Error parsing HTML");
      case Success(results) =>
        if |results| == 0 {
          return HttpError(StatusNotFound, "No results found");
        }
        var root := BuildTree(results);
        FoldedShape(results);
        var listing := root.RenderRoot();
        return ResultsPage(listing);
    }
  }

  // ---------------------------------------------------------------- the allowlist comes first

  /** A caller outside the allowlist is refused, and only such a caller, whatever it asks. */
  lemma ForbiddenExactly(cfg: Config, req: Request, c: Corpus)
    ensures Respond(cfg, req, c) == HttpError(StatusForbidden, "Forbidden") <==> Check(req.ip, cfg.ranges) == Denied
  {
    match SearchResults(cfg.directory, req.query, c)
    case Failure(e) =>
      assert FailureResponse(e).status == StatusInternalServerError;
    case Success(_) =>
  }

  /** A caller that is not allowed gets the same answer for every query and every corpus. */
  lemma RefusalIgnoresRequest(cfg: Config, req: Request, c: Corpus, query: string, other: Corpus)
    requires Check(req.ip, cfg.ranges) != Allowed
    ensures Respond(cfg, req, c) == Respond(cfg, Request(req.ip, query), other)
    ensures Respond(cfg, req, c) == HttpError(StatusForbidden, "Forbidden") || Respond(cfg, req, c) == Crash
  {
  }

  /**
    The handler panics exactly when the allowlist loop reaches an
    unparsable range before a match; a fully parsable allowlist never does.
   */
  lemma CrashExactly(cfg: Config, req: Request, c: Corpus)
    ensures Respond(cfg, req, c) == Crash <==>
      exists i :: 0 <= i < |cfg.ranges| && cfg.ranges[i].None? &&
        forall j :: 0 <= j < i ==> cfg.ranges[j].Some? && !Hits(cfg.ranges[j].value, req.ip)
    ensures AllParsed(cfg.ranges) ==> Respond(cfg, req, c) != Crash
  {
    PanickedCase(req.ip, cfg.ranges);
    if AllParsed(cfg.ranges) {
      AllParsedIsDisjunction(req.ip, cfg.ranges);
    }
    match SearchResults(cfg.directory, req.query, c)
    case Failure(e) =>
      assert FailureResponse(e).HttpError?;
    case Success(_) =>
  }

  /** An allowed caller without a query gets the search form, and nobody else does. */
  lemma SearchFormExactly(cfg: Config, req: Request, c: Corpus)
    ensures Respond(cfg, req, c) == SearchForm <==> Check(req.ip, cfg.ranges) == Allowed && req.query == ""
  {
    match SearchResults(cfg.directory, req.query, c)
    case Failure(e) =>
      assert FailureResponse(e).HttpError?;
    case Success(_) =>
  }

  // ---------------------------------------------------------------- the search

  /** With "*.html", searchFiles fails exactly when the walk reports a failure. */
  lemma HtmlCandidatesFail(walk: seq<WalkEntry>)
    ensures Candidates(walk, HtmlMatch).Failure? <==> exists i :: 0 <= i < |walk| && walk[i].WalkFailure?
  {
    CandidatesFailure(walk, HtmlMatch);
    forall i | 0 <= i < |walk| ensures EntryError(walk[i], HtmlMatch).Some? <==> walk[i].WalkFailure? {
    }
  }

  /** Some candidate file fails to load exactly when some kept entry of the walk does. */
  lemma CandidateUnloadable(walk: seq<WalkEntry>, load: Loader)
    requires Candidates(walk, HtmlMatch).Success?
    ensures var files := Candidates(walk, HtmlMatch).value;
      (exists j :: 0 <= j < |files| && !load(files[j]).Parsed?) <==>
      (exists i :: 0 <= i < |walk| && Kept(walk[i], HtmlMatch) && !load(walk[i].path).Parsed?)
  {
    var files := Candidates(walk, HtmlMatch).value;
    if exists j :: 0 <= j < |files| && !load(files[j]).Parsed? {
      var j :| 0 <= j < |files| && !load(files[j]).Parsed?;
      CandidatesMembers(walk, HtmlMatch, files[j]);
    }
    if exists i :: 0 <= i < |walk| && Kept(walk[i], HtmlMatch) && !load(walk[i].path).Parsed? {
      var i :| 0 <= i < |walk| && Kept(walk[i], HtmlMatch) && !load(walk[i].path).Parsed?;
      CandidatesMembers(walk, HtmlMatch, walk[i].path);
      var j :| 0 <= j < |files| && files[j] == walk[i].path;
    }
  }

  /**
    The search fails exactly when the walk reports a failure, or when every
    entry is walked and some "*.html" file cannot be read or parsed.
   */
  lemma SearchFailsExactly(dir: string, query: string, c: Corpus)
    ensures SearchResults(dir, query, c).Failure? <==>
      (exists i :: 0 <= i < |c.walk| && c.walk[i].WalkFailure?) ||
      (exists i :: 0 <= i < |c.walk| && Kept(c.walk[i], HtmlMatch) && !c.load(c.walk[i].path).Parsed?)
  {
    HtmlCandidatesFail(c.walk);
    if Candidates(c.walk, HtmlMatch).Success? {
      MatchAllFailure(Candidates(c.walk, HtmlMatch).value, dir, ToLower(query), c.load);
      CandidateUnloadable(c.walk, c.load);
    }
  }

  /** A matching candidate file is a matching kept entry of the walk, and conversely. */
  lemma CandidateHit(walk: seq<WalkEntry>, dir: string, lowerQuery: string, load: Loader, x: string)
    requires Candidates(walk, HtmlMatch).Success?
    ensures var files := Candidates(walk, HtmlMatch).value;
      (exists j :: 0 <= j < |files| && Hit(files[j], lowerQuery, load) && FormatResult(files[j], dir) == x) <==>
      (exists i :: 0 <= i < |walk| && Kept(walk[i], HtmlMatch) && Hit(walk[i].path, lowerQuery, load) &&
        FormatResult(walk[i].path, dir) == x)
  {
    var files := Candidates(walk, HtmlMatch).value;
    if exists j :: 0 <= j < |files| && Hit(files[j], lowerQuery, load) && FormatResult(files[j], dir) == x {
      var j :| 0 <= j < |files| && Hit(files[j], lowerQuery, load) && FormatResult(files[j], dir) == x;
      CandidatesMembers(walk, HtmlMatch, files[j]);
    }
    if exists i :: 0 <= i < |walk| && Kept(walk[i], HtmlMatch) && Hit(walk[i].path, lowerQuery, load) &&
        FormatResult(walk[i].path, dir) == x {
      var i :| 0 <= i < |walk| && Kept(walk[i], HtmlMatch) && Hit(walk[i].path, lowerQuery, load) &&
        FormatResult(walk[i].path, dir) == x;
      CandidatesMembers(walk, HtmlMatch, walk[i].path);
      var j :| 0 <= j < |files| && files[j] == walk[i].path;
      assert Hit(files[j], lowerQuery, load) && FormatResult(files[j], dir) == x;
    }
  }

  /**
    A successful search lists exactly the links of the walked "*.html" files
    whose text contains the query, ignoring case.
   */
  lemma SearchResultsMembers(dir: string, query: string, c: Corpus, x: string)
    requires SearchResults(dir, query, c).Success?
    ensures x in SearchResults(dir, query, c).value <==>
      exists i :: 0 <= i < |c.walk| && Kept(c.walk[i], HtmlMatch) &&
        Hit(c.walk[i].path, ToLower(query), c.load) && FormatResult(c.walk[i].path, dir) == x
  {
    MatchAllMembers(Candidates(c.walk, HtmlMatch).value, dir, ToLower(query), c.load, x);
    CandidateHit(c.walk, dir, ToLower(query), c.load, x);
  }

  /** A successful search finds nothing exactly when no walked "*.html" file matches. */
  lemma NoResultsExactly(dir: string, query: string, c: Corpus)
    requires SearchResults(dir, query, c).Success?
    ensures SearchResults(dir, query, c).value == [] <==>
      forall i :: 0 <= i < |c.walk| && Kept(c.walk[i], HtmlMatch) ==> !Hit(c.walk[i].path, ToLower(query), c.load)
  {
    var results := SearchResults(dir, query, c).value;
    if results != [] {
      SearchResultsMembers(dir, query, c, results[0]);
    }
    if exists i :: 0 <= i < |c.walk| && Kept(c.walk[i], HtmlMatch) && Hit(c.walk[i].path, ToLower(query), c.load) {
      var i :| 0 <= i < |c.walk| && Kept(c.walk[i], HtmlMatch) && Hit(c.walk[i].path, ToLower(query), c.load);
      SearchResultsMembers(dir, query, c, FormatResult(c.walk[i].path, dir));
    }
  }

  /** A failed search is always a 500, and every 500 comes from a failed search. */
  lemma InternalErrorExactly(cfg: Config, req: Request, c: Corpus)
    ensures (Respond(cfg, req, c).HttpError? && Respond(cfg, req, c).status == StatusInternalServerError) <==>
      Check(req.ip, cfg.ranges) == Allowed && req.query != "" &&
      SearchResults(cfg.directory, req.query, c).Failure?
  {
  }

  /**
    "No results found" answers exactly an allowed, non-empty query whose
    search succeeds and finds no "*.html" file whose text contains it.
   */
  lemma NotFoundExactly(cfg: Config, req: Request, c: Corpus)
    ensures Respond(cfg, req, c) == HttpError(StatusNotFound, "No results found") <==>
      Check(req.ip, cfg.ranges) == Allowed && req.query != "" &&
      SearchResults(cfg.directory, req.query, c).Success? &&
      forall i :: 0 <= i < |c.walk| && Kept(c.walk[i], HtmlMatch) ==> !Hit(c.walk[i].path, ToLower(req.query), c.load)
  {
    match SearchResults(cfg.directory, req.query, c)
    case Failure(e) =>
      assert FailureResponse(e).status == StatusInternalServerError;
    case Success(_) =>
      NoResultsExactly(cfg.directory, req.query, c);
  }

  // ---------------------------------------------------------------- the results page

  /**
    A results page is the rendering of the tree of a non-empty list of
    results, all under "/static/": one unlabelled item holding the item
    "static", inside which the corpus tree is listed.
   */
  lemma ResultsPageShape(cfg: Config, req: Request, c: Corpus)
    requires Respond(cfg, req, c).ResultsPage?
    ensures var results := SearchResults(cfg.directory, req.query, c).value;
      var a := Folded(results);
      && results != []
      && StaticRoot(a)
      && var s := a.kids[a.kids[Root][0]][0];
        Respond(cfg, req, c).listing == ListItem("", ListItem("static", RenderKids(a, s, a.kids[s], "static")))
  {
    var results := SearchResults(cfg.directory, req.query, c).value;
    var files := Candidates(c.walk, HtmlMatch).value;
    forall k | 0 <= k < |results| ensures HasPrefix(results[k], "/static/") {
      MatchAllMembers(files, cfg.directory, ToLower(req.query), c.load, results[k]);
    }
    FoldStaticRoot(Fresh(), results);
    StaticPage(Folded(results));
  }

  /**
    Every matching file whose node is a leaf of the tree is linked on the
    page as "./static/" followed by its path below the corpus directory,
    with '/' separators, under its last segment.
   */
  lemma MatchLinkedOnPage(cfg: Config, req: Request, c: Corpus, i: nat)
    requires Respond(cfg, req, c).ResultsPage?
    requires i < |c.walk| && Kept(c.walk[i], HtmlMatch) && Hit(c.walk[i].path, ToLower(req.query), c.load)
    requires var x := FormatResult(c.walk[i].path, cfg.directory);
      IsLeaf(Folded(SearchResults(cfg.directory, req.query, c).value), Split(x, '/'))
    ensures var rel := ReplaceAll(TrimPrefix(c.walk[i].path, cfg.directory), '\\', '/');
      Contains(Respond(cfg, req, c).listing, Link("static/" + rel, LastSegment(rel)))
  {
    var rel := ReplaceAll(TrimPrefix(c.walk[i].path, cfg.directory), '\\', '/');
    assert FormatResult(c.walk[i].path, cfg.directory) == "/static/" + rel;
    ResultLinkOnPage(Folded(SearchResults(cfg.directory, req.query, c).value), rel);
  }

  /** The results of two walks run back to back are the first walk's results followed by the second's. */
  lemma SearchResultsInWalkOrder(dir: string, query: string, a: seq<WalkEntry>, b: seq<WalkEntry>, load: Loader)
    requires SearchResults(dir, query, Corpus(a, load)).Success?
    requires SearchResults(dir, query, Corpus(b, load)).Success?
    ensures SearchResults(dir, query, Corpus(a + b, load)) ==
      Success(SearchResults(dir, query, Corpus(a, load)).value + SearchResults(dir, query, Corpus(b, load)).value)
  {
    CandidatesInWalkOrder(a, b, HtmlMatch);
    var fa, fb := Candidates(a, HtmlMatch).value, Candidates(b, HtmlMatch).value;
    MatchAllInFileOrder(fa, fb, dir, ToLower(query), load);
  }

  /** One parsed file visited by the walk gives its link once if it is an `*.html` file that matches, and nothing otherwise. */
  lemma SearchResultsSingle(dir: string, query: string, path: string, load: Loader)
    requires load(path).Parsed?
    ensures SearchResults(dir, query, Corpus([Visit(path, false)], load)) ==
      Success(if HasSuffix(Base(path), ".html") && Matches(load(path).doc, ToLower(query))
        then [FormatResult(path, dir)] else [])
  {
    var e := Visit(path, false);
    HtmlMatchIsSuffix(path);
    CandidatesSingle(e, HtmlMatch);
    if Kept(e, HtmlMatch) {
      SingleFile(path, dir, ToLower(query), load);
    }
  }

  /**
    A corpus directory configured without its trailing slash (for example
    `docs`, with the file `docs/a.html`) leaves the slash in the result, and
    `static` gets a child with the empty label.
   */
  lemma DirectoryWithoutSlash(dir: string, name: string)
    requires '/' !in name && '\\' !in name
    ensures Split(FormatResult(dir + "/" + name, dir), '/') == ["", "static", "", name]
  {
    var file := dir + "/" + name;
    var x := "/" + name;
    assert HasPrefix(file, dir) && file[|dir|..] == x;
    assert ReplaceAll(x, '\\', '/') == x;
    assert FormatResult(file, dir) == "/static/" + x;
    SplitStatic(x);
    SplitAfterPiece("", '/', name);
    assert x == "" + ['/'] + name;
    SplitNoSep(name, '/');
  }
}
