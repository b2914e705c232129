# Search server core, modelled in Dafny

The program is a small HTTP server that searches a directory of HTML files.
A request to `/` is first checked against an IPv4 allowlist of CIDR ranges.
Then one of three things happens:

- A request without a `q` parameter gets the search form.
- A request with a query walks the corpus directory for `*.html` files. It extracts the text of each file and keeps the files whose lower-cased text contains the lower-cased query.
- The matches are answered as a nested list. Each result link (`/static/` followed by the file path with the corpus directory trimmed off) is split on `/` and folded into a prefix tree, and the tree is rendered as `<li>`/`<ul>` markup. Each leaf becomes a link.

The model follows the handler's structure, one module per component:

| module | file | models |
|---|---|---|
| `Wrappers` | `wrappers.dfy` | `Option` and `Result` |
| `GoStrings` | `go_strings.dfy` | the `strings` functions the handler uses (Split, HasPrefix, TrimPrefix, ReplaceAll, ToLower, Contains), and Join, which only states the round trip of Split |
| `AccessGuard` | `access_guard.dfy` | `isIPInRange` and CIDR containment |
| `TextExtract` | `text_extract.dfy` | the parsed HTML tree and `extractText` |
| `FileSearch` | `file_search.dfy` | `searchFiles` with `filepath.Base` and `filepath.Match` for `*.html`, and the loop that matches files and formats results |
| `ResultTree` | `result_tree.dfy` | the tree of `*Node` values, its construction, and `renderNode` |
| `SearchHandler` | `search_handler.dfy` | `handleSearch`: the order of its checks and the response of each branch |

Each loop of the source is a method: the allowlist loop, the walk callback, the match loop, the tree-building loops, the rendering loops and `extractText`. Each method is proved equal to a pure function of its inputs, and the properties the program relies on are lemmas about those functions.

The tree of nodes is a `PathTree` object. Its fields `labels` and `kids` store the nodes as an arena: node `i` has label `labels[i]`, and `kids[i]` lists its children's indices in order. Node 0 is the root. A child is always created after its parent, so its index is larger.

The library code the handler calls is taken as input to the model:

- `filepath.Walk` becomes the sequence of callback invocations it makes.
- `ioutil.ReadFile` together with `html.Parse` becomes a function from a path to its outcome: unreadable, unparsable, or a document tree.
- `net.ParseCIDR` becomes an optional parsed range.
- `net.SplitHostPort` together with `net.ParseIP` becomes an optional IPv4 address.

Four behaviours of the code are worth knowing.

- **An unparsable allowlist entry crashes the handler.** `isIPInRange` ignores the error from `net.ParseCIDR`. The loop can reach a range that failed to parse before any earlier range matched. It then calls `Contains` on a nil `*IPNet`, which panics, and the model answers `Crash`.
- **Every result starts with `/static/`.** So every result splits into the parts `""`, `"static"`, and then the parts of the file path with the corpus directory trimmed off. The tree's root therefore always has a single child with the empty label, and that child has a single child, `static`.
- **Links come out as `./static/` followed by what is left of the file path once the corpus directory is trimmed off.** The renderer inserts a `/` only after a non-empty accumulated path, so the empty first part adds nothing to the link.
- **A corpus directory without a trailing slash leaves an empty segment.** `strings.TrimPrefix` removes only the directory string itself. With the directory `docs`, the walk yields `docs/a.html`, and the result is `/static//a.html`. Its parts are `""`, `"static"`, `""`, `"a.html"`: `static` gets a child with the empty label, and the link is `./static//a.html`. The model keeps this behaviour.
- **One bad file aborts the whole request.** A read or parse error on any candidate file returns HTTP 500 with no results, even when other files match.

## Model

| member | source | states |
|---|---|---|
| `GoStrings.Split` | main.go:97 | every piece is free of the separator and there is at least one piece |
| `GoStrings.JoinSplit` | main.go:97 | joining the pieces of a split with the separator gives back the string |
| `GoStrings.SplitJoin` | main.go:97 | splitting a join of separator-free pieces gives back the pieces |
| `GoStrings.SplitAfterPiece` | main.go:97 | a separator-free head followed by the separator splits off as the first piece |
| `GoStrings.Contains` | main.go:85 | an occurrence needs the substring to be no longer than the string |
| `GoStrings.TrimPrefix` | main.go:86 | with the prefix present, the prefix followed by the result is the input; otherwise the input is unchanged |
| `GoStrings.ReplaceAll` | main.go:86 | same length; each character is replaced pointwise; when the two characters differ, the replaced one no longer occurs |
| `GoStrings.ToLower` | main.go:72 | same length; each character is lower-cased pointwise |
| `GoStrings.ContainsLowered` | main.go:85 | an occurrence survives lower-casing both strings, so the search ignores case |
| `GoStrings.ContainsTrans` | main.go:85 | containment is transitive |
| `AccessGuard.InRange` | main.go:198 | a range contains its own base address |
| `AccessGuard.Hits` | main.go:198 | only a parsed address can be contained, and a range contains its base |
| `AccessGuard.IsIPInRange` | main.go:195-203 | the short-circuit loop returns the verdict `Check` defines |
| `AccessGuard.CheckAtFirstStop` | main.go:196-202 | the verdict is decided by the first range that either failed to parse or contains the address |
| `AccessGuard.AllowedCase` | main.go:196-200 | allowed iff some range contains the address and every range before it parsed |
| `AccessGuard.PanickedCase` | main.go:197-198 | panics iff some range failed to parse and no earlier range contains the address |
| `AccessGuard.DeniedCase` | main.go:201-202 | denied iff every range parsed and none contains the address |
| `AccessGuard.AllParsedIsDisjunction` | main.go:195-203 | with every range parsed there is no panic, and the check is allowed iff some range contains the address |
| `AccessGuard.UnparsedAddressNeverAllowed` | main.go:198 | an address that does not parse is never allowed |
| `AccessGuard.CheckOrderIrrelevant` | main.go:196 | when every range parsed, reordering the ranges does not change the verdict |
| `AccessGuard.InRangeShorterPrefix` | main.go:198 | a range contains every address that a longer-prefix range with the same base contains |
| `AccessGuard.InRangeExtremes` | main.go:198 | a /0 range contains every address; a /32 range contains its base address only |
| `TextExtract.ExtractText` | main.go:183-193 | the result is the concatenation of the text nodes' data in document order |
| `TextExtract.TextNodeYieldsData` | main.go:184-186 | a text node yields its own data |
| `TextExtract.ChildrenInOrder` | main.go:189-191 | splitting a non-text node's child list splits its text at the same point |
| `TextExtract.NoTextNodes` | main.go:183-193 | the subtree lists no text node iff it has none; without a text node its text is empty |
| `TextExtract.ExampleParagraph` | main.go:183-193 | `<p>Hello <b>World</b></p>` in a parsed document yields `Hello World` |
| `FileSearch.LastElement` | main.go:214 | the result is the whole suffix after the last `/` (all of the path when it has none): a `/`-free suffix that is either the whole path or preceded by `/`, non-empty when the path is non-empty and does not end in `/` |
| `FileSearch.Base` | main.go:214 | the base name is never empty and is either `/` or free of `/` |
| `FileSearch.BaseElement` | main.go:214 | `.` for the empty path, `/` for a path of slashes only, otherwise the whole `/`-free tail after trailing slashes are removed |
| `FileSearch.BaseOfChild` | main.go:214 | the base of a path ending in `/name` is `name` |
| `FileSearch.Glob` | main.go:214 | `*` never matches a `/`: a name containing `/` matches only a pattern containing `/` |
| `FileSearch.GlobLiteral` | main.go:214 | a pattern without `*` matches exactly the identical name |
| `FileSearch.GlobStarSuffix` | main.go:214 | a leading `*` followed by a literal matches exactly the `/`-free names ending in that literal |
| `FileSearch.HtmlMatchIsSuffix` | main.go:214 | `*.html` accepts exactly the base names ending in `.html` and never fails |
| `FileSearch.Candidates` | main.go:208-215 | a failure is always a walk error or a pattern error |
| `FileSearch.SearchFiles` | main.go:205-225 | the walk callback loop returns `Candidates` of the walk |
| `FileSearch.CandidatesFailure` | main.go:208-223 | fails iff some entry fails; the error is the first failing entry's; no partial list is returned |
| `FileSearch.CandidatesFailsIff` | main.go:208-223 | the walk fails iff some entry fails |
| `FileSearch.CandidatesFirstError` | main.go:208-223 | a failed walk reports the error of the first failing entry |
| `FileSearch.CandidatesMembers` | main.go:211-217 | the list holds exactly the paths of the non-directory entries whose base name matches |
| `FileSearch.CandidatesSingle` | main.go:208-217 | a single entry that does not fail lists its path once if kept and not at all otherwise |
| `FileSearch.CandidatesInWalkOrder` | main.go:207-217 | results keep walk order: splitting the walk splits the list at the same point |
| `FileSearch.FormatResult` | main.go:86 | the result starts with `/static/` and has no `\`; it is the path with the directory prefix trimmed and `\` replaced by `/` |
| `FileSearch.MatchAll` | main.go:74-82 | a failure is always a read error or a parse error |
| `FileSearch.MatchFiles` | main.go:71-88 | the match loop returns `MatchAll` of the files with the lower-cased query |
| `FileSearch.MatchAllFailure` | main.go:74-82 | fails iff some file cannot be read or cannot be parsed |
| `FileSearch.MatchAllInFileOrder` | main.go:73-86 | results keep file order: splitting the file list splits the results at the same point |
| `FileSearch.SingleFile` | main.go:84-87 | one parsed file yields its link iff its lower-cased text contains the query |
| `FileSearch.MatchAllMembers` | main.go:84-87 | the results are exactly the formatted links of the files whose text contains the query |
| `FileSearch.ExampleCaseInsensitive` | main.go:72-85 | the query `HELLO` finds a document whose text is `hello world` |
| `FileSearch.ExampleDirectoryWithoutSlash` | main.go:86 | the directory `docs` and the file `docs/a.html` give `/static//a.html` |
| `ResultTree.FindChild` | main.go:101-107 | gives the position of the first child with the label, or reports that no child has it |
| `ResultTree.Insert` | main.go:99-113 | inserting a path keeps the arena well formed and never shrinks it |
| `ResultTree.InsertOnlyAlongPath` | main.go:99-113 | insertion adds at most one node per segment, every added node lies on the inserted path, and only child lists of nodes on that path change |
| `ResultTree.InsertGrowth` | main.go:99-113 | insertion adds at most one node per segment |
| `ResultTree.InsertNewOnPath` | main.go:106-112 | every node insertion adds lies on the inserted path |
| `ResultTree.InsertChangesOnPath` | main.go:108-111 | only the child lists of nodes on the inserted path change |
| `ResultTree.VisitedIsTrace` | main.go:101-112 | the nodes passed while walking a path are exactly the nodes its prefixes lead to |
| `ResultTree.PathTree.constructor` | main.go:95 | a new tree is a lone root with the empty label |
| `ResultTree.PathTree.InsertPath` | main.go:97-113 | the tree becomes `Insert` of the old tree with the parts, from the root |
| `ResultTree.BuildTree` | main.go:95-114 | the tree is every result inserted in order into a fresh root |
| `ResultTree.InsertExtends` | main.go:108-111 | insertion only appends: labels, existing nodes and sibling order are kept |
| `ResultTree.InsertFrame` | main.go:99-112 | insertion from a node never changes the child list of a node created before it |
| `ResultTree.FindChildStable` | main.go:101-107 | a child found in a tree is found at the same position after the tree grows |
| `ResultTree.TraceStable` | main.go:99-113 | a path that leads to a node still leads there after the tree grows |
| `ResultTree.InsertTraces` | main.go:99-113 | after insertion, the inserted path leads from the starting node to a node |
| `ResultTree.InsertIdempotent` | main.go:101-107 | inserting a path that already exists changes nothing |
| `ResultTree.AddChildDistinct` | main.go:108-111 | a child is added only when no sibling has its label |
| `ResultTree.InsertDistinct` | main.go:99-113 | no node ever has two children with the same label |
| `ResultTree.InsertUnshared` | main.go:109-110 | no node is listed twice, whether under two parents or twice under one |
| `ResultTree.FoldShape` | main.go:96-114 | after the fold every result's parts lead from the root; siblings are distinct and no node is shared |
| `ResultTree.FoldOnlyResultPaths` | main.go:96-114 | every node the fold adds is reached from the root by a prefix of some result's parts |
| `ResultTree.FoldedNodesOnResultPaths` | main.go:95-114 | every node of the result tree but the root lies on the path of some result |
| `ResultTree.FoldAppend` | main.go:96 | folding two lists one after the other is folding their concatenation |
| `ResultTree.FoldTwice` | main.go:96-114 | inserting every result a second time leaves the tree unchanged |
| `ResultTree.SplitStatic` | main.go:86-97 | a `/static/` result splits into `""`, `"static"`, then the pieces of the rest |
| `ResultTree.FoldStaticRoot` | main.go:86-114 | with at least one result, the root has the single child `""`, which has the single child `static`, which has children |
| `ResultTree.PathTree.RenderAt` | main.go:118-131 | the rendering loop over a node returns `RenderNode` of that node |
| `ResultTree.PathTree.RenderRoot` | main.go:164 | the template's loop over the root's children returns the page listing |
| `ResultTree.KidsInOrder` | main.go:127-129 | children render in list order: splitting the child list splits the markup at the same point |
| `ResultTree.KidsContainNode` | main.go:127-129 | every child's markup appears inside the parent's list |
| `ResultTree.PathOfNonEmpty` | main.go:119-122 | once the path is non-empty, later labels are joined with `/` |
| `ResultTree.PathOfStatic` | main.go:86-122 | the path accumulated for result `/static/x` is `static/x` |
| `ResultTree.TraceLastLabel` | main.go:101-111 | the node a path leads to carries the path's last part as its label |
| `ResultTree.NodeShowsLeaf` | main.go:118-131 | a leaf below a node appears in that node's markup as a link to the path accumulated on the way down |
| `ResultTree.LeafLinkOnPage` | main.go:118-131 | every leaf the root's parts lead to is a link on the page to its full path |
| `ResultTree.ResultLinkOnPage` | main.go:86-131 | a leaf result `/static/x` is linked as `./static/x` under its last segment |
| `ResultTree.StaticPage` | main.go:118-131 | with the `/static/` shape, the page is an unlabelled item holding the item `static`, which holds the corpus listing |
| `SearchHandler.HandleSearch` | main.go:50-131 | the handler returns `Respond`: each branch in the source's order, with its status and message |
| `SearchHandler.ForbiddenExactly` | main.go:53-57 | 403 `Forbidden` iff the allowlist check denies |
| `SearchHandler.RefusalIgnoresRequest` | main.go:52-57 | a caller who is not allowed gets the same answer whatever the query and the corpus |
| `SearchHandler.CrashExactly` | main.go:195-203 | a crash iff the allowlist loop reaches an unparsed range before a match; never with a fully parsed allowlist |
| `SearchHandler.SearchFormExactly` | main.go:59-63 | the search form iff the caller is allowed and the query is empty |
| `SearchHandler.HtmlCandidatesFail` | main.go:205-225 | with `*.html`, searchFiles fails iff the walk reports a failure |
| `SearchHandler.CandidateUnloadable` | main.go:73-82 | some candidate file cannot be loaded iff some kept walk entry cannot be loaded |
| `SearchHandler.SearchFailsExactly` | main.go:65-82 | the search fails iff the walk reports a failure or some walked `*.html` file is unreadable or unparsable |
| `SearchHandler.SearchResultsMembers` | main.go:65-87 | the results are exactly the links of the walked `*.html` files whose text contains the query, ignoring case |
| `SearchHandler.SearchResultsInWalkOrder` | main.go:65-88 | results keep walk order: two walks back to back give the first walk's results followed by the second's |
| `SearchHandler.SearchResultsSingle` | main.go:65-88 | one parsed file gives its link exactly once if it is an `*.html` file that matches the query, and nothing otherwise |
| `SearchHandler.DirectoryWithoutSlash` | main.go:86-97 | with a directory that lacks its trailing slash, `dir/name` splits as `""`, `static`, `""`, `name` |
| `SearchHandler.CandidateHit` | main.go:84-87 | a matching candidate file is a matching kept walk entry, and conversely |
| `SearchHandler.NoResultsExactly` | main.go:84-90 | a successful search finds nothing iff no walked `*.html` file matches |
| `SearchHandler.InternalErrorExactly` | main.go:65-82 | a 500 iff the caller is allowed, the query is non-empty, and the search fails |
| `SearchHandler.NotFoundExactly` | main.go:90-93 | 404 iff the caller is allowed, the query is non-empty, the search succeeds, and no file matches |
| `SearchHandler.ResultsPageShape` | main.go:90-131 | a results page renders a non-empty result list; the page has the `""`/`static` shape around the corpus tree |
| `SearchHandler.MatchLinkedOnPage` | main.go:84-131 | every matching file at a leaf is linked as `./static/` followed by the file path with the corpus directory trimmed off and `\` replaced by `/` |

## Left out

- main and config loading (main.go:29-44) are not modelled. The configuration is a parameter. The `IPRanges` field's malformed struct tag (main.go:18) makes encoding/json fall back to the field name, so the model assumes the list is read.
- handleStyle, the file server under `/static/` and `ListenAndServe` (main.go:38-48) are routing and I/O.
- The template text (main.go:133-168) is left out. Only the list items it inserts are modelled. A failing `tmpl.Execute` (main.go:170-180) is a writer error and is not modelled.
- The `Content-Type` header and the log line (main.go:51,55) are I/O.
- readFile (main.go:227-233) is never called by the handler.
- `filepath.Walk`, `ioutil.ReadFile`, `html.Parse`, `net.SplitHostPort`, `net.ParseIP` and `net.ParseCIDR` are taken as inputs, as described above.
- IPv6 addresses and ranges are not modelled. An address is modelled by its IPv4 value after `To4`.
- Base: only `/` is a separator. Windows volume names and `\` separators are not modelled.
- Glob: covers literal characters and `*` only. It omits `?`, character classes and escapes, which never occur in the one pattern the handler uses.
- ToLower: folds ASCII letters only. Unicode case mapping is not modelled.
- Concurrency between requests is not modelled. Each request is modelled on its own.
- MatchLinkedOnPage: links only a result whose node is a leaf. A result that is a proper prefix of another result's parts is rendered as a list item without a link, as in the source.
