/** The documentation tools: reading a file through its `prometheus://docs/` URI, and searching,
    which reads every file found in a separate critical section each. */
module DocsHandlers {
  import opened Text
  import opened DocsIndex
  import DocsProtocol
  import DocsSafety
  import Uri
  import Frontmatter

  // ----- Reading one file

  /** `GetDocFileContent` on the state a reader loaded; None is the nil state. */
  function GetDocFileContent(ds: Option<DocsState>, path: string): Result<string> {
    if ds.None? then Err else FileContent(ds.value.fs, path)
  }

  function TrimPrefix(s: string, prefix: string): string {
    if HasPrefix(s, prefix) then s[|prefix|..] else s
  }

  /** `DocsReadResourceHandler`. */
  function ReadDocResource(ds: Option<DocsState>, uri: string): Result<string> {
    match Uri.Parse(uri)
    case Err => Err
    case Ok(u) =>
      if u.scheme != "prometheus" then Err
      else
        var filename := TrimPrefix(u.path, "/");
        if filename == "" then Err else GetDocFileContent(ds, filename)
  }

  function DocUri(file: string): string {
    "prometheus://" + "docs/" + Uri.PathEscape(file)
  }

  /** `DocsReadHandler`. */
  function DocsRead(ds: Option<DocsState>, file: string): Result<string> {
    if file == "" then Err else ReadDocResource(ds, DocUri(file))
  }

  lemma InertWithSlash(e: string)
    requires forall c :: c in e ==> Uri.Inert(c)
    ensures Uri.InertPath("/" + e)
  {
    var path := "/" + e;
    forall i | 1 <= i < |path|
      ensures Uri.Inert(path[i])
    {
      assert path[i] in e;
    }
  }

  lemma DocsPrefixPlain()
    ensures Uri.PlainScheme("prometheus") && Uri.PlainHost("docs")
  {
  }

  /** The URI of any byte string, whatever slashes, spaces, percent signs, "?" or "#" it contains,
      parses back to it: the path is the string behind one slash. */
  lemma DocUriRoundTrip(file: string)
    requires Uri.IsBytes(file)
    ensures Uri.Parse(DocUri(file)) == Ok(Uri.Url("prometheus", "docs", "/" + file))
    ensures TrimPrefix("/" + file, "/") == file
  {
    hide Uri.Parse, Uri.StaysInSegment, Uri.PathEscape, Uri.InertPath, Uri.PlainHost, Uri.PlainScheme;
    var e := Uri.PathEscape(file);
    Uri.EscapeRoundTrip(file);
    Uri.EscapedIsInert(file);
    InertWithSlash(e);
    assert ("/" + e)[1..] == e;
    DocsPrefixPlain();
    assert DocUri(file) == "prometheus" + "://" + "docs" + ("/" + e);
    Uri.ParseAssembled("prometheus", "docs", "/" + e);
    assert ("/" + file)[1..] == file;
  }

  /** Reading through the URI is reading the file itself, for every non-empty byte string. */
  lemma DocsReadIsFileRead(ds: Option<DocsState>, file: string)
    requires Uri.IsBytes(file)
    ensures DocsRead(ds, file) == if file == "" then Err else GetDocFileContent(ds, file)
  {
    DocUriRoundTrip(file);
  }

  /** Reading succeeds if and only if documentation is loaded and the name is that of a file, and
      returns the file's text without the block at its beginning. */
  lemma DocsReadMeans(ds: Option<DocsState>, file: string, text: string)
    requires Uri.IsBytes(file)
    ensures DocsRead(ds, file) == Ok(text) <==>
      && file != "" && ds.Some? && file in ds.value.fs.files
      && Frontmatter.IsStripped(ds.value.fs.files[file], text)
    ensures DocsRead(ds, file).Err? <==> file == "" || ds.None? || file !in ds.value.fs.files
  {
    DocsReadIsFileRead(ds, file);
    hide DocsRead, FileContent, Frontmatter.IsStripped;
    if ds.Some? {
      ReadMeans(ds.value.fs, file, text);
    }
  }

  /** A file made of frontmatter and a body is read as just the body, if and only if no "\n---" occurs
      in the frontmatter before its end. */
  lemma ReadAssembledFile(ds: DocsState, file: string, fm: string, body: string)
    requires Uri.IsBytes(file) && file != "" && file in ds.fs.files
    requires ds.fs.files[file] == "---\n" + fm + "\n---\n" + body
    ensures DocsRead(Some(ds), file) == Ok(body) <==>
      forall q :: 0 <= q < |fm| ==> !HasPrefix((fm + "\n---")[q..], "\n---")
  {
    DocsReadMeans(Some(ds), file, body);
    Frontmatter.StripIs(ds.fs.files[file], body);
    Frontmatter.StripRoundTrip(fm, body);
    hide DocsRead, Frontmatter.IsStripped, Frontmatter.StripFrontmatter;
  }

  /** Which resource URIs are served, and what is served for them. */
  lemma DocResourceMeans(ds: Option<DocsState>, uri: string, text: string)
    ensures ReadDocResource(ds, uri) == Ok(text) <==>
      && Uri.Parse(uri).Ok? && Uri.Parse(uri).value.scheme == "prometheus" && ds.Some?
      && exists file: string ::
           && file != "" && file in ds.value.fs.files
           && (Uri.Parse(uri).value.path == "/" + file
               || (Uri.Parse(uri).value.path == file && file[0] != '/'))
           && Frontmatter.IsStripped(ds.value.fs.files[file], text)
  {
    hide Uri.Parse, FileContent, Frontmatter.IsStripped;
    if Uri.Parse(uri).Ok? && ds.Some? {
      var path := Uri.Parse(uri).value.path;
      var file := TrimPrefix(path, "/");
      assert file == if path != "" && path[0] == '/' then path[1..] else path;
      assert path != "" && path[0] == '/' ==> path == "/" + file;
      forall f: string | f != "" && (path == "/" + f || (path == f && f[0] != '/'))
        ensures f == file
      {
        assert path == "/" + f ==> path[1..] == f;
      }
      ReadMeans(ds.value.fs, file, text);
    }
  }

  // ----- Searching

  const DEFAULT_LIMIT: int := 25

  /** The ranking of hits is a parameter: the identifiers found in an index for a query, at most
      so many, or an error. */
  type Ranking = (map<string, Chunk>, string, int) -> Option<seq<string>>

  ghost predicate HitsAreIndexed(rank: Ranking) {
    forall index, query, limit ::
      match rank(index, query, limit)
      case None => true
      case Some(ids) => forall id :: id in ids ==> id in index
  }

  /** `SearchDocs`. */
  function SearchDocs(ds: Option<DocsState>, query: string, limit: int, rank: Ranking): Result<seq<string>> {
    if ds.None? then Err
    else
      match rank(ds.value.index, query, if limit < 1 then DEFAULT_LIMIT else limit)
      case None => Err
      case Some(ids) => Ok(ids)
  }

  /** What the index finds: asked for 25 hits if the limit is below 1, and otherwise for as many as the
      limit says. */
  function Hits(ds: DocsState, query: string, limit: int, rank: Ranking): Option<seq<string>> {
    rank(ds.index, query, if limit <= 0 then 25 else limit)
  }

  /** The file names behind chunk identifiers, malformed identifiers skipped, each name once, in
      order of first occurrence. */
  function FilesOf(ids: seq<string>): seq<string> {
    if ids == [] then []
    else
      var files := FilesOf(ids[..|ids| - 1]);
      var name := RecoverName(ids[|ids| - 1]);
      if name.None? || name.value in files then files else files + [name.value]
  }

  /** Reading the files in turn; the `i`-th read sees the state `views(i + 1)`. */
  function ReadAll(files: seq<string>, views: nat -> Option<DocsState>): Result<seq<string>> {
    if files == [] then Ok([])
    else
      var before := ReadAll(files[..|files| - 1], views);
      var last := DocsRead(views(|files|), files[|files| - 1]);
      if before.Err? || last.Err? then Err else Ok(before.value + [last.value])
  }

  /** The files found, and their contents. */
  datatype Found = Found(files: seq<string>, contents: seq<string>)

  /** What a search returns when its search sees `views(0)` and its reads what follows. */
  function SearchOutcome(query: string, limit: int, rank: Ranking, views: nat -> Option<DocsState>): Result<Found> {
    if query == "" then Err
    else
      match SearchDocs(views(0), query, limit, rank)
      case Err => Err
      case Ok(ids) =>
        match ReadAll(FilesOf(ids), views)
        case Err => Err
        case Ok(contents) => Ok(Found(FilesOf(ids), contents))
  }

  lemma {:induction false} FirstErrorDecides(files: seq<string>, n: nat, views: nat -> Option<DocsState>)
    requires n <= |files| && ReadAll(files[..n], views).Err?
    ensures ReadAll(files, views).Err?
    decreases |files|
  {
    if n == |files| {
      assert files[..n] == files;
    } else {
      assert files[..|files| - 1][..n] == files[..n];
      FirstErrorDecides(files[..|files| - 1], n, views);
    }
  }

  /** `DocsSearchHandler`: a seen-map and list built in one pass, then one read per file. */
  method DocsSearch(query: string, limit: int, rank: Ranking, views: nat -> Option<DocsState>)
    returns (r: Result<Found>)
    ensures r == SearchOutcome(query, limit, rank, views)
    ensures r.Ok? ==> query != "" && views(0).Some? && Hits(views(0).value, query, limit, rank).Some?
    ensures r.Ok? ==> r.value.files == FilesOf(Hits(views(0).value, query, limit, rank).value)
    ensures query != "" && views(0).Some? && Hits(views(0).value, query, limit, rank) == Some([]) ==>
              r == Ok(Found([], []))
  {
    hide DocsRead, RecoverName;
    if query == "" {
      return Err;
    }
    var matching := SearchDocs(views(0), query, limit, rank);
    if matching.Err? {
      return Err;
    }
    var ids := matching.value;
    if |ids| == 0 {
      return Ok(Found([], []));
    }
    var files: seq<string> := [];
    var seen: set<string> := {};
    for n := 0 to |ids|
      invariant files == FilesOf(ids[..n])
      invariant forall name :: name in seen <==> name in files
    {
      assert ids[..n + 1][..n] == ids[..n];
      var name := RecoverName(ids[n]);
      if name.None? {
        continue;
      }
      if name.value !in seen {
        seen := seen + {name.value};
        files := files + [name.value];
      }
    }
    assert ids[..|ids|] == ids;
    var contents: seq<string> := [];
    for n := 0 to |files|
      invariant ReadAll(files[..n], views) == Ok(contents)
    {
      assert files[..n + 1][..n] == files[..n];
      var content := DocsRead(views(n + 1), files[n]);
      if content.Err? {
        FirstErrorDecides(files, n + 1, views);
        return Err;
      }
      contents := contents + [content.value];
    }
    assert files[..|files|] == files;
    r := Ok(Found(files, contents));
  }

  // ----- What the file list is

  ghost predicate Names(ids: seq<string>, name: string) {
    exists k :: 0 <= k < |ids| && RecoverName(ids[k]) == Some(name)
  }

  /** Position `k` is where `name` is first recovered. */
  ghost predicate FirstAt(ids: seq<string>, name: string, k: nat) {
    && k < |ids| && RecoverName(ids[k]) == Some(name)
    && forall j :: 0 <= j < k ==> RecoverName(ids[j]) != Some(name)
  }

  /** `a` is first recovered before `b` is. */
  ghost predicate FirstBefore(ids: seq<string>, a: string, b: string) {
    exists k: nat, l: nat :: k < l && FirstAt(ids, a, k) && FirstAt(ids, b, l)
  }

  lemma PrefixFacts(ids: seq<string>, m: nat)
    requires m <= |ids|
    ensures forall name :: Names(ids[..m], name) ==> Names(ids, name)
    ensures forall name, k: nat :: FirstAt(ids[..m], name, k) ==> FirstAt(ids, name, k)
    ensures forall a, b :: FirstBefore(ids[..m], a, b) ==> FirstBefore(ids, a, b)
  {
    forall name | Names(ids[..m], name)
      ensures Names(ids, name)
    {
      var k :| 0 <= k < m && RecoverName(ids[..m][k]) == Some(name);
      assert RecoverName(ids[k]) == Some(name);
    }
    assert forall name, k: nat :: FirstAt(ids[..m], name, k) ==> FirstAt(ids, name, k);
    forall a, b | FirstBefore(ids[..m], a, b)
      ensures FirstBefore(ids, a, b)
    {
      var k: nat, l: nat :| k < l && FirstAt(ids[..m], a, k) && FirstAt(ids[..m], b, l);
      assert FirstAt(ids, a, k) && FirstAt(ids, b, l);
    }
  }

  /** The list holds exactly the recovered names, none twice, ordered by first occurrence. */
  lemma {:induction false} FilesOfMeans(ids: seq<string>)
    ensures forall name :: name in FilesOf(ids) <==> Names(ids, name)
    ensures forall i, j :: 0 <= i < j < |FilesOf(ids)| ==> FirstBefore(ids, FilesOf(ids)[i], FilesOf(ids)[j])
    ensures forall i, j :: 0 <= i < j < |FilesOf(ids)| ==> FilesOf(ids)[i] != FilesOf(ids)[j]
  {
    hide RecoverName;
    if ids != [] {
      var last := |ids| - 1;
      var init := ids[..last];
      FilesOfMeans(init);
      PrefixFacts(ids, last);
      var files, name := FilesOf(init), RecoverName(ids[last]);
      if name.Some? {
        assert Names(ids, name.value);
      }
      forall n | Names(ids, n)
        ensures Names(init, n) || name == Some(n)
      {
        var k :| 0 <= k < |ids| && RecoverName(ids[k]) == Some(n);
        if k < last {
          assert RecoverName(init[k]) == Some(n);
        }
      }
      if name.Some? && name.value !in files {
        assert !Names(init, name.value);
        forall k | 0 <= k < last
          ensures RecoverName(ids[k]) != name
        {
          assert init[k] == ids[k];
        }
        assert FirstAt(ids, name.value, last);
        forall i | 0 <= i < |files|
          ensures FirstBefore(ids, files[i], name.value)
        {
          assert files[i] in files;
          var k :| 0 <= k < |init| && RecoverName(init[k]) == Some(files[i]);
          FirstExists(init, files[i], k);
          var l: nat :| FirstAt(init, files[i], l);
          assert FirstAt(ids, files[i], l) && l < last;
        }
      }
    }
  }

  lemma {:induction false} FirstExists(ids: seq<string>, name: string, k: nat)
    requires k < |ids| && RecoverName(ids[k]) == Some(name)
    ensures exists l: nat :: FirstAt(ids, name, l)
  {
    if j :| 0 <= j < k && RecoverName(ids[j]) == Some(name) {
      FirstExists(ids, name, j);
    } else {
      assert FirstAt(ids, name, k);
    }
  }

  // ----- When a search succeeds

  /** Each file can be read in the state that its own read sees. */
  ghost predicate AllReadable(files: seq<string>, views: nat -> Option<DocsState>) {
    forall n :: 0 <= n < |files| ==> DocsRead(views(n + 1), files[n]).Ok?
  }

  /** Each content is what the read of that file returns in the state it sees. */
  ghost predicate AllRead(found: Found, views: nat -> Option<DocsState>) {
    && |found.contents| == |found.files|
    && forall n :: 0 <= n < |found.files| ==> DocsRead(views(n + 1), found.files[n]) == Ok(found.contents[n])
  }

  lemma {:induction false} ReadAllMeans(files: seq<string>, views: nat -> Option<DocsState>)
    ensures ReadAll(files, views).Ok? <==> AllReadable(files, views)
    ensures ReadAll(files, views).Ok? ==> AllRead(Found(files, ReadAll(files, views).value), views)
  {
    hide DocsRead;
    if files != [] {
      var init := files[..|files| - 1];
      ReadAllMeans(init, views);
      assert forall n :: 0 <= n < |init| ==> init[n] == files[n];
    }
  }

  /** A search whose index lookup works succeeds if and only if every file found can be read in
      the state that its own read sees, and then returns what those reads return. */
  lemma SearchSucceedsIff(query: string, limit: int, rank: Ranking, views: nat -> Option<DocsState>)
    requires query != "" && SearchDocs(views(0), query, limit, rank).Ok?
    ensures var files := FilesOf(SearchDocs(views(0), query, limit, rank).value);
      SearchOutcome(query, limit, rank, views).Ok? <==> AllReadable(files, views)
    ensures SearchOutcome(query, limit, rank, views).Ok? ==>
      var found := SearchOutcome(query, limit, rank, views).value;
      && found.files == FilesOf(SearchDocs(views(0), query, limit, rank).value)
      && AllRead(found, views)
  {
    hide DocsRead;
    ReadAllMeans(FilesOf(SearchDocs(views(0), query, limit, rank).value), views);
  }

  /** A search fails if and only if the query is empty, no documentation is loaded, the index lookup
      fails, or some file found cannot be read in the state that its own read sees; each content is the
      stripped text of its file in that state. */
  lemma SearchMeans(query: string, limit: int, rank: Ranking, views: nat -> Option<DocsState>)
    requires forall ds, files :: views(0) == Some(ds) && Hits(ds, query, limit, rank) == Some(files) ==>
               forall name :: name in FilesOf(files) ==> Uri.IsBytes(name)
    ensures var r := SearchOutcome(query, limit, rank, views);
      && (r.Ok? <==> query != "" && views(0).Some? && Hits(views(0).value, query, limit, rank).Some?
                     && FilesReadable(FilesOf(Hits(views(0).value, query, limit, rank).value), views))
      && (r.Ok? ==>
            && r.value.files == FilesOf(Hits(views(0).value, query, limit, rank).value)
            && TextsRead(r.value, views))
  {
    hide DocsRead;
    if query != "" && views(0).Some? && Hits(views(0).value, query, limit, rank).Some? {
      var files := FilesOf(Hits(views(0).value, query, limit, rank).value);
      ReadAllMeans(files, views);
      ReadableMeans(files, views);
      if ReadAll(files, views).Ok? {
        TextsMean(Found(files, ReadAll(files, views).value), views);
      }
      hide ReadAll, FilesReadable, TextsRead, AllRead, AllReadable;
    }
  }

  /** The name is that of a file of that state. */
  predicate CanRead(ds: Option<DocsState>, file: string) {
    file != "" && ds.Some? && file in ds.value.fs.files
  }

  ghost predicate FilesReadable(files: seq<string>, views: nat -> Option<DocsState>) {
    forall n :: 0 <= n < |files| ==> CanRead(views(n + 1), files[n])
  }

  /** `text` is that of the file in that state, without the block at its beginning. */
  ghost predicate TextOf(ds: Option<DocsState>, file: string, text: string) {
    CanRead(ds, file) && Frontmatter.IsStripped(ds.value.fs.files[file], text)
  }

  ghost predicate TextsRead(found: Found, views: nat -> Option<DocsState>) {
    && |found.contents| == |found.files|
    && forall n :: 0 <= n < |found.files| ==> TextOf(views(n + 1), found.files[n], found.contents[n])
  }

  lemma ReadableMeans(files: seq<string>, views: nat -> Option<DocsState>)
    requires forall name :: name in files ==> Uri.IsBytes(name)
    ensures AllReadable(files, views) <==> FilesReadable(files, views)
  {
    hide DocsRead, CanRead, Uri.IsBytes;
    forall n | 0 <= n < |files|
      ensures DocsRead(views(n + 1), files[n]).Ok? <==> CanRead(views(n + 1), files[n])
    {
      assert files[n] in files;
      CanReadMeans(views(n + 1), files[n]);
    }
  }

  lemma CanReadMeans(ds: Option<DocsState>, file: string)
    requires Uri.IsBytes(file)
    ensures DocsRead(ds, file).Ok? <==> CanRead(ds, file)
  {
    DocsReadMeans(ds, file, "");
    hide DocsRead;
  }

  lemma TextsMean(found: Found, views: nat -> Option<DocsState>)
    requires forall name :: name in found.files ==> Uri.IsBytes(name)
    ensures AllRead(found, views) <==> TextsRead(found, views)
  {
    hide DocsRead, TextOf, Uri.IsBytes;
    if |found.contents| == |found.files| {
      forall n | 0 <= n < |found.files|
        ensures DocsRead(views(n + 1), found.files[n]) == Ok(found.contents[n]) <==>
          TextOf(views(n + 1), found.files[n], found.contents[n])
      {
        assert found.files[n] in found.files;
        TextMeans(views(n + 1), found.files[n], found.contents[n]);
      }
    }
  }

  lemma TextMeans(ds: Option<DocsState>, file: string, text: string)
    requires Uri.IsBytes(file)
    ensures DocsRead(ds, file) == Ok(text) <==> TextOf(ds, file, text)
  {
    DocsReadMeans(ds, file, text);
    hide DocsRead, Frontmatter.IsStripped;
  }

  /** Path names are non-empty byte strings. */
  ghost predicate ProperPaths(fs: DocsFS) {
    forall path :: path in fs.files ==> path != "" && Uri.IsBytes(path)
  }

  /** Every file name recovered from a hit names a file that can be read. */
  lemma HitNamesReadableFile(ds: DocsState, libs: Libs, id: string, name: string)
    requires Built(ds, libs) && id in ds.index && RecoverName(id) == Some(name)
    ensures name in ds.fs.files
  {
    var c, names := ds.index[id], ListedPaths(ds.fs.walk.value);
    RecoverNameIff(c);
    AllChunksMeans(ds.fs, names, libs, c);
  }

  /** If all of a search sees one state, it succeeds and returns the stripped text of each file. */
  lemma SearchOfOneState(query: string, limit: int, rank: Ranking, views: nat -> Option<DocsState>,
                         ds: DocsState, libs: Libs)
    requires query != "" && HitsAreIndexed(rank) && Built(ds, libs) && ProperPaths(ds.fs)
    requires views(0) == Some(ds) && SearchDocs(Some(ds), query, limit, rank).Ok?
    requires var files := FilesOf(SearchDocs(Some(ds), query, limit, rank).value);
      forall n :: 0 < n <= |files| ==> views(n) == Some(ds)
    ensures var r := SearchOutcome(query, limit, rank, views);
      && r.Ok? && |r.value.contents| == |r.value.files|
      && r.value.files == FilesOf(SearchDocs(Some(ds), query, limit, rank).value)
      && forall n :: 0 <= n < |r.value.files| ==>
           && Ok(r.value.contents[n]) == FileContent(ds.fs, r.value.files[n])
           && r.value.files[n] in ds.fs.files
           && Frontmatter.IsStripped(ds.fs.files[r.value.files[n]], r.value.contents[n])
  {
    hide DocsRead, RecoverName, Built, FileContent, Frontmatter.IsStripped;
    var ids := SearchDocs(Some(ds), query, limit, rank).value;
    var files := FilesOf(ids);
    SearchSucceedsIff(query, limit, rank, views);
    FilesOfMeans(ids);
    forall n | 0 <= n < |files|
      ensures DocsRead(views(n + 1), files[n]) == FileContent(ds.fs, files[n])
      ensures FileContent(ds.fs, files[n]).Ok? && files[n] in ds.fs.files
      ensures Frontmatter.IsStripped(ds.fs.files[files[n]], FileContent(ds.fs, files[n]).value)
    {
      assert Names(ids, files[n]);
      var k :| 0 <= k < |ids| && RecoverName(ids[k]) == Some(files[n]);
      assert ids[k] in ds.index;
      HitNamesReadableFile(ds, libs, ids[k], files[n]);
      DocsReadIsFileRead(views(n + 1), files[n]);
      Readable(ds.fs, files[n]);
      ReadMeans(ds.fs, files[n], FileContent(ds.fs, files[n]).value);
    }
  }

  lemma Readable(fs: DocsFS, path: string)
    requires path in fs.files
    ensures FileContent(fs, path).Ok?
  {
  }

  // ----- Searching while states are swapped

  /** The state behind a `s.docs` value. */
  function Deref(ds: DocsProtocol.Docs, store: nat -> DocsState): Option<DocsState> {
    match ds
    case Nil => None
    case Ptr(i) => Some(store(i))
  }

  /** What the uses at positions `at` of an event log see. */
  function ViewsAt(hist: seq<DocsProtocol.Event>, at: seq<nat>, store: nat -> DocsState): nat -> Option<DocsState> {
    (n: nat) =>
      if n < |at| && at[n] < |hist| && hist[at[n]].Use? then Deref(hist[at[n]].ds, store) else None
  }

  /** In any run of the docs protocol: a search whose critical sections are the uses at positions
      `at` succeeds if no swap is installed between the first and the last of them. */
  lemma SearchWithoutSwapSucceeds(
      sched: DocsProtocol.Schedule, at: seq<nat>, store: nat -> DocsState, libs: Libs,
      query: string, limit: int, rank: Ranking)
    requires query != "" && HitsAreIndexed(rank)
    requires forall i :: Built(store(i), libs) && ProperPaths(store(i).fs)
    requires var hist := DocsProtocol.Run(sched).hist;
      && at != []
      && (forall n :: 0 <= n < |at| ==> at[0] <= at[n] <= at[|at| - 1] < |hist| && hist[at[n]].Use?)
      && (forall q :: at[0] < q < at[|at| - 1] ==> !hist[q].Install?)
    requires var views := ViewsAt(DocsProtocol.Run(sched).hist, at, store);
      var found := SearchDocs(views(0), query, limit, rank);
      found.Ok? && |at| == |FilesOf(found.value)| + 1
    ensures SearchOutcome(query, limit, rank, ViewsAt(DocsProtocol.Run(sched).hist, at, store)).Ok?
  {
    hide Built, SearchOutcome, ProperPaths;
    var hist := DocsProtocol.Run(sched).hist;
    var views := ViewsAt(hist, at, store);
    forall n | 0 <= n < |at|
      ensures views(n) == views(0)
    {
      DocsSafety.NoSwapSameState(sched, at[0], at[n]);
    }
    var ds := views(0).value;
    var i :| hist[at[0]].ds == DocsProtocol.Ptr(i) && ds == store(i);
    SearchOfOneState(query, limit, rank, views, ds, libs);
  }

  /** `at` are the positions of the uses in the critical sections of one search, in order. */
  ghost predicate SearchAt(hist: seq<DocsProtocol.Event>, at: seq<nat>) {
    && at != []
    && (forall n :: 0 <= n < |at| ==> at[n] < |hist| && hist[at[n]].Use?)
    && (forall m, n :: 0 <= m < n < |at| ==> at[m] < at[n])
  }

  /** In any run, swaps included: no read of a search sees documentation older than what its
      search or an earlier read of it saw. */
  lemma SearchSeesGenerationsInOrder(
      sched: DocsProtocol.Schedule, at: seq<nat>, m: nat, n: nat, a: nat, b: nat)
    requires SearchAt(DocsProtocol.Run(sched).hist, at) && m <= n < |at|
    requires var hist := DocsProtocol.Run(sched).hist;
      hist[at[m]].ds == DocsProtocol.Ptr(a) && hist[at[n]].ds == DocsProtocol.Ptr(b)
    ensures var hist := DocsProtocol.Run(sched).hist;
      exists p: nat, r: nat ::
        && p < at[m] && r < at[n] && p <= r
        && DocsSafety.InstalledAt(hist, p, a) && DocsSafety.InstalledAt(hist, r, b)
    ensures DocsSafety.NotOlder(DocsProtocol.Run(sched).hist, a, b)
  {
    DocsSafety.GenerationsNeverGoBack(sched, at[m], at[n], a, b);
  }

  /** In any run, swaps included: a search whose last read sees the generation that was searched
      has seen no other in between, and succeeds. */
  lemma SearchOfSameGenerationSucceeds(
      sched: DocsProtocol.Schedule, at: seq<nat>, i: nat, store: nat -> DocsState, libs: Libs,
      query: string, limit: int, rank: Ranking)
    requires query != "" && HitsAreIndexed(rank)
    requires Built(store(i), libs) && ProperPaths(store(i).fs)
    requires var hist := DocsProtocol.Run(sched).hist;
      SearchAt(hist, at) && hist[at[0]].ds == hist[at[|at| - 1]].ds == DocsProtocol.Ptr(i)
    requires var found := SearchDocs(Some(store(i)), query, limit, rank);
      found.Ok? && |at| == |FilesOf(found.value)| + 1
    ensures forall n :: 0 <= n < |at| ==> DocsProtocol.Run(sched).hist[at[n]].ds == DocsProtocol.Ptr(i)
    ensures SearchOutcome(query, limit, rank, ViewsAt(DocsProtocol.Run(sched).hist, at, store)).Ok?
  {
    hide Built, SearchOutcome, ProperPaths;
    var hist := DocsProtocol.Run(sched).hist;
    forall n | 0 <= n < |at|
      ensures hist[at[n]].ds == DocsProtocol.Ptr(i)
    {
      if 0 < n < |at| - 1 && hist[at[n]].ds != DocsProtocol.Ptr(i) {
        DocsSafety.ReplacedNeverSeenAgain(sched, at[0], at[n], at[|at| - 1], i);
      }
    }
    SearchOfOneState(query, limit, rank, ViewsAt(hist, at, store), store(i), libs);
  }
}
