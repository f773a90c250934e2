/** The documentation updater: one check of the remote per call of `Update`, serialised by a
    mutex, and the server container whose documentation it replaces. */
module Updater {
  import opened Text
  import opened Archive
  import opened DocsIndex
  import opened MapFs
  import opened Utf8
  import opened MapWalk

  const MAIN: string := "refs/heads/main"

  /** What one call of `Update` meets: the remote's references, the answer to the archive
      request, how the extracted files are walked, and whether an index can be created. */
  datatype Remote = Remote(
    refs: Option<map<string, string>>,
    archive: Answer,
    walk: map<string, string> -> Option<seq<WalkEntry>>,
    indexCreated: bool)

  datatype Answer = NoAnswer | Answer(status: int, gzip: bool, items: seq<Item>)

  /** The extracted files as a file system. */
  function Served(remote: Remote, memFS: map<string, string>): DocsFS {
    DocsFS(remote.walk(memFS), Openable(memFS))
  }

  /** `fetchAndUpdateDocsFS` up to the swap: the state to install. */
  function Fetched(remote: Remote, libs: Libs): Result<DocsState> {
    if remote.archive.NoAnswer? || remote.archive.status != 200 || !remote.archive.gzip then Err
    else
      match Extracted(remote.archive.items)
      case Err => Err
      case Ok(memFS) => BuildState(Some(Served(remote, memFS)), remote.indexCreated, libs)
  }

  /** What can be observed of a container when no swap is in progress. */
  datatype Server = Server(docs: Option<DocsState>, closed: seq<DocsState>, swaps: nat)

  /** One swap: the new state is current, and the superseded state, if any, is closed. */
  function Swapped(sv: Server, state: Option<DocsState>): Server {
    Server(state, sv.closed + (if sv.docs.Some? then [sv.docs.value] else []), sv.swaps + 1)
  }

  /** The download works: an answer with status 200, a gzip stream, an archive that no item breaks
      and in which some entry is wanted, files that can be walked, and an index for them. */
  ghost predicate Downloadable(remote: Remote) {
    && remote.archive.Answer? && remote.archive.status == 200 && remote.archive.gzip
    && var items := remote.archive.items;
    (&& (forall n :: 0 <= n < |items| ==> !Fatal(items, n))
     && (exists n :: 0 <= n < |items| && Wanted(items[n]))
     && (Extracted(items).Ok? ==> remote.walk(Extracted(items).value).Some?)
     && remote.indexCreated)
  }

  lemma DownloadSucceedsIff(remote: Remote, libs: Libs)
    ensures Fetched(remote, libs).Ok? <==> Downloadable(remote)
    ensures Downloadable(remote) ==>
      && Extracted(remote.archive.items).Ok?
      && Fetched(remote, libs).value.fs == Served(remote, Extracted(remote.archive.items).value)
  {
    hide Extracted, Fatal, Wanted, IndexNames;
    if remote.archive.Answer? {
      SucceedsIff(remote.archive.items);
    }
  }

  /** `ServerContainer`, as far as documentation goes. */
  class ServerContainer {
    var docs: Option<DocsState>
    /** The states whose index has been closed, oldest first. */
    var closed: seq<DocsState>
    var swaps: nat

    constructor ()
      ensures docs == None && closed == [] && swaps == 0
    {
      docs, closed, swaps := None, [], 0;
    }

    function View(): Server
      reads this
    {
      Server(docs, closed, swaps)
    }

    /** `swapDocsState`, run by one goroutine. */
    method SwapDocsState(state: Option<DocsState>)
      modifies this
      ensures View() == Swapped(old(View()), state)
      ensures docs == state && swaps == old(swaps) + 1
      ensures closed == old(closed) + if old(docs).Some? then [old(docs).value] else []
    {
      var oldState := docs;
      docs := state;
      swaps := swaps + 1;
      if oldState.Some? {
        closed := closed + [oldState.value];
      }
    }
  }

  /** What can be observed between two calls of `Update`, when nobody holds the mutex. */
  datatype Snapshot = Snapshot(
    hash: string,
    docs: Option<DocsState>,
    closed: seq<DocsState>,
    swaps: nat,
    fetches: nat,
    failures: nat)

  class DocsUpdater {
    const container: ServerContainer
    var currentHash: string
    var fetches: nat
    /** The counter `docs_update_failures_total`. */
    var failures: nat

    constructor (container: ServerContainer, embeddedHash: string)
      ensures this.container == container && currentHash == embeddedHash && fetches == failures == 0
    {
      this.container := container;
      currentHash := embeddedHash;
      fetches, failures := 0, 0;
    }

    function Observe(): Snapshot
      reads this, container
    {
      Snapshot(currentHash, container.docs, container.closed, container.swaps, fetches, failures)
    }

    /** `checkForUpdate`: the main branch's hash and whether it differs, or an error. */
    method CheckForUpdate(remote: Remote) returns (sha: string, changed: bool, ok: bool)
      ensures ok <==> remote.refs.Some? && MAIN in remote.refs.value
      ensures ok ==> sha == remote.refs.value[MAIN] && (changed <==> sha != currentHash)
    {
      if remote.refs.None? {
        return "", false, false;
      }
      if MAIN !in remote.refs.value {
        return "", false, false;
      }
      sha := remote.refs.value[MAIN];
      changed, ok := sha != currentHash, true;
    }

    /** `fetchAndUpdateDocsFS`. */
    method FetchAndUpdateDocsFS(remote: Remote, libs: Libs) returns (ok: bool)
      modifies this`fetches, container
      ensures fetches == old(fetches) + 1
      ensures ok <==> Downloadable(remote)
      ensures ok <==> Fetched(remote, libs).Ok?
      ensures if ok then
          && container.docs == Some(Fetched(remote, libs).value)
          && container.swaps == old(container.swaps) + 1
          && container.closed == old(container.closed)
               + if old(container.docs).Some? then [old(container.docs).value] else []
        else
          && container.docs == old(container.docs)
          && container.swaps == old(container.swaps) && container.closed == old(container.closed)
    {
      hide Extracted, BuildState, Downloadable;
      DownloadSucceedsIff(remote, libs);
      fetches := fetches + 1;
      if remote.archive.NoAnswer? {
        return false;
      }
      if remote.archive.status != 200 || !remote.archive.gzip {
        return false;
      }
      var memFS := ExtractDocs(remote.archive.items);
      if memFS.Err? {
        return false;
      }
      var newState := BuildDocsState(Some(Served(remote, memFS.value)), remote.indexCreated, libs);
      if newState.Err? {
        return false;
      }
      container.SwapDocsState(Some(newState.value));
      ok := true;
    }

    /** One update check. The result is false when the source returns an error. */
    method Update(remote: Remote, libs: Libs) returns (ok: bool)
      modifies this, container
      ensures Observe() == After(old(Observe()), remote, libs)
      ensures ok <==> Succeeds(old(Observe()), remote)
      ensures ok <==> !Fails(old(Observe()), remote, libs)
    {
      hide Fetched, Downloadable;
      DownloadSucceedsIff(remote, libs);
      var newCommit, changed, checked := CheckForUpdate(remote);
      if !checked {
        failures := failures + 1;
        return false;
      }
      if !changed {
        return true;
      }
      var fetched := FetchAndUpdateDocsFS(remote, libs);
      if !fetched {
        failures := failures + 1;
        return false;
      }
      currentHash := newCommit;
      ok := true;
    }
  }

  // ----- One call, as a function of what it meets

  /** The remote names a commit other than the current one. */
  predicate NewCommit(st: Snapshot, remote: Remote) {
    remote.refs.Some? && MAIN in remote.refs.value && remote.refs.value[MAIN] != st.hash
  }

  /** The call returns no error: the main branch is listed, and if its hash is new, the download
      works. */
  ghost predicate Succeeds(st: Snapshot, remote: Remote) {
    && remote.refs.Some? && MAIN in remote.refs.value
    && (remote.refs.value[MAIN] != st.hash ==> Downloadable(remote))
  }

  /** The call installs new documentation. */
  predicate Applies(st: Snapshot, remote: Remote, libs: Libs) {
    NewCommit(st, remote) && Fetched(remote, libs).Ok?
  }

  /** The call returns an error. */
  predicate Fails(st: Snapshot, remote: Remote, libs: Libs) {
    remote.refs.None? || MAIN !in remote.refs.value || (NewCommit(st, remote) && Fetched(remote, libs).Err?)
  }

  function After(st: Snapshot, remote: Remote, libs: Libs): Snapshot {
    if Applies(st, remote, libs) then
      Snapshot(remote.refs.value[MAIN],
               Some(Fetched(remote, libs).value),
               st.closed + if st.docs.Some? then [st.docs.value] else [],
               st.swaps + 1,
               st.fetches + 1,
               st.failures)
    else
      st.(fetches := st.fetches + if NewCommit(st, remote) then 1 else 0,
          failures := st.failures + if Fails(st, remote, libs) then 1 else 0)
  }

  /** When a call installs the new documentation, which it then is, and when it reports a failure. */
  lemma UpdateMeans(st: Snapshot, remote: Remote, libs: Libs)
    ensures var st' := After(st, remote, libs);
      if remote.refs.Some? && MAIN in remote.refs.value && remote.refs.value[MAIN] != st.hash && Downloadable(remote)
      then
        && st'.hash == remote.refs.value[MAIN] && st'.failures == st.failures
        && st'.swaps == st.swaps + 1 && st'.fetches == st.fetches + 1
        && Extracted(remote.archive.items).Ok? && st'.docs.Some?
        && st'.docs.value.fs == Served(remote, Extracted(remote.archive.items).value)
        && Built(st'.docs.value, libs)
        && st'.closed == st.closed + if st.docs.Some? then [st.docs.value] else []
      else
        && st'.hash == st.hash && st'.docs == st.docs && st'.closed == st.closed && st'.swaps == st.swaps
        && st'.failures == st.failures + (if Succeeds(st, remote) then 0 else 1)
        && st'.fetches == st.fetches +
             if remote.refs.Some? && MAIN in remote.refs.value && remote.refs.value[MAIN] != st.hash then 1 else 0
  {
    hide Fetched, Downloadable, Built, Served;
    DownloadSucceedsIff(remote, libs);
    if Downloadable(remote) {
      FetchedIsBoundedAndIndexed(remote, libs);
    }
  }

  // ----- Any sequence of calls, against any remote

  function AfterAll(st: Snapshot, remotes: seq<Remote>, libs: Libs): Snapshot {
    if remotes == [] then st
    else After(AfterAll(st, remotes[..|remotes| - 1], libs), remotes[|remotes| - 1], libs)
  }

  /** The state in which the `n`-th call is made. */
  function Before(st: Snapshot, remotes: seq<Remote>, libs: Libs, n: nat): Snapshot
    requires n <= |remotes|
  {
    AfterAll(st, remotes[..n], libs)
  }

  /** How many of the calls satisfy `p` in the state they are made in. */
  function Count(p: (Snapshot, Remote) -> bool, st: Snapshot, remotes: seq<Remote>, libs: Libs): nat {
    if remotes == [] then 0
    else
      var init, last := remotes[..|remotes| - 1], remotes[|remotes| - 1];
      Count(p, st, init, libs) + if p(AfterAll(st, init, libs), last) then 1 else 0
  }

  /** How often the hash differs before and after a call. */
  function HashChanges(st: Snapshot, remotes: seq<Remote>, libs: Libs): nat {
    Count((s, r) => After(s, r, libs).hash != s.hash, st, remotes, libs)
  }

  /** A call changes the hash if and only if it swaps; an error leaves documentation and hash
      alone and adds one failure; a known commit causes no fetch, no swap and no failure. */
  lemma OneCall(st: Snapshot, remote: Remote, libs: Libs)
    ensures var st' := After(st, remote, libs);
      && (st'.hash != st.hash <==> st'.swaps == st.swaps + 1)
      && (st'.hash == st.hash <==> st' == st.(fetches := st'.fetches, failures := st'.failures))
      && (Fails(st, remote, libs) ==> st'.docs == st.docs && st'.hash == st.hash && st'.failures == st.failures + 1)
      && (!Fails(st, remote, libs) ==> st'.failures == st.failures)
      && (!Fails(st, remote, libs) && !NewCommit(st, remote) ==> st' == st)
  {
  }

  /** The balance over any number of calls: swaps are hash changes, fetches are the calls that
      met a new commit, failures are the calls that returned an error, and every replaced state
      had its index closed once. */
  lemma {:induction false} UpdateBalance(st: Snapshot, remotes: seq<Remote>, libs: Libs)
    ensures var st' := AfterAll(st, remotes, libs);
      && st'.swaps == st.swaps + HashChanges(st, remotes, libs)
      && st'.fetches == st.fetches + Count((s, r) => NewCommit(s, r), st, remotes, libs)
      && st'.failures == st.failures + Count((s, r) => Fails(s, r, libs), st, remotes, libs)
      && |st'.closed| + (if st'.docs.Some? then 1 else 0)
           == |st.closed| + (if st.docs.Some? then 1 else 0) + HashChanges(st, remotes, libs)
  {
    if remotes != [] {
      var init, last := remotes[..|remotes| - 1], remotes[|remotes| - 1];
      UpdateBalance(st, init, libs);
      OneCall(AfterAll(st, init, libs), last, libs);
    }
  }

  /** The call at `n` installed what it fetched, and no later call did. */
  ghost predicate LastApplied(st: Snapshot, remotes: seq<Remote>, libs: Libs, n: nat) {
    && n < |remotes| && Applies(Before(st, remotes, libs, n), remotes[n], libs)
    && forall m :: n < m < |remotes| ==> !Applies(Before(st, remotes, libs, m), remotes[m], libs)
  }

  lemma AfterApply(st: Snapshot, remote: Remote, libs: Libs)
    ensures var st' := After(st, remote, libs);
      if Applies(st, remote, libs)
      then st'.hash == remote.refs.value[MAIN] && st'.docs == Some(Fetched(remote, libs).value)
      else st'.hash == st.hash && st'.docs == st.docs && st'.closed == st.closed
  {
  }

  lemma LastAppliedOfPrefix(st: Snapshot, remotes: seq<Remote>, libs: Libs)
    requires remotes != []
    ensures var last := |remotes| - 1;
      if Applies(Before(st, remotes, libs, last), remotes[last], libs)
      then forall n: nat :: LastApplied(st, remotes, libs, n) <==> n == last
      else forall n: nat :: LastApplied(st, remotes, libs, n) <==> LastApplied(st, remotes[..last], libs, n)
  {
    hide Applies, AfterAll;
    var last := |remotes| - 1;
    var init := remotes[..last];
    forall m | 0 <= m <= last
      ensures Before(st, init, libs, m) == Before(st, remotes, libs, m)
    {
      assert init[..m] == remotes[..m];
    }
    if Applies(Before(st, remotes, libs, last), remotes[last], libs) {
      assert LastApplied(st, remotes, libs, last);
    }
  }

  /** After any calls, hash and documentation are both those of the last call that installed
      anything: the hash its references named, the state its archive extracts to. If no call
      did, both are the initial ones. */
  lemma {:induction false} HashAndDocsOfLastApplied(st: Snapshot, remotes: seq<Remote>, libs: Libs)
    ensures var st' := AfterAll(st, remotes, libs);
      (forall n: nat :: !LastApplied(st, remotes, libs, n)) ==>
        st'.hash == st.hash && st'.docs == st.docs && st'.closed == st.closed
    ensures var st' := AfterAll(st, remotes, libs);
      forall n: nat :: LastApplied(st, remotes, libs, n) ==>
        && n < |remotes|
        && remotes[n].refs.Some? && MAIN in remotes[n].refs.value && Fetched(remotes[n], libs).Ok?
        && st'.hash == remotes[n].refs.value[MAIN] && st'.docs == Some(Fetched(remotes[n], libs).value)
  {
    hide Fetched, After, LastApplied;
    if remotes != [] {
      var last := |remotes| - 1;
      var init := remotes[..last];
      HashAndDocsOfLastApplied(st, init, libs);
      LastAppliedOfPrefix(st, remotes, libs);
      var before := AfterAll(st, init, libs);
      assert AfterAll(st, remotes, libs) == After(before, remotes[last], libs);
      AfterApply(before, remotes[last], libs);
      if Applies(before, remotes[last], libs) {
        assert Before(st, remotes, libs, last) == before;
        assert LastApplied(st, remotes, libs, last);
      } else {
        assert forall n: nat :: LastApplied(st, remotes, libs, n) <==> LastApplied(st, init, libs, n);
        assert forall n: nat :: LastApplied(st, init, libs, n) ==> n < last by { AppliedInRange(st, init, libs); }
      }
    } else {
      NoneApplied(st, libs);
    }
  }

  lemma AppliedInRange(st: Snapshot, remotes: seq<Remote>, libs: Libs)
    ensures forall n: nat :: LastApplied(st, remotes, libs, n) ==> n < |remotes|
  {
  }

  lemma NoneApplied(st: Snapshot, libs: Libs)
    ensures forall n: nat :: !LastApplied(st, [], libs, n)
  {
  }

  /** What an update installs: the extracted files are within the limits and their paths local;
      those in cleaned form and valid UTF-8 can be opened; and the index is that of the walk. */
  lemma FetchedIsBoundedAndIndexed(remote: Remote, libs: Libs)
    requires Fetched(remote, libs).Ok?
    ensures Extracted(remote.archive.items).Ok?
    ensures var ds, memFS := Fetched(remote, libs).value, Extracted(remote.archive.items).value;
      && memFS != map[] && |memFS| <= MAX_FILE_COUNT && StoredBytes(memFS) <= MAX_DECOMPRESSED_SIZE
      && (forall path :: path in memFS ==>
            path != "" && path[0] != '/' && StaysInside(Split(path, '/')) && IsMarkdown(path))
      && (forall path :: path in memFS ==>
            (path in ds.fs.files <==> ValidUtf8(path) && CleanPath(path) == path))
      && (forall path :: path in ds.fs.files ==> path in memFS && ds.fs.files[path] == memFS[path])
      && Built(ds, libs)
  {
    hide IsMarkdown, StaysInside, Built, ValidPath, ValidUtf8, CleanPath, IsLocal;
    var items := remote.archive.items;
    var memFS := Extracted(items).value;
    BuildStateIsBuilt(Some(Served(remote, memFS)), remote.indexCreated, libs);
    ExtractionBounds(items, |items|);
    assert items[..|items|] == items;
    forall path | path in memFS
      ensures ValidPath(path) <==> ValidUtf8(path) && CleanPath(path) == path
    {
      LocalMeansInside(path);
      OpenIffClean(path);
    }
  }

  /** The walk misses no file that can be opened. */
  ghost predicate WalkListsAll(fs: DocsFS) {
    fs.walk.Some? && forall path :: path in fs.files ==> WalkEntry(path, false) in fs.walk.value
  }

  /** If the walk misses no file that can be opened, an update loses no text: every chunk of
      every such file that the index accepts is found under its identifier. */
  lemma EveryExtractedChunkIsIndexed(remote: Remote, libs: Libs, path: string, id: nat)
    requires Fetched(remote, libs).Ok? && WalkListsAll(Fetched(remote, libs).value.fs)
    requires var fs := Fetched(remote, libs).value.fs;
      path in fs.files && 1 <= id <= |ChunksOf(fs, path, libs)|
    ensures var ds := Fetched(remote, libs).value;
      var c := Chunk(id, path, ChunksOf(ds.fs, path, libs)[id - 1]);
      !libs.refuses(c) ==> Key(c) in ds.index && ds.index[Key(c)] == c
  {
    FetchedIsBoundedAndIndexed(remote, libs);
    hide Fetched, Extracted, StaysInside, ValidUtf8, CleanPath, IsMarkdown, StoredBytes, Built;
    ListedChunkIsIndexed(Fetched(remote, libs).value, libs, path, id);
  }

  lemma ListedChunkIsIndexed(ds: DocsState, libs: Libs, path: string, id: nat)
    requires Built(ds, libs) && WalkListsAll(ds.fs)
    requires path in ds.fs.files && IsMarkdown(path) && 1 <= id <= |ChunksOf(ds.fs, path, libs)|
    ensures var c := Chunk(id, path, ChunksOf(ds.fs, path, libs)[id - 1]);
      !libs.refuses(c) ==> Key(c) in ds.index && ds.index[Key(c)] == c
  {
    hide Key, ChunksOf, IsMarkdown;
    var c := Chunk(id, path, ChunksOf(ds.fs, path, libs)[id - 1]);
    MarkdownIsListed(ds.fs.walk.value, path);
    AllChunksMeans(ds.fs, ListedPaths(ds.fs.walk.value), libs, c);
  }

  lemma {:induction false} MarkdownIsListed(walk: seq<WalkEntry>, path: string)
    requires WalkEntry(path, false) in walk && IsMarkdown(path)
    ensures path in ListedPaths(walk)
  {
    ExtensionIsSuffix(path);
    var last := |walk| - 1;
    if walk[last] != WalkEntry(path, false) {
      assert WalkEntry(path, false) in walk[..last];
      MarkdownIsListed(walk[..last], path);
    }
  }

  // ----- When the walk misses nothing

  /** Every path of the map can be opened, and the walk is that of the map. */
  ghost predicate WalkedInForm(remote: Remote, memFS: map<string, string>) {
    Openable(memFS) == memFS && remote.walk(memFS) == Some(WalkMap(memFS.Keys))
  }

  /** For extracted paths in the form that can be opened: the walk misses no file if and only if
      no file bears the name of a directory that holds another. */
  lemma WalkMissesNoneIff(remote: Remote, memFS: map<string, string>)
    requires WalkedInForm(remote, memFS)
    ensures WalkListsAll(Served(remote, memFS)) <==> forall path :: path in memFS ==> !Shadowed(memFS.Keys, path)
  {
    hide WalkMap, Shadowed;
    forall path | path in memFS
      ensures WalkEntry(path, false) in WalkMap(memFS.Keys) <==> !Shadowed(memFS.Keys, path)
    {
      WalkMapLists(memFS.Keys, path);
    }
  }

  /** Such an extracted file can always be read; its chunks are in the index if and only if no
      other file has the name of one of its directories. */
  lemma FileIsIndexedIff(remote: Remote, libs: Libs, path: string, id: nat)
    requires Fetched(remote, libs).Ok? && WalkedInForm(remote, Extracted(remote.archive.items).value)
    requires var ds := Fetched(remote, libs).value;
      path in Extracted(remote.archive.items).value && 1 <= id <= |ChunksOf(ds.fs, path, libs)|
    ensures var ds, memFS := Fetched(remote, libs).value, Extracted(remote.archive.items).value;
      var c := Chunk(id, path, ChunksOf(ds.fs, path, libs)[id - 1]);
      && FileContent(ds.fs, path).Ok?
      && (!libs.refuses(c) ==> (Key(c) in ds.index <==> !Shadowed(memFS.Keys, path)))
  {
    FetchedIsBoundedAndIndexed(remote, libs);
    hide Extracted, StaysInside, ValidUtf8, CleanPath, IsMarkdown, StoredBytes, Built, WalkMap, Shadowed;
    var ds, memFS := Fetched(remote, libs).value, Extracted(remote.archive.items).value;
    WalkMapLists(memFS.Keys, path);
    IndexedIffListed(ds, libs, path, id);
  }

  lemma IndexedIffListed(ds: DocsState, libs: Libs, path: string, id: nat)
    requires Built(ds, libs) && IsMarkdown(path) && 1 <= id <= |ChunksOf(ds.fs, path, libs)|
    ensures var c := Chunk(id, path, ChunksOf(ds.fs, path, libs)[id - 1]);
      !libs.refuses(c) ==> (Key(c) in ds.index <==> WalkEntry(path, false) in ds.fs.walk.value)
  {
    hide Key, ChunksOf, IsMarkdown;
    var c := Chunk(id, path, ChunksOf(ds.fs, path, libs)[id - 1]);
    var walk := ds.fs.walk.value;
    AllChunksMeans(ds.fs, ListedPaths(walk), libs, c);
    if WalkEntry(path, false) in walk {
      MarkdownIsListed(walk, path);
    }
    if Key(c) in ds.index {
      var d := ds.index[Key(c)];
      KeyInjective(c, d);
      AllChunksMeans(ds.fs, ListedPaths(walk), libs, d);
      ListedIsFile(walk, path);
    }
  }

  lemma {:induction false} ListedIsFile(walk: seq<WalkEntry>, path: string)
    requires path in ListedPaths(walk)
    ensures WalkEntry(path, false) in walk
  {
    var init, last := walk[..|walk| - 1], walk[|walk| - 1];
    assert walk == init + [last];
    if path in ListedPaths(init) {
      ListedIsFile(init, path);
    } else {
      assert last == WalkEntry(last.path, false);
    }
  }
}
