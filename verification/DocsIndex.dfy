/** The documentation state: the Markdown files and the search index over their chunks. */
module DocsIndex {
  import opened Text
  import Frontmatter

  // ----- The file system as the server sees it

  /** Walking yields paths in order, or an error; a path can be opened or not. */
  datatype DocsFS = DocsFS(walk: Option<seq<WalkEntry>>, files: map<string, string>)

  datatype WalkEntry = WalkEntry(path: string, isDir: bool)

  /** `filepath.Ext`: the text from the last dot of the last path element. */
  function Ext(path: string): string {
    if path == "" || path[|path| - 1] == '/' then ""
    else if path[|path| - 1] == '.' then "."
    else
      var e := Ext(path[..|path| - 1]);
      if e == "" then "" else e + [path[|path| - 1]]
  }

  predicate Listed(e: WalkEntry) {
    !e.isDir && Lower(Ext(e.path)) == ".md"
  }

  /** The last `k + 1` bytes are a dot, then `k` bytes that are neither dots nor slashes. */
  predicate DotBefore(path: string, k: nat) {
    && |path| > k && path[|path| - k - 1] == '.'
    && forall i :: |path| - k <= i < |path| ==> path[i] != '.' && path[i] != '/'
  }

  lemma DotBeforeStep(path: string, k: nat)
    requires path != "" && path[|path| - 1] != '.' && path[|path| - 1] != '/'
    ensures DotBefore(path, k) <==> k > 0 && DotBefore(path[..|path| - 1], k - 1)
  {
    var init := path[..|path| - 1];
    assert forall i :: 0 <= i < |init| ==> path[i] == init[i];
  }

  /** An extension of length `k + 1` is the path's last `k + 1` bytes, from their dot on. */
  lemma {:induction false} ExtOfLength(path: string, k: nat)
    ensures |Ext(path)| == k + 1 <==> DotBefore(path, k)
    ensures |Ext(path)| == k + 1 ==> Ext(path) == path[|path| - k - 1..]
  {
    if path != "" && path[|path| - 1] != '.' && path[|path| - 1] != '/' {
      hide DotBefore;
      var init := path[..|path| - 1];
      DotBeforeStep(path, k);
      if k > 0 {
        ExtOfLength(init, k - 1);
        if |Ext(path)| == k + 1 {
          assert path[|path| - k - 1..] == init[|init| - k..] + [path[|path| - 1]];
        }
      }
    }
  }

  lemma LowerIsMd(s: string)
    ensures Lower(s) == ".md" <==>
      |s| == 3 && s[0] == '.' && LowerByte(s[1]) == 'm' && LowerByte(s[2]) == 'd'
  {
    var low := Lower(s);
    if low == ".md" {
      assert low[0] == '.' && low[1] == 'm' && low[2] == 'd';
    }
  }

  /** The listing's extension test agrees with the suffix test made at extraction. */
  lemma ExtensionIsSuffix(path: string)
    ensures Lower(Ext(path)) == ".md" <==> HasSuffix(Lower(path), ".md")
  {
    hide Ext;
    ExtOfLength(path, 2);
    LowerIsMd(Ext(path));
    if |path| >= 3 {
      var tail := path[|path| - 3..];
      LowerIsMd(tail);
      assert Lower(tail) == Lower(path)[|path| - 3..];
    }
  }

  function ListedPaths(walk: seq<WalkEntry>): seq<string> {
    if walk == [] then []
    else
      var last := walk[|walk| - 1];
      ListedPaths(walk[..|walk| - 1]) + if Listed(last) then [last.path] else []
  }

  lemma ListedMeans(e: WalkEntry)
    ensures Listed(e) <==> !e.isDir && EndsInMd(e.path)
  {
    ExtensionIsSuffix(e.path);
    hide Ext;
    MdSuffix(e.path);
  }

  /** The listing keeps the Markdown files, each where the walk met it. */
  lemma {:induction false} ListingMeans(walk: seq<WalkEntry>, more: seq<WalkEntry>)
    ensures ListedPaths(walk + more) == ListedPaths(walk) + ListedPaths(more)
    ensures |walk| == 1 ==> ListedPaths(walk) == if !walk[0].isDir && EndsInMd(walk[0].path) then [walk[0].path] else []
    decreases |more|
  {
    hide Listed;
    if |walk| == 1 {
      ListedMeans(walk[0]);
      assert walk[..0] == [];
      assert ListedPaths(walk[..0]) == [];
    }
    if more == [] {
      assert walk + more == walk;
    } else {
      var init := more[..|more| - 1];
      ListingMeans(walk, init);
      assert (walk + more)[..|walk + more| - 1] == walk + init;
    }
  }

  /** `getDocFileNames`. */
  method GetDocFileNames(fs: DocsFS) returns (r: Result<seq<string>>)
    ensures r == match fs.walk { case None => Err case Some(walk) => Ok(ListedPaths(walk)) }
  {
    if fs.walk.None? {
      return Err;
    }
    var walk := fs.walk.value;
    var names: seq<string> := [];
    for n := 0 to |walk|
      invariant names == ListedPaths(walk[..n])
    {
      assert walk[..n + 1][..n] == walk[..n];
      if Listed(walk[n]) {
        names := names + [walk[n].path];
      }
    }
    assert walk[..|walk|] == walk;
    r := Ok(names);
  }

  /** `getDocFileContent`. */
  function FileContent(fs: DocsFS, path: string): Result<string> {
    if path in fs.files then Ok(Frontmatter.StripFrontmatter(fs.files[path])) else Err
  }

  /** A file is read if and only if it can be opened, and then without the block at its beginning. */
  lemma ReadMeans(fs: DocsFS, path: string, text: string)
    ensures FileContent(fs, path) == Ok(text) <==>
      path in fs.files && Frontmatter.IsStripped(fs.files[path], text)
    ensures FileContent(fs, path).Err? <==> path !in fs.files
  {
    hide Frontmatter.StripFrontmatter, Frontmatter.IsStripped;
    if path in fs.files {
      Frontmatter.StripIs(fs.files[path], text);
    }
  }

  // ----- Chunks

  datatype Chunk = Chunk(id: nat, name: string, content: string)

  /** `chunk.String`: the identifier under which a chunk is indexed. */
  function Key(c: Chunk): string {
    c.name + "#" + Itoa(c.id)
  }

  /** A chunk identifier determines the file name and the chunk number, whatever the name. */
  lemma KeyInjective(c: Chunk, d: Chunk)
    requires Key(c) == Key(d)
    ensures c.name == d.name && c.id == d.id
  {
    HashIsLast(c, d);
    HashIsLast(d, c);
    assert Key(c)[..|c.name|] == c.name && Key(d)[..|d.name|] == d.name;
    assert Key(c)[|c.name| + 1..] == Decimal(c.id) && Key(d)[|d.name| + 1..] == Decimal(d.id);
    DecimalRoundTrip(c.id);
    DecimalRoundTrip(d.id);
  }

  /** Behind the name and one "#", a chunk identifier holds the chunk's number in decimal. */
  lemma KeyMeans(c: Chunk)
    requires c.id <= MAX_INT64
    ensures var key, n := Key(c), |c.name|;
      key[..n] == c.name && key[n..n + 1] == "#" && Atoi(key[n + 1..]) == Ok(c.id)
  {
    AtoiOfItoa(c.id);
    assert Key(c)[|c.name| + 1..] == Itoa(c.id);
  }

  lemma HashIsLast(c: Chunk, d: Chunk)
    requires Key(c) == Key(d)
    ensures |c.name| >= |d.name|
  {
    forall k | |c.name| < k < |Key(c)|
      ensures Key(c)[k] != '#'
    {
      var digit := Decimal(c.id)[k - |c.name| - 1];
      assert Key(c)[k] == digit && digit in Decimal(c.id);
    }
    assert Key(d)[|d.name|] == '#';
  }

  /** The file name in a chunk identifier: what precedes "#", if there is exactly one. */
  function RecoverName(key: string): Option<string> {
    var parts := Split(key, '#');
    if |parts| == 2 then Some(parts[0]) else None
  }

  /** Of an identifier, well-formed or not: the name is what precedes its only "#"; without one, or
      with several, there is none. */
  lemma RecoverNameMeans(key: string, name: string)
    ensures RecoverName(key) == Some(name) <==>
      exists rest: string :: '#' !in name && '#' !in rest && key == name + "#" + rest
  {
    var j := Find(key, '#', 0);
    if j < |key| {
      var rest := key[j + 1..];
      assert key == key[..j] + "#" + rest;
      SplitCons(key[..j], '#', rest);
      if '#' in rest {
        assert |Split(rest, '#')| >= 2;
      } else {
        SplitWhole(rest, '#');
      }
      if RecoverName(key) == Some(name) {
        assert name == key[..j] && key == name + "#" + rest;
      }
    }
    if rest: string :| '#' !in name && '#' !in rest && key == name + "#" + rest {
      SplitCons(name, '#', rest);
      SplitWhole(rest, '#');
    }
  }

  /** A name is recovered from its chunks' identifiers if and only if it contains no "#"; with
      one, the identifiers are skipped and never taken for another file's. */
  lemma RecoverNameIff(c: Chunk)
    ensures '#' !in c.name ==> RecoverName(Key(c)) == Some(c.name)
    ensures '#' in c.name ==> RecoverName(Key(c)) == None
  {
    var digits := Decimal(c.id);
    assert '#' !in digits;
    SplitWhole(digits, '#');
    if '#' !in c.name {
      SplitCons(c.name, '#', digits);
    } else {
      var j := Find(c.name, '#', 0);
      assert Key(c)[j] == '#' && Key(c)[|c.name|] == '#';
      TwoHashes(Key(c), j, |c.name|);
    }
  }

  lemma HashOnlyAt(name: string, rest: string)
    requires '#' !in name && '#' !in rest
    ensures forall i :: 0 <= i <= |name| + |rest| && i != |name| ==> (name + "#" + rest)[i] != '#'
  {
    var key := name + "#" + rest;
    forall i | 0 <= i <= |name| + |rest| && i != |name|
      ensures key[i] == if i < |name| then name[i] else rest[i - |name| - 1]
    {
    }
  }

  lemma TwoHashes(key: string, i: nat, j: nat)
    requires i < j < |key| && key[i] == '#' && key[j] == '#'
    ensures RecoverName(key) == None
  {
    if RecoverName(key).Some? {
      var name := RecoverName(key).value;
      RecoverNameMeans(key, name);
      var rest: string :| '#' !in name && '#' !in rest && key == name + "#" + rest;
      HashOnlyAt(name, rest);
    }
  }

  // ----- Building the index

  /** The libraries that building depends on: the splitter, which may fail on a text, and the
      index, which may refuse a chunk. */
  datatype Libs = Libs(split: string -> Option<seq<string>>, refuses: Chunk -> bool)

  /** The chunks of a file that can be read and split. */
  function ChunksOf(fs: DocsFS, name: string, libs: Libs): seq<string> {
    match FileContent(fs, name)
    case Err => []
    case Ok(content) =>
      match libs.split(content)
      case None => []
      case Some(chunks) => chunks
  }

  /** The first `m` chunks of a file, numbered from 1, without those the index refuses. */
  function NumberedChunks(name: string, texts: seq<string>, m: nat, libs: Libs): set<Chunk>
    requires m <= |texts|
  {
    set i | 0 <= i < m && !libs.refuses(Chunk(i + 1, name, texts[i])) :: Chunk(i + 1, name, texts[i])
  }

  /** Every chunk of every file in `names` that can be read, split and indexed. */
  function AllChunks(fs: DocsFS, names: seq<string>, libs: Libs): set<Chunk> {
    if names == [] then {}
    else
      var fn := names[|names| - 1];
      var texts := ChunksOf(fs, fn, libs);
      AllChunks(fs, names[..|names| - 1], libs) + NumberedChunks(fn, texts, |texts|, libs)
  }

  /** Membership, said directly. */
  lemma {:induction false} AllChunksMeans(fs: DocsFS, names: seq<string>, libs: Libs, c: Chunk)
    ensures c in AllChunks(fs, names, libs) <==>
      && c.name in names && !libs.refuses(c)
      && 1 <= c.id <= |ChunksOf(fs, c.name, libs)|
      && c.content == ChunksOf(fs, c.name, libs)[c.id - 1]
  {
    if names != [] {
      var init, fn := names[..|names| - 1], names[|names| - 1];
      AllChunksMeans(fs, init, libs, c);
      assert names == init + [fn];
      var texts := ChunksOf(fs, fn, libs);
      if c.name == fn && 1 <= c.id <= |texts| && c.content == texts[c.id - 1] && !libs.refuses(c) {
        assert c == Chunk(c.id - 1 + 1, fn, texts[c.id - 1]);
      }
    }
  }

  /** The index holds exactly these chunks, each under its own identifier. */
  ghost predicate Holds(index: map<string, Chunk>, chunks: set<Chunk>) {
    && (forall c :: c in chunks ==> Key(c) in index && index[Key(c)] == c)
    && (forall key :: key in index ==> index[key] in chunks && Key(index[key]) == key)
  }

  datatype DocsState = DocsState(fs: DocsFS, index: map<string, Chunk>)

  /** A state as `buildDocsState` makes it: all chunks are in the index, none overwrote another,
      and nothing else is there. */
  ghost predicate Built(ds: DocsState, libs: Libs) {
    && ds.fs.walk.Some?
    && Holds(ds.index, AllChunks(ds.fs, ListedPaths(ds.fs.walk.value), libs))
  }

  /** Chunks of a file system: the number and the name determine the text. */
  ghost predicate Sound(fs: DocsFS, chunks: set<Chunk>, libs: Libs) {
    forall c :: c in chunks ==>
      && 1 <= c.id <= |ChunksOf(fs, c.name, libs)|
      && c.content == ChunksOf(fs, c.name, libs)[c.id - 1]
  }

  lemma {:induction false} AllChunksSound(fs: DocsFS, names: seq<string>, libs: Libs)
    ensures Sound(fs, AllChunks(fs, names, libs), libs)
  {
    hide ChunksOf;
    if names != [] {
      var init, fn := names[..|names| - 1], names[|names| - 1];
      AllChunksSound(fs, init, libs);
      assert Sound(fs, NumberedChunks(fn, ChunksOf(fs, fn, libs), |ChunksOf(fs, fn, libs)|, libs), libs);
    }
  }

  /** Adding a chunk of the same file system overwrites no other chunk. */
  lemma HoldsAfterAdd(fs: DocsFS, libs: Libs, index: map<string, Chunk>, chunks: set<Chunk>, c: Chunk)
    requires Holds(index, chunks) && Sound(fs, chunks + {c}, libs)
    ensures Holds(index[Key(c) := c], chunks + {c})
  {
    hide Key, ChunksOf;
    forall d | d in chunks && Key(d) == Key(c)
      ensures d == c
    {
      KeyInjective(d, c);
      assert d in chunks + {c} && c in chunks + {c};
    }
  }

  /** Indexing the first texts of one file, in order. */
  function IndexTexts(index: map<string, Chunk>, name: string, texts: seq<string>, libs: Libs): map<string, Chunk> {
    if texts == [] then index
    else
      var before := IndexTexts(index, name, texts[..|texts| - 1], libs);
      var c := Chunk(|texts|, name, texts[|texts| - 1]);
      if libs.refuses(c) then before else before[Key(c) := c]
  }

  function IndexNames(fs: DocsFS, names: seq<string>, libs: Libs): map<string, Chunk> {
    if names == [] then map[]
    else
      var fn := names[|names| - 1];
      IndexTexts(IndexNames(fs, names[..|names| - 1], libs), fn, ChunksOf(fs, fn, libs), libs)
  }

  /** The state built from a file system: an error if there is none, if walking it fails or if
      no index can be created. */
  function BuildState(docsFS: Option<DocsFS>, indexCreated: bool, libs: Libs): Result<DocsState> {
    if docsFS.None? || docsFS.value.walk.None? || !indexCreated then Err
    else
      var fs := docsFS.value;
      Ok(DocsState(fs, IndexNames(fs, ListedPaths(fs.walk.value), libs)))
  }

  lemma NextText(index: map<string, Chunk>, name: string, texts: seq<string>, i: nat, libs: Libs)
    requires i < |texts|
    ensures var c, before := Chunk(i + 1, name, texts[i]), IndexTexts(index, name, texts[..i], libs);
      IndexTexts(index, name, texts[..i + 1], libs) == if libs.refuses(c) then before else before[Key(c) := c]
  {
    assert texts[..i + 1][..i] == texts[..i];
  }

  lemma NextName(fs: DocsFS, names: seq<string>, n: nat, libs: Libs)
    requires n < |names|
    ensures IndexNames(fs, names[..n + 1], libs) ==
      IndexTexts(IndexNames(fs, names[..n], libs), names[n], ChunksOf(fs, names[n], libs), libs)
    ensures ChunksOf(fs, names[n], libs) == [] ==>
      IndexNames(fs, names[..n + 1], libs) == IndexNames(fs, names[..n], libs)
  {
    assert names[..n + 1][..n] == names[..n];
  }

  lemma NoTexts(index: map<string, Chunk>, name: string, libs: Libs)
    ensures IndexTexts(index, name, [], libs) == index
  {
  }

  lemma NothingIndexed(fs: DocsFS, libs: Libs)
    ensures IndexNames(fs, [], libs) == map[]
  {
  }

  /** `buildDocsState`: unreadable files, unsplittable texts and refused chunks are passed over. */
  method BuildDocsState(docsFS: Option<DocsFS>, indexCreated: bool, libs: Libs) returns (r: Result<DocsState>)
    ensures r == BuildState(docsFS, indexCreated, libs)
  {
    hide Key, FileContent, IndexTexts, IndexNames;
    if docsFS.None? {
      return Err;
    }
    var fs := docsFS.value;
    var docFiles := GetDocFileNames(fs);
    if docFiles.Err? || !indexCreated {
      return Err;
    }
    var names := docFiles.value;
    var searchIndex: map<string, Chunk> := map[];
    assert searchIndex == IndexNames(fs, names[..0], libs) by { NothingIndexed(fs, libs); }
    for n := 0 to |names|
      invariant searchIndex == IndexNames(fs, names[..n], libs)
    {
      var fn := names[n];
      NextName(fs, names, n, libs);
      var content := FileContent(fs, fn);
      if content.Err? {
        continue;
      }
      var textChunks := libs.split(content.value);
      if textChunks.None? {
        continue;
      }
      var texts := textChunks.value;
      ghost var before := searchIndex;
      assert searchIndex == IndexTexts(before, fn, texts[..0], libs) by { NoTexts(before, fn, libs); }
      for i := 0 to |texts|
        invariant searchIndex == IndexTexts(before, fn, texts[..i], libs)
      {
        NextText(before, fn, texts, i, libs);
        var newChunk := Chunk(i + 1, fn, texts[i]);
        if libs.refuses(newChunk) {
          continue;
        }
        searchIndex := searchIndex[Key(newChunk) := newChunk];
      }
      assert texts[..|texts|] == texts;
    }
    assert names[..|names|] == names;
    r := Ok(DocsState(fs, searchIndex));
  }

  lemma NextChunk(name: string, texts: seq<string>, i: nat, libs: Libs)
    requires i < |texts|
    ensures var c := Chunk(i + 1, name, texts[i]);
      NumberedChunks(name, texts, i + 1, libs)
        == NumberedChunks(name, texts, i, libs) + if libs.refuses(c) then {} else {c}
  {
  }

  lemma PrefixChunks(name: string, texts: seq<string>, i: nat, libs: Libs)
    requires i <= |texts|
    ensures NumberedChunks(name, texts[..i], i, libs) == NumberedChunks(name, texts, i, libs)
  {
  }

  lemma {:induction false} IndexTextsHolds(
      fs: DocsFS, name: string, texts: seq<string>, libs: Libs, index: map<string, Chunk>, before: set<Chunk>)
    requires texts <= ChunksOf(fs, name, libs)
    requires Holds(index, before) && Sound(fs, before, libs)
    ensures Holds(IndexTexts(index, name, texts, libs), before + NumberedChunks(name, texts, |texts|, libs))
    decreases |texts|
  {
    hide ChunksOf, Holds, Key;
    if texts == [] {
      assert before + NumberedChunks(name, texts, 0, libs) == before;
    } else {
      var last := |texts| - 1;
      var init, c := texts[..last], Chunk(|texts|, name, texts[last]);
      IndexTextsHolds(fs, name, init, libs, index, before);
      PrefixChunks(name, texts, last, libs);
      NextChunk(name, texts, last, libs);
      var sofar := before + NumberedChunks(name, texts, last, libs);
      if libs.refuses(c) {
        assert before + NumberedChunks(name, texts, |texts|, libs) == sofar;
      } else {
        assert before + NumberedChunks(name, texts, |texts|, libs) == sofar + {c};
        HoldsAfterAdd(fs, libs, IndexTexts(index, name, init, libs), sofar, c);
      }
    }
  }

  lemma {:induction false} IndexNamesHolds(fs: DocsFS, names: seq<string>, libs: Libs)
    ensures Holds(IndexNames(fs, names, libs), AllChunks(fs, names, libs))
  {
    if names != [] {
      var init, fn := names[..|names| - 1], names[|names| - 1];
      IndexNamesHolds(fs, init, libs);
      AllChunksSound(fs, init, libs);
      IndexTextsHolds(fs, fn, ChunksOf(fs, fn, libs), libs, IndexNames(fs, init, libs), AllChunks(fs, init, libs));
    }
  }

  /** Building loses no chunk: every chunk that can be indexed is found under its identifier, no
      matter which files and how many chunks there are, and nothing else is in the index. */
  lemma BuildStateIsBuilt(docsFS: Option<DocsFS>, indexCreated: bool, libs: Libs)
    requires BuildState(docsFS, indexCreated, libs).Ok?
    ensures Built(BuildState(docsFS, indexCreated, libs).value, libs)
  {
    IndexNamesHolds(docsFS.value, ListedPaths(docsFS.value.walk.value), libs);
  }

  /** When a state is built, and of which files. */
  lemma BuildSucceedsIff(docsFS: Option<DocsFS>, indexCreated: bool, libs: Libs)
    ensures BuildState(docsFS, indexCreated, libs).Ok? <==>
      docsFS.Some? && docsFS.value.walk.Some? && indexCreated
    ensures BuildState(docsFS, indexCreated, libs).Ok? ==>
      BuildState(docsFS, indexCreated, libs).value.fs == docsFS.value
  {
  }

  /** `c` is one of the numbered chunks into which the text of a listed file, without its block, is
      split, and the index does not refuse it. */
  ghost predicate IsChunkOf(fs: DocsFS, names: seq<string>, libs: Libs, c: Chunk) {
    && c.name in names && c.name in fs.files && !libs.refuses(c)
    && exists text :: Frontmatter.IsStripped(fs.files[c.name], text)
         && libs.split(text).Some? && 1 <= c.id <= |libs.split(text).value|
         && c.content == libs.split(text).value[c.id - 1]
  }

  lemma ChunksAreOfStrippedText(fs: DocsFS, names: seq<string>, libs: Libs, c: Chunk)
    ensures c in AllChunks(fs, names, libs) <==> IsChunkOf(fs, names, libs, c)
  {
    AllChunksMeans(fs, names, libs, c);
    hide AllChunks, Frontmatter.IsStripped, FileContent;
    forall text
      ensures FileContent(fs, c.name) == Ok(text) <==>
        c.name in fs.files && Frontmatter.IsStripped(fs.files[c.name], text)
    {
      ReadMeans(fs, c.name, text);
    }
    ReadMeans(fs, c.name, "");
    if c.name in fs.files {
      assert Frontmatter.IsStripped(fs.files[c.name], FileContent(fs, c.name).value);
    }
  }

  /** The index of a built state holds exactly the chunks of the stripped texts, each under its
      identifier. */
  lemma IndexMeans(ds: DocsState, libs: Libs, c: Chunk)
    requires Built(ds, libs)
    ensures (Key(c) in ds.index && ds.index[Key(c)] == c) <==>
      IsChunkOf(ds.fs, ListedPaths(ds.fs.walk.value), libs, c)
  {
    ChunksAreOfStrippedText(ds.fs, ListedPaths(ds.fs.walk.value), libs, c);
    hide IsChunkOf, AllChunks, ListedPaths, Key;
  }
}
