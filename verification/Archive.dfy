/** Extraction of the documentation files from the downloaded tar archive, and the check that
    keeps their paths inside the documentation root. */
module Archive {
  import opened Text

  // ----- filepath.IsLocal

  /** The elements of a cleaned relative path: "." and empty elements vanish, ".." removes the
      element before it unless that is itself a "..". */
  function Clean(parts: seq<string>): seq<string> {
    if parts == [] then []
    else
      var out := Clean(parts[..|parts| - 1]);
      var part := parts[|parts| - 1];
      if part == "" || part == "." then out
      else if part == ".." && out != [] && out[|out| - 1] != ".." then out[..|out| - 1]
      else out + [part]
  }

  /** `filepath.Clean` of a non-empty relative path. */
  function CleanPath(path: string): string {
    var out := Clean(Split(path, '/'));
    if out == [] then "." else Join(out, '/')
  }

  /** `filepath.IsLocal` on Unix: only a path with dot elements is cleaned first. */
  predicate IsLocal(path: string) {
    && path != ""
    && path[0] != '/'
    && var parts := Split(path, '/');
       var path' := if "." in parts || ".." in parts then CleanPath(path) else path;
       path' != ".." && !HasPrefix(path', "../")
  }

  /** How far below the root a walk along `parts` ends; negative means above it. */
  function Level(parts: seq<string>): int {
    if parts == [] then 0
    else
      var part := parts[|parts| - 1];
      Level(parts[..|parts| - 1]) +
      if part == "" || part == "." then 0 else if part == ".." then -1 else 1
  }

  /** Walking along the path never leaves the root, at any step. */
  ghost predicate StaysInside(parts: seq<string>) {
    forall n :: 0 <= n <= |parts| ==> Level(parts[..n]) >= 0
  }

  /** Cleaning leaves a leading ".." exactly when the walk left the root; otherwise it leaves
      one ordinary element per level. */
  lemma {:induction false} CleanTracksLevel(parts: seq<string>)
    ensures StaysInside(parts) <==> ".." !in Clean(parts)
    ensures ".." in Clean(parts) ==> Clean(parts)[0] == ".."
    ensures ".." !in Clean(parts) ==> Level(parts) == |Clean(parts)|
  {
    assert parts[..|parts|] == parts;
    if parts != [] {
      var init := parts[..|parts| - 1];
      CleanTracksLevel(init);
      assert forall n :: 0 <= n <= |init| ==> init[..n] == parts[..n];
      assert StaysInside(parts) <==> StaysInside(init) && Level(parts) >= 0;
      var out, part := Clean(init), parts[|parts| - 1];
      if part == ".." && out != [] && out[|out| - 1] != ".." && ".." in out {
        assert Clean(parts)[0] == "..";
      }
    }
  }

  lemma {:induction false} CleanKeepsElements(parts: seq<string>, c: char)
    requires forall p :: p in parts ==> c !in p
    ensures forall p :: p in Clean(parts) ==> c !in p
  {
    if parts != [] {
      CleanKeepsElements(parts[..|parts| - 1], c);
    }
  }

  /** A joined path starts with the element ".." exactly when its first element is "..". */
  lemma JoinStartsWithDots(parts: seq<string>)
    requires parts != [] && (forall p :: p in parts ==> '/' !in p)
    ensures var path := Join(parts, '/');
      (path == ".." || HasPrefix(path, "../")) <==> parts[0] == ".."
  {
    var path, first := Join(parts, '/'), parts[0];
    assert path[..|first|] == first && '/' !in first;
    assert |path| == |first| || path[|first|] == '/';
    if HasPrefix(path, "../") {
      FindUnique(path, '/', 0, 2);
      FindUnique(path, '/', 0, |first|);
    } else if path == ".." {
      FindUnique(path, '/', 0, 2);
      FindUnique(path, '/', 0, |first|);
    }
  }

  /** The check accepts exactly the relative paths along which no step leaves the root; inner
      ".." elements are fine as long as they stay below it. */
  lemma LocalMeansInside(path: string)
    ensures IsLocal(path) <==> path != "" && path[0] != '/' && StaysInside(Split(path, '/'))
  {
    if path != "" {
      var parts := Split(path, '/');
      CleanTracksLevel(parts);
      CleanKeepsElements(parts, '/');
      var out := Clean(parts);
      if "." in parts || ".." in parts {
        if out != [] {
          JoinStartsWithDots(out);
        }
      } else {
        NoDotsNeverUp(parts);
        SplitJoin(path);
        JoinStartsWithDots(parts);
      }
    }
  }

  lemma {:induction false} NoDotsNeverUp(parts: seq<string>)
    requires ".." !in parts
    ensures ".." !in Clean(parts)
  {
    if parts != [] {
      NoDotsNeverUp(parts[..|parts| - 1]);
    }
  }

  lemma {:induction false} SplitJoin(s: string)
    ensures Join(Split(s, '/'), '/') == s
    decreases |s|
  {
    var j := Find(s, '/', 0);
    if j < |s| {
      SplitJoin(s[j + 1..]);
      var rest := Split(s[j + 1..], '/');
      assert Split(s, '/')[1..] == rest;
      assert s == s[..j] + ['/'] + s[j + 1..];
    }
  }

  // ----- Tar entries

  const MAX_DECOMPRESSED_SIZE: Int64 := 200 * 1024 * 1024
  const MAX_FILE_COUNT: nat := 10000

  /** What reading the archive yields, one item per call of `Next`: a header that cannot be
      read, or an entry whose declared size is any 64-bit number and whose body is whatever
      the stream holds, possibly failing to read. */
  datatype Item =
    | BadHeader
    | Entry(name: string, regular: bool, size: Int64, body: string, readFails: bool)

  /** `tar` names look like `docs-main/docs/alerting/rules.md`: the path below `docs/`, if the
      entry has one. */
  function DocPath(name: string): Option<string> {
    var slash := Find(name, '/', 0);
    if slash == |name| then None
    else
      var rel := name[slash + 1..];
      if HasPrefix(rel, "docs/") then Some(rel[5..]) else None
  }

  /** The stored path is what follows a slash-free root directory and `docs/`. */
  lemma DocPathMeans(name: string, path: string)
    ensures DocPath(name) == Some(path) <==> exists root: string :: '/' !in root && name == root + "/docs/" + path
  {
    hide DocPath;
    if DocPath(name) == Some(path) {
      RootOfDocPath(name);
    }
    if root: string :| '/' !in root && name == root + "/docs/" + path {
      DocPathBelowRoot(root, path);
    }
  }

  lemma RootOfDocPath(name: string)
    requires DocPath(name).Some?
    ensures var root := name[..Find(name, '/', 0)];
      '/' !in root && name == root + "/docs/" + DocPath(name).value
  {
    var slash := Find(name, '/', 0);
    var root, rel := name[..slash], name[slash + 1..];
    DocsPrefix(rel);
    CutAt(name, slash);
    Reassociate(root, rel[5..]);
  }

  lemma DocsPrefix(rel: string)
    requires HasPrefix(rel, "docs/")
    ensures rel == "docs/" + rel[5..]
  {
  }

  lemma CutAt(name: string, i: nat)
    requires i < |name| && name[i] == '/'
    ensures name == name[..i] + ("/" + name[i + 1..])
  {
  }

  lemma Reassociate(root: string, path: string)
    ensures root + ("/" + ("docs/" + path)) == root + "/docs/" + path
  {
    assert "/" + ("docs/" + path) == "/docs/" + path;
  }

  lemma DocPathBelowRoot(root: string, path: string)
    requires '/' !in root
    ensures DocPath(root + "/docs/" + path) == Some(path)
  {
    var name := root + "/docs/" + path;
    FindUnique(name, '/', 0, |root|);
    var rel := name[|root| + 1..];
    assert rel[..5] == "docs/" && rel[5..] == path;
  }

  predicate IsMarkdown(path: string) {
    HasSuffix(Lower(path), ".md")
  }

  /** The path an entry is stored under, if its name qualifies: non-empty, local, Markdown. */
  function Target(name: string): Option<string> {
    match DocPath(name)
    case None => None
    case Some(path) => if path != "" && IsLocal(path) && IsMarkdown(path) then Some(path) else None
  }

  /** The entries that are extracted; every other entry is skipped. */
  predicate Wanted(e: Item) {
    e.Entry? && e.regular && e.size >= 0 && Target(e.name).Some?
  }

  /** Which entries are extracted, and under which path: regular files of no negative size whose name
      is a slash-free root directory, "/docs/" and a non-empty relative path that stays inside and
      ends in ".md" in any case. */
  lemma WantedMeans(e: Item, path: string)
    ensures Wanted(e) && Target(e.name) == Some(path) <==>
      && e.Entry? && e.regular && e.size >= 0
      && (exists root: string :: '/' !in root && e.name == root + "/docs/" + path)
      && path != "" && path[0] != '/' && StaysInside(Split(path, '/')) && EndsInMd(path)
  {
    hide DocPath, IsLocal, StaysInside;
    if e.Entry? {
      DocPathMeans(e.name, path);
      LocalMeansInside(path);
      MdSuffix(path);
    }
  }

  predicate Skipped(e: Item) {
    e.Entry? && !Wanted(e)
  }

  /** `io.ReadAll(io.LimitReader(tr, size))`. */
  function Contents(e: Item): (data: string)
    requires Wanted(e)
    ensures data <= e.body && (|data| == e.size || (data == e.body && |e.body| < e.size))
  {
    if e.size < |e.body| then e.body[..e.size] else e.body
  }

  /** The running state of extraction: files so far and bytes extracted so far. */
  datatype Progress = Progress(files: map<string, string>, total: int)

  function ExtractItem(st: Result<Progress>, e: Item): Result<Progress> {
    if st.Err? || e.BadHeader? then Err
    else if !Wanted(e) then st
    else if e.size > MAX_DECOMPRESSED_SIZE - st.value.total then Err
    else if |st.value.files| >= MAX_FILE_COUNT then Err
    else if e.readFails then Err
    else Ok(Progress(st.value.files[Target(e.name).value := Contents(e)],
                     st.value.total + |Contents(e)|))
  }

  function Extracting(items: seq<Item>): Result<Progress> {
    if items == [] then Ok(Progress(map[], 0))
    else ExtractItem(Extracting(items[..|items| - 1]), items[|items| - 1])
  }

  /** The outcome of extraction: the file map, or an error. */
  function Extracted(items: seq<Item>): Result<map<string, string>> {
    var st := Extracting(items);
    if st.Err? || st.value.files == map[] then Err else Ok(st.value.files)
  }

  lemma {:induction false} ErrorsStay(items: seq<Item>, n: nat)
    requires n <= |items| && Extracting(items[..n]).Err?
    ensures Extracting(items).Err?
    decreases |items|
  {
    if n == |items| {
      assert items[..n] == items;
    } else {
      assert items[..|items| - 1][..n] == items[..n];
      ErrorsStay(items[..|items| - 1], n);
    }
  }

  lemma Start()
    ensures Extracting([]) == Ok(Progress(map[], 0))
  {
  }

  lemma NextItem(items: seq<Item>, n: nat)
    requires n < |items|
    ensures Extracting(items[..n + 1]) == ExtractItem(Extracting(items[..n]), items[n])
  {
    assert items[..n + 1][..n] == items[..n];
  }

  lemma SmallSumExact(x: int)
    requires 0 <= x <= MAX_DECOMPRESSED_SIZE
    ensures Wrap64(x) == x
  {
  }

  /** The extraction loop. The subtraction is 64-bit arithmetic. */
  method ExtractDocs(items: seq<Item>) returns (r: Result<map<string, string>>)
    ensures r == Extracted(items)
  {
    hide IsLocal, IsMarkdown, Wrap64, Extracting;
    Start();
    assert items[..0] == [];
    var memFS: map<string, string> := map[];
    var totalExtracted: Int64 := 0;
    for n := 0 to |items|
      invariant Extracting(items[..n]) == Ok(Progress(memFS, totalExtracted))
      invariant 0 <= totalExtracted <= MAX_DECOMPRESSED_SIZE
    {
      var hdr := items[n];
      NextItem(items, n);
      ghost var st := Extracting(items[..n]);
      if ExtractItem(st, hdr).Err? { ErrorsStay(items, n + 1); }
      if hdr.BadHeader? {
        return Err;
      }
      var slash := Find(hdr.name, '/', 0);
      if slash == |hdr.name| { continue; }
      var relPath := hdr.name[slash + 1..];
      if !HasPrefix(relPath, "docs/") { continue; }
      var docPath := relPath[|"docs/"|..];
      if docPath == "" { continue; }
      if !IsLocal(docPath) { continue; }
      if !hdr.regular { continue; }
      if !IsMarkdown(docPath) { continue; }
      if hdr.size < 0 { continue; }
      SizeCheckExact(hdr.size, totalExtracted);
      if hdr.size > Wrap64(MAX_DECOMPRESSED_SIZE - totalExtracted) {
        return Err;
      }
      if |memFS| >= MAX_FILE_COUNT {
        return Err;
      }
      if hdr.readFails {
        return Err;
      }
      var data := if hdr.size < |hdr.body| then hdr.body[..hdr.size] else hdr.body;
      SmallSumExact(totalExtracted + |data|);
      totalExtracted := Wrap64(totalExtracted + |data|);
      memFS := memFS[docPath := data];
    }
    assert items[..|items|] == items;
    assert |memFS| == 0 <==> memFS == map[];
    if |memFS| == 0 {
      return Err;
    }
    r := Ok(memFS);
  }

  // ----- Bounds

  /** The bytes held by a file map. */
  ghost function StoredBytes(files: map<string, string>): nat
    decreases |files|
  {
    if files == map[] then 0
    else
      var path :| path in files;
      |files[path]| + StoredBytes(files - {path})
  }

  lemma {:induction false} StoredBytesAt(files: map<string, string>, path: string)
    requires path in files
    ensures StoredBytes(files) == |files[path]| + StoredBytes(files - {path})
    decreases |files|
  {
    var p :| p in files && StoredBytes(files) == |files[p]| + StoredBytes(files - {p});
    if p != path {
      StoredBytesAt(files - {p}, path);
      StoredBytesAt(files - {path}, p);
      assert files - {p} - {path} == files - {path} - {p};
    }
  }

  /** Storing a file adds its size at most: less when it overwrites another. */
  lemma UpdateBytes(files: map<string, string>, path: string, data: string)
    ensures StoredBytes(files[path := data]) <= StoredBytes(files) + |data|
    ensures path !in files ==> StoredBytes(files[path := data]) == StoredBytes(files) + |data|
    ensures |files| <= |files[path := data]| <= |files| + 1
  {
    var files' := files[path := data];
    StoredBytesAt(files', path);
    assert files' - {path} == files - {path};
    if path in files {
      StoredBytesAt(files, path);
      assert files'.Keys == files.Keys;
    } else {
      assert files - {path} == files;
      assert files'.Keys == files.Keys + {path};
    }
  }

  /** At every point of an extraction that has not failed: the bytes stored are at most the
      bytes counted, which are at most the limit; there are at most as many files as allowed;
      and every key is a non-empty local Markdown path. */
  lemma {:induction false} ExtractionBounds(items: seq<Item>, n: nat)
    requires n <= |items| && Extracting(items).Ok?
    ensures Extracting(items[..n]).Ok?
    ensures var st := Extracting(items[..n]).value;
      && StoredBytes(st.files) <= st.total <= MAX_DECOMPRESSED_SIZE
      && |st.files| <= MAX_FILE_COUNT
      && forall path :: path in st.files ==>
           path != "" && path[0] != '/' && StaysInside(Split(path, '/')) && IsMarkdown(path)
    decreases n
  {
    if Extracting(items[..n]).Err? {
      ErrorsStay(items, n);
    }
    if n > 0 {
      ExtractionBounds(items, n - 1);
      var e := items[n - 1];
      assert items[..n][..n - 1] == items[..n - 1];
      if Wanted(e) {
        var path := Target(e.name).value;
        UpdateBytes(Extracting(items[..n - 1]).value.files, path, Contents(e));
        LocalMeansInside(path);
      }
    }
  }

  /** For every declared size and every reachable total, the 64-bit subtraction is exact, so the
      check refuses precisely the entries that could exceed the limit. */
  lemma SizeCheckExact(size: Int64, total: Int64)
    requires size >= 0 && 0 <= total <= MAX_DECOMPRESSED_SIZE
    ensures size > Wrap64(MAX_DECOMPRESSED_SIZE - total) <==> total + size > MAX_DECOMPRESSED_SIZE
  {
  }

  /** The additive form of the same check is wrong exactly when the sum leaves 64 bits. */
  lemma AdditiveCheckWraps(size: Int64, total: Int64)
    requires size >= 0 && 0 <= total <= MAX_DECOMPRESSED_SIZE
    ensures (Wrap64(total + size) > MAX_DECOMPRESSED_SIZE <==> total + size > MAX_DECOMPRESSED_SIZE)
       <==> total + size <= MAX_INT64
  {
  }

  // ----- Which entries matter

  /** The position of the last wanted entry for `path`, if any. */
  ghost predicate LastFor(items: seq<Item>, k: nat, path: string) {
    && k < |items| && Wanted(items[k]) && Target(items[k].name) == Some(path)
    && forall j :: k < j < |items| && Wanted(items[j]) ==> Target(items[j].name) != Some(path)
  }

  lemma LastForAppend(init: seq<Item>, e: Item, path: string)
    ensures if Wanted(e) && Target(e.name) == Some(path)
      then forall k: nat :: LastFor(init + [e], k, path) <==> k == |init|
      else forall k: nat :: LastFor(init + [e], k, path) <==> LastFor(init, k, path)
  {
    hide Target;
    var items := init + [e];
    if Wanted(e) && Target(e.name) == Some(path) {
      assert items[|init|] == e;
    } else {
      assert forall j :: 0 <= j < |init| ==> items[j] == init[j];
    }
  }

  /** Last entry wins: the map holds exactly the paths of the wanted entries, each with the
      contents of the last entry for that path. */
  lemma {:induction false} LastEntryWins(items: seq<Item>, path: string)
    requires Extracting(items).Ok?
    ensures var files := Extracting(items).value.files;
      && (path in files <==> exists k: nat :: LastFor(items, k, path))
      && forall k: nat :: LastFor(items, k, path) ==> path in files && files[path] == Contents(items[k])
    decreases |items|
  {
    hide Target, Contents;
    if items != [] {
      var init, e := items[..|items| - 1], items[|items| - 1];
      LastEntryWins(init, path);
      LastForAppend(init, e, path);
      assert items == init + [e];
      var files := Extracting(items).value.files;
      if Wanted(e) && Target(e.name) == Some(path) {
        assert LastFor(items, |init|, path);
      } else {
        assert path in files <==> path in Extracting(init).value.files;
      }
    }
  }

  /** The bytes that the wanted entries among `items` contribute. */
  function TotalRead(items: seq<Item>): nat {
    if items == [] then 0
    else
      var e := items[|items| - 1];
      TotalRead(items[..|items| - 1]) + if Wanted(e) then |Contents(e)| else 0
  }

  /** The distinct paths of the wanted entries among `items`. */
  function WantedPaths(items: seq<Item>): set<string> {
    set e | e in items && Wanted(e) :: Target(e.name).value
  }

  /** Item `n` stops the extraction, given that everything before it was accepted. */
  ghost predicate Fatal(items: seq<Item>, n: nat)
    requires n < |items|
  {
    var e := items[n];
    || e.BadHeader?
    || (Wanted(e) &&
        (|| TotalRead(items[..n]) + e.size > MAX_DECOMPRESSED_SIZE
         || |WantedPaths(items[..n])| >= MAX_FILE_COUNT
         || e.readFails))
  }

  /** Extraction succeeds if and only if no item is fatal and some entry is wanted. */
  lemma SucceedsIff(items: seq<Item>)
    ensures Extracted(items).Ok? <==>
      (forall n :: 0 <= n < |items| ==> !Fatal(items, n)) && (exists n :: 0 <= n < |items| && Wanted(items[n]))
  {
    ExtractingIff(items);
    if Extracting(items).Ok? {
      assert Extracting(items).value.files != map[] <==> WantedPaths(items) != {};
      if n :| 0 <= n < |items| && Wanted(items[n]) {
        assert items[n] in items;
        assert Target(items[n].name).value in WantedPaths(items);
      }
      if path :| path in WantedPaths(items) {
        var e :| e in items && Wanted(e);
      }
    }
  }

  lemma WantedPathsAppend(items: seq<Item>, e: Item)
    ensures WantedPaths(items + [e]) ==
      WantedPaths(items) + if Wanted(e) then {Target(e.name).value} else {}
  {
    assert forall x :: x in items + [e] <==> x in items || x == e;
  }

  lemma FatalOfPrefix(items: seq<Item>, m: nat)
    requires m <= |items|
    ensures forall n :: 0 <= n < m ==> (Fatal(items[..m], n) <==> Fatal(items, n))
  {
    assert forall n :: 0 <= n < m ==> items[..m][..n] == items[..n];
  }

  lemma {:induction false} ExtractingIff(items: seq<Item>)
    ensures Extracting(items).Ok? <==> forall n :: 0 <= n < |items| ==> !Fatal(items, n)
    ensures Extracting(items).Ok? ==>
      && Extracting(items).value.total == TotalRead(items)
      && Extracting(items).value.files.Keys == WantedPaths(items)
    decreases |items|
  {
    hide Wanted, ExtractItem, TotalRead, WantedPaths, Fatal;
    if items == [] {
      NothingExtracted();
    } else {
      var last := |items| - 1;
      var init, e := items[..last], items[last];
      ExtractingIff(init);
      FatalOfPrefix(items, last);
      assert items == init + [e];
      WantedPathsAppend(init, e);
      ExtractingStep(init, e, Extracting(init));
      if Extracting(init).Err? {
        var n :| 0 <= n < last && Fatal(init, n);
        assert Fatal(items, n);
        BadStays(Extracting(init), e);
      }
    }
  }

  lemma BadStays(st: Result<Progress>, e: Item)
    requires st.Err?
    ensures ExtractItem(st, e).Err?
  {
  }

  lemma NothingExtracted()
    ensures TotalRead([]) == 0 && WantedPaths([]) == {}
  {
  }

  lemma TotalReadAppend(init: seq<Item>, e: Item)
    ensures TotalRead(init + [e]) == TotalRead(init) + if Wanted(e) then |Contents(e)| else 0
  {
    hide Wanted, Contents;
    assert (init + [e])[..|init|] == init;
  }

  lemma FatalLast(init: seq<Item>, e: Item)
    ensures Fatal(init + [e], |init|) <==>
      || e.BadHeader?
      || (Wanted(e) && (|| TotalRead(init) + e.size > MAX_DECOMPRESSED_SIZE
                        || |WantedPaths(init)| >= MAX_FILE_COUNT
                        || e.readFails))
  {
    hide Wanted, TotalRead, WantedPaths;
    assert (init + [e])[..|init|] == init && (init + [e])[|init|] == e;
  }

  /** One step succeeds exactly when its item is not fatal. */
  lemma ExtractingStep(init: seq<Item>, e: Item, st: Result<Progress>)
    requires st.Ok? ==> st.value.total == TotalRead(init) && st.value.files.Keys == WantedPaths(init)
    ensures st.Ok? ==> (ExtractItem(st, e).Ok? <==> !Fatal(init + [e], |init|))
    ensures ExtractItem(st, e).Ok? ==>
      var st' := ExtractItem(st, e).value;
      && st'.total == TotalRead(init + [e])
      && st'.files.Keys == WantedPaths(init) + if Wanted(e) then {Target(e.name).value} else {}
  {
    TotalReadAppend(init, e);
    FatalLast(init, e);
    hide Target, Contents, TotalRead, WantedPaths, Fatal;
    if st.Ok? {
      assert |st.value.files| == |st.value.files.Keys|;
    }
  }

  // ----- Entries that do not matter

  lemma {:induction false} ExtractingAppend(a: seq<Item>, a': seq<Item>, b: seq<Item>)
    requires Extracting(a) == Extracting(a')
    ensures Extracting(a + b) == Extracting(a' + b)
    decreases |b|
  {
    hide ExtractItem;
    if b == [] {
      assert a + b == a && a' + b == a';
    } else {
      var init := b[..|b| - 1];
      ExtractingAppend(a, a', init);
      assert (a + b)[..|a + b| - 1] == a + init;
      assert (a' + b)[..|a' + b| - 1] == a' + init;
    }
  }

  /** The entries that are not skipped, in order. */
  function Kept(items: seq<Item>): seq<Item> {
    if items == [] then []
    else
      Kept(items[..|items| - 1]) +
      if Skipped(items[|items| - 1]) then [] else [items[|items| - 1]]
  }

  /** Deleting one skipped entry, anywhere, changes nothing. */
  lemma SkippedEntryIrrelevant(a: seq<Item>, e: Item, b: seq<Item>)
    requires Skipped(e)
    ensures Extracted(a + [e] + b) == Extracted(a + b)
  {
    assert (a + [e])[..|a|] == a;
    ExtractingAppend(a + [e], a, b);
  }

  /** Deleting all skipped entries changes nothing. */
  lemma OnlyKeptEntriesMatter(items: seq<Item>)
    ensures Extracted(items) == Extracted(Kept(items))
  {
    KeptSame(items);
  }

  lemma {:induction false} KeptSame(items: seq<Item>)
    ensures Extracting(items) == Extracting(Kept(items))
    decreases |items|
  {
    if items != [] {
      KeptSame(items[..|items| - 1]);
      var init, e := items[..|items| - 1], items[|items| - 1];
      if !Skipped(e) {
        assert Kept(items) == Kept(init) + [e];
        assert (Kept(init) + [e])[..|Kept(init)|] == Kept(init);
      } else {
        assert Kept(items) == Kept(init);
      }
    }
  }

  /** The entry under another root directory. */
  function Rerooted(e: Item, root: string): Item {
    if e.BadHeader? then e
    else
      var slash := Find(e.name, '/', 0);
      if slash == |e.name| then e else e.(name := root + e.name[slash..])
  }

  /** Two items that differ at most in the name of the root directory. */
  predicate SameBelowRoot(e: Item, e': Item) {
    || e == e'
    || (e.Entry? && e'.Entry? && e' == e.(name := e'.name) && Target(e'.name) == Target(e.name))
  }

  lemma RerootedBelowRoot(e: Item, root: string)
    requires '/' !in root
    ensures SameBelowRoot(e, Rerooted(e, root))
  {
    hide IsLocal, IsMarkdown;
    if e.Entry? {
      var slash := Find(e.name, '/', 0);
      if slash < |e.name| {
        var name' := Rerooted(e, root).name;
        FindUnique(name', '/', 0, |root|);
        assert name'[|root| + 1..] == e.name[slash + 1..];
      }
    }
  }

  lemma SameStep(st: Result<Progress>, e: Item, e': Item)
    requires SameBelowRoot(e, e')
    ensures ExtractItem(st, e') == ExtractItem(st, e)
  {
    if e != e' {
      assert Wanted(e') <==> Wanted(e);
    }
  }

  lemma {:induction false} SameBelowRootSame(items: seq<Item>, items': seq<Item>)
    requires |items| == |items'|
    requires forall n :: 0 <= n < |items| ==> SameBelowRoot(items[n], items'[n])
    ensures Extracting(items') == Extracting(items)
    decreases |items|
  {
    if items != [] {
      var last := |items| - 1;
      var init, init' := items[..last], items'[..last];
      assert forall n :: 0 <= n < last ==> init[n] == items[n] && init'[n] == items'[n];
      SameBelowRootSame(init, init');
      SameStep(Extracting(init), items[last], items'[last]);
    }
  }

  /** Renaming the root directory of every entry, even differently per entry, to anything
      without a slash changes nothing. */
  lemma RootNameIrrelevant(items: seq<Item>, items': seq<Item>, roots: seq<string>)
    requires |items| == |items'| == |roots|
    requires forall n :: 0 <= n < |items| ==>
               '/' !in roots[n] && items'[n] == Rerooted(items[n], roots[n])
    ensures Extracted(items') == Extracted(items)
  {
    forall n | 0 <= n < |items|
      ensures SameBelowRoot(items[n], items'[n])
    {
      RerootedBelowRoot(items[n], roots[n]);
    }
    SameBelowRootSame(items, items');
  }
}
