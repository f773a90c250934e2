/** The in-memory file system that extraction fills: any string can be a key, but only names in
    the form that `io/fs` demands can be opened. */
module MapFs {
  import opened Text
  import opened Archive
  import opened Utf8

  predicate ProperElement(part: string) {
    part != "" && part != "." && part != ".."
  }

  /** `fs.ValidPath`: the names that `Open` accepts. */
  predicate ValidPath(name: string) {
    && ValidUtf8(name)
    && (name == "." || forall part :: part in Split(name, '/') ==> ProperElement(part))
  }

  /** What can be opened of a map of files. */
  function Openable(files: map<string, string>): map<string, string> {
    map path | path in files && ValidPath(path) :: files[path]
  }

  lemma {:induction false} ProperIsClean(parts: seq<string>)
    requires forall part :: part in parts ==> ProperElement(part)
    ensures Clean(parts) == parts
  {
    if parts != [] {
      var init, part := parts[..|parts| - 1], parts[|parts| - 1];
      ProperIsClean(init);
      assert part in parts && parts == init + [part];
    }
  }

  lemma {:induction false} CleanDropsEmpty(parts: seq<string>)
    ensures forall part :: part in Clean(parts) ==> part != "" && part != "."
  {
    if parts != [] {
      CleanDropsEmpty(parts[..|parts| - 1]);
      var out := Clean(parts[..|parts| - 1]);
      forall part | part in Clean(parts)
        ensures part in out || part == parts[|parts| - 1]
      {
      }
    }
  }

  lemma {:induction false} SplitOfJoin(parts: seq<string>)
    requires parts != [] && forall part :: part in parts ==> '/' !in part
    ensures Split(Join(parts, '/'), '/') == parts
  {
    var rest := parts[1..];
    if rest == [] {
      SplitWhole(parts[0], '/');
    } else {
      SplitOfJoin(rest);
      SplitCons(parts[0], '/', Join(rest, '/'));
      assert parts == [parts[0]] + rest;
    }
  }

  /** Of the paths that extraction lets through, those in cleaned form and valid UTF-8 can be
      opened, and no others. */
  lemma OpenIffClean(path: string)
    requires IsLocal(path)
    ensures ValidPath(path) <==> ValidUtf8(path) && CleanPath(path) == path
  {
    hide ValidUtf8, IsLocal;
    var parts := Split(path, '/');
    var out := Clean(parts);
    LocalMeansInside(path);
    CleanTracksLevel(parts);
    CleanDropsEmpty(parts);
    CleanKeepsElements(parts, '/');
    SplitJoin(path);
    if forall part :: part in parts ==> ProperElement(part) {
      ProperIsClean(parts);
    } else if CleanPath(path) == path && path != "." {
      SplitOfJoin(out);
    }
    if path == "." {
      SplitWhole(".", '/');
      assert Clean([]) == [] && parts[..0] == [];
    }
  }

  /** A path without dots at its start is local if none of its elements is "." or "..". */
  lemma PlainIsLocal(path: string)
    requires path != "" && path[0] != '/' && path[0] != '.'
    requires "." !in Split(path, '/') && ".." !in Split(path, '/')
    ensures IsLocal(path)
  {
  }

  lemma DoubledSlash(path: string)
    requires path == "a//b.md"
    ensures Split(path, '/') == ["a", "", "b.md"]
  {
    FindUnique(path, '/', 0, 1);
    assert path[..1] == "a" && path[2..] == "/b.md";
    FindUnique(path[2..], '/', 0, 0);
    assert path[2..][1..] == "b.md" && path[2..][..0] == "";
    SplitWhole("b.md", '/');
  }

  lemma DoubledSlashPath(path: string)
    requires path == "a//b.md"
    ensures IsLocal(path) && !ValidPath(path) && IsMarkdown(path)
  {
    DoubledSlash(path);
    hide ValidUtf8, CleanPath, Split, IsLocal;
    assert Lower(path)[4..] == ".md";
    PlainIsLocal(path);
    assert ["a", "", "b.md"][1] in Split(path, '/');
    assert |path| == 7 && !ProperElement("");
  }

  /** An archive of one wanted entry. */
  lemma OneEntry(e: Item)
    requires Wanted(e) && e.size <= MAX_DECOMPRESSED_SIZE && !e.readFails
    ensures Extracted([e]) == Ok(map[Target(e.name).value := Contents(e)])
  {
    hide Target, Contents;
    var items := [e];
    assert items[..0] == [];
    assert Extracting([]) == Ok(Progress(map[], 0));
    assert Extracting(items) == ExtractItem(Extracting([]), e);
    var files := Extracting(items).value.files;
    assert Target(e.name).value in files;
  }

  /** The local path "a//b.md" is extracted and can never be opened. */
  lemma StoredButNotServed(body: string)
    requires |body| <= MAX_DECOMPRESSED_SIZE
    ensures Extracted([Entry("r/docs/a//b.md", true, |body|, body, false)]) == Ok(map["a//b.md" := body])
    ensures Openable(map["a//b.md" := body]) == map[]
  {
    hide Extracted, ValidPath, IsLocal, IsMarkdown, DocPath;
    var path := "a//b.md";
    DoubledSlashPath(path);
    assert "r" + "/docs/" + path == "r/docs/a//b.md";
    DocPathBelowRoot("r", path);
    OneEntry(Entry("r/docs/a//b.md", true, |body|, body, false));
  }
}
