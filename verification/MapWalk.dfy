/** Walking the in-memory file system that extraction fills: directories are synthesised from the
    paths, and a file hides a directory of the same name. Stated for the prefixes of paths, which is
    what the walk follows when all paths are in the form that can be opened. */
module MapWalk {
  import opened Text
  import opened DocsIndex
  import opened MapFs
  import opened Utf8

  // ----- Reading a directory

  /** The directory that holds what `prefix` begins: "" is the root, "a/b/" the directory "a/b".
      Its files. */
  ghost function FileNames(keys: set<string>, prefix: string): set<string> {
    set key | key in keys && HasPrefix(key, prefix) && '/' !in key[|prefix|..] :: key[|prefix|..]
  }

  /** Its directories, except those that a file hides. */
  ghost function DirNames(keys: set<string>, prefix: string): set<string> {
    (set key | key in keys && HasPrefix(key, prefix) && '/' in key[|prefix|..] ::
       key[|prefix|..][..Find(key[|prefix|..], '/', 0)])
    - FileNames(keys, prefix)
  }

  lemma FileNameMeans(keys: set<string>, prefix: string, name: string)
    ensures name in FileNames(keys, prefix) <==> '/' !in name && prefix + name in keys
  {
    assert (prefix + name)[|prefix|..] == name;
    if name in FileNames(keys, prefix) {
      var key :| key in keys && HasPrefix(key, prefix) && '/' !in key[|prefix|..] && key[|prefix|..] == name;
      assert key == prefix + name;
    }
  }

  lemma {:induction false} LeastName(names: set<string>) returns (least: string)
    requires names != {}
    ensures least in names && forall n :: n in names && n != least ==> Less(least, n)
  {
    hide Less;
    least :| least in names;
    var others := names - {least};
    assert forall n :: n in names && n != least ==> n in others;
    if others != {} {
      var l := LeastName(others);
      LessTrichotomy(l, least);
      if Less(l, least) {
        least := l;
      } else {
        forall n | n in names && n != least
          ensures Less(least, n)
        {
          if n != l {
            LessTransitive(least, l, n);
          }
        }
      }
    }
  }

  ghost predicate Least(names: set<string>, name: string) {
    name in names && forall n :: n in names && n != name ==> Less(name, n)
  }

  /** Names in byte order. */
  ghost function Sorted(names: set<string>): (r: seq<string>)
    ensures forall n :: n in r <==> n in names
    ensures forall i, j :: 0 <= i < j < |r| ==> Less(r[i], r[j])
  {
    if names == {} then []
    else
      assert exists n :: Least(names, n) by {
        var l := LeastName(names);
        assert Least(names, l);
      }
      var least :| Least(names, least);
      var rest := Sorted(names - {least});
      assert forall j :: 0 <= j < |rest| ==> rest[j] in rest && Less(least, rest[j]);
      [least] + rest
  }

  // ----- The walk

  ghost predicate Bounded(keys: set<string>, bound: nat) {
    forall key :: key in keys ==> |key| <= bound
  }

  ghost function DirPath(prefix: string): string {
    if prefix == "" then "." else prefix[..|prefix| - 1]
  }

  /** Every path below a directory is longer than the directory's. */
  lemma DirNameFits(keys: set<string>, prefix: string, name: string, bound: nat)
    requires Bounded(keys, bound) && name in DirNames(keys, prefix)
    ensures |prefix + name + "/"| <= bound
  {
  }

  /** `fs.WalkDir` from a directory: the directory itself, then what it holds, in byte order. */
  ghost function Walk(keys: set<string>, prefix: string, bound: nat): seq<WalkEntry>
    requires Bounded(keys, bound) && |prefix| <= bound
    decreases bound - |prefix|, 1, 0
  {
    [WalkEntry(DirPath(prefix), true)]
    + WalkNames(keys, prefix, Sorted(FileNames(keys, prefix) + DirNames(keys, prefix)), bound)
  }

  ghost function WalkNames(keys: set<string>, prefix: string, names: seq<string>, bound: nat): seq<WalkEntry>
    requires Bounded(keys, bound) && |prefix| <= bound
    requires forall n :: n in names ==> n in FileNames(keys, prefix) + DirNames(keys, prefix)
    decreases bound - |prefix|, 0, |names|
  {
    if names == [] then []
    else
      var name := names[0];
      (if name in FileNames(keys, prefix) then [WalkEntry(prefix + name, false)]
       else DirNameFits(keys, prefix, name, bound); Walk(keys, prefix + name + "/", bound))
      + WalkNames(keys, prefix, names[1..], bound)
  }

  /** Some directory on the way from `prefix` to `path` has the name of a file. */
  ghost predicate ShadowedBelow(keys: set<string>, prefix: string, path: string) {
    exists i :: |prefix| <= i < |path| && path[i] == '/' && path[..i] in keys
  }

  /** What one name contributes to the listing. */
  ghost predicate Contributes(keys: set<string>, prefix: string, name: string, path: string) {
    if name in FileNames(keys, prefix) then path == prefix + name
    else
      HasPrefix(path, prefix + name + "/") && path in keys && !ShadowedBelow(keys, prefix + name + "/", path)
  }

  lemma {:induction false} WalkNamesLists(
      keys: set<string>, prefix: string, names: seq<string>, bound: nat, path: string)
    requires Bounded(keys, bound) && |prefix| <= bound
    requires forall n :: n in names ==> n in FileNames(keys, prefix) + DirNames(keys, prefix)
    ensures WalkEntry(path, false) in WalkNames(keys, prefix, names, bound) <==>
      exists n :: n in names && Contributes(keys, prefix, n, path)
    decreases bound - |prefix|, 0, |names|
  {
    hide FileNames, DirNames, ShadowedBelow, Walk;
    if names != [] {
      var name := names[0];
      var rest := names[1..];
      assert name in names && names == [name] + rest;
      WalkNamesLists(keys, prefix, rest, bound, path);
      assert (exists n :: n in names && Contributes(keys, prefix, n, path)) <==>
        Contributes(keys, prefix, name, path) || exists n :: n in rest && Contributes(keys, prefix, n, path);
      if name !in FileNames(keys, prefix) {
        DirNameFits(keys, prefix, name, bound);
        WalkLists(keys, prefix + name + "/", bound, path);
      }
    }
  }

  /** From a directory, the walk lists exactly the files below it that no other file shadows. */
  lemma {:induction false} WalkLists(keys: set<string>, prefix: string, bound: nat, path: string)
    requires Bounded(keys, bound) && |prefix| <= bound
    ensures WalkEntry(path, false) in Walk(keys, prefix, bound) <==>
      HasPrefix(path, prefix) && path in keys && !ShadowedBelow(keys, prefix, path)
    decreases bound - |prefix|, 1, 0
  {
    var names := FileNames(keys, prefix) + DirNames(keys, prefix);
    WalkNamesLists(keys, prefix, Sorted(names), bound, path);
    NamesCover(keys, prefix, path);
  }

  lemma NamesCover(keys: set<string>, prefix: string, path: string)
    ensures (exists n :: n in FileNames(keys, prefix) + DirNames(keys, prefix) && Contributes(keys, prefix, n, path))
      <==> HasPrefix(path, prefix) && path in keys && !ShadowedBelow(keys, prefix, path)
  {
    if HasPrefix(path, prefix) && path in keys && !ShadowedBelow(keys, prefix, path) {
      ListedHasName(keys, prefix, path);
    }
    if n :| n in FileNames(keys, prefix) + DirNames(keys, prefix) && Contributes(keys, prefix, n, path) {
      NameIsListed(keys, prefix, n, path);
    }
  }

  lemma ListedHasName(keys: set<string>, prefix: string, path: string)
    requires HasPrefix(path, prefix) && path in keys && !ShadowedBelow(keys, prefix, path)
    ensures exists n :: n in FileNames(keys, prefix) + DirNames(keys, prefix) && Contributes(keys, prefix, n, path)
  {
    var rest := path[|prefix|..];
    assert path == prefix + rest;
    if '/' !in rest {
      assert rest in FileNames(keys, prefix);
      assert Contributes(keys, prefix, rest, path);
    } else {
      var j := Find(rest, '/', 0);
      var name := rest[..j];
      assert path[..|prefix| + j] == prefix + name && path[|prefix| + j] == '/';
      assert path[..|prefix| + j + 1] == prefix + name + "/";
      FileNameMeans(keys, prefix, name);
      assert name in DirNames(keys, prefix);
      assert !ShadowedBelow(keys, prefix + name + "/", path);
      assert Contributes(keys, prefix, name, path);
    }
  }

  lemma NameIsListed(keys: set<string>, prefix: string, n: string, path: string)
    requires n in FileNames(keys, prefix) + DirNames(keys, prefix) && Contributes(keys, prefix, n, path)
    ensures HasPrefix(path, prefix) && path in keys && !ShadowedBelow(keys, prefix, path)
  {
    assert '/' !in n;
    FileNameMeans(keys, prefix, n);
    if n in FileNames(keys, prefix) {
      forall i | |prefix| <= i < |path|
        ensures path[i] != '/'
      {
        assert path[i] == n[i - |prefix|];
      }
    } else {
      var longer := prefix + n + "/";
      assert path[..|longer|] == longer;
      forall i | |prefix| <= i < |path| && path[i] == '/'
        ensures path[..i] !in keys
      {
        if i < |longer| {
          assert path[i] == longer[i];
          assert i == |longer| - 1;
          assert path[..i] == prefix + n;
        }
      }
    }
  }

  // ----- The whole file system

  ghost function MaxLength(keys: set<string>): (bound: nat)
    ensures Bounded(keys, bound)
  {
    if keys == {} then 0
    else
      var key :| key in keys;
      var bound := MaxLength(keys - {key});
      if |key| > bound then |key| else bound
  }

  /** What `fs.WalkDir` from the root lists of a map with these paths. */
  ghost function WalkMap(keys: set<string>): seq<WalkEntry> {
    Walk(keys, "", MaxLength(keys))
  }

  /** Some directory on the way to `path` has the name of a file. */
  ghost predicate Shadowed(keys: set<string>, path: string) {
    exists i :: 0 <= i < |path| && path[i] == '/' && path[..i] in keys
  }

  /** The walk lists a path as a file if and only if it is a file that no other file shadows. */
  lemma WalkMapLists(keys: set<string>, path: string)
    ensures WalkEntry(path, false) in WalkMap(keys) <==> path in keys && !Shadowed(keys, path)
  {
    WalkLists(keys, "", MaxLength(keys), path);
  }

  lemma TwoPaths(path: string)
    requires path == "a.md/b.md"
    ensures ValidPath("a.md") && ValidPath(path)
  {
    AsciiIsUtf8("a.md");
    AsciiIsUtf8(path);
    SplitWhole("a.md", '/');
    SplitWhole("b.md", '/');
    SplitCons("a.md", '/', "b.md");
    assert path == "a.md" + ['/'] + "b.md";
    hide ValidUtf8, Split;
    assert |"a.md"| == |"b.md"| == 4;
    assert forall part :: part in ["a.md", "b.md"] ==> |part| == 4 && ProperElement(part);
  }

  /** A file "a.md" hides a directory "a.md": what lies below can be opened and is never listed. */
  lemma HiddenByFile(keys: set<string>)
    requires keys == {"a.md", "a.md/b.md"}
    ensures ValidPath("a.md") && ValidPath("a.md/b.md")
    ensures WalkEntry("a.md", false) in WalkMap(keys)
    ensures WalkEntry("a.md/b.md", false) !in WalkMap(keys)
  {
    hide WalkMap, ValidPath;
    TwoPaths("a.md/b.md");
    WalkMapLists(keys, "a.md");
    WalkMapLists(keys, "a.md/b.md");
    var path := "a.md/b.md";
    assert path[4] == '/' && path[..4] == "a.md";
    assert '/' !in "a.md";
  }
}
