/** The registry of runbooks: parsing SKILL.md documents, loading the skills directory, and
    reading a skill back through its `skill://` URI. */
module Skills {
  import opened Text
  import opened Frontmatter
  import Names
  import Uri

  // ----- Parsing one document

  /** The two frontmatter fields that are validated; decoding YAML is a parameter. */
  datatype Meta = Meta(name: string, description: string)

  type Yaml = string -> Option<Meta>

  datatype Runbook = Runbook(name: string, title: string, description: string, raw: string, body: string)

  /** A line of `body` that starts with "# ". */
  predicate HeadingAt(body: string, i: nat) {
    i <= |body| && (i == 0 || body[i - 1] == '\n') && HasPrefix(body[i..], "# ")
  }

  /** The first heading at or after `i`; `|body|` if there is none. */
  function FirstHeading(body: string, i: nat): (h: nat)
    requires i <= |body|
    ensures i <= h <= |body|
    ensures forall j :: i <= j < h ==> !HeadingAt(body, j)
    ensures h < |body| ==> HeadingAt(body, h)
    decreases |body| - i
  {
    if i == |body| || HeadingAt(body, i) then i else FirstHeading(body, i + 1)
  }

  /** The text of the first H1 heading, or "" without one. */
  function Title(body: string): string {
    var h := FirstHeading(body, 0);
    if h == |body| then "" else TrimSpace(body[h + 2..NextLine(body, h)])
  }

  /** The line scan: only the first "# " line counts, even if nothing is left of it. */
  method FindTitle(body: string) returns (title: string)
    ensures title == Title(body)
  {
    hide TrimSpace;
    var i := 0;
    title := "";
    while i < |body|
      invariant 0 <= i <= |body|
      invariant i == 0 || i == |body| || body[i - 1] == '\n'
      invariant forall j :: 0 <= j < i ==> !HeadingAt(body, j)
    {
      var next := NextLine(body, i);
      var line := body[i..next];
      if HasPrefix(line, "# ") {
        assert body[i..][..2] == line[..2];
        HeadingFound(body, i);
        title := TrimSpace(line[2..]);
        return;
      }
      if HeadingAt(body, i) {
        PrefixFitsLine(body, i);
        assert false;
      }
      i := next;
    }
    HeadingFound(body, i);
  }

  lemma PrefixFitsLine(body: string, i: nat)
    requires i <= |body| && HasPrefix(body[i..], "# ")
    ensures HasPrefix(body[i..NextLine(body, i)], "# ")
  {
    assert body[i] == '#' && body[i + 1] == ' ' by {
      assert body[i..][0] == '#' && body[i..][1] == ' ';
    }
    assert body[i..NextLine(body, i)][..2] == body[i..][..2];
  }

  lemma {:induction false} HeadingFoundFrom(body: string, i: nat, h: nat)
    requires i <= h <= |body| && (h == |body| || HeadingAt(body, h))
    requires forall j :: i <= j < h ==> !HeadingAt(body, j)
    ensures FirstHeading(body, i) == h
    decreases h - i
  {
    if i < h {
      HeadingFoundFrom(body, i + 1, h);
    }
  }

  lemma HeadingFound(body: string, h: nat)
    requires h <= |body| && (h == |body| || HeadingAt(body, h))
    requires forall j :: 0 <= j < h ==> !HeadingAt(body, j)
    ensures FirstHeading(body, 0) == h
  {
    HeadingFoundFrom(body, 0, h);
  }

  function TrimLeadingBreaks(s: string): string {
    s[Skip({'\r', '\n'}, s, 0)..]
  }

  predicate MetaOk(m: Meta) {
    && m.name != "" && |m.name| <= 64 && Names.In(Names.NAME, m.name)
    && m.description != "" && |m.description| <= 1024
  }

  /** Accepted metadata: a name of 1 to 64 letters, digits and hyphens, with no leading, trailing
      or doubled hyphen, and a description of 1 to 1024 bytes. */
  lemma MetaOkIff(m: Meta)
    ensures MetaOk(m) <==>
      && 1 <= |m.name| <= 64 && m.name[0] != '-' && Names.Hyphenated(m.name)
      && 1 <= |m.description| <= 1024
  {
    Names.NameMeans(m.name);
  }

  /** What a SKILL.md document denotes, or an error. */
  function Denotes(raw: string, yaml: Yaml): Result<Runbook> {
    match SplitSkill(raw)
    case None => Err
    case Some(parts) =>
      var m := yaml(parts.frontmatter);
      var body := TrimLeadingBreaks(parts.body);
      if m.None? || !MetaOk(m.value) || Title(body) == "" then Err
      else Ok(Runbook(m.value.name, Title(body), m.value.description, raw, body))
  }

  // ----- What that is, said directly

  /** `body` is `rest` without the carriage returns and newlines at its start, and nothing else is
      removed. */
  ghost predicate WithoutLeadingBreaks(rest: string, body: string) {
    && HasSuffix(rest, body)
    && (forall i :: 0 <= i < |rest| - |body| ==> rest[i] == '\r' || rest[i] == '\n')
    && (body != "" ==> body[0] != '\r' && body[0] != '\n')
  }

  /** `title` is the trimmed rest of the first line of `body` that starts with "# ". */
  ghost predicate TitledBy(body: string, title: string) {
    exists h: nat ::
      && h < |body| && HeadingAt(body, h) && (forall j :: 0 <= j < h ==> !HeadingAt(body, j))
      && title == TrimSpace(body[h + 2..NextLine(body, h)])
  }

  /** The runbook `d` is what the document `raw` says: name and description are the decoded fields of
      the frontmatter and within their rules, the body is what follows the closing fence. */
  ghost predicate IsParse(raw: string, yaml: Yaml, d: Runbook) {
    && SplitSkill(raw).Some?
    && yaml(SplitSkill(raw).value.frontmatter) == Some(Meta(d.name, d.description))
    && 1 <= |d.name| <= 64 && d.name[0] != '-' && Names.Hyphenated(d.name)
    && 1 <= |d.description| <= 1024
    && WithoutLeadingBreaks(SplitSkill(raw).value.body, d.body)
    && TitledBy(d.body, d.title) && d.title != ""
    && d.raw == raw
  }

  lemma TrimmedBreaks(rest: string, body: string)
    ensures WithoutLeadingBreaks(rest, body) <==> body == TrimLeadingBreaks(rest)
  {
    var breaks := {'\r', '\n'};
    var n := Skip(breaks, rest, 0);
    if WithoutLeadingBreaks(rest, body) {
      var k := |rest| - |body|;
      assert k < |rest| ==> rest[k] == body[0];
      SkipUnique(breaks, rest, 0, k);
    }
  }

  lemma TitleMeans(body: string, title: string)
    requires title != ""
    ensures TitledBy(body, title) <==> Title(body) == title
  {
    hide TrimSpace;
    if TitledBy(body, title) {
      var h: nat :| h < |body| && HeadingAt(body, h) && (forall j :: 0 <= j < h ==> !HeadingAt(body, j))
        && title == TrimSpace(body[h + 2..NextLine(body, h)]);
      HeadingFound(body, h);
    }
  }

  /** Parsing gives exactly the runbook that the document says, and an error if it says none. */
  lemma ParseMeans(raw: string, yaml: Yaml, d: Runbook)
    ensures Denotes(raw, yaml) == Ok(d) <==> IsParse(raw, yaml, d)
  {
    hide Title, TitledBy, TrimLeadingBreaks, WithoutLeadingBreaks, SplitSkill, Names.In, Names.Hyphenated;
    if SplitSkill(raw).Some? {
      TrimmedBreaks(SplitSkill(raw).value.body, d.body);
      MetaOkIff(Meta(d.name, d.description));
      if d.title != "" {
        TitleMeans(d.body, d.title);
      }
    }
  }

  /** `parseSkill`: match the expression, decode, validate, find the title. */
  method ParseSkill(raw: string, yaml: Yaml) returns (r: Result<Runbook>)
    ensures r == Denotes(raw, yaml)
  {
    hide Title, TrimLeadingBreaks, Names.In, SplitSkill, Search;
    SkillExpressionMeans(raw);
    var m := Search(SKILL_FRONTMATTER, raw, 0);
    if m.None? {
      return Err;
    }
    var fmText, body := raw[m.value[1]..m.value[2]], raw[m.value[3]..];
    var meta := yaml(fmText);
    if meta.None? {
      return Err;
    }
    var name, description := meta.value.name, meta.value.description;
    if name == "" || |name| > 64 || !Names.In(Names.NAME, name) {
      return Err;
    }
    if description == "" || |description| > 1024 {
      return Err;
    }
    body := TrimLeadingBreaks(body);
    var title := FindTitle(body);
    if title == "" {
      return Err;
    }
    r := Ok(Runbook(name, title, description, raw, body));
  }

  /** An accepted document keeps its text: Raw is the document, Body a suffix of it; and the name
      is well-formed. */
  lemma ParsedKeepsText(raw: string, yaml: Yaml)
    requires Denotes(raw, yaml).Ok?
    ensures var d := Denotes(raw, yaml).value;
      && d.raw == raw && HasSuffix(raw, d.body)
      && 1 <= |d.name| <= 64 && d.name[0] != '-' && Names.Hyphenated(d.name)
  {
    hide SplitSkill, Title, TrimLeadingBreaks, Names.In, Names.Hyphenated;
    SkillBodyIsSuffix(raw);
    TrimmedBodyIsSuffix(raw, SplitSkill(raw).value.body);
    Names.NameMeans(Denotes(raw, yaml).value.name);
  }

  lemma TrimmedBodyIsSuffix(raw: string, body: string)
    requires HasSuffix(raw, body)
    ensures HasSuffix(raw, TrimLeadingBreaks(body))
  {
    var kept := TrimLeadingBreaks(body);
    assert raw[|raw| - |kept|..] == raw[|raw| - |body|..][|body| - |kept|..];
  }

  // ----- Byte order of names

  // ----- Loading the skills directory

  /** What the loader sees of one directory entry: its name, whether it is a directory, its
      SKILL.md if that can be read, and whether walking it meets an error or a nested SKILL.md. */
  datatype DirEntry = DirEntry(name: string, isDir: bool, skill: Option<string>, nested: bool)

  predicate Valid(e: DirEntry, yaml: Yaml) {
    && e.isDir && e.skill.Some? && !e.nested
    && Denotes(e.skill.value, yaml).Ok?
    && Denotes(e.skill.value, yaml).value.name == e.name
  }

  function RunbookOf(e: DirEntry, yaml: Yaml): Runbook
    requires Valid(e, yaml)
  {
    Denotes(e.skill.value, yaml).value
  }

  /** A directory lists no name twice. */
  ghost predicate DistinctNames(entries: seq<DirEntry>) {
    forall i, j :: 0 <= i < j < |entries| ==> entries[i].name != entries[j].name
  }

  predicate SortedByName(defs: seq<Runbook>) {
    forall i, j :: 0 <= i < j < |defs| ==> Less(defs[i].name, defs[j].name)
  }

  /** `sort.Slice` by name. As names differ, any sorting algorithm returns this list: see
      `SortedListUnique`. */
  function SortByName(defs: seq<Runbook>): seq<Runbook> {
    if defs == [] then [] else Insert(SortByName(defs[..|defs| - 1]), defs[|defs| - 1])
  }

  function Insert(defs: seq<Runbook>, d: Runbook): seq<Runbook> {
    if defs == [] then [d]
    else if Less(d.name, defs[0].name) then [d] + defs
    else [defs[0]] + Insert(defs[1..], d)
  }

  /** A list is sorted if its rest is and its head comes before all of that. */
  lemma SortedCons(d: Runbook, rest: seq<Runbook>)
    requires SortedByName(rest) && forall e :: e in rest ==> Less(d.name, e.name)
    ensures SortedByName([d] + rest)
  {
    hide Less;
  }

  lemma HeadIsLeast(defs: seq<Runbook>, e: Runbook)
    requires SortedByName(defs) && defs != [] && e in defs[1..]
    ensures Less(defs[0].name, e.name)
  {
    hide Less;
    var j :| 0 <= j < |defs[1..]| && defs[1..][j] == e;
    assert defs[j + 1] == e;
  }

  lemma {:induction false} InsertSorts(defs: seq<Runbook>, d: Runbook)
    requires SortedByName(defs)
    requires forall e :: e in defs ==> e.name != d.name
    ensures SortedByName(Insert(defs, d))
    ensures multiset(Insert(defs, d)) == multiset(defs) + multiset{d}
  {
    hide Less, SortedByName;
    if defs == [] {
      SortedCons(d, []);
      assert [d] + [] == [d];
    } else {
      var head, rest := defs[0], defs[1..];
      assert defs == [head] + rest;
      LessTrichotomy(d.name, head.name);
      SortedTails(defs);
      if Less(d.name, head.name) {
        forall e | e in defs
          ensures Less(d.name, e.name)
        {
          if e != head {
            HeadIsLeast(defs, e);
            LessTransitive(d.name, head.name, e.name);
          }
        }
        SortedCons(d, defs);
      } else {
        InsertSorts(rest, d);
        forall e | e in Insert(rest, d)
          ensures Less(head.name, e.name)
        {
          assert e in multiset(Insert(rest, d));
          if e != d {
            HeadIsLeast(defs, e);
          }
        }
        SortedCons(head, Insert(rest, d));
      }
    }
  }

  lemma {:induction false} SortSorts(defs: seq<Runbook>)
    requires forall i, j :: 0 <= i < j < |defs| ==> defs[i].name != defs[j].name
    ensures SortedByName(SortByName(defs))
    ensures multiset(SortByName(defs)) == multiset(defs)
  {
    if defs != [] {
      var init, d := defs[..|defs| - 1], defs[|defs| - 1];
      SortSorts(init);
      assert defs == init + [d];
      var sorted := SortByName(init);
      forall e | e in sorted
        ensures e.name != d.name
      {
        assert e in multiset(sorted);
        assert e in init;
      }
      InsertSorts(sorted, d);
    }
  }

  lemma SortedHeadsEqual(a: seq<Runbook>, b: seq<Runbook>)
    requires SortedByName(a) && SortedByName(b) && a != [] && b != []
    requires a[0] in b && b[0] in a
    ensures a[0] == b[0]
  {
    var i :| 0 <= i < |b| && b[i] == a[0];
    var j :| 0 <= j < |a| && a[j] == b[0];
    LessTrichotomy(a[0].name, b[0].name);
  }

  /** A strictly sorted list is determined by its elements. */
  lemma {:induction false} SortedListUnique(a: seq<Runbook>, b: seq<Runbook>)
    requires SortedByName(a) && SortedByName(b) && multiset(a) == multiset(b)
    ensures a == b
  {
    hide SortedByName;
    assert |a| == |multiset(a)| == |multiset(b)| == |b|;
    if a != [] {
      assert a[0] in multiset(b) && b[0] in multiset(a);
      SortedHeadsEqual(a, b);
      WithoutHead(a);
      WithoutHead(b);
      SortedTails(a);
      SortedTails(b);
      SortedListUnique(a[1..], b[1..]);
      assert a == [a[0]] + a[1..] && b == [b[0]] + b[1..];
    }
  }

  lemma WithoutHead(a: seq<Runbook>)
    requires a != []
    ensures multiset(a[1..]) == multiset(a) - multiset{a[0]}
  {
    assert a == [a[0]] + a[1..];
  }

  lemma SortedTails(a: seq<Runbook>)
    requires SortedByName(a) && a != []
    ensures SortedByName(a[1..])
  {
  }

  /** `loadRunbookDefs`; no entries if the directory cannot be read. */
  method LoadRunbookDefs(entries: Option<seq<DirEntry>>, yaml: Yaml) returns (r: Result<seq<Runbook>>)
    ensures r == Registry(entries, yaml)
  {
    hide Denotes, SortByName;
    if entries.None? {
      return Err;
    }
    var es := entries.value;
    var defs: seq<Runbook> := [];
    for n := 0 to |es|
      invariant forall k :: 0 <= k < n ==> Valid(es[k], yaml)
      invariant |defs| == n && forall k :: 0 <= k < n ==> defs[k] == RunbookOf(es[k], yaml)
    {
      var entry := es[n];
      if !entry.isDir || entry.skill.None? {
        return Err;
      }
      var def := ParseSkill(entry.skill.value, yaml);
      if def.Err? || def.value.name != entry.name || entry.nested {
        return Err;
      }
      defs := defs + [def.value];
    }
    assert defs == seq(|es|, k requires 0 <= k < |es| => RunbookOf(es[k], yaml));
    r := Ok(SortByName(defs));
  }

  /** The registry a skills directory denotes: an error unless every entry is valid. */
  function Registry(entries: Option<seq<DirEntry>>, yaml: Yaml): Result<seq<Runbook>> {
    if entries.None? || exists k :: 0 <= k < |entries.value| && !Valid(entries.value[k], yaml) then Err
    else
      var es := entries.value;
      Ok(SortByName(seq(|es|, k requires 0 <= k < |es| => RunbookOf(es[k], yaml))))
  }

  /** The entry is a directory with a SKILL.md that says a runbook of that directory's name, and with
      no SKILL.md further down. */
  ghost predicate HoldsSkill(e: DirEntry, yaml: Yaml) {
    && e.isDir && e.skill.Some? && !e.nested
    && exists d :: IsParse(e.skill.value, yaml, d) && d.name == e.name
  }

  /** Loading succeeds if and only if the directory can be read and each of its entries holds a
      skill. */
  lemma LoadSucceedsIff(entries: Option<seq<DirEntry>>, yaml: Yaml)
    ensures Registry(entries, yaml).Ok? <==>
      entries.Some? && forall k :: 0 <= k < |entries.value| ==> HoldsSkill(entries.value[k], yaml)
  {
    if entries.Some? {
      hide Valid, HoldsSkill, SortByName, RunbookOf;
      forall k | 0 <= k < |entries.value|
        ensures Valid(entries.value[k], yaml) <==> HoldsSkill(entries.value[k], yaml)
      {
        ValidMeans(entries.value[k], yaml);
      }
    }
  }

  lemma ValidMeans(e: DirEntry, yaml: Yaml)
    ensures Valid(e, yaml) <==> HoldsSkill(e, yaml)
  {
    hide Denotes, IsParse;
    if e.skill.Some? {
      ValidSays(e.skill.value, yaml, e.name);
    }
  }

  lemma ValidSays(raw: string, yaml: Yaml, name: string)
    ensures Denotes(raw, yaml).Ok? && Denotes(raw, yaml).value.name == name <==>
      exists d :: IsParse(raw, yaml, d) && d.name == name
  {
    forall d: Runbook
      ensures Denotes(raw, yaml) == Ok(d) <==> IsParse(raw, yaml, d)
    {
      ParseMeans(raw, yaml, d);
    }
    hide IsParse, Denotes;
    if Denotes(raw, yaml).Ok? {
      assert IsParse(raw, yaml, Denotes(raw, yaml).value);
    }
  }

  /** Loading gives the valid directory's skills, all of them and nothing else, strictly sorted
      by name. */
  lemma RegistrySorted(es: seq<DirEntry>, yaml: Yaml)
    requires DistinctNames(es) && Registry(Some(es), yaml).Ok?
    ensures var defs := Registry(Some(es), yaml).value;
      && SortedByName(defs) && |defs| == |es|
      && forall d :: d in defs <==>
           exists k :: 0 <= k < |es| && Valid(es[k], yaml) && d == RunbookOf(es[k], yaml)
  {
    hide Denotes, SortByName, SortedByName;
    var listed := seq(|es|, k requires 0 <= k < |es| && Valid(es[k], yaml) => RunbookOf(es[k], yaml));
    var defs := Registry(Some(es), yaml).value;
    assert listed == seq(|es|, k requires 0 <= k < |es| => RunbookOf(es[k], yaml));
    assert forall k :: 0 <= k < |es| ==> Valid(es[k], yaml) && listed[k] == RunbookOf(es[k], yaml);
    SortSorts(listed);
    assert |multiset(defs)| == |multiset(listed)|;
    forall d
      ensures d in defs <==> d in listed
    {
      assert d in defs <==> d in multiset(defs);
      assert d in listed <==> d in multiset(listed);
    }
    forall k | 0 <= k < |es|
      ensures RunbookOf(es[k], yaml) in listed
    {
      assert listed[k] == RunbookOf(es[k], yaml);
    }
  }

  // ----- Reading a skill back

  function Lookup(defs: seq<Runbook>, name: string): Option<Runbook> {
    if defs == [] then None
    else if defs[0].name == name then Some(defs[0])
    else Lookup(defs[1..], name)
  }

  predicate FirstNamed(defs: seq<Runbook>, k: nat, name: string)
    requires k < |defs|
  {
    defs[k].name == name && forall j :: 0 <= j < k ==> defs[j].name != name
  }

  /** `getRunbookDef`: a linear search. */
  method GetRunbookDef(defs: seq<Runbook>, name: string) returns (r: Option<Runbook>)
    ensures r == Lookup(defs, name)
    ensures r.Some? ==> exists k :: 0 <= k < |defs| && defs[k] == r.value && FirstNamed(defs, k, name)
    ensures r.None? <==> forall d :: d in defs ==> d.name != name
  {
    LookupFinds(defs, name);
    for n := 0 to |defs|
      invariant Lookup(defs, name) == Lookup(defs[n..], name)
      invariant forall j :: 0 <= j < n ==> defs[j].name != name
    {
      assert defs[n..][1..] == defs[n + 1..];
      if defs[n].name == name {
        assert FirstNamed(defs, n, name);
        return Some(defs[n]);
      }
    }
    r := None;
  }

  /** `getRunbookContent`. */
  function RunbookContent(defs: seq<Runbook>, name: string): Result<string> {
    match Lookup(defs, name)
    case None => Err
    case Some(d) => Ok(d.raw)
  }

  function SkillUri(name: string): string {
    "skill://" + name + "/SKILL.md"
  }

  /** `SkillReadResourceHandler`. */
  function ReadSkillResource(defs: seq<Runbook>, uri: string): Result<string> {
    match Uri.Parse(uri)
    case Err => Err
    case Ok(u) =>
      if u.scheme != "skill" || u.path != "/SKILL.md" || u.host == "" then Err
      else RunbookContent(defs, u.host)
  }

  /** Which URIs are served, and what is served for them. */
  lemma SkillResourceMeans(defs: seq<Runbook>, uri: string, text: string)
    ensures ReadSkillResource(defs, uri) == Ok(text) <==>
      && Uri.Parse(uri).Ok?
      && var u := Uri.Parse(uri).value;
         (&& u.scheme == "skill" && u.path == "/SKILL.md" && u.host != ""
          && exists k :: 0 <= k < |defs| && FirstNamed(defs, k, u.host) && defs[k].raw == text)
  {
    hide Uri.Parse;
    if Uri.Parse(uri).Ok? {
      LookupIsFirst(defs, Uri.Parse(uri).value.host);
    }
  }

  lemma {:induction false} LookupIsFirst(defs: seq<Runbook>, name: string)
    ensures Lookup(defs, name).Some? ==>
      exists k :: 0 <= k < |defs| && FirstNamed(defs, k, name) && defs[k] == Lookup(defs, name).value
    ensures forall k :: 0 <= k < |defs| && FirstNamed(defs, k, name) ==> Lookup(defs, name) == Some(defs[k])
  {
    if defs != [] {
      var rest := defs[1..];
      LookupIsFirst(rest, name);
      if defs[0].name == name {
        assert FirstNamed(defs, 0, name);
      } else {
        assert forall k :: 0 <= k < |rest| ==> (FirstNamed(rest, k, name) <==> FirstNamed(defs, k + 1, name));
      }
    }
  }

  /** `RunbooksReadHandler`. */
  function RunbooksRead(defs: seq<Runbook>, name: string): Result<string> {
    if name == "" || Lookup(defs, name).None? then Err
    else ReadSkillResource(defs, SkillUri(name))
  }

  lemma {:induction false} LookupFinds(defs: seq<Runbook>, name: string)
    ensures Lookup(defs, name).Some? ==> Lookup(defs, name).value in defs && Lookup(defs, name).value.name == name
    ensures Lookup(defs, name).None? ==> forall d :: d in defs ==> d.name != name
  {
    if defs != [] {
      LookupFinds(defs[1..], name);
      assert defs == [defs[0]] + defs[1..];
    }
  }

  /** A skill URI made from a well-formed name parses back to that name. */
  lemma SkillUriParses(name: string)
    requires name != "" && Names.Hyphenated(name)
    ensures Uri.Parse(SkillUri(name)) == Ok(Uri.Url("skill", name, "/SKILL.md"))
  {
    hide Uri.Parse, Names.Hyphenated, Uri.PlainHost, Uri.PlainScheme, Uri.InertPath, Uri.PathUnescape;
    SkillPathInert();
    NamePlain(name);
    NoEscapes("/SKILL.md");
    assert SkillUri(name) == "skill" + "://" + name + "/SKILL.md";
    Uri.ParseAssembled("skill", name, "/SKILL.md");
  }

  lemma NamePlain(name: string)
    requires Names.Hyphenated(name)
    ensures Uri.PlainHost(name)
  {
  }

  lemma SkillPathInert()
    ensures Uri.InertPath("/SKILL.md") && Uri.PlainScheme("skill")
  {
    hide Uri.StaysInSegment;
    var path := "/SKILL.md";
    forall i | 1 <= i < |path|
      ensures Uri.Inert(path[i])
    {
      assert Uri.IsUnreserved(path[i]);
      Uri.UnreservedInert(path[i]);
    }
  }

  lemma {:induction false} NoEscapes(s: string)
    requires '%' !in s
    ensures Uri.PathUnescape(s) == Some(s)
  {
    if s != "" {
      NoEscapes(s[1..]);
      assert s == [s[0]] + s[1..];
    }
  }

  /** End to end, for any requested name: reading returns the untouched SKILL.md of the directory
      of that name, and fails if and only if there is no such directory. */
  lemma ReadReturnsFile(es: seq<DirEntry>, yaml: Yaml, name: string)
    requires DistinctNames(es) && Registry(Some(es), yaml).Ok?
    ensures var r := RunbooksRead(Registry(Some(es), yaml).value, name);
      && (r.Ok? <==> exists k :: 0 <= k < |es| && es[k].name == name)
      && forall k :: 0 <= k < |es| && es[k].name == name ==>
           es[k].skill.Some? && r == Ok(es[k].skill.value)
  {
    hide Denotes, SortByName, SortedByName, Uri.Parse, Lookup;
    var defs := Registry(Some(es), yaml).value;
    RegistrySorted(es, yaml);
    LookupFinds(defs, name);
    forall k | 0 <= k < |es|
      ensures Valid(es[k], yaml) && RunbookOf(es[k], yaml) in defs
    {
    }
    if Lookup(defs, name).Some? {
      var d := Lookup(defs, name).value;
      var k :| 0 <= k < |es| && Valid(es[k], yaml) && d == RunbookOf(es[k], yaml);
      ParsedKeepsText(es[k].skill.value, yaml);
      SkillUriParses(name);
      ReadByUri(defs, name);
      assert RunbooksRead(defs, name) == Ok(es[k].skill.value);
      assert forall l :: 0 <= l < |es| && es[l].name == name ==> l == k;
    } else {
      assert forall k :: 0 <= k < |es| ==> RunbookOf(es[k], yaml).name == es[k].name;
    }
  }

  lemma ReadByUri(defs: seq<Runbook>, name: string)
    requires name != "" && Lookup(defs, name).Some?
    requires Uri.Parse(SkillUri(name)) == Ok(Uri.Url("skill", name, "/SKILL.md"))
    ensures RunbooksRead(defs, name) == Ok(Lookup(defs, name).value.raw)
  {
    hide Uri.Parse, Lookup;
  }
}
