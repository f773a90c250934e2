/** Line-based truncation of tool output, and the list renderers that feed it. */
module Lines {
  import opened Text

  function Newlines(s: string): nat {
    if s == "" then 0 else Newlines(s[..|s| - 1]) + if s[|s| - 1] == '\n' then 1 else 0
  }

  lemma {:induction false} NewlinesAppend(a: string, b: string)
    ensures Newlines(a + b) == Newlines(a) + Newlines(b)
    decreases |b|
  {
    if b == "" {
      assert a + b == a;
    } else {
      assert (a + b)[..|a + b| - 1] == a + b[..|b| - 1];
      NewlinesAppend(a, b[..|b| - 1]);
    }
  }

  lemma {:induction false} NoNewlines(s: string)
    requires '\n' !in s
    ensures Newlines(s) == 0
  {
    if s != "" {
      NoNewlines(s[..|s| - 1]);
    }
  }

  /** `p` is the end of the `n`-th line of `s`: the text up to `p` holds `n` newlines and ends in one. */
  ghost predicate LineEnd(s: string, n: nat, p: nat) {
    0 < p <= |s| && s[p - 1] == '\n' && Newlines(s[..p]) == n
  }

  lemma NewlinesOfPrefix(s: string, p: nat, q: nat)
    requires p <= q <= |s|
    ensures Newlines(s[..q]) == Newlines(s[..p]) + Newlines(s[p..q])
  {
    assert s[..q] == s[..p] + s[p..q];
    NewlinesAppend(s[..p], s[p..q]);
  }

  lemma LaterLineEnd(s: string, p: nat, q: nat)
    requires p < q <= |s| && s[q - 1] == '\n'
    ensures Newlines(s[..q]) > Newlines(s[..p])
  {
    NewlinesOfPrefix(s, p, q - 1);
    assert s[..q][..q - 1] == s[..q - 1];
  }

  lemma LineEndUnique(s: string, n: nat, p: nat, q: nat)
    requires LineEnd(s, n, p) && LineEnd(s, n, q)
    ensures p == q
  {
    if p < q {
      LaterLineEnd(s, p, q);
    } else if q < p {
      LaterLineEnd(s, q, p);
    }
  }

  lemma OneNewline()
    ensures Newlines("\n") == 1
  {
    assert "\n"[..0] == "";
  }

  /** `truncateStringByLines`. With a positive limit it reports truncation if and only if the
      text has at least that many newlines, and then returns the prefix that ends with the
      `limit`-th newline; otherwise the text is returned whole. */
  method TruncateStringByLines(s: string, limit: int) returns (r: string, truncated: bool)
    ensures truncated <==> limit > 0 && Newlines(s) >= limit
    ensures !truncated ==> r == s
    ensures truncated ==> r <= s && LineEnd(s, limit, |r|)
  {
    if limit <= 0 {
      return s, false;
    }
    var endMarker := 0;
    for n := 0 to limit
      invariant 0 <= endMarker <= |s|
      invariant Newlines(s[..endMarker]) == n
      invariant n > 0 ==> LineEnd(s, n, endMarker)
    {
      var x := Find(s, '\n', endMarker);
      NewlinesOfPrefix(s, endMarker, x);
      NoNewlines(s[endMarker..x]);
      if x == |s| {
        assert s[..x] == s;
        return s, false;
      }
      assert s[..x + 1][..x] == s[..x];
      endMarker := x + 1;
    }
    NewlinesOfPrefix(s, endMarker, |s|);
    assert s[..|s|] == s;
    return s[..endMarker], true;
  }

  /** The same as a function: the end of the `n`-th line from `i`, if there are so many. */
  function EndOfLine(s: string, n: nat, i: nat): (e: Option<nat>)
    requires i <= |s|
    ensures e.Some? ==> i <= e.value <= |s|
    decreases n
  {
    if n == 0 then Some(i)
    else
      var x := Find(s, '\n', i);
      if x == |s| then None else EndOfLine(s, n - 1, x + 1)
  }

  function Truncated(s: string, limit: int): (string, bool) {
    if limit <= 0 || EndOfLine(s, limit, 0).None? then (s, false)
    else (s[..EndOfLine(s, limit, 0).value], true)
  }

  lemma NewlinesFrom(s: string, i: nat, e: nat)
    requires i <= e <= |s|
    ensures var x := Find(s, '\n', i);
      if x < e then Newlines(s[i..e]) == 1 + Newlines(s[x + 1..e]) else Newlines(s[i..e]) == 0
  {
    var x := Find(s, '\n', i);
    if x < e {
      assert s[i..e] == (s[i..x] + "\n") + s[x + 1..e];
      NewlinesAppend(s[i..x] + "\n", s[x + 1..e]);
      NewlinesAppend(s[i..x], "\n");
      NoNewlines(s[i..x]);
      OneNewline();
    } else {
      NoNewlines(s[i..e]);
    }
  }

  lemma {:induction false} EndOfLineMeans(s: string, n: nat, i: nat)
    requires i <= |s|
    ensures EndOfLine(s, n, i).Some? <==> Newlines(s[i..|s|]) >= n
    ensures EndOfLine(s, n, i).Some? ==> Newlines(s[i..EndOfLine(s, n, i).value]) == n
    ensures EndOfLine(s, n, i).Some? && n > 0 ==> s[EndOfLine(s, n, i).value - 1] == '\n'
    decreases n
  {
    hide Newlines;
    if n == 0 {
      assert s[i..i] == "";
      NoNewlines("");
    } else {
      var x := Find(s, '\n', i);
      NewlinesFrom(s, i, |s|);
      if x < |s| {
        EndOfLineMeans(s, n - 1, x + 1);
        var e := EndOfLine(s, n, i);
        if e.Some? {
          NewlinesFrom(s, i, e.value);
        }
      }
    }
  }

  /** What the truncation method computes is this function. */
  lemma TruncatedMeans(s: string, limit: int)
    ensures var (r, truncated) := Truncated(s, limit);
      && (truncated <==> limit > 0 && Newlines(s) >= limit)
      && (!truncated ==> r == s)
      && (truncated ==> r <= s && LineEnd(s, limit, |r|) && Newlines(r) == limit)
  {
    if limit > 0 {
      EndOfLineMeans(s, limit, 0);
      assert s[0..|s|] == s;
      var e := EndOfLine(s, limit, 0);
      if e.Some? {
        assert s[0..e.value] == s[..e.value];
      }
    }
  }

  /** Anything that meets the method's contract is that function's result. */
  lemma TruncationUnique(s: string, limit: int, r: string, truncated: bool)
    requires truncated <==> limit > 0 && Newlines(s) >= limit
    requires !truncated ==> r == s
    requires truncated ==> r <= s && LineEnd(s, limit, |r|)
    ensures Truncated(s, limit) == (r, truncated)
  {
    TruncatedMeans(s, limit);
    if truncated {
      LineEndUnique(s, limit, |r|, |Truncated(s, limit).0|);
      assert r == s[..|r|];
    }
  }

  /** The flag tells whether anything was cut, except when the text ends with its `limit`-th line:
      then, and only then, it is set although the text is whole. */
  lemma FlagTellsCutIff(s: string, limit: int)
    ensures var (r, truncated) := Truncated(s, limit);
      (truncated <==> r != s) <==> !(limit > 0 && LineEnd(s, limit, |s|))
  {
    TruncatedMeans(s, limit);
    assert s[..|s|] == s;
    if limit > 0 && LineEnd(s, limit, |s|) && Truncated(s, limit).1 {
      LineEndUnique(s, limit, |s|, |Truncated(s, limit).0|);
    }
  }

  /** An exact fit: one terminated line and a limit of one line. */
  lemma FlagOnExactFit()
    ensures Truncated("a\n", 1) == ("a\n", true)
  {
    var s := "a\n";
    FindUnique(s, '\n', 0, 1);
    assert EndOfLine(s, 1, 0) == Some(2);
    assert s[..2] == s;
  }

  /** Truncating to `m` and then to `n` lines is truncating to the smaller of the two. */
  lemma TruncateTwice(s: string, m: int, n: int)
    requires m > 0 && n > 0
    ensures Truncated(Truncated(s, m).0, n).0 == Truncated(s, if m < n then m else n).0
  {
    var t := Truncated(s, m).0;
    TruncatedMeans(s, m);
    TruncatedMeans(t, n);
    TruncatedMeans(s, n);
    if Truncated(s, m).1 {
      NewlinesOfPrefix(s, |t|, |s|);
      assert s[..|s|] == s && s[..|t|] == t;
      if Newlines(t) >= n {
        var r := Truncated(t, n).0;
        assert s[..|r|] == t[..|r|];
        LineEndUnique(s, n, |r|, |Truncated(s, n).0|);
      }
    }
  }

  // ----- Rendered lists

  /** `strings.Join(entries, "\n")`. */
  function Joined(entries: seq<string>): string {
    Join(entries, '\n')
  }

  /** Every entry followed by a newline. */
  function Terminated(entries: seq<string>): string {
    if entries == [] then "" else Terminated(entries[..|entries| - 1]) + entries[|entries| - 1] + "\n"
  }

  /** `exemplarQueryAPICall` writes the entries one by one. */
  method RenderTerminated(entries: seq<string>) returns (sb: string)
    ensures sb == Terminated(entries)
  {
    sb := "";
    for n := 0 to |entries|
      invariant sb == Terminated(entries[..n])
    {
      assert entries[..n + 1][..n] == entries[..n];
      sb := sb + entries[n];
      sb := sb + "\n";
    }
    assert entries[..|entries|] == entries;
  }

  ghost predicate NewlineFree(entries: seq<string>) {
    forall e :: e in entries ==> '\n' !in e
  }

  lemma {:induction false} TerminatedPrefix(entries: seq<string>, n: nat)
    requires n <= |entries|
    ensures Terminated(entries[..n]) <= Terminated(entries)
    decreases |entries|
  {
    if n < |entries| {
      assert entries[..|entries| - 1][..n] == entries[..n];
      TerminatedPrefix(entries[..|entries| - 1], n);
    } else {
      assert entries[..n] == entries;
    }
  }

  lemma {:induction false} TerminatedLines(entries: seq<string>)
    requires NewlineFree(entries)
    ensures Newlines(Terminated(entries)) == |entries|
    ensures entries != [] ==> Terminated(entries) != "" && Terminated(entries)[|Terminated(entries)| - 1] == '\n'
  {
    if entries != [] {
      var init, last := entries[..|entries| - 1], entries[|entries| - 1];
      TerminatedLines(init);
      NewlinesAppend(Terminated(init) + last, "\n");
      NewlinesAppend(Terminated(init), last);
      NoNewlines(last);
      OneNewline();
    }
  }

  lemma {:induction false} JoinedTerminated(entries: seq<string>)
    requires entries != []
    ensures Joined(entries) + "\n" == Terminated(entries)
  {
    var last := |entries| - 1;
    if last > 0 {
      JoinedSnoc(entries[..last], entries[last]);
      assert entries == entries[..last] + [entries[last]];
      JoinedTerminated(entries[..last]);
    }
  }

  lemma {:induction false} JoinedSnoc(entries: seq<string>, e: string)
    requires entries != []
    ensures Joined(entries + [e]) == Joined(entries) + "\n" + e
  {
    var all := entries + [e];
    if |entries| == 1 {
      assert all[1..] == [e] && Join([e], '\n') == e;
    } else {
      assert all[1..] == entries[1..] + [e];
      JoinedSnoc(entries[1..], e);
    }
  }

  /** If a text starts with the first `limit` entries, each on its own line, and has so many
      newlines, then truncating it gives exactly those. */
  lemma ShownPrefix(entries: seq<string>, text: string, limit: nat)
    requires 0 < limit <= |entries| && NewlineFree(entries)
    requires Terminated(entries[..limit]) <= text && Newlines(text) >= limit
    ensures Truncated(text, limit) == (Terminated(entries[..limit]), true)
  {
    var shown := Terminated(entries[..limit]);
    TerminatedLines(entries[..limit]);
    assert text[..|shown|] == shown;
    TruncationUnique(text, limit, shown, true);
  }

  /** Exemplars: truncation is reported if and only if there are at least `limit` entries; the
      first `limit` of them are shown, so that an exact fit cuts nothing. */
  lemma TerminatedListTruncation(entries: seq<string>, limit: int)
    requires limit > 0 && NewlineFree(entries)
    ensures var (r, truncated) := Truncated(Terminated(entries), limit);
      && (truncated <==> |entries| >= limit)
      && (truncated ==> r == Terminated(entries[..limit]))
      && (|entries| == limit ==> r == Terminated(entries))
  {
    TerminatedLines(entries);
    TruncatedMeans(Terminated(entries), limit);
    if |entries| >= limit {
      TerminatedPrefix(entries, limit);
      ShownPrefix(entries, Terminated(entries), limit);
      assert |entries| == limit ==> entries[..limit] == entries;
    }
  }

  /** Series, label names and label values: the output is cut if and only if there are more than
      `limit` entries, and then shows exactly the first `limit`, each on a line of its own. */
  lemma JoinedListTruncation(entries: seq<string>, limit: int)
    requires limit > 0 && NewlineFree(entries)
    ensures var (r, truncated) := Truncated(Joined(entries), limit);
      && (truncated <==> |entries| > limit)
      && r == if truncated then Terminated(entries[..limit]) else Joined(entries)
  {
    TruncatedMeans(Joined(entries), limit);
    if entries == [] {
      assert Newlines("") == 0;
    } else {
      var text := Joined(entries);
      JoinedTerminated(entries);
      TerminatedLines(entries);
      NewlinesAppend(text, "\n");
      OneNewline();
      if |entries| > limit {
        var init := entries[..|entries| - 1];
        TerminatedPrefix(init, limit);
        assert init[..limit] == entries[..limit];
        assert Terminated(init) <= text;
        ShownPrefix(entries, text, limit);
      }
    }
  }

  /** Without assuming newline-free entries: a joined list is cut by the newlines it holds, those
      inside entries included. */
  lemma JoinedTruncationCountsInnerNewlines(entries: seq<string>, limit: int)
    requires limit > 0 && entries != []
    ensures Truncated(Joined(entries), limit).1 <==> InnerNewlines(entries) + |entries| - 1 >= limit
  {
    TruncatedMeans(Joined(entries), limit);
    JoinedNewlines(entries);
  }

  function InnerNewlines(entries: seq<string>): nat {
    if entries == [] then 0 else Newlines(entries[0]) + InnerNewlines(entries[1..])
  }

  lemma {:induction false} JoinedNewlines(entries: seq<string>)
    requires entries != []
    ensures Newlines(Joined(entries)) == InnerNewlines(entries) + |entries| - 1
  {
    if |entries| > 1 {
      JoinedNewlines(entries[1..]);
      NewlinesAppend(entries[0] + ['\n'], Joined(entries[1..]));
      NewlinesAppend(entries[0], ['\n']);
      OneNewline();
    } else {
      assert entries[1..] == [];
    }
  }

  // ----- What a tool returns

  /** What is kept of the text, and the warning if the flag is set. */
  function Formatted(text: string, limit: int, warning: int -> string): string {
    var (kept, warned) := Truncated(text, limit);
    kept + if warned then warning(limit) else ""
  }

  /** `formatTruncatedQueryAPIResponse` without the encoding: the warning names the limit. */
  method FormatTruncated(text: string, limit: int, warning: int -> string) returns (r: string)
    ensures r == Formatted(text, limit, warning)
    ensures r == if limit > 0 && Newlines(text) >= limit then Truncated(text, limit).0 + warning(limit) else text
  {
    TruncatedMeans(text, limit);
    var cut, truncated := TruncateStringByLines(text, limit);
    r := text;
    if truncated {
      TruncationUnique(text, limit, cut, truncated);
      r := cut + warning(limit);
    }
  }

  /** The warning says that something was cut. That is so, except for a text that ends with its
      `limit`-th line: there, and only there, it is appended to the whole text. */
  lemma WarnedThoughWholeIff(text: string, limit: int, warning: int -> string)
    requires warning(limit) != ""
    ensures Formatted(text, limit, warning) == text + warning(limit) <==> limit > 0 && LineEnd(text, limit, |text|)
  {
    FlagTellsCutIff(text, limit);
    TruncatedMeans(text, limit);
    var (kept, warned) := Truncated(text, limit);
    assert |Formatted(text, limit, warning)| == |kept| + if warned then |warning(limit)| else 0;
    if limit > 0 && LineEnd(text, limit, |text|) {
      LineEndMeansNewlines(text, limit);
    }
  }

  lemma LineEndMeansNewlines(text: string, limit: int)
    requires limit > 0 && LineEnd(text, limit, |text|)
    ensures Newlines(text) == limit
  {
    assert text[..|text|] == text;
  }

  /** An exact fit again: nothing is cut, and the warning is appended. */
  lemma WarnedOnExactFit(warning: int -> string)
    ensures Formatted("a\n", 1, warning) == "a\n" + warning(1)
  {
    FlagOnExactFit();
  }
}
