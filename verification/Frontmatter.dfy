/** The two frontmatter expressions of the server, under the matching rule of Go's `regexp`
    package: leftmost first, and among the matches there the one a backtracking search finds
    first. The lemmas say in terms of lines what they match. */
module Frontmatter {
  import opened Text

  // ----- Backtracking search

  /** A pattern, as a chain of steps. `Many` is a greedy repetition of a byte class, `Lazy` a
      reluctant repetition of any byte, `Mark` a group boundary and `Eol` is `(?:\n|\z)`. */
  datatype Pattern =
    | Stop
    | Begin(next: Pattern)
    | Lit(c: char, next: Pattern)
    | Opt(c: char, next: Pattern)
    | Many(cs: set<char>, next: Pattern)
    | Lazy(next: Pattern)
    | Mark(next: Pattern)
    | Eol(next: Pattern)

  /** The first match of `p` at `i` that backtracking finds: the marked positions, then the end. */
  function Match(p: Pattern, s: string, i: nat): (r: Option<seq<nat>>)
    requires i <= |s|
    ensures r.Some? ==> |r.value| > 0 && i <= r.value[|r.value| - 1] <= |s|
    decreases p, |s| - i
  {
    match p
    case Stop => Some([i])
    case Begin(k) => if i == 0 then Match(k, s, i) else None
    case Lit(c, k) => if i < |s| && s[i] == c then Match(k, s, i + 1) else None
    case Opt(c, k) =>
      var greedy := if i < |s| && s[i] == c then Match(k, s, i + 1) else None;
      if greedy.Some? then greedy else Match(k, s, i)
    case Many(cs, k) =>
      var greedy := if i < |s| && s[i] in cs then Match(p, s, i + 1) else None;
      if greedy.Some? then greedy else Match(k, s, i)
    case Lazy(k) =>
      var short := Match(k, s, i);
      if short.Some? then short else if i < |s| then Match(p, s, i + 1) else None
    case Mark(k) =>
      var rest := Match(k, s, i);
      if rest.Some? then Some([i] + rest.value) else None
    case Eol(k) =>
      var newline := if i < |s| && s[i] == '\n' then Match(k, s, i + 1) else None;
      if newline.Some? then newline else if i == |s| then Match(k, s, i) else None
  }

  /** The leftmost match at or after `i`: where it starts, then its positions. */
  function Search(p: Pattern, s: string, i: nat): (r: Option<seq<nat>>)
    requires i <= |s|
    ensures r.Some? ==> |r.value| > 1 && i <= r.value[0] <= r.value[|r.value| - 1] <= |s|
    decreases |s| - i
  {
    var here := Match(p, s, i);
    if here.Some? then Some([i] + here.value)
    else if i < |s| then Search(p, s, i + 1)
    else None
  }

  lemma {:induction false} SearchAnchored(p: Pattern, s: string, i: nat)
    requires p.Begin? && i <= |s|
    ensures i > 0 ==> Search(p, s, i).None?
    ensures i == 0 && Match(p, s, 0).Some? ==> Search(p, s, 0) == Some([0] + Match(p, s, 0).value)
    ensures i == 0 && Match(p, s, 0).None? ==> Search(p, s, 0).None?
    decreases |s| - i
  {
    if i < |s| {
      SearchAnchored(p, s, i + 1);
    }
  }

  function Word(w: string, k: Pattern): Pattern {
    if w == "" then k else Lit(w[0], Word(w[1..], k))
  }

  lemma {:induction false} MatchWord(w: string, k: Pattern, s: string, i: nat)
    requires i <= |s|
    ensures Match(Word(w, k), s, i) ==
      if HasPrefix(s[i..], w) then Match(k, s, i + |w|) else None
  {
    if w != "" {
      if i < |s| {
        MatchWord(w[1..], k, s, i + 1);
        assert s[i..] == [s[i]] + s[i + 1..];
        assert w == [w[0]] + w[1..];
        assert HasPrefix(s[i..], w) <==> s[i] == w[0] && HasPrefix(s[i + 1..], w[1..]);
      }
    }
  }

  /** The first position at or after `i` whose byte is not in `cs`. */
  function Skip(cs: set<char>, s: string, i: nat): (j: nat)
    requires i <= |s|
    ensures i <= j <= |s|
    ensures forall k :: i <= k < j ==> s[k] in cs
    ensures j < |s| ==> s[j] !in cs
    decreases |s| - i
  {
    if i < |s| && s[i] in cs then Skip(cs, s, i + 1) else i
  }

  /** A greedy class skips all it can, when what follows cannot start inside the class. */
  lemma {:induction false} MatchMany(cs: set<char>, k: Pattern, s: string, i: nat)
    requires i <= |s|
    requires forall j :: i <= j < |s| && s[j] in cs ==> Match(k, s, j).None?
    ensures Match(Many(cs, k), s, i) == Match(k, s, Skip(cs, s, i))
    decreases |s| - i
  {
    if i < |s| && s[i] in cs {
      MatchMany(cs, k, s, i + 1);
    }
  }

  /** A reluctant repetition stops at the first position where the rest matches. */
  lemma {:induction false} MatchLazy(k: Pattern, s: string, i: nat, p: nat)
    requires i <= p <= |s|
    requires forall q :: i <= q < p ==> Match(k, s, q).None?
    requires Match(k, s, p).Some? || p == |s|
    ensures Match(Lazy(k), s, i) == Match(k, s, p)
    decreases p - i
  {
    if i < p {
      MatchLazy(k, s, i + 1, p);
    }
  }

  // ----- Skill frontmatter

  const BLANKS: set<char> := {' ', '\t'}

  /** `\r?\n---[ \t]*\r?(?:\n|\z)` */
  const CLOSING: Pattern := Opt('\r', Lit('\n', Word("---", Many(BLANKS, Opt('\r', Eol(Stop))))))

  /** `\A---[ \t]*\r?\n((?s:.*?))\r?\n---[ \t]*\r?(?:\n|\z)` */
  const SKILL_FRONTMATTER: Pattern :=
    Begin(Word("---", Many(BLANKS, Opt('\r', Lit('\n', Mark(Lazy(Mark(CLOSING))))))))

  /** The line of `s` that starts at `i`, without its newline. */
  function LineAt(s: string, i: nat): string
    requires i <= |s|
  {
    s[i..Find(s, '\n', i)]
  }

  /** Where the line after the one starting at `i` starts. */
  function NextLine(s: string, i: nat): (j: nat)
    requires i <= |s|
    ensures i <= j <= |s|
  {
    var end := Find(s, '\n', i);
    if end < |s| then end + 1 else end
  }

  /** `---`, then blanks, then at most one carriage return. */
  predicate FenceLine(line: string) {
    && HasPrefix(line, "---")
    && var end := Skip(BLANKS, line, 3);
       line[end..] == "" || line[end..] == "\r"
  }

  /** Three dashes, spaces and tabs, and at most one carriage return. */
  ghost predicate FenceParts(line: string, blanks: string, cr: string) {
    && line == "---" + blanks + cr
    && (forall c :: c in blanks ==> c == ' ' || c == '\t')
    && (cr == "" || cr == "\r")
  }

  /** A fence line, said by its parts. */
  lemma FenceLineMeans(line: string)
    ensures FenceLine(line) <==> exists blanks, cr :: FenceParts(line, blanks, cr)
  {
    if FenceLine(line) {
      var end := Skip(BLANKS, line, 3);
      assert line == line[..3] + line[3..end] + line[end..];
      assert FenceParts(line, line[3..end], line[end..]);
    }
    if blanks, cr :| FenceParts(line, blanks, cr) {
      FenceOfParts(blanks, cr);
    }
  }

  lemma FenceOfParts(blanks: string, cr: string)
    requires (forall c :: c in blanks ==> c == ' ' || c == '\t') && (cr == "" || cr == "\r")
    ensures FenceLine("---" + blanks + cr)
  {
    var line, end := "---" + blanks + cr, 3 + |blanks|;
    assert line[..3] == "---" && line[3..end] == blanks && line[end..] == cr;
    forall k | 3 <= k < end
      ensures line[k] in BLANKS
    {
      assert line[k] == blanks[k - 3] && blanks[k - 3] in blanks;
    }
    if end < |line| {
      assert line[end] == cr[0];
    }
    SkipUnique(BLANKS, line, 3, end);
  }

  lemma {:induction false} SkipUnique(cs: set<char>, s: string, i: nat, j: nat)
    requires i <= j <= |s| && (forall k :: i <= k < j ==> s[k] in cs) && (j < |s| ==> s[j] !in cs)
    ensures Skip(cs, s, i) == j
    decreases j - i
  {
    if i < j {
      SkipUnique(cs, s, i + 1, j);
    }
  }

  /** A line break at `q`, LF or CRLF, that a fence line follows: where that line starts. */
  function FenceAfterBreak(s: string, q: nat): Option<nat>
    requires q <= |s|
  {
    if q < |s| && s[q] == '\n' && FenceLine(LineAt(s, q + 1)) then Some(q + 1)
    else if q + 1 < |s| && s[q] == '\r' && s[q + 1] == '\n' && FenceLine(LineAt(s, q + 2))
    then Some(q + 2)
    else None
  }

  lemma {:induction false} SkipWithinLine(s: string, i: nat, j: nat)
    requires i <= |s| && i <= j <= Find(s, '\n', i)
    ensures Skip(BLANKS, s, j) <= Find(s, '\n', i)
    ensures Skip(BLANKS, s, j) == i + Skip(BLANKS, LineAt(s, i), j - i)
    decreases |s| - j
  {
    var end := Find(s, '\n', i);
    if j < end && s[j] in BLANKS {
      SkipWithinLine(s, i, j + 1);
    }
  }

  /** `---[ \t]*\r?` and then a newline, or also the end of the text, matches exactly the fence lines. */
  lemma MatchFence(s: string, i: nat)
    requires i <= |s|
    ensures Match(Word("---", Many(BLANKS, Opt('\r', Eol(Stop)))), s, i) ==
      if FenceLine(LineAt(s, i)) then Some([NextLine(s, i)]) else None
  {
    hide Match;
    var tail := Opt('\r', Eol(Stop));
    var line, end := LineAt(s, i), Find(s, '\n', i);
    MatchWord("---", Many(BLANKS, tail), s, i);
    if HasPrefix(s[i..], "---") {
      PrefixWithinLine(s, i);
      TailNeverStartsBlank(s);
      MatchMany(BLANKS, tail, s, i + 3);
      SkipWithinLine(s, i, i + 3);
      var j := Skip(BLANKS, s, i + 3);
      FenceTail(s, j, end);
      assert line[j - i..] == s[j..end];
    }
  }

  lemma TailNeverStartsBlank(s: string)
    ensures forall j :: 0 <= j < |s| && s[j] in BLANKS ==> Match(Opt('\r', Eol(Stop)), s, j).None?
  {
    forall j | 0 <= j < |s| && s[j] in BLANKS
      ensures Match(Opt('\r', Eol(Stop)), s, j).None?
    {
      MatchEol(s, j);
    }
  }

  lemma PrefixWithinLine(s: string, i: nat)
    requires i <= |s| && HasPrefix(s[i..], "---")
    ensures i + 3 <= Find(s, '\n', i)
    ensures HasPrefix(LineAt(s, i), "---")
  {
    assert s[i] == s[i..][0] && s[i + 1] == s[i..][1] && s[i + 2] == s[i..][2];
    assert LineAt(s, i)[..3] == s[i..][..3];
  }

  /** After the blanks: nothing or one CR must be left of the line. */
  lemma FenceTail(s: string, j: nat, end: nat)
    requires j <= end <= |s| && end == Find(s, '\n', j)
    ensures Match(Opt('\r', Eol(Stop)), s, j) ==
      if s[j..end] == "" || s[j..end] == "\r" then Some([if end < |s| then end + 1 else end]) else None
  {
    MatchEol(s, j);
    if j < end && s[j] == '\r' {
      MatchEol(s, j + 1);
      assert s[j..end] == "\r" <==> end == j + 1;
    }
  }

  lemma MatchEol(s: string, j: nat)
    requires j <= |s|
    ensures Match(Eol(Stop), s, j) ==
      if j == |s| then Some([j]) else if s[j] == '\n' then Some([j + 1]) else None
  {
  }

  lemma MatchClosing(s: string, q: nat)
    requires q <= |s|
    ensures Match(CLOSING, s, q) ==
      match FenceAfterBreak(s, q) { case Some(start) => Some([NextLine(s, start)]) case None => None }
  {
    if q < |s| {
      MatchFence(s, q + 1);
      if q + 1 < |s| {
        MatchFence(s, q + 2);
      }
    }
  }

  /** The first break at or after `i` that a fence line follows; `|s|` if there is none. */
  function FirstFence(s: string, i: nat): (p: nat)
    requires i <= |s|
    ensures i <= p <= |s|
    ensures forall q :: i <= q < p ==> FenceAfterBreak(s, q).None?
    ensures p < |s| ==> FenceAfterBreak(s, p).Some?
    decreases |s| - i
  {
    if i == |s| || FenceAfterBreak(s, i).Some? then i else FirstFence(s, i + 1)
  }

  datatype Parts = Parts(frontmatter: string, body: string)

  /** What the skill expression cuts out of a document: if the first line is a complete fence
      line, the text from there up to the line break before the next fence line. */
  function SplitSkill(raw: string): Option<Parts> {
    var open := NextLine(raw, 0);
    if !FenceLine(LineAt(raw, 0)) || Find(raw, '\n', 0) == |raw| then None
    else
      var close := FirstFence(raw, open);
      if close == |raw| then None
      else
        var start := FenceAfterBreak(raw, close).value;
        Some(Parts(raw[open..close], raw[NextLine(raw, start)..]))
  }

  lemma OpeningTail(s: string, j: nat, end: nat, k: Pattern)
    requires j <= end <= |s| && end == Find(s, '\n', j)
    ensures Match(Opt('\r', Lit('\n', k)), s, j) ==
      if end < |s| && (s[j..end] == "" || s[j..end] == "\r") then Match(k, s, end + 1) else None
  {
    MatchNewline(s, j, k);
    if j < end && s[j] == '\r' {
      MatchNewline(s, j + 1, k);
      assert s[j..end] == "\r" <==> end == j + 1;
    }
  }

  lemma BreakNeverStartsBlank(s: string, j: nat, k: Pattern)
    requires j < |s| && s[j] in BLANKS
    ensures Match(Opt('\r', Lit('\n', k)), s, j).None?
  {
    MatchNewline(s, j, k);
  }

  lemma MatchNewline(s: string, j: nat, k: Pattern)
    requires j <= |s|
    ensures Match(Lit('\n', k), s, j) ==
      if j < |s| && s[j] == '\n' then Match(k, s, j + 1) else None
  {
  }

  lemma MatchOpening(s: string, k: Pattern)
    ensures Match(Word("---", Many(BLANKS, Opt('\r', Lit('\n', k)))), s, 0) ==
      if FenceLine(LineAt(s, 0)) && Find(s, '\n', 0) < |s| then Match(k, s, NextLine(s, 0)) else None
  {
    hide Match;
    var tail := Opt('\r', Lit('\n', k));
    var line, end := LineAt(s, 0), Find(s, '\n', 0);
    MatchWord("---", Many(BLANKS, tail), s, 0);
    assert s[0..] == s;
    if HasPrefix(s, "---") {
      PrefixWithinLine(s, 0);
      forall j | 0 <= j < |s| && s[j] in BLANKS
        ensures Match(tail, s, j).None?
      {
        BreakNeverStartsBlank(s, j, k);
      }
      MatchMany(BLANKS, tail, s, 3);
      SkipWithinLine(s, 0, 3);
      var j := Skip(BLANKS, s, 3);
      OpeningTail(s, j, end, k);
      assert line[j..] == s[j..end];
    }
  }

  /** The search for the skill expression computes the line-based split: the reluctant group
      ends at the first closing fence line. */
  lemma SkillExpressionMeans(raw: string)
    ensures match SplitSkill(raw)
      case None => Search(SKILL_FRONTMATTER, raw, 0).None?
      case Some(parts) =>
        var m := Search(SKILL_FRONTMATTER, raw, 0);
        && m.Some? && |m.value| == 4 && m.value[0] == 0
        && m.value[1] <= m.value[2] <= m.value[3] <= |raw|
        && raw[m.value[1]..m.value[2]] == parts.frontmatter
        && raw[m.value[3]..] == parts.body
  {
    SearchAnchored(SKILL_FRONTMATTER, raw, 0);
    MatchOpening(raw, Mark(Lazy(Mark(CLOSING))));
    if FenceLine(LineAt(raw, 0)) && Find(raw, '\n', 0) < |raw| {
      var open := NextLine(raw, 0);
      var close := FirstFence(raw, open);
      forall q | open <= q <= |raw|
        ensures Match(CLOSING, raw, q).Some? <==> FenceAfterBreak(raw, q).Some?
      {
        MatchClosing(raw, q);
      }
      MatchLazy(Mark(CLOSING), raw, open, close);
      MatchClosing(raw, close);
    }
  }

  // ----- Assembling a skill document and splitting it again

  /** A line of `t` is a line of any text that continues after `t` with a newline. */
  lemma LineInside(pre: string, t: string, post: string, i: nat)
    requires i <= |t|
    ensures LineAt(pre + t + "\n" + post, |pre| + i) == LineAt(t, i)
  {
    var s, end := pre + t + "\n" + post, Find(t, '\n', i);
    assert forall k :: 0 <= k < |t| ==> s[|pre| + k] == t[k];
    FindUnique(s, '\n', |pre| + i, |pre| + end);
    assert s[|pre| + i..|pre| + end] == t[i..end];
  }

  lemma LineAtEnd(pre: string, line: string, tail: string)
    requires '\n' !in line && (tail == "" || tail[0] == '\n')
    ensures LineAt(pre + line + tail, |pre|) == line
    ensures NextLine(pre + line + tail, |pre|) == |pre| + |line| + if tail == "" then 0 else 1
  {
    var s := pre + line + tail;
    assert forall k :: 0 <= k < |line| ==> s[|pre| + k] == line[k];
    FindUnique(s, '\n', |pre|, |pre| + |line|);
    assert s[|pre|..|pre| + |line|] == line;
  }

  /** No line of `fm` after its first is a fence line, given the CR that ends its last line, if
      any; and `fm` does not end in a CR that would join the line break after it. */
  ghost predicate Undisturbed(fm: string, cr: string) {
    && (forall q :: 0 <= q < |fm| && fm[q] == '\n' ==> !FenceLine(LineAt(fm + cr, q + 1)))
    && (cr == "" && fm != "" ==> fm[|fm| - 1] != '\r')
  }

  /** A break inside `fm`, and the fence line after it, seen from within `fm`. */
  lemma BreakInside(pre: string, fm: string, cr: string, post: string, q: nat)
    requires cr == "" || cr == "\r"
    requires FenceLine(LineAt(post, 0))
    requires q < |fm|
    ensures FenceAfterBreak(pre + (fm + cr) + "\n" + post, |pre| + q).Some? <==>
        || (fm[q] == '\n' && FenceLine(LineAt(fm + cr, q + 1)))
        || (fm[q] == '\r' && q + 1 < |fm| && fm[q + 1] == '\n' && FenceLine(LineAt(fm + cr, q + 2)))
        || (fm[q] == '\r' && q + 1 == |fm| && cr == "")
  {
    hide FenceLine, LineAt;
    var t := fm + cr;
    var s := pre + t + "\n" + post;
    assert s[|pre| + q] == fm[q];
    LineInside(pre, t, post, q + 1);
    if q + 2 <= |t| {
      assert s[|pre| + q + 1] == t[q + 1];
      LineInside(pre, t, post, q + 2);
    } else {
      assert s[|pre| + q + 1] == '\n';
      assert s == (pre + t + "\n") + post;
      LineOfSuffix(pre + t + "\n", post);
    }
  }

  /** The breaks inside `fm` are followed by a fence line in the document only if they are in `fm`. */
  lemma NoFenceInside(pre: string, fm: string, cr: string, post: string)
    requires cr == "" || cr == "\r"
    requires FenceLine(LineAt(post, 0))
    ensures var s := pre + (fm + cr) + "\n" + post;
      Undisturbed(fm, cr) <==>
        forall p :: |pre| <= p < |pre| + |fm| ==> FenceAfterBreak(s, p).None?
  {
    hide FenceLine, LineAt, FenceAfterBreak;
    var s := pre + (fm + cr) + "\n" + post;
    if !Undisturbed(fm, cr) {
      var q :| 0 <= q < |fm| &&
        ((fm[q] == '\n' && FenceLine(LineAt(fm + cr, q + 1))) || (q == |fm| - 1 && cr == "" && fm[q] == '\r'));
      BreakInside(pre, fm, cr, post, q);
      assert FenceAfterBreak(s, |pre| + q).Some?;
    } else {
      forall p | |pre| <= p < |pre| + |fm|
        ensures FenceAfterBreak(s, p).None?
      {
        BreakInside(pre, fm, cr, post, p - |pre|);
      }
    }
  }

  lemma LineOfSuffix(pre: string, post: string)
    ensures LineAt(pre + post, |pre|) == LineAt(post, 0)
  {
    var s, end := pre + post, Find(post, '\n', 0);
    assert forall k :: 0 <= k < |post| ==> s[|pre| + k] == post[k];
    FindUnique(s, '\n', |pre|, |pre| + end);
    assert s[|pre|..|pre| + end] == post[..end];
  }

  /** The document's own closing fence is found where it was put. */
  lemma OwnFence(pre: string, cr: string, fence': string, tail: string)
    requires FenceLine(fence') && '\n' !in fence'
    requires cr == "" || cr == "\r"
    requires tail == "" || tail[0] == '\n'
    ensures var raw := pre + cr + "\n" + fence' + tail;
      var start := |pre| + |cr| + 1;
      && FenceAfterBreak(raw, |pre|) == Some(start)
      && raw[NextLine(raw, start)..] == if tail == "" then "" else tail[1..]
  {
    hide FenceLine, LineAt, NextLine;
    var last := pre + cr + "\n";
    var raw := last + fence' + tail;
    LineAtEnd(last, fence', tail);
    assert raw[|pre|] == if cr == "" then '\n' else '\r';
    assert raw[|last| - 1] == '\n';
  }

  /** The document's opening fence is its first line. */
  lemma OpeningFence(fence: string, rest: string)
    requires FenceLine(fence) && '\n' !in fence
    ensures var raw := fence + "\n" + rest;
      && LineAt(raw, 0) == fence && Find(raw, '\n', 0) == |fence| && NextLine(raw, 0) == |fence| + 1
  {
    var raw := fence + "\n" + rest;
    FindUnique(raw, '\n', 0, |fence|);
    assert raw[0..|fence|] == fence;
  }

  /** Given a closing fence at `end`, the split ends there if and only if no earlier one exists. */
  lemma SplitBefore(raw: string, open: nat, end: nat, start: nat)
    requires FenceLine(LineAt(raw, 0)) && Find(raw, '\n', 0) < |raw| && NextLine(raw, 0) == open
    requires open <= end < |raw| && FenceAfterBreak(raw, end) == Some(start) && start <= |raw|
    ensures var parts := SplitSkill(raw);
      var first := forall p :: open <= p < end ==> FenceAfterBreak(raw, p).None?;
      && parts.Some?
      && (parts.value.frontmatter == raw[open..end] <==> first)
      && (first ==> parts.value.body == raw[NextLine(raw, start)..])
  {
    hide FenceLine, LineAt, NextLine, FenceAfterBreak;
    var close := FirstFence(raw, open);
    assert close <= end;
    assert |raw[open..close]| == close - open;
  }

  /** A document assembled as fence line, frontmatter, line break, fence line, rest is always
      split; and it is split back into exactly that frontmatter if and only if the frontmatter
      is undisturbed. */
  lemma SkillRoundTrip(fence: string, fm: string, cr: string, fence': string, tail: string)
    requires FenceLine(fence) && FenceLine(fence') && '\n' !in fence && '\n' !in fence'
    requires cr == "" || cr == "\r"
    requires tail == "" || tail[0] == '\n'
    ensures var parts := SplitSkill(fence + "\n" + fm + cr + "\n" + fence' + tail);
      && parts.Some?
      && (parts.value.frontmatter == fm <==> Undisturbed(fm, cr))
      && (Undisturbed(fm, cr) ==> parts.value.body == if tail == "" then "" else tail[1..])
  {
    hide FenceLine, LineAt, NextLine, FenceAfterBreak, Undisturbed, SplitSkill, Find;
    var pre, post := fence + "\n", fence' + tail;
    var raw := pre + fm + cr + "\n" + fence' + tail;
    Regroup(pre, fm, cr, fence', tail);
    OpeningFence(fence, fm + cr + "\n" + post);
    OwnFence(pre + fm, cr, fence', tail);
    LineAtEnd("", fence', tail);
    assert "" + fence' == fence';
    NoFenceInside(pre, fm, cr, post);
    SplitBefore(raw, |pre|, |pre + fm|, |pre + fm| + |cr| + 1);
  }

  /** `raw` is a fence line, frontmatter, a line break, a fence line, and what follows it. */
  ghost predicate Assembled(raw: string, fence: string, fm: string, cr: string, fence': string, tail: string) {
    && raw == fence + "\n" + fm + cr + "\n" + fence' + tail
    && FenceLine(fence) && FenceLine(fence') && '\n' !in fence && '\n' !in fence'
    && (cr == "" || cr == "\r")
    && (tail == "" || tail[0] == '\n')
  }

  /** A document is split if and only if it has that form. */
  lemma SkillSplitIff(raw: string)
    ensures SplitSkill(raw).Some? <==>
      exists fence, fm, cr, fence', tail :: Assembled(raw, fence, fm, cr, fence', tail)
  {
    if SplitSkill(raw).Some? {
      SplitHasForm(raw);
    }
    if fence, fm, cr, fence', tail :| Assembled(raw, fence, fm, cr, fence', tail) {
      hide SplitSkill, FenceLine;
      SkillRoundTrip(fence, fm, cr, fence', tail);
    }
  }

  /** The break before a fence line, and that line. */
  lemma BreakAndFence(raw: string, close: nat)
    requires close < |raw| && FenceAfterBreak(raw, close).Some?
    ensures var start := FenceAfterBreak(raw, close).value;
      && close < start <= |raw| && FenceLine(LineAt(raw, start))
      && raw[close..start] == (if raw[close] == '\r' then "\r" else "") + "\n"
  {
    hide FenceLine, LineAt;
  }

  lemma LineParts(raw: string, i: nat)
    requires i <= |raw|
    ensures var end := Find(raw, '\n', i);
      && '\n' !in LineAt(raw, i) && raw[i..end] == LineAt(raw, i)
      && (raw[end..] == "" || raw[end..][0] == '\n')
      && (end < |raw| ==> raw[i..NextLine(raw, i)] == LineAt(raw, i) + "\n")
  {
  }

  lemma Cut(raw: string, i: nat, j: nat, k: nat, l: nat)
    requires i <= j <= k <= l <= |raw|
    ensures raw == raw[..i] + raw[i..j] + raw[j..k] + raw[k..l] + raw[l..]
  {
  }

  lemma Join4(fence: string, fm: string, cr: string, rest: string)
    ensures (fence + "\n") + fm + (cr + "\n") + rest == fence + "\n" + fm + cr + "\n" + rest
  {
  }

  lemma SplitHasForm(raw: string)
    requires SplitSkill(raw).Some?
    ensures exists fence, fm, cr, fence', tail :: Assembled(raw, fence, fm, cr, fence', tail)
  {
    var open := NextLine(raw, 0);
    var close := FirstFence(raw, open);
    assert close < |raw| && FenceAfterBreak(raw, close).Some? && FenceLine(LineAt(raw, 0));
    LineParts(raw, 0);
    BreakAndFence(raw, close);
    var start := FenceAfterBreak(raw, close).value;
    LineParts(raw, start);
    assert raw[..open] == LineAt(raw, 0) + "\n";
    hide FenceLine, LineAt, NextLine, FirstFence, FenceAfterBreak, SplitSkill;
    AssembledFrom(raw, open, close, start, Find(raw, '\n', start));
  }

  lemma AssembledFrom(raw: string, open: nat, close: nat, start: nat, end: nat)
    requires open <= close < start <= end <= |raw|
    requires raw[..open] == LineAt(raw, 0) + "\n" && raw[start..end] == LineAt(raw, start)
    requires var cr := if raw[close] == '\r' then "\r" else ""; raw[close..start] == cr + "\n"
    requires FenceLine(LineAt(raw, 0)) && FenceLine(LineAt(raw, start))
    requires '\n' !in LineAt(raw, 0) && '\n' !in LineAt(raw, start)
    requires raw[end..] == "" || raw[end..][0] == '\n'
    ensures exists fence, fm, cr, fence', tail :: Assembled(raw, fence, fm, cr, fence', tail)
  {
    hide FenceLine, LineAt;
    var cr := if raw[close] == '\r' then "\r" else "";
    Cut(raw, open, close, start, end);
    Join4(LineAt(raw, 0), raw[open..close], cr, LineAt(raw, start));
    assert Assembled(raw, LineAt(raw, 0), raw[open..close], cr, LineAt(raw, start), raw[end..]);
  }

  lemma Regroup(pre: string, fm: string, cr: string, fence: string, tail: string)
    ensures var raw := pre + fm + cr + "\n" + fence + tail;
      && raw == pre + (fm + cr + "\n" + (fence + tail))
      && raw == pre + (fm + cr) + "\n" + (fence + tail)
      && raw[|pre|..|pre + fm|] == fm
  {
  }

  /** The body is a suffix of the document. */
  lemma SkillBodyIsSuffix(raw: string)
    requires SplitSkill(raw).Some?
    ensures HasSuffix(raw, SplitSkill(raw).value.body)
  {
  }

  // ----- Documentation frontmatter

  /** `(?s)^---\n.*?\n---\n?` */
  const DOC_FRONTMATTER: Pattern := Begin(Word("---\n", Lazy(DASHES)))

  const DASHES: Pattern := Word("\n---", Opt('\n', Stop))

  /** `ReplaceAllString(s, "")` on what follows `i`: every match is removed, left to right; an
      empty match is stepped over. */
  function RemoveAll(p: Pattern, s: string, i: nat): string
    requires i <= |s|
    decreases |s| - i
  {
    match Search(p, s, i)
    case None => s[i..]
    case Some(m) =>
      var start, end := m[0], m[|m| - 1];
      if end > start then s[i..start] + RemoveAll(p, s, end)
      else if start < |s| then s[i..start + 1] + RemoveAll(p, s, start + 1)
      else s[i..]
  }

  function StripFrontmatter(content: string): string {
    RemoveAll(DOC_FRONTMATTER, content, 0)
  }

  /** The first position at or after `i` where `w` occurs; `|s|` if there is none. */
  function Index(s: string, w: string, i: nat): (p: nat)
    requires i <= |s| && w != ""
    ensures i <= p <= |s|
    ensures forall q :: i <= q < p ==> !HasPrefix(s[q..], w)
    ensures p < |s| ==> HasPrefix(s[p..], w)
    decreases |s| - i
  {
    if i == |s| || HasPrefix(s[i..], w) then i else Index(s, w, i + 1)
  }

  /** Stripping removes, once, the prefix through the first "\n---" at offset 4 or later and one
      newline after it; or nothing, if the text does not open with "---\n" or no such end follows. */
  lemma StripMeans(content: string)
    ensures StripFrontmatter(content) ==
      if !HasPrefix(content, "---\n") || Index(content, "\n---", 4) == |content| then content
      else
        var end := Index(content, "\n---", 4) + 4;
        if end < |content| && content[end] == '\n' then content[end + 1..] else content[end..]
  {
    hide Match, Search, Index;
    DocSearch(content);
    var m := Search(DOC_FRONTMATTER, content, 0);
    if m.Some? {
      SearchAnchored(DOC_FRONTMATTER, content, m.value[1]);
      assert RemoveAll(DOC_FRONTMATTER, content, m.value[1]) == content[m.value[1]..];
    }
  }

  /** `text` is what is left of `content` when the block at its beginning is taken away, said by
      position: the block ends with the first "\n---" at offset 4 or later and one newline. */
  ghost predicate IsStripped(content: string, text: string) {
    if HasPrefix(content, "---\n") && exists p: nat :: EndsBlock(content, p) then
      exists p: nat :: EndsBlock(content, p) && text == AfterBlock(content, p)
    else text == content
  }

  predicate DashesAt(content: string, p: nat) {
    p + 4 <= |content| && content[p..p + 4] == "\n---"
  }

  ghost predicate EndsBlock(content: string, p: nat) {
    4 <= p && DashesAt(content, p) && forall q: nat :: 4 <= q < p ==> !DashesAt(content, q)
  }

  lemma DashesPrefix(content: string, q: nat)
    requires q <= |content|
    ensures DashesAt(content, q) <==> HasPrefix(content[q..], "\n---")
  {
    if q + 4 <= |content| {
      assert content[q..][..4] == content[q..q + 4];
    }
  }

  /** Stripping is just that. */
  lemma StripIs(content: string, text: string)
    ensures IsStripped(content, text) <==> text == StripFrontmatter(content)
  {
    StripMeans(content);
    hide StripFrontmatter;
    if HasPrefix(content, "---\n") {
      var p := Index(content, "\n---", 4);
      forall q: nat | q <= |content|
        ensures DashesAt(content, q) <==> HasPrefix(content[q..], "\n---")
      {
        DashesPrefix(content, q);
      }
      assert p < |content| ==> p + 4 <= |content|;
      hide HasPrefix, DashesAt, Index;
      if p < |content| {
        assert EndsBlock(content, p);
        assert forall q: nat :: EndsBlock(content, q) ==> q == p;
      } else {
        forall q: nat
          ensures !EndsBlock(content, q)
        {
          DashesFit(content, q);
        }
      }
    }
  }

  lemma DashesFit(content: string, q: nat)
    ensures DashesAt(content, q) ==> q < |content|
  {
  }

  /** The search for the documentation expression. */
  lemma DocSearch(content: string)
    ensures Search(DOC_FRONTMATTER, content, 0) ==
      if !HasPrefix(content, "---\n") || Index(content, "\n---", 4) == |content| then None
      else
        var end := Index(content, "\n---", 4) + 4;
        Some([0, if end < |content| && content[end] == '\n' then end + 1 else end])
  {
    hide Search, Match, Word;
    SearchAnchored(DOC_FRONTMATTER, content, 0);
    MatchDoc(content);
    if HasPrefix(content, "---\n") {
      var p := Index(content, "\n---", 4);
      forall q | 4 <= q <= |content|
        ensures Match(DASHES, content, q).Some? <==> HasPrefix(content[q..], "\n---")
      {
        MatchDashes(content, q);
      }
      MatchLazy(DASHES, content, 4, p);
      MatchDashes(content, p);
      var m := Match(DOC_FRONTMATTER, content, 0);
      assert m == Match(DASHES, content, p);
      if m.Some? {
        assert [0] + m.value == [0, m.value[0]];
      }
    }
  }

  lemma MatchDoc(content: string)
    ensures Match(DOC_FRONTMATTER, content, 0) ==
      if HasPrefix(content, "---\n") then Match(Lazy(DASHES), content, 4) else None
  {
    MatchWord("---\n", Lazy(DASHES), content, 0);
    assert content[0..] == content;
  }

  lemma MatchDashes(s: string, q: nat)
    requires q <= |s|
    ensures Match(DASHES, s, q) ==
      if HasPrefix(s[q..], "\n---") then Some([if q + 4 < |s| && s[q + 4] == '\n' then q + 5 else q + 4])
      else None
  {
    MatchWord("\n---", Opt('\n', Stop), s, q);
  }

  // ----- What the comment on stripping asks for

  /** From the newline at `p`, a whole line `---`: it ends at a newline or with the text. */
  predicate FullLineAt(content: string, p: nat) {
    && p + 4 <= |content| && content[p..p + 4] == "\n---"
    && (p + 4 == |content| || content[p + 4] == '\n')
  }

  function FirstFullLine(content: string, i: nat): (p: nat)
    requires i <= |content|
    ensures i <= p <= |content|
    ensures forall q :: i <= q < p ==> !FullLineAt(content, q)
    ensures p < |content| ==> FullLineAt(content, p)
    decreases |content| - i
  {
    if i == |content| || FullLineAt(content, i) then i else FirstFullLine(content, i + 1)
  }

  /** What follows the "\n---" at `p` and the newline behind it. */
  function AfterBlock(content: string, p: nat): (r: string)
    requires p + 4 <= |content|
    ensures |content| - p - 5 <= |r| <= |content| - p - 4
  {
    if p + 4 < |content| && content[p + 4] == '\n' then content[p + 5..] else content[p + 4..]
  }

  /** What the comment describes: the block at the beginning that starts and ends with a line
      `---` is removed, with the newline that ends it. */
  function Documented(content: string): string {
    if !HasPrefix(content, "---\n") then content
    else
      var p := FirstFullLine(content, 3);
      if p == |content| then content else AfterBlock(content, p)
  }

  lemma FullLineOpens(content: string, q: nat)
    requires q <= |content|
    ensures FullLineAt(content, q) <==>
      HasPrefix(content[q..], "\n---") && (q + 4 == |content| || content[q + 4] == '\n')
    ensures HasPrefix(content[q..], "\n---") ==>
      q + 4 <= |content| && content[q] == '\n' && forall i :: q < i < q + 4 ==> content[i] == '-'
  {
    if q + 4 <= |content| {
      assert content[q..][..4] == content[q..q + 4];
      if HasPrefix(content[q..], "\n---") {
        assert content[q..q + 4] == "\n---";
        forall i | q <= i < q + 4
          ensures content[i] == "\n---"[i - q]
        {
          assert content[q..q + 4][i - q] == content[i];
        }
      }
    }
  }

  /** The end of the block in the code and in the comment. */
  lemma TwoEnds(content: string)
    requires HasPrefix(content, "---\n")
    ensures var p, f := Index(content, "\n---", 4), FirstFullLine(content, 3);
      && (p < |content| ==> p + 4 <= |content|)
      && (f < |content| ==> f + 4 <= |content|)
      && (FullLineAt(content, 3) ==> f == 3 && p >= 7)
      && (!FullLineAt(content, 3) ==> p <= f && (f == p <==> p == |content| || FullLineAt(content, p)))
  {
    var p, f := Index(content, "\n---", 4), FirstFullLine(content, 3);
    FullLineOpens(content, 3);
    FullLineOpens(content, p);
    FullLineOpens(content, f);
    hide FullLineAt, HasPrefix, FirstFullLine, Index;
  }

  /** Where the block ends decides how much is left. */
  lemma RestShrinks(content: string, p: nat, q: nat)
    requires p + 4 <= |content| && q + 4 <= |content|
    requires p < q && (content[p + 4] != '\n' || p + 1 < q)
    ensures |AfterBlock(content, q)| < |AfterBlock(content, p)|
  {
  }

  /** Stripping does what the comment describes if and only if the block is not empty and the
      first "\n---" after the opening line, if there is one, is a whole line. */
  lemma StripMeetsCommentIff(content: string)
    ensures StripFrontmatter(content) == Documented(content) <==>
      || !HasPrefix(content, "---\n")
      || (&& !FullLineAt(content, 3)
          && var p := Index(content, "\n---", 4); (p == |content| || FullLineAt(content, p)))
  {
    StripMeans(content);
    hide StripFrontmatter;
    if HasPrefix(content, "---\n") {
      TwoEnds(content);
      var p, f := Index(content, "\n---", 4), FirstFullLine(content, 3);
      assert StripFrontmatter(content) == if p == |content| then content else AfterBlock(content, p);
      assert Documented(content) == if f == |content| then content else AfterBlock(content, f);
      hide AfterBlock, Documented, HasPrefix, Index, FirstFullLine;
      if f == 3 {
        if p < |content| {
          RestShrinks(content, 3, p);
        }
      } else if p < f < |content| {
        NotFull(content, p);
        RestShrinks(content, p, f);
      }
    }
  }

  lemma NotFull(content: string, p: nat)
    requires p + 4 < |content| && HasPrefix(content[p..], "\n---") && !FullLineAt(content, p)
    ensures content[p + 4] != '\n'
  {
    FullLineOpens(content, p);
  }

  /** A longer line that begins with `---` ends the block in the code. */
  lemma StripEndsInMidLine()
    ensures StripFrontmatter("---\na\n---x\n---\nbody") == "x\n---\nbody"
    ensures Documented("---\na\n---x\n---\nbody") == "body"
  {
    var s := "---\na\n---x\n---\nbody";
    StripMeans(s);
    LongLineEnds(s);
    LongLinePassedOver(s);
    hide StripFrontmatter, Index, FirstFullLine, HasPrefix, FullLineAt;
  }

  lemma LongLineEnds(s: string)
    requires s == "---\na\n---x\n---\nbody"
    ensures HasPrefix(s, "---\n") && Index(s, "\n---", 4) == 5 && s[9] != '\n' && s[9..] == "x\n---\nbody"
  {
    assert s[5..][..4] == "\n---";
    assert s[4..][0] == 'a';
  }

  lemma LongLinePassedOver(s: string)
    requires s == "---\na\n---x\n---\nbody"
    ensures FirstFullLine(s, 3) == 10 && s[14] == '\n' && s[15..] == "body"
  {
    assert s[10..14] == "\n---" && FullLineAt(s, 10);
    assert s[4] == 'a' && s[6] == '-' && s[9] == 'x' && forall q :: 4 <= q < 10 && q != 5 ==> s[q] != '\n';
    hide FullLineAt, HasPrefix;
    forall q | 3 <= q < 10
      ensures !FullLineAt(s, q)
    {
      FullLineOpens(s, q);
    }
  }

  /** An empty block stays. */
  lemma StripKeepsEmptyBlock()
    ensures StripFrontmatter("---\n---\nbody") == "---\n---\nbody"
    ensures Documented("---\n---\nbody") == "body"
  {
    var s := "---\n---\nbody";
    StripMeans(s);
    EmptyBlockEnds(s);
    hide StripFrontmatter, Index, FirstFullLine, HasPrefix, FullLineAt;
  }

  lemma EmptyBlockEnds(s: string)
    requires s == "---\n---\nbody"
    ensures HasPrefix(s, "---\n") && Index(s, "\n---", 4) == |s|
    ensures FirstFullLine(s, 3) == 3 && s[7] == '\n' && s[8..] == "body"
  {
    assert s[3..7] == "\n---";
    forall q | 4 <= q < |s|
      ensures !HasPrefix(s[q..], "\n---")
    {
      assert q != 7 ==> s[q..][0] != '\n';
      assert q == 7 ==> s[q..][1] == 'b';
    }
  }

  // ----- Stripping assembled texts

  /** Given an occurrence of "\n---\n" at `own`, stripping ends there if and only if no earlier
      "\n---" exists. */
  lemma StripAt(s: string, own: nat)
    requires HasPrefix(s, "---\n") && 4 <= own <= |s| && HasPrefix(s[own..], "\n---\n")
    ensures StripFrontmatter(s) == s[own + 5..] <==>
      forall p :: 4 <= p < own ==> !HasPrefix(s[p..], "\n---")
  {
    hide StripFrontmatter;
    StripMeans(s);
    assert s[own..][..4] == "\n---" && s[own + 4] == s[own..][4];
    var p := Index(s, "\n---", 4);
    assert p <= own;
    assert |StripFrontmatter(s)| >= |s| - p - 5;
    if p < own {
      assert HasPrefix(s[p..], "\n---");
      assert |StripFrontmatter(s)| > |s[own + 5..]|;
    }
  }

  /** Frontmatter put in front of a body is stripped exactly, if and only if no "\n---" occurs
      in it before its own end. */
  lemma StripRoundTrip(fm: string, body: string)
    ensures StripFrontmatter("---\n" + fm + "\n---\n" + body) == body <==>
      forall q :: 0 <= q < |fm| ==> !HasPrefix((fm + "\n---")[q..], "\n---")
  {
    hide StripFrontmatter;
    var s := "---\n" + fm + "\n---\n" + body;
    var own := 4 + |fm|;
    assert s[..4] == "---\n" && s[own..][..5] == "\n---\n" && s[own + 5..] == body;
    StripAt(s, own);
    forall q | 0 <= q < |fm|
      ensures HasPrefix((fm + "\n---")[q..], "\n---") <==> HasPrefix(s[4 + q..], "\n---")
    {
      assert s[4 + q..][..4] == (fm + "\n---")[q..][..4];
    }
    if p :| 4 <= p < own && HasPrefix(s[p..], "\n---") {
      assert HasPrefix((fm + "\n---")[p - 4..], "\n---");
    }
  }
}
