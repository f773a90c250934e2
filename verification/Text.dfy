/** Go strings as sequences of bytes (one `char` per byte), and the parts of the `strings`
    and `strconv` packages that the server's text code is built from. */
module Text {

  datatype Option<+T> = None | Some(value: T)

  /** A Go `(value, error)` pair. The text of an error is not part of the model. */
  datatype Result<+T> = Ok(value: T) | Err

  const MIN_INT64: int := -0x8000_0000_0000_0000
  const MAX_INT64: int := 0x7fff_ffff_ffff_ffff

  type Int64 = x: int | MIN_INT64 <= x <= MAX_INT64

  /** Two's complement wrap-around of a 64-bit operation. */
  function Wrap64(x: int): Int64 {
    (x - MIN_INT64) % 0x1_0000_0000_0000_0000 + MIN_INT64
  }

  predicate HasPrefix(s: string, prefix: string) {
    prefix <= s
  }

  predicate HasSuffix(s: string, suffix: string) {
    |suffix| <= |s| && s[|s| - |suffix|..] == suffix
  }

  /** The least index at or after `i` holding `c`, or `|s|`. */
  function Find(s: string, c: char, i: nat): (j: nat)
    requires i <= |s|
    ensures i <= j <= |s|
    ensures j < |s| ==> s[j] == c
    ensures forall k :: i <= k < j ==> s[k] != c
    decreases |s| - i
  {
    if i == |s| || s[i] == c then i else Find(s, c, i + 1)
  }

  lemma FindUnique(s: string, c: char, i: nat, j: nat)
    requires i <= j <= |s|
    requires j < |s| ==> s[j] == c
    requires forall k :: i <= k < j ==> s[k] != c
    ensures Find(s, c, i) == j
  {
  }

  /** `strings.Split` on a one-byte separator. */
  function Split(s: string, sep: char): (parts: seq<string>)
    ensures |parts| >= 1
    ensures forall k :: 0 <= k < |parts| ==> sep !in parts[k]
    decreases |s|
  {
    var j := Find(s, sep, 0);
    if j == |s| then [s] else [s[..j]] + Split(s[j + 1..], sep)
  }

  /** `strings.Join` with a one-byte separator. */
  function Join(parts: seq<string>, sep: char): string {
    if |parts| == 0 then ""
    else if |parts| == 1 then parts[0]
    else parts[0] + [sep] + Join(parts[1..], sep)
  }

  lemma SplitCons(a: string, sep: char, b: string)
    requires sep !in a
    ensures Split(a + [sep] + b, sep) == [a] + Split(b, sep)
  {
    var s := a + [sep] + b;
    FindUnique(s, sep, 0, |a|);
    assert s[..|a|] == a && s[|a| + 1..] == b;
  }

  lemma SplitWhole(a: string, sep: char)
    requires sep !in a
    ensures Split(a, sep) == [a]
  {
    FindUnique(a, sep, 0, |a|);
  }

  // ----- Byte order

  /** Go's `<` on strings. */
  predicate Less(a: string, b: string) {
    b != "" && (a == "" || a[0] < b[0] || (a[0] == b[0] && Less(a[1..], b[1..])))
  }

  lemma {:induction false} LessTransitive(a: string, b: string, c: string)
    requires Less(a, b) && Less(b, c)
    ensures Less(a, c)
  {
    if a != "" && a[0] == b[0] == c[0] {
      LessTransitive(a[1..], b[1..], c[1..]);
    }
  }

  lemma {:induction false} LessTrichotomy(a: string, b: string)
    ensures a == b <==> !Less(a, b) && !Less(b, a)
    ensures !(Less(a, b) && Less(b, a))
  {
    if a != "" && b != "" && a[0] == b[0] {
      LessTrichotomy(a[1..], b[1..]);
      assert a == [a[0]] + a[1..] && b == [b[0]] + b[1..];
    }
  }

  /** `a` and `b` agree up to `k`, where `a` ends or has the smaller byte. */
  predicate FirstDifference(a: string, b: string, k: nat) {
    && k <= |a| && k < |b| && (forall i :: 0 <= i < k ==> a[i] == b[i])
    && (k == |a| || a[k] < b[k])
  }

  /** The order is that of the first differing byte; a proper prefix comes first. */
  lemma {:induction false} LessIsByteOrder(a: string, b: string)
    ensures Less(a, b) <==> exists k: nat :: FirstDifference(a, b, k)
  {
    if a != "" && b != "" && a[0] == b[0] {
      LessIsByteOrder(a[1..], b[1..]);
      if k: nat :| FirstDifference(a[1..], b[1..], k) {
        assert FirstDifference(a, b, k + 1);
      }
      if k: nat :| FirstDifference(a, b, k) {
        assert k > 0;
        assert FirstDifference(a[1..], b[1..], k - 1);
      }
    } else if b != "" && (a == "" || a[0] < b[0]) {
      assert FirstDifference(a, b, 0);
    }
  }

  // ----- strconv.Itoa and strconv.Atoi

  predicate IsDigit(c: char) {
    '0' <= c <= '9'
  }

  function Digit(d: nat): (c: char)
    requires d < 10
    ensures IsDigit(c)
  {
    '0' + d as char
  }

  function DigitValue(c: char): (d: nat)
    requires IsDigit(c)
    ensures d < 10
  {
    (c - '0') as nat
  }

  function Decimal(n: nat): (s: string)
    ensures s != ""
    ensures forall c :: c in s ==> IsDigit(c)
  {
    if n < 10 then [Digit(n)] else Decimal(n / 10) + [Digit(n % 10)]
  }

  function DecimalValue(s: string): nat
    requires forall c :: c in s ==> IsDigit(c)
  {
    if s == "" then 0
    else 10 * DecimalValue(s[..|s| - 1]) + DigitValue(s[|s| - 1])
  }

  function Itoa(n: int): string {
    if n < 0 then "-" + Decimal(-n) else Decimal(n)
  }

  predicate AllDigits(s: string) {
    s != "" && forall c :: c in s ==> IsDigit(c)
  }

  /** `strconv.Atoi`: an optional sign, at least one digit, and a 64-bit result. */
  function Atoi(s: string): Result<int> {
    var neg := s != "" && s[0] == '-';
    var digits := if s != "" && (s[0] == '-' || s[0] == '+') then s[1..] else s;
    if !AllDigits(digits) then Err
    else
      var n: int := DecimalValue(digits);
      var v := if neg then -n else n;
      if MIN_INT64 <= v <= MAX_INT64 then Ok(v) else Err
  }

  lemma {:induction false} DecimalRoundTrip(n: nat)
    ensures DecimalValue(Decimal(n)) == n
  {
    if n >= 10 {
      DecimalRoundTrip(n / 10);
      var s := Decimal(n);
      assert s[..|s| - 1] == Decimal(n / 10);
    }
  }

  /** Printing a 64-bit integer and reading it back is the identity. */
  lemma AtoiOfItoa(n: int)
    requires MIN_INT64 <= n <= MAX_INT64
    ensures Atoi(Itoa(n)) == Ok(n)
  {
    DecimalRoundTrip(if n < 0 then -n else n);
    if n < 0 {
      assert Itoa(n)[1..] == Decimal(-n);
    } else {
      assert IsDigit(Itoa(n)[0]);
    }
  }

  function Pow10(k: nat): nat {
    if k == 0 then 1 else 10 * Pow10(k - 1)
  }

  /** Positional notation: the value of digits put after digits. */
  lemma {:induction false} DecimalIsPositional(a: string, b: string)
    requires (forall c :: c in a ==> IsDigit(c)) && (forall c :: c in b ==> IsDigit(c))
    ensures forall c :: c in a + b ==> IsDigit(c)
    ensures DecimalValue(a + b) == DecimalValue(a) * Pow10(|b|) + DecimalValue(b)
    decreases |b|
  {
    if b == "" {
      assert a + b == a;
    } else {
      hide IsDigit, DigitValue;
      var init, last := b[..|b| - 1], b[|b| - 1];
      assert (a + b)[..|a + b| - 1] == a + init && (a + b)[|a + b| - 1] == last;
      DecimalIsPositional(a, init);
      TenTimes(DecimalValue(a), Pow10(|init|), DecimalValue(init));
    }
  }

  lemma TenTimes(a: nat, p: nat, v: nat)
    ensures 10 * (a * p + v) == a * (10 * p) + 10 * v
  {
  }

  lemma OneDigit(c: char)
    requires IsDigit(c)
    ensures DecimalValue([c]) == c as int - '0' as int
  {
    assert [c][..0] == [];
  }

  /** `s` writes the number `v` with these digits. */
  predicate Writes(s: string, digits: string, v: int) {
    && AllDigits(digits)
    && var n: int := DecimalValue(digits);
    (((s == digits || s == "+" + digits) && v == n) || (s == "-" + digits && v == -n))
  }

  /** Reading accepts exactly the non-empty digit strings, signed or not, whose value fits 64 bits. */
  lemma AtoiMeans(s: string, v: int)
    ensures Atoi(s) == Ok(v) <==>
      MIN_INT64 <= v <= MAX_INT64 && exists digits :: Writes(s, digits, v)
  {
    hide DecimalValue;
    if Atoi(s) == Ok(v) {
      assert s == [s[0]] + s[1..];
      assert Writes(s, if s[0] == '-' || s[0] == '+' then s[1..] else s, v);
    }
    if MIN_INT64 <= v <= MAX_INT64 {
      if digits :| Writes(s, digits, v) {
        assert digits[0] in digits && IsDigit(digits[0]);
        if s != digits {
          assert s[1..] == digits;
        }
      }
    }
  }

  // ----- strings.ToLower on ASCII letters, strings.TrimSpace

  function LowerByte(c: char): char {
    if 'A' <= c <= 'Z' then c - 'A' + 'a' else c
  }

  function Lower(s: string): (r: string)
    ensures |r| == |s|
    ensures forall i :: 0 <= i < |s| ==> r[i] == LowerByte(s[i])
  {
    seq(|s|, i requires 0 <= i < |s| => LowerByte(s[i]))
  }

  /** The last three bytes are ".md", in any case. */
  predicate EndsInMd(s: string) {
    var n := |s|;
    && n >= 3 && s[n - 3] == '.'
    && (s[n - 2] == 'm' || s[n - 2] == 'M') && (s[n - 1] == 'd' || s[n - 1] == 'D')
  }

  lemma MdSuffix(s: string)
    ensures HasSuffix(Lower(s), ".md") <==> EndsInMd(s)
  {
    var n := |s|;
    if n >= 3 {
      assert Lower(s)[n - 3..] == [LowerByte(s[n - 3]), LowerByte(s[n - 2]), LowerByte(s[n - 1])];
    }
  }

  /** The UTF-8 encodings of the code points for which `unicode.IsSpace` holds, by width. */
  predicate IsSpace1(a: char) {
    a == ' ' || '\t' <= a <= '\r'
  }

  predicate IsSpace2(a: char, b: char) {
    a == '\U{c2}' && (b == '\U{85}' || b == '\U{a0}')
  }

  predicate IsSpace3(a: char, b: char, c: char) {
    || (a == '\U{e1}' && b == '\U{9a}' && c == '\U{80}')
    || (a == '\U{e2}' && b == '\U{80}' && '\U{80}' <= c <= '\U{8a}')
    || (a == '\U{e2}' && b == '\U{80}' && (c == '\U{a8}' || c == '\U{a9}' || c == '\U{af}'))
    || (a == '\U{e2}' && b == '\U{81}' && c == '\U{9f}')
    || (a == '\U{e3}' && b == '\U{80}' && c == '\U{80}')
  }

  /** Width of the white space that starts `s`, or 0. */
  function LeadingSpace(s: string): (n: nat)
    ensures n <= |s|
  {
    if |s| >= 1 && IsSpace1(s[0]) then 1
    else if |s| >= 2 && IsSpace2(s[0], s[1]) then 2
    else if |s| >= 3 && IsSpace3(s[0], s[1], s[2]) then 3
    else 0
  }

  /** Width of the white space that ends `s`, or 0. */
  function TrailingSpace(s: string): (n: nat)
    ensures n <= |s|
  {
    var n := |s|;
    if n >= 1 && IsSpace1(s[n - 1]) then 1
    else if n >= 2 && IsSpace2(s[n - 2], s[n - 1]) then 2
    else if n >= 3 && IsSpace3(s[n - 3], s[n - 2], s[n - 1]) then 3
    else 0
  }

  function TrimLeftSpace(s: string): string
    decreases |s|
  {
    var n := LeadingSpace(s);
    if n == 0 then s else TrimLeftSpace(s[n..])
  }

  function TrimRightSpace(s: string): string
    decreases |s|
  {
    var n := TrailingSpace(s);
    if n == 0 then s else TrimRightSpace(s[..|s| - n])
  }

  function TrimSpace(s: string): string {
    TrimRightSpace(TrimLeftSpace(s))
  }

  // ----- What trimming does

  /** Nothing but white space. */
  predicate Blank(s: string)
    decreases |s|
  {
    s == "" || (LeadingSpace(s) != 0 && Blank(s[LeadingSpace(s)..]))
  }

  /** `r` is `s` without white space at its ends. */
  ghost predicate IsTrimmed(s: string, r: string) {
    && LeadingSpace(r) == 0 && TrailingSpace(r) == 0
    && exists a, b :: Blank(a) && Blank(b) && s == a + r + b
  }

  /** White space is recognised by its own bytes. */
  lemma SpaceThenMore(s: string, more: string)
    requires LeadingSpace(s) != 0
    ensures LeadingSpace(s + more) == LeadingSpace(s)
  {
    var t := s + more;
    assert forall i :: 0 <= i < |s| ==> t[i] == s[i];
  }

  lemma MoreThenSpace(more: string, s: string)
    requires TrailingSpace(s) != 0
    ensures TrailingSpace(more + s) == TrailingSpace(s)
  {
    var t := more + s;
    assert forall i :: 0 <= i < |s| ==> t[|more| + i] == s[i];
  }

  /** One white space, seen from either end. */
  lemma SpaceFromBothEnds(s: string)
    ensures s != "" && LeadingSpace(s) == |s| <==> s != "" && TrailingSpace(s) == |s|
  {
  }

  lemma {:induction false} BlankAppend(a: string, b: string)
    requires Blank(a) && Blank(b)
    ensures Blank(a + b)
    decreases |a|
  {
    if a == "" {
      assert a + b == b;
    } else {
      var n := LeadingSpace(a);
      SpaceThenMore(a, b);
      BlankAppend(a[n..], b);
      assert (a + b)[n..] == a[n..] + b;
    }
  }

  /** Blank text ends in white space, and without it is still blank. */
  lemma {:induction false} BlankFromTheEnd(b: string)
    requires Blank(b) && b != ""
    ensures TrailingSpace(b) != 0 && Blank(b[..|b| - TrailingSpace(b)])
    decreases |b|
  {
    var n := LeadingSpace(b);
    var first, rest := b[..n], b[n..];
    assert b == first + rest;
    assert LeadingSpace(first) == n;
    if rest == "" {
      SpaceFromBothEnds(b);
    } else {
      BlankFromTheEnd(rest);
      MoreThenSpace(first, rest);
      var m := TrailingSpace(b);
      assert b[..|b| - m] == first + rest[..|rest| - m];
      assert Blank(first) by { assert first[n..] == ""; }
      BlankAppend(first, rest[..|rest| - m]);
    }
  }

  lemma OneSpaceIsBlank(s: string)
    ensures LeadingSpace(s) != 0 ==> Blank(s[..LeadingSpace(s)])
    ensures TrailingSpace(s) != 0 ==> Blank(s[|s| - TrailingSpace(s)..])
  {
    if LeadingSpace(s) != 0 {
      var first := s[..LeadingSpace(s)];
      assert LeadingSpace(first) == |first| && first[|first|..] == "";
    }
    if TrailingSpace(s) != 0 {
      var last := s[|s| - TrailingSpace(s)..];
      assert TrailingSpace(last) == |last| && last[|last|..] == "";
      SpaceFromBothEnds(last);
    }
  }

  lemma ConcatAssociates(x: string, y: string, z: string)
    ensures x + (y + z) == x + y + z
  {
  }

  lemma CutInTwo(s: string, i: nat)
    requires i <= |s|
    ensures s[..i] + s[i..] == s
  {
  }

  lemma {:induction false} TrimLeftMeans(s: string) returns (a: string)
    ensures Blank(a) && s == a + TrimLeftSpace(s) && LeadingSpace(TrimLeftSpace(s)) == 0
    decreases |s|
  {
    OneSpaceIsBlank(s);
    var n := LeadingSpace(s);
    hide LeadingSpace;
    if n == 0 {
      a := "";
    } else {
      var rest := TrimLeftMeans(s[n..]);
      BlankAppend(s[..n], rest);
      assert TrimLeftSpace(s) == TrimLeftSpace(s[n..]);
      hide *;
      a := s[..n] + rest;
      ConcatAssociates(s[..n], rest, TrimLeftSpace(s[n..]));
      CutInTwo(s, n);
    }
  }

  lemma {:induction false} TrimRightMeans(s: string) returns (b: string)
    ensures Blank(b) && s == TrimRightSpace(s) + b
    decreases |s|
  {
    OneSpaceIsBlank(s);
    var n := TrailingSpace(s);
    hide TrailingSpace;
    if n == 0 {
      b := "";
    } else {
      var init, last := s[..|s| - n], s[|s| - n..];
      var rest := TrimRightMeans(init);
      BlankAppend(rest, last);
      assert TrimRightSpace(s) == TrimRightSpace(init);
      hide *;
      b := rest + last;
      ConcatAssociates(TrimRightSpace(init), rest, last);
      CutInTwo(s, |s| - n);
    }
  }

  lemma {:induction false} TrimLeftSkipsBlank(a: string, x: string)
    requires Blank(a)
    ensures TrimLeftSpace(a + x) == TrimLeftSpace(x)
    decreases |a|
  {
    if a == "" {
      assert a + x == x;
    } else {
      var n := LeadingSpace(a);
      SpaceThenMore(a, x);
      TrimLeftSkipsBlank(a[n..], x);
      assert (a + x)[n..] == a[n..] + x;
    }
  }

  lemma {:induction false} TrimRightSkipsBlank(x: string, b: string)
    requires Blank(b)
    ensures TrimRightSpace(x + b) == TrimRightSpace(x)
    decreases |b|
  {
    if b == "" {
      assert x + b == x;
    } else {
      var n := TrailingSpace(b);
      BlankFromTheEnd(b);
      MoreThenSpace(x, b);
      TrimRightSkipsBlank(x, b[..|b| - n]);
      assert (x + b)[..|x + b| - n] == x + b[..|b| - n];
    }
  }

  /** What white space begins with never continues another character. */
  lemma NoSpaceAcross(r: string, b: string)
    requires r != "" && LeadingSpace(r) == 0 && Blank(b)
    ensures LeadingSpace(r + b) == 0
  {
    var t := r + b;
    assert forall i :: 0 <= i < |r| ==> t[i] == r[i];
    if b != "" {
      assert t[|r|] == b[0];
      assert IsSpace1(b[0]) || b[0] == '\U{c2}' || b[0] == '\U{e1}' || b[0] == '\U{e2}' || b[0] == '\U{e3}';
    } else {
      assert t == r;
    }
  }

  lemma TrimSpaceTrims(s: string)
    ensures IsTrimmed(s, TrimSpace(s))
  {
    var t, r := TrimLeftSpace(s), TrimSpace(s);
    var a := TrimLeftMeans(s);
    var b := TrimRightMeans(t);
    TrimRightEndsClean(t);
    if LeadingSpace(r) != 0 {
      SpaceThenMore(r, b);
    }
    hide LeadingSpace, TrailingSpace, TrimLeftSpace, TrimRightSpace, Blank;
    ConcatAssociates(a, r, b);
  }

  /** Trimming takes away white space at both ends, all of it, and nothing else. */
  lemma TrimSpaceMeans(s: string, r: string)
    ensures TrimSpace(s) == r <==> IsTrimmed(s, r)
  {
    TrimSpaceTrims(s);
    if IsTrimmed(s, r) {
      var a, b :| Blank(a) && Blank(b) && s == a + r + b;
      TrimmedIs(a, r, b);
    }
    hide *;
  }

  lemma TrimmedIs(a: string, r: string, b: string)
    requires Blank(a) && Blank(b) && LeadingSpace(r) == 0 && TrailingSpace(r) == 0
    ensures TrimSpace(a + r + b) == r
  {
    ConcatAssociates(a, r, b);
    TrimLeftSkipsBlank(a, r + b);
    NothingToTrim(r);
    if r == "" {
      assert r + b == b && b + "" == b;
      TrimLeftSkipsBlank(b, "");
    } else {
      NoSpaceAcross(r, b);
      NothingToTrim(r + b);
      TrimRightSkipsBlank(r, b);
    }
    hide LeadingSpace, TrailingSpace, Blank;
  }

  lemma NothingToTrim(r: string)
    ensures LeadingSpace(r) == 0 ==> TrimLeftSpace(r) == r
    ensures TrailingSpace(r) == 0 ==> TrimRightSpace(r) == r
  {
  }

  lemma {:induction false} TrimRightEndsClean(s: string)
    ensures TrailingSpace(TrimRightSpace(s)) == 0
    ensures TrimRightSpace(s) <= s
    decreases |s|
  {
    var n := TrailingSpace(s);
    if n != 0 {
      TrimRightEndsClean(s[..|s| - n]);
    }
  }

  /** White space at the end of a suffix is white space at the end of the whole string. */
  lemma TrailingSpaceOfSuffix(s: string, i: nat)
    requires i <= |s| && TrailingSpace(s[i..]) != 0
    ensures TrailingSpace(s) != 0
  {
  }

  /** A non-empty string that left-trims to nothing ends in white space. */
  lemma {:induction false} AllSpaceEndsInSpace(s: string)
    requires s != "" && TrimLeftSpace(s) == ""
    ensures TrailingSpace(s) != 0
    decreases |s|
  {
    var n := LeadingSpace(s);
    if s[n..] != "" {
      AllSpaceEndsInSpace(s[n..]);
      TrailingSpaceOfSuffix(s, n);
    }
  }

  lemma {:induction false} TrimLeftKeepsEnd(s: string)
    requires TrailingSpace(s) == 0
    ensures TrailingSpace(TrimLeftSpace(s)) == 0
    decreases |s|
  {
    var n := LeadingSpace(s);
    if n != 0 {
      if TrailingSpace(s[n..]) != 0 {
        TrailingSpaceOfSuffix(s, n);
      }
      TrimLeftKeepsEnd(s[n..]);
    }
  }

  /** No non-empty tail of a right-trimmed string is blank. */
  lemma TrimmedTailNotBlank(s: string, i: nat)
    requires TrailingSpace(s) == 0 && i < |s|
    ensures TrimSpace(s[i..]) != ""
  {
    var u := s[i..];
    if TrailingSpace(u) != 0 {
      TrailingSpaceOfSuffix(s, i);
    }
    TrimLeftKeepsEnd(u);
    if TrimLeftSpace(u) == "" {
      AllSpaceEndsInSpace(u);
    }
  }
}
