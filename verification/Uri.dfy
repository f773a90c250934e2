/** `net/url` as the resource handlers use it: path-segment escaping (sections 2.1 and 3.3 of
    RFC 3986) and the parsing of `scheme://host/path` references. */
module Uri {
  import opened Text

  /** A Go string: every `char` is one byte. */
  predicate IsBytes(s: string) {
    forall i :: 0 <= i < |s| ==> s[i] < '\U{100}'
  }

  predicate IsLower(c: char) {
    'a' <= c <= 'z'
  }

  predicate IsAlnum(c: char) {
    IsLower(c) || 'A' <= c <= 'Z' || IsDigit(c)
  }

  predicate IsUnreserved(c: char) {
    IsAlnum(c) || c in "-_.~"
  }

  // ----- Percent-encoding

  /** The bytes `url.PathEscape` leaves alone. */
  predicate StaysInSegment(c: char) {
    IsUnreserved(c) || c in "$&+:=@"
  }

  function HexDigit(d: nat): (c: char)
    requires d < 16
    ensures IsAlnum(c)
  {
    "0123456789ABCDEF"[d]
  }

  function HexValue(c: char): Option<nat> {
    if IsDigit(c) then Some((c - '0') as nat)
    else if 'a' <= c <= 'f' then Some((c - 'a') as nat + 10)
    else if 'A' <= c <= 'F' then Some((c - 'A') as nat + 10)
    else None
  }

  function EscapeByte(c: char): string {
    if StaysInSegment(c) || c >= '\U{100}' then [c]
    else ['%', HexDigit(c as nat / 16), HexDigit(c as nat % 16)]
  }

  /** `url.PathEscape`. */
  function PathEscape(s: string): string {
    if s == "" then "" else EscapeByte(s[0]) + PathEscape(s[1..])
  }

  /** The decoding of a path: `%XX` becomes one byte, a malformed escape is an error. */
  function PathUnescape(s: string): Option<string> {
    if s == "" then Some("")
    else if s[0] != '%' then
      match PathUnescape(s[1..])
      case Some(rest) => Some([s[0]] + rest)
      case None => None
    else if |s| < 3 || HexValue(s[1]).None? || HexValue(s[2]).None? then None
    else
      match PathUnescape(s[3..])
      case Some(rest) => Some([(16 * HexValue(s[1]).value + HexValue(s[2]).value) as char] + rest)
      case None => None
  }

  lemma HexRoundTrip(c: char)
    requires c < '\U{100}'
    ensures HexValue(HexDigit(c as nat / 16)) == Some(c as nat / 16)
    ensures HexValue(HexDigit(c as nat % 16)) == Some(c as nat % 16)
  {
  }

  lemma UnescapeByte(c: char, rest: string)
    requires c < '\U{100}' && PathUnescape(rest).Some?
    ensures PathUnescape(EscapeByte(c) + rest) == Some([c] + PathUnescape(rest).value)
  {
    HexRoundTrip(c);
    var s := EscapeByte(c) + rest;
    if StaysInSegment(c) {
      assert s[1..] == rest;
    } else {
      assert s[3..] == rest;
      var n := c as nat;
      assert 16 * (n / 16) + n % 16 == n;
    }
  }

  /** Escaping is undone by decoding, for every byte string. */
  lemma {:induction false} EscapeRoundTrip(s: string)
    requires IsBytes(s)
    ensures PathUnescape(PathEscape(s)) == Some(s)
  {
    if s != "" {
      EscapeRoundTrip(s[1..]);
      UnescapeByte(s[0], PathEscape(s[1..]));
      assert s == [s[0]] + s[1..];
    }
  }

  /** The bytes that need no escaping in a path segment: section 3.3 of RFC 3986, without the
      sub-delimiters that `url.PathEscape` escapes all the same. */
  predicate SegmentByte(c: char) {
    'a' <= c <= 'z' || 'A' <= c <= 'Z' || '0' <= c <= '9' || c in "-._~$&+:=@"
  }

  /** Escaping leaves exactly the texts of such bytes alone, and makes every other byte three. */
  lemma {:induction false} EscapeLeavesAloneIff(s: string)
    requires IsBytes(s)
    ensures PathEscape(s) == s <==> forall i :: 0 <= i < |s| ==> SegmentByte(s[i])
    ensures |PathEscape(s)| >= |s|
    ensures |PathEscape(s)| == |s| ==> PathEscape(s) == s
  {
    if s != "" {
      var rest := s[1..];
      EscapeLeavesAloneIff(rest);
      assert s == [s[0]] + rest;
      assert (forall i :: 0 <= i < |s| ==> SegmentByte(s[i])) <==>
        SegmentByte(s[0]) && forall i :: 0 <= i < |rest| ==> SegmentByte(rest[i]);
      var first := EscapeByte(s[0]);
      assert |first| == if SegmentByte(s[0]) then 1 else 3;
      if PathEscape(s) == s {
        assert |first| == 1;
        assert PathEscape(s)[1..] == PathEscape(rest);
      }
    }
  }

  predicate Inert(c: char) {
    StaysInSegment(c) || c == '%'
  }

  lemma UnreservedInert(c: char)
    requires IsUnreserved(c)
    ensures Inert(c)
  {
  }

  /** Escaped text consists of bytes that mean nothing to a URI parser. */
  lemma {:induction false} EscapedIsInert(s: string)
    requires IsBytes(s)
    ensures forall c :: c in PathEscape(s) ==> Inert(c)
  {
    if s != "" {
      EscapedIsInert(s[1..]);
      var first, rest := EscapeByte(s[0]), PathEscape(s[1..]);
      assert forall c :: c in first ==> Inert(c) by {
        if !StaysInSegment(s[0]) {
          assert IsAlnum(first[1]) && IsAlnum(first[2]);
        }
      }
      assert forall c :: c in first + rest ==> c in first || c in rest;
    }
  }

  // ----- Parsing

  datatype Url = Url(scheme: string, host: string, path: string)

  predicate IsControl(c: char) {
    c < ' ' || c == '\U{7f}'
  }

  /** `strings.Cut` on one byte: what precedes the first `c`, and what follows it. */
  function Before(s: string, c: char): string {
    s[..Find(s, c, 0)]
  }

  function After(s: string, c: char): string {
    var j := Find(s, c, 0);
    if j == |s| then "" else s[j + 1..]
  }

  /** Length of the scheme at the start of `s`: a letter, then letters, digits, "+", "-", ".";
      up to a ":". An error if `s` starts with ":"; `Ok(|s|)` if there is no scheme. */
  function SchemeEnd(s: string, i: nat): (r: Result<nat>)
    requires i <= |s|
    ensures r.Ok? ==> r.value <= |s|
    decreases |s| - i
  {
    if i == |s| then Ok(|s|)
    else if IsLower(LowerByte(s[i])) then SchemeEnd(s, i + 1)
    else if IsDigit(s[i]) || s[i] in "+-." then if i == 0 then Ok(|s|) else SchemeEnd(s, i + 1)
    else if s[i] == ':' then if i == 0 then Err else Ok(i)
    else Ok(|s|)
  }

  /** Bytes accepted in a host without brackets or escapes; ASCII only, as other bytes are not
      looked at. */
  predicate HostByte(c: char) {
    IsUnreserved(c) || c in "!$&'()*+,;=:<>\"" || c >= '\U{80}'
  }

  predicate ValidPort(s: string) {
    forall c :: c in s ==> IsDigit(c)
  }

  /** The part of a host after its last ":", if it has one. */
  function Port(host: string): string {
    if ':' !in host then ""
    else if host[|host| - 1] == ':' then ""
    else Port(host[..|host| - 1]) + [host[|host| - 1]]
  }

  /** `parseAuthority` for hosts without user information, brackets or percent-escapes. */
  function ParseHost(authority: string): Result<string> {
    if '@' in authority || '[' in authority || '%' in authority then Err
    else if !ValidPort(Port(authority)) then Err
    else if forall c :: c in authority ==> HostByte(c) then Ok(authority)
    else Err
  }

  /** `url.Parse`: the fragment is cut first, then control bytes refused, then the scheme, the
      query and the authority split off, and the path decoded. */
  function Parse(raw: string): Result<Url> {
    var u := Before(raw, '#');
    if exists c :: c in u && IsControl(c) then Err
    else if PathUnescape(After(raw, '#')).None? then Err
    else if u == "*" then Ok(Url("", "", "*"))
    else
      var end := SchemeEnd(u, 0);
      if end.Err? then Err
      else
        var scheme := if end.value == |u| then "" else Lower(u[..end.value]);
        var rest := Before(if end.value == |u| then u else u[end.value + 1..], '?');
        ParseRest(scheme, rest)
  }

  /** What follows the scheme, without query and fragment. */
  function ParseRest(scheme: string, rest: string): Result<Url> {
    if !HasPrefix(rest, "/") && scheme != "" then Ok(Url(scheme, "", ""))
    else if !HasPrefix(rest, "/") && ':' in Before(rest, '/') then Err
    else if HasPrefix(rest, "//") && (scheme != "" || !HasPrefix(rest, "///")) then
      var slash := Find(rest, '/', 2);
      var host := ParseHost(rest[2..slash]);
      var path := PathUnescape(rest[slash..]);
      if host.Err? || path.None? then Err else Ok(Url(scheme, host.value, path.value))
    else
      var path := PathUnescape(rest);
      if path.None? then Err else Ok(Url(scheme, "", path.value))
  }

  /** Lower-case scheme names: one letter, then letters. */
  predicate PlainScheme(s: string) {
    s != "" && forall i :: 0 <= i < |s| ==> IsLower(s[i])
  }

  predicate PlainHost(s: string) {
    forall i :: 0 <= i < |s| ==> IsLower(s[i]) || IsDigit(s[i]) || s[i] == '-'
  }

  /** Path text that no delimiter, control byte or non-ASCII byte occurs in. */
  predicate InertPath(s: string) {
    && s != "" && s[0] == '/'
    && forall i :: 0 <= i < |s| ==> Inert(s[i]) || s[i] == '/'
  }

  lemma {:induction false} SchemeScan(scheme: string, rest: string, i: nat)
    requires PlainScheme(scheme) && i <= |scheme|
    ensures SchemeEnd(scheme + ":" + rest, i) == Ok(|scheme|)
    decreases |scheme| - i
  {
    var s := scheme + ":" + rest;
    if i < |scheme| {
      assert s[i] == scheme[i];
      SchemeScan(scheme, rest, i + 1);
    } else {
      assert s[i] == ':';
    }
  }

  lemma LowerPlain(s: string)
    requires forall i :: 0 <= i < |s| ==> IsLower(s[i])
    ensures Lower(s) == s
  {
  }

  lemma NoDelimiter(s: string, c: char)
    requires c !in s
    ensures Before(s, c) == s && After(s, c) == ""
  {
    FindUnique(s, c, 0, |s|);
  }

  lemma NoEscapesInNothing()
    ensures PathUnescape("") == Some("")
  {
  }

  lemma PlainHostParses(host: string)
    requires PlainHost(host)
    ensures ParseHost(host) == Ok(host)
  {
    assert Port(host) == "" by {
      assert ':' !in host;
    }
  }

  lemma RestAssembled(scheme: string, host: string, path: string)
    requires scheme != "" && PlainHost(host) && InertPath(path) && PathUnescape(path).Some?
    ensures ParseRest(scheme, "//" + host + path) == Ok(Url(scheme, host, PathUnescape(path).value))
  {
    hide PathUnescape, ParseHost;
    var rest := "//" + host + path;
    assert rest[..2] == "//" && rest[..1] == "/";
    assert forall k :: 2 <= k < 2 + |host| ==> rest[k] == host[k - 2];
    assert rest[2 + |host|] == path[0];
    FindUnique(rest, '/', 2, 2 + |host|);
    assert rest[2..2 + |host|] == host && rest[2 + |host|..] == path;
    PlainHostParses(host);
  }

  /** A reference assembled from a plain scheme, a plain host and inert path text is parsed
      into exactly those parts, with the path decoded. */
  lemma ParseAssembled(scheme: string, host: string, path: string)
    requires PlainScheme(scheme) && PlainHost(host) && InertPath(path)
    requires PathUnescape(path).Some?
    ensures Parse(scheme + "://" + host + path) == Ok(Url(scheme, host, PathUnescape(path).value))
  {
    hide Parse, ParseRest, PathUnescape;
    var rest := "//" + host + path;
    assert scheme + "://" + host + path == scheme + ":" + rest;
    forall i | 0 <= i < |rest|
      ensures Harmless(rest[i])
    {
      assert rest[i] == if i < 2 then '/' else if i < 2 + |host| then host[i - 2] else path[i - 2 - |host|];
    }
    ParseHarmless(scheme, rest);
    RestAssembled(scheme, host, path);
  }

  /** Bytes that delimit neither fragment nor query, and are no control bytes. */
  predicate Harmless(c: char) {
    c != '#' && c != '?' && !IsControl(c)
  }

  /** Without such bytes, parsing is splitting the scheme off. */
  lemma ParseHarmless(scheme: string, rest: string)
    requires PlainScheme(scheme)
    requires forall i :: 0 <= i < |rest| ==> Harmless(rest[i])
    ensures Parse(scheme + ":" + rest) == ParseRest(scheme, rest)
  {
    hide ParseRest, PathUnescape, SchemeEnd, Lower;
    var raw := scheme + ":" + rest;
    NoEscapesInNothing();
    forall i | 0 <= i < |raw|
      ensures Harmless(raw[i])
    {
      assert i < |scheme| ==> IsLower(scheme[i]);
    }
    NoDelimiter(raw, '#');
    SchemeScan(scheme, rest, 0);
    assert raw[..|scheme|] == scheme && raw[|scheme| + 1..] == rest;
    LowerPlain(scheme);
    NoDelimiter(rest, '?');
  }

  lemma CutAtFirst(a: string, c: char, b: string)
    requires c !in a
    ensures Before(a + [c] + b, c) == a && After(a + [c] + b, c) == b
  {
    FindUnique(a + [c] + b, c, 0, |a|);
  }

  /** Query and fragment of a reference play no part in scheme, host and path; but a control byte
      before the fragment and a malformed escape in the fragment are errors. */
  lemma QueryAndFragmentCut(scheme: string, rest: string, query: string, fragment: string)
    requires PlainScheme(scheme)
    requires forall i :: 0 <= i < |rest| ==> Harmless(rest[i])
    requires '#' !in query
    ensures Parse(scheme + ":" + rest + "?" + query + "#" + fragment) ==
      if (exists c :: c in query && IsControl(c)) || PathUnescape(fragment).None? then Err
      else ParseRest(scheme, rest)
  {
    hide ParseRest, PathUnescape, SchemeEnd, Lower;
    var tail := rest + "?" + query;
    var u := scheme + ":" + tail;
    assert scheme + ":" + rest + "?" + query + "#" + fragment == u + "#" + fragment;
    forall i | 0 <= i < |u|
      ensures u[i] != '#'
      ensures IsControl(u[i]) ==> u[i] in query
    {
      assert i < |scheme| ==> IsLower(scheme[i]);
      if i > |scheme| {
        assert u[i] == tail[i - |scheme| - 1];
      }
    }
    forall c | c in query
      ensures c in u
    {
      assert c in tail;
    }
    CutAtFirst(u, '#', fragment);
    SchemeScan(scheme, tail, 0);
    assert u[..|scheme|] == scheme && u[|scheme| + 1..] == tail;
    LowerPlain(scheme);
    assert '?' !in rest;
    CutAtFirst(rest, '?', query);
  }
}
