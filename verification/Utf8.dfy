/** UTF-8 (section 3 of RFC 3629): which byte strings are well-formed, and which of them encode
    white space. */
module Utf8 {
  import opened Text

  predicate InRange(s: string, i: nat, low: char, high: char) {
    i < |s| && low <= s[i] <= high
  }

  /** The first two bytes of a sequence of two, three or four: the second byte's range shuts out
      overlong forms, surrogates and what lies beyond U+10FFFF. */
  predicate Opens2(s: string) {
    InRange(s, 0, '\U{c2}', '\U{df}') && InRange(s, 1, '\U{80}', '\U{bf}')
  }

  predicate Opens3(s: string) {
    && InRange(s, 0, '\U{e0}', '\U{ef}')
    && InRange(s, 1, if s[0] == '\U{e0}' then '\U{a0}' else '\U{80}', if s[0] == '\U{ed}' then '\U{9f}' else '\U{bf}')
  }

  predicate Opens4(s: string) {
    && InRange(s, 0, '\U{f0}', '\U{f4}')
    && InRange(s, 1, if s[0] == '\U{f0}' then '\U{90}' else '\U{80}', if s[0] == '\U{f4}' then '\U{8f}' else '\U{bf}')
  }

  /** Width of the well-formed UTF-8 sequence that starts `s`, or 0. */
  function RuneWidth(s: string): (n: nat)
    ensures n <= |s|
  {
    if InRange(s, 0, '\0', '\U{7f}') then 1
    else if Opens2(s) then 2
    else if Opens3(s) && InRange(s, 2, '\U{80}', '\U{bf}') then 3
    else if Opens4(s) && InRange(s, 2, '\U{80}', '\U{bf}') && InRange(s, 3, '\U{80}', '\U{bf}') then 4
    else 0
  }

  /** `utf8.ValidString`. */
  predicate ValidUtf8(s: string)
    decreases |s|
  {
    s == "" || (RuneWidth(s) != 0 && ValidUtf8(s[RuneWidth(s)..]))
  }

  lemma {:induction false} AsciiIsUtf8(s: string)
    requires forall i :: 0 <= i < |s| ==> s[i] < '\U{80}'
    ensures ValidUtf8(s)
    decreases |s|
  {
    if s != "" {
      AsciiIsUtf8(s[1..]);
    }
  }

  // ----- What that is

  /** A Unicode scalar value: a code point that is no surrogate. */
  predicate Scalar(cp: nat) {
    cp < 0xd800 || 0xe000 <= cp <= 0x10_ffff
  }

  function Byte(n: nat): char
    requires n < 0x100
  {
    n as char
  }

  /** Six bits of `cp`, in a continuation byte. */
  function Tail(n: nat): char {
    Byte(0x80 + n % 64)
  }

  function Encode(cp: nat): (s: string)
    requires Scalar(cp)
    ensures s != ""
  {
    if cp < 0x80 then [Byte(cp)]
    else if cp < 0x800 then [Byte(0xc0 + cp / 64), Tail(cp)]
    else if cp < 0x1_0000 then [Byte(0xe0 + cp / 4096), Tail(cp / 64), Tail(cp)]
    else [Byte(0xf0 + cp / 262_144), Tail(cp / 4096), Tail(cp / 64), Tail(cp)]
  }

  function EncodeAll(cps: seq<nat>): string
    requires forall cp :: cp in cps ==> Scalar(cp)
  {
    if cps == [] then "" else Encode(cps[0]) + EncodeAll(cps[1..])
  }

  lemma SixBits(hi: nat, lo: nat)
    requires lo < 64
    ensures (hi * 64 + lo) / 64 == hi && (hi * 64 + lo) % 64 == lo
  {
  }

  lemma TwelveBits(n: nat)
    ensures n / 4096 == n / 64 / 64 && n / 262_144 == n / 4096 / 64
    ensures n == n / 64 * 64 + n % 64
  {
  }

  /** The width read off an encoded scalar value is that of its encoding, whatever follows. */
  lemma EncodedWidth(cp: nat, rest: string)
    requires Scalar(cp)
    ensures RuneWidth(Encode(cp) + rest) == |Encode(cp)|
  {
    var s := Encode(cp) + rest;
    TwelveBits(cp);
    TwelveBits(cp / 64);
    assert forall i :: 0 <= i < |Encode(cp)| ==> s[i] == Encode(cp)[i];
  }

  /** Where a width can be read off, a scalar value is encoded. */
  lemma WidthDecodes(s: string) returns (cp: nat)
    requires RuneWidth(s) != 0
    ensures Scalar(cp) && Encode(cp) == s[..RuneWidth(s)]
  {
    if RuneWidth(s) == 1 {
      cp := s[0] as nat;
    } else if RuneWidth(s) == 2 {
      cp := Decoded2(s);
    } else if RuneWidth(s) == 3 {
      cp := Decoded3(s);
    } else {
      cp := Decoded4(s);
    }
  }

  lemma Decoded2(s: string) returns (cp: nat)
    requires RuneWidth(s) == 2
    ensures Scalar(cp) && Encode(cp) == s[..2]
  {
    var a, b := s[0] as nat - 0xc0, s[1] as nat - 0x80;
    cp := a * 64 + b;
    SixBits(a, b);
    assert s[..2] == [s[0], s[1]];
  }

  lemma Decoded3(s: string) returns (cp: nat)
    requires RuneWidth(s) == 3
    ensures Scalar(cp) && Encode(cp) == s[..3]
  {
    var a, b, c := s[0] as nat - 0xe0, s[1] as nat - 0x80, s[2] as nat - 0x80;
    cp := (a * 64 + b) * 64 + c;
    SixBits(a, b);
    SixBits(a * 64 + b, c);
    TwelveBits(cp);
    assert s[..3] == [s[0], s[1], s[2]];
    assert 0x800 <= cp < 0x1_0000 && Scalar(cp);
    hide RuneWidth;
  }

  lemma Decoded4(s: string) returns (cp: nat)
    requires RuneWidth(s) == 4
    ensures Scalar(cp) && Encode(cp) == s[..4]
  {
    var a, b, c, d := s[0] as nat - 0xf0, s[1] as nat - 0x80, s[2] as nat - 0x80, s[3] as nat - 0x80;
    cp := ((a * 64 + b) * 64 + c) * 64 + d;
    SixBits(a, b);
    SixBits(a * 64 + b, c);
    SixBits((a * 64 + b) * 64 + c, d);
    TwelveBits(cp);
    assert s[..4] == [s[0], s[1], s[2], s[3]];
    assert 0x1_0000 <= cp <= 0x10_ffff;
    hide RuneWidth;
  }

  /** The well-formed strings are the encodings of sequences of scalar values. */
  lemma {:induction false} ValidUtf8Means(s: string)
    ensures ValidUtf8(s) <==> exists cps: seq<nat> :: (forall cp :: cp in cps ==> Scalar(cp)) && s == EncodeAll(cps)
  {
    if ValidUtf8(s) {
      var cps := Decoded(s);
    }
    if cps: seq<nat> :| (forall cp :: cp in cps ==> Scalar(cp)) && s == EncodeAll(cps) {
      EncodedIsValid(cps);
    }
  }

  lemma {:induction false} Decoded(s: string) returns (cps: seq<nat>)
    requires ValidUtf8(s)
    ensures (forall cp :: cp in cps ==> Scalar(cp)) && s == EncodeAll(cps)
    decreases |s|
  {
    if s == "" {
      cps := [];
    } else {
      hide RuneWidth, Encode;
      var cp := WidthDecodes(s);
      var rest := Decoded(s[RuneWidth(s)..]);
      cps := [cp] + rest;
      assert cps[1..] == rest;
    }
  }

  lemma {:induction false} EncodedIsValid(cps: seq<nat>)
    requires forall cp :: cp in cps ==> Scalar(cp)
    ensures ValidUtf8(EncodeAll(cps))
  {
    if cps != [] {
      hide RuneWidth, Encode;
      EncodedIsValid(cps[1..]);
      EncodedWidth(cps[0], EncodeAll(cps[1..]));
      var s := EncodeAll(cps);
      assert s[|Encode(cps[0])|..] == EncodeAll(cps[1..]);
    }
  }

  /** `unicode.IsSpace`. */
  predicate SpacePoint(cp: nat) {
    || 0x09 <= cp <= 0x0d || cp == 0x20 || cp == 0x85 || cp == 0xa0 || cp == 0x1680
    || 0x2000 <= cp <= 0x200a || cp == 0x2028 || cp == 0x2029 || cp == 0x202f || cp == 0x205f || cp == 0x3000
  }

  /** A scalar value is white space if and only if trimming takes its encoding for one. */
  lemma SpacesAreEncoded(cp: nat)
    requires Scalar(cp)
    ensures SpacePoint(cp) <==> LeadingSpace(Encode(cp)) == |Encode(cp)|
    ensures SpacePoint(cp) <==> TrailingSpace(Encode(cp)) == |Encode(cp)|
  {
    SpacesAreLeading(cp);
    hide SpacePoint;
    LeadingIsTrailing(cp);
  }

  lemma SpacesAreLeading(cp: nat)
    requires Scalar(cp)
    ensures SpacePoint(cp) <==> LeadingSpace(Encode(cp)) == |Encode(cp)|
  {
    TwelveBits(cp);
    TwelveBits(cp / 64);
  }

  lemma LeadingIsTrailing(cp: nat)
    requires Scalar(cp)
    ensures LeadingSpace(Encode(cp)) == |Encode(cp)| <==> TrailingSpace(Encode(cp)) == |Encode(cp)|
  {
  }

  /** Conversely, what trimming takes for one white space is the encoding of one. */
  lemma SpaceDecodes(s: string) returns (cp: nat)
    requires LeadingSpace(s) != 0
    ensures Scalar(cp) && SpacePoint(cp) && Encode(cp) == s[..LeadingSpace(s)]
  {
    var n := LeadingSpace(s);
    assert RuneWidth(s) == n;
    assert LeadingSpace(s[..n]) == n;
    cp := WidthDecodes(s);
    hide LeadingSpace, RuneWidth, SpacePoint, Encode;
    SpacesAreLeading(cp);
  }
}
