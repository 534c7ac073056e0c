/** UTF-8: what `String::from_utf8` accepts, and which lines `str::trim` leaves empty, against the encoding itself. */
module Utf8 {
  import opened Bytes

  predicate Continuation(b: byte) {
    0x80 <= b < 0xC0
  }

  /** Length of the well-formed UTF-8 sequence `s` starts with (Unicode standard, table 3-7); 0 if there is none. */
  function CharLen(s: seq<byte>): (n: nat)
    ensures n <= 4 && n <= |s|
  {
    if |s| == 0 then 0
    else if s[0] < 0x80 then 1
    else if |s| < 2 || !Continuation(s[1]) then 0
    else if 0xC2 <= s[0] < 0xE0 then 2
    else if |s| < 3 || !Continuation(s[2]) then 0
    else if s[0] == 0xE0 then (if 0xA0 <= s[1] then 3 else 0)
    else if s[0] == 0xED then (if s[1] < 0xA0 then 3 else 0)
    else if 0xE0 < s[0] < 0xF0 then 3
    else if |s| < 4 || !Continuation(s[3]) then 0
    else if s[0] == 0xF0 then (if 0x90 <= s[1] then 4 else 0)
    else if 0xF0 < s[0] < 0xF4 then 4
    else if s[0] == 0xF4 && s[1] < 0x90 then 4
    else 0
  }

  /** `String::from_utf8` succeeds. */
  predicate ValidUtf8(s: seq<byte>) {
    s == [] || (CharLen(s) > 0 && ValidUtf8(s[CharLen(s)..]))
  }

  lemma {:induction false} AsciiIsValid(s: seq<byte>)
    requires forall i :: 0 <= i < |s| ==> s[i] < 0x80
    ensures ValidUtf8(s)
  {
    if s != [] {
      AsciiIsValid(s[1..]);
    }
  }

  /** Length of the UTF-8 encoded `White_Space` character `s` starts with; 0 if there is none. */
  function SpaceLen(s: seq<byte>): (n: nat)
    ensures n <= 3 && n <= |s|
  {
    if |s| >= 1 && (9 <= s[0] <= 13 || s[0] == 32) then 1
    else if |s| >= 2 && s[0] == 0xC2 && (s[1] == 0x85 || s[1] == 0xA0) then 2
    else if |s| < 3 then 0
    else if s[..3] == [0xE1, 0x9A, 0x80] || s[..3] == [0xE2, 0x81, 0x9F] || s[..3] == [0xE3, 0x80, 0x80] then 3
    else if s[0] == 0xE2 && s[1] == 0x80 && (0x80 <= s[2] <= 0x8A || 0xA8 <= s[2] <= 0xA9 || s[2] == 0xAF) then 3
    else 0
  }

  /** `line.trim().is_empty()` */
  predicate Blank(s: seq<byte>) {
    s == [] || (SpaceLen(s) > 0 && Blank(s[SpaceLen(s)..]))
  }

  // ---------------------------------------------------------------- the encoding

  /** A code point other than a surrogate. */
  predicate IsScalar(c: nat) {
    c < 0xD800 || 0xE000 <= c < 0x11_0000
  }

  /** The encoding of one scalar value (section 3 of RFC 3629). */
  function EncodeChar(c: nat): (r: seq<byte>)
    requires IsScalar(c)
    ensures 1 <= |r| <= 4
  {
    if c < 0x80 then [c]
    else if c < 0x800 then [0xC0 + c / 0x40, 0x80 + c % 0x40]
    else if c < 0x1_0000 then [0xE0 + c / 0x1000, 0x80 + c / 0x40 % 0x40, 0x80 + c % 0x40]
    else [0xF0 + c / 0x4_0000, 0x80 + c / 0x1000 % 0x40, 0x80 + c / 0x40 % 0x40, 0x80 + c % 0x40]
  }

  predicate AllScalar(cs: seq<nat>) {
    forall i :: 0 <= i < |cs| ==> IsScalar(cs[i])
  }

  function EncodeText(cs: seq<nat>): seq<byte>
    requires AllScalar(cs)
  {
    if cs == [] then [] else EncodeChar(cs[0]) + EncodeText(cs[1..])
  }

  /** The encoding of a scalar value is recognised as one character, whatever follows it. */
  lemma CharRecognised(c: nat, rest: seq<byte>)
    requires IsScalar(c)
    ensures CharLen(EncodeChar(c) + rest) == |EncodeChar(c)|
  {
  }

  lemma Digits(h: nat, m: nat, l: nat)
    requires m < 0x40 && l < 0x40
    ensures var c := h * 0x1000 + m * 0x40 + l;
            c / 0x1000 == h && c / 0x40 == h * 0x40 + m && c / 0x40 % 0x40 == m && c % 0x40 == l
  {
  }

  lemma TopDigits(t: nat, h: nat, rest: nat)
    requires h < 0x40 && rest < 0x1000
    ensures var c := t * 0x4_0000 + h * 0x1000 + rest; c / 0x4_0000 == t && c / 0x1000 % 0x40 == h
  {
    assert (t * 0x4_0000 + h * 0x1000 + rest) / 0x1000 == t * 0x40 + h;
  }

  /** What is recognised as one character is the encoding of a scalar value. */
  lemma RecognisedIsChar(s: seq<byte>) returns (c: nat)
    requires CharLen(s) > 0
    ensures IsScalar(c) && EncodeChar(c) == s[..CharLen(s)]
  {
    var b0: int := s[0];
    if CharLen(s) == 1 {
      c := b0;
    } else if CharLen(s) == 2 {
      var b1: int := s[1];
      c := (b0 - 0xC0) * 0x40 + (b1 - 0x80);
    } else if CharLen(s) == 3 {
      c := ThreeBytes(s);
    } else {
      c := FourBytes(s);
    }
  }

  lemma ThreeBytes(s: seq<byte>) returns (c: nat)
    requires CharLen(s) == 3
    ensures IsScalar(c) && EncodeChar(c) == s[..3]
  {
    var b0: int, b1: int, b2: int := s[0], s[1], s[2];
    c := (b0 - 0xE0) * 0x1000 + (b1 - 0x80) * 0x40 + (b2 - 0x80);
    Digits(b0 - 0xE0, b1 - 0x80, b2 - 0x80);
    assert 0x800 <= c < 0x1_0000 && IsScalar(c);
    assert EncodeChar(c) == [s[0], s[1], s[2]];
  }

  lemma FourBytes(s: seq<byte>) returns (c: nat)
    requires CharLen(s) == 4
    ensures IsScalar(c) && EncodeChar(c) == s[..4]
  {
    var b0: int, b1: int, b2: int, b3: int := s[0], s[1], s[2], s[3];
    var t, h := b0 - 0xF0, b1 - 0x80;
    var rest := (b2 - 0x80) * 0x40 + (b3 - 0x80);
    c := t * 0x4_0000 + h * 0x1000 + rest;
    TopDigits(t, h, rest);
    Digits(t * 0x40 + h, b2 - 0x80, b3 - 0x80);
    assert 0x1_0000 <= c < 0x11_0000;
    assert EncodeChar(c) == [s[0], s[1], s[2], s[3]];
  }

  lemma {:induction false} TextIsValid(cs: seq<nat>)
    requires AllScalar(cs)
    ensures ValidUtf8(EncodeText(cs))
  {
    hide CharLen, EncodeChar;
    if cs != [] {
      var rest := EncodeText(cs[1..]);
      TextIsValid(cs[1..]);
      CharRecognised(cs[0], rest);
      assert EncodeText(cs)[|EncodeChar(cs[0])|..] == rest;
    }
  }

  lemma {:induction false} ValidIsText(s: seq<byte>) returns (cs: seq<nat>)
    requires ValidUtf8(s)
    ensures AllScalar(cs) && EncodeText(cs) == s
  {
    hide CharLen, EncodeChar;
    if s == [] {
      cs := [];
    } else {
      var n := CharLen(s);
      var c := RecognisedIsChar(s);
      var rest := ValidIsText(s[n..]);
      cs := [c] + rest;
      assert cs[1..] == rest && s == s[..n] + s[n..];
    }
  }

  /** The reader accepts a name iff it is the encoding of a sequence of scalar values. */
  lemma ValidUtf8Iff(s: seq<byte>)
    ensures ValidUtf8(s) <==> exists cs :: AllScalar(cs) && EncodeText(cs) == s
  {
    hide ValidUtf8, EncodeText, IsScalar;
    if ValidUtf8(s) {
      var cs := ValidIsText(s);
    }
    if cs :| AllScalar(cs) && EncodeText(cs) == s {
      TextIsValid(cs);
    }
  }

  // ---------------------------------------------------------------- white space

  /** The code points with the property `White_Space`. */
  predicate IsSpace(c: nat) {
    || 0x09 <= c <= 0x0D || c == 0x20 || c == 0x85 || c == 0xA0 || c == 0x1680
    || 0x2000 <= c <= 0x200A || c == 0x2028 || c == 0x2029 || c == 0x202F || c == 0x205F || c == 0x3000
  }

  predicate AllSpaces(cs: seq<nat>) {
    forall i :: 0 <= i < |cs| ==> IsSpace(cs[i])
  }

  lemma SpaceRecognised(c: nat, rest: seq<byte>)
    requires IsSpace(c)
    ensures IsScalar(c) && SpaceLen(EncodeChar(c) + rest) == |EncodeChar(c)|
  {
    var s := EncodeChar(c) + rest;
    if |EncodeChar(c)| == 3 {
      assert s[..3] == EncodeChar(c);
    }
  }

  lemma RecognisedIsSpace(s: seq<byte>) returns (c: nat)
    requires SpaceLen(s) > 0
    ensures IsSpace(c) && IsScalar(c) && EncodeChar(c) == s[..SpaceLen(s)]
  {
    var b0: int := s[0];
    if SpaceLen(s) == 1 {
      c := b0;
    } else if SpaceLen(s) == 2 {
      c := s[1];
    } else {
      var b1: int, b2: int := s[1], s[2];
      assert s[..3] == [s[0], s[1], s[2]];
      c := (b0 - 0xE0) * 0x1000 + (b1 - 0x80) * 0x40 + (b2 - 0x80);
    }
  }

  lemma {:induction false} SpacesAreBlank(cs: seq<nat>)
    requires AllSpaces(cs) && AllScalar(cs)
    ensures Blank(EncodeText(cs))
  {
    hide SpaceLen, EncodeChar, IsSpace;
    if cs != [] {
      var rest := EncodeText(cs[1..]);
      SpacesAreBlank(cs[1..]);
      SpaceRecognised(cs[0], rest);
      assert EncodeText(cs)[|EncodeChar(cs[0])|..] == rest;
    }
  }

  lemma {:induction false} BlankIsSpaces(s: seq<byte>) returns (cs: seq<nat>)
    requires Blank(s)
    ensures AllSpaces(cs) && AllScalar(cs) && EncodeText(cs) == s
  {
    hide SpaceLen, EncodeChar, IsSpace;
    if s == [] {
      cs := [];
    } else {
      var n := SpaceLen(s);
      var c := RecognisedIsSpace(s);
      var rest := BlankIsSpaces(s[n..]);
      cs := [c] + rest;
      assert cs[1..] == rest && s == s[..n] + s[n..];
    }
  }

  /** A line is skipped iff it consists of white-space characters. */
  lemma BlankIff(s: seq<byte>)
    ensures Blank(s) <==> exists cs :: AllSpaces(cs) && AllScalar(cs) && EncodeText(cs) == s
  {
    hide Blank, EncodeText, IsScalar, IsSpace;
    if Blank(s) {
      var cs := BlankIsSpaces(s);
    }
    if cs :| AllSpaces(cs) && AllScalar(cs) && EncodeText(cs) == s {
      SpacesAreBlank(cs);
    }
  }
}
