// UTF-8 as GoogleTest writes it from wide strings, and as its printer validates it.
module Utf8 {

  // A byte is a number below 256; a wide character is a number below 2^16 or 2^32.
  type Bytes = seq<nat>

  const MAX_CODE_POINT_1: nat := 0x7F
  const MAX_CODE_POINT_2: nat := 0x7FF
  const MAX_CODE_POINT_3: nat := 0xFFFF
  const MAX_CODE_POINT_4: nat := 0x1FFFFF

  // ----- Encoding one code point

  function HexDigit(d: nat): nat
    requires d < 16
  {
    if d < 10 then 0x30 + d else 0x41 + d - 10
  }

  function FormatHex(value: nat): Bytes {
    if value < 16 then [HexDigit(value)] else FormatHex(value / 16) + [HexDigit(value % 16)]
  }

  // "(Invalid Unicode 0x"
  const INVALID_PREFIX: Bytes :=
    [0x28, 0x49, 0x6E, 0x76, 0x61, 0x6C, 0x69, 0x64, 0x20, 0x55, 0x6E, 0x69, 0x63, 0x6F, 0x64, 0x65, 0x20, 0x30, 0x78]

  // Chopping off the six lowest bits leaves cp / 64; the marker bits are clear in what they
  // are combined with, so that combining is adding.  The buffer is read as a C string, so that
  // code point 0 yields nothing.
  function CodePointToUtf8(cp: nat): Bytes {
    if cp > MAX_CODE_POINT_4 then INVALID_PREFIX + FormatHex(cp) + [0x29]
    else if cp == 0 then []
    else if cp <= MAX_CODE_POINT_1 then [cp]
    else if cp <= MAX_CODE_POINT_2 then [0xC0 + cp / 64, 0x80 + cp % 64]
    else if cp <= MAX_CODE_POINT_3 then [0xE0 + cp / 64 / 64, 0x80 + cp / 64 % 64, 0x80 + cp % 64]
    else [0xF0 + cp / 64 / 64 / 64, 0x80 + cp / 64 / 64 % 64, 0x80 + cp / 64 % 64, 0x80 + cp % 64]
  }

  function CodePointsToUtf8(cps: seq<nat>): Bytes {
    if cps == [] then [] else CodePointToUtf8(cps[0]) + CodePointsToUtf8(cps[1..])
  }

  predicate IsSurrogate(cp: nat) {
    0xD800 <= cp <= 0xDFFF
  }

  // The scalar values of section 3 of RFC 3629.
  predicate IsScalar(cp: nat) {
    cp <= 0x10FFFF && !IsSurrogate(cp)
  }

  predicate AllScalar(cps: seq<nat>) {
    forall i :: 0 <= i < |cps| ==> IsScalar(cps[i]) && cps[i] != 0
  }

  // ----- Validating

  predicate IsUTF8TrailByte(t: nat) {
    0x80 <= t <= 0xBF
  }

  // The length of the well-formed character at the front of s, or 0, by the syntax of byte
  // sequences in section 4 of RFC 3629.
  function CharLength(s: Bytes): nat {
    if s == [] then 0
    else if s[0] <= 0x7F then 1
    else if 0xC2 <= s[0] <= 0xDF && |s| >= 2 && IsUTF8TrailByte(s[1]) then 2
    else if |s| >= 3 && IsUTF8TrailByte(s[2]) &&
            ((s[0] == 0xE0 && 0xA0 <= s[1] <= 0xBF) || (0xE1 <= s[0] <= 0xEC && IsUTF8TrailByte(s[1])) ||
             (s[0] == 0xED && 0x80 <= s[1] <= 0x9F) || (0xEE <= s[0] <= 0xEF && IsUTF8TrailByte(s[1]))) then 3
    else if |s| >= 4 && IsUTF8TrailByte(s[2]) && IsUTF8TrailByte(s[3]) &&
            ((s[0] == 0xF0 && 0x90 <= s[1] <= 0xBF) || (0xF1 <= s[0] <= 0xF3 && IsUTF8TrailByte(s[1])) ||
             (s[0] == 0xF4 && 0x80 <= s[1] <= 0x8F)) then 4
    else 0
  }

  predicate WellFormed(s: Bytes)
    decreases |s|
  {
    s == [] || (CharLength(s) > 0 && WellFormed(s[CharLength(s)..]))
  }

  method IsValidUTF8(s: Bytes) returns (valid: bool)
    requires forall i :: 0 <= i < |s| ==> s[i] < 256
    ensures valid <==> WellFormed(s)
  {
    var length := |s|;
    var i := 0;
    while i < length
      invariant 0 <= i <= length
      invariant WellFormed(s) <==> WellFormed(s[i..])
    {
      ghost var rest := s[i..];
      ghost var n := CharLength(rest);
      assert n > 0 ==> rest[n..] == s[i + n..];
      var lead := s[i];
      i := i + 1;
      if lead <= 0x7F {
        continue;
      }
      if lead < 0xC2 {
        return false;
      } else if lead <= 0xDF && i + 1 <= length && IsUTF8TrailByte(s[i]) {
        i := i + 1;
      } else if 0xE0 <= lead <= 0xEF && i + 2 <= length && IsUTF8TrailByte(s[i]) && IsUTF8TrailByte(s[i + 1]) &&
                (lead != 0xE0 || s[i] >= 0xA0) && (lead != 0xED || s[i] < 0xA0) {
        i := i + 2;
      } else if 0xF0 <= lead <= 0xF4 && i + 3 <= length && IsUTF8TrailByte(s[i]) && IsUTF8TrailByte(s[i + 1]) &&
                IsUTF8TrailByte(s[i + 2]) && (lead != 0xF0 || s[i] >= 0x90) && (lead != 0xF4 || s[i] < 0x90) {
        i := i + 3;
      } else {
        return false;
      }
    }
    return true;
  }

  // ----- Encoder and validator agree

  function DecodeChar(s: Bytes): nat
    requires CharLength(s) > 0
  {
    if CharLength(s) == 1 then s[0]
    else if CharLength(s) == 2 then (s[0] - 0xC0) * 64 + (s[1] - 0x80)
    else if CharLength(s) == 3 then ((s[0] - 0xE0) * 64 + (s[1] - 0x80)) * 64 + (s[2] - 0x80)
    else (((s[0] - 0xF0) * 64 + (s[1] - 0x80)) * 64 + (s[2] - 0x80)) * 64 + (s[3] - 0x80)
  }

  lemma {:induction false} EncodedChar(cp: nat, rest: Bytes)
    requires IsScalar(cp) && cp != 0
    ensures var s := CodePointToUtf8(cp);
            && CharLength(s + rest) == |s| > 0 && DecodeChar(s + rest) == cp
            && 0 !in s
  {
    var s := CodePointToUtf8(cp);
    var all := s + rest;
    assert forall k :: 0 <= k < |s| ==> all[k] == s[k];
  }

  lemma {:induction false} DecodedTwo(a: nat, b: nat)
    requires 0xC2 <= a <= 0xDF && IsUTF8TrailByte(b)
    ensures var cp := (a - 0xC0) * 64 + (b - 0x80); IsScalar(cp) && cp != 0 && CodePointToUtf8(cp) == [a, b]
  {
  }

  lemma {:induction false} DecodedThree(a: nat, b: nat, c: nat)
    requires 0xE0 <= a <= 0xEF && IsUTF8TrailByte(b) && IsUTF8TrailByte(c)
    requires (a == 0xE0 ==> b >= 0xA0) && (a == 0xED ==> b < 0xA0)
    ensures var cp := ((a - 0xE0) * 64 + (b - 0x80)) * 64 + (c - 0x80);
            IsScalar(cp) && cp != 0 && CodePointToUtf8(cp) == [a, b, c]
  {
    var cp := ((a - 0xE0) * 64 + (b - 0x80)) * 64 + (c - 0x80);
    assert cp / 64 == (a - 0xE0) * 64 + (b - 0x80);
  }

  lemma {:induction false} DecodedFour(a: nat, b: nat, c: nat, d: nat)
    requires 0xF0 <= a <= 0xF4 && IsUTF8TrailByte(b) && IsUTF8TrailByte(c) && IsUTF8TrailByte(d)
    requires (a == 0xF0 ==> b >= 0x90) && (a == 0xF4 ==> b < 0x90)
    ensures var cp := (((a - 0xF0) * 64 + (b - 0x80)) * 64 + (c - 0x80)) * 64 + (d - 0x80);
            IsScalar(cp) && cp != 0 && CodePointToUtf8(cp) == [a, b, c, d]
  {
    var cp := (((a - 0xF0) * 64 + (b - 0x80)) * 64 + (c - 0x80)) * 64 + (d - 0x80);
    assert cp / 64 == ((a - 0xF0) * 64 + (b - 0x80)) * 64 + (c - 0x80);
    assert cp / 64 / 64 == (a - 0xF0) * 64 + (b - 0x80);
  }

  lemma {:induction false} DecodedChar(s: Bytes)
    requires CharLength(s) > 0 && s[0] != 0
    ensures var cp, n := DecodeChar(s), CharLength(s);
            IsScalar(cp) && cp != 0 && n <= |s| && CodePointToUtf8(cp) == s[..n]
  {
    var n := CharLength(s);
    if n == 1 {
      assert s[..1] == [s[0]];
    } else if n == 2 {
      DecodedTwo(s[0], s[1]);
      assert s[..2] == [s[0], s[1]];
    } else if n == 3 {
      DecodedThree(s[0], s[1], s[2]);
      assert s[..3] == [s[0], s[1], s[2]];
    } else {
      DecodedFour(s[0], s[1], s[2], s[3]);
      assert s[..4] == [s[0], s[1], s[2], s[3]];
    }
  }

  lemma {:induction false} EncodingsWellFormed(cps: seq<nat>, rest: Bytes)
    requires AllScalar(cps)
    ensures WellFormed(CodePointsToUtf8(cps) + rest) <==> WellFormed(rest)
    ensures 0 !in CodePointsToUtf8(cps)
  {
    if cps == [] {
      assert CodePointsToUtf8(cps) + rest == rest;
    } else {
      var s, tail := CodePointToUtf8(cps[0]), CodePointsToUtf8(cps[1..]) + rest;
      EncodingsWellFormed(cps[1..], rest);
      EncodedChar(cps[0], tail);
      assert CodePointsToUtf8(cps) + rest == s + tail;
      assert (s + tail)[|s|..] == tail;
    }
  }

  lemma {:induction false} WellFormedIsEncoding(s: Bytes) returns (cps: seq<nat>)
    requires WellFormed(s) && 0 !in s
    ensures AllScalar(cps) && CodePointsToUtf8(cps) == s
    decreases |s|
  {
    if s == [] {
      cps := [];
    } else {
      assert s[0] in s;
      DecodedChar(s);
      var n, cp := CharLength(s), DecodeChar(s);
      var others := WellFormedIsEncoding(s[n..]);
      cps := [cp] + others;
      ConsEncoding(cp, others);
      assert s == s[..n] + s[n..];
    }
  }

  lemma {:induction false} ConsEncoding(cp: nat, others: seq<nat>)
    requires IsScalar(cp) && cp != 0 && AllScalar(others)
    ensures AllScalar([cp] + others)
    ensures CodePointsToUtf8([cp] + others) == CodePointToUtf8(cp) + CodePointsToUtf8(others)
  {
    assert ([cp] + others)[1..] == others;
  }

  // A NUL-free byte string passes the validator exactly when it is the encoding of some
  // non-zero scalar values.
  lemma {:induction false} ValidIffEncoding(s: Bytes)
    requires 0 !in s
    ensures WellFormed(s) <==> exists cps :: AllScalar(cps) && CodePointsToUtf8(cps) == s
  {
    if WellFormed(s) {
      var cps := WellFormedIsEncoding(s);
    }
    if cps :| AllScalar(cps) && CodePointsToUtf8(cps) == s {
      EncodingsWellFormed(cps, []);
      assert s + [] == s;
    }
  }

  // Encodings can be told apart: the bytes determine the code points.
  lemma {:induction false} EncodingInjective(a: seq<nat>, b: seq<nat>)
    requires AllScalar(a) && AllScalar(b) && CodePointsToUtf8(a) == CodePointsToUtf8(b)
    ensures a == b
    decreases |a|
  {
    if a != [] {
      EncodedChar(a[0], CodePointsToUtf8(a[1..]));
    }
    if b != [] {
      EncodedChar(b[0], CodePointsToUtf8(b[1..]));
    }
    if a != [] && b != [] {
      var n := |CodePointToUtf8(a[0])|;
      assert CodePointsToUtf8(a)[n..] == CodePointsToUtf8(a[1..]);
      assert CodePointsToUtf8(b)[n..] == CodePointsToUtf8(b[1..]);
      EncodingInjective(a[1..], b[1..]);
      assert a == [a[0]] + a[1..] && b == [b[0]] + b[1..];
    }
  }

  // ----- Wide strings

  predicate IsUtf16SurrogatePair(first: nat, second: nat, wcharSize: nat) {
    wcharSize == 2 && first / 0x400 == 0xD800 / 0x400 && second / 0x400 == 0xDC00 / 0x400
  }

  function CreateCodePointFromUtf16SurrogatePair(first: nat, second: nat): nat {
    first % 0x400 * 0x400 + second % 0x400 + 0x10000
  }

  // The code points read off a wide string: surrogate pairs are combined, anything else stands
  // for itself, and NUL ends the string.
  function CodePoints(str: seq<nat>, wcharSize: nat): seq<nat>
    decreases |str|
  {
    if str == [] || str[0] == 0 then []
    else if |str| >= 2 && IsUtf16SurrogatePair(str[0], str[1], wcharSize) then
      [CreateCodePointFromUtf16SurrogatePair(str[0], str[1])] + CodePoints(str[2..], wcharSize)
    else [str[0]] + CodePoints(str[1..], wcharSize)
  }

  function At(str: seq<nat>, i: nat): nat
    requires i <= |str|
  {
    if i < |str| then str[i] else 0
  }

  // At most numChars characters; -1 stands for all.
  function Window(str: seq<nat>, numChars: int): seq<nat> {
    if numChars == -1 || numChars >= |str| then str else if numChars < 0 then [] else str[..numChars]
  }

  // What is read at position i of the string, given what lies in the window.
  lemma {:induction false} ReadNext(str: seq<nat>, i: nat, wcharSize: nat)
    requires i < |str| && str[i] != 0
    ensures var pair := i + 1 < |str| && IsUtf16SurrogatePair(str[i], str[i + 1], wcharSize);
            CodePoints(str[i..], wcharSize) ==
            if pair then [CreateCodePointFromUtf16SurrogatePair(str[i], str[i + 1])] + CodePoints(str[i + 2..], wcharSize)
            else [str[i]] + CodePoints(str[i + 1..], wcharSize)
  {
    assert str[i..][1..] == str[i + 1..];
    if i + 1 < |str| {
      assert str[i..][2..] == str[i + 2..];
    }
  }

  lemma {:induction false} SnocEncoding(cps: seq<nat>, cp: nat)
    ensures CodePointsToUtf8(cps + [cp]) == CodePointsToUtf8(cps) + CodePointToUtf8(cp)
  {
    if cps == [] {
      assert CodePointsToUtf8([cp][1..]) == [];
    } else {
      assert (cps + [cp])[1..] == cps[1..] + [cp];
      SnocEncoding(cps[1..], cp);
    }
  }

  lemma {:induction false} Advance(done: seq<nat>, cp: nat, rest: seq<nat>)
    ensures done + [cp] + rest == done + ([cp] + rest)
    ensures CodePointsToUtf8(done + [cp]) == CodePointsToUtf8(done) + CodePointToUtf8(cp)
  {
    SnocEncoding(done, cp);
  }

  function Limit(str: seq<nat>, numChars: int): int {
    if numChars == -1 then |str| else numChars
  }

  lemma {:induction false} WindowAt(str: seq<nat>, numChars: int, i: nat, wcharSize: nat)
    requires i <= |str| && i < Limit(str, numChars) && At(str, i) != 0
    ensures var window := Window(str, numChars);
            && i < |window| && window[i] == At(str, i)
            && (i + 1 < Limit(str, numChars) && IsUtf16SurrogatePair(At(str, i), At(str, i + 1), wcharSize) <==>
                i + 1 < |window| && IsUtf16SurrogatePair(window[i], window[i + 1], wcharSize))
  {
  }

  method WideStringToUtf8(str: seq<nat>, numChars: int, wcharSize: nat) returns (stream: Bytes)
    ensures stream == CodePointsToUtf8(CodePoints(Window(str, numChars), wcharSize))
  {
    var limit := Limit(str, numChars);
    ghost var window := Window(str, numChars);
    ghost var todo, done: seq<nat> := CodePoints(window, wcharSize), [];
    stream := [];
    var i := 0;
    assert window[0..] == window && [] + todo == todo;
    while i < limit
      invariant 0 <= i <= |window| <= |str|
      invariant todo == CodePoints(window[i..], wcharSize)
      invariant done + todo == CodePoints(window, wcharSize) && stream == CodePointsToUtf8(done)
      decreases limit - i
    {
      if At(str, i) == 0 {
        break;
      }
      WindowAt(str, numChars, i, wcharSize);
      ReadNext(window, i, wcharSize);
      var cp: nat;
      if i + 1 < limit && IsUtf16SurrogatePair(At(str, i), At(str, i + 1), wcharSize) {
        cp := CreateCodePointFromUtf16SurrogatePair(At(str, i), At(str, i + 1));
        i := i + 1;
      } else {
        cp := At(str, i);
      }
      i := i + 1;
      todo := CodePoints(window[i..], wcharSize);
      Advance(done, cp, todo);
      done := done + [cp];
      stream := stream + CodePointToUtf8(cp);
    }
    assert todo == [];
    assert done + todo == done;
  }

  // UTF-16, by section 2.1 of RFC 2781.
  function Utf16(cp: nat): seq<nat> {
    if cp < 0x10000 then [cp] else [0xD800 + (cp - 0x10000) / 0x400, 0xDC00 + (cp - 0x10000) % 0x400]
  }

  function Utf16All(cps: seq<nat>): seq<nat> {
    if cps == [] then [] else Utf16(cps[0]) + Utf16All(cps[1..])
  }

  lemma {:induction false} PairCombines(cp: nat)
    requires 0x10000 <= cp <= 0x10FFFF
    ensures var u := Utf16(cp);
            IsUtf16SurrogatePair(u[0], u[1], 2) && CreateCodePointFromUtf16SurrogatePair(u[0], u[1]) == cp
  {
    var v := cp - 0x10000;
    assert 0 <= v / 0x400 < 0x400;
    assert (0xD800 + v / 0x400) / 0x400 == 0x36 && (0xDC00 + v % 0x400) / 0x400 == 0x37;
    assert (0xD800 + v / 0x400) % 0x400 == v / 0x400 && (0xDC00 + v % 0x400) % 0x400 == v % 0x400;
  }

  lemma {:induction false} SingleStands(a: nat, b: nat)
    requires a < 0x10000 && !IsSurrogate(a)
    ensures !IsUtf16SurrogatePair(a, b, 2)
  {
  }

  // Well-formed UTF-16 is read back exactly.
  lemma {:induction false} Utf16ReadBack(cps: seq<nat>)
    requires AllScalar(cps)
    ensures CodePoints(Utf16All(cps), 2) == cps
  {
    if cps != [] {
      var u, rest, str := Utf16(cps[0]), Utf16All(cps[1..]), Utf16All(cps);
      Utf16ReadBack(cps[1..]);
      assert str == u + rest && str[|u|..] == rest;
      if cps[0] >= 0x10000 {
        PairCombines(cps[0]);
        assert str[0] == u[0] && str[1] == u[1];
      } else {
        SingleStands(str[0], if |str| >= 2 then str[1] else 0);
      }
      assert cps == [cps[0]] + cps[1..];
    }
  }

  // NUL-free well-formed UTF-16 becomes valid UTF-8 for the same code points, and for no others.
  lemma {:induction false} Utf16ToUtf8(cps: seq<nat>)
    requires AllScalar(cps)
    ensures var bytes := CodePointsToUtf8(CodePoints(Window(Utf16All(cps), -1), 2));
            && WellFormed(bytes) && bytes == CodePointsToUtf8(cps)
            && forall other :: AllScalar(other) && CodePointsToUtf8(other) == bytes ==> other == cps
  {
    Utf16ReadBack(cps);
    EncodingsWellFormed(cps, []);
    var bytes := CodePointsToUtf8(cps);
    assert bytes + [] == bytes;
    forall other | AllScalar(other) && CodePointsToUtf8(other) == bytes ensures other == cps {
      EncodingInjective(other, cps);
    }
  }

  // ----- Exactly which inputs give valid output

  lemma {:induction false} HexIsAscii(value: nat)
    ensures forall i :: 0 <= i < |FormatHex(value)| ==> FormatHex(value)[i] <= 0x7F
  {
    if value >= 16 {
      HexIsAscii(value / 16);
    }
  }

  lemma {:induction false} AsciiWellFormed(ascii: Bytes, rest: Bytes)
    requires forall i :: 0 <= i < |ascii| ==> ascii[i] <= 0x7F
    ensures WellFormed(ascii + rest) <==> WellFormed(rest)
  {
    if ascii == [] {
      assert ascii + rest == rest;
    } else {
      AsciiWellFormed(ascii[1..], rest);
      assert (ascii + rest)[1..] == ascii[1..] + rest;
    }
  }

  lemma {:induction false} BadCharStops(cp: nat, rest: Bytes)
    requires cp <= MAX_CODE_POINT_4 && !IsScalar(cp)
    ensures CodePointToUtf8(cp) + rest != [] && CharLength(CodePointToUtf8(cp) + rest) == 0
  {
    var s := CodePointToUtf8(cp);
    assert forall k :: 0 <= k < |s| ==> (s + rest)[k] == s[k];
  }

  // What the encoder writes for a code point is valid for scalar values and for those it spells
  // out as a message; surrogates and values just above the Unicode range give invalid bytes.
  predicate GivesValidBytes(cp: nat) {
    IsScalar(cp) || cp > 0x1FFFFF
  }

  lemma {:induction false} OutputValidIff(cps: seq<nat>)
    requires forall i :: 0 <= i < |cps| ==> cps[i] != 0
    ensures WellFormed(CodePointsToUtf8(cps)) <==> forall i :: 0 <= i < |cps| ==> GivesValidBytes(cps[i])
  {
    if cps != [] {
      var s, rest := CodePointToUtf8(cps[0]), CodePointsToUtf8(cps[1..]);
      OutputValidIff(cps[1..]);
      if IsScalar(cps[0]) {
        EncodedChar(cps[0], rest);
        assert (s + rest)[|s|..] == rest;
      } else if cps[0] <= MAX_CODE_POINT_4 {
        BadCharStops(cps[0], rest);
      } else {
        HexIsAscii(cps[0]);
        AsciiWellFormed(s, rest);
      }
      assert (forall i :: 0 <= i < |cps| ==> GivesValidBytes(cps[i])) <==>
             GivesValidBytes(cps[0]) && forall i :: 0 <= i < |cps[1..]| ==> GivesValidBytes(cps[1..][i]);
    }
  }

  // The documentation promises the message for everything above 0x10FFFF; the code starts only
  // above 0x1FFFFF, so that the promise fails exactly in between.
  // The number that upper-case hexadecimal digits stand for.
  ghost function HexValue(text: Bytes): nat {
    if text == [] then 0
    else
      var d := text[|text| - 1];
      HexValue(text[..|text| - 1]) * 16 +
      if 0x30 <= d <= 0x39 then d - 0x30 else if 0x41 <= d <= 0x46 then d - 0x37 else 0
  }

  ghost predicate IsHexDigit(d: nat) {
    0x30 <= d <= 0x39 || 0x41 <= d <= 0x46
  }

  lemma {:induction false} HexReadsBack(value: nat)
    ensures var text := FormatHex(value);
            && text != [] && HexValue(text) == value && (text[0] == 0x30 ==> value == 0)
            && forall i :: 0 <= i < |text| ==> IsHexDigit(text[i])
  {
    var text := FormatHex(value);
    if value < 16 {
      assert HexValue(text[..0]) == 0;
    } else {
      HexReadsBack(value / 16);
      assert text[..|text| - 1] == FormatHex(value / 16);
    }
  }

  // The message names the code point in hexadecimal, without leading zeros.
  lemma {:induction false} MessageNamesCodePoint(cp: nat)
    requires cp > 0x1FFFFF
    ensures exists hex :: CodePointToUtf8(cp) == INVALID_PREFIX + hex + [0x29] && HexValue(hex) == cp
                          && hex != [] && hex[0] != 0x30 && forall i :: 0 <= i < |hex| ==> IsHexDigit(hex[i])
  {
    HexReadsBack(cp);
    var hex := FormatHex(cp);
    assert CodePointToUtf8(cp) == INVALID_PREFIX + hex + [0x29] && HexValue(hex) == cp;
  }

  // The bits that a byte sequence of one to four bytes carries: those of the lead byte, then six
  // from each trail byte.
  ghost function Payload(s: Bytes): int {
    if |s| == 1 then s[0]
    else if |s| == 2 then Bits(s[0], 0xC0) * 64 + Bits(s[1], 0x80)
    else if |s| == 3 then (Bits(s[0], 0xE0) * 64 + Bits(s[1], 0x80)) * 64 + Bits(s[2], 0x80)
    else if |s| == 4 then
      ((Bits(s[0], 0xF0) * 64 + Bits(s[1], 0x80)) * 64 + Bits(s[2], 0x80)) * 64 + Bits(s[3], 0x80)
    else -1
  }

  ghost function Bits(byte: int, mark: int): int {
    byte - mark
  }

  // The shortest length, the marks of lead and trail bytes, and the bits: this holds of surrogates
  // and of numbers beyond Unicode as well, which are written like any other.
  lemma {:induction false} BitsKept(cp: nat)
    requires 0 < cp <= 0x1FFFFF
    ensures var s := CodePointToUtf8(cp);
            && |s| == (if cp <= 0x7F then 1 else if cp <= 0x7FF then 2 else if cp <= 0xFFFF then 3 else 4)
            && Payload(s) == cp
            && (|s| == 1 ==> s[0] <= 0x7F) && (|s| == 2 ==> 0xC0 <= s[0] <= 0xDF)
            && (|s| == 3 ==> 0xE0 <= s[0] <= 0xEF) && (|s| == 4 ==> 0xF0 <= s[0] <= 0xF7)
            && forall i :: 0 < i < |s| ==> 0x80 <= s[i] <= 0xBF
  {
  }

  // Just above the documented bound: four bytes that look like a character, and no message.
  lemma {:induction false} NoMessageAboveUnicode()
    ensures CodePointToUtf8(0x110000) == [0xF4, 0x90, 0x80, 0x80] && !WellFormed(CodePointToUtf8(0x110000))
  {
  }

  lemma {:induction false} InvalidMessageExact(cp: nat)
    ensures (INVALID_PREFIX <= CodePointToUtf8(cp)) <==> cp > 0x1FFFFF
    ensures ((INVALID_PREFIX <= CodePointToUtf8(cp)) <==> cp > 0x10FFFF) <==> !(0x10FFFF < cp <= 0x1FFFFF)
  {
    assert |INVALID_PREFIX| == 19;
    if cp > MAX_CODE_POINT_4 {
      assert CodePointToUtf8(cp) == INVALID_PREFIX + (FormatHex(cp) + [0x29]);
    }
  }

  function UntilNul(str: seq<nat>): seq<nat> {
    if str == [] || str[0] == 0 then [] else [str[0]] + UntilNul(str[1..])
  }

  // Wherever wide characters are not 16 bits wide, each stands for itself, up to the first NUL.
  lemma {:induction false} UnitsStandAlone(str: seq<nat>, wcharSize: nat)
    requires wcharSize != 2
    ensures CodePoints(str, wcharSize) == UntilNul(str)
  {
    if str != [] && str[0] != 0 {
      UnitsStandAlone(str[1..], wcharSize);
    }
  }

  lemma {:induction false} UntilNulOfNonZero(str: seq<nat>)
    requires 0 !in str
    ensures UntilNul(str) == str
  {
    if str != [] {
      UntilNulOfNonZero(str[1..]);
    }
  }

  // UTF-32 becomes valid UTF-8 that decodes to the same code points and no others.
  lemma {:induction false} Utf32ToUtf8(cps: seq<nat>)
    requires AllScalar(cps)
    ensures var bytes := CodePointsToUtf8(CodePoints(Window(cps, -1), 4));
            && WellFormed(bytes) && bytes == CodePointsToUtf8(cps)
            && forall other :: AllScalar(other) && CodePointsToUtf8(other) == bytes ==> other == cps
  {
    UnitsStandAlone(cps, 4);
    UntilNulOfNonZero(cps);
    EncodingsWellFormed(cps, []);
    var bytes := CodePointsToUtf8(cps);
    assert bytes + [] == bytes;
    forall other | AllScalar(other) && CodePointsToUtf8(other) == bytes ensures other == cps {
      EncodingInjective(other, cps);
    }
  }

  lemma {:induction false} PairSplits(first: nat, second: nat)
    requires first < 0x10000 && second < 0x10000 && IsUtf16SurrogatePair(first, second, 2)
    ensures var cp := CreateCodePointFromUtf16SurrogatePair(first, second);
            0x10000 <= cp <= 0x10FFFF && Utf16(cp) == [first, second]
  {
    var high, low := first % 0x400, second % 0x400;
    assert first == 0xD800 + high && second == 0xDC00 + low;
    assert (high * 0x400 + low) / 0x400 == high && (high * 0x400 + low) % 0x400 == low;
  }

  // Reading 16-bit units: no surrogate is left over exactly when they are well-formed UTF-16.
  lemma {:induction false} UntilNulPair(str: seq<nat>)
    requires |str| >= 2 && str[0] != 0 && str[1] != 0
    ensures UntilNul(str) == [str[0], str[1]] + UntilNul(str[2..])
  {
    assert str[1..][0] == str[1] && str[1..][1..] == str[2..];
    assert UntilNul(str) == [str[0]] + ([str[1]] + UntilNul(str[2..]));
  }

  lemma {:induction false} ReadCodePoints(str: seq<nat>)
    requires forall i :: 0 <= i < |str| ==> str[i] < 0x10000
    ensures var cps := CodePoints(str, 2);
            && (forall i :: 0 <= i < |cps| ==> 0 < cps[i] <= 0x10FFFF)
            && Utf16All(cps) == UntilNul(str)
    decreases |str|
  {
    if str != [] && str[0] != 0 {
      var cps := CodePoints(str, 2);
      if |str| >= 2 && IsUtf16SurrogatePair(str[0], str[1], 2) {
        ReadCodePoints(str[2..]);
        PairSplits(str[0], str[1]);
        UntilNulPair(str);
        assert cps[1..] == CodePoints(str[2..], 2);
      } else {
        ReadCodePoints(str[1..]);
        assert cps[1..] == CodePoints(str[1..], 2);
      }
    }
  }

  // On systems with 16-bit wide characters the output is valid UTF-8 exactly when the input,
  // up to its NUL, is well-formed UTF-16.
  lemma {:induction false} ValidOutputIffUtf16(str: seq<nat>)
    requires forall i :: 0 <= i < |str| ==> str[i] < 0x10000
    ensures WellFormed(CodePointsToUtf8(CodePoints(str, 2))) <==>
            exists cps :: AllScalar(cps) && Utf16All(cps) == UntilNul(str)
  {
    var read := CodePoints(str, 2);
    ReadCodePoints(str);
    OutputValidIff(read);
    if WellFormed(CodePointsToUtf8(read)) {
      assert AllScalar(read);
    }
    if cps :| AllScalar(cps) && Utf16All(cps) == UntilNul(str) {
      Utf16ReadBack(cps);
      UntilNulReads(str);
    }
  }

  lemma {:induction false} UntilNulReads(str: seq<nat>)
    ensures CodePoints(UntilNul(str), 2) == CodePoints(str, 2)
    decreases |str|
  {
    if str != [] && str[0] != 0 {
      var cut := UntilNul(str);
      assert cut[1..] == UntilNul(str[1..]);
      UntilNulReads(str[1..]);
      if |str| >= 2 && str[1] != 0 {
        assert cut[1] == str[1] && cut[2..] == UntilNul(str[2..]) && str[1..][1..] == str[2..];
        UntilNulReads(str[2..]);
      } else {
        NoPairWithNul(str[0]);
      }
    }
  }

  lemma {:induction false} NoPairWithNul(first: nat)
    ensures !IsUtf16SurrogatePair(first, 0, 2)
  {
  }
}
