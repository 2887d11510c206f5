/**
 * `utf8.RuneCountInString` over arbitrary byte strings: a well-formed sequence (sections 3 and 4 of RFC 3629) counts
 * once, and every byte that does not start one counts once on its own.
 */
module Utf8 {
  import opened Foundation

  predicate Continuation(b: byte) {
    0x80 <= b <= 0xBF
  }

  /** Whether the lead byte and the byte after it can start a three-byte sequence. */
  predicate Lead3(a: byte, b: byte) {
    || (a == 0xE0 && 0xA0 <= b <= 0xBF)
    || (0xE1 <= a <= 0xEC && Continuation(b))
    || (a == 0xED && 0x80 <= b <= 0x9F)
    || (0xEE <= a <= 0xEF && Continuation(b))
  }

  predicate Lead4(a: byte, b: byte) {
    || (a == 0xF0 && 0x90 <= b <= 0xBF)
    || (0xF1 <= a <= 0xF3 && Continuation(b))
    || (a == 0xF4 && 0x80 <= b <= 0x8F)
  }

  /** How many bytes the first rune takes. */
  function Width(s: Bytes): (w: nat)
    requires s != []
    ensures 1 <= w <= 4 && w <= |s|
  {
    if |s| >= 2 && 0xC2 <= s[0] <= 0xDF && Continuation(s[1]) then 2
    else if |s| >= 3 && Lead3(s[0], s[1]) && Continuation(s[2]) then 3
    else if |s| >= 4 && Lead4(s[0], s[1]) && Continuation(s[2]) && Continuation(s[3]) then 4
    else 1
  }

  function RuneCount(s: Bytes): (n: nat) {
    if s == [] then 0 else 1 + RuneCount(s[Width(s)..])
  }

  /** For every byte string, malformed or not, the two measures of length stay within a factor of four. */
  lemma {:induction false} RuneByteBounds(s: Bytes)
    ensures RuneCount(s) <= |s| <= 4 * RuneCount(s)
  {
    if s != [] {
      RuneByteBounds(s[Width(s)..]);
    }
  }

  predicate Ascii(s: Bytes) {
    forall i :: 0 <= i < |s| ==> s[i] < 0x80
  }

  lemma {:induction false} AsciiRunesAreBytes(s: Bytes)
    requires Ascii(s)
    ensures RuneCount(s) == |s|
  {
    if s != [] {
      AsciiRunesAreBytes(s[1..]);
    }
  }

  // ---- Agreement with the encoder of RFC 3629 ----

  type Scalar = c: int | (0 <= c < 0xD800) || (0xE000 <= c < 0x11_0000)

  function Encode(c: Scalar): (s: Bytes)
    ensures 1 <= |s| <= 4
  {
    if c < 0x80 then [c as byte]
    else if c < 0x800 then [(0xC0 + c / 64) as byte, (0x80 + c % 64) as byte]
    else if c < 0x1_0000 then
      [(0xE0 + c / 4096) as byte, (0x80 + c / 64 % 64) as byte, (0x80 + c % 64) as byte]
    else
      [(0xF0 + c / 262144) as byte, (0x80 + c / 4096 % 64) as byte, (0x80 + c / 64 % 64) as byte,
       (0x80 + c % 64) as byte]
  }

  function EncodeAll(cs: seq<Scalar>): (s: Bytes) {
    if cs == [] then [] else Encode(cs[0]) + EncodeAll(cs[1..])
  }

  /** The bit layout of section 3 of RFC 3629, read back: each byte gives its payload, high bits first. */
  lemma {:induction false} EncodedBits(c: Scalar)
    ensures var s := Encode(c);
            match |s|
            case 1 => s[0] as int == c < 0x80
            case 2 => s[0] / 32 == 6 && s[1] / 64 == 2 && c == (s[0] % 32) as int * 64 + (s[1] % 64) as int >= 0x80
            case 3 => s[0] / 16 == 14 && s[1] / 64 == 2 && s[2] / 64 == 2
                      && c == (s[0] % 16) as int * 4096 + (s[1] % 64) as int * 64 + (s[2] % 64) as int >= 0x800
            case _ => s[0] / 8 == 30 && s[1] / 64 == 2 && s[2] / 64 == 2 && s[3] / 64 == 2
                      && c == (s[0] % 8) as int * 262144 + (s[1] % 64) as int * 4096 + (s[2] % 64) as int * 64
                              + (s[3] % 64) as int >= 0x1_0000
  {
    var a, b, d, e := c / 262144, c / 4096 % 64, c / 64 % 64, c % 64;
    assert c / 64 == (a * 64 + b) * 64 + d;
    assert c / 4096 == a * 64 + b;
  }

  lemma {:induction false} LeadOfThree(c: Scalar)
    requires 0x800 <= c < 0x1_0000
    ensures Lead3(Encode(c)[0], Encode(c)[1])
  {
    var high, middle := c / 4096, c / 64 % 64;
    assert c / 64 == high * 64 + middle;
  }

  lemma {:induction false} LeadOfFour(c: Scalar)
    requires 0x1_0000 <= c
    ensures Lead4(Encode(c)[0], Encode(c)[1])
  {
    var high, middle := c / 262144, c / 4096 % 64;
    assert c / 4096 == high * 64 + middle;
  }

  lemma {:induction false} EncodedWidth(c: Scalar, rest: Bytes)
    ensures Width(Encode(c) + rest) == |Encode(c)|
  {
    var s := Encode(c) + rest;
    if 0x800 <= c < 0x1_0000 {
      LeadOfThree(c);
      assert Lead3(s[0], s[1]);
    } else if c >= 0x1_0000 {
      LeadOfFour(c);
      assert Lead4(s[0], s[1]);
    }
  }

  lemma {:induction false} SixBitDigits(a: nat, b: nat, x: nat, y: nat)
    requires b < 64 && x < 64 && y < 64
    ensures var c := ((a * 64 + b) * 64 + x) * 64 + y;
            c % 64 == y && c / 64 % 64 == x && c / 4096 % 64 == b && c / 262144 == a
  {
    var c := ((a * 64 + b) * 64 + x) * 64 + y;
    assert c / 64 == (a * 64 + b) * 64 + x;
    assert c / 4096 == (c / 64) / 64 == a * 64 + b;
    assert c / 262144 == (c / 4096) / 64 == a;
  }

  /** Conversely, a rune of several bytes, and an ASCII byte, is the encoding of a scalar: nothing else is merged. */
  lemma {:induction false} WideRuneIsEncoding(s: Bytes) returns (c: Scalar)
    requires s != [] && (Width(s) > 1 || s[0] < 0x80)
    ensures Encode(c) == s[..Width(s)]
  {
    match Width(s)
    case 1 => c := s[0] as int;
    case 2 => c := TwoBytes(s[0], s[1]);
    case 3 => c := ThreeBytes(s[0], s[1], s[2]);
    case _ => c := FourBytes(s[0], s[1], s[2], s[3]);
  }

  lemma {:induction false} TwoBytes(p: byte, q: byte) returns (c: Scalar)
    requires 0xC2 <= p <= 0xDF && Continuation(q)
    ensures Encode(c) == [p, q]
  {
    var x, y := p as int - 0xC0, q as int - 0x80;
    SixBitDigits(0, 0, x, y);
    c := x * 64 + y;
  }

  lemma {:induction false} ThreeBytes(p: byte, q: byte, r: byte) returns (c: Scalar)
    requires Lead3(p, q) && Continuation(r)
    ensures Encode(c) == [p, q, r]
  {
    var b, x, y := p as int - 0xE0, q as int - 0x80, r as int - 0x80;
    SixBitDigits(0, b, x, y);
    c := (b * 64 + x) * 64 + y;
  }

  lemma {:induction false} FourBytes(p: byte, q: byte, r: byte, t: byte) returns (c: Scalar)
    requires Lead4(p, q) && Continuation(r) && Continuation(t)
    ensures Encode(c) == [p, q, r, t]
  {
    var a, b, x, y := p as int - 0xF0, q as int - 0x80, r as int - 0x80, t as int - 0x80;
    SixBitDigits(a, b, x, y);
    c := ((a * 64 + b) * 64 + x) * 64 + y;
  }

  /** On an encoded text followed by anything, the count is the number of scalars plus what follows. */
  lemma {:induction false} RuneCountEncoded(cs: seq<Scalar>, rest: Bytes)
    ensures RuneCount(EncodeAll(cs) + rest) == |cs| + RuneCount(rest)
  {
    if cs == [] {
      assert EncodeAll(cs) + rest == rest;
    } else {
      var first, more := Encode(cs[0]), EncodeAll(cs[1..]) + rest;
      assert EncodeAll(cs) + rest == first + more;
      EncodedWidth(cs[0], more);
      assert (first + more)[|first|..] == more;
      RuneCountEncoded(cs[1..], rest);
    }
  }

  // ---- White space, for `strings.TrimSpace` ----

  /** Whether the first rune is one that `unicode.IsSpace` accepts. */
  predicate StartsWithSpace(s: Bytes)
    requires s != []
  {
    match Width(s)
    case 1 => 0x09 <= s[0] <= 0x0D || s[0] == 0x20
    case 2 => s[0] == 0xC2 && (s[1] == 0x85 || s[1] == 0xA0)
    case 3 =>
      || s[..3] == [0xE1, 0x9A, 0x80]
      || (s[0] == 0xE2 && s[1] == 0x80 && (s[2] <= 0x8A || s[2] == 0xA8 || s[2] == 0xA9 || s[2] == 0xAF))
      || s[..3] == [0xE2, 0x81, 0x9F]
      || s[..3] == [0xE3, 0x80, 0x80]
    case _ => false
  }

  /** `strings.TrimSpace(s) == ""`. */
  predicate Blank(s: Bytes) {
    s == [] || (StartsWithSpace(s) && Blank(s[Width(s)..]))
  }

  /** The code points of Unicode's White_Space property. */
  predicate IsSpace(c: Scalar) {
    9 <= c <= 13 || c in {0x20, 0x85, 0xA0, 0x1680, 0x2028, 0x2029, 0x202F, 0x205F, 0x3000} || 0x2000 <= c <= 0x200A
  }

  predicate AllSpaces(cs: seq<Scalar>) {
    forall i :: 0 <= i < |cs| ==> IsSpace(cs[i])
  }

  /** A text starts with a space exactly when its first rune encodes a white-space code point. */
  lemma {:induction false} StartsWithEncodedSpace(c: Scalar, rest: Bytes)
    ensures StartsWithSpace(Encode(c) + rest) <==> IsSpace(c)
  {
    EncodedWidth(c, rest);
    var s := Encode(c) + rest;
    assert s[..|Encode(c)|] == Encode(c);
    if |Encode(c)| == 3 {
      ThreeByteSpace(c);
      assert s[0] == Encode(c)[0] && s[1] == Encode(c)[1] && s[2] == Encode(c)[2];
    }
  }

  lemma {:induction false} ThreeByteSpace(c: Scalar)
    requires 0x800 <= c < 0x1_0000
    ensures var s := Encode(c);
            IsSpace(c) <==>
            || s == [0xE1, 0x9A, 0x80]
            || (s[0] == 0xE2 && s[1] == 0x80 && (s[2] <= 0x8A || s[2] == 0xA8 || s[2] == 0xA9 || s[2] == 0xAF))
            || s == [0xE2, 0x81, 0x9F] || s == [0xE3, 0x80, 0x80]
  {
    var high, middle, low := c / 4096, c / 64 % 64, c % 64;
    assert c == (high * 64 + middle) * 64 + low;
  }

  /** A text is blank exactly when it is the encoding of white space and nothing else. */
  lemma {:induction false} BlankIsSpaces(s: Bytes)
    ensures Blank(s) <==> exists cs :: AllSpaces(cs) && s == EncodeAll(cs)
  {
    if Blank(s) {
      var cs := SpacesOf(s);
    }
    if cs :| AllSpaces(cs) && s == EncodeAll(cs) {
      SpacesAreBlank(cs);
    }
  }

  lemma {:induction false} SpacesOf(s: Bytes) returns (cs: seq<Scalar>)
    requires Blank(s)
    ensures AllSpaces(cs) && s == EncodeAll(cs)
  {
    if s == [] {
      cs := [];
    } else {
      var c := WideRuneIsEncoding(s);
      assert s == Encode(c) + s[Width(s)..];
      StartsWithEncodedSpace(c, s[Width(s)..]);
      var rest := SpacesOf(s[Width(s)..]);
      cs := [c] + rest;
      assert cs[1..] == rest;
    }
  }

  lemma {:induction false} SpacesAreBlank(cs: seq<Scalar>)
    requires AllSpaces(cs)
    ensures Blank(EncodeAll(cs))
  {
    if cs != [] {
      var s := EncodeAll(cs);
      var rest := EncodeAll(cs[1..]);
      SpacesAreBlank(cs[1..]);
      StartsWithEncodedSpace(cs[0], rest);
      EncodedWidth(cs[0], rest);
      assert s[Width(s)..] == rest;
    }
  }
}
