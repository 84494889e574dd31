/**
 * encodeURIComponent as defined in section 19.2.6 of ECMA-262 (URI Handling
 * Functions): every character outside the unreserved set is written as the
 * percent-encoded octets of its UTF-8 form, in the style of section 2.1 of
 * RFC 3986. The decoder below follows the same section's Decode operation
 * with an empty reserved set (decodeURIComponent) and is the encoder's partner.
 */
module UriEncoding {
  import opened Optional

  type Byte = b: int | 0 <= b < 256

  /** The characters encodeURIComponent leaves alone: ASCII letters, digits and - _ . ! ~ * ' ( ) */
  predicate IsUnreserved(c: char) {
    ('A' <= c <= 'Z') || ('a' <= c <= 'z') || ('0' <= c <= '9')
    || c == '-' || c == '_' || c == '.' || c == '!' || c == '~' || c == '*' || c == '\'' || c == '(' || c == ')'
  }

  /** An upper-case hexadecimal digit. */
  function HexDigit(d: nat): char
    requires d < 16
  {
    if d < 10 then ('0' as int + d) as char else ('A' as int + d - 10) as char
  }

  predicate IsHexDigit(c: char) {
    ('0' <= c <= '9') || ('A' <= c <= 'F') || ('a' <= c <= 'f')
  }

  function HexValue(c: char): (d: nat)
    requires IsHexDigit(c)
    ensures d < 16
  {
    if '0' <= c <= '9' then c as int - '0' as int
    else if 'A' <= c <= 'F' then c as int - 'A' as int + 10
    else c as int - 'a' as int + 10
  }

  /** The UTF-8 octets of a Unicode scalar value (RFC 3629). */
  function Utf8(c: char): (r: seq<Byte>)
    ensures 1 <= |r| <= 4
    ensures (|r| == 1) <==> (c as int < 0x80)
  {
    var cp := c as int;
    if cp < 0x80 then [cp]
    else if cp < 0x800 then [0xC0 + cp / 64, 0x80 + cp % 64]
    else if cp < 0x10000 then [0xE0 + cp / 4096, 0x80 + cp / 64 % 64, 0x80 + cp % 64]
    else [0xF0 + cp / 262144, 0x80 + cp / 4096 % 64, 0x80 + cp / 64 % 64, 0x80 + cp % 64]
  }

  /** "%XY" for one octet, with upper-case hexadecimal digits. */
  function EscapeByte(b: Byte): string {
    ['%', HexDigit(b / 16), HexDigit(b % 16)]
  }

  function EscapeBytes(bs: seq<Byte>): (r: string)
    ensures |r| == 3 * |bs|
  {
    if bs == [] then [] else EscapeByte(bs[0]) + EscapeBytes(bs[1..])
  }

  function EncodeChar(c: char): string {
    if IsUnreserved(c) then [c] else EscapeBytes(Utf8(c))
  }

  /** encodeURIComponent(s), character by character from the left; it never shortens its input. */
  function EncodeURIComponent(s: string): (r: string)
    ensures |r| >= |s|
  {
    if s == [] then [] else EncodeChar(s[0]) + EncodeURIComponent(s[1..])
  }

  // ---- what the encoder produces ----

  predicate IsUpperHexDigit(c: char) {
    ('0' <= c <= '9') || ('A' <= c <= 'F')
  }

  /** `t` is a sequence of unreserved characters and "%XY" triplets with upper-case hex digits. */
  predicate Escaped(t: string)
    decreases |t|
  {
    if t == [] then true
    else if t[0] == '%' then |t| >= 3 && IsUpperHexDigit(t[1]) && IsUpperHexDigit(t[2]) && Escaped(t[3..])
    else IsUnreserved(t[0]) && Escaped(t[1..])
  }

  lemma EscapedConsOne(c: char, t: string)
    requires c != '%' && IsUnreserved(c) && Escaped(t)
    ensures Escaped([c] + t)
  {
    assert ([c] + t)[1..] == t;
  }

  lemma EscapedConsTriplet(x: string, t: string)
    requires |x| == 3 && x[0] == '%' && IsUpperHexDigit(x[1]) && IsUpperHexDigit(x[2]) && Escaped(t)
    ensures Escaped(x + t)
  {
    assert (x + t)[3..] == t;
  }

  lemma {:induction false} EscapedConcat(a: string, b: string)
    requires Escaped(a) && Escaped(b)
    ensures Escaped(a + b)
    decreases |a|
  {
    if a == [] {
      assert a + b == b;
    } else if a[0] != '%' {
      EscapedConcat(a[1..], b);
      ConsOneAssoc(a, b);
    } else {
      EscapedConcat(a[3..], b);
      ConsTripletAssoc(a, b);
    }
  }

  lemma ConsOneAssoc(a: string, b: string)
    requires a != [] && a[0] != '%' && Escaped(a) && Escaped(a[1..] + b)
    ensures Escaped(a + b)
  {
    EscapedConsOne(a[0], a[1..] + b);
    assert [a[0]] + (a[1..] + b) == a + b;
  }

  lemma ConsTripletAssoc(a: string, b: string)
    requires a != [] && a[0] == '%' && Escaped(a) && Escaped(a[3..] + b)
    ensures Escaped(a + b)
  {
    EscapedConsTriplet(a[..3], a[3..] + b);
    assert a[..3] + (a[3..] + b) == a + b;
  }

  lemma {:induction false} EscapeBytesEscaped(bs: seq<Byte>)
    ensures Escaped(EscapeBytes(bs))
  {
    if bs != [] {
      var e := EscapeByte(bs[0]);
      assert e[3..] == [];
      assert Escaped(e);
      EscapeBytesEscaped(bs[1..]);
      EscapedConcat(e, EscapeBytes(bs[1..]));
    }
  }

  /** The output is made only of unreserved characters and %XY triplets. */
  lemma {:induction false} EncodeEscaped(s: string)
    ensures Escaped(EncodeURIComponent(s))
  {
    if s != [] {
      var c := s[0];
      if IsUnreserved(c) {
        assert [c][1..] == [];
      } else {
        EscapeBytesEscaped(Utf8(c));
      }
      EncodeEscaped(s[1..]);
      EscapedConcat(EncodeChar(c), EncodeURIComponent(s[1..]));
    }
  }

  lemma {:induction false} EscapedAlphabet(t: string)
    requires Escaped(t)
    ensures forall i :: 0 <= i < |t| ==> IsUnreserved(t[i]) || t[i] == '%'
    decreases |t|
  {
    if t != [] {
      if t[0] != '%' {
        EscapedAlphabet(t[1..]);
        assert forall i :: 1 <= i < |t| ==> t[i] == t[1..][i - 1];
      } else {
        EscapedAlphabet(t[3..]);
        assert forall i :: 3 <= i < |t| ==> t[i] == t[3..][i - 3];
      }
    }
  }

  /** Only unreserved characters and '%' appear in the output. */
  lemma EncodeAlphabet(s: string)
    ensures forall c :: c in EncodeURIComponent(s) ==> IsUnreserved(c) || c == '%'
  {
    var t := EncodeURIComponent(s);
    EncodeEscaped(s);
    EscapedAlphabet(t);
    forall c | c in t ensures IsUnreserved(c) || c == '%' {
      var i :| 0 <= i < |t| && t[i] == c;
    }
  }

  /** So none of the URL delimiters & = ? # / (nor a space) survives unencoded. */
  lemma EncodeHidesDelimiters(s: string)
    ensures var t := EncodeURIComponent(s);
      '&' !in t && '=' !in t && '?' !in t && '#' !in t && '/' !in t && ' ' !in t
  {
    EncodeAlphabet(s);
    assert !IsUnreserved('&') && !IsUnreserved('=') && !IsUnreserved('?');
    assert !IsUnreserved('#') && !IsUnreserved('/') && !IsUnreserved(' ');
  }

  lemma {:induction false} EncodeLength(s: string)
    ensures |EncodeURIComponent(s)| >= |s|
    ensures |EncodeURIComponent(s)| == |s| <==> forall i :: 0 <= i < |s| ==> IsUnreserved(s[i])
  {
    if s != [] {
      EncodeLength(s[1..]);
      assert forall i :: 1 <= i < |s| ==> s[i] == s[1..][i - 1];
    }
  }

  /** A string is its own encoding exactly when all its characters are unreserved. */
  lemma {:induction false} EncodeIdentity(s: string)
    ensures EncodeURIComponent(s) == s <==> forall i :: 0 <= i < |s| ==> IsUnreserved(s[i])
  {
    EncodeLength(s);
    if forall i :: 0 <= i < |s| ==> IsUnreserved(s[i]) {
      UnreservedUnchanged(s);
    }
  }

  lemma {:induction false} UnreservedUnchanged(s: string)
    requires forall i :: 0 <= i < |s| ==> IsUnreserved(s[i])
    ensures EncodeURIComponent(s) == s
  {
    if s != [] {
      assert forall i :: 0 <= i < |s[1..]| ==> s[1..][i] == s[i + 1];
      UnreservedUnchanged(s[1..]);
      assert s == [s[0]] + s[1..];
    }
  }

  // ---- the decoder ----

  /** The octet written as "%XY" at index `i` of `t`, if there is one. */
  function ReadByte(t: string, i: nat): Option<Byte> {
    if i + 3 <= |t| && t[i] == '%' && IsHexDigit(t[i + 1]) && IsHexDigit(t[i + 2])
    then Some(HexValue(t[i + 1]) * 16 + HexValue(t[i + 2]))
    else None
  }

  predicate IsContinuation(b: Byte) {
    0x80 <= b < 0xC0
  }

  /**
   * The character whose UTF-8 octets are %-escaped at the start of `t`, and the
   * number of characters of `t` they span; None where decodeURIComponent throws
   * URIError (a bad escape, a bad lead or continuation octet, an overlong form,
   * a surrogate, or a value beyond U+10FFFF).
   */
  function DecodeEscape(t: string): (r: Option<(char, nat)>)
    ensures r.Some? ==> 3 <= r.value.1 <= |t|
  {
    match ReadByte(t, 0)
    case None => None
    case Some(b0) =>
      if b0 < 0x80 then Some((b0 as char, 3))
      else if 0xC0 <= b0 < 0xE0 then
        match ReadByte(t, 3)
        case None => None
        case Some(b1) =>
          if !IsContinuation(b1) then None
          else
            var cp := (b0 - 0xC0) * 64 + (b1 - 0x80);
            if cp < 0x80 then None else Some((cp as char, 6))
      else if 0xE0 <= b0 < 0xF0 then
        match ReadByte(t, 3)
        case None => None
        case Some(b1) =>
          match ReadByte(t, 6)
          case None => None
          case Some(b2) =>
            if !IsContinuation(b1) || !IsContinuation(b2) then None
            else
              var cp := ((b0 - 0xE0) * 64 + (b1 - 0x80)) * 64 + (b2 - 0x80);
              if cp < 0x800 || (0xD800 <= cp < 0xE000) then None else Some((cp as char, 9))
      else if 0xF0 <= b0 < 0xF8 then
        match ReadByte(t, 3)
        case None => None
        case Some(b1) =>
          match ReadByte(t, 6)
          case None => None
          case Some(b2) =>
            match ReadByte(t, 9)
            case None => None
            case Some(b3) =>
              if !IsContinuation(b1) || !IsContinuation(b2) || !IsContinuation(b3) then None
              else
                var cp := (((b0 - 0xF0) * 64 + (b1 - 0x80)) * 64 + (b2 - 0x80)) * 64 + (b3 - 0x80);
                if cp < 0x10000 || cp > 0x10FFFF then None else Some((cp as char, 12))
      else None
  }

  /**
   * decodeURIComponent(t); None where it throws URIError. It never lengthens
   * its input, and a text without '%' decodes to itself.
   */
  function DecodeURIComponent(t: string): (r: Option<string>)
    decreases |t|
    ensures r.Some? ==> |r.value| <= |t|
    ensures '%' !in t ==> r == Some(t)
  {
    if t == [] then Some([])
    else if t[0] != '%' then
      assert t == [t[0]] + t[1..];
      match DecodeURIComponent(t[1..])
      case None => None
      case Some(u) => Some([t[0]] + u)
    else
      match DecodeEscape(t)
      case None => None
      case Some((c, n)) =>
        match DecodeURIComponent(t[n..])
        case None => None
        case Some(u) => Some([c] + u)
  }

  lemma HexDigitValue(d: nat)
    requires d < 16
    ensures IsHexDigit(HexDigit(d)) && HexValue(HexDigit(d)) == d
  {
  }

  lemma HexRoundTrip(b: Byte)
    ensures IsHexDigit(HexDigit(b / 16)) && IsHexDigit(HexDigit(b % 16))
    ensures HexValue(HexDigit(b / 16)) * 16 + HexValue(HexDigit(b % 16)) == b
  {
    HexDigitValue(b / 16);
    HexDigitValue(b % 16);
  }

  lemma {:induction false} EscapeBytesAt(bs: seq<Byte>, k: nat)
    requires k < |bs|
    ensures EscapeBytes(bs)[3 * k..3 * k + 3] == EscapeByte(bs[k])
  {
    if k > 0 {
      EscapeBytesAt(bs[1..], k - 1);
      var e := EscapeBytes(bs);
      assert e == EscapeByte(bs[0]) + EscapeBytes(bs[1..]);
      assert e[3 * k..3 * k + 3] == EscapeBytes(bs[1..])[3 * (k - 1)..3 * (k - 1) + 3];
    }
  }

  /** Reading octet `k` back out of an escaped octet string followed by anything. */
  lemma ReadEscapedByte(bs: seq<Byte>, u: string, k: nat)
    requires k < |bs|
    ensures ReadByte(EscapeBytes(bs) + u, 3 * k) == Some(bs[k])
  {
    var e := EscapeBytes(bs);
    var t := e + u;
    var i := 3 * k;
    var b := bs[k];
    EscapeBytesAt(bs, k);
    assert t[i..i + 3] == e[i..i + 3] == EscapeByte(b);
    HexRoundTrip(b);
    ReadEscapeByte(t, i, b);
  }

  lemma ReadEscapeByte(t: string, i: nat, b: Byte)
    requires i + 3 <= |t| && t[i..i + 3] == EscapeByte(b)
    ensures ReadByte(t, i) == Some(b)
  {
    assert t[i] == '%' && t[i + 1] == HexDigit(b / 16) && t[i + 2] == HexDigit(b % 16) by {
      assert t[i..i + 3][0] == t[i] && t[i..i + 3][1] == t[i + 1] && t[i..i + 3][2] == t[i + 2];
    }
    HexRoundTrip(b);
  }

  /** The escapes of a reserved character decode to that character, consuming exactly them. */
  lemma DecodeEscapedChar(c: char, u: string)
    requires !IsUnreserved(c)
    ensures DecodeEscape(EncodeChar(c) + u) == Some((c, |EncodeChar(c)|))
  {
    var cp := c as int;
    if cp < 0x80 {
      DecodeEscapedOneByte(c, u);
    } else if cp < 0x800 {
      DecodeEscapedTwoBytes(c, u);
    } else if cp < 0x10000 {
      DecodeEscapedThreeBytes(c, u);
    } else {
      DecodeEscapedFourBytes(c, u);
    }
  }

  lemma DecodeEscapedOneByte(c: char, u: string)
    requires !IsUnreserved(c) && c as int < 0x80
    ensures DecodeEscape(EncodeChar(c) + u) == Some((c, |EncodeChar(c)|))
  {
    ReadEscapedByte(Utf8(c), u, 0);
  }

  lemma DecodeEscapedTwoBytes(c: char, u: string)
    requires 0x80 <= c as int < 0x800
    ensures DecodeEscape(EncodeChar(c) + u) == Some((c, |EncodeChar(c)|))
  {
    ReadEscapedByte(Utf8(c), u, 0);
    ReadEscapedByte(Utf8(c), u, 1);
    DecodeTwo(EscapeBytes(Utf8(c)) + u, c as int);
  }

  lemma DecodeEscapedThreeBytes(c: char, u: string)
    requires 0x800 <= c as int < 0x10000
    ensures DecodeEscape(EncodeChar(c) + u) == Some((c, |EncodeChar(c)|))
  {
    ReadEscapedByte(Utf8(c), u, 0);
    ReadEscapedByte(Utf8(c), u, 1);
    ReadEscapedByte(Utf8(c), u, 2);
    DecodeThree(EscapeBytes(Utf8(c)) + u, c as int);
  }

  lemma DecodeEscapedFourBytes(c: char, u: string)
    requires 0x10000 <= c as int
    ensures DecodeEscape(EncodeChar(c) + u) == Some((c, |EncodeChar(c)|))
  {
    ReadEscapedByte(Utf8(c), u, 0);
    ReadEscapedByte(Utf8(c), u, 1);
    ReadEscapedByte(Utf8(c), u, 2);
    ReadEscapedByte(Utf8(c), u, 3);
    DecodeFour(EscapeBytes(Utf8(c)) + u, c as int);
  }

  lemma DecodeTwo(t: string, cp: int)
    requires 0x80 <= cp < 0x800
    requires ReadByte(t, 0) == Some(0xC0 + cp / 64) && ReadByte(t, 3) == Some(0x80 + cp % 64)
    ensures DecodeEscape(t) == Some((cp as char, 6))
  {
    assert (cp / 64) * 64 + cp % 64 == cp;
  }

  lemma DecodeThree(t: string, cp: int)
    requires 0x800 <= cp < 0x10000 && !(0xD800 <= cp < 0xE000)
    requires ReadByte(t, 0) == Some(0xE0 + cp / 4096)
    requires ReadByte(t, 3) == Some(0x80 + cp / 64 % 64) && ReadByte(t, 6) == Some(0x80 + cp % 64)
    ensures DecodeEscape(t) == Some((cp as char, 9))
  {
    var q := cp / 64;
    assert q * 64 + cp % 64 == cp;
    assert (q / 64) * 64 + q % 64 == q;
    assert cp / 4096 == q / 64;
  }

  lemma DecodeFour(t: string, cp: int)
    requires 0x10000 <= cp <= 0x10FFFF
    requires ReadByte(t, 0) == Some(0xF0 + cp / 262144)
    requires ReadByte(t, 3) == Some(0x80 + cp / 4096 % 64)
    requires ReadByte(t, 6) == Some(0x80 + cp / 64 % 64) && ReadByte(t, 9) == Some(0x80 + cp % 64)
    ensures DecodeEscape(t) == Some((cp as char, 12))
  {
    var q := cp / 64;
    var r := q / 64;
    assert q * 64 + cp % 64 == cp;
    assert r * 64 + q % 64 == q;
    assert (r / 64) * 64 + r % 64 == r;
    assert cp / 4096 == r;
    assert cp / 262144 == r / 64;
  }

  /** Decoding an encoding followed by more text decodes the character first. */
  lemma DecodeEncodedChar(c: char, u: string)
    ensures DecodeURIComponent(EncodeChar(c) + u) ==
      match DecodeURIComponent(u)
      case None => None
      case Some(v) => Some([c] + v)
  {
    var t := EncodeChar(c) + u;
    if IsUnreserved(c) {
      assert t[0] == c && t[1..] == u;
    } else {
      DecodeEscapedChar(c, u);
      assert t[0] == '%';
      assert t[|EncodeChar(c)|..] == u;
    }
  }

  /** decodeURIComponent(encodeURIComponent(s)) == s, so the encoding is also injective. */
  lemma {:induction false} EncodeDecodeRoundTrip(s: string)
    ensures DecodeURIComponent(EncodeURIComponent(s)) == Some(s)
  {
    if s != [] {
      EncodeDecodeRoundTrip(s[1..]);
      DecodeEncodedChar(s[0], EncodeURIComponent(s[1..]));
      assert [s[0]] + s[1..] == s;
    }
  }

  lemma EncodeInjective(s: string, s': string)
    requires EncodeURIComponent(s) == EncodeURIComponent(s')
    ensures s == s'
  {
    EncodeDecodeRoundTrip(s);
    EncodeDecodeRoundTrip(s');
  }
}
