/**
 * Well-formed UTF-8, as defined by the UTF8-octets grammar of section 4 of
 * RFC 3629. This is the check `std::str::from_utf8` performs on the host
 * name before `get_sni` hands it back: overlong forms, surrogates
 * (U+D800..U+DFFF) and values above U+10FFFF are rejected.
 */
module Utf8 {
  import opened Wire

  /** UTF8-tail = %x80-BF */
  predicate IsTail(b: Byte)
  {
    0x80 <= b <= 0xBF
  }

  /**
   * The number of octets of the well-formed character at the start of `s`,
   * or 0 if `s` does not start with one (section 4 of RFC 3629:
   * UTF8-1, UTF8-2, UTF8-3 and UTF8-4 with their restricted second octets).
   */
  function CharWidth(s: seq<Byte>): (w: nat)
    ensures w <= 4 && w <= |s|
    ensures w == 1 <==> |s| > 0 && s[0] < 0x80
  {
    if |s| == 0 then 0
    else if s[0] <= 0x7F then 1
    else if 0xC2 <= s[0] <= 0xDF then
      (if |s| >= 2 && IsTail(s[1]) then 2 else 0)
    else if s[0] == 0xE0 then
      (if |s| >= 3 && 0xA0 <= s[1] <= 0xBF && IsTail(s[2]) then 3 else 0)
    else if 0xE1 <= s[0] <= 0xEC || 0xEE <= s[0] <= 0xEF then
      (if |s| >= 3 && IsTail(s[1]) && IsTail(s[2]) then 3 else 0)
    else if s[0] == 0xED then
      (if |s| >= 3 && 0x80 <= s[1] <= 0x9F && IsTail(s[2]) then 3 else 0)
    else if s[0] == 0xF0 then
      (if |s| >= 4 && 0x90 <= s[1] <= 0xBF && IsTail(s[2]) && IsTail(s[3]) then 4 else 0)
    else if 0xF1 <= s[0] <= 0xF3 then
      (if |s| >= 4 && IsTail(s[1]) && IsTail(s[2]) && IsTail(s[3]) then 4 else 0)
    else if s[0] == 0xF4 then
      (if |s| >= 4 && 0x80 <= s[1] <= 0x8F && IsTail(s[2]) && IsTail(s[3]) then 4 else 0)
    else 0
  }

  /** UTF8-octets = *( UTF8-char ) */
  predicate ValidUtf8(s: seq<Byte>)
    decreases |s|
  {
    |s| == 0 || (CharWidth(s) > 0 && ValidUtf8(s[CharWidth(s)..]))
  }

  /** A Unicode scalar value: a code point that is not a surrogate. */
  predicate IsScalar(c: nat)
  {
    c < 0xD800 || 0xDFFF < c <= 0x10FFFF
  }

  /** The UTF-8 encoding of one scalar value (the table of section 3 of RFC 3629). */
  function EncodeScalar(c: nat): (b: seq<Byte>)
    requires IsScalar(c)
    ensures 1 <= |b| <= 4
  {
    if c < 0x80 then [c]
    else if c < 0x800 then [0xC0 + c / 0x40, 0x80 + c % 0x40]
    else if c < 0x1_0000 then
      [0xE0 + c / 0x1000, 0x80 + (c / 0x40) % 0x40, 0x80 + c % 0x40]
    else
      [0xF0 + c / 0x4_0000, 0x80 + (c / 0x1000) % 0x40, 0x80 + (c / 0x40) % 0x40, 0x80 + c % 0x40]
  }

  /** The encoding of a sequence of scalar values. */
  function Encode(cs: seq<nat>): (b: seq<Byte>)
    requires forall i :: 0 <= i < |cs| ==> IsScalar(cs[i])
    ensures |cs| <= |b| <= 4 * |cs|
  {
    if cs == [] then [] else EncodeScalar(cs[0]) + Encode(cs[1..])
  }

  /** The grammar recognises the encoding of any scalar value as exactly one character. */
  lemma EncodeScalarWidth(c: nat, rest: seq<Byte>)
    requires IsScalar(c)
    ensures CharWidth(EncodeScalar(c) + rest) == |EncodeScalar(c)|
  {
    if c < 0x80 {
    } else if c < 0x800 {
      TwoOctetWidth(c, rest);
    } else if c < 0x1_0000 {
      ThreeOctetWidth(c, rest);
    } else {
      FourOctetWidth(c, rest);
    }
  }

  lemma TwoOctetWidth(c: nat, rest: seq<Byte>)
    requires 0x80 <= c < 0x800
    ensures CharWidth(EncodeScalar(c) + rest) == 2
  {
    var s := EncodeScalar(c) + rest;
    assert 0xC2 <= s[0] <= 0xDF && IsTail(s[1]);
  }

  lemma ThreeOctetWidth(c: nat, rest: seq<Byte>)
    requires 0x800 <= c < 0x1_0000 && IsScalar(c)
    ensures CharWidth(EncodeScalar(c) + rest) == 3
  {
    var s := EncodeScalar(c) + rest;
    var lead := c / 0x1000;
    assert 0 <= lead <= 0xF;
    assert IsTail(s[1]) && IsTail(s[2]);
    if lead == 0 {
      assert c / 0x40 >= 0x20;
      assert 0xA0 <= s[1];
    } else if lead == 0xD {
      assert c < 0xD800;
      assert (c / 0x40) % 0x40 < 0x20;
      assert s[1] <= 0x9F;
    }
  }

  lemma FourOctetWidth(c: nat, rest: seq<Byte>)
    requires 0x1_0000 <= c <= 0x10FFFF
    ensures CharWidth(EncodeScalar(c) + rest) == 4
  {
    var s := EncodeScalar(c) + rest;
    var lead := c / 0x4_0000;
    assert 0 <= lead <= 4;
    assert IsTail(s[1]) && IsTail(s[2]) && IsTail(s[3]);
    if lead == 0 {
      assert (c / 0x1000) % 0x40 >= 0x10;
      assert 0x90 <= s[1];
    } else if lead == 4 {
      assert (c / 0x1000) % 0x40 < 0x10;
      assert s[1] <= 0x8F;
    }
  }

  /** Every sequence of scalar values encodes to well-formed UTF-8. */
  lemma {:induction false} EncodeValid(cs: seq<nat>)
    requires forall i :: 0 <= i < |cs| ==> IsScalar(cs[i])
    ensures ValidUtf8(Encode(cs))
  {
    if cs != [] {
      var head := EncodeScalar(cs[0]);
      EncodeScalarWidth(cs[0], Encode(cs[1..]));
      assert (head + Encode(cs[1..]))[|head|..] == Encode(cs[1..]);
      EncodeValid(cs[1..]);
    }
  }

  /** Well-formed UTF-8 is closed under concatenation. */
  lemma {:induction false} ConcatValid(s: seq<Byte>, t: seq<Byte>)
    requires ValidUtf8(s) && ValidUtf8(t)
    ensures ValidUtf8(s + t)
    decreases |s|
  {
    if |s| > 0 {
      var w := CharWidth(s);
      assert (s + t)[..w] == s[..w];
      CharWidthPrefix(s, s + t, w);
      assert (s + t)[w..] == s[w..] + t;
      ConcatValid(s[w..], t);
    } else {
      assert s + t == t;
    }
  }

  /** The width of the first character depends only on its own octets. */
  lemma CharWidthPrefix(s: seq<Byte>, t: seq<Byte>, w: nat)
    requires w == CharWidth(s) && 0 < w <= |t| && s[..w] == t[..w]
    ensures CharWidth(t) == w
  {
    assert forall i :: 0 <= i < w ==> s[i] == t[i] by {
      forall i | 0 <= i < w ensures s[i] == t[i] {
        assert s[..w][i] == t[..w][i];
      }
    }
  }

  /** Octets below 0x80 (ASCII, such as a DNS host name) are well-formed UTF-8. */
  lemma {:induction false} AsciiValid(s: seq<Byte>)
    requires forall i :: 0 <= i < |s| ==> s[i] < 0x80
    ensures ValidUtf8(s)
    decreases |s|
  {
    if |s| > 0 {
      AsciiValid(s[1..]);
    }
  }
}
