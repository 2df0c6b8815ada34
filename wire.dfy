/**
 * Octets and the bounds-checked reads the SNI extractor is built from.
 *
 * Every read of `get_sni` except one has the shape
 * `payload.get(a .. a + w)?` followed by a big-endian integer decode:
 * the slice is taken only if it lies inside the payload, and otherwise the
 * whole extraction answers `None`. The functions here are those reads.
 */
module Wire {

  /** One octet of the TCP payload. */
  type Byte = x: int | 0 <= x < 0x100

  /** An unsigned 16-bit value, as produced by `u16::from_be_bytes`. */
  type U16 = x: int | 0 <= x < 0x1_0000

  datatype Option<+T> = None | Some(value: T)

  /** `p.get(at .. at + 1)?` decoded as a `u8`. */
  function ReadU8(p: seq<Byte>, at: nat): (r: Option<Byte>)
    ensures r.Some? <==> at + 1 <= |p|
  {
    if at + 1 <= |p| then Some(p[at]) else None
  }

  /** `p.get(at .. at + 2)?` decoded with `u16::from_be_bytes`. */
  function ReadU16BE(p: seq<Byte>, at: nat): (r: Option<U16>)
    ensures r.Some? <==> at + 2 <= |p|
  {
    if at + 2 <= |p| then Some(p[at] as int * 0x100 + p[at + 1] as int) else None
  }

  /** `p.get(at .. at + n)?`: the `n` octets starting at `at`, if they all lie inside `p`. */
  function ReadSlice(p: seq<Byte>, at: nat, n: nat): (r: Option<seq<Byte>>)
    ensures r.Some? <==> at + n <= |p|
    ensures r.Some? ==> |r.value| == n && forall i :: 0 <= i < n ==> r.value[i] == p[at + i]
  {
    if at + n <= |p| then Some(p[at..at + n]) else None
  }

  /** The big-endian encoding of the low 16 bits of `v` (what `(v as u16).to_be_bytes()` gives). */
  function U16Bytes(v: nat): (b: seq<Byte>)
    ensures |b| == 2
  {
    [(v / 0x100) % 0x100, v % 0x100]
  }

  /** A 16-bit read succeeds with `v` exactly when the two octets there are the encoding of `v`. */
  lemma ReadU16BEIff(p: seq<Byte>, at: nat, v: U16)
    ensures ReadU16BE(p, at) == Some(v) <==> at + 2 <= |p| && p[at..at + 2] == U16Bytes(v)
  {
    if at + 2 <= |p| {
      var hi: int, lo: int := p[at], p[at + 1];
      if hi * 0x100 + lo == v {
        assert v / 0x100 == hi && v % 0x100 == lo;
        assert p[at..at + 2] == [hi, lo];
      }
      if p[at..at + 2] == U16Bytes(v) {
        assert hi == v / 0x100 && lo == v % 0x100;
      }
    }
  }

  /** `s` occurs in `p` at offset `a`, octet by octet. */
  ghost predicate Window(p: seq<Byte>, a: nat, s: seq<Byte>)
    decreases |s|
  {
    if s == [] then a <= |p| else a < |p| && p[a] == s[0] && Window(p, a + 1, s[1..])
  }

  /** A window is the slice of `p` of its length. */
  lemma {:induction false} WindowIff(p: seq<Byte>, a: nat, s: seq<Byte>)
    ensures Window(p, a, s) <==> a + |s| <= |p| && p[a..a + |s|] == s
    decreases |s|
  {
    if s != [] {
      WindowIff(p, a + 1, s[1..]);
      if a + |s| <= |p| {
        assert p[a..a + |s|] == [p[a]] + p[a + 1..a + 1 + |s[1..]|];
      }
    }
  }

  /** A window holding `s + t` holds `s` at its start and `t` right after it. */
  lemma WindowSplit(p: seq<Byte>, a: nat, s: seq<Byte>, t: seq<Byte>)
    requires Window(p, a, s + t)
    ensures Window(p, a, s) && Window(p, a + |s|, t)
  {
    WindowIff(p, a, s + t);
    WindowIff(p, a, s);
    WindowIff(p, a + |s|, t);
    assert p[a..a + |s|] == (s + t)[..|s|];
    assert p[a + |s|..a + |s| + |t|] == (s + t)[|s|..];
  }

  /** `s` occurs at the start of `s + u`. */
  lemma WindowAtStart(s: seq<Byte>, u: seq<Byte>)
    ensures Window(s + u, 0, s)
  {
    WindowIff(s + u, 0, s);
    assert (s + u)[0..|s|] == s;
  }

  /** `t` occurs in `s + t + u` right after `s`. */
  lemma WindowInConcat(s: seq<Byte>, t: seq<Byte>, u: seq<Byte>)
    ensures Window(s + t + u, |s|, t)
  {
    WindowIff(s + t + u, |s|, t);
    assert (s + t + u)[|s|..|s| + |t|] == t;
  }

  /** A window holding five consecutive parts holds each of the last four at its offset. */
  lemma WindowParts(p: seq<Byte>, a: nat, s0: seq<Byte>, s1: seq<Byte>, s2: seq<Byte>, s3: seq<Byte>, s4: seq<Byte>)
    requires Window(p, a, s0 + s1 + s2 + s3 + s4)
    ensures Window(p, a + |s0|, s1)
    ensures Window(p, a + |s0| + |s1|, s2)
    ensures Window(p, a + |s0| + |s1| + |s2|, s3)
    ensures Window(p, a + |s0| + |s1| + |s2| + |s3|, s4)
  {
    WindowSplit(p, a, s0 + s1 + s2 + s3, s4);
    WindowSplit(p, a, s0 + s1 + s2, s3);
    WindowSplit(p, a, s0 + s1, s2);
    WindowSplit(p, a, s0, s1);
  }

  /**
   * A window holds whatever equals its contents. This only substitutes
   * equals; it is stated separately so that callers hand the solver the
   * rewritten window and stay within its resource limits.
   */
  lemma WindowSame(p: seq<Byte>, a: nat, s: seq<Byte>, t: seq<Byte>)
    requires s == t && Window(p, a, s)
    ensures Window(p, a, t)
  {
  }

  /** Reading the encoding of a 16-bit value gives the value back. */
  lemma ReadU16BEWindow(p: seq<Byte>, a: nat, v: U16)
    requires Window(p, a, U16Bytes(v))
    ensures ReadU16BE(p, a) == Some(v)
  {
    WindowIff(p, a, U16Bytes(v));
    ReadU16BEIff(p, a, v);
  }

  /** Slicing out a window gives back its contents. */
  lemma ReadSliceWindow(p: seq<Byte>, a: nat, s: seq<Byte>)
    requires Window(p, a, s)
    ensures ReadSlice(p, a, |s|) == Some(s)
  {
    WindowIff(p, a, s);
  }

  /** A vector with a 1-octet length prefix, `opaque v<0..2^8-1>` in section 4.3 of RFC 5246. */
  function Prefixed8(s: seq<Byte>): (b: seq<Byte>)
    ensures |b| == 1 + |s|
  {
    [|s| % 0x100] + s
  }

  /** A vector with a 2-octet length prefix, `opaque v<0..2^16-1>` in section 4.3 of RFC 5246. */
  function Prefixed16(s: seq<Byte>): (b: seq<Byte>)
    ensures |b| == 2 + |s|
  {
    U16Bytes(|s|) + s
  }

  /** Reading the prefix of a 1-octet-prefixed vector gives its length; its contents follow. */
  lemma ReadPrefixed8(p: seq<Byte>, a: nat, s: seq<Byte>)
    requires Window(p, a, Prefixed8(s)) && |s| < 0x100
    ensures ReadU8(p, a) == Some(|s|) && Window(p, a + 1, s)
  {
    assert |s| % 0x100 == |s|;
    WindowSplit(p, a, [|s|], s);
    WindowIff(p, a, [|s|]);
  }

  /** Reading the prefix of a 2-octet-prefixed vector gives its length; its contents follow. */
  lemma ReadPrefixed16(p: seq<Byte>, a: nat, s: seq<Byte>)
    requires Window(p, a, Prefixed16(s)) && |s| < 0x1_0000
    ensures ReadU16BE(p, a) == Some(|s|) && Window(p, a + 2, s)
  {
    ReadU16BEThen(p, a, |s|, s);
  }

  /** A 16-bit field followed by `s`: the field reads back and `s` follows it. */
  lemma ReadU16BEThen(p: seq<Byte>, a: nat, v: U16, s: seq<Byte>)
    requires Window(p, a, U16Bytes(v) + s)
    ensures ReadU16BE(p, a) == Some(v) && Window(p, a + 2, s)
  {
    WindowSplit(p, a, U16Bytes(v), s);
    ReadU16BEWindow(p, a, v);
  }

  /** Adjacent slices join. */
  lemma SliceJoin(p: seq<Byte>, i: nat, j: nat, k: nat)
    requires i <= j <= k <= |p|
    ensures p[i..j] + p[j..k] == p[i..k]
  {
  }

  /** The octets at `a` are a 1-octet-prefixed vector when the length they declare fits in `p`. */
  lemma SlicePrefixed8(p: seq<Byte>, a: nat)
    requires a < |p| && a + 1 + p[a] <= |p|
    ensures p[a..a + 1 + p[a]] == Prefixed8(p[a + 1..a + 1 + p[a]])
  {
    assert p[a..a + 1 + p[a]] == [p[a]] + p[a + 1..a + 1 + p[a]];
  }

  /** The octets at `a` are a 2-octet-prefixed vector when the length they declare fits in `p`. */
  lemma SlicePrefixed16(p: seq<Byte>, a: nat, n: U16)
    requires ReadU16BE(p, a) == Some(n) && a + 2 + n <= |p|
    ensures p[a..a + 2 + n] == Prefixed16(p[a + 2..a + 2 + n])
  {
    ReadU16BEIff(p, a, n);
    assert p[a..a + 2 + n] == p[a..a + 2] + p[a + 2..a + 2 + n];
  }
}
