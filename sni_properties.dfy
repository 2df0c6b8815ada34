/**
 * What `get_sni` does, stated over all payloads: when it gives up, which
 * octets it reads in each extension, exactly when it panics and exactly
 * which host name it returns.
 */
module SniProperties {
  import opened Wire
  import opened Utf8
  import opened TlsPacket

  /** A payload too short to hold the session-id length octet at offset 43 gives `None`. */
  lemma ShortPayloadNotFound(p: seq<Byte>)
    requires |p| <= PrefixLength
    ensures Sni(p) == NotFound
  {
  }

  /** An extension whose type is not server_name is skipped by exactly its declared length. */
  lemma StepSkipsOtherTypes(p: seq<Byte>, base: nat, k: nat, extType: U16, extLength: U16)
    requires ReadU16BE(p, base + k) == Some(extType) && extType != 0
    requires ReadU16BE(p, base + k + 2) == Some(extLength)
    ensures Step(p, base, k) == Skip(k + 4 + extLength)
  {
  }

  /**
   * Nothing but the four type and length octets of such an extension is
   * read: two payloads, of any lengths, that agree on them take the same step.
   */
  lemma StepReadsOnlyHeaderOfOtherTypes(p: seq<Byte>, q: seq<Byte>, base: nat, k: nat)
    requires base + k + 4 <= |p| && base + k + 4 <= |q|
    requires p[base + k..base + k + 4] == q[base + k..base + k + 4]
    requires ReadU16BE(p, base + k) != Some(0)
    ensures Step(p, base, k) == Step(q, base, k)
  {
    assert p[base + k] == p[base + k..base + k + 4][0];
    assert p[base + k + 1] == p[base + k..base + k + 4][1];
    assert p[base + k + 2] == p[base + k..base + k + 4][2];
    assert p[base + k + 3] == p[base + k..base + k + 4][3];
  }

  /**
   * A server_name extension whose first entry is not a host_name is skipped
   * by its declared length: the scan goes on with the next extension and no
   * later entry of the list is looked at.
   */
  lemma StepSkipsOtherNameTypes(p: seq<Byte>, base: nat, k: nat, extLength: U16)
    requires ReadU16BE(p, base + k) == Some(0)
    requires ReadU16BE(p, base + k + 2) == Some(extLength)
    requires base + k + 6 < |p| && p[base + k + 6] != 0
    ensures Step(p, base, k) == Skip(k + 4 + extLength)
  {
  }

  /**
   * The unchecked index of the name-type octet goes wrong exactly when the
   * extension has type 0 and its 2-octet list-length field ends exactly at
   * the end of the payload.
   */
  lemma StepPanicIff(p: seq<Byte>, base: nat, k: nat)
    ensures Step(p, base, k) == Stop(Panic) <==> ReadU16BE(p, base + k) == Some(0) && base + k + 6 == |p|
  {
  }

  /**
   * `h` is a host_name entry whose name starts at `s`: a name-type octet 0
   * at `s - 3`, the 2-octet length of `h` at `s - 2`, then the octets of `h`,
   * which are well-formed UTF-8.
   */
  ghost predicate HostNameAt(p: seq<Byte>, s: nat, h: seq<Byte>)
  {
    3 <= s && s + |h| <= |p| && |h| < 0x1_0000 &&
    p[s - 3] == 0 && ReadU16BE(p, s - 2) == Some(|h|) && p[s..s + |h|] == h && ValidUtf8(h)
  }

  /**
   * An extension step returns `h` exactly when the extension has type 0 and
   * `h` is the host name whose octets start 9 octets after the type field
   * (type 2, length 2, list length 2, name type 1, name length 2).
   */
  lemma StepFoundIff(p: seq<Byte>, base: nat, k: nat, h: seq<Byte>)
    ensures Step(p, base, k) == Stop(Found(h)) <==>
              ReadU16BE(p, base + k) == Some(0) && HostNameAt(p, base + k + 9, h)
  {
    var s := base + k + 9;
    if ReadU16BE(p, base + k) == Some(0) && HostNameAt(p, s, h) {
      assert ReadSlice(p, s, |h|) == Some(h);
    }
  }

  /** A host name that is not well-formed UTF-8 ends the whole call with `None`; later extensions are not tried. */
  lemma StepInvalidNameStops(p: seq<Byte>, base: nat, k: nat, n: U16)
    requires ReadU16BE(p, base + k) == Some(0) && base + k + 6 < |p| && p[base + k + 6] == 0
    requires ReadU16BE(p, base + k + 7) == Some(n) && base + k + 9 + n <= |p|
    requires !ValidUtf8(p[base + k + 9..base + k + 9 + n])
    ensures Step(p, base, k) == Stop(NotFound)
  {
  }

  /** One iteration of the extension loop, when the cursor is before the declared end. */
  lemma ScanStep(p: seq<Byte>, base: nat, k: nat, e: nat)
    requires k < e
    ensures Step(p, base, k).Stop? ==> ScanExtensions(p, base, k, e) == Step(p, base, k).result
    ensures Step(p, base, k).Skip? ==> ScanExtensions(p, base, k, e) == ScanExtensions(p, base, Step(p, base, k).next, e)
  {
  }

  /**
   * The scan started at cursor `k` arrives at cursor `j`: `j` is `k`, or
   * the extension at `k` lies before the declared end `e` and is skipped,
   * and the scan from the next cursor arrives at `j`.
   */
  ghost predicate Reaches(p: seq<Byte>, base: nat, k: nat, j: nat, e: nat)
    decreases e - k
  {
    j == k || (k < e && Step(p, base, k).Skip? && Reaches(p, base, Step(p, base, k).next, j, e))
  }

  /**
   * A scan ends in `Found` or `Panic` exactly when it arrives, before the
   * declared end, at an extension whose step ends in that result.
   */
  lemma {:induction false} ScanStopsIff(p: seq<Byte>, base: nat, k: nat, e: nat, o: SniResult)
    requires !o.NotFound?
    ensures ScanExtensions(p, base, k, e) == o <==>
              exists j: nat :: Reaches(p, base, k, j, e) && j < e && Step(p, base, j) == Stop(o)
    decreases e - k
  {
    if k < e {
      var step := Step(p, base, k);
      if step.Skip? {
        ScanStopsIff(p, base, step.next, e, o);
        if ScanExtensions(p, base, k, e) == o {
          var j: nat :| Reaches(p, base, step.next, j, e) && j < e && Step(p, base, j) == Stop(o);
          assert Reaches(p, base, k, j, e);
        }
        if exists j: nat :: Reaches(p, base, k, j, e) && j < e && Step(p, base, j) == Stop(o) {
          var j: nat :| Reaches(p, base, k, j, e) && j < e && Step(p, base, j) == Stop(o);
          assert j != k;
          assert Reaches(p, base, step.next, j, e);
        }
      } else {
        if exists j: nat :: Reaches(p, base, k, j, e) && j < e && Step(p, base, j) == Stop(o) {
          var j: nat :| Reaches(p, base, k, j, e) && j < e && Step(p, base, j) == Stop(o);
          assert j == k;
        }
      }
    } else {
      forall j: nat | Reaches(p, base, k, j, e) ensures j == k {
      }
    }
  }

  /**
   * `get_sni` on `p` starts an iteration of its extension loop at cursor
   * `ext_pos == j`: the extension block was located and every extension
   * before `j` was skipped.
   */
  ghost predicate Visits(p: seq<Byte>, j: nat)
  {
    Locate(p).Some? && j < Locate(p).value.length &&
    Reaches(p, Locate(p).value.start, 0, j, Locate(p).value.length)
  }

  /**
   * `get_sni` panics exactly when its extension loop arrives at a type-0
   * extension whose list-length field ends exactly at the end of the payload.
   */
  lemma SniPanicIff(p: seq<Byte>)
    ensures Sni(p) == Panic <==>
              exists j: nat :: Visits(p, j) && ReadU16BE(p, Locate(p).value.start + j) == Some(0) &&
                          Locate(p).value.start + j + 6 == |p|
  {
    if Locate(p).Some? {
      var b := Locate(p).value;
      if Sni(p) == Panic {
        var j := StopWitness(p, b.start, b.length, Panic);
        StepPanicIff(p, b.start, j);
        assert Visits(p, j);
      }
      if exists j: nat :: Visits(p, j) && ReadU16BE(p, b.start + j) == Some(0) && b.start + j + 6 == |p| {
        var j: nat :| Visits(p, j) && ReadU16BE(p, b.start + j) == Some(0) && b.start + j + 6 == |p|;
        StepPanicIff(p, b.start, j);
        ScanStopsIff(p, b.start, 0, b.length, Panic);
      }
    }
  }

  /**
   * The extension at cursor `j`, visited by the loop of `get_sni`, has type
   * 0 and its first entry is the host name `h` (see `HostNameAt`), whose
   * octets start 9 octets after the extension's type field.
   */
  ghost predicate HostNameExtensionAt(p: seq<Byte>, j: nat, h: seq<Byte>)
  {
    Visits(p, j) && ReadU16BE(p, Locate(p).value.start + j) == Some(0) &&
    HostNameAt(p, Locate(p).value.start + j + 9, h)
  }

  /**
   * `get_sni` returns `h` exactly when its extension loop arrives at a
   * type-0 extension whose first entry is the host name `h`; since every
   * extension before it was skipped, it is the first such extension.
   */
  lemma SniFoundIff(p: seq<Byte>, h: seq<Byte>)
    ensures Sni(p) == Found(h) <==> exists j: nat :: HostNameExtensionAt(p, j, h)
  {
    if Sni(p) == Found(h) {
      var j := FoundWitness(p, h);
    }
    if exists j: nat :: HostNameExtensionAt(p, j, h) {
      var j: nat :| HostNameExtensionAt(p, j, h);
      FoundFromWitness(p, j, h);
    }
  }

  lemma FoundWitness(p: seq<Byte>, h: seq<Byte>) returns (j: nat)
    requires Sni(p) == Found(h)
    ensures HostNameExtensionAt(p, j, h)
  {
    var b := Locate(p).value;
    j := StopWitness(p, b.start, b.length, Found(h));
    StepFoundIff(p, b.start, j, h);
  }

  /** A scan from the start of the block that ends in `o` arrives at an extension whose step ends in `o`. */
  lemma StopWitness(p: seq<Byte>, base: nat, e: nat, o: SniResult) returns (j: nat)
    requires !o.NotFound? && ScanExtensions(p, base, 0, e) == o
    ensures Reaches(p, base, 0, j, e) && j < e && Step(p, base, j) == Stop(o)
  {
    ScanStopsIff(p, base, 0, e, o);
    j :| Reaches(p, base, 0, j, e) && j < e && Step(p, base, j) == Stop(o);
  }

  lemma FoundFromWitness(p: seq<Byte>, j: nat, h: seq<Byte>)
    requires HostNameExtensionAt(p, j, h)
    ensures Sni(p) == Found(h)
  {
    var b := Locate(p).value;
    StepFoundIff(p, b.start, j, h);
    ScanStopsIff(p, b.start, 0, b.length, Found(h));
  }
}
