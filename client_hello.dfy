/**
 * The ClientHello wire format the extractor reads, as an encoder: a
 * structured ClientHello (sections 7.4.1.2 and 7.4.1.4 of RFC 5246, with the
 * server_name extension of section 3 of RFC 6066) and the octets it is sent
 * as. The lemmas relate `get_sni` to this encoder: the fixed-layout part is
 * located exactly where the encoder puts it (and every located block comes
 * from such an encoding), and on every well-formed ClientHello the
 * extractor returns the host name of the first server_name extension
 * whose first entry is a host_name, or `None` when there is no such
 * extension or that name is not well-formed UTF-8, and it never panics.
 */
module ClientHelloFormat {
  import opened Wire
  import opened Utf8
  import opened TlsPacket
  import opened SniProperties

  /** One entry of a server_name list. Name type 0 is host_name. */
  datatype ServerNameEntry = ServerNameEntry(nameType: Byte, name: seq<Byte>)

  /** An extension: server_name (type 0) with its list of names, or any other type with opaque data. */
  datatype Extension =
    | ServerName(entries: seq<ServerNameEntry>)
    | Other(extType: U16, data: seq<Byte>)

  /**
   * The part of a ClientHello before its extensions: the 43 octets the
   * extractor skips (record header, handshake header, client_version,
   * random), session_id, cipher_suites, compression_methods and the declared
   * length of the extension block.
   */
  datatype Header = Header(
    fixed: seq<Byte>,
    sessionId: seq<Byte>,
    cipherSuites: seq<Byte>,
    compressionMethods: seq<Byte>,
    extensionsLength: U16)

  datatype ClientHello = ClientHello(header: Header, extensions: seq<Extension>)

  /** Every field fits its length prefix. */
  predicate HeaderWellFormed(h: Header)
  {
    |h.fixed| == PrefixLength && |h.sessionId| < 0x100 &&
    |h.cipherSuites| < 0x1_0000 && |h.compressionMethods| < 0x100
  }

  function HeaderBytes(h: Header): (b: seq<Byte>)
    ensures HeaderWellFormed(h) ==>
              |b| == PrefixLength + 6 + |h.sessionId| + |h.cipherSuites| + |h.compressionMethods|
  {
    h.fixed + Prefixed8(h.sessionId) + Prefixed16(h.cipherSuites) +
    Prefixed8(h.compressionMethods) + U16Bytes(h.extensionsLength)
  }

  function EntryBytes(n: ServerNameEntry): seq<Byte>
  {
    [n.nameType] + Prefixed16(n.name)
  }

  function EntriesBytes(ns: seq<ServerNameEntry>): seq<Byte>
  {
    if ns == [] then [] else EntryBytes(ns[0]) + EntriesBytes(ns[1..])
  }

  /** An extension: type, then its data as a 2-octet-prefixed vector; server_name data is the prefixed list. */
  function ExtensionBytes(x: Extension): (b: seq<Byte>)
    ensures |b| >= 4
  {
    match x
    case ServerName(ns) => U16Bytes(0) + Prefixed16(Prefixed16(EntriesBytes(ns)))
    case Other(extType, data) => U16Bytes(extType) + Prefixed16(data)
  }

  function ExtensionsBytes(xs: seq<Extension>): seq<Byte>
  {
    if xs == [] then [] else ExtensionBytes(xs[0]) + ExtensionsBytes(xs[1..])
  }

  /**
   * Every length fits its prefix, server_name lists are not empty (as
   * section 3 of RFC 6066 requires), and the other extensions do not use
   * type 0.
   */
  predicate ExtensionWellFormed(x: Extension)
  {
    match x
    case ServerName(ns) =>
      |ns| > 0 && |EntriesBytes(ns)| + 2 < 0x1_0000 &&
      forall i :: 0 <= i < |ns| ==> |ns[i].name| < 0x1_0000
    case Other(extType, data) =>
      extType != 0 && |data| < 0x1_0000
  }

  predicate WellFormed(ch: ClientHello)
  {
    HeaderWellFormed(ch.header) &&
    (forall i :: 0 <= i < |ch.extensions| ==> ExtensionWellFormed(ch.extensions[i])) &&
    ch.header.extensionsLength == |ExtensionsBytes(ch.extensions)|
  }

  function EncodeHello(ch: ClientHello): seq<Byte>
  {
    HeaderBytes(ch.header) + ExtensionsBytes(ch.extensions)
  }

  /** A server_name extension whose first entry is a host_name: the scan ends at it. */
  predicate IsHostNameExtension(x: Extension)
  {
    x.ServerName? && |x.entries| > 0 && x.entries[0].nameType == 0
  }

  /** What the scan ends with at such an extension: the name if it is well-formed UTF-8, `None` otherwise. */
  function HostNameResult(x: Extension): (r: SniResult)
    requires IsHostNameExtension(x)
    ensures !r.Panic?
  {
    var name := x.entries[0].name;
    if ValidUtf8(name) then Found(name) else NotFound
  }

  /**
   * What the extractor should find in a list of extensions: the first
   * server_name extension whose first entry is a host_name decides;
   * server_name extensions whose first entry has another type are passed
   * over, as are all other extensions.
   */
  function ExpectedSni(xs: seq<Extension>): (r: SniResult)
    ensures !r.Panic?
  {
    if xs == [] then NotFound
    else if IsHostNameExtension(xs[0]) then HostNameResult(xs[0])
    else ExpectedSni(xs[1..])
  }

  /**
   * The `pos` phase finds the extension block right after an encoded
   * header, with the length the header declares, whatever follows it.
   */
  lemma LocateHeader(h: Header, rest: seq<Byte>)
    requires HeaderWellFormed(h)
    ensures Locate(HeaderBytes(h) + rest) == Some(ExtensionBlock(|HeaderBytes(h)|, h.extensionsLength))
  {
    var p := HeaderBytes(h) + rest;
    var a0 := h.fixed + Prefixed8(h.sessionId);
    var a1 := a0 + Prefixed16(h.cipherSuites);
    var a2 := a1 + Prefixed8(h.compressionMethods);
    WindowAtStart(HeaderBytes(h), rest);
    HeaderFields(p, h);
    ReadPrefixed8(p, |h.fixed|, h.sessionId);
    ReadPrefixed16(p, |a0|, h.cipherSuites);
    ReadPrefixed8(p, |a1|, h.compressionMethods);
    ReadU16BEWindow(p, |a2|, h.extensionsLength);
    LocateFromReads(p, |h.sessionId|, |h.cipherSuites|, |h.compressionMethods|, h.extensionsLength);
  }

  /** An encoded header holds its four length-prefixed fields one after the other. */
  lemma HeaderFields(p: seq<Byte>, h: Header)
    requires Window(p, 0, HeaderBytes(h))
    ensures Window(p, |h.fixed|, Prefixed8(h.sessionId))
    ensures Window(p, |h.fixed| + |Prefixed8(h.sessionId)|, Prefixed16(h.cipherSuites))
    ensures Window(p, |h.fixed| + |Prefixed8(h.sessionId)| + |Prefixed16(h.cipherSuites)|, Prefixed8(h.compressionMethods))
    ensures Window(p, |h.fixed| + |Prefixed8(h.sessionId)| + |Prefixed16(h.cipherSuites)| +
                      |Prefixed8(h.compressionMethods)|, U16Bytes(h.extensionsLength))
  {
    WindowParts(p, 0, h.fixed, Prefixed8(h.sessionId), Prefixed16(h.cipherSuites),
                Prefixed8(h.compressionMethods), U16Bytes(h.extensionsLength));
  }

  /** The `pos` phase in terms of the four length fields it reads. */
  lemma LocateFromReads(p: seq<Byte>, sessionLength: Byte, csLength: U16, cdLength: Byte, extensionLength: U16)
    requires ReadU8(p, PrefixLength) == Some(sessionLength)
    requires ReadU16BE(p, PrefixLength + 1 + sessionLength) == Some(csLength)
    requires ReadU8(p, PrefixLength + 3 + sessionLength + csLength) == Some(cdLength)
    requires ReadU16BE(p, PrefixLength + 4 + sessionLength + csLength + cdLength) == Some(extensionLength)
    ensures Locate(p) == Some(ExtensionBlock(PrefixLength + 6 + sessionLength + csLength + cdLength, extensionLength))
  {
  }

  /**
   * Conversely, whenever the `pos` phase succeeds, the octets before the
   * extension block are the encoding of a well-formed header declaring
   * the block's length.
   */
  lemma LocateInverse(p: seq<Byte>)
    requires Locate(p).Some?
    ensures exists h :: HeaderWellFormed(h) && HeaderBytes(h) == p[..Locate(p).value.start] &&
                        h.extensionsLength == Locate(p).value.length
  {
    var b := Locate(p).value;
    var csAt := PrefixLength + 1 + p[PrefixLength];
    var csLength := ReadU16BE(p, csAt).value;
    var cdAt := csAt + 2 + csLength;
    var extAt := cdAt + 1 + p[cdAt];
    assert b.start == extAt + 2;
    var h := Header(p[..PrefixLength], p[PrefixLength + 1..csAt], p[csAt + 2..cdAt], p[cdAt + 1..extAt], b.length);
    SlicePrefixed8(p, PrefixLength);
    SlicePrefixed16(p, csAt, csLength);
    SlicePrefixed8(p, cdAt);
    ReadU16BEIff(p, extAt, b.length);
    HeaderFromSlices(p, h, csAt, cdAt, extAt, b.start);
  }

  /** Joining the slices of a located header. */
  lemma HeaderFromSlices(p: seq<Byte>, h: Header, csAt: nat, cdAt: nat, extAt: nat, start: nat)
    requires PrefixLength <= csAt <= cdAt <= extAt && start == extAt + 2 <= |p|
    requires h.fixed == p[..PrefixLength]
    requires p[PrefixLength..csAt] == Prefixed8(h.sessionId)
    requires p[csAt..cdAt] == Prefixed16(h.cipherSuites)
    requires p[cdAt..extAt] == Prefixed8(h.compressionMethods)
    requires p[extAt..start] == U16Bytes(h.extensionsLength)
    ensures HeaderBytes(h) == p[..start]
  {
    SliceJoin(p, 0, PrefixLength, csAt);
    SliceJoin(p, 0, csAt, cdAt);
    SliceJoin(p, 0, cdAt, extAt);
    SliceJoin(p, 0, extAt, start);
  }

  /** The number of octets an extension takes, computed from its fields. */
  function ExtensionSize(x: Extension): (n: nat)
    ensures n >= 4
  {
    match x
    case ServerName(ns) => 6 + EntriesSize(ns)
    case Other(_, data) => 4 + |data|
  }

  function EntriesSize(ns: seq<ServerNameEntry>): nat
  {
    if ns == [] then 0 else 3 + |ns[0].name| + EntriesSize(ns[1..])
  }

  function ExtensionsSize(xs: seq<Extension>): nat
  {
    if xs == [] then 0 else ExtensionSize(xs[0]) + ExtensionsSize(xs[1..])
  }

  lemma {:induction false} EntriesSizeIsLength(ns: seq<ServerNameEntry>)
    ensures |EntriesBytes(ns)| == EntriesSize(ns)
  {
    if ns != [] {
      EntriesSizeIsLength(ns[1..]);
    }
  }

  lemma ExtensionSizeIsLength(x: Extension)
    ensures |ExtensionBytes(x)| == ExtensionSize(x)
  {
    if x.ServerName? {
      EntriesSizeIsLength(x.entries);
    }
  }

  lemma {:induction false} ExtensionsSizeIsLength(xs: seq<Extension>)
    ensures |ExtensionsBytes(xs)| == ExtensionsSize(xs)
  {
    if xs != [] {
      ExtensionSizeIsLength(xs[0]);
      ExtensionsSizeIsLength(xs[1..]);
    }
  }

  /**
   * The fields `get_sni` reads from an extension, as the encoder lays them
   * out at offset `a`: the type and the length of the data; for server_name
   * also the list length and the name type of the first entry, and for a
   * host_name first entry its length and octets.
   */
  ghost predicate FieldsAt(p: seq<Byte>, a: nat, x: Extension)
  {
    match x
    case Other(extType, data) =>
      extType != 0 && ReadU16BE(p, a) == Some(extType) && ReadU16BE(p, a + 2) == Some(|data|)
    case ServerName(ns) =>
      |ns| > 0 && ReadU16BE(p, a) == Some(0) &&
      ReadU16BE(p, a + 2).Some? && ReadU16BE(p, a + 2).value == ExtensionSize(x) - 4 &&
      ReadU16BE(p, a + 4).Some? && ReadU16BE(p, a + 4).value == ExtensionSize(x) - 6 &&
      a + 6 < |p| && p[a + 6] == ns[0].nameType &&
      (ns[0].nameType == 0 ==>
         ReadU16BE(p, a + 7) == Some(|ns[0].name|) && ReadSlice(p, a + 9, |ns[0].name|) == Some(ns[0].name))
  }

  /** An encoded well-formed extension holds the fields `FieldsAt` describes. */
  lemma FieldsOfEncoded(p: seq<Byte>, a: nat, x: Extension)
    requires ExtensionWellFormed(x)
    requires Window(p, a, ExtensionBytes(x))
    ensures FieldsAt(p, a, x)
  {
    if x.Other? {
      FieldsOfOther(p, a, x.extType, x.data);
    } else {
      EntriesSizeIsLength(x.entries);
      FieldsOfServerName(p, a, x.entries);
    }
  }

  lemma FieldsOfOther(p: seq<Byte>, a: nat, extType: U16, data: seq<Byte>)
    requires |data| < 0x1_0000
    requires Window(p, a, U16Bytes(extType) + Prefixed16(data))
    ensures ReadU16BE(p, a) == Some(extType) && ReadU16BE(p, a + 2) == Some(|data|)
  {
    WindowSplit(p, a, U16Bytes(extType), Prefixed16(data));
    ReadU16BEWindow(p, a, extType);
    ReadPrefixed16(p, a + 2, data);
  }

  lemma FieldsOfServerName(p: seq<Byte>, a: nat, ns: seq<ServerNameEntry>)
    requires |ns| > 0 && |EntriesBytes(ns)| + 2 < 0x1_0000 && |ns[0].name| < 0x1_0000
    requires Window(p, a, U16Bytes(0) + Prefixed16(Prefixed16(EntriesBytes(ns))))
    ensures ReadU16BE(p, a) == Some(0) && ReadU16BE(p, a + 2) == Some(|EntriesBytes(ns)| + 2)
    ensures ReadU16BE(p, a + 4) == Some(|EntriesBytes(ns)|) && a + 6 < |p| && p[a + 6] == ns[0].nameType
    ensures ns[0].nameType == 0 ==>
              ReadU16BE(p, a + 7) == Some(|ns[0].name|) && ReadSlice(p, a + 9, |ns[0].name|) == Some(ns[0].name)
  {
    ServerNameHeader(p, a, EntriesBytes(ns));
    EntriesBytesCons(ns);
    FirstEntry(p, a + 6, ns[0], EntriesBytes(ns[1..]), EntriesBytes(ns));
  }

  /** The type, data length and list length of a server_name extension; the list follows. */
  lemma ServerNameHeader(p: seq<Byte>, a: nat, list: seq<Byte>)
    requires |list| + 2 < 0x1_0000
    requires Window(p, a, U16Bytes(0) + Prefixed16(Prefixed16(list)))
    ensures ReadU16BE(p, a) == Some(0) && ReadU16BE(p, a + 2) == Some(|list| + 2)
    ensures ReadU16BE(p, a + 4) == Some(|list|) && Window(p, a + 6, list)
  {
    WindowSplit(p, a, U16Bytes(0), Prefixed16(Prefixed16(list)));
    ReadU16BEWindow(p, a, 0);
    ReadPrefixed16(p, a + 2, Prefixed16(list));
    ReadPrefixed16(p, a + 4, list);
  }

  /**
   * One unfolding of `EntriesBytes`. It restates the definition; it is a
   * lemma of its own so that the caller's proof stays within the solver's
   * resource limits.
   */
  lemma EntriesBytesCons(ns: seq<ServerNameEntry>)
    requires ns != []
    ensures EntriesBytes(ns) == EntryBytes(ns[0]) + EntriesBytes(ns[1..])
  {
  }

  /** The name type of an entry at offset `b`, and for any entry its name length and octets. */
  lemma FirstEntry(p: seq<Byte>, b: nat, n: ServerNameEntry, rest: seq<Byte>, list: seq<Byte>)
    requires |n.name| < 0x1_0000
    requires Window(p, b, list) && list == EntryBytes(n) + rest
    ensures b < |p| && p[b] == n.nameType
    ensures ReadU16BE(p, b + 1) == Some(|n.name|) && ReadSlice(p, b + 3, |n.name|) == Some(n.name)
  {
    assert list == [n.nameType] + (Prefixed16(n.name) + rest);
    WindowSplit(p, b, [n.nameType], Prefixed16(n.name) + rest);
    WindowSplit(p, b + 1, Prefixed16(n.name), rest);
    ReadPrefixed16(p, b + 1, n.name);
    ReadSliceWindow(p, b + 3, n.name);
  }

  /**
   * From the fields alone, one iteration of the loop: it ends the call with
   * `HostNameResult` at a host-name server_name extension and skips any
   * other extension whole.
   */
  lemma StepOfFields(p: seq<Byte>, base: nat, k: nat, x: Extension)
    requires FieldsAt(p, base + k, x)
    ensures IsHostNameExtension(x) ==> Step(p, base, k) == Stop(HostNameResult(x))
    ensures !IsHostNameExtension(x) ==> Step(p, base, k) == Skip(k + ExtensionSize(x))
  {
    if x.Other? {
      StepSkipsOtherTypes(p, base, k, x.extType, |x.data|);
    } else if !IsHostNameExtension(x) {
      StepSkipsOtherNameTypes(p, base, k, ExtensionSize(x) - 4);
    } else {
      var name := x.entries[0].name;
      if ValidUtf8(name) {
        StepFoundIff(p, base, k, name);
      } else {
        StepInvalidNameStops(p, base, k, |name|);
      }
    }
  }

  /**
   * The extensions `xs` lie one after the other from offset `a` of `p`,
   * each with the fields `FieldsAt` describes.
   */
  ghost predicate EncodedAt(p: seq<Byte>, a: nat, xs: seq<Extension>)
    decreases xs
  {
    xs == [] || (FieldsAt(p, a, xs[0]) && EncodedAt(p, a + ExtensionSize(xs[0]), xs[1..]))
  }

  /** The encoding of a list of well-formed extensions holds the fields of each, one after the other. */
  lemma {:induction false} EncodedAtWindow(p: seq<Byte>, a: nat, xs: seq<Extension>)
    requires forall i :: 0 <= i < |xs| ==> ExtensionWellFormed(xs[i])
    requires Window(p, a, ExtensionsBytes(xs))
    ensures EncodedAt(p, a, xs)
    decreases |xs|, 2
  {
    if xs != [] {
      ExtensionsBytesCons(xs);
      WindowSame(p, a, ExtensionsBytes(xs), ExtensionBytes(xs[0]) + ExtensionsBytes(xs[1..]));
      EncodedAtFirst(p, a, xs[0], xs[1..]);
      EncodedAtCons(p, a, xs);
    }
  }

  /** The same, for the encoding of `x` followed by the encoding of `rest`. */
  lemma {:induction false} EncodedAtFirst(p: seq<Byte>, a: nat, x: Extension, rest: seq<Extension>)
    requires ExtensionWellFormed(x) && forall i :: 0 <= i < |rest| ==> ExtensionWellFormed(rest[i])
    requires Window(p, a, ExtensionBytes(x) + ExtensionsBytes(rest))
    ensures FieldsAt(p, a, x) && EncodedAt(p, a + ExtensionSize(x), rest)
    decreases |rest| + 1, 1
  {
    FirstFields(p, a, x, rest);
    EncodedAtRest(p, a, x, rest);
  }

  lemma FirstFields(p: seq<Byte>, a: nat, x: Extension, rest: seq<Extension>)
    requires ExtensionWellFormed(x)
    requires Window(p, a, ExtensionBytes(x) + ExtensionsBytes(rest))
    ensures FieldsAt(p, a, x)
  {
    WindowSplit(p, a, ExtensionBytes(x), ExtensionsBytes(rest));
    FieldsOfEncoded(p, a, x);
  }

  lemma {:induction false} EncodedAtRest(p: seq<Byte>, a: nat, x: Extension, rest: seq<Extension>)
    requires forall i :: 0 <= i < |rest| ==> ExtensionWellFormed(rest[i])
    requires Window(p, a, ExtensionBytes(x) + ExtensionsBytes(rest))
    ensures EncodedAt(p, a + ExtensionSize(x), rest)
    decreases |rest| + 1, 0
  {
    RestWindow(p, a, x, rest);
    EncodedAtWindow(p, a + ExtensionSize(x), rest);
  }

  lemma RestWindow(p: seq<Byte>, a: nat, x: Extension, rest: seq<Extension>)
    requires Window(p, a, ExtensionBytes(x) + ExtensionsBytes(rest))
    ensures Window(p, a + ExtensionSize(x), ExtensionsBytes(rest))
  {
    WindowSplit(p, a, ExtensionBytes(x), ExtensionsBytes(rest));
    ExtensionSizeIsLength(x);
  }

  /**
   * One folding of `EncodedAt`. It restates the definition; it is a lemma
   * of its own so that `EncodedAtWindow` stays within the solver's
   * resource limits.
   */
  lemma EncodedAtCons(p: seq<Byte>, a: nat, xs: seq<Extension>)
    requires xs != [] && FieldsAt(p, a, xs[0]) && EncodedAt(p, a + ExtensionSize(xs[0]), xs[1..])
    ensures EncodedAt(p, a, xs)
  {
  }

  /**
   * One unfolding of `ExtensionsBytes`. It restates the definition; it is
   * a lemma of its own so that `EncodedAtWindow` stays within the solver's
   * resource limits.
   */
  lemma ExtensionsBytesCons(xs: seq<Extension>)
    requires xs != []
    ensures ExtensionsBytes(xs) == ExtensionBytes(xs[0]) + ExtensionsBytes(xs[1..])
  {
  }

  /**
   * The steps the scan takes from cursor `k` over the extensions `xs`, one
   * per extension: a step that ends the scan with `HostNameResult` at the
   * first host-name server_name extension, and a step past each extension
   * before it.
   */
  ghost predicate StepsOver(p: seq<Byte>, base: nat, k: nat, xs: seq<Extension>)
    decreases xs
  {
    xs == [] ||
    if IsHostNameExtension(xs[0]) then Step(p, base, k) == Stop(HostNameResult(xs[0]))
    else Step(p, base, k) == Skip(k + ExtensionSize(xs[0])) && StepsOver(p, base, k + ExtensionSize(xs[0]), xs[1..])
  }

  /** Over extensions laid out as `EncodedAt` says, the scan takes exactly those steps. */
  lemma {:induction false} StepsOverEncoded(p: seq<Byte>, base: nat, k: nat, xs: seq<Extension>)
    requires EncodedAt(p, base + k, xs)
    ensures StepsOver(p, base, k, xs)
    decreases xs
  {
    if xs != [] {
      StepOfFields(p, base, k, xs[0]);
      if !IsHostNameExtension(xs[0]) {
        StepsOverEncoded(p, base, k + ExtensionSize(xs[0]), xs[1..]);
      }
    }
  }

  /**
   * Taking those steps over a block of exactly their total size, the scan
   * ends with what `ExpectedSni` prescribes.
   */
  lemma {:induction false} ScanOfSteps(p: seq<Byte>, base: nat, k: nat, xs: seq<Extension>)
    requires StepsOver(p, base, k, xs)
    ensures ScanExtensions(p, base, k, k + ExtensionsSize(xs)) == ExpectedSni(xs)
    decreases xs
  {
    if xs != [] && !IsHostNameExtension(xs[0]) {
      ScanOfSteps(p, base, k + ExtensionSize(xs[0]), xs[1..]);
    }
  }

  /**
   * Round trip: on the encoding of a well-formed ClientHello, followed by
   * anything, `get_sni` returns the host name `ExpectedSni` picks out of the
   * extensions; in particular it never panics on such a payload.
   */
  lemma SniOfEncoded(ch: ClientHello, trailer: seq<Byte>)
    requires WellFormed(ch)
    ensures Sni(EncodeHello(ch) + trailer) == ExpectedSni(ch.extensions)
    ensures Sni(EncodeHello(ch) + trailer) != Panic
  {
    var p, xs := EncodeHello(ch) + trailer, ch.extensions;
    var base := |HeaderBytes(ch.header)|;
    assert BlockAt(p, base, ExtensionsSize(xs)) && EncodedAt(p, base, xs) by {
      var b := EncodedBlock(ch, trailer);
    }
    SniOfEncodedBlock(p, base, xs);
  }

  /** The `pos` phase locates an extension block at `start` declaring `length` octets. */
  ghost predicate BlockAt(p: seq<Byte>, start: nat, length: nat)
  {
    Locate(p).Some? && Locate(p).value.start == start && Locate(p).value.length == length
  }

  /** A payload whose located extension block holds the extensions `xs`, laid out as `EncodedAt` says. */
  lemma SniOfEncodedBlock(p: seq<Byte>, base: nat, xs: seq<Extension>)
    requires BlockAt(p, base, ExtensionsSize(xs))
    requires EncodedAt(p, base, xs)
    ensures Sni(p) == ExpectedSni(xs)
  {
    StepsOverEncoded(p, base, 0, xs);
    ScanOfSteps(p, base, 0, xs);
  }

  /** In an encoded ClientHello the extension block holds the encoded extensions and declares their total size. */
  lemma EncodedBlock(ch: ClientHello, trailer: seq<Byte>) returns (base: nat)
    requires WellFormed(ch)
    ensures base == |HeaderBytes(ch.header)|
    ensures BlockAt(EncodeHello(ch) + trailer, base, ExtensionsSize(ch.extensions))
    ensures EncodedAt(EncodeHello(ch) + trailer, base, ch.extensions)
  {
    var hb, eb := HeaderBytes(ch.header), ExtensionsBytes(ch.extensions);
    var p := EncodeHello(ch) + trailer;
    assert p == hb + (eb + trailer);
    LocateHeader(ch.header, eb + trailer);
    WindowInConcat(hb, eb, trailer);
    ExtensionsSizeIsLength(ch.extensions);
    EncodedAtWindow(p, |hb|, ch.extensions);
    base := |hb|;
  }
}
