/**
 * The SNI extractor `get_sni` of `src/tls_packet/mod.rs`, from the point
 * where it holds the TCP payload of a captured frame.
 *
 * The payload is read as a TLS ClientHello (sections 6.2.1, 7.4.1.2 and
 * 7.4.1.4 of RFC 5246) carrying a server_name extension (section 3 of
 * RFC 6066). The extractor keeps three cursors: `pos`, which walks the
 * fixed-layout part of the ClientHello up to the start of the extension
 * block, `ext_pos`, which walks the extension block, and `sni_pos`, which
 * walks the server_name extension it is looking at. The specification
 * functions below follow the first two phases (`Locate`, then `ScanExtensions`
 * one `Step` per extension); the method `GetSni` is the loop itself.
 */
module TlsPacket {
  import opened Wire
  import opened Utf8

  /**
   * What one call of `get_sni` ends in: `Some(hostName)`, `None`, or a panic
   * (the one read of the extractor that is not bounds-checked, the
   * indexing of the name-type octet, went past the end of the payload).
   */
  datatype SniResult = Found(hostName: seq<Byte>) | NotFound | Panic

  /**
   * The octets the extractor always skips: record header (5), handshake
   * header (4), client_version (2) and random (32).
   */
  const PrefixLength: nat := 43

  /** Where the extension block starts in the payload, and the length it declares. */
  datatype ExtensionBlock = ExtensionBlock(start: nat, length: U16)

  /**
   * The `pos` phase: skip the fixed prefix, then the length-prefixed
   * session_id (1-octet length), cipher_suites (2-octet length) and
   * compression_methods (1-octet length), and read the 2-octet extensions
   * length. `None` as soon as one of those length fields lies beyond the
   * payload; the skipped contents themselves are never read.
   */
  function Locate(p: seq<Byte>): (r: Option<ExtensionBlock>)
    ensures r.Some? ==> PrefixLength + 6 <= r.value.start <= |p|
  {
    var pos := PrefixLength;
    match ReadU8(p, pos)
    case None => None
    case Some(sessionLength) =>
      var pos := pos + 1 + sessionLength;
      match ReadU16BE(p, pos)
      case None => None
      case Some(csLength) =>
        var pos := pos + 2 + csLength;
        match ReadU8(p, pos)
        case None => None
        case Some(cdLength) =>
          var pos := pos + 1 + cdLength;
          match ReadU16BE(p, pos)
          case None => None
          case Some(extensionLength) => Some(ExtensionBlock(pos + 2, extensionLength))
  }

  /** How one iteration of the extension loop ends: with the call's result, or by moving `ext_pos` on. */
  datatype StepResult = Stop(result: SniResult) | Skip(next: nat)

  /**
   * One iteration of the extension loop for the extension whose type field
   * is at `base + k`: read the type and the length; for a type other than 0
   * skip the extension. For server_name (type 0) read the list length, then
   * index the name-type octet WITHOUT a bounds check; for host_name (0) read
   * the name length and the name, and end the call with the name if it is
   * well-formed UTF-8 and with `None` if it is not; for any other name type
   * skip the extension.
   */
  function Step(p: seq<Byte>, base: nat, k: nat): (s: StepResult)
    ensures s.Skip? ==> s.next >= k + 4
    ensures s.Stop? && s.result.Found? ==> ValidUtf8(s.result.hostName) && |s.result.hostName| < 0x1_0000
  {
    match ReadU16BE(p, base + k)
    case None => Stop(NotFound)
    case Some(extType) =>
      match ReadU16BE(p, base + k + 2)
      case None => Stop(NotFound)
      case Some(extLength) =>
        var next := k + 4 + extLength;
        if extType != 0 then Skip(next)
        else
          match ReadU16BE(p, base + k + 4)
          case None => Stop(NotFound)
          case Some(_) =>
            var nameTypeAt := base + k + 6;
            if nameTypeAt >= |p| then Stop(Panic)
            else if p[nameTypeAt] != 0 then Skip(next)
            else
              match ReadU16BE(p, nameTypeAt + 1)
              case None => Stop(NotFound)
              case Some(hostNameLength) =>
                match ReadSlice(p, nameTypeAt + 3, hostNameLength)
                case None => Stop(NotFound)
                case Some(hostName) =>
                  Stop(if ValidUtf8(hostName) then Found(hostName) else NotFound)
  }

  /**
   * The `ext_pos` phase: the extension loop run from cursor `k` over an
   * extension block that starts at `base` and declares length `e`. The loop
   * ends with `None` once the cursor reaches `e`; the reads themselves are
   * bounded by the payload, not by `e`.
   */
  function ScanExtensions(p: seq<Byte>, base: nat, k: nat, e: nat): (r: SniResult)
    ensures r.Found? ==> ValidUtf8(r.hostName) && |r.hostName| < 0x1_0000 && base + k + 9 + |r.hostName| <= |p|
    decreases e - k
  {
    if k >= e then NotFound
    else
      match Step(p, base, k)
      case Stop(result) => result
      case Skip(next) => ScanExtensions(p, base, next, e)
  }

  /** The result of `get_sni` on a TCP payload. */
  function Sni(p: seq<Byte>): (r: SniResult)
    ensures r.Found? ==> ValidUtf8(r.hostName) && |r.hostName| < 0x1_0000
  {
    match Locate(p)
    case None => NotFound
    case Some(block) => ScanExtensions(p, block.start, 0, block.length)
  }

  /** `get_sni` from line 26 on, with its cursors `pos`, `ext_pos` and `sni_pos`. */
  method GetSni(payload: seq<Byte>) returns (r: SniResult)
    ensures r == Sni(payload)
  {
    var pos: nat := 0;
    pos := pos + PrefixLength;

    var sessionLength := ReadU8(payload, pos);
    if sessionLength.None? { return NotFound; }
    pos := pos + 1;
    pos := pos + sessionLength.value;

    var csLength := ReadU16BE(payload, pos);
    if csLength.None? { return NotFound; }
    pos := pos + 2;
    pos := pos + csLength.value;

    var cdLength := ReadU8(payload, pos);
    if cdLength.None? { return NotFound; }
    pos := pos + 1;
    pos := pos + cdLength.value;

    var extensionLength := ReadU16BE(payload, pos);
    if extensionLength.None? { return NotFound; }
    pos := pos + 2;

    var extPos: nat := 0;
    assert Locate(payload) == Some(ExtensionBlock(pos, extensionLength.value));
    while extPos < extensionLength.value
      invariant ScanExtensions(payload, pos, extPos, extensionLength.value) == Sni(payload)
      decreases extensionLength.value - extPos
    {
      ghost var k := extPos;
      var extType := ReadU16BE(payload, pos + extPos);
      if extType.None? { return NotFound; }
      extPos := extPos + 2;
      var extLength := ReadU16BE(payload, pos + extPos);
      if extLength.None? { return NotFound; }
      extPos := extPos + 2;

      if extType.value != 0 {
        // not server_name: skipped below
      } else {
        var sniPos: nat := 0;
        var sniDataLength := ReadU16BE(payload, pos + extPos);
        if sniDataLength.None? { return NotFound; }
        sniPos := sniPos + 2;

        if pos + extPos + sniPos >= |payload| { return Panic; }
        if payload[pos + extPos + sniPos] == 0 {
          sniPos := sniPos + 1;
          var hostNameLength := ReadU16BE(payload, pos + extPos + sniPos);
          if hostNameLength.None? { return NotFound; }
          sniPos := sniPos + 2;
          var hostName := ReadSlice(payload, pos + extPos + sniPos, hostNameLength.value);
          if hostName.None? { return NotFound; }
          assert Step(payload, pos, k) == Stop(if ValidUtf8(hostName.value) then Found(hostName.value) else NotFound);
          if !ValidUtf8(hostName.value) { return NotFound; }
          return Found(hostName.value);
        }
        sniPos := sniPos + 1;
      }

      extPos := extPos + extLength.value;
      assert Step(payload, pos, k) == Skip(extPos);
    }
    return NotFound;
  }
}
