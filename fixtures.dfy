/**
 * The frames of the unit tests of `src/tls_packet/mod.rs` and what
 * `get_sni` returns on their TCP payloads. The tests hand whole Ethernet
 * frames to `get_sni`; the model starts at the TCP payload, which in these
 * frames starts at offset 66 (a 14-octet Ethernet header, a 20-octet IPv4
 * header and a 32-octet TCP header with options). The octets are those of
 * the test frames, cut at the fields the extractor reads.
 */
module SniFixtures {
  import opened Wire
  import opened Utf8
  import opened TlsPacket
  import opened SniProperties

  /** Ethernet, IPv4 and TCP headers of the captured frame (66 octets). */
  const FrameHeaders: seq<Byte> := [
      196, 104, 208, 137, 87, 251, 0, 40, 248, 158, 117, 85, 8, 0, 69, 0,
      2, 57, 131, 16, 64, 0, 64, 6, 255, 57, 192, 168, 128, 128, 172, 64,
      201, 11, 191, 16, 1, 187, 213, 80, 4, 147, 80, 223, 65, 122, 128, 24,
      1, 246, 158, 137, 0, 0, 1, 1, 8, 10, 20, 131, 119, 49, 168, 185,
      238, 224
    ]

  /** Record header, handshake header, client_version and random (43 octets). */
  const HelloPrefix: seq<Byte> := [
      22, 3, 1, 2, 0, 1, 0, 1, 252, 3, 3, 46, 100, 91, 225, 60,
      242, 109, 71, 168, 84, 54, 64, 29, 170, 54, 107, 134, 248, 37, 15, 15,
      82, 60, 255, 134, 245, 138, 76, 18, 135, 154, 175
    ]

  /** The 32-octet session_id. */
  const SessionId: seq<Byte> := [
      137, 0, 107, 73, 39, 15, 183, 40, 171, 225, 156, 24, 116, 146, 204, 33,
      95, 162, 210, 50, 105, 3, 57, 254, 180, 23, 202, 190, 235, 103, 65, 123
    ]

  /** The 62 octets of cipher_suites. */
  const CipherSuites: seq<Byte> := [
      19, 2, 19, 3, 19, 1, 192, 44, 192, 48, 0, 159, 204, 169, 204, 168,
      204, 170, 192, 43, 192, 47, 0, 158, 192, 36, 192, 40, 0, 107, 192, 35,
      192, 39, 0, 103, 192, 10, 192, 20, 0, 57, 192, 9, 192, 19, 0, 51,
      0, 157, 0, 156, 0, 61, 0, 60, 0, 53, 0, 47, 0, 255
    ]

  /** "ifconfig.co" in ASCII. */
  const ExpectedHost: seq<Byte> := [105, 102, 99, 111, 110, 102, 105, 103, 46, 99, 111]

  /** The server_name extension: type 0, length 16, list length 14, host_name of length 11. */
  const ServerNameExtension: seq<Byte> := [0, 0, 0, 16, 0, 14, 0, 0, 11] + ExpectedHost

  /** The extensions after server_name (353 octets). */
  const OtherExtensions: seq<Byte> := [
      0, 11, 0, 4, 3, 0, 1, 2, 0, 10, 0, 22, 0, 20, 0, 29,
      0, 23, 0, 30, 0, 25, 0, 24, 1, 0, 1, 1, 1, 2, 1, 3,
      1, 4, 0, 16, 0, 14, 0, 12, 2, 104, 50, 8, 104, 116, 116, 112,
      47, 49, 46, 49, 0, 22, 0, 0, 0, 23, 0, 0, 0, 49, 0, 0,
      0, 13, 0, 42, 0, 40, 4, 3, 5, 3, 6, 3, 8, 7, 8, 8,
      8, 9, 8, 10, 8, 11, 8, 4, 8, 5, 8, 6, 4, 1, 5, 1,
      6, 1, 3, 3, 3, 1, 3, 2, 4, 2, 5, 2, 6, 2, 0, 43,
      0, 9, 8, 3, 4, 3, 3, 3, 2, 3, 1, 0, 45, 0, 2, 1,
      1, 0, 51, 0, 38, 0, 36, 0, 29, 0, 32, 253, 145, 47, 236, 113,
      48, 41, 240, 119, 11, 202, 50, 66, 164, 227, 193, 101, 112, 36, 165, 41,
      178, 170, 60, 180, 183, 209, 90, 174, 9, 90, 14, 0, 21, 0, 178, 0,
      0, 0, 0, 0, 0, 0, 0, 0, 0, 0, 0, 0, 0, 0, 0, 0,
      0, 0, 0, 0, 0, 0, 0, 0, 0, 0, 0, 0, 0, 0, 0, 0,
      0, 0, 0, 0, 0, 0, 0, 0, 0, 0, 0, 0, 0, 0, 0, 0,
      0, 0, 0, 0, 0, 0, 0, 0, 0, 0, 0, 0, 0, 0, 0, 0,
      0, 0, 0, 0, 0, 0, 0, 0, 0, 0, 0, 0, 0, 0, 0, 0,
      0, 0, 0, 0, 0, 0, 0, 0, 0, 0, 0, 0, 0, 0, 0, 0,
      0, 0, 0, 0, 0, 0, 0, 0, 0, 0, 0, 0, 0, 0, 0, 0,
      0, 0, 0, 0, 0, 0, 0, 0, 0, 0, 0, 0, 0, 0, 0, 0,
      0, 0, 0, 0, 0, 0, 0, 0, 0, 0, 0, 0, 0, 0, 0, 0,
      0, 0, 0, 0, 0, 0, 0, 0, 0, 0, 0, 0, 0, 0, 0, 0,
      0, 0, 0, 0, 0, 0, 0, 0, 0, 0, 0, 0, 0, 0, 0, 0,
      0
    ]

  /**
   * The ClientHello payload of the captured frame: session_id length 32,
   * cipher_suites length 62, one compression method (null) and an
   * extension block of 373 octets that starts with server_name.
   */
  const CapturedPayload: seq<Byte> :=
    HelloPrefix + [32] + SessionId + [0, 62] + CipherSuites + [1, 0] + [1, 117] +
    ServerNameExtension + OtherExtensions

  /** The captured Ethernet frame carrying a ClientHello for ifconfig.co. */
  const CapturedFrame: seq<Byte> := FrameHeaders + CapturedPayload

  /**
   * The octets of the corrupted frame after its cipher_suites length, which
   * is overwritten by 0xFF 0xFF (so are the extensions length and one octet
   * of the extensions).
   */
  const CorruptedTail: seq<Byte> := [
      19, 2, 19, 3, 19, 1, 192, 44, 192, 48, 0, 159, 204, 169, 204, 168,
      204, 170, 192, 43, 192, 47, 0, 158, 192, 36, 192, 40, 0, 107, 192, 35,
      192, 39, 0, 103, 192, 10, 192, 20, 0, 57, 192, 9, 192, 19, 0, 51,
      0, 157, 0, 156, 0, 61, 0, 60, 0, 53, 0, 47, 0, 255, 1, 0,
      255, 255, 0, 0, 0, 16, 0, 14, 0, 0, 11, 105, 102, 99, 111, 110,
      102, 105, 103, 46, 99, 111, 0, 11, 0, 4, 3, 0, 1, 2, 0, 10,
      0, 22, 0, 20, 0, 29, 0, 23, 0, 30, 0, 25, 0, 24, 1, 0,
      1, 1, 1, 2, 1, 3, 1, 4, 0, 16, 0, 14, 0, 12, 2, 104,
      50, 8, 104, 116, 116, 112, 47, 49, 46, 49, 0, 22, 0, 0, 0, 23,
      0, 0, 0, 49, 0, 0, 0, 13, 0, 42, 0, 40, 4, 3, 5, 3,
      6, 3, 8, 7, 8, 8, 8, 9, 8, 10, 8, 11, 8, 4, 8, 5,
      8, 6, 4, 1, 5, 1, 6, 1, 3, 3, 3, 1, 3, 2, 4, 2,
      5, 2, 6, 2, 0, 43, 0, 9, 8, 3, 4, 3, 3, 3, 2, 3,
      1, 0, 45, 0, 2, 1, 1, 0, 51, 0, 38, 0, 36, 0, 29, 0,
      255, 253, 145, 47, 236, 113, 48, 41, 240, 119, 11, 202, 50, 66, 164, 227,
      193, 101, 112, 36, 165, 41, 178, 170, 60, 180, 183, 209, 90, 174, 9, 90,
      14, 0, 21, 0, 178, 0, 0, 0, 0, 0, 0, 0, 0, 0, 0, 0,
      0, 0, 0, 0, 0, 0, 0, 0, 0, 0, 0, 0, 0, 0, 0, 0,
      0, 0, 0, 0, 0, 0, 0, 0, 0, 0, 0, 0, 0, 0, 0, 0,
      0, 0, 0, 0, 0, 0, 0, 0, 0, 0, 0, 0, 0, 0, 0, 0,
      0, 0, 0, 0, 0, 0, 0, 0, 0, 0, 0, 0, 0, 0, 0, 0,
      0, 0, 0, 0, 0, 0, 0, 0, 0, 0, 0, 0, 0, 0, 0, 0,
      0, 0, 0, 0, 0, 0, 0, 0, 0, 0, 0, 0, 0, 0, 0, 0,
      0, 0, 0, 0, 0, 0, 0, 0, 0, 0, 0, 0, 0, 0, 0, 0,
      0, 0, 0, 0, 0, 0, 0, 0, 0, 0, 0, 0, 0, 0, 0, 0,
      0, 0, 0, 0, 0, 0, 0, 0, 0, 0, 0, 0, 0, 0, 0, 0,
      0, 0, 0, 0, 0, 0, 0, 0, 0, 0, 0, 0, 0, 0, 0, 0,
      0, 0, 0, 0, 0, 0, 0
    ]

  const CorruptedPayload: seq<Byte> := HelloPrefix + [32] + SessionId + [0xFF, 0xFF] + CorruptedTail

  const CorruptedFrame: seq<Byte> := FrameHeaders + CorruptedPayload

  /** The captured ClientHello gives its server name, "ifconfig.co". */
  lemma CapturedHelloGivesHost()
    ensures |CapturedFrame| == 583 && CapturedFrame[PayloadOffset..] == CapturedPayload
    ensures Sni(CapturedPayload) == Found(ExpectedHost)
  {
    PieceLengths();
    assert CapturedFrame[PayloadOffset..] == CapturedPayload;
    HelloWithServerNameFirst(HelloPrefix, SessionId, CipherSuites, OtherExtensions);
  }

  /**
   * With the cipher_suites length read as 0xFFFF, the compression_methods
   * length lies past the end of the payload and the result is `None`.
   */
  lemma CorruptedHelloGivesNone()
    ensures |CorruptedFrame| == 583 && CorruptedFrame[PayloadOffset..] == CorruptedPayload
    ensures Sni(CorruptedPayload) == NotFound
  {
    PieceLengths();
    assert CorruptedFrame[PayloadOffset..] == CorruptedPayload;
    HelloWithHugeCipherSuites(HelloPrefix, SessionId, CorruptedTail);
  }

  /** Ten zero octets are too short to hold even the session_id length. */
  lemma ZeroPayloadGivesNone()
    ensures Sni(seq(10, _ => 0)) == NotFound
  {
  }

  lemma PieceLengths()
    ensures |FrameHeaders| == PayloadOffset && |HelloPrefix| == PrefixLength
    ensures |SessionId| == 32 && |CipherSuites| == 62
    ensures |OtherExtensions| == 353 && |CorruptedTail| == 439
  {
  }

  /**
   * Any payload laid out like the captured one (same lengths, extension
   * block of 373 octets starting with the same server_name extension) gives
   * "ifconfig.co", whatever the other octets are.
   */
  lemma HelloWithServerNameFirst(prefix: seq<Byte>, sid: seq<Byte>, cs: seq<Byte>, other: seq<Byte>)
    requires |prefix| == 43 && |sid| == 32 && |cs| == 62 && |other| == 353
    ensures Sni(prefix + [32] + sid + [0, 62] + cs + [1, 0] + [1, 117] + ServerNameExtension + other) == Found(ExpectedHost)
  {
    var head := prefix + [32] + sid + [0, 62] + cs + [1, 0] + [1, 117];
    HeadFields(prefix, sid, cs);
    var p := head + ServerNameExtension + other;
    assert p[144..164] == ServerNameExtension;
    LocateCapturedBlock(p);
    assert ValidUtf8(ExpectedHost);
    ServerNameExtensionFields(p);
    StepFindsHost(p, ExpectedHost);
  }

  /** The session_id, cipher_suites, compression_methods and extensions length fields of the captured layout. */
  lemma HeadFields(prefix: seq<Byte>, sid: seq<Byte>, cs: seq<Byte>)
    requires |prefix| == 43 && |sid| == 32 && |cs| == 62
    ensures var head := prefix + [32] + sid + [0, 62] + cs + [1, 0] + [1, 117];
      |head| == 144 && head[43] == 32 && head[76] == 0 && head[77] == 62 &&
      head[140] == 1 && head[142] == 1 && head[143] == 117
  {
  }

  /** With those fields the extension block starts at 144 and declares 373 octets. */
  lemma LocateCapturedBlock(p: seq<Byte>)
    requires |p| >= 144 && p[43] == 32 && p[76] == 0 && p[77] == 62 && p[140] == 1 && p[142] == 1 && p[143] == 117
    ensures Locate(p) == Some(ExtensionBlock(144, 373))
  {
  }

  lemma ServerNameExtensionFields(p: seq<Byte>)
    requires |p| >= 164 && p[144..164] == ServerNameExtension
    ensures p[144] == 0 && p[145] == 0 && p[150] == 0 && p[151] == 0 && p[152] == 11
    ensures p[153..164] == ExpectedHost
  {
    var w := p[144..164];
    assert w[..9] == [0, 0, 0, 16, 0, 14, 0, 0, 11] && w[9..] == ExpectedHost;
  }

  /** The first extension of the block is a server_name whose host_name is the 11 octets `h`. */
  lemma StepFindsHost(p: seq<Byte>, h: seq<Byte>)
    requires |p| >= 164 && |h| == 11 && p[153..164] == h && ValidUtf8(h)
    requires p[144] == 0 && p[145] == 0 && p[150] == 0 && p[151] == 0 && p[152] == 11
    ensures Step(p, 144, 0) == Stop(Found(h))
  {
    assert HostNameAt(p, 153, h);
    StepFoundIff(p, 144, 0, h);
  }

  /** A cipher_suites length of 0xFFFF in a 517-octet payload sends `pos` past its end. */
  lemma HelloWithHugeCipherSuites(prefix: seq<Byte>, sid: seq<Byte>, tail: seq<Byte>)
    requires |prefix| == 43 && |sid| == 32 && |tail| == 439
    ensures Sni(prefix + [32] + sid + [0xFF, 0xFF] + tail) == NotFound
  {
    var p := prefix + [32] + sid + [0xFF, 0xFF] + tail;
    assert |p| == 517 && p[43] == 32 && p[76] == 0xFF && p[77] == 0xFF;
  }

  /** Offset of the TCP payload in the captured frames. */
  const PayloadOffset: nat := 66
}
