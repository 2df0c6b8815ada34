/**
 * The one read of `get_sni` that is not bounds-checked: the name-type octet
 * of a server_name extension is indexed directly (`src/tls_packet/mod.rs`
 * line 73), while every other read goes through `get(..)?` and turns a
 * short payload into `None`. A payload whose server_name extension is cut
 * right after its list-length field therefore makes the extractor panic
 * instead of answering `None`.
 *
 * `PanicPayload` exhibits this on the model of the code as written; the
 * functions `CheckedStep`, `CheckedScan` and `CheckedSni` read that octet
 * like all the others, never panic, and agree with the code as written on
 * every payload on which it does not panic.
 */
module SniFindings {
  import opened Wire
  import opened Utf8
  import opened TlsPacket
  import opened SniProperties

  /**
   * 43 skipped octets, then an empty session_id, empty cipher_suites, empty
   * compression_methods, an extension block of 6 octets, and in it a
   * server_name extension (type 0, length 0) whose list-length field is the
   * last thing in the payload.
   */
  const PanicPayload: seq<Byte> := seq(43, _ => 0) + [0, 0, 0, 0, 0, 6, 0, 0, 0, 0, 0, 0]

  /** As written, the extractor indexes octet 55 of a 55-octet payload. */
  lemma PanicPayloadPanics()
    ensures |PanicPayload| == 55
    ensures Locate(PanicPayload) == Some(ExtensionBlock(49, 6))
    ensures Sni(PanicPayload) == Panic
  {
    var p := PanicPayload;
    assert p[43] == 0 && p[44] == 0 && p[45] == 0 && p[46] == 0 && p[47] == 0 && p[48] == 6;
    assert p[49] == 0 && p[50] == 0;
    StepPanicIff(p, 49, 0);
  }

  /** `Step` with the name-type octet read through the same bounds check as the other fields. */
  function CheckedStep(p: seq<Byte>, base: nat, k: nat): (s: StepResult)
    ensures s.Skip? ==> s.next >= k + 4
    ensures s.Stop? ==> !s.result.Panic?
  {
    match ReadU16BE(p, base + k)
    case None => Stop(NotFound)
    case Some(extType) =>
      match ReadU16BE(p, base + k + 2)
      case None => Stop(NotFound)
      case Some(extLength) =>
        var next := k + 4 + extLength;
        if extType != 0 then Skip(next)
        else
          match ReadU16BE(p, base + k + 4)
          case None => Stop(NotFound)
          case Some(_) =>
            var nameTypeAt := base + k + 6;
            match ReadU8(p, nameTypeAt)
            case None => Stop(NotFound)
            case Some(nameType) =>
              if nameType != 0 then Skip(next)
              else
                match ReadU16BE(p, nameTypeAt + 1)
                case None => Stop(NotFound)
                case Some(hostNameLength) =>
                  match ReadSlice(p, nameTypeAt + 3, hostNameLength)
                  case None => Stop(NotFound)
                  case Some(hostName) =>
                    Stop(if ValidUtf8(hostName) then Found(hostName) else NotFound)
  }

  /** The extension loop over `CheckedStep`. */
  function CheckedScan(p: seq<Byte>, base: nat, k: nat, e: nat): (r: SniResult)
    ensures !r.Panic?
    decreases e - k
  {
    if k >= e then NotFound
    else
      match CheckedStep(p, base, k)
      case Stop(result) => result
      case Skip(next) => CheckedScan(p, base, next, e)
  }

  /** `get_sni` with the name-type read bounds-checked: it never panics. */
  function CheckedSni(p: seq<Byte>): (r: SniResult)
    ensures !r.Panic?
  {
    match Locate(p)
    case None => NotFound
    case Some(block) => CheckedScan(p, block.start, 0, block.length)
  }

  /** What a panic becomes once the read is bounds-checked. */
  function WithoutPanic(r: SniResult): SniResult
  {
    if r.Panic? then NotFound else r
  }

  /**
   * The checked step differs from the step as written only where the
   * latter panics, and there it answers `None`.
   */
  lemma CheckedStepAgrees(p: seq<Byte>, base: nat, k: nat)
    ensures Step(p, base, k).Skip? ==> CheckedStep(p, base, k) == Step(p, base, k)
    ensures Step(p, base, k).Stop? ==> CheckedStep(p, base, k) == Stop(WithoutPanic(Step(p, base, k).result))
  {
  }

  /** The checked loop gives what the loop as written gives, with a panic turned into `None`. */
  lemma {:induction false} CheckedScanAgrees(p: seq<Byte>, base: nat, k: nat, e: nat)
    ensures CheckedScan(p, base, k, e) == WithoutPanic(ScanExtensions(p, base, k, e))
    decreases e - k
  {
    if k < e {
      CheckedStepAgrees(p, base, k);
      if Step(p, base, k).Skip? {
        CheckedScanAgrees(p, base, Step(p, base, k).next, e);
      }
    }
  }

  /**
   * On every payload on which `get_sni` as written does not panic, the
   * checked extractor returns the same; where it panics, the checked one
   * returns `None`.
   */
  lemma CheckedSniAgrees(p: seq<Byte>)
    ensures Sni(p) != Panic ==> CheckedSni(p) == Sni(p)
    ensures Sni(p) == Panic ==> CheckedSni(p) == NotFound
  {
    if Locate(p).Some? {
      CheckedScanAgrees(p, Locate(p).value.start, 0, Locate(p).value.length);
    }
  }

  /** On the payload that makes the code as written panic, the checked extractor answers `None`. */
  lemma PanicPayloadCorrected()
    ensures CheckedSni(PanicPayload) == NotFound
  {
    PanicPayloadPanics();
    CheckedSniAgrees(PanicPayload);
  }
}
