# sni-log: the ClientHello SNI extractor, in Dafny

sni-log captures TCP packets and prints the server name (SNI) that TLS
clients announce in their ClientHello. The part that does the work is
`get_sni` in `src/tls_packet/mod.rs`. After the Ethernet/IP/TCP headers are
stripped, it walks the TCP payload with three cursors:

- `pos` skips a fixed 43-octet prefix, then the length-prefixed
  session_id, cipher_suites and compression_methods fields (sections
  7.4.1.2 and 7.4.1.4 of RFC 5246), and reads the extensions length;
- `ext_pos` walks the extension block one extension at a time;
- `sni_pos` walks the server_name extension (section 3 of RFC 6066).

It returns the first host name it finds if the name is well-formed UTF-8
(section 4 of RFC 3629), and `None` otherwise.

The model takes the TCP payload as a sequence of octets. Its modules:

- `Wire` holds the bounds-checked reads (`get(a..b)?` followed by a
  big-endian decode) and the length-prefixed vectors of RFC 5246.
- `Utf8` holds the UTF-8 grammar that `std::str::from_utf8` checks, and a
  UTF-8 encoder it is proved against.
- `TlsPacket` holds the extractor:
  - the specification functions `Locate` (the `pos` phase), `Step` (one
    loop iteration), `ScanExtensions` (the loop) and `Sni`;
  - the method `GetSni`, which keeps the source's cursors and `while` loop
    and is proved equal to `Sni`.
- `SniProperties` characterises the extractor over all payloads: what is
  skipped, what is read, exactly when it panics and exactly which host name
  it returns.
- `ClientHelloFormat` is a structured ClientHello with its encoder. It proves
  two things. The extractor locates the extension block exactly where the
  encoder puts it, and every located block comes from such an encoding. On
  every well-formed encoding the extractor returns the host name of the
  first server_name extension whose first entry is a host_name. It returns
  `None` when there is no such extension or that name is not well-formed
  UTF-8, and it never panics.
- `SniFixtures` holds the frames of the unit tests and what the extractor
  returns on them.
- `SniFindings` holds the unchecked read of the name-type octet. It has a
  payload on which the code as written panics, and a bounds-checked variant
  that never panics and otherwise agrees with the code.

The result of one call is `Found(hostName)`, `NotFound` (`None`) or `Panic`.
A panic is the indexing at line 73 of `src/tls_packet/mod.rs` going past
the end of the payload.

Where the code and its own comment disagree, the model follows the code.
The comment at line 30 of `src/tls_packet/mod.rs` adds up to 44 octets, but
the code skips 43 and then reads the session_id length at offset 43.
Payloads of 43 octets or fewer therefore give `None`.

## Model

| member | source | states |
|---|---|---|
| Wire.ReadU8 | src/tls_packet/mod.rs:34 | the 1-octet read succeeds exactly when the octet lies inside the payload |
| Wire.ReadU16BE | src/tls_packet/mod.rs:40 | the 2-octet read succeeds exactly when both octets lie inside the payload |
| Wire.ReadU16BEIff | src/tls_packet/mod.rs:52 | `u16::from_be_bytes` gives `v` exactly when the two octets are the big-endian encoding of `v` |
| Wire.ReadSlice | src/tls_packet/mod.rs:78 | the host-name slice exists exactly when it lies inside the payload; it has the requested length and holds the payload's octets at those offsets |
| Utf8.CharWidth | src/tls_packet/mod.rs:78 | the width of a well-formed first character is at most 4 and fits in the input; width 1 exactly for an ASCII octet |
| Utf8.EncodeScalarWidth | src/tls_packet/mod.rs:78 | the grammar `from_utf8` checks reads the encoding of any scalar value as one character of exactly its length |
| Utf8.EncodeValid | src/tls_packet/mod.rs:78 | every encoding of a sequence of scalar values is accepted by `from_utf8` |
| Utf8.ConcatValid | src/tls_packet/mod.rs:78 | accepted octet strings stay accepted when concatenated |
| Utf8.AsciiValid | src/tls_packet/mod.rs:78 | an ASCII host name is always accepted |
| TlsPacket.Locate | src/tls_packet/mod.rs:31-53 | a located extension block starts at least 49 octets in, and no later than the end of the payload |
| TlsPacket.Step | src/tls_packet/mod.rs:60-88 | an iteration that goes on advances `ext_pos` by at least 4; one that returns a host name returns well-formed UTF-8 shorter than 2^16 octets |
| TlsPacket.ScanExtensions | src/tls_packet/mod.rs:59-92 | a host name from the loop is well-formed UTF-8 shorter than 2^16 octets, and the payload holds at least 9 plus its length octets from offset `base + k`, where the loop started (its exact position is stated by `SniProperties.ScanStopsIff` with `SniProperties.StepFoundIff`) |
| TlsPacket.Sni | src/tls_packet/mod.rs:26-92 | a host name `get_sni` returns is well-formed UTF-8 shorter than 2^16 octets |
| TlsPacket.GetSni | src/tls_packet/mod.rs:26-92 | the cursor loop over `pos`, `ext_pos` and `sni_pos` returns exactly what `Sni` specifies, panics included |
| SniProperties.ShortPayloadNotFound | src/tls_packet/mod.rs:31-34 | a payload of at most 43 octets gives `None` |
| SniProperties.StepSkipsOtherTypes | src/tls_packet/mod.rs:65-88 | an extension of type other than 0 is skipped by exactly 4 plus its declared length |
| SniProperties.StepReadsOnlyHeaderOfOtherTypes | src/tls_packet/mod.rs:60-65 | such an extension is read only in its 4 type and length octets: payloads that agree there take the same step, whatever their lengths |
| SniProperties.StepSkipsOtherNameTypes | src/tls_packet/mod.rs:73-88 | a server_name extension whose first entry is not host_name is skipped by its declared length; later entries are not examined |
| SniProperties.StepPanicIff | src/tls_packet/mod.rs:70-73 | an iteration panics exactly when the extension has type 0 and its list-length field ends exactly at the end of the payload |
| SniProperties.StepFoundIff | src/tls_packet/mod.rs:73-81 | an iteration returns `h` exactly when the extension has type 0 and its first entry is host_name `h`: name type 0, the length of `h`, then `h`, which is well-formed UTF-8 |
| SniProperties.StepInvalidNameStops | src/tls_packet/mod.rs:78-79 | a host name that is not well-formed UTF-8 ends the whole call with `None`; later extensions are not tried |
| SniProperties.ScanStep | src/tls_packet/mod.rs:59-88 | before the declared end, the loop either ends with the iteration's result or continues from the cursor the iteration computed |
| SniProperties.ScanStopsIff | src/tls_packet/mod.rs:59-92 | the loop ends in a host name or a panic exactly when it arrives, before the declared end and past skipped extensions only, at an extension whose iteration ends that way |
| SniProperties.SniPanicIff | src/tls_packet/mod.rs:26-92 | `get_sni` panics exactly when its loop arrives at a type-0 extension whose list-length field ends exactly at the end of the payload |
| SniProperties.SniFoundIff | src/tls_packet/mod.rs:26-92 | `get_sni` returns `h` exactly when its loop arrives at a type-0 extension whose first entry is the host_name `h` |
| ClientHelloFormat.LocateFromReads | src/tls_packet/mod.rs:31-53 | the `pos` phase, given the four length fields it reads, places the extension block at 49 octets plus the session_id, cipher_suites and compression_methods lengths, with the read extensions length |
| ClientHelloFormat.LocateHeader | src/tls_packet/mod.rs:31-53 | on an encoded ClientHello header the `pos` phase finds the extension block right after it, with the declared length, whatever follows |
| ClientHelloFormat.LocateInverse | src/tls_packet/mod.rs:31-53 | every block the `pos` phase locates follows an encoded header that declares that length |
| ClientHelloFormat.FieldsOfEncoded | src/tls_packet/mod.rs:60-78 | in the encoding of a well-formed extension, every field the loop reads (type, data length, list length, name type, and for host_name the name length and octets) holds what the encoder put there |
| ClientHelloFormat.StepOfFields | src/tls_packet/mod.rs:60-88 | given those fields, one iteration ends the call with the name (or `None` for a name that is not UTF-8) at a server_name extension whose first entry is host_name, and otherwise advances `ext_pos` by exactly the extension's encoded size |
| ClientHelloFormat.EncodedAtWindow | src/tls_packet/mod.rs:59-88 | in the encoding of a list of well-formed extensions, each extension's fields sit at the sum of the sizes of the extensions before it |
| ClientHelloFormat.StepsOverEncoded | src/tls_packet/mod.rs:59-88 | over extensions laid out that way, every iteration before the first host_name server_name extension skips exactly one extension, and that one ends the call with its name |
| ClientHelloFormat.ScanOfSteps | src/tls_packet/mod.rs:59-92 | taking those steps over a block of their total size, the loop ends with what `ExpectedSni` prescribes |
| ClientHelloFormat.SniOfEncodedBlock | src/tls_packet/mod.rs:26-92 | a payload whose located block declares the total size of extensions laid out that way gives what `ExpectedSni` prescribes |
| ClientHelloFormat.SniOfEncoded | src/tls_packet/mod.rs:26-92 | on any well-formed encoded ClientHello, followed by anything, `get_sni` returns the host name of the first server_name extension whose first entry is host_name, or `None`, and never panics |
| SniFixtures.CapturedHelloGivesHost | src/tls_packet/mod.rs:108-114 | the payload of the captured 583-octet frame gives "ifconfig.co" |
| SniFixtures.CorruptedHelloGivesNone | src/tls_packet/mod.rs:117-123 | with the cipher_suites length set to 0xFFFF the compression_methods read falls off the end and the result is `None` |
| SniFixtures.ZeroPayloadGivesNone | src/tls_packet/mod.rs:99-105 | ten zero octets give `None` |
| SniFindings.PanicPayloadPanics | src/tls_packet/mod.rs:70-73 | a 55-octet payload whose server_name extension ends after its list-length field makes the code as written panic |
| SniFindings.CheckedStep | src/tls_packet/mod.rs:60-88 | one iteration with the name-type octet read through a bounds check never panics, and one that goes on advances `ext_pos` by at least 4 |
| SniFindings.CheckedScan | src/tls_packet/mod.rs:59-92 | the loop over the checked iteration never panics |
| SniFindings.CheckedSni | src/tls_packet/mod.rs:26-92 | with the name-type octet read through a bounds check, the extractor never panics |
| SniFindings.CheckedScanAgrees | src/tls_packet/mod.rs:59-92 | the checked loop gives what the loop as written gives, with a panic turned into `None` |
| SniFindings.CheckedSniAgrees | src/tls_packet/mod.rs:26-92 | wherever the code as written does not panic the checked extractor returns the same, and where it panics the checked one returns `None` |
| SniFindings.PanicPayloadCorrected | src/tls_packet/mod.rs:70-73 | on the payload that panics as written, the checked extractor returns `None` |

## Left out

- Ethernet, IPv4 and TCP decoding (`SlicedPacket::from_ethernet` and the transport match, lines 5-22 of `src/tls_packet/mod.rs`) is done by the external `etherparse` crate. The model starts from the TCP payload. The test frames are cut at offset 66 (14-octet Ethernet header, 20-octet IPv4 header, 32-octet TCP header).
- SniFixtures.ZeroPayloadGivesNone: the unit test hands the ten zero octets to `get_sni` as a frame, where `etherparse` already rejects them. The model states the payload-level fact instead.
- The `println!` diagnostics are output only.
- `src/main.rs` (pcap capture, the BPF filter, the capture loop and printing, the `Codec` copy) is I/O over a foreign library. It is not part of this model.
- The returned `&str` borrows from the payload. The model returns the host-name octets, and `SniFoundIff` states which octets of the payload they are.
- `usize` arithmetic on the cursors is modelled with unbounded integers. The cursors are bounded by the payload length plus at most three 16-bit lengths, so no wrap-around is reachable on real payloads.
- The `expect` calls after each `get(..)?` cannot fail, because each slice has exactly the width being converted. They are not modelled.
- Accept/drop verdicts, blocklists, per-interface workers and kernel-queue callbacks do not exist in this code, so they are not modelled.

## Findings

| source | as written | input that shows it | evidently intended | confidence | as-written member | corrected member |
|---|---|---|---|---|---|---|
| src/tls_packet/mod.rs:73 | the name-type octet is read by indexing, without the bounds check every other read has, so a payload that ends right after a server_name extension's list-length field panics | 43 zero octets, then `00 0000 00 0006 0000 0000 0000` (55 octets in all) | the read goes through `get(..)?` like the others and yields `None` | high (derived by proof; not executed) | SniFindings.PanicPayloadPanics | SniFindings.CheckedSniAgrees |
