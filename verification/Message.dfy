/** The IKE header (section 3.1 of RFC 7296) and a whole message: a header in front of a payload chain. */
module Message {
  import opened Bytes
  import opened Payloads
  import Chain

  const HEADER_LEN := 28

  datatype Header = Header(
    initiatorSpi: uint64,
    responderSpi: uint64,
    majorVersion: byte,
    minorVersion: byte,
    exchangeType: byte,
    flags: byte,
    messageId: uint32,
    nextPayload: byte,
    payloadBytes: bytes)

  /** The two version numbers share a byte; only their low four bits are kept. */
  function VersionByte(major: byte, minor: byte): byte {
    (major % 0x10) * 0x10 + minor % 0x10
  }

  /** The 28 header bytes in front of `total - 28` bytes of payloads. */
  function Prefix(h: Header, total: uint32): bytes {
    Put64(h.initiatorSpi) + Put64(h.responderSpi)
    + [h.nextPayload, VersionByte(h.majorVersion, h.minorVersion), h.exchangeType, h.flags]
    + Put32(h.messageId) + Put32(total)
  }

  function HeaderBytes(h: Header): Outcome<bytes> {
    var total := HEADER_LEN + |h.payloadBytes|;
    if total > 0xFFFF_FFFF then Error else Ok(Prefix(h, total) + h.payloadBytes)
  }

  function ParseHeader(b: bytes): Outcome<Header> {
    if |b| < HEADER_LEN || Get32(b, 24) < HEADER_LEN then Error
    else Ok(Header(Get64(b, 0), Get64(b, 8), b[17] / 0x10, b[17] % 0x10, b[18], b[19], Get32(b, 20), b[16], b[HEADER_LEN..]))
  }

  /** The header as encoding leaves it. */
  function Linked(h: Header, ps: seq<Payload>, payloadBytes: bytes): Header {
    h.(nextPayload := Chain.FirstType(ps), payloadBytes := payloadBytes)
  }

  function Encode(h: Header, ps: seq<Payload>): Outcome<bytes> {
    var payloadBytes :- Chain.Encode(ps);
    HeaderBytes(Linked(h, ps, payloadBytes))
  }

  /** A header without the two fields that encoding sets. */
  function Core(h: Header): Header {
    h.(nextPayload := NO_NEXT, payloadBytes := [])
  }

  lemma EncodeByCore(h: Header, h': Header, ps: seq<Payload>)
    requires Core(h) == Core(h')
    ensures Encode(h, ps) == Encode(h', ps)
  {
    if Chain.Encode(ps).Ok? {
      assert Linked(h, ps, Chain.Encode(ps).value) == Linked(h', ps, Chain.Encode(ps).value);
    }
  }

  /** Decoding the payloads behind a header that names `next`; `spare` stands behind them in their array. */
  function DecodePayload(next: byte, b: bytes, spare: bytes): Parsed<Payload> {
    if next != NO_NEXT && b == [] then Parsed(Failed, []) else Chain.Decode(next, b, spare)
  }

  /** A decoded message; the parts decoded before a failure are dropped. */
  function Decode(b: bytes, spare: bytes): Outcome<(Header, seq<Payload>)> {
    var h :- ParseHeader(b);
    var r := DecodePayload(h.nextPayload, h.payloadBytes, spare);
    Completed(r, (h, r.items))
  }

  // ----- Round trips

  lemma PrefixFields(h: Header, total: uint32, rest: bytes)
    ensures |Prefix(h, total)| == HEADER_LEN
    ensures LaidOut(Prefix(h, total) + rest, h, total) && (Prefix(h, total) + rest)[HEADER_LEN..] == rest
  {
    var b := Prefix(h, total) + rest;
    assert b[0..8] == Put64(h.initiatorSpi);
    assert b[8..16] == Put64(h.responderSpi);
    assert b[20..24] == Put32(h.messageId);
    assert b[24..28] == Put32(total);
    Put64Read(b, 0, h.initiatorSpi);
    Put64Read(b, 8, h.responderSpi);
    Put32Read(b, 20, h.messageId);
    Put32Read(b, 24, total);
  }

  predicate WfVersions(h: Header) {
    h.majorVersion < 0x10 && h.minorVersion < 0x10
  }

  lemma VersionHalves(major: byte, minor: byte)
    ensures VersionByte(major, minor) / 0x10 == major % 0x10 && VersionByte(major, minor) % 0x10 == minor % 0x10
  {
  }

  /** Where each header field sits. */
  predicate LaidOut(b: bytes, h: Header, total: uint32) {
    && |b| >= HEADER_LEN
    && Get64(b, 0) == h.initiatorSpi && Get64(b, 8) == h.responderSpi
    && b[16] == h.nextPayload && b[17] == VersionByte(h.majorVersion, h.minorVersion)
    && b[18] == h.exchangeType && b[19] == h.flags
    && Get32(b, 20) == h.messageId && Get32(b, 24) == total
  }

  lemma ParseLaidOut(b: bytes, h: Header, total: uint32)
    requires LaidOut(b, h, total) && total >= HEADER_LEN
    ensures ParseHeader(b) == Ok(AsRead(h, b[HEADER_LEN..]))
  {
    VersionHalves(h.majorVersion, h.minorVersion);
  }

  /** The header as reading gives it: version numbers cut to four bits, and `rest` behind it. */
  function AsRead(h: Header, rest: bytes): Header {
    h.(majorVersion := h.majorVersion % 0x10, minorVersion := h.minorVersion % 0x10, payloadBytes := rest)
  }

  lemma PrefixParses(h: Header, total: uint32, rest: bytes)
    requires total >= HEADER_LEN
    ensures ParseHeader(Prefix(h, total) + rest) == Ok(AsRead(h, rest))
  {
    PrefixFields(h, total, rest);
    ParseLaidOut(Prefix(h, total) + rest, h, total);
  }

  lemma AsReadSame(h: Header)
    ensures AsRead(h, h.payloadBytes) == h <==> WfVersions(h)
  {
  }

  /** A header that can be written is read back exactly when both version numbers fit in four bits. */
  lemma HeaderRoundTrip(h: Header)
    requires HeaderBytes(h).Ok?
    ensures ParseHeader(HeaderBytes(h).value) == Ok(AsRead(h, h.payloadBytes))
    ensures ParseHeader(HeaderBytes(h).value) == Ok(h) <==> WfVersions(h)
  {
    AsReadSame(h);
    PrefixParses(h, HEADER_LEN + |h.payloadBytes|, h.payloadBytes);
  }

  /** A whole message comes back, header fields and payload list, exactly as its versions and its chain allow. */
  lemma MessageRoundTrip(h: Header, ps: seq<Payload>, spare: bytes)
    requires Encode(h, ps).Ok?
    ensures var sent := Ok((Linked(h, ps, Chain.Encode(ps).value), ps));
            && (WfVersions(h) && Chain.WfChain(ps) ==> Decode(Encode(h, ps).value, spare) == sent)
            && (Chain.NoStrange(ps) && Decode(Encode(h, ps).value, spare) == sent ==> WfVersions(h) && Chain.WfChain(ps))
  {
    var chain := Chain.Encode(ps).value;
    HeaderRoundTrip(Linked(h, ps, chain));
    Chain.ChainRoundTrip(ps, Chain.FirstType(ps), spare);
    if ps != [] {
      EncodedNonEmpty(ps);
    }
  }

  lemma EncodedNonEmpty(ps: seq<Payload>)
    requires ps != [] && Chain.Encode(ps).Ok?
    ensures Chain.Encode(ps).value != []
  {
  }
}
