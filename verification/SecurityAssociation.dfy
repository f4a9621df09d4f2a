/**
 The Security Association payload (section 3.3 of RFC 7296): a list of proposals, each of which
 nests a list of transforms that decoding regroups by transform type.
 */
module SecurityAssociations {
  import opened Bytes

  const ENCR: byte := 1
  const PRF: byte := 2
  const INTEG: byte := 3
  const DH: byte := 4
  const ESN: byte := 5

  datatype Transform = Transform(
    transformType: byte,
    transformId: uint16,
    attributePresent: bool,
    attributeFormat: byte,
    attributeType: uint16,
    attributeValue: uint16,
    variableLengthValue: bytes)

  datatype Proposal = Proposal(
    number: byte,
    protocolId: byte,
    spi: bytes,
    encr: seq<Transform>,
    prf: seq<Transform>,
    integ: seq<Transform>,
    dh: seq<Transform>,
    esn: seq<Transform>)
  {
    /** The transforms in the order in which they are written. */
    function All(): seq<Transform> {
      encr + prf + integ + dh + esn
    }
  }

  // ----- Encoding

  /** The 16-bit value `((format & 1) << 15) | kind`. */
  function FormatAndType(format: byte, kind: uint16): uint16 {
    if format % 2 == 1 then 0x8000 + kind % 0x8000 else kind
  }

  function AttributeBytes(t: Transform): Outcome<bytes> {
    var tag := FormatAndType(t.attributeFormat, t.attributeType);
    if !t.attributePresent then Ok([])
    else if t.attributeFormat != 0 then
      Ok([Hi(tag), Lo(tag), Hi(t.attributeValue), Lo(t.attributeValue)])
    else if 0 < |t.variableLengthValue| <= 0xFFFF then
      var n := |t.variableLengthValue|;
      Ok([Hi(tag), Lo(tag), Hi(n), Lo(n)] + t.variableLengthValue)
    else Error
  }

  function TransformBytes(t: Transform, more: bool): Outcome<bytes> {
    var attribute :- AttributeBytes(t);
    var n := 8 + |attribute|;
    if n > 0xFFFF then Error
    else Ok([if more then 3 else 0, 0, Hi(n), Lo(n), t.transformType, 0, Hi(t.transformId), Lo(t.transformId)] + attribute)
  }

  function TransformsBytes(ts: seq<Transform>): Outcome<bytes> {
    if ts == [] then Ok([])
    else
      var head :- TransformBytes(ts[0], |ts| > 1);
      After(head, TransformsBytes(ts[1..]))
  }

  function ProposalHeader(p: Proposal, more: bool, n: uint16, spiSize: byte, count: byte): bytes {
    [if more then 2 else 0, 0, Hi(n), Lo(n), p.number, p.protocolId, spiSize, count]
  }

  function ProposalBytes(p: Proposal, more: bool): Outcome<bytes> {
    if |p.spi| > 0xFF || p.All() == [] || |p.All()| > 0xFF then Error
    else
      var transforms :- TransformsBytes(p.All());
      var n := 8 + |p.spi| + |transforms|;
      if n > 0xFFFF then Error
      else Ok(ProposalHeader(p, more, n, |p.spi|, |p.All()|) + p.spi + transforms)
  }

  function ProposalsBytes(ps: seq<Proposal>): Outcome<bytes> {
    if ps == [] then Ok([])
    else
      var head :- ProposalBytes(ps[0], |ps| > 1);
      After(head, ProposalsBytes(ps[1..]))
  }

  // ----- Decoding

  /** The transform at the front of `d`, and how many bytes it occupies. */
  function ParseTransform(d: bytes): (r: Outcome<(Transform, nat)>)
    ensures r.Ok? ==> 8 <= r.value.1 <= |d|
  {
    if |d| < 8 then Error
    else
      var n := Get16(d, 2);
      if n < 8 || |d| < n then Error
      else if n == 8 then Ok((Transform(d[4], Get16(d, 6), false, 0, 0, 0, []), n))
      else if |d| < 12 then Error
      else if d[8] >= 0x80 then Ok((Transform(d[4], Get16(d, 6), true, 1, d[9] % 0x80, Get16(d, 10), []), n))
      else
        var end := (12 + Get16(d, 10)) % 0x1_0000;
        if end != n then Error
        else if end < 12 then Fault
        else Ok((Transform(d[4], Get16(d, 6), true, 0, d[9] % 0x80, 0, []), n))
  }

  /** All transforms of a proposal, in wire order and with unknown types kept. */
  function ParseTransforms(d: bytes): Parsed<Transform> {
    if d == [] then Parsed(Done, [])
    else
      match ParseTransform(d)
      case Ok((t, n)) => ParseTransforms(d[n..]).After([t])
      case o => Parsed(StatusOf(o), [])
  }

  /** The transforms of one type, in order. */
  function OfType(ts: seq<Transform>, k: byte): seq<Transform> {
    if ts == [] then []
    else (if ts[0].transformType == k then [ts[0]] else []) + OfType(ts[1..], k)
  }

  /** A proposal whose buckets hold the transforms of `ts` type by type. */
  function Bucketed(number: byte, protocolId: byte, spi: bytes, ts: seq<Transform>): Proposal {
    Proposal(number, protocolId, spi,
             OfType(ts, ENCR), OfType(ts, PRF), OfType(ts, INTEG), OfType(ts, DH), OfType(ts, ESN))
  }

  /** The end of the SPI as computed with 8-bit wrap-around. */
  function SpiEnd(spiSize: byte): byte {
    (8 + spiSize as int) % 0x100
  }

  /** The proposal at the front of `b`, and how many bytes it occupies. */
  function ParseProposal(b: bytes): (r: Outcome<(Proposal, nat)>)
    ensures r.Ok? ==> 8 <= r.value.1 <= |b|
  {
    if |b| < 8 then Error
    else
      var n, end := Get16(b, 2), SpiEnd(b[6]);
      if n < 8 || |b| < n || |b| < end then Error
      else if end < 8 || n < end then Fault
      else
        var transforms := ParseTransforms(b[end..n]);
        match transforms.status
        case Done => Ok((Bucketed(b[4], b[5], b[8..end], transforms.items), n))
        case Failed => Error
        case Faulted => Fault
  }

  function ParseProposals(b: bytes): Parsed<Proposal> {
    if b == [] then Parsed(Done, [])
    else
      match ParseProposal(b)
      case Ok((p, n)) => ParseProposals(b[n..]).After([p])
      case o => Parsed(StatusOf(o), [])
  }
}
