/** The payload kinds and how each writes and reads its body (sections 3.2 to 3.16 of RFC 7296). */
module Payloads {
  import opened Bytes
  import opened SecurityAssociations
  import opened SecurityAssociationProofs
  import opened Notifications
  import opened Deletes
  import Selectors
  import Configurations
  import Eap

  const NO_NEXT: byte := 0
  const TYPE_SA: byte := 33
  const TYPE_KE: byte := 34
  const TYPE_IDI: byte := 35
  const TYPE_IDR: byte := 36
  const TYPE_CERT: byte := 37
  const TYPE_CERTREQ: byte := 38
  const TYPE_AUTH: byte := 39
  const TYPE_NONCE: byte := 40
  const TYPE_N: byte := 41
  const TYPE_D: byte := 42
  const TYPE_V: byte := 43
  const TYPE_TSI: byte := 44
  const TYPE_TSR: byte := 45
  const TYPE_SK: byte := 46
  const TYPE_CP: byte := 47
  const TYPE_EAP: byte := 48

  /** Payloads that are one tag byte, perhaps three reserved bytes, and data. */
  datatype TaggedKind = IDi | IDr | Cert | CertReq | Auth

  /** Payloads that are nothing but data. */
  datatype BareKind = Nonce | VendorId

  datatype Payload =
    | SA(proposals: seq<Proposal>)
    | KE(group: uint16, data: bytes)
    | Tagged(kind: TaggedKind, tag: byte, data: bytes)
    | Bare(bare: BareKind, data: bytes)
    | N(notice: Notice)
    | D(deletion: Deletion)
    | TSi(selectors: seq<Selectors.Selector>)
    | TSr(selectors: seq<Selectors.Selector>)
    | SK(next: byte, data: bytes)
    | CP(cfgType: byte, attributes: seq<Configurations.Attribute>)
    | EAP(packet: Eap.Packet)

  function TaggedType(k: TaggedKind): byte {
    match k
    case IDi => TYPE_IDI
    case IDr => TYPE_IDR
    case Cert => TYPE_CERT
    case CertReq => TYPE_CERTREQ
    case Auth => TYPE_AUTH
  }

  function TypeOf(p: Payload): byte {
    match p
    case SA(_) => TYPE_SA
    case KE(_, _) => TYPE_KE
    case Tagged(k, _, _) => TaggedType(k)
    case Bare(k, _) => if k == Nonce then TYPE_NONCE else TYPE_V
    case N(_) => TYPE_N
    case D(_) => TYPE_D
    case TSi(_) => TYPE_TSI
    case TSr(_) => TYPE_TSR
    case SK(_, _) => TYPE_SK
    case CP(_, _) => TYPE_CP
    case EAP(_) => TYPE_EAP
  }

  predicate KnownType(t: byte) { TYPE_SA <= t <= TYPE_EAP }

  lemma TypeIsKnown(p: Payload)
    ensures KnownType(TypeOf(p))
  {
  }

  /** Certificates have a one-byte header, the other tagged payloads four bytes. */
  function TagLength(k: TaggedKind): byte {
    if k.Cert? || k.CertReq? then 1 else 4
  }

  function Marshal(p: Payload): Outcome<bytes> {
    match p
    case SA(proposals) => ProposalsBytes(proposals)
    case KE(group, data) => Ok([Hi(group), Lo(group), 0, 0] + data)
    case Tagged(k, tag, data) => Ok([tag] + Zeros(TagLength(k) - 1) + data)
    case Bare(_, data) => Ok(data)
    case N(notice) => NoticeBytes(notice)
    case D(deletion) => DeletionBytes(deletion)
    case TSi(selectors) => Selectors.PayloadBytes(selectors)
    case TSr(selectors) => Selectors.PayloadBytes(selectors)
    case SK(_, data) => if data == [] then Error else Ok(data)
    case CP(cfgType, attributes) => Configurations.ConfigurationBytes(cfgType, attributes)
    case EAP(packet) => Eap.PacketBytes(packet)
  }

  function Completed<T, U>(r: Parsed<T>, value: U): Outcome<U> {
    match r.status
    case Done => Ok(value)
    case Failed => Error
    case Faulted => Fault
  }

  function ParseTagged(k: TaggedKind, b: bytes): Outcome<Payload> {
    if b == [] then Ok(Tagged(k, 0, []))
    else if |b| <= TagLength(k) then Error
    else Ok(Tagged(k, b[0], b[TagLength(k)..]))
  }

  function ParseKE(b: bytes): Outcome<Payload> {
    if b == [] then Ok(KE(0, [])) else if |b| <= 4 then Error else Ok(KE(Get16(b, 0), b[4..]))
  }

  function ParseCP(b: bytes): Outcome<Payload> {
    if b == [] then Ok(CP(0, []))
    else if |b| <= 4 then Error
    else
      var r := Configurations.ParseAttributes(b[4..]);
      Completed(r, CP(b[0], r.items))
  }

  /**
   Reads a body of type `t` into a new payload; `next` is the next-payload byte in front of the body, and `behind` are
   the bytes behind it in its array.
   */
  function Unmarshal(t: byte, next: byte, b: bytes, behind: bytes): Outcome<Payload>
    requires KnownType(t)
  {
    if t == TYPE_SA then
      var r := ParseProposals(b);
      Completed(r, SA(r.items))
    else if t == TYPE_KE then ParseKE(b)
    else if t == TYPE_IDI then ParseTagged(IDi, b)
    else if t == TYPE_IDR then ParseTagged(IDr, b)
    else if t == TYPE_CERT then ParseTagged(Cert, b)
    else if t == TYPE_CERTREQ then ParseTagged(CertReq, b)
    else if t == TYPE_AUTH then ParseTagged(Auth, b)
    else if t == TYPE_NONCE then Ok(Bare(Nonce, b))
    else if t == TYPE_N then
      var n :- ParseNotice(b);
      Ok(N(n))
    else if t == TYPE_D then
      var d :- ParseDeletion(b, behind);
      Ok(D(d))
    else if t == TYPE_V then Ok(Bare(VendorId, b))
    else if t == TYPE_TSI then
      var r := Selectors.ParsePayload(b);
      Completed(r, TSi(r.items))
    else if t == TYPE_TSR then
      var r := Selectors.ParsePayload(b);
      Completed(r, TSr(r.items))
    else if t == TYPE_SK then Ok(SK(next, b))
    else if t == TYPE_CP then ParseCP(b)
    else
      var e :- Eap.ParsePacket(b);
      Ok(EAP(e))
  }

  // ----- Round trip

  /** The payloads that the codec gives back. */
  ghost predicate WfPayload(p: Payload) {
    match p
    case SA(proposals) => WfProposals(proposals)
    case KE(_, data) => data != []
    case Tagged(_, _, data) => data != []
    case N(notice) => |notice.spi| <= 251
    case D(deletion) => deletion.spiSize == 4 || deletion.spis == []
    case CP(_, attributes) => attributes != [] && Configurations.WfAttributes(attributes)
    case EAP(packet) => Eap.WfPacket(packet)
    case _ => true
  }

  ghost predicate CarriesStrange(p: Payload) {
    p.EAP? && Eap.Strange(p.packet)
  }

  lemma TaggedRoundTrip(k: TaggedKind, tag: byte, data: bytes)
    ensures ParseTagged(k, [tag] + Zeros(TagLength(k) - 1) + data) == Ok(Tagged(k, tag, data)) <==> data != []
  {
    var b: bytes := [tag] + Zeros(TagLength(k) - 1) + data;
    assert b[TagLength(k)..] == data;
  }

  lemma ConfigurationRoundTrip(cfgType: byte, attributes: seq<Configurations.Attribute>)
    requires Configurations.ConfigurationBytes(cfgType, attributes).Ok?
    ensures ParseCP(Configurations.ConfigurationBytes(cfgType, attributes).value) == Ok(CP(cfgType, attributes))
            <==> attributes != [] && Configurations.WfAttributes(attributes)
  {
    var b := Configurations.ConfigurationBytes(cfgType, attributes).value;
    Configurations.AttributesRoundTrip(attributes);
    assert b[4..] == Configurations.AttributesBytes(attributes).value;
  }

  predicate ReadsBack(p: Payload, next: byte, behind: bytes)
    requires Marshal(p).Ok?
  {
    Unmarshal(TypeOf(p), next, Marshal(p).value, behind) == Ok(p)
  }

  lemma SaReadsBack(proposals: seq<Proposal>, next: byte, behind: bytes)
    requires Marshal(SA(proposals)).Ok?
    ensures ReadsBack(SA(proposals), next, behind) <==> WfProposals(proposals)
  {
    ProposalsRoundTrip(proposals);
  }

  lemma SelectorsReadBack(selectors: seq<Selectors.Selector>, next: byte, behind: bytes)
    requires Selectors.PayloadBytes(selectors).Ok?
    ensures ReadsBack(TSi(selectors), next, behind) && ReadsBack(TSr(selectors), next, behind)
  {
    Selectors.PayloadRoundTrip(selectors);
  }

  lemma NoticeReadsBack(notice: Notice, next: byte, behind: bytes)
    requires Marshal(N(notice)).Ok?
    ensures ReadsBack(N(notice), next, behind) <==> |notice.spi| <= 251
  {
    NoticeRoundTrip(notice);
  }

  lemma DeletionReadsBack(deletion: Deletion, next: byte, behind: bytes)
    requires Marshal(D(deletion)).Ok?
    ensures ReadsBack(D(deletion), next, behind) <==> deletion.spiSize == 4 || deletion.spis == []
  {
    DeletionRoundTrip(deletion, behind);
  }

  lemma OpaqueReadsBack(p: Payload, next: byte, behind: bytes)
    requires p.KE? || p.Tagged? || p.Bare?
    ensures ReadsBack(p, next, behind) <==> p.Bare? || p.data != []
  {
    match p
    case KE(group, data) =>
      var b := Marshal(p).value;
      assert b[4..] == data && Get16(b, 0) == group;
    case Tagged(k, tag, data) => TaggedRoundTrip(k, tag, data);
    case Bare(_, _) =>
  }

  lemma EapBody(packet: Eap.Packet, next: byte, behind: bytes)
    requires Marshal(EAP(packet)).Ok?
    ensures ReadsBack(EAP(packet), next, behind) <==> Eap.ParsePacket(Eap.PacketBytes(packet).value) == Ok(packet)
  {
  }

  lemma EapReadsBack(packet: Eap.Packet, next: byte, behind: bytes)
    requires Marshal(EAP(packet)).Ok?
    ensures Eap.WfPacket(packet) ==> ReadsBack(EAP(packet), next, behind)
    ensures !Eap.Strange(packet) && ReadsBack(EAP(packet), next, behind) ==> Eap.WfPacket(packet)
  {
    EapBody(packet, next, behind);
    Eap.PacketRoundTrip(packet);
  }

  /** A written payload is read back exactly when it is well formed and, for SK, its next-payload byte agrees. */
  lemma PayloadRoundTrip(p: Payload, next: byte, behind: bytes)
    requires Marshal(p).Ok?
    ensures WfPayload(p) && (p.SK? ==> p.next == next) ==> ReadsBack(p, next, behind)
    ensures !CarriesStrange(p) && ReadsBack(p, next, behind) ==> WfPayload(p) && (p.SK? ==> p.next == next)
  {
    match p
    case SA(proposals) => SaReadsBack(proposals, next, behind);
    case KE(_, _) => OpaqueReadsBack(p, next, behind);
    case Tagged(_, _, _) => OpaqueReadsBack(p, next, behind);
    case Bare(_, _) => OpaqueReadsBack(p, next, behind);
    case N(notice) => NoticeReadsBack(notice, next, behind);
    case D(deletion) => DeletionReadsBack(deletion, next, behind);
    case TSi(selectors) => SelectorsReadBack(selectors, next, behind);
    case TSr(selectors) => SelectorsReadBack(selectors, next, behind);
    case SK(_, _) =>
    case CP(cfgType, attributes) => ConfigurationRoundTrip(cfgType, attributes);
    case EAP(packet) => EapReadsBack(packet, next, behind);
  }
}
