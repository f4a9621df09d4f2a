/** Inputs that reach the failing side of the exact conditions: each is accepted by the encoder and does not come back. */
module Witnesses {
  import opened Bytes
  import opened SecurityAssociations
  import opened SecurityAssociationProofs
  import opened AkaPrime
  import opened AkaPrimeProofs
  import opened AkaPrimeExact
  import opened Deletes
  import opened Notifications
  import opened Payloads
  import Chain

  /** A cipher transform without attribute. */
  const PLAIN := Transform(ENCR, 12, false, 0, 0, 0, [])

  /** A proposal with a 248-byte SPI. */
  const LONG_SPI := Proposal(1, 3, Zeros(248), [PLAIN], [], [], [], [])

  lemma OneTransform(t: Transform)
    requires TransformBytes(t, false).Ok?
    ensures TransformsBytes([t]) == TransformBytes(t, false)
  {
    var b := TransformBytes(t, false).value;
    assert [t][1..] == [] && b + [] == b;
  }

  lemma OneProposal(p: Proposal)
    requires ProposalBytes(p, false).Ok?
    ensures ProposalsBytes([p]) == ProposalBytes(p, false)
  {
    var b := ProposalBytes(p, false).value;
    assert [p][1..] == [] && b + [] == b;
  }

  lemma LongSpiLost()
    ensures ProposalsBytes([LONG_SPI]).Ok?
    ensures ParseProposals(ProposalsBytes([LONG_SPI]).value) != Parsed(Done, [LONG_SPI])
  {
    assert LONG_SPI.All() == [PLAIN];
    OneTransform(PLAIN);
    OneProposal(LONG_SPI);
    ProposalsRoundTrip([LONG_SPI]);
    assert !WfProposal([LONG_SPI][0]);
  }

  /** A transform whose attribute carries its value behind a length. */
  const TLV := Transform(ENCR, 12, true, 0, 14, 0, [1, 0])

  lemma LengthValueLost()
    ensures TransformsBytes([TLV]).Ok? && ParseTransforms(TransformsBytes([TLV]).value) != Parsed(Done, [TLV])
  {
    OneTransform(TLV);
    TransformsRoundTrip([TLV]);
    assert !WfTransform([TLV][0]);
  }

  /** A deletion with an SPI size of 5. */
  const WIDE := Deletion(3, 5, 1, [7])

  lemma WideSpiLost(behind: bytes)
    ensures DeletionBytes(WIDE).Ok? && ParseDeletion(DeletionBytes(WIDE).value, behind) != Ok(WIDE)
  {
    DeletionRoundTrip(WIDE, behind);
  }

  /** A notification with a 252-byte SPI. */
  const LONG_NOTICE := Notice(3, 11, Zeros(252), [])

  lemma LongNoticeLost()
    ensures NoticeBytes(LONG_NOTICE).Ok? && ParseNotice(NoticeBytes(LONG_NOTICE).value) != Ok(LONG_NOTICE)
  {
    NoticeRoundTrip(LONG_NOTICE);
  }

  /** A Delete frame with one byte where its SPI should be, and a frame of an unknown type. */
  const SHORT := Chain.Frame(TYPE_D, 0, [3, 1, 0, 1, 7])
  const UNKNOWN := Chain.Frame(200, 0, [])

  /** What the short Delete reads where `behind` stands behind it. */
  lemma ShortRead(behind: bytes)
    ensures var o := Payloads.Unmarshal(TYPE_D, NO_NEXT, SHORT.body, behind);
            if |behind| < 3 then o == Fault else o == Ok(D(Deletion(3, 1, 1, [Get32([7] + behind, 0)])))
  {
    assert SHORT.body[4..] == [7];
  }

  lemma OneFrame(last: byte)
    ensures Chain.Fits([UNKNOWN]) && Chain.Render([UNKNOWN], last) == [last, 0, 0, 4]
  {
    assert [UNKNOWN][1..] == [];
  }

  /** The short Delete takes the first bytes of the unknown payload behind it as the rest of its SPI. */
  lemma ShortReadOn()
    ensures Chain.Fits([SHORT, UNKNOWN]) && Chain.Skippable([SHORT, UNKNOWN])
    ensures Chain.Decode(TYPE_D, Chain.Render([SHORT, UNKNOWN], NO_NEXT), [])
         == Parsed(Done, [D(Deletion(3, 1, 1, [0x0700_0000]))])
  {
    var with := [SHORT, UNKNOWN];
    assert with[1..] == [UNKNOWN] && [UNKNOWN][1..] == [];
    OneFrame(NO_NEXT);
    var behind: bytes := [0, 0, 0, 4];
    assert behind + [] == behind;
    ShortRead(behind);
    assert ([7] + behind)[0..4] == [7, 0, 0, 0];
    FourBytesValue();
    Chain.RenderedDecodes(with, NO_NEXT, []);
    assert Chain.Bodies([UNKNOWN], NO_NEXT, []) == Parsed(Done, []);
  }

  /** Without the unknown payload, and nothing else behind it, it faults. */
  lemma ShortAloneFaults()
    ensures Chain.KnownFrames([SHORT, UNKNOWN]) == [SHORT] && Chain.Fits([SHORT])
    ensures Chain.Decode(TYPE_D, Chain.Render([SHORT], NO_NEXT), []).status == Faulted
  {
    ShortIsKnown();
    ShortBody();
    Chain.RenderedDecodes([SHORT], NO_NEXT, []);
  }

  lemma ShortIsKnown()
    ensures Chain.KnownFrames([SHORT, UNKNOWN]) == [SHORT]
  {
    assert [SHORT, UNKNOWN][1..] == [UNKNOWN] && [UNKNOWN][1..] == [];
    assert Chain.KnownFrames([UNKNOWN]) == [];
  }

  lemma ShortBody()
    ensures Chain.Fits([SHORT]) && Chain.Bodies([SHORT], NO_NEXT, []).status == Faulted
  {
    assert [SHORT][1..] == [];
    var none: bytes := [];
    assert Chain.Render([], NO_NEXT) + none == none;
    ShortRead(none);
  }

  lemma FourBytesValue()
    ensures Value([7, 0, 0, 0]) == 0x0700_0000
  {
    var b: bytes := [7, 0, 0, 0];
    assert b[..3] == [7, 0, 0] && b[..3][..2] == [7, 0] && b[..3][..2][..1] == [7];
    assert Value([7, 0, 0]) == Value([7, 0]) * 0x100;
  }

  /** The bytes of the wide deletion. */
  lemma WideBytes()
    ensures DeletionBytes(WIDE) == Ok([3, 5, 0, 1, 0, 0, 0, 7, 0])
  {
    assert [7 as uint32][1..] == [];
    assert Put32(7) == [0, 0, 0, 7] by {
      assert BigEndian(7 / 0x100, 3) == BigEndian(0, 2) + [0] && BigEndian(0, 2) == BigEndian(0, 1) + [0];
    }
    assert SpisBytes(5, [7]) == [0, 0, 0, 7] + Zeros(1) + SpisBytes(5, []) == [0, 0, 0, 7, 0];
    assert [3, 5, Hi(1), Lo(1)] + [0, 0, 0, 7, 0] == [3, 5, 0, 1, 0, 0, 0, 7, 0];
  }

  lemma OneEncoded(p: Payload, body: bytes)
    requires Marshal(p) == Ok(body) && !p.SK? && 4 + |body| <= 0xFFFF
    ensures Chain.Encode([p]) == Chain.Framed(NO_NEXT, body)
  {
    assert [p][1..] == [];
    var b := Chain.Framed(NO_NEXT, body).value;
    assert b + [] == b;
  }

  /** A wide deletion at the end of a chain is read with a second SPI made of what stands behind the chain. */
  lemma WideReadOn(spare: bytes)
    requires |spare| >= 3
    ensures Chain.Encode([D(WIDE)]).Ok?
    ensures Chain.Decode(TYPE_D, Chain.Encode([D(WIDE)]).value, spare)
         == Parsed(Done, [D(Deletion(3, 5, 1, [7, Get32([0] + spare, 0)]))])
  {
    WideBytes();
    WideRead(spare);
    SentAndRead(WIDE, [3, 5, 0, 1, 0, 0, 0, 7, 0], spare, Deletion(3, 5, 1, [7, Get32([0] + spare, 0)]));
  }

  lemma SentAndRead(d: Deletion, body: bytes, spare: bytes, read: Deletion)
    requires DeletionBytes(d) == Ok(body) && 4 + |body| <= 0xFFFF && ParseDeletion(body, spare) == Ok(read)
    ensures Chain.Encode([D(d)]).Ok? && Chain.Decode(TYPE_D, Chain.Encode([D(d)]).value, spare) == Parsed(Done, [D(read)])
  {
    OneEncoded(D(d), body);
    LastDecoded(body, spare, read);
  }

  lemma LastDecoded(body: bytes, spare: bytes, d: Deletion)
    requires 4 + |body| <= 0xFFFF && ParseDeletion(body, spare) == Ok(d)
    ensures Chain.Decode(TYPE_D, Chain.Framed(NO_NEXT, body).value, spare) == Parsed(Done, [D(d)])
  {
    var b := Chain.Framed(NO_NEXT, body).value;
    assert b + [] == b && [] + spare == spare;
    Chain.DecodeFrame(TYPE_D, NO_NEXT, body, [], spare);
    assert [D(d)] + [] == [D(d)];
  }

  lemma WideRead(behind: bytes)
    requires |behind| >= 3
    ensures ParseDeletion([3, 5, 0, 1, 0, 0, 0, 7, 0], behind) == Ok(Deletion(3, 5, 1, [7, Get32([0] + behind, 0)]))
  {
    var b: bytes := [3, 5, 0, 1, 0, 0, 0, 7, 0];
    assert b[4..] == [0, 0, 0, 7, 0] && b[4..][4..] == [0];
    var word: bytes := [0, 0, 0, 7];
    assert b[4..][0..4] == word && word[..3] == [0, 0, 0] && word[..3][..2] == [0, 0] && word[..3][..2][..1] == [0];
    assert Value([0, 0, 0]) == 0 && Value(word) == 7;
    assert ParseSpis([0], behind) == Parsed(Done, [Get32([0] + behind, 0)]);
    assert [7] + [Get32([0] + behind, 0)] == [7, Get32([0] + behind, 0)];
  }

  /** One accepted call whose value does not fit is not delivered. */
  lemma OneCallLost(t: byte, v: bytes, receiver: Store)
    requires MakeAttr(t, v).Ok? && !Fits(t, v)
    ensures Inv(SetCalls(New(1), [(t, v)]))
    ensures var (status, r) := AkaPrime.Unmarshal(receiver, StoreBytes(SetCalls(New(1), [(t, v)])));
            !AllDelivered(status, r, [(t, v)])
  {
    assert Last([(t, v)], t) == Some(v);
    DeliveredExactly(1, [(t, v)], receiver);
  }

  lemma KdfInputOf249Lost(receiver: Store)
    ensures var calls := [(AT_KDF_INPUT, Zeros(249))];
            && MakeAttr(AT_KDF_INPUT, Zeros(249)).Ok? && Inv(SetCalls(New(1), calls))
            && var (status, r) := AkaPrime.Unmarshal(receiver, StoreBytes(SetCalls(New(1), calls)));
            !AllDelivered(status, r, calls)
  {
    OneCallLost(AT_KDF_INPUT, Zeros(249), receiver);
  }

  lemma CheckcodeOf3Lost(receiver: Store)
    ensures var calls := [(AT_CHECKCODE, Zeros(3))];
            && MakeAttr(AT_CHECKCODE, Zeros(3)).Ok? && Inv(SetCalls(New(1), calls))
            && var (status, r) := AkaPrime.Unmarshal(receiver, StoreBytes(SetCalls(New(1), calls)));
            !AllDelivered(status, r, calls)
  {
    OneCallLost(AT_CHECKCODE, Zeros(3), receiver);
  }

  /** A store with a five-byte AT_RES, which is padded with three zeros. */
  const PADDED := SetAttr(New(1), AT_RES, Zeros(5))

  lemma PaddedIs()
    ensures Inv(PADDED) && AT_RES in PADDED.attributes
    ensures PADDED.attributes[AT_RES] == Attr(AT_RES, 3, 40, Zeros(5) + Zeros(3))
  {
    assert MakeAttr(AT_RES, Zeros(5)) == Ok(Attr(AT_RES, 3, 40, Zeros(5) + Zeros(3)));
  }

  lemma StillPadded(s: Store)
    requires AT_RES in s.attributes && Strip(s.attributes[AT_RES]) != s.attributes[AT_RES]
    ensures !Unpadded(InitMac(s))
  {
    assert InitMac(s).attributes[AT_RES] == s.attributes[AT_RES];
  }

  /** Under the MAC, the receiver of a padded AT_RES writes other bytes than its sender. */
  lemma PaddedResHashedOtherwise(mac: bytes)
    ensures Inv(PADDED) && Inv(InitMac(PADDED)) && Inv(InitMac(Received(Sent(PADDED, mac))))
    ensures StoreBytes(InitMac(Received(Sent(PADDED, mac)))) != StoreBytes(InitMac(PADDED))
  {
    PaddedIs();
    assert |Strip(PADDED.attributes[AT_RES]).value| == 5;
    StillPadded(PADDED);
    SameBytesUnderMac(PADDED, mac);
  }
}
