/** What was decoded from any bytes: exactly when it can be encoded again, and when decoding that changes nothing. */
module DecodeAgain {
  import opened Bytes
  import opened SecurityAssociations
  import opened SecurityAssociationProofs
  import AkaPrime
  import AkaPrimeProofs
  import AkaPrimeExact
  import AkaPrimeUnknown
  import AkaPrimeReceived
  import Eap
  import Selectors
  import Configurations
  import opened Notifications
  import opened Deletes
  import opened Payloads
  import Chain

  /** Some type data is refused when it is empty; with unknown types, a store can take more bytes than it was read from. */
  ghost predicate EapWritable(e: Eap.Packet) {
    match e.typeData
    case Some(Identity(data)) => data != []
    case Some(Notification(data)) => data != []
    case Some(Nak(data)) => data != []
    case Some(AkaPrimeData(store)) => AkaPrimeExact.OnlyKnown(store) || 4 + |AkaPrime.StoreBytes(store)| <= 0xFFFF
    case _ => true
  }

  /** What a decoded payload needs to be written again. */
  ghost predicate CanWrite(p: Payload) {
    match p
    case SA(proposals) => forall q :: q in proposals ==> Rewritable(q)
    case D(d) => |d.spis| == d.numberOfSpi && (d.spis == [] || d.spiSize == 4)
    case TSi(selectors) => selectors != []
    case TSr(selectors) => selectors != []
    case SK(_, data) => data != []
    case EAP(packet) => EapWritable(packet)
    case _ => true
  }

  /** What a decoded payload that can be written needs to come back as it is. */
  ghost predicate Steady(p: Payload) {
    match p
    case KE(_, data) => data != []
    case Tagged(_, _, data) => data != []
    case CP(_, attributes) => attributes != [] && Configurations.WfAttributes(attributes)
    case EAP(packet) => Eap.IsAkaPrime(packet) ==> AkaPrimeUnknown.Settled(packet.typeData.value.store)
    case _ => true
  }

  /** `CanWrite` and `Steady` say exactly what happens to this payload. */
  ghost predicate Understood(p: Payload) {
    && (Marshal(p).Ok? <==> CanWrite(p))
    && (Marshal(p).Ok? ==> (WfPayload(p) <==> Steady(p)))
  }

  // ----- Payload by payload

  lemma SaUnderstood(b: bytes)
    requires ParseProposals(b).status == Done
    ensures Understood(SA(ParseProposals(b).items))
  {
    var ps := ParseProposals(b).items;
    DecodeEncodeDecode(b);
    if ProposalsBytes(ps).Ok? {
      ProposalsRoundTrip(ps);
    }
  }

  lemma NoticeUnderstood(b: bytes)
    requires ParseNotice(b).Ok?
    ensures Understood(N(ParseNotice(b).value))
  {
  }

  lemma DeletionUnderstood(b: bytes, behind: bytes)
    requires ParseDeletion(b, behind).Ok?
    ensures Understood(D(ParseDeletion(b, behind).value))
  {
    var d := ParseDeletion(b, behind).value;
    if b != [] && d.spis != [] && |d.spis| == d.numberOfSpi && d.spiSize >= 4 {
      WordCount(b[4..], behind);
      if d.spiSize > 4 {
        SizeOfEach(d.spiSize, |d.spis|);
      }
    }
  }

  lemma SizeOfEach(size: byte, n: nat)
    requires n > 0 && size > 4
    ensures size as int * n >= 4 * n + n
  {
  }

  lemma {:induction false} SelectorsWritable(b: bytes, count: nat)
    requires Selectors.ParseSelectors(b, count).status == Done
    ensures |Selectors.ParseSelectors(b, count).items| == count
    ensures Selectors.SelectorsBytes(Selectors.ParseSelectors(b, count).items).Ok?
    decreases count
  {
    if count > 0 {
      var s, n := Selectors.ParseSelector(b).value.0, Selectors.ParseSelector(b).value.1;
      SelectorsWritable(b[n..], count - 1);
      var rest := Selectors.ParseSelectors(b[n..], count - 1).items;
      assert ([s] + rest)[0] == s && ([s] + rest)[1..] == rest;
    }
  }

  lemma SelectorsUnderstood(b: bytes)
    requires Selectors.ParsePayload(b).status == Done
    ensures Understood(TSi(Selectors.ParsePayload(b).items)) && Understood(TSr(Selectors.ParsePayload(b).items))
  {
    if b != [] {
      SelectorsWritable(b[4..], b[0]);
    }
  }

  lemma {:induction false} AttributesWritable(d: bytes)
    ensures Configurations.AttributesBytes(Configurations.ParseAttributes(d).items).Ok?
  {
    if d != [] && Configurations.ParseAttribute(d).Ok? {
      var a, n := Configurations.ParseAttribute(d).value.0, Configurations.ParseAttribute(d).value.1;
      AttributesWritable(d[n..]);
      var rest := Configurations.ParseAttributes(d[n..]).items;
      assert ([a] + rest)[0] == a && ([a] + rest)[1..] == rest;
    }
  }

  lemma ConfigurationUnderstood(b: bytes)
    requires ParseCP(b).Ok?
    ensures Understood(ParseCP(b).value)
  {
    if b != [] {
      AttributesWritable(b[4..]);
    }
  }

  /** A decoded store of known types takes no more bytes than it was read from. */
  lemma StoreNoLonger(raw: bytes)
    requires var (status, r) := AkaPrime.Unmarshal(AkaPrime.New(0), raw); status == Done && AkaPrimeExact.OnlyKnown(r)
    ensures var (_, r) := AkaPrime.Unmarshal(AkaPrime.New(0), raw); AkaPrime.Inv(r) && |AkaPrime.StoreBytes(r)| <= |raw|
  {
    var s := AkaPrimeReceived.HeadTaken(raw, AkaPrime.New(0));
    var r := AkaPrime.Unmarshal(AkaPrime.New(0), raw).1;
    var items := AkaPrime.ParseAttrs(raw[4..]).items;
    AkaPrimeProofs.InsertAllKeepsInv(s, items);
    AkaPrimeReceived.KnownRead(s, items);
    AkaPrimeExact.ReadSizes(raw[4..]);
    forall k | k in r.attributes
      ensures r.attributes[k] in items
    {
      AkaPrimeExact.EntriesWereRead(s, items, k);
    }
    AkaPrimeExact.WrittenIsShorter(r, items);
  }

  lemma AkaUnderstood(b: bytes)
    requires Eap.ParsePacket(b).Ok? && Eap.IsAkaPrime(Eap.ParsePacket(b).value) && !Eap.Strange(Eap.ParsePacket(b).value)
    ensures Understood(EAP(Eap.ParsePacket(b).value))
  {
    var e := Eap.ParsePacket(b).value;
    Eap.ReceivedBody(b);
    if AkaPrimeExact.OnlyKnown(e.typeData.value.store) {
      StoreNoLonger(b[4..]);
    }
  }

  lemma PlainEapUnderstood(b: bytes)
    requires |b| <= 0xFFFF && Eap.ParsePacket(b).Ok? && !Eap.IsAkaPrime(Eap.ParsePacket(b).value)
    ensures Understood(EAP(Eap.ParsePacket(b).value))
  {
  }

  lemma EapUnderstood(b: bytes)
    requires |b| <= 0xFFFF && Eap.ParsePacket(b).Ok? && !Eap.Strange(Eap.ParsePacket(b).value)
    ensures Understood(EAP(Eap.ParsePacket(b).value))
  {
    if Eap.IsAkaPrime(Eap.ParsePacket(b).value) {
      AkaUnderstood(b);
    } else {
      PlainEapUnderstood(b);
    }
  }

  lemma OpaqueUnderstood(p: Payload)
    requires p.KE? || p.Tagged? || p.Bare? || p.SK?
    ensures Understood(p)
  {
  }

  lemma BodyUnderstood(t: byte, next: byte, b: bytes, behind: bytes)
    requires KnownType(t) && |b| <= 0xFFFF && Unmarshal(t, next, b, behind).Ok?
    requires !CarriesStrange(Unmarshal(t, next, b, behind).value)
    ensures Understood(Unmarshal(t, next, b, behind).value)
  {
    if t == TYPE_SA {
      SaUnderstood(b);
    } else if t == TYPE_N {
      NoticeUnderstood(b);
    } else if t == TYPE_D {
      DeletionUnderstood(b, behind);
    } else if t == TYPE_TSI || t == TYPE_TSR {
      SelectorsUnderstood(b);
    } else if t == TYPE_CP {
      ConfigurationUnderstood(b);
    } else if t == TYPE_EAP {
      EapUnderstood(b);
    } else {
      OpaqueUnderstood(Unmarshal(t, next, b, behind).value);
    }
  }

  // ----- The chain

  lemma {:induction false} ChainUnderstood(next: byte, b: bytes, spare: bytes)
    ensures forall p :: p in Chain.Decode(next, b, spare).items && !CarriesStrange(p) ==> Understood(p)
    decreases |b|
  {
    if Chain.WellFramed(b) {
      var n := Get16(b, 2);
      ChainUnderstood(b[0], b[n..], spare);
      if KnownType(next) && Unmarshal(next, b[0], b[4..n], b[n..] + spare).Ok? {
        if !CarriesStrange(Unmarshal(next, b[0], b[4..n], b[n..] + spare).value) {
          BodyUnderstood(next, b[0], b[4..n], b[n..] + spare);
        }
        var p, rest := Unmarshal(next, b[0], b[4..n], b[n..] + spare).value, Chain.Decode(b[0], b[n..], spare).items;
        assert Chain.Decode(next, b, spare).items == [p] + rest;
      }
    }
  }

  /** The written body fits the 16-bit length field in front of it. */
  predicate FitsFrame(p: Payload) {
    Marshal(p).Ok? ==> 4 + |Marshal(p).value| <= 0xFFFF
  }

  lemma {:induction false} EncodableExactly(ps: seq<Payload>)
    ensures Chain.Encode(ps).Ok? <==> forall p :: p in ps ==> Marshal(p).Ok? && FitsFrame(p)
  {
    if ps != [] {
      EncodableExactly(ps[1..]);
      assert ps == [ps[0]] + ps[1..];
      OneEncodable(Chain.NextByte(ps), ps[0]);
    }
  }

  lemma OneEncodable(next: byte, p: Payload)
    ensures Chain.One(next, p).Ok? <==> Marshal(p).Ok? && FitsFrame(p)
  {
  }

  /** Every SK payload that is not last names its successor. */
  predicate SkLinked(ps: seq<Payload>) {
    forall i :: 0 <= i < |ps| - 1 && ps[i].SK? ==> ps[i].next == TypeOf(ps[i + 1])
  }

  lemma WfDecoded(ps: seq<Payload>)
    requires forall p :: p in ps ==> Understood(p) && Marshal(p).Ok?
    ensures Chain.WfChain(ps) <==> SkLinked(ps) && forall p :: p in ps ==> Steady(p)
  {
    forall i | 0 <= i < |ps|
      ensures WfPayload(ps[i]) <==> Steady(ps[i])
    {
      assert ps[i] in ps;
    }
  }

  /**
   For the payloads decoded from any bytes, whatever stands behind them and however decoding ended: they can be encoded again
   exactly when each can be written and fits its frame, and decoding that gives the same payloads exactly when each is
   steady and SK payloads name their successors. Strange AKA' bodies are excluded.
   */
  lemma DecodeEncodeDecodeChain(next: byte, b: bytes, spare: bytes, spare': bytes)
    requires Chain.NoStrange(Chain.Decode(next, b, spare).items)
    ensures var ps := Chain.Decode(next, b, spare).items;
            && (Chain.Encode(ps).Ok? <==> forall p :: p in ps ==> CanWrite(p) && FitsFrame(p))
            && (Chain.Encode(ps).Ok? ==>
                  (Chain.Decode(Chain.FirstType(ps), Chain.Encode(ps).value, spare') == Parsed(Done, ps) <==>
                   SkLinked(ps) && forall p :: p in ps ==> Steady(p)))
  {
    var ps := Chain.Decode(next, b, spare).items;
    ChainUnderstood(next, b, spare);
    assert forall p :: p in ps ==> Understood(p);
    EncodableExactly(ps);
    if Chain.Encode(ps).Ok? {
      Chain.ChainRoundTrip(ps, Chain.FirstType(ps), spare');
      WfDecoded(ps);
    }
  }
}
