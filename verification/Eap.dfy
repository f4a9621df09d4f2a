/** EAP packets (section 4 of RFC 3748) and the AT_MAC computed over a whole packet. */
module Eap {
  import opened Bytes
  import opened AkaPrime
  import opened AkaPrimeProofs
  import opened AkaPrimeExact
  import opened AkaPrimeUnknown
  import opened AkaPrimeReceived

  const REQUEST: byte := 1
  const RESPONSE: byte := 2

  const IDENTITY: byte := 1
  const NOTIFICATION: byte := 2
  const NAK: byte := 3
  const MD5: byte := 4
  const EXPANDED: byte := 254

  type ValidStore = s: Store | Inv(s) witness New(0)

  datatype TypeData =
    | Identity(data: bytes)
    | Notification(data: bytes)
    | Nak(data: bytes)
    | Md5Challenge(valueSize: byte, value: bytes, name: bytes)
    | AkaPrimeData(store: ValidStore)
    | Expanded(vendorId: uint32, vendorType: uint32, data: bytes)

  datatype Packet = Packet(code: byte, identifier: byte, typeData: Option<TypeData>)

  // ----- Encoding

  function NonEmpty(t: byte, data: bytes): Outcome<bytes> {
    if data == [] then Error else Ok([t] + data)
  }

  function TypeDataBytes(d: TypeData): Outcome<bytes> {
    match d
    case Identity(data) => NonEmpty(IDENTITY, data)
    case Notification(data) => NonEmpty(NOTIFICATION, data)
    case Nak(data) => NonEmpty(NAK, data)
    case Md5Challenge(size, value, name) =>
      if size != 16 || |value| != 16 then Error else Ok([MD5, size] + value + name)
    case AkaPrimeData(store) => Ok(StoreBytes(store))
    case Expanded(vendorId, vendorType, data) =>
      Ok([EXPANDED] + Put32(vendorId % 0x100_0000)[1..] + Put32(vendorType) + data)
  }

  function Framed(code: byte, identifier: byte, data: bytes): Outcome<bytes> {
    var n := 4 + |data|;
    if n > 0xFFFF then Error else Ok([code, identifier, Hi(n), Lo(n)] + data)
  }

  function PacketBytes(e: Packet): Outcome<bytes> {
    var data :- if e.typeData.None? then Ok([]) else TypeDataBytes(e.typeData.value);
    Framed(e.code, e.identifier, data)
  }

  // ----- Decoding

  function ParseTypeData(b: bytes): Outcome<TypeData>
    requires |b| >= 1
  {
    if b[0] == IDENTITY then Ok(Identity(b[1..]))
    else if b[0] == NOTIFICATION then Ok(Notification(b[1..]))
    else if b[0] == NAK then Ok(Nak(b[1..]))
    else if b[0] == MD5 then
      if |b| < 18 || b[1] != 16 then Error else Ok(Md5Challenge(16, b[2..18], b[18..]))
    else if b[0] == EAP_TYPE_AKA_PRIME then
      ApplyKeepsInv(New(0), Decode(b));
      var (status, store) := Unmarshal(New(0), b);
      if status == Done then Ok(AkaPrimeData(store)) else Error
    else if b[0] == EXPANDED then
      if |b| < 8 then Error else Ok(Expanded(Get32(b, 0) % 0x100_0000, Get32(b, 4), b[8..]))
    else Error
  }

  /** What decoding into a new packet gives. */
  function ParsePacket(b: bytes): Outcome<Packet> {
    if b == [] then Ok(Packet(0, 0, None))
    else if |b| < 4 || |b| != Get16(b, 2) then Error
    else if |b| == 4 then if b[0] == REQUEST || b[0] == RESPONSE then Error else Ok(Packet(b[0], b[1], None))
    else
      var data :- ParseTypeData(b[4..]);
      Ok(Packet(b[0], b[1], Some(data)))
  }

  // ----- Round trips

  ghost predicate WfPacket(e: Packet) {
    match e.typeData
    case None => e.code != REQUEST && e.code != RESPONSE
    case Some(Expanded(vendorId, _, _)) => vendorId < 0x100_0000
    case Some(AkaPrimeData(store)) => Settled(store)
    case _ => true
  }

  predicate IsAkaPrime(e: Packet) {
    e.typeData.Some? && e.typeData.value.AkaPrimeData?
  }

  /** An AKA' body with an unknown type and an attribute that is not plain. */
  ghost predicate Strange(e: Packet) {
    IsAkaPrime(e) && !OnlyKnown(e.typeData.value.store) && !PlainStore(e.typeData.value.store)
  }

  lemma AkaDataRoundTrip(s: ValidStore)
    requires SendableStore(s)
    ensures Inv(Received(s)) && |StoreBytes(s)| >= 1 && ParseTypeData(StoreBytes(s)) == Ok(AkaPrimeData(Received(s)))
  {
    StoreRoundTrip(s, New(0));
    ReceivedKeepsInv(s);
  }

  lemma Md5RoundTrip(size: byte, value: bytes, name: bytes)
    requires size == |value| == 16
    ensures var b: bytes := [MD5, size] + value + name; ParseTypeData(b) == Ok(Md5Challenge(size, value, name))
  {
    var b: bytes := [MD5, size] + value + name;
    assert b[2..18] == value && b[18..] == name;
  }

  lemma TypeDataRoundTrip(d: TypeData)
    requires TypeDataBytes(d).Ok?
    ensures var b := TypeDataBytes(d).value;
            && |b| >= 1
            && (d.AkaPrimeData? && SendableStore(d.store) ==>
                  Inv(Received(d.store)) && ParseTypeData(b) == Ok(AkaPrimeData(Received(d.store))))
            && (!d.AkaPrimeData? ==> (ParseTypeData(b) == Ok(d) <==> (d.Expanded? ==> d.vendorId < 0x100_0000)))
  {
    var b := TypeDataBytes(d).value;
    match d
    case Identity(data) => assert b[1..] == data;
    case Notification(data) => assert b[1..] == data;
    case Nak(data) => assert b[1..] == data;
    case Md5Challenge(size, value, name) => Md5RoundTrip(size, value, name);
    case AkaPrimeData(store) =>
      if SendableStore(store) {
        AkaDataRoundTrip(store);
      }
    case Expanded(vendorId, vendorType, data) => ExpandedRoundTrip(vendorId, vendorType, data);
  }

  lemma ExpandedRoundTrip(vendorId: uint32, vendorType: uint32, data: bytes)
    ensures var b := TypeDataBytes(Expanded(vendorId, vendorType, data)).value;
            ParseTypeData(b) == Ok(Expanded(vendorId % 0x100_0000, vendorType, data))
  {
    var id, kind := Put32(vendorId % 0x100_0000), Put32(vendorType);
    var b: bytes := [EXPANDED] + id[1..] + kind + data;
    assert b[4..8] == kind && b[8..] == data;
    Put32Read(b, 4, vendorType);
    Put32Read(id, 0, vendorId % 0x100_0000);
    assert id[0..4] == id && b[0..4] == [EXPANDED] + id[1..];
    LowThree(EXPANDED, id);
    ExpandedRead(b, vendorId % 0x100_0000, vendorType);
  }

  lemma ExpandedRead(b: bytes, vendorId: nat, vendorType: uint32)
    requires |b| >= 8 && b[0] == EXPANDED && Get32(b, 0) % 0x100_0000 == vendorId && Get32(b, 4) == vendorType
    ensures ParseTypeData(b) == Ok(Expanded(vendorId, vendorType, b[8..]))
  {
  }

  /** The low 24 bits do not depend on the first of four bytes. */
  lemma LowThree(first: byte, b: bytes)
    requires |b| == 4
    ensures Value([first] + b[1..]) % 0x100_0000 == Value(b) % 0x100_0000
  {
    var low := b[1] as int * 0x1_0000 + b[2] as int * 0x100 + b[3] as int;
    FourBytes(b);
    FourBytes([first] + b[1..]);
    DropHigh(b[0], low);
    DropHigh(first, low);
  }

  lemma DropHigh(high: byte, low: nat)
    requires low < 0x100_0000
    ensures (high as int * 0x100_0000 + low) % 0x100_0000 == low
  {
  }

  lemma FourBytes(b: bytes)
    requires |b| == 4
    ensures Value(b) == b[0] as int * 0x100_0000 + b[1] as int * 0x1_0000 + b[2] as int * 0x100 + b[3] as int
  {
    assert b[..3][..2] == b[..2] && b[..2][..1] == b[..1] && b[..1][..0] == [];
    assert Value(b[..1]) == b[0];
    assert Value(b[..2]) == Value(b[..1]) * 0x100 + b[1] as int;
    assert Value(b[..3]) == Value(b[..2]) * 0x100 + b[2] as int;
  }

  lemma PacketLayout(e: Packet)
    requires PacketBytes(e).Ok?
    ensures var b := PacketBytes(e).value;
            && 4 <= |b| <= 0xFFFF && b[0] == e.code && b[1] == e.identifier && Get16(b, 2) == |b|
            && b[4..] == if e.typeData.None? then [] else TypeDataBytes(e.typeData.value).value
  {
  }

  /** A packet that can be written is read back when it is well formed, and, unless its body is strange, only then. */
  lemma PacketRoundTrip(e: Packet)
    requires PacketBytes(e).Ok?
    ensures WfPacket(e) ==> ParsePacket(PacketBytes(e).value) == Ok(e)
    ensures !Strange(e) && ParsePacket(PacketBytes(e).value) == Ok(e) ==> WfPacket(e)
  {
    PacketLayout(e);
    if e.typeData.Some? {
      TypeDataRoundTrip(e.typeData.value);
      if IsAkaPrime(e) {
        AkaReadBack(e);
      }
    }
  }

  lemma AkaReadBack(e: Packet)
    requires IsAkaPrime(e) && PacketBytes(e).Ok?
    ensures WfPacket(e) ==> ParsePacket(PacketBytes(e).value) == Ok(e)
    ensures !Strange(e) && ParsePacket(PacketBytes(e).value) == Ok(e) ==> WfPacket(e)
  {
    var s := e.typeData.value.store;
    PacketLayout(e);
    AkaDataRead(s);
    if OnlyKnown(s) || PlainStore(s) {
      ComesBackExactly(s, New(0));
    }
  }

  /** Type data written from a store is read back as that store exactly when decoding gives the store again. */
  lemma AkaDataRead(s: ValidStore)
    ensures |StoreBytes(s)| >= 1
    ensures ParseTypeData(StoreBytes(s)) == Ok(AkaPrimeData(s)) <==> Unmarshal(New(0), StoreBytes(s)) == (Done, s)
  {
  }

  // ----- AT_MAC

  /** HMAC-SHA-256: a key and a message give 32 bytes. */
  type Hmac = (bytes, bytes) -> bytes

  ghost predicate Gives32(h: Hmac) {
    forall k: bytes, m: bytes :: |h(k, m)| == 32
  }

  function AkaPacket(code: byte, identifier: byte, s: Store): Packet
    requires Inv(s)
  {
    Packet(code, identifier, Some(AkaPrimeData(s)))
  }

  /** The packet as it stands while its MAC is computed. */
  function Zeroed(e: Packet): Packet
    requires IsAkaPrime(e)
  {
    InsertKeepsInv(e.typeData.value.store, MacAttr(Zeros(16)));
    AkaPacket(e.code, e.identifier, InitMac(e.typeData.value.store))
  }

  /** The MAC of a packet; a packet without type data faults. */
  function CalcAtMac(h: Hmac, key: bytes, e: Packet): Outcome<bytes> {
    if e.typeData.None? then Fault
    else if !IsAkaPrime(e) then Error
    else
      var b :- PacketBytes(Zeroed(e));
      var sum := h(key, b);
      if |sum| < 16 then Fault else Ok(sum[..16])
  }

  /** What the sender sends once it has stored the MAC. */
  function Sealed(e: Packet, mac: bytes): Packet
    requires IsAkaPrime(e)
  {
    MacStores(e.typeData.value.store, mac);
    AkaPacket(e.code, e.identifier, Sent(e.typeData.value.store, mac))
  }

  /** The packet as its receiver decodes it. */
  function Arrived(e: Packet): Packet
    requires IsAkaPrime(e)
  {
    ReceivedKeepsInv(e.typeData.value.store);
    AkaPacket(e.code, e.identifier, Received(e.typeData.value.store))
  }

  lemma AkaRoundTrip(e: Packet)
    requires IsAkaPrime(e) && SendableStore(e.typeData.value.store) && PacketBytes(e).Ok?
    ensures ParsePacket(PacketBytes(e).value) == Ok(Arrived(e))
  {
    PacketLayout(e);
    TypeDataRoundTrip(e.typeData.value);
  }

  lemma AkaPacketBytes(code: byte, identifier: byte, s: Store)
    requires Inv(s)
    ensures PacketBytes(AkaPacket(code, identifier, s)) == Framed(code, identifier, StoreBytes(s))
  {
  }

  /** Storing a MAC of sixteen bytes does not change the packet's length. */
  lemma SealedFits(e: Packet, mac: bytes)
    requires IsAkaPrime(e) && PacketBytes(Zeroed(e)).Ok? && |mac| == 16
    ensures PacketBytes(Sealed(e, mac)).Ok?
  {
    var s := e.typeData.value.store;
    var before, after := OnlyMacZeroed(s, mac);
    AkaPacketBytes(e.code, e.identifier, InitMac(s));
    AkaPacketBytes(e.code, e.identifier, Sent(s, mac));
  }

  lemma SealedSendable(e: Packet, mac: bytes)
    requires IsAkaPrime(e) && |mac| == 16 && SendableStore(Zeroed(e).typeData.value.store)
    ensures SendableStore(Sealed(e, mac).typeData.value.store)
  {
    MacStores(e.typeData.value.store, mac);
  }

  lemma SameFrame(code: byte, identifier: byte, x: bytes, y: bytes)
    requires Framed(code, identifier, x).Ok?
    ensures Framed(code, identifier, y) == Framed(code, identifier, x) <==> y == x
  {
    if Framed(code, identifier, y).Ok? {
      assert Framed(code, identifier, x).value[4..] == x && Framed(code, identifier, y).value[4..] == y;
    }
  }

  /** A receiver hashes the very bytes the sender hashed if and only if no attribute carries padding. */
  lemma SameHashedBytes(e: Packet, mac: bytes)
    requires IsAkaPrime(e) && PacketBytes(Zeroed(e)).Ok? && |mac| == 16
    ensures PacketBytes(Zeroed(Arrived(Sealed(e, mac)))) == PacketBytes(Zeroed(e))
            <==> Unpadded(Zeroed(e).typeData.value.store)
  {
    var s := e.typeData.value.store;
    SameBytesUnderMac(s, mac);
    AkaPacketBytes(e.code, e.identifier, InitMac(s));
    AkaPacketBytes(e.code, e.identifier, InitMac(Received(Sent(s, mac))));
    SameFrame(e.code, e.identifier, StoreBytes(InitMac(s)), StoreBytes(InitMac(Received(Sent(s, mac)))));
  }

  /**
   The sender computes a MAC over its packet, stores it and sends the packet. The receiver decodes the packet
   and computes the same MAC, because it hashes the same bytes. With padding it hashes other bytes.
   */
  lemma MacAgreement(h: Hmac, key: bytes, e: Packet)
    requires Gives32(h) && IsAkaPrime(e) && PacketBytes(Zeroed(e)).Ok?
    requires SendableStore(Zeroed(e).typeData.value.store)
    ensures CalcAtMac(h, key, e).Ok? && |CalcAtMac(h, key, e).value| == 16
    ensures var mac := CalcAtMac(h, key, e).value;
            var sent := PacketBytes(Sealed(e, mac));
            && sent.Ok?
            && ParsePacket(sent.value) == Ok(Arrived(Sealed(e, mac)))
            && var there := Arrived(Sealed(e, mac));
            && (PacketBytes(Zeroed(there)) == PacketBytes(Zeroed(e)) <==> Unpadded(Zeroed(e).typeData.value.store))
            && (Unpadded(Zeroed(e).typeData.value.store) ==> CalcAtMac(h, key, there) == CalcAtMac(h, key, e))
  {
    var mac := CalcAtMac(h, key, e).value;
    SealedFits(e, mac);
    SealedSendable(e, mac);
    AkaRoundTrip(Sealed(e, mac));
    SameHashedBytes(e, mac);
  }

  /** A packet built by any calls on a new store, each last value fitting and none needing padding. */
  lemma SenderBuiltMacAgreement(h: Hmac, key: bytes, code: byte, identifier: byte, subType: byte, calls: seq<(byte, bytes)>)
    requires Gives32(h)
    requires forall t: byte :: Last(calls, t).Some? ==>
               Fits(t, Last(calls, t).value) && ((t == AT_RES || t == AT_KDF_INPUT) ==> |Last(calls, t).value| % 4 == 0)
    ensures Inv(SetCalls(New(subType), calls))
    ensures var e := AkaPacket(code, identifier, SetCalls(New(subType), calls));
            PacketBytes(Zeroed(e)).Ok? ==>
              && CalcAtMac(h, key, e).Ok?
              && var sent := PacketBytes(Sealed(e, CalcAtMac(h, key, e).value));
              && sent.Ok? && ParsePacket(sent.value).Ok?
              && CalcAtMac(h, key, ParsePacket(sent.value).value) == CalcAtMac(h, key, e)
  {
    var s := SetCalls(New(subType), calls);
    SetCallsStore(subType, calls);
    var e := AkaPacket(code, identifier, s);
    forall t: byte | t in s.attributes
      ensures Sendable(s.attributes[t]) && Strip(s.attributes[t]) == s.attributes[t]
    {
      MadeAttr(t, Last(calls, t).value);
      MadeUnpadded(t, Last(calls, t).value);
    }
    if PacketBytes(Zeroed(e)).Ok? {
      MacAgreement(h, key, e);
    }
  }

  lemma MadeUnpadded(t: byte, v: bytes)
    requires MakeAttr(t, v).Ok? && Fits(t, v) && ((t == AT_RES || t == AT_KDF_INPUT) ==> |v| % 4 == 0)
    ensures Strip(MakeAttr(t, v).value) == MakeAttr(t, v).value
  {
  }

  // ----- The MAC of a packet as it was received

  lemma ReceivedBody(b: bytes)
    requires ParsePacket(b).Ok? && IsAkaPrime(ParsePacket(b).value)
    ensures |b| >= 8 && |b| == Get16(b, 2) && b[4] == EAP_TYPE_AKA_PRIME
    ensures Unmarshal(New(0), b[4..]) == (Done, ParsePacket(b).value.typeData.value.store)
    ensures ParsePacket(b).value.code == b[0] && ParsePacket(b).value.identifier == b[1]
  {
  }

  lemma SameLengthFrame(b: bytes, before: bytes, mac: bytes, after: bytes, zeros: bytes)
    requires 4 <= |b| <= 0xFFFF && |b| == Get16(b, 2) && b[4..] == before + mac + after && |mac| == |zeros|
    ensures Framed(b[0], b[1], before + zeros + after) == Ok(b[..4] + before + zeros + after)
    ensures b == b[..4] + before + mac + after
  {
    assert b == b[..4] + b[4..];
    assert b[..4] == [b[0], b[1], Hi(|b|), Lo(|b|)];
    assert b[..4] + (before + zeros + after) == b[..4] + before + zeros + after;
    assert b[..4] + (before + mac + after) == b[..4] + before + mac + after;
  }

  /**
   For any packet as it arrives, if its AKA' attributes are clean and the store holds each of them once: the receiver
   computes the MAC over the received bytes with only the sixteen MAC bytes zeroed.
   */
  lemma ReceiverHashesPacket(h: Hmac, key: bytes, b: bytes) returns (before: bytes, mac: bytes, after: bytes)
    requires Gives32(h) && ParsePacket(b).Ok? && IsAkaPrime(ParsePacket(b).value)
    requires AT_MAC in ParsePacket(b).value.typeData.value.store.attributes
    requires |b| >= 8 && Inv(Unmarshal(New(0), b[4..]).1) && Clean(b[4..][4..]) && HoldsEachOnce(b[4..], New(0))
    ensures var e := ParsePacket(b).value;
            && b == before + mac + after && |mac| == 16 && GetValue(e.typeData.value.store.attributes[AT_MAC]) == mac
            && CalcAtMac(h, key, e) == Ok(h(key, before + Zeros(16) + after)[..16])
  {
    ReceivedBody(b);
    var e := ParsePacket(b).value;
    var front;
    front, mac, after := HashesWhatWasRead(b[4..], New(0));
    before := b[..4] + front;
    SameLengthFrame(b, front, mac, after, Zeros(16));
    AkaPacketBytes(e.code, e.identifier, InitMac(e.typeData.value.store));
  }
}
