/** Two peers, from their secrets to a delivered message: key agreement, key derivation, protection and decoding together. */
module Session {
  import opened Bytes
  import opened Payloads
  import Chain
  import opened Message
  import opened IkeMessage
  import opened PrfPlus
  import Cbc
  import opened Keys
  import opened Sk
  import opened Modular
  import opened DiffieHellman
  import Ike

  /** The algorithms two peers have negotiated. */
  datatype Suite = Suite(group: Group, prf: PrfInfo, integ: IntegInfo, encr: EncrInfo)

  /** The algorithms obey their laws: digests have their size, and every key of the right length gives a permutation. */
  ghost predicate Lawful(s: Suite) {
    && s.group.factor > 0 && s.encr.keyLength > 0 && Usable(s.prf.hash) && Sized(s.integ.hash)
    && forall key: bytes :: |key| == s.encr.keyLength ==>
         s.encr.cipher(key).Some? && Cbc.Invertible(s.encr.cipher(key).value)
  }

  /** The seven keys as the protection of messages uses them: each direction has its own hash and cipher. */
  function Protecting(s: Suite, sk: SkKeys): SaKeys {
    SaKeys(Some(s.integ.outputLength), true, Some(Keyed(s.integ.hash, sk.ai)), Some(Keyed(s.integ.hash, sk.ar)),
           NewCrypto(s.encr, sk.ei), NewCrypto(s.encr, sk.er))
  }

  /** Keys of the suite's lengths can protect messages in both directions. */
  lemma ProtectingWorks(s: Suite, sk: SkKeys, role: Role)
    requires Lawful(s) && HasLengths(sk, s.prf, s.integ, s.encr)
    ensures var k := Protecting(s, sk); k.Valid() && k.CanReceive() && Removable(k, role) && SizedHash(k, role)
    ensures forall plain :: CanSeal(Protecting(s, sk), role, plain) <==> FitsSuite(s, plain)
  {
  }

  /** The suite's digest is as long as its checksum, and the plaintext fits a payload with all that is added to it. */
  predicate FitsSuite(s: Suite, plain: bytes) {
    && s.integ.outputLength <= s.integ.hash.size
    && 4 + Cbc.BLOCK + |plain| + Cbc.PaddingSize(|plain|, Cbc.BLOCK) + s.integ.outputLength <= 0xFFFF
  }

  /** The exchanged power is accepted. */
  predicate GoodPower(g: Group, secret: nat)
    requires g.factor > 0
  {
    Accepts(g, Pow(g.generator, secret) % g.factor)
  }

  /** The stream from which both peers cut their keys. */
  function StreamFor(s: Suite, shared: bytes, nonce: bytes, spiI: uint64, spiR: uint64): bytes
    requires Usable(s.prf.hash)
  {
    IkeKeyStream(s.prf, nonce, shared, spiI, spiR, TotalLength(s.prf, s.integ, s.encr))
  }

  /** One peer's side: the shared key from its own secret and the other's public value, then the seven keys. */
  method Establish(s: Suite, secret: nat, peerPublic: bytes, nonce: bytes, spiI: uint64, spiR: uint64) returns (k: IkesaKey?)
    requires Lawful(s)
    ensures k != null <==> Materials(s.group, secret, peerPublic).Ok? && nonce != []
    ensures k != null ==> fresh(k) && fresh(Ike.Hashes(k)) && Ike.Parts(k) == Protecting(s, k.sk)
    ensures k != null ==> HasLengths(k.sk, s.prf, s.integ, s.encr)
    ensures k != null ==> k.sk.Joined() == StreamFor(s, Materials(s.group, secret, peerPublic).value.1, nonce, spiI, spiR)
  {
    var materials := Materials(s.group, secret, peerPublic);
    if !materials.Ok? {
      return null;
    }
    k := new IkesaKey(Some(s.encr), Some(s.integ), Some(s.prf), true);
    var ok := k.GenerateKeyForIkesa(nonce, materials.value.1, spiI, spiR);
    if !ok {
      return null;
    }
  }

  /** Both sides, each with its own secret and the other's public value, end up with the same seven keys. */
  method EstablishBoth(s: Suite, a: nat, b: nat, nonce: bytes, spiI: uint64, spiR: uint64)
    returns (x: IkesaKey?, y: IkesaKey?)
    requires Lawful(s)
    ensures x != null && y != null <==> nonce != [] && GoodPower(s.group, a) && GoodPower(s.group, b)
    ensures x != null && y != null ==>
              && fresh({x, y}) && fresh(Ike.Hashes(x)) && fresh(Ike.Hashes(y)) && x.sk == y.sk
              && Ike.Parts(x) == Ike.Parts(y) == Protecting(s, x.sk)
              && HasLengths(x.sk, s.prf, s.integ, s.encr)
              && x.sk.Joined() == StreamFor(s, PowerBytes(s.group, a * b), nonce, spiI, spiR)
  {
    x := Establish(s, a, GetPublicValue(s.group, b), nonce, spiI, spiR);
    y := Establish(s, b, GetPublicValue(s.group, a), nonce, spiI, spiR);
    SharedKeyIs(s.group, a, b);
    SharedKeyIs(s.group, b, a);
    assert a * b == b * a;
    if x != null && y != null {
      KeysUnique(x.sk, y.sk, s.prf, s.integ, s.encr);
    }
  }

  /** The message has the given header and exactly the given payloads. */
  ghost predicate Holds(got: Outcome<IkeMsg>, h: Header, ps: seq<Payload>)
    reads if got.Ok? then {got.value, got.value.container} else {}
    reads if got.Ok? then Encs(got.value.container.payloads) else {}
    reads if got.Ok? then Buffers(got.value.container.payloads) else {}
  {
    got.Ok? && got.value.header == h && Views(got.value.container.payloads) == ps
  }

  method Receive(b: bytes, spare: bytes, y: IkesaKey, role: Role, ghost k: SaKeys, ghost h: Header, ghost ps: seq<Payload>)
    returns (got: Outcome<IkeMsg>)
    requires Ike.Parts(y) == k && k.Valid() && Sk.DecodeDecrypt(b, spare, None, Some(k), role) == Ok((h, ps))
    modifies Ike.Hashes(y)
    ensures Holds(got, h, ps)
  {
    got := Ike.DecodeDecrypt(b, spare, None, y, role);
  }

  /** One peer encodes under a role; the other, whose key object holds the same keys, decodes under the opposite role. */
  method Exchange(msg: IkeMsg, x: IkesaKey, y: IkesaKey, role: Role, random: Cbc.Random, spare: bytes,
                  ghost k: SaKeys, ghost ps: seq<Payload>)
    returns (sent: Outcome<bytes>, got: Outcome<IkeMsg>)
    requires Ike.Parts(x) == Ike.Parts(y) == k && k.Valid() && k.CanReceive() && Removable(k, role)
    requires ps == Views(msg.container.payloads) && Chain.WfChain(ps)
    modifies msg, msg.container, Ike.Hashes(x), Ike.Hashes(y)
    ensures sent == Sk.EncodeEncrypt(old(msg.header), ps, Some(k), role, random)
    ensures sent.Ok? ==> |sent.value| >= HEADER_LEN && Holds(got, HeaderOf(old(msg.header), sent.value), ps)
  {
    ghost var h := msg.header;
    sent := Ike.EncodeEncrypt(msg, x, role, random);
    if !sent.Ok? {
      return sent, Error;
    }
    SkRoundTrip(h, ps, k, role, random, spare);
    got := Receive(sent.value, spare, y, role.Opposite(), k, HeaderOf(h, sent.value), ps);
  }

  /**
   For all secrets, nonces, SPIs, random draws, bytes behind the received message and well-formed payload lists: the
   peers establish the same keys exactly when there is a nonce and both exchanged powers are acceptable; then encoding
   succeeds exactly when the chain can be encoded and fits, and whatever one of them encodes the other, in the opposite
   role, decodes to exactly the payloads that were given.
   */
  method Deliver(s: Suite, a: nat, b: nat, nonce: bytes, spiI: uint64, spiR: uint64,
                 msg: IkeMsg, role: Role, random: Cbc.Random, spare: bytes)
    returns (sk: Option<SkKeys>, sent: Outcome<bytes>, got: Outcome<IkeMsg>)
    requires Lawful(s) && Chain.WfChain(Views(msg.container.payloads))
    modifies msg, msg.container
    ensures sk.Some? <==> nonce != [] && GoodPower(s.group, a) && GoodPower(s.group, b)
    ensures sk.Some? ==> && Protecting(s, sk.value).Valid()
                         && sk.value.Joined() == StreamFor(s, PowerBytes(s.group, a * b), nonce, spiI, spiR)
                         && sent == Sk.EncodeEncrypt(old(msg.header), old(Views(msg.container.payloads)),
                                                     Some(Protecting(s, sk.value)), role, random)
    ensures sk.Some? ==> (sent.Ok? <==> var plain := Chain.Encode(old(Views(msg.container.payloads)));
                                        plain.Ok? && FitsSuite(s, plain.value))
    ensures sk.Some? && sent.Ok? ==> |sent.value| >= HEADER_LEN
                                     && Holds(got, HeaderOf(old(msg.header), sent.value), old(Views(msg.container.payloads)))
  {
    ghost var ps := Views(msg.container.payloads);
    var x, y := EstablishBoth(s, a, b, nonce, spiI, spiR);
    if x == null || y == null {
      return None, Error, Error;
    }
    sk := Some(x.sk);
    ghost var k := Protecting(s, x.sk);
    ProtectingWorks(s, x.sk, role);
    ViewsFrame(msg.container.payloads);
    SendsExactly(msg.header, ps, k, role, random);
    sent, got := Exchange(msg, x, y, role, random, spare, k, ps);
  }
}
