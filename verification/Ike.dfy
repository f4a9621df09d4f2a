/** Encoding and decoding of protected messages on message and key objects whose hash objects are shared and stateful. */
module Ike {
  import opened Bytes
  import opened Payloads
  import Chain
  import opened Message
  import opened IkeMessage
  import opened PrfPlus
  import Cbc
  import opened Keys
  import opened Sk

  /** The hashes that computing or checking a checksum resets. */
  ghost function Hashes(key: IkesaKey): set<Hash>
    reads key
  {
    (if key.integ_i != null then {key.integ_i} else {}) + (if key.integ_r != null then {key.integ_r} else {})
  }

  ghost function KeyedOf(h: Hash?): Option<Keyed> {
    if h == null then None else Some(Keyed(h.alg, h.key))
  }

  /** What the key object holds. */
  ghost function Parts(key: IkesaKey): SaKeys
    reads key
  {
    SaKeys(if key.integInfo.Some? then Some(key.integInfo.value.outputLength) else None, key.encrInfo.Some?,
           KeyedOf(key.integ_i), KeyedOf(key.integ_r), key.encr_i, key.encr_r)
  }

  /** Resets the role's hash before use, so the checksum depends on the key and the data only. */
  method CalculateIntegrity(key: IkesaKey, role: Role, data: bytes) returns (r: Outcome<bytes>)
    requires key.integInfo.Some?
    modifies Hashes(key)
    ensures r == Checksum(Parts(key), role, data)
  {
    var h := if role.Initiator? then key.integ_i else key.integ_r;
    if h == null {
      return Error;
    }
    h.Reset();
    h.Write(data);
    assert [] + data == data;
    var sum := h.Sum();
    if |sum| < key.integInfo.value.outputLength {
      return Fault;
    }
    return Ok(sum[..key.integInfo.value.outputLength]);
  }

  // ----- Sending

  method EncodeWrapped(msg: IkeMsg, sk: Encrypted) returns (r: Outcome<bytes>)
    requires msg.container.payloads == [Sk(sk)]
    modifies msg
    ensures r == Wrapped(old(msg.header), sk.nextPayload, sk.encryptedData[..])
    ensures Core(msg.header) == old(Core(msg.header))
  {
    assert Views([Sk(sk)]) == [SK(sk.nextPayload, sk.encryptedData[..])];
    r := msg.Encode();
  }

  /** The checksum of the message as it stands with a zeroed checksum, up to where the checksum starts. */
  method SumOfZeroed(msg: IkeMsg, sk: Encrypted, cipher: bytes, key: IkesaKey, role: Role) returns (checksum: Outcome<bytes>)
    requires key.integInfo.Some? && msg.container.payloads == [Sk(sk)]
    requires sk.encryptedData[..] == cipher + Zeros(key.integInfo.value.outputLength)
    modifies msg, Hashes(key)
    ensures Core(msg.header) == old(Core(msg.header))
    ensures checksum == Signature(old(msg.header), sk.nextPayload, cipher, Parts(key), role)
  {
    ghost var k, h := Parts(key), msg.header;
    var first := EncodeWrapped(msg, sk);
    if !first.Ok? {
      return first;
    }
    checksum := SumBefore(first.value, key, role, k);
    SignatureOf(h, sk.nextPayload, cipher, k, role, first.value, checksum);
  }

  /** The checksum of all but the last bytes of a message. */
  method SumBefore(b: bytes, key: IkesaKey, role: Role, ghost k: SaKeys) returns (checksum: Outcome<bytes>)
    requires key.integInfo.Some? && k == Parts(key)
    modifies Hashes(key)
    ensures var n := k.checksumLength.value;
            checksum == if |b| < n then Fault else Checksum(k, role, b[..|b| - n])
  {
    var checksumLength := key.integInfo.value.outputLength;
    if |b| < checksumLength {
      return Fault;
    }
    checksum := CalculateIntegrity(key, role, b[..|b| - checksumLength]);
  }

  lemma SignatureOf(h: Header, first: byte, cipher: bytes, k: SaKeys, role: Role, zeroed: bytes, checksum: Outcome<bytes>)
    requires k.checksumLength.Some? && Wrapped(h, first, cipher + Zeros(k.checksumLength.value)) == Ok(zeroed)
    requires var n := k.checksumLength.value;
             checksum == if |zeroed| < n then Fault else Checksum(k, role, zeroed[..|zeroed| - n])
    ensures checksum == Signature(h, first, cipher, k, role)
  {
  }

  /**
   Encodes the message with its one SK payload, whose checksum is still zero, computes the checksum of everything in
   front of it, and writes the checksum into the SK payload, which the message's container shares.
   */
  method Sign(msg: IkeMsg, sk: Encrypted, cipher: bytes, key: IkesaKey, role: Role) returns (status: Status)
    requires key.integInfo.Some? && msg.container.payloads == [Sk(sk)]
    requires sk.encryptedData[..] == cipher + Zeros(key.integInfo.value.outputLength)
    modifies msg, sk.encryptedData, Hashes(key)
    ensures Core(msg.header) == old(Core(msg.header))
    ensures var o := Signature(old(msg.header), sk.nextPayload, cipher, Parts(key), role);
            status == StatusOf(o) && (status == Done ==> sk.encryptedData[..] == cipher + o.value)
  {
    var checksum := SumOfZeroed(msg, sk, cipher, key, role);
    if !checksum.Ok? {
      return StatusOf(checksum);
    }
    Patch(sk.encryptedData, cipher, checksum.value);
    return Done;
  }

  /** Overwrites what stands behind `cipher` in a buffer. */
  method Patch(buffer: array<byte>, ghost cipher: bytes, checksum: bytes)
    requires buffer.Length == |cipher| + |checksum| && buffer[..|cipher|] == cipher
    modifies buffer
    ensures buffer[..] == cipher + checksum
  {
    var at := buffer.Length - |checksum|;
    CopyInto(buffer, at, checksum);
    assert buffer[..] == buffer[..at] + buffer[at..at + |checksum|];
  }

  method EncodePlain(container: IkePayloadContainer, ghost ps: seq<Payload>) returns (first: byte, r: Outcome<bytes>)
    requires ps == Views(container.payloads)
    ensures first == Chain.FirstType(ps) && r == Chain.Encode(ps)
  {
    if |container.payloads| == 0 {
      first := NO_NEXT;
    } else {
      ViewsAt(container.payloads, 0);
      first := TypeOfObj(container.payloads[0]);
    }
    r := container.Encode();
    ViewsFrame(container.payloads);
  }

  /** Encrypts a plaintext chain and leaves the message with one SK payload that carries it, signed. */
  method SealInto(msg: IkeMsg, first: byte, plain: bytes, key: IkesaKey, role: Role, random: Cbc.Random, ghost k: SaKeys)
    returns (status: Status)
    requires k == Parts(key) && k.Valid() && key.integInfo.Some?
    modifies msg, msg.container, Hashes(key)
    ensures Core(msg.header) == old(Core(msg.header))
    ensures var o := SealedData(old(msg.header), first, plain, k, role, random);
            status == StatusOf(o) && (status == Done ==> Views(msg.container.payloads) == [SK(first, o.value)])
  {
    var cipher := if role.Initiator? then key.encr_i else key.encr_r;
    if cipher.None? {
      return Faulted;
    }
    var encryptedData := Cbc.Encrypt(cipher.value, plain, random);
    if !encryptedData.Ok? {
      return StatusOf(encryptedData);
    }
    var sk := new Encrypted(first, encryptedData.value + Zeros(key.integInfo.value.outputLength));
    msg.container.payloads := [Sk(sk)];
    status := Sign(msg, sk, encryptedData.value, key, role);
    assert Views([Sk(sk)]) == [SK(first, sk.encryptedData[..])];
  }

  /** Replaces the message's payloads by one SK payload that carries them, encrypted and signed. */
  method EncryptMsg(msg: IkeMsg, key: IkesaKey, role: Role, random: Cbc.Random, ghost ps: seq<Payload>, ghost k: SaKeys)
    returns (status: Status)
    requires k == Parts(key) && k.Valid() && ps == Views(msg.container.payloads)
    modifies msg, msg.container, Hashes(key)
    ensures Core(msg.header) == old(Core(msg.header))
    ensures var o := SkData(old(msg.header), ps, k, role, random);
            status == StatusOf(o) && (status == Done ==> Views(msg.container.payloads) == [SK(Chain.FirstType(ps), o.value)])
  {
    if key.integInfo.None? || key.encrInfo.None? || key.integ_r == null || key.encr_r.None? {
      return Failed;
    }
    var first, plain := EncodePlain(msg.container, ps);
    if !plain.Ok? {
      return StatusOf(plain);
    }
    status := SealInto(msg, first, plain.value, key, role, random, k);
  }

  /** Encodes a message, first replacing its payloads by an SK payload when there is a key. */
  method EncodeEncrypt(msg: IkeMsg, key: IkesaKey?, role: Role, random: Cbc.Random) returns (r: Outcome<bytes>)
    requires key != null ==> Parts(key).Valid()
    modifies msg, msg.container, if key != null then Hashes(key) else {}
    ensures r == Sk.EncodeEncrypt(old(msg.header), old(Views(msg.container.payloads)), PartsOrNone(key), role, random)
  {
    ghost var h, ps := msg.header, Views(msg.container.payloads);
    if key != null {
      var status := EncryptMsg(msg, key, role, random, ps, Parts(key));
      if status != Done {
        return if status == Failed then Error else Fault;
      }
    }
    EncodeByCore(h, msg.header, Views(msg.container.payloads));
    r := msg.Encode();
  }

  ghost function PartsOrNone(key: IkesaKey?): Option<SaKeys>
    reads key
  {
    if key == null then None else Some(Parts(key))
  }

  // ----- Receiving

  /** The last SK payload's next-payload byte and data; any other payload is refused. */
  method FindSk(payloads: seq<PayloadObj>, ghost ps: seq<Payload>) returns (ok: bool, next: byte, data: bytes)
    requires ps == Views(payloads) && ps != []
    ensures ok <==> AllSk(ps)
    ensures ok ==> ps[|ps| - 1] == SK(next, data)
  {
    next, data := NO_NEXT, [];
    for i := 0 to |payloads|
      invariant ps == Views(payloads) && forall j :: 0 <= j < i ==> ps[j].SK?
      invariant i > 0 ==> ps[i - 1] == SK(next, data)
    {
      ViewsAt(payloads, i);
      match payloads[i] {
        case Sk(enc) =>
          next, data := enc.nextPayload, enc.encryptedData[..];
        case Val(p) =>
          if !p.SK? {
            return false, NO_NEXT, [];
          }
          next, data := p.next, p.data;
      }
    }
    ok := true;
  }

  /** Checks the checksum under the other role's key and decrypts with the other role's cipher. */
  method OpenData(raw: bytes, data: bytes, key: IkesaKey, role: Role, ghost k: SaKeys) returns (r: Outcome<Cbc.Plain>)
    requires k == Parts(key) && k.Valid() && key.integInfo.Some?
    modifies Hashes(key)
    ensures r == Open(raw, data, k, role)
  {
    var checksumLength := key.integInfo.value.outputLength;
    if |data| < checksumLength || |raw| < checksumLength {
      return Fault;
    }
    var checksum := data[|data| - checksumLength..];
    var expected :- CalculateIntegrity(key, role.Opposite(), raw[..|raw| - checksumLength]);
    if expected != checksum {
      return Error;
    }
    var cipher := if role.Initiator? then key.encr_r else key.encr_i;
    if cipher.None? {
      return Fault;
    }
    r := Cbc.Decrypt(cipher.value, data[..|data| - checksumLength]);
  }

  /** Replaces the container's payloads by those that SK data carries. */
  method OpenInto(raw: bytes, container: IkePayloadContainer, next: byte, data: bytes, key: IkesaKey, role: Role,
                  ghost k: SaKeys)
    returns (status: Status)
    requires k == Parts(key) && k.Valid() && key.integInfo.Some?
    modifies container, Hashes(key)
    ensures var o := OpenPayloads(raw, next, data, k, role);
            status == StatusOf(o) && (status == Done ==> o == Ok(Views(container.payloads)))
    ensures status != Done ==> container.payloads == old(container.payloads)
  {
    var plain := OpenData(raw, data, key, role, k);
    if !plain.Ok? {
      return StatusOf(plain);
    }
    var decrypted := new IkePayloadContainer();
    status := decrypted.Decode(next, plain.value.text, plain.value.behind);
    if status != Done {
      return;
    }
    assert decrypted.payloads[0..] == decrypted.payloads;
    label replace:
    container.payloads := decrypted.payloads;
    ViewsFrame@replace(decrypted.payloads);
  }

  /** Replaces the SK payload of a decoded message by the payloads it carries. */
  method DecryptMsg(raw: bytes, container: IkePayloadContainer, key: IkesaKey, role: Role, ghost ps: seq<Payload>,
                    ghost k: SaKeys)
    returns (status: Status)
    requires k == Parts(key) && k.Valid() && ps == Views(container.payloads) && ps != []
    modifies container, Hashes(key)
    ensures var o := Sk.DecryptMsg(raw, ps, k, role);
            status == StatusOf(o) && (status == Done ==> o == Ok(Views(container.payloads)))
  {
    if key.integInfo.None? || key.encrInfo.None? || key.integ_i == null || key.encr_i.None? {
      return Failed;
    }
    var ok, next, data := FindSk(container.payloads, ps);
    if !ok {
      return Failed;
    }
    status := OpenInto(raw, container, next, data, key, role, k);
  }

  method DecryptIfSk(raw: bytes, container: IkePayloadContainer, key: IkesaKey?, role: Role, ghost ps: seq<Payload>)
    returns (status: Status)
    requires (key != null ==> Parts(key).Valid()) && ps == Views(container.payloads)
    modifies container, if key != null then Hashes(key) else {}
    ensures var o := Inner(raw, ps, PartsOrNone(key), role);
            status == StatusOf(o) && (status == Done ==> o == Ok(Views(container.payloads)))
  {
    if |container.payloads| == 0 {
      return Done;
    }
    ViewsAt(container.payloads, 0);
    if TypeOfObj(container.payloads[0]) != TYPE_SK {
      return Done;
    }
    if key == null {
      return Failed;
    }
    assert TypeOf(ps[0]) == TYPE_SK;
    status := DecryptMsg(raw, container, key, role, ps, Parts(key));
  }

  /**
   Decodes a message, which has the bytes `spare` behind it in its array, with a header already parsed or not, and
   decrypts it when its first payload is SK.
   */
  method DecodeDecrypt(raw: bytes, spare: bytes, header: Option<Header>, key: IkesaKey?, role: Role)
    returns (r: Outcome<IkeMsg>)
    requires key != null ==> Parts(key).Valid()
    modifies if key != null then Hashes(key) else {}
    ensures var o := Sk.DecodeDecrypt(raw, spare, header, PartsOrNone(key), role);
            StatusOf(r) == StatusOf(o) && (r.Ok? ==> o == Ok((r.value.header, Views(r.value.container.payloads))))
    ensures r.Ok? ==> fresh(r.value) && fresh(r.value.container)
  {
    var msg := new IkeMsg(Header(0, 0, 0, 0, 0, 0, 0, 0, []));
    var status := DecodeOuterInto(msg, raw, spare, header);
    if status == Done {
      status := DecryptIfSk(raw, msg.container, key, role, Views(msg.container.payloads));
    }
    return match status case Done => Ok(msg) case Failed => Error case Faulted => Fault;
  }

  method DecodeOuterInto(msg: IkeMsg, raw: bytes, spare: bytes, header: Option<Header>) returns (status: Status)
    requires msg.container.payloads == []
    modifies msg, msg.container
    ensures status == StatusOf(DecodeOuter(raw, spare, header))
    ensures status == Done ==> DecodeOuter(raw, spare, header) == Ok((msg.header, Views(msg.container.payloads)))
    ensures forall i :: 0 <= i < |msg.container.payloads| && msg.container.payloads[i].Sk?
              ==> fresh(msg.container.payloads[i].enc) && fresh(msg.container.payloads[i].enc.encryptedData)
  {
    if header.None? {
      status := msg.Decode(raw, spare);
      assert msg.container.payloads[0..] == msg.container.payloads;
    } else {
      msg.header := header.value;
      if |raw| < HEADER_LEN {
        return Faulted;
      }
      status := msg.DecodePayload(raw[HEADER_LEN..], spare);
      assert msg.container.payloads[0..] == msg.container.payloads;
    }
  }

  // ----- Every use of the shared hash objects stands on its own

  /** One use of an IKE SA's hash objects. */
  datatype Call = SumOf(role: Role, data: bytes) | ChildOf(encrLength: nat, integLength: Option<nat>, nonce: bytes)

  datatype Answer = Sum(checksum: Outcome<bytes>) | Child(keys: ChildKeys) | NoKeys

  /** What a call answers, in terms of the keys and the call alone. */
  ghost predicate Answers(k: SaKeys, prf: Keyed, call: Call, answer: Answer)
    requires k.checksumLength.Some? && Usable(prf.alg)
  {
    match call
    case SumOf(role, data) => answer == Sum(Checksum(k, role, data))
    case ChildOf(encrLength, integLength, nonce) =>
      var n := if integLength.Some? then integLength.value else 0;
      if encrLength + n == 0 then answer == NoKeys
      else answer.Child? && HasChildLengths(answer.keys, encrLength, n)
           && answer.keys.Joined() == Output(prf.alg, prf.key, nonce, 2 * (encrLength + n))
  }

  /** The answer to a call is the only one. */
  lemma AnswerUnique(k: SaKeys, prf: Keyed, call: Call, x: Answer, y: Answer)
    requires k.checksumLength.Some? && Usable(prf.alg) && Answers(k, prf, call, x) && Answers(k, prf, call, y)
    ensures x == y
  {
    if x.Child? {
      var a, b := x.keys, y.keys;
      SplitFirst(a.encrI2R + a.integI2R + a.encrR2I, a.integR2I, b.encrI2R + b.integI2R + b.encrR2I, b.integR2I);
      SplitFirst(a.encrI2R + a.integI2R, a.encrR2I, b.encrI2R + b.integI2R, b.encrR2I);
      SplitFirst(a.encrI2R, a.integI2R, b.encrI2R, b.integI2R);
    }
  }

  ghost predicate Derivable(key: IkesaKey)
    reads key
  {
    key.integInfo.Some? && key.prfInfo.Some? && key.prf_d != null && Usable(key.prf_d.alg)
  }

  /**
   Any interleaving of checksums and child key derivations on one IKE SA, whatever its hash objects had absorbed
   before: each answer depends on the keys and its own call only.
   */
  method RunCalls(key: IkesaKey, calls: seq<Call>) returns (answers: seq<Answer>)
    requires Derivable(key)
    modifies Hashes(key), key.prf_d
    ensures Derivable(key) && |answers| == |calls|
    ensures forall i :: 0 <= i < |calls| ==> Answers(Parts(key), KeyedOf(key.prf_d).value, calls[i], answers[i])
  {
    answers := [];
    for i := 0 to |calls|
      invariant |answers| == i
      invariant forall j :: 0 <= j < i ==> Answers(Parts(key), KeyedOf(key.prf_d).value, calls[j], answers[j])
    {
      var answer := RunCall(key, calls[i]);
      answers := answers + [answer];
    }
  }

  method RunCall(key: IkesaKey, call: Call) returns (answer: Answer)
    requires Derivable(key)
    modifies Hashes(key), key.prf_d
    ensures Answers(Parts(key), KeyedOf(key.prf_d).value, call, answer)
  {
    match call {
      case SumOf(role, data) =>
        var r := CalculateIntegrity(key, role, data);
        answer := Sum(r);
      case ChildOf(encrLength, integLength, nonce) =>
        var child := new ChildSaKey(Some(encrLength), integLength);
        var ok, added := child.GenerateKeyForChildSa(key, nonce);
        if ok {
          FreshKeys(added);
          answer := Child(child.keys);
        } else {
          answer := NoKeys;
        }
    }
  }

  /** On a fresh object the derived keys are exactly those added. */
  lemma FreshKeys(added: ChildKeys)
    ensures ChildKeys([], [], [], []).Appended(added) == added
  {
    assert [] + added.encrI2R == added.encrI2R && [] + added.integI2R == added.integI2R;
    assert [] + added.encrR2I == added.encrR2I && [] + added.integR2I == added.integR2I;
  }
}
