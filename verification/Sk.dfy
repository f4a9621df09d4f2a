/** Encrypted and integrity-protected messages as functions (section 3.14 of RFC 7296). */
module Sk {
  import opened Bytes
  import opened Payloads
  import Chain
  import opened Message
  import opened Cbc
  import opened PrfPlus

  datatype Role = Initiator | Responder {

    function Opposite(): Role {
      if Initiator? then Responder else Initiator
    }
  }

  /** A keyed hash. */
  datatype Keyed = Keyed(alg: Algorithm, key: bytes) {

    function Digest(data: bytes): bytes {
      alg.digest(key, data)
    }
  }

  /**
   What a key object holds, whole or in part: the checksum length if an integrity algorithm is named, whether a cipher
   is named, and the hash and the cipher of each direction.
   */
  datatype SaKeys = SaKeys(
    checksumLength: Option<nat>,
    cipherNamed: bool,
    integI: Option<Keyed>,
    integR: Option<Keyed>,
    encrI: Option<CbcCrypto>,
    encrR: Option<CbcCrypto>)
  {
    /** The hash with which `role` signs. */
    function Integ(role: Role): Option<Keyed> {
      if role.Initiator? then integI else integR
    }

    /** The cipher with which `role` encrypts. */
    function Cipher(role: Role): Option<CbcCrypto> {
      if role.Initiator? then encrI else encrR
    }

    /** What is looked at before encrypting, whichever the role. */
    predicate CanSend() {
      checksumLength.Some? && cipherNamed && integR.Some? && encrR.Some?
    }

    /** What is looked at before decrypting, whichever the role. */
    predicate CanReceive() {
      checksumLength.Some? && cipherNamed && integI.Some? && encrI.Some?
    }

    ghost predicate Valid() {
      (encrI.Some? ==> Invertible(encrI.value.block)) && (encrR.Some? ==> Invertible(encrR.value.block))
    }
  }

  /** The digest cut to the checksum length. */
  function Checksum(k: SaKeys, role: Role, data: bytes): (r: Outcome<bytes>)
    requires k.checksumLength.Some?
    ensures r.Ok? ==> |r.value| == k.checksumLength.value
  {
    if k.Integ(role).None? then Error
    else
      var sum := k.Integ(role).value.Digest(data);
      if |sum| < k.checksumLength.value then Fault else Ok(sum[..k.checksumLength.value])
  }

  // ----- Sending

  /** The message whose only payload is SK with `data`, naming `first`. */
  function Wrapped(h: Header, first: byte, data: bytes): Outcome<bytes> {
    Message.Encode(h, [SK(first, data)])
  }

  /** The checksum over the message encoded with a zeroed checksum, up to where the checksum starts. */
  function Signature(h: Header, first: byte, cipher: bytes, k: SaKeys, role: Role): Outcome<bytes>
    requires k.checksumLength.Some?
  {
    var n := k.checksumLength.value;
    var zeroed :- Wrapped(h, first, cipher + Zeros(n));
    if |zeroed| < n then Fault else Checksum(k, role, zeroed[..|zeroed| - n])
  }

  /** The ciphertext of a plaintext chain, followed by the checksum of the message that carries it. */
  function SealedData(h: Header, first: byte, plain: bytes, k: SaKeys, role: Role, random: Random): Outcome<bytes>
    requires k.Valid() && k.checksumLength.Some?
  {
    if k.Cipher(role).None? then Fault
    else
      var cipher :- EncryptBytes(k.Cipher(role).value, plain, random);
      var checksum :- Signature(h, first, cipher, k, role);
      Ok(cipher + checksum)
  }

  /** The data of the SK payload that replaces `ps`. */
  function SkData(h: Header, ps: seq<Payload>, k: SaKeys, role: Role, random: Random): Outcome<bytes>
    requires k.Valid()
  {
    if !k.CanSend() then Error
    else
      var plain :- Chain.Encode(ps);
      SealedData(h, Chain.FirstType(ps), plain, k, role, random)
  }

  /** With a key, the message is encoded a second time with the checksum in place. */
  function EncodeEncrypt(h: Header, ps: seq<Payload>, key: Option<SaKeys>, role: Role, random: Random): Outcome<bytes>
    requires key.Some? ==> key.value.Valid()
  {
    if key.None? then Message.Encode(h, ps)
    else
      var data :- SkData(h, ps, key.value, role, random);
      Wrapped(h, Chain.FirstType(ps), data)
  }

  // ----- Receiving

  predicate AllSk(ps: seq<Payload>) {
    forall i :: 0 <= i < |ps| ==> ps[i].SK?
  }

  /** Verifies the checksum, which covers the whole message in front of it, and decrypts. */
  function Open(msg: bytes, data: bytes, k: SaKeys, role: Role): Outcome<Plain>
    requires k.Valid() && k.checksumLength.Some?
  {
    var n := k.checksumLength.value;
    if |data| < n || |msg| < n then Fault
    else
      var expected :- Checksum(k, role.Opposite(), msg[..|msg| - n]);
      if expected != data[|data| - n..] then Error
      else if k.Cipher(role.Opposite()).None? then Fault
      else DecryptBytes(k.Cipher(role.Opposite()).value, data[..|data| - n])
  }

  /** Opens SK data and decodes the payloads in it, behind which the padding still stands. */
  function OpenPayloads(msg: bytes, next: byte, data: bytes, k: SaKeys, role: Role): Outcome<seq<Payload>>
    requires k.Valid() && k.checksumLength.Some?
  {
    var plain :- Open(msg, data, k, role);
    var r := Chain.Decode(next, plain.text, plain.behind);
    Completed(r, r.items)
  }

  /** Opens the last of a list of SK payloads. */
  function DecryptMsg(msg: bytes, ps: seq<Payload>, k: SaKeys, role: Role): Outcome<seq<Payload>>
    requires k.Valid() && ps != []
  {
    if !k.CanReceive() || !AllSk(ps) then Error
    else OpenPayloads(msg, ps[|ps| - 1].next, ps[|ps| - 1].data, k, role)
  }

  /** The header and the payloads as they stand before decryption; `spare` stands behind the message in its array. */
  function DecodeOuter(msg: bytes, spare: bytes, header: Option<Header>): Outcome<(Header, seq<Payload>)> {
    if header.None? then Message.Decode(msg, spare)
    else if |msg| < HEADER_LEN then Fault
    else
      var r := DecodePayload(header.value.nextPayload, msg[HEADER_LEN..], spare);
      Completed(r, (header.value, r.items))
  }

  /** Decrypts if the first payload is SK; any other list is returned as it is. */
  function Inner(msg: bytes, ps: seq<Payload>, key: Option<SaKeys>, role: Role): Outcome<seq<Payload>>
    requires key.Some? ==> key.value.Valid()
  {
    if ps == [] || TypeOf(ps[0]) != TYPE_SK then Ok(ps)
    else if key.None? then Error
    else DecryptMsg(msg, ps, key.value, role)
  }

  function DecodeDecrypt(msg: bytes, spare: bytes, header: Option<Header>, key: Option<SaKeys>, role: Role)
    : Outcome<(Header, seq<Payload>)>
    requires key.Some? ==> key.value.Valid()
  {
    var outer :- DecodeOuter(msg, spare, header);
    var ps :- Inner(msg, outer.1, key, role);
    Ok((outer.0, ps))
  }

  // ----- What is sent

  /** The bytes in front of the SK data depend on its length only. */
  function WrappedPrefix(h: Header, first: byte, n: nat): bytes
    requires 4 + n <= 0xFFFF
  {
    Prefix(h.(nextPayload := TYPE_SK), HEADER_LEN + 4 + n) + [first, 0, Hi(4 + n), Lo(4 + n)]
  }

  lemma OneSk(first: byte, data: bytes)
    ensures Chain.Encode([SK(first, data)]) ==
            if data == [] || 4 + |data| > 0xFFFF then Error
            else Ok([first, 0, Hi(4 + |data|), Lo(4 + |data|)] + data)
  {
    var sk := SK(first, data);
    assert [sk][1..] == [];
    if data != [] && 4 + |data| <= 0xFFFF {
      var b: bytes := [first, 0, Hi(4 + |data|), Lo(4 + |data|)] + data;
      assert b + [] == b;
    }
  }

  /** The layout of a message with one SK payload. */
  lemma WrappedLayout(h: Header, first: byte, data: bytes)
    ensures Wrapped(h, first, data) ==
            if data == [] || 4 + |data| > 0xFFFF then Error else Ok(WrappedPrefix(h, first, |data|) + data)
  {
    OneSk(first, data);
    if data != [] && 4 + |data| <= 0xFFFF {
      var n := 4 + |data|;
      ConcatAssoc(Prefix(h.(nextPayload := TYPE_SK), HEADER_LEN + n), [first, 0, Hi(n), Lo(n)], data);
    }
  }

  lemma SignedAt(front: bytes, cipher: bytes, tail: bytes, n: nat)
    requires |tail| == n
    ensures var b := front + (cipher + tail);
            |b| >= n && b[..|b| - n] == front + cipher && b == (front + cipher) + tail
  {
  }

  /** What stands in front of the checksum, whatever stands in its place. */
  lemma Covered(h: Header, first: byte, cipher: bytes, tail: bytes)
    requires Wrapped(h, first, cipher + tail).Ok?
    ensures 4 + |cipher| + |tail| <= 0xFFFF
    ensures var b, p := Wrapped(h, first, cipher + tail).value, WrappedPrefix(h, first, |cipher| + |tail|) + cipher;
            |b| >= |tail| && b[..|b| - |tail|] == p && b == p + tail
  {
    WrappedLayout(h, first, cipher + tail);
    SignedAt(WrappedPrefix(h, first, |cipher| + |tail|), cipher, tail, |tail|);
  }

  /** The checksum covers everything in front of it, which does not depend on what stands in its place. */
  lemma SignatureCovers(h: Header, first: byte, cipher: bytes, k: SaKeys, role: Role)
    requires k.checksumLength.Some? && Wrapped(h, first, cipher + Zeros(k.checksumLength.value)).Ok?
    ensures 4 + |cipher| + k.checksumLength.value <= 0xFFFF
    ensures var p := WrappedPrefix(h, first, |cipher| + k.checksumLength.value) + cipher;
            Signature(h, first, cipher, k, role) == Checksum(k, role, p)
  {
    Covered(h, first, cipher, Zeros(k.checksumLength.value));
  }

  /** The message that carries a ciphertext and its signature: what is in front of the checksum, and its checksum. */
  lemma SignedMessage(h: Header, first: byte, cipher: bytes, k: SaKeys, role: Role, checksum: bytes)
    requires k.checksumLength.Some? && Signature(h, first, cipher, k, role) == Ok(checksum)
    requires Wrapped(h, first, cipher + checksum).Ok?
    ensures var b := Wrapped(h, first, cipher + checksum).value;
            && |checksum| == k.checksumLength.value <= |b|
            && Checksum(k, role, b[..|b| - |checksum|]) == Ok(checksum)
            && b == b[..|b| - |checksum|] + checksum
  {
    SignatureCovers(h, first, cipher, k, role);
    Covered(h, first, cipher, checksum);
  }

  /** The parts of what was sent. */
  lemma SentParts(h: Header, ps: seq<Payload>, k: SaKeys, role: Role, random: Random)
    returns (plain: bytes, cipher: bytes, checksum: bytes)
    requires k.Valid() && EncodeEncrypt(h, ps, Some(k), role, random).Ok?
    ensures k.CanSend() && Chain.Encode(ps) == Ok(plain)
    ensures k.Cipher(role).Some? && EncryptBytes(k.Cipher(role).value, plain, random) == Ok(cipher)
    ensures Signature(h, Chain.FirstType(ps), cipher, k, role) == Ok(checksum)
    ensures EncodeEncrypt(h, ps, Some(k), role, random) == Wrapped(h, Chain.FirstType(ps), cipher + checksum)
  {
    plain := Chain.Encode(ps).value;
    cipher := EncryptBytes(k.Cipher(role).value, plain, random).value;
    checksum := Signature(h, Chain.FirstType(ps), cipher, k, role).value;
  }

  /** `b` is some P followed by the first `n` bytes of the keyed hash of P. */
  predicate SignedUnder(b: bytes, hash: Keyed, n: nat) {
    && |b| >= n
    && var p := b[..|b| - n];
    |hash.Digest(p)| >= n && b == p + hash.Digest(p)[..n]
  }

  /**
   Every message sent with a key is some P followed by the truncated keyed hash of P under the integrity key of the
   sender's role: putting the checksum in place after the first encoding changes nothing in front of it.
   */
  lemma SentIsSigned(h: Header, ps: seq<Payload>, k: SaKeys, role: Role, random: Random)
    requires k.Valid() && EncodeEncrypt(h, ps, Some(k), role, random).Ok?
    ensures var hash := if role == Initiator then k.integI else k.integR;
            && k.checksumLength.Some? && hash.Some?
            && SignedUnder(EncodeEncrypt(h, ps, Some(k), role, random).value, hash.value, k.checksumLength.value)
  {
    var _, cipher, checksum := SentParts(h, ps, k, role, random);
    MessageIsSigned(h, Chain.FirstType(ps), cipher, k, role, checksum);
  }

  lemma MessageIsSigned(h: Header, first: byte, cipher: bytes, k: SaKeys, role: Role, checksum: bytes)
    requires k.checksumLength.Some? && Signature(h, first, cipher, k, role) == Ok(checksum)
    requires Wrapped(h, first, cipher + checksum).Ok?
    ensures var hash := if role == Initiator then k.integI else k.integR;
            hash.Some? && SignedUnder(Wrapped(h, first, cipher + checksum).value, hash.value, k.checksumLength.value)
  {
    SignedMessage(h, first, cipher, k, role, checksum);
  }

  // ----- When sending succeeds

  /** The hash that `role` signs with gives digests of its stated size. */
  ghost predicate SizedHash(k: SaKeys, role: Role) {
    k.Integ(role).Some? ==> Sized(k.Integ(role).value.alg)
  }

  /** The parts are present, the digest is long enough, and the plaintext fits a payload with all that is added to it. */
  predicate CanSeal(k: SaKeys, role: Role, plain: bytes) {
    && k.CanSend() && k.Integ(role).Some? && k.Cipher(role).Some?
    && k.checksumLength.value <= k.Integ(role).value.alg.size
    && CanEncrypt(k.Cipher(role).value, plain)
    && 4 + BLOCK + |plain| + AddedLength(k.Cipher(role).value, plain) + k.checksumLength.value <= 0xFFFF
  }

  lemma SignsExactly(h: Header, first: byte, cipher: bytes, k: SaKeys, role: Role)
    requires k.checksumLength.Some? && SizedHash(k, role) && cipher != []
    ensures Signature(h, first, cipher, k, role).Ok? <==>
            && k.Integ(role).Some? && k.checksumLength.value <= k.Integ(role).value.alg.size
            && 4 + |cipher| + k.checksumLength.value <= 0xFFFF
  {
    WrappedLayout(h, first, cipher + Zeros(k.checksumLength.value));
  }

  lemma SealsExactly(h: Header, first: byte, plain: bytes, k: SaKeys, role: Role, random: Random)
    requires k.Valid() && k.CanSend() && SizedHash(k, role)
    ensures SealedData(h, first, plain, k, role, random).Ok? <==> CanSeal(k, role, plain)
    ensures CanSeal(k, role, plain) ==> Wrapped(h, first, SealedData(h, first, plain, k, role, random).value).Ok?
  {
    if k.Cipher(role).Some? {
      EncryptsExactly(k.Cipher(role).value, plain, random);
      if CanEncrypt(k.Cipher(role).value, plain) {
        var cipher := EncryptBytes(k.Cipher(role).value, plain, random).value;
        SignsExactly(h, first, cipher, k, role);
        if Signature(h, first, cipher, k, role).Ok? {
          SignatureLength(h, first, cipher, k, role);
          WrappedLayout(h, first, cipher + Signature(h, first, cipher, k, role).value);
        }
      }
    }
  }

  lemma SignatureLength(h: Header, first: byte, cipher: bytes, k: SaKeys, role: Role)
    requires k.checksumLength.Some? && Signature(h, first, cipher, k, role).Ok?
    ensures |Signature(h, first, cipher, k, role).value| == k.checksumLength.value
  {
  }

  /** Sending with a key succeeds exactly when the chain can be encoded and sealed, whatever is drawn. */
  lemma SendsExactly(h: Header, ps: seq<Payload>, k: SaKeys, role: Role, random: Random)
    requires k.Valid() && SizedHash(k, role)
    ensures EncodeEncrypt(h, ps, Some(k), role, random).Ok?
            <==> Chain.Encode(ps).Ok? && CanSeal(k, role, Chain.Encode(ps).value)
  {
    if k.CanSend() && Chain.Encode(ps).Ok? {
      SealsExactly(h, Chain.FirstType(ps), Chain.Encode(ps).value, k, role, random);
    }
  }

  // ----- What is received

  /** The header as the receiver of `b` reads it. */
  function HeaderOf(h: Header, b: bytes): Header
    requires |b| >= HEADER_LEN
  {
    AsRead(h.(nextPayload := TYPE_SK), b[HEADER_LEN..])
  }

  lemma OneSkDecodes(first: byte, data: bytes, spare: bytes)
    requires data != [] && 4 + |data| <= 0xFFFF
    ensures var chain: bytes := [first, 0, Hi(4 + |data|), Lo(4 + |data|)] + data;
            Chain.Decode(TYPE_SK, chain, spare) == Parsed(Done, [SK(first, data)])
  {
    OneSk(first, data);
    Chain.ChainRoundTrip([SK(first, data)], TYPE_SK, spare);
  }

  /** A message laid out with one SK payload is read back as that payload. */
  lemma LaidOutDecodes(h: Header, first: byte, data: bytes, spare: bytes)
    requires data != [] && 4 + |data| <= 0xFFFF
    ensures var chain: bytes := [first, 0, Hi(4 + |data|), Lo(4 + |data|)] + data;
            var b := Prefix(h.(nextPayload := TYPE_SK), HEADER_LEN + 4 + |data|) + chain;
            |b| >= HEADER_LEN && Message.Decode(b, spare) == Ok((HeaderOf(h, b), [SK(first, data)]))
  {
    var chain: bytes := [first, 0, Hi(4 + |data|), Lo(4 + |data|)] + data;
    var linked := h.(nextPayload := TYPE_SK);
    OneSkDecodes(first, data, spare);
    PrefixParses(linked, HEADER_LEN + 4 + |data|, chain);
    PrefixFields(linked, HEADER_LEN + 4 + |data|, chain);
  }

  /** The outer message is read back as the one SK payload. */
  lemma WrappedDecodes(h: Header, first: byte, data: bytes, spare: bytes)
    requires Wrapped(h, first, data).Ok?
    ensures var b := Wrapped(h, first, data).value;
            |b| >= HEADER_LEN && Message.Decode(b, spare) == Ok((HeaderOf(h, b), [SK(first, data)]))
  {
    WrappedLayout(h, first, data);
    LaidOutDecodes(h, first, data, spare);
    var n := 4 + |data|;
    ConcatAssoc(Prefix(h.(nextPayload := TYPE_SK), HEADER_LEN + n), [first, 0, Hi(n), Lo(n)], data);
  }

  /** Whether what `role` encrypts can be decrypted again. */
  predicate Removable(k: SaKeys, role: Role) {
    k.Cipher(role).Some? ==> RemovablePadding(k.Cipher(role).value)
  }

  /** The other role opens what was sent, whatever was drawn, with the padding behind it. */
  lemma OpenSent(msg: bytes, plain: bytes, cipher: bytes, checksum: bytes, k: SaKeys, role: Role, random: Random)
    requires k.Valid() && k.checksumLength.Some? && k.Cipher(role).Some? && Removable(k, role)
    requires EncryptBytes(k.Cipher(role).value, plain, random) == Ok(cipher)
    requires |checksum| == k.checksumLength.value <= |msg| && Checksum(k, role, msg[..|msg| - |checksum|]) == Ok(checksum)
    ensures Open(msg, cipher + checksum, k, role.Opposite()) == Ok(Plain(plain, Added(k.Cipher(role).value, plain, random)))
  {
    DecryptEncrypt(k.Cipher(role).value, k.Cipher(role).value, plain, random);
    OpenGood(msg, cipher, checksum, k, role);
  }

  /** A good checksum leaves the result to the cipher. */
  lemma OpenGood(msg: bytes, cipher: bytes, checksum: bytes, k: SaKeys, role: Role)
    requires k.Valid() && k.checksumLength.Some? && k.Cipher(role).Some?
    requires |checksum| == k.checksumLength.value <= |msg| && Checksum(k, role, msg[..|msg| - |checksum|]) == Ok(checksum)
    ensures Open(msg, cipher + checksum, k, role.Opposite()) == DecryptBytes(k.Cipher(role).value, cipher)
  {
    var data := cipher + checksum;
    assert data[..|cipher|] == cipher && data[|cipher|..] == checksum;
  }

  lemma InnerOne(msg: bytes, first: byte, data: bytes, k: SaKeys, role: Role, plain: Plain)
    requires k.Valid() && k.checksumLength.Some? && Open(msg, data, k, role) == Ok(plain)
    ensures var r := Chain.Decode(first, plain.text, plain.behind);
            Inner(msg, [SK(first, data)], Some(k), role) == if k.CanReceive() then Completed(r, r.items) else Error
  {
    OpenedIs(msg, first, data, k, role, plain);
    DecryptOne(msg, first, data, k, role);
  }

  lemma DecryptOne(msg: bytes, first: byte, data: bytes, k: SaKeys, role: Role)
    requires k.Valid()
    ensures DecryptMsg(msg, [SK(first, data)], k, role) ==
            if k.CanReceive() then OpenPayloads(msg, first, data, k, role) else Error
  {
    var ps := [SK(first, data)];
    assert AllSk(ps) && ps[|ps| - 1] == SK(first, data);
  }

  lemma OpenedIs(msg: bytes, first: byte, data: bytes, k: SaKeys, role: Role, plain: Plain)
    requires k.Valid() && k.checksumLength.Some? && Open(msg, data, k, role) == Ok(plain)
    ensures var r := Chain.Decode(first, plain.text, plain.behind);
            OpenPayloads(msg, first, data, k, role) == Completed(r, r.items)
  {
  }

  /** The padding that stands behind the plaintext of what `role` sends. */
  function PaddingSent(k: SaKeys, role: Role, plain: bytes, random: Random): bytes {
    if k.Cipher(role).Some? && PlainPadded(k.Cipher(role).value, plain, random).Ok?
    then Added(k.Cipher(role).value, plain, random) else []
  }

  /**
   What the other role receives: the header as read, and what decoding the plaintext chain gives, where the padding
   that was sent stands behind the chain.
   */
  lemma Received(h: Header, ps: seq<Payload>, k: SaKeys, role: Role, random: Random, spare: bytes)
    requires k.Valid() && Removable(k, role) && EncodeEncrypt(h, ps, Some(k), role, random).Ok?
    ensures Chain.Encode(ps).Ok?
    ensures var b := EncodeEncrypt(h, ps, Some(k), role, random).value;
            && |b| >= HEADER_LEN
            && Message.Decode(b, spare).Ok? && Message.Decode(b, spare).value.0 == HeaderOf(h, b)
            && var plain := Chain.Encode(ps).value;
            var r := Chain.Decode(Chain.FirstType(ps), plain, PaddingSent(k, role, plain, random));
            Inner(b, Message.Decode(b, spare).value.1, Some(k), role.Opposite()) ==
            if k.CanReceive() then Completed(r, r.items) else Error
  {
    var b, first := EncodeEncrypt(h, ps, Some(k), role, random).value, Chain.FirstType(ps);
    var plain, cipher, checksum := SentParts(h, ps, k, role, random);
    SignedMessage(h, first, cipher, k, role, checksum);
    WrappedDecodes(h, first, cipher + checksum, spare);
    OpenSent(b, plain, cipher, checksum, k, role, random);
    InnerOne(b, first, cipher + checksum, k, role.Opposite(), Plain(plain, Added(k.Cipher(role).value, plain, random)));
  }

  /**
   Whatever is drawn at random, and whatever stands behind the message, what one role sends the other role receives with
   the same keys: the header as read, and exactly the payload list, when the chain is well formed and what receiving
   looks at is present. Unless it has a strange AKA' body, no other list comes back.
   */
  lemma SkRoundTrip(h: Header, ps: seq<Payload>, k: SaKeys, role: Role, random: Random, spare: bytes)
    requires k.Valid() && Removable(k, role) && EncodeEncrypt(h, ps, Some(k), role, random).Ok?
    ensures var b := EncodeEncrypt(h, ps, Some(k), role, random).value;
            && |b| >= HEADER_LEN
            && var sent := Ok((HeaderOf(h, b), ps));
            && (Chain.WfChain(ps) && k.CanReceive() ==> DecodeDecrypt(b, spare, None, Some(k), role.Opposite()) == sent)
            && (Chain.NoStrange(ps) && DecodeDecrypt(b, spare, None, Some(k), role.Opposite()) == sent ==>
                  Chain.WfChain(ps) && k.CanReceive())
  {
    Received(h, ps, k, role, random, spare);
    Chain.ChainRoundTrip(ps, Chain.FirstType(ps), PaddingSent(k, role, Chain.Encode(ps).value, random));
  }

  /** Passing the header parsed from the message gives the same result as letting the message be parsed. */
  lemma HeaderInHand(msg: bytes, spare: bytes, key: Option<SaKeys>, role: Role)
    requires (key.Some? ==> key.value.Valid()) && ParseHeader(msg).Ok?
    ensures DecodeDecrypt(msg, spare, Some(ParseHeader(msg).value), key, role) == DecodeDecrypt(msg, spare, None, key, role)
  {
    assert DecodeOuter(msg, spare, Some(ParseHeader(msg).value)) == DecodeOuter(msg, spare, None);
  }
}
