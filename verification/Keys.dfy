/** Key material for IKE and child SAs (sections 2.14 and 2.17 of RFC 7296) and for EAP-AKA' (section 3.4.1 of RFC 9048). */
module Keys {
  import opened Bytes
  import opened PrfPlus
  import opened Cbc

  datatype PrfInfo = PrfInfo(hash: Algorithm, keyLength: nat)

  datatype IntegInfo = IntegInfo(hash: Algorithm, keyLength: nat, outputLength: nat)

  /** `cipher` gives the block cipher of a key, or none for a key of a wrong length. */
  datatype EncrInfo = EncrInfo(cipher: bytes -> Option<BlockCipher>, keyLength: nat)

  ghost predicate Usable(a: Algorithm) {
    Sized(a) && a.size > 0
  }

  function NewCrypto(info: EncrInfo, key: bytes): Option<CbcCrypto> {
    if |key| != info.keyLength || info.cipher(key).None? then None
    else Some(CbcCrypto(info.cipher(key).value, None, None))
  }

  /** An integrity hash refuses a key of another length. */
  method InitInteg(info: IntegInfo, key: bytes) returns (h: Hash?)
    ensures h == null <==> |key| != info.keyLength
    ensures h != null ==> fresh(h) && h.alg == info.hash && h.key == key
  {
    if |key| == info.keyLength {
      h := new Hash(info.hash, key);
    } else {
      h := null;
    }
  }

  /** Ni | Nr | SPIi | SPIr. */
  function NonceAndSpi(nonce: bytes, spiI: uint64, spiR: uint64): bytes {
    nonce + Put64(spiI) + Put64(spiR)
  }

  /** The seven keys of an IKE SA, in the order in which they are cut from the key stream. */
  datatype SkKeys = SkKeys(d: bytes, ai: bytes, ar: bytes, ei: bytes, er: bytes, pi: bytes, pr: bytes) {

    function Joined(): bytes {
      d + ai + ar + ei + er + pi + pr
    }
  }

  function TotalLength(prf: PrfInfo, integ: IntegInfo, encr: EncrInfo): nat {
    3 * prf.keyLength + 2 * integ.keyLength + 2 * encr.keyLength
  }

  /** {SK_d | SK_ai | SK_ar | SK_ei | SK_er | SK_pi | SK_pr} = prf+(prf(Ni | Nr, g^ir), Ni | Nr | SPIi | SPIr). */
  function IkeKeyStream(prf: PrfInfo, nonce: bytes, shared: bytes, spiI: uint64, spiR: uint64, length: nat): bytes
    requires Usable(prf.hash)
  {
    Output(prf.hash, prf.hash.digest(nonce, shared), NonceAndSpi(nonce, spiI, spiR), length)
  }

  /** Keys of exactly the required lengths. */
  predicate HasLengths(k: SkKeys, prf: PrfInfo, integ: IntegInfo, encr: EncrInfo) {
    && |k.d| == |k.pi| == |k.pr| == prf.keyLength
    && |k.ai| == |k.ar| == integ.keyLength
    && |k.ei| == |k.er| == encr.keyLength
  }

  /** The lengths and the joined bytes determine the seven keys. */
  lemma KeysUnique(k: SkKeys, l: SkKeys, prf: PrfInfo, integ: IntegInfo, encr: EncrInfo)
    requires HasLengths(k, prf, integ, encr) && HasLengths(l, prf, integ, encr) && k.Joined() == l.Joined()
    ensures k == l
  {
    SplitFirst(k.d + k.ai + k.ar + k.ei + k.er + k.pi, k.pr, l.d + l.ai + l.ar + l.ei + l.er + l.pi, l.pr);
    SplitFirst(k.d + k.ai + k.ar + k.ei + k.er, k.pi, l.d + l.ai + l.ar + l.ei + l.er, l.pi);
    SplitFirst(k.d + k.ai + k.ar + k.ei, k.er, l.d + l.ai + l.ar + l.ei, l.er);
    SplitFirst(k.d + k.ai + k.ar, k.ei, l.d + l.ai + l.ar, l.ei);
    SplitFirst(k.d + k.ai, k.ar, l.d + l.ai, l.ar);
    SplitFirst(k.d, k.ai, l.d, l.ai);
  }

  lemma SplitFirst(a: bytes, b: bytes, c: bytes, d: bytes)
    requires a + b == c + d && |a| == |c|
    ensures a == c && b == d
  {
    assert a == (a + b)[..|a|] && c == (c + d)[..|c|];
    assert b == (a + b)[|a|..] && d == (c + d)[|c|..];
  }

  class IkesaKey {
    var dhKnown: bool
    var encrInfo: Option<EncrInfo>
    var integInfo: Option<IntegInfo>
    var prfInfo: Option<PrfInfo>

    var prf_d: Hash?
    var integ_i: Hash?
    var integ_r: Hash?
    var encr_i: Option<CbcCrypto>
    var encr_r: Option<CbcCrypto>
    var prf_i: Hash?
    var prf_r: Hash?

    var sk: SkKeys

    constructor (encrInfo: Option<EncrInfo>, integInfo: Option<IntegInfo>, prfInfo: Option<PrfInfo>, dhKnown: bool)
      ensures this.encrInfo == encrInfo && this.integInfo == integInfo && this.prfInfo == prfInfo && this.dhKnown == dhKnown
    {
      this.encrInfo, this.integInfo, this.prfInfo, this.dhKnown := encrInfo, integInfo, prfInfo, dhKnown;
      prf_d, integ_i, integ_r, prf_i, prf_r := null, null, null, null, null;
      encr_i, encr_r := None, None;
      sk := SkKeys([], [], [], [], [], [], []);
    }

    predicate CanGenerate(nonce: bytes, shared: bytes)
      reads this
    {
      encrInfo.Some? && integInfo.Some? && prfInfo.Some? && dhKnown && nonce != [] && shared != []
    }

    /** Derives the seven keys and sets up the objects that use them. */
    method GenerateKeyForIkesa(nonce: bytes, shared: bytes, spiI: uint64, spiR: uint64) returns (ok: bool)
      requires prfInfo.Some? ==> Usable(prfInfo.value.hash)
      modifies this
      ensures encrInfo == old(encrInfo) && integInfo == old(integInfo) && prfInfo == old(prfInfo) && dhKnown == old(dhKnown)
      ensures ok ==> old(CanGenerate(nonce, shared))
      ensures old(CanGenerate(nonce, shared)) ==>
                var prf, integ, encr := prfInfo.value, integInfo.value, encrInfo.value;
                var total := TotalLength(prf, integ, encr);
                && (ok <==> total > 0 && NewCrypto(encr, sk.ei).Some? && NewCrypto(encr, sk.er).Some?)
                && (total > 0 ==> && sk.Joined() == IkeKeyStream(prf, nonce, shared, spiI, spiR, total)
                                  && HasLengths(sk, prf, integ, encr))
      ensures ok ==> Installed() && fresh(prf_d) && fresh(integ_i) && fresh(integ_r)
    {
      if encrInfo.None? || integInfo.None? || prfInfo.None? || !dhKnown || |nonce| == 0 || |shared| == 0 {
        return false;
      }
      var info, integ, encr := prfInfo.value, integInfo.value, encrInfo.value;
      var keys := DeriveKeys(info, integ, encr, nonce, shared, spiI, spiR);
      if keys.None? {
        return false;
      }
      ok := Install(keys.value);
    }

    /** Assigns the keys, then the hash and cipher objects, stopping at a cipher that cannot be made. */
    method Install(keys: SkKeys) returns (ok: bool)
      requires encrInfo.Some? && integInfo.Some? && prfInfo.Some?
      requires HasLengths(keys, prfInfo.value, integInfo.value, encrInfo.value)
      modifies this
      ensures encrInfo == old(encrInfo) && integInfo == old(integInfo) && prfInfo == old(prfInfo) && dhKnown == old(dhKnown)
      ensures sk == keys
      ensures ok <==> NewCrypto(encrInfo.value, keys.ei).Some? && NewCrypto(encrInfo.value, keys.er).Some?
      ensures ok ==> Installed() && fresh(prf_d) && fresh(integ_i) && fresh(integ_r)
    {
      sk := keys;
      InstallHashes();
      ok := InstallCiphers();
      if ok {
        InstallPrfs();
      }
    }

    method InstallHashes()
      requires prfInfo.Some? && integInfo.Some? && |sk.ai| == |sk.ar| == integInfo.value.keyLength
      modifies this`prf_d, this`integ_i, this`integ_r
      ensures KeyedBy(prf_d, prfInfo.value.hash, sk.d) && fresh(prf_d)
      ensures KeyedBy(integ_i, integInfo.value.hash, sk.ai) && fresh(integ_i)
      ensures KeyedBy(integ_r, integInfo.value.hash, sk.ar) && fresh(integ_r)
    {
      prf_d := new Hash(prfInfo.value.hash, sk.d);
      integ_i := InitInteg(integInfo.value, sk.ai);
      integ_r := InitInteg(integInfo.value, sk.ar);
    }

    method InstallCiphers() returns (ok: bool)
      requires encrInfo.Some?
      modifies this`encr_i, this`encr_r
      ensures ok <==> NewCrypto(encrInfo.value, sk.ei).Some? && NewCrypto(encrInfo.value, sk.er).Some?
      ensures ok ==> encr_i == NewCrypto(encrInfo.value, sk.ei) && encr_r == NewCrypto(encrInfo.value, sk.er)
    {
      encr_i := NewCrypto(encrInfo.value, sk.ei);
      if encr_i.None? {
        return false;
      }
      encr_r := NewCrypto(encrInfo.value, sk.er);
      return encr_r.Some?;
    }

    method InstallPrfs()
      requires prfInfo.Some?
      modifies this`prf_i, this`prf_r
      ensures KeyedBy(prf_i, prfInfo.value.hash, sk.pi) && KeyedBy(prf_r, prfInfo.value.hash, sk.pr)
    {
      prf_i := new Hash(prfInfo.value.hash, sk.pi);
      prf_r := new Hash(prfInfo.value.hash, sk.pr);
    }

    /** Every object is keyed with the key meant for it. */
    ghost predicate Installed()
      reads this
    {
      && encrInfo.Some? && integInfo.Some? && prfInfo.Some?
      && KeyedBy(prf_d, prfInfo.value.hash, sk.d)
      && KeyedBy(prf_i, prfInfo.value.hash, sk.pi) && KeyedBy(prf_r, prfInfo.value.hash, sk.pr)
      && KeyedBy(integ_i, integInfo.value.hash, sk.ai) && KeyedBy(integ_r, integInfo.value.hash, sk.ar)
      && encr_i == NewCrypto(encrInfo.value, sk.ei) && encr_r == NewCrypto(encrInfo.value, sk.er)
    }
  }

  ghost predicate KeyedBy(h: Hash?, a: Algorithm, key: bytes) {
    h != null && h.alg == a && h.key == key
  }

  /** SKEYSEED, the seed, the expansion and the cut; an expansion to no bytes at all is an error. */
  method DeriveKeys(prf: PrfInfo, integ: IntegInfo, encr: EncrInfo, nonce: bytes, shared: bytes, spiI: uint64, spiR: uint64)
    returns (k: Option<SkKeys>)
    requires Usable(prf.hash)
    ensures k.None? <==> TotalLength(prf, integ, encr) == 0
    ensures k.Some? ==> && k.value.Joined() == IkeKeyStream(prf, nonce, shared, spiI, spiR, TotalLength(prf, integ, encr))
                        && HasLengths(k.value, prf, integ, encr)
  {
    var h := new Hash(prf.hash, nonce);
    h.Write(shared);
    assert [] + shared == shared;
    var skeyseed := h.Sum();
    var seed := NonceAndSpi(nonce, spiI, spiR);
    var expander := new Hash(prf.hash, skeyseed);
    var slice := PrfPlus.PrfPlus(expander, seed, TotalLength(prf, integ, encr));
    if slice.Nil? {
      return None;
    }
    var cut := Cut(slice.Contents(), prf.keyLength, integ.keyLength, encr.keyLength);
    return Some(cut);
  }

  /** Cuts the key stream by advancing through it. */
  method Cut(stream: bytes, prfLength: nat, integLength: nat, encrLength: nat) returns (k: SkKeys)
    requires |stream| == 3 * prfLength + 2 * integLength + 2 * encrLength
    ensures k.Joined() == stream
    ensures |k.d| == |k.pi| == |k.pr| == prfLength && |k.ai| == |k.ar| == integLength && |k.ei| == |k.er| == encrLength
  {
    var rest := stream;
    ghost var front: bytes := [];
    assert stream == front + rest;
    var d := rest[..prfLength];
    front, rest := Advance(front, rest, prfLength);
    var ai := rest[..integLength];
    front, rest := Advance(front, rest, integLength);
    var ar := rest[..integLength];
    front, rest := Advance(front, rest, integLength);
    var ei := rest[..encrLength];
    front, rest := Advance(front, rest, encrLength);
    var er := rest[..encrLength];
    front, rest := Advance(front, rest, encrLength);
    var pi := rest[..prfLength];
    front, rest := Advance(front, rest, prfLength);
    k := SkKeys(d, ai, ar, ei, er, pi, rest[..prfLength]);
    assert rest[..prfLength] == rest && [] + d == d;
  }

  /** Drops `n` bytes from the rest of a stream of which `front` has been used. */
  method Advance(ghost front: bytes, rest: bytes, n: nat) returns (ghost front': bytes, rest': bytes)
    requires n <= |rest|
    ensures front' == front + rest[..n] && rest' == rest[n..] && front' + rest' == front + rest
  {
    front', rest' := front + rest[..n], rest[n..];
    assert rest == rest[..n] + rest[n..];
    ConcatAssoc(front, rest[..n], rest[n..]);
  }

  /** The keys of a child SA. */
  datatype ChildKeys = ChildKeys(encrI2R: bytes, integI2R: bytes, encrR2I: bytes, integR2I: bytes) {

    function Joined(): bytes {
      encrI2R + integI2R + encrR2I + integR2I
    }

    function Appended(k: ChildKeys): ChildKeys {
      ChildKeys(encrI2R + k.encrI2R, integI2R + k.integI2R, encrR2I + k.encrR2I, integR2I + k.integR2I)
    }
  }

  predicate HasChildLengths(k: ChildKeys, encrLength: nat, integLength: nat) {
    |k.encrI2R| == |k.encrR2I| == encrLength && |k.integI2R| == |k.integR2I| == integLength
  }

  class ChildSaKey {
    var encrKeyLength: Option<nat>
    var integKeyLength: Option<nat>
    var keys: ChildKeys

    constructor (encrKeyLength: Option<nat>, integKeyLength: Option<nat>)
      ensures this.encrKeyLength == encrKeyLength && this.integKeyLength == integKeyLength
      ensures keys == ChildKeys([], [], [], [])
    {
      this.encrKeyLength, this.integKeyLength, keys := encrKeyLength, integKeyLength, ChildKeys([], [], [], []);
    }

    function IntegLength(): nat
      reads this
    {
      if integKeyLength.Some? then integKeyLength.value else 0
    }

    /** KEYMAT = prf+(SK_d, Ni | Nr), cut into four keys that are appended to those already there. */
    method GenerateKeyForChildSa(ikesa: IkesaKey?, nonce: bytes) returns (ok: bool, ghost added: ChildKeys)
      requires ikesa != null && ikesa.prf_d != null ==> Usable(ikesa.prf_d.alg)
      modifies this`keys, if ikesa != null && ikesa.prf_d != null then {ikesa.prf_d} else {}
      ensures ok <==> && ikesa != null && ikesa.prfInfo.Some? && ikesa.prf_d != null && encrKeyLength.Some?
                      && encrKeyLength.value + IntegLength() > 0
      ensures ok ==> && keys == old(keys).Appended(added)
                     && HasChildLengths(added, encrKeyLength.value, IntegLength())
                     && added.Joined() == Output(ikesa.prf_d.alg, ikesa.prf_d.key, nonce,
                                                 2 * (encrKeyLength.value + IntegLength()))
      ensures !ok ==> keys == old(keys)
    {
      added := ChildKeys([], [], [], []);
      if ikesa == null || ikesa.prfInfo.None? || encrKeyLength.None? || ikesa.prf_d == null {
        return false, added;
      }
      var encrLength, integLength := encrKeyLength.value, 0;
      if integKeyLength.Some? {
        integLength := integKeyLength.value;
      }
      var total := (encrLength + integLength) * 2;
      var slice := PrfPlus.PrfPlus(ikesa.prf_d, nonce, total);
      if slice.Nil? {
        return false, added;
      }
      var cut := CutChild(slice.Contents(), encrLength, integLength);
      keys := keys.Appended(cut);
      return true, cut;
    }
  }

  method CutChild(stream: bytes, encrLength: nat, integLength: nat) returns (k: ChildKeys)
    requires |stream| == 2 * (encrLength + integLength)
    ensures k.Joined() == stream && HasChildLengths(k, encrLength, integLength)
  {
    var rest := stream;
    var encrI2R := rest[..encrLength];
    rest := rest[encrLength..];
    var integI2R := rest[..integLength];
    rest := rest[integLength..];
    assert stream == encrI2R + integI2R + rest;
    var encrR2I := rest[..encrLength];
    rest := rest[encrLength..];
    assert stream == encrI2R + integI2R + encrR2I + rest;
    k := ChildKeys(encrI2R, integI2R, encrR2I, rest[..integLength]);
    assert rest[..integLength] == rest;
  }

  // ----- EAP-AKA'

  datatype AkaKeys = AkaKeys(encr: bytes, aut: bytes, re: bytes, msk: bytes, emsk: bytes) {

    function Joined(): bytes {
      encr + aut + re + msk + emsk
    }
  }

  /** The eight bytes of the text EAP-AKA'. */
  const LABEL: bytes := [0x45, 0x41, 0x50, 0x2D, 0x41, 0x4B, 0x41, 0x27]

  const AKA_ROUNDS := 7

  /** A second, independent expansion loop: its five keys are the first 208 bytes of prf+ over the same keyed hash. */
  method EapAkaPrimePrf(hmac: Algorithm, ik: bytes, ck: bytes, identity: bytes) returns (r: Outcome<AkaKeys>)
    requires Sized(hmac) && hmac.size == 32
    ensures r.Ok? <==> ik != [] && ck != []
    ensures r.Ok? ==> && r.value.Joined() == Output(hmac, ik + ck, LABEL + identity, 208)
                      && |r.value.encr| == 16 && |r.value.aut| == 32 && |r.value.re| == 32
                      && |r.value.msk| == 64 && |r.value.emsk| == 64
    ensures !r.Ok? ==> r.Error?
  {
    if |ik| == 0 || |ck| == 0 {
      return Error;
    }
    var key, sBase := ik + ck, LABEL + identity;
    var mk, prev: bytes := [], [];
    for i := 0 to AKA_ROUNDS
      invariant mk == Stream(hmac, key, sBase, i) && prev == T(hmac, key, sBase, i)
    {
      var h := new Hash(hmac, key);
      var s := prev + (sBase + [i + 1]);
      h.Write(s);
      ConcatAssoc(prev, sBase, [i + 1]);
      assert [] + s == s && (i + 1) % 0x100 == i + 1;
      var sha := h.Sum();
      mk := mk + sha;
      prev := sha;
    }
    StreamLength(hmac, key, sBase, AKA_ROUNDS);
    OutputOfBlocks(hmac, key, sBase, AKA_ROUNDS, 208);
    var keys := AkaKeys(mk[0..16], mk[16..48], mk[48..80], mk[80..144], mk[144..208]);
    assert keys.Joined() == mk[..208];
    return Ok(keys);
  }
}
