/**
 The EAP-AKA' attribute store (section 8 of RFC 4187 and RFC 9048) as a value: a map from attribute type to
 attribute, and, once a packet has been decoded, the order in which the types were first seen.
 */
module AkaPrime {
  import opened Bytes

  const AT_RAND: byte := 1
  const AT_AUTN: byte := 2
  const AT_RES: byte := 3
  const AT_AUTS: byte := 4
  const AT_MAC: byte := 11
  const AT_NOTIFICATION: byte := 12
  const AT_KDF_INPUT: byte := 23
  const AT_KDF: byte := 24
  const AT_CHECKCODE: byte := 134

  const EAP_TYPE_AKA_PRIME: byte := 50

  datatype Attr = Attr(attrType: byte, length: byte, reserved: uint16, value: bytes)

  datatype Store = Store(subType: byte, reserved: uint16, attributes: map<byte, Attr>, order: Option<seq<byte>>)

  function New(subType: byte): Store {
    Store(subType, 0, map[], None)
  }

  // ----- Setting and getting one attribute

  predicate Is16(t: byte) { t == AT_MAC || t == AT_RAND || t == AT_AUTN }

  /** Types whose two bytes of payload live in the reserved field. */
  predicate InReserved(t: byte) { t == AT_KDF || t == AT_NOTIFICATION }

  /** How many zero bytes bring a value of `n` bytes, with its four header bytes, to whole words. */
  function PadLen(n: nat): byte {
    (4 - (4 + n) % 4) % 4
  }

  /** The attribute's length in words, truncated to a byte. */
  function Words(n: nat): byte {
    ((4 + n + PadLen(n)) / 4) % 0x100
  }

  function MakeAttr(t: byte, v: bytes): Outcome<Attr> {
    if Is16(t) then if |v| == 16 then Ok(Attr(t, 5, 0, v)) else Error
    else if t == AT_AUTS then if |v| == 14 then Ok(Attr(t, 4, 0, v)) else Error
    else if t == AT_KDF_INPUT then Ok(Attr(t, Words(|v|), |v| % 0x1_0000, v + Zeros(PadLen(|v|))))
    else if t == AT_RES then
      if 4 <= |v| <= 16 then Ok(Attr(t, Words(|v|), 8 * |v|, v + Zeros(PadLen(|v|)))) else Error
    else if InReserved(t) then if |v| == 2 then Ok(Attr(t, 1, Get16(v, 0), [])) else Error
    else if t == AT_CHECKCODE then if (4 + |v|) / 4 <= 0xFF then Ok(Attr(t, (4 + |v|) / 4, 0, v)) else Error
    else Error
  }

  function GetValue(a: Attr): bytes {
    if InReserved(a.attrType) then Put16(a.reserved) else a.value
  }

  /** Puts `a` under its own type; a type not seen before also joins the order list, when there is one. */
  function Insert(s: Store, a: Attr): Store {
    s.(attributes := s.attributes[a.attrType := a],
       order := if s.order.Some? && a.attrType !in s.attributes then Some(s.order.value + [a.attrType]) else s.order)
  }

  /** A failing call leaves the store as it was. */
  function SetAttr(s: Store, t: byte, v: bytes): Store {
    match MakeAttr(t, v)
    case Ok(a) => Insert(s, a)
    case _ => s
  }

  function MacAttr(mac: bytes): Attr {
    Attr(AT_MAC, 5, 0, mac)
  }

  /** Resets the MAC attribute to sixteen zero bytes. */
  function InitMac(s: Store): Store {
    Insert(s, MacAttr(Zeros(16)))
  }

  // ----- Encoding

  /** Every entry is stored under its own type, and the order list, when present, lists each key exactly once. */
  ghost predicate Inv(s: Store) {
    && (forall k :: k in s.attributes ==> s.attributes[k].attrType == k)
    && (s.order.Some? ==> Lists(s.order.value, s.attributes.Keys))
  }

  predicate Increasing(ks: seq<byte>) {
    forall i, j :: 0 <= i < j < |ks| ==> ks[i] < ks[j]
  }

  predicate Distinct(ks: seq<byte>) {
    forall i, j :: 0 <= i < j < |ks| ==> ks[i] != ks[j]
  }

  ghost predicate Lists(ks: seq<byte>, keys: set<byte>) {
    Distinct(ks) && forall k :: k in ks <==> k in keys
  }

  /** The members of `keys` in increasing order. */
  function Sorted(keys: set<byte>): (ks: seq<byte>)
    ensures forall k :: k in ks <==> k in keys
    ensures Increasing(ks)
  {
    SortedFrom(keys, 0)
  }

  function SortedFrom(keys: set<byte>, from: nat): (ks: seq<byte>)
    requires from <= 0x100
    ensures forall k :: k in ks <==> k in keys && from <= k
    ensures Increasing(ks)
    decreases 0x100 - from
  {
    if from == 0x100 then []
    else
      var rest := SortedFrom(keys, from + 1);
      assert forall i :: 0 <= i < |rest| ==> rest[i] in rest;
      if from in keys then [from] + rest else rest
  }

  /** The order in which the attributes are written. */
  function Keys(s: Store): seq<byte> {
    if s.order.Some? then s.order.value else Sorted(s.attributes.Keys)
  }

  function AttrBytes(a: Attr): bytes {
    [a.attrType, a.length] + (if a.attrType == AT_AUTS then [] else Put16(a.reserved)) + a.value
  }

  function AttrsBytes(attrs: seq<Attr>): bytes {
    if attrs == [] then [] else AttrBytes(attrs[0]) + AttrsBytes(attrs[1..])
  }

  /** The entries of `m` under `ks`. */
  function Listed(m: map<byte, Attr>, ks: seq<byte>): (attrs: seq<Attr>)
    requires forall k :: k in ks ==> k in m
    ensures |attrs| == |ks| && forall i :: 0 <= i < |ks| ==> attrs[i] == m[ks[i]]
  {
    seq(|ks|, i requires 0 <= i < |ks| => m[ks[i]])
  }

  function Head(s: Store): bytes {
    [EAP_TYPE_AKA_PRIME, s.subType, Hi(s.reserved), Lo(s.reserved)]
  }

  function StoreBytes(s: Store): bytes
    requires Inv(s)
  {
    Head(s) + AttrsBytes(Listed(s.attributes, Keys(s)))
  }

  // ----- Decoding

  datatype Step = End | Bad | Got(attr: Attr, rest: bytes)

  /** How many bytes after a value of `n` bytes are skipped as padding, with 16-bit wrap-around. */
  function Padding(length: byte, n: uint16): uint16 {
    ((4 * length as int) % 0x100 - n - 4) % 0x1_0000
  }

  /** A value of `n` bytes after the reserved field, followed by the padding. */
  function ParsePadded(t: byte, length: byte, d: bytes, n: uint16): Step
    requires |d| >= 2
  {
    if |d| < 2 + n + Padding(length, n) then Bad
    else Got(Attr(t, length, Get16(d, 0), d[2..2 + n]), d[2 + n + Padding(length, n)..])
  }

  /** Reads one attribute; missing type or length bytes end the packet, and an unknown type has no value. */
  function ParseAttr(b: bytes): (r: Step)
    ensures r.Got? ==> |r.rest| < |b|
  {
    if |b| < 2 then End
    else
      var t, length, d := b[0], b[1], b[2..];
      if t == AT_AUTS then
        if length != 4 || |d| < 14 then Bad else Got(Attr(t, length, 0, d[..14]), d[14..])
      else if Is16(t) then
        if length != 5 || |d| < 18 then Bad else Got(Attr(t, length, 0, d[2..18]), d[18..])
      else if t == AT_KDF_INPUT then
        if |d| < 2 then Bad else ParsePadded(t, length, d, Get16(d, 0))
      else if t == AT_RES then
        if |d| < 2 then Bad else ParsePadded(t, length, d, Get16(d, 0) / 8)
      else if InReserved(t) then
        if |d| < 2 then Bad else Got(Attr(t, length, Get16(d, 0), []), d[2..])
      else if t == AT_CHECKCODE then
        var n := (4 * length as int - 4) % 0x100;
        if |d| < 2 + n then Bad else Got(Attr(t, length, 0, d[2..2 + n]), d[2 + n..])
      else Got(Attr(t, length, 0, []), d)
  }

  function ParseAttrs(b: bytes): Parsed<Attr>
    decreases |b|
  {
    match ParseAttr(b)
    case End => Parsed(Done, [])
    case Bad => Parsed(Failed, [])
    case Got(a, rest) => ParseAttrs(rest).After([a])
  }

  function InsertAll(s: Store, attrs: seq<Attr>): Store
    decreases |attrs|
  {
    if attrs == [] then s else InsertAll(Insert(s, attrs[0]), attrs[1..])
  }

  /** What decoding `raw` into a store that held `s` leaves there, and how it ended. */
  function Unmarshal(s: Store, raw: bytes): (Status, Store) {
    if |raw| < 4 || raw[0] != EAP_TYPE_AKA_PRIME then (Failed, s)
    else
      var r := ParseAttrs(raw[4..]);
      (r.status, InsertAll(Store(raw[1], Get16(raw, 2), map[], Some([])), r.items))
  }
}
