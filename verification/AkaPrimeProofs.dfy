/** What every run of the attribute store keeps, and what a packet carries from one store to another. */
module AkaPrimeProofs {
  import opened Bytes
  import opened AkaPrime

  // ----- The invariant over every run

  datatype Op = Set(t: byte, v: bytes) | Decode(raw: bytes) | ResetMac

  function Apply(s: Store, op: Op): Store {
    match op
    case Set(t, v) => SetAttr(s, t, v)
    case Decode(raw) => Unmarshal(s, raw).1
    case ResetMac => InitMac(s)
  }

  function Run(s: Store, ops: seq<Op>): Store
    decreases |ops|
  {
    if ops == [] then s else Run(Apply(s, ops[0]), ops[1..])
  }

  lemma InsertKeepsInv(s: Store, a: Attr)
    requires Inv(s)
    ensures Inv(Insert(s, a))
  {
  }

  lemma {:induction false} InsertAllKeepsInv(s: Store, attrs: seq<Attr>)
    requires Inv(s)
    ensures Inv(InsertAll(s, attrs))
    decreases |attrs|
  {
    if attrs != [] {
      InsertKeepsInv(s, attrs[0]);
      InsertAllKeepsInv(Insert(s, attrs[0]), attrs[1..]);
    }
  }

  lemma ApplyKeepsInv(s: Store, op: Op)
    requires Inv(s)
    ensures Inv(Apply(s, op))
  {
    match op
    case Set(t, v) =>
      if MakeAttr(t, v).Ok? {
        InsertKeepsInv(s, MakeAttr(t, v).value);
      }
    case Decode(raw) =>
      if |raw| >= 4 {
        InsertAllKeepsInv(Store(raw[1], Get16(raw, 2), map[], Some([])), ParseAttrs(raw[4..]).items);
      }
    case ResetMac =>
      InsertKeepsInv(s, MacAttr(Zeros(16)));
  }

  lemma {:induction false} RunKeepsInv(s: Store, ops: seq<Op>)
    requires Inv(s)
    ensures Inv(Run(s, ops))
    decreases |ops|
  {
    if ops != [] {
      ApplyKeepsInv(s, ops[0]);
      RunKeepsInv(Apply(s, ops[0]), ops[1..]);
    }
  }

  /** After any run on a new store, writing it emits each attribute exactly once, under its own type. */
  lemma EveryAttributeOnce(subType: byte, ops: seq<Op>)
    ensures var s := Run(New(subType), ops);
            && Inv(s)
            && Lists(Keys(s), s.attributes.Keys)
            && var attrs := Listed(s.attributes, Keys(s));
            && (forall i :: 0 <= i < |attrs| ==> attrs[i].attrType == Keys(s)[i])
            && (forall k :: k in s.attributes ==> multiset(attrs)[s.attributes[k]] == 1)
  {
    var s := Run(New(subType), ops);
    RunKeepsInv(New(subType), ops);
    var ks, attrs := Keys(s), Listed(s.attributes, Keys(s));
    assert Lists(ks, s.attributes.Keys);
    forall i | 0 <= i < |attrs|
      ensures attrs[i].attrType == ks[i]
    {
      assert ks[i] in ks;
    }
    forall k | k in s.attributes
      ensures multiset(attrs)[s.attributes[k]] == 1
    {
      assert k in ks;
      var i :| 0 <= i < |ks| && ks[i] == k;
      OccursOnce(attrs, i);
    }
  }

  lemma OccursOnce(attrs: seq<Attr>, i: nat)
    requires i < |attrs|
    requires forall j :: 0 <= j < |attrs| && j != i ==> attrs[j] != attrs[i]
    ensures multiset(attrs)[attrs[i]] == 1
  {
    var a, before, after := attrs[i], attrs[..i], attrs[i + 1..];
    assert attrs == before + [a] + after;
    assert a !in before && a !in after;
    assert multiset(attrs) == multiset(before) + multiset{a} + multiset(after);
  }

  // ----- One attribute

  /** An attribute as the receiver stores it: the padding of AT_RES and AT_KDF_INPUT is gone. */
  function Strip(a: Attr): Attr {
    if a.attrType == AT_KDF_INPUT && a.reserved <= |a.value| then a.(value := a.value[..a.reserved])
    else if a.attrType == AT_RES && a.reserved / 8 <= |a.value| then a.(value := a.value[..a.reserved / 8])
    else a
  }

  predicate PaddedBy(a: Attr, n: uint16) {
    |a.value| == n + PadLen(n) && Padding(a.length, n) == PadLen(n)
  }

  /** The attributes that are read back whatever follows them. */
  predicate Sendable(a: Attr) {
    var t := a.attrType;
    if Is16(t) then a.length == 5 && a.reserved == 0 && |a.value| == 16
    else if t == AT_AUTS then a.length == 4 && a.reserved == 0 && |a.value| == 14
    else if t == AT_KDF_INPUT then PaddedBy(a, a.reserved)
    else if t == AT_RES then PaddedBy(a, a.reserved / 8)
    else if InReserved(t) then a.value == []
    else t == AT_CHECKCODE && a.reserved == 0 && |a.value| == (4 * a.length as int - 4) % 0x100
  }

  /** A sendable attribute is read back without its padding, whatever follows it. */
  lemma SendableRoundTrip(a: Attr, rest: bytes)
    requires Sendable(a)
    ensures ParseAttr(AttrBytes(a) + rest) == Got(Strip(a), rest)
  {
    var b := AttrBytes(a) + rest;
    if a.attrType == AT_AUTS {
      assert b[2..] == a.value + rest;
    } else {
      BodyRead(a, rest);
      if a.attrType == AT_KDF_INPUT {
        PaddedRead(a, rest, a.reserved);
      } else if a.attrType == AT_RES {
        PaddedRead(a, rest, a.reserved / 8);
      }
    }
  }

  /** Where the parts of a written attribute stand. */
  lemma BodyRead(a: Attr, rest: bytes)
    requires a.attrType != AT_AUTS
    ensures var b, n := AttrBytes(a) + rest, |a.value|;
            && |b| == 4 + n + |rest| && b[0] == a.attrType && b[1] == a.length
            && b[2..] == Put16(a.reserved) + a.value + rest && Get16(b[2..], 0) == a.reserved
            && b[2..][2..2 + n] == a.value && b[2..][2 + n..] == rest
  {
  }

  lemma PaddedRead(a: Attr, rest: bytes, n: uint16)
    requires PaddedBy(a, n)
    ensures var d := Put16(a.reserved) + a.value + rest;
            ParsePadded(a.attrType, a.length, d, n) == Got(a.(value := a.value[..n]), rest)
  {
    var d := Put16(a.reserved) + a.value + rest;
    assert Get16(d, 0) == a.reserved && d[2..2 + n] == a.value[..n] && d[2 + |a.value|..] == rest;
  }

  /** The values the 8-bit and 16-bit length fields can describe. */
  predicate Fits(t: byte, v: bytes) {
    && (t == AT_KDF_INPUT ==> |v| <= 248 || 65529 <= |v| <= 65535)
    && (t == AT_CHECKCODE ==> |v| % 4 == 0 && |v| <= 252)
  }

  /** The whole length in bytes, as the receiver recomputes it from the truncated word count. */
  lemma WordsBytes(n: nat)
    ensures (4 * Words(n) as int) % 0x100 == (4 + n + PadLen(n)) % 0x100
  {
    var words := (4 + n + PadLen(n)) / 4;
    assert 4 + n + PadLen(n) == 4 * words;
    WholeWords(words);
  }

  lemma WholeWords(words: nat)
    ensures 4 * (words % 0x100) % 0x100 == 4 * words % 0x100
  {
    var q := words / 0x100;
    assert 4 * words == 4 * (words % 0x100) + 0x100 * (4 * q);
    DropMultiple(4 * (words % 0x100), 4 * q);
  }

  lemma DropMultiple(x: nat, k: nat)
    ensures (x + 0x100 * k) % 0x100 == x % 0x100
  {
  }

  /** What the receiver skips, in terms of the whole length modulo 256. */
  lemma SkippedIs(total: nat, n: nat, pad: nat)
    requires n <= 0xFFFF && pad < 4 && total == 4 + n + pad
    ensures (total % 0x100 - n - 4) % 0x1_0000 == pad <==> total <= 0xFF || total >= 0x1_0000
  {
    var q := total / 0x100;
    assert total % 0x100 - n - 4 == pad - 0x100 * q;
  }

  lemma PaddingOf(n: nat)
    requires n <= 0xFFFF
    ensures Padding(Words(n), n) == PadLen(n) <==> n <= 248 || 65529 <= n
  {
    WordsBytes(n);
    PadLenIs(n);
    PaddingBy(Words(n), n, PadLen(n));
    WholeLimits(n, PadLen(n));
  }

  lemma PadLenIs(n: nat)
    ensures PadLen(n) < 4 && (4 + n + PadLen(n)) % 4 == 0
  {
  }

  lemma PaddingBy(length: byte, n: uint16, pad: nat)
    requires pad < 4 && (4 * length as int) % 0x100 == (4 + n + pad) % 0x100
    ensures Padding(length, n) == pad <==> 4 + n + pad <= 0xFF || 4 + n + pad >= 0x1_0000
  {
    SkippedIs(4 + n + pad, n, pad);
  }

  lemma WholeLimits(n: nat, pad: nat)
    requires pad < 4 && (4 + n + pad) % 4 == 0
    ensures (4 + n + pad <= 0xFF <==> n <= 248) && (4 + n + pad >= 0x1_0000 <==> n >= 65529)
  {
  }

  lemma CheckcodeLength(n: nat)
    requires (4 + n) / 4 <= 0xFF
    ensures (4 * ((4 + n) / 4) - 4) % 0x100 == n <==> n % 4 == 0 && n <= 252
  {
  }

  lemma PaddedMade(a: Attr, v: bytes)
    requires a.length == Words(|v|) && a.value == v + Zeros(PadLen(|v|))
    requires |v| <= 248 || 65529 <= |v| <= 65535
    ensures PaddedBy(a, |v|) && a.value[..|v|] == v
  {
    PaddingOf(|v|);
  }

  lemma Get16Put16(v: bytes)
    requires |v| == 2
    ensures Put16(Get16(v, 0)) == v
  {
  }

  lemma MadePadded(a: Attr, v: bytes)
    requires a.length == Words(|v|) && a.value == v + Zeros(PadLen(|v|))
    requires |v| <= 248 || 65529 <= |v| <= 65535
    requires (a.attrType == AT_KDF_INPUT && a.reserved == |v|) || (a.attrType == AT_RES && a.reserved / 8 == |v|)
    ensures Sendable(a) && Strip(a).value == v
  {
    PaddedMade(a, v);
  }

  lemma KdfInputMade(v: bytes)
    requires Fits(AT_KDF_INPUT, v)
    ensures var a := MakeAttr(AT_KDF_INPUT, v).value; Sendable(a) && Strip(a).value == v
  {
    KdfInputIs(v);
    MadePadded(MakeAttr(AT_KDF_INPUT, v).value, v);
  }

  lemma KdfInputIs(v: bytes)
    requires |v| <= 0xFFFF
    ensures MakeAttr(AT_KDF_INPUT, v) == Ok(Attr(AT_KDF_INPUT, Words(|v|), |v|, v + Zeros(PadLen(|v|))))
  {
  }

  lemma ResMade(v: bytes)
    requires 4 <= |v| <= 16
    ensures var a := MakeAttr(AT_RES, v).value; Sendable(a) && Strip(a).value == v
  {
    MadePadded(MakeAttr(AT_RES, v).value, v);
  }

  lemma CheckcodeMade(a: Attr, v: bytes)
    requires |v| % 4 == 0 && |v| <= 252 && a == Attr(AT_CHECKCODE, (4 + |v|) / 4, 0, v)
    ensures Sendable(a) && Strip(a) == a
  {
    CheckcodeLength(|v|);
  }

  /** An attribute set from a value that fits is sendable, and stripping it gives the value back. */
  lemma MadeAttr(t: byte, v: bytes)
    requires MakeAttr(t, v).Ok? && Fits(t, v)
    ensures var a := MakeAttr(t, v).value; Sendable(a) && GetValue(Strip(a)) == v
  {
    var a := MakeAttr(t, v).value;
    if t == AT_KDF_INPUT {
      KdfInputMade(v);
    } else if t == AT_RES {
      ResMade(v);
    } else if InReserved(t) {
      Get16Put16(v);
    } else if t == AT_CHECKCODE {
      CheckcodeMade(a, v);
    }
  }

  /** Sent alone, an accepted value arrives unchanged, with nothing left over, exactly when it fits. */
  lemma DeliveredExactlyWhenFits(t: byte, v: bytes)
    requires MakeAttr(t, v).Ok?
    ensures var r := ParseAttr(AttrBytes(MakeAttr(t, v).value));
            (r.Got? && r.rest == [] && r.attr.attrType == t && GetValue(r.attr) == v) <==> Fits(t, v)
  {
    var a := MakeAttr(t, v).value;
    var b := AttrBytes(a);
    if Fits(t, v) {
      MadeAttr(t, v);
      SendableRoundTrip(a, []);
      assert b + [] == b;
    } else {
      NotDelivered(t, v);
    }
  }

  lemma NotDelivered(t: byte, v: bytes)
    requires MakeAttr(t, v).Ok? && !Fits(t, v)
    ensures var r := ParseAttr(AttrBytes(MakeAttr(t, v).value));
            !(r.Got? && r.rest == [] && GetValue(r.attr) == v)
  {
    var a := MakeAttr(t, v).value;
    var d := AttrBytes(a)[2..];
    assert d == Put16(a.reserved) + a.value;
    assert Get16(d, 0) == a.reserved;
    if t == AT_CHECKCODE {
      CheckcodeLength(|v|);
    } else if |v| <= 0xFFFF {
      PaddingOf(|v|);
    }
  }

  // ----- Whole packets

  predicate AllSendable(attrs: seq<Attr>) {
    forall i :: 0 <= i < |attrs| ==> Sendable(attrs[i])
  }

  function StripAll(attrs: seq<Attr>): (r: seq<Attr>)
    ensures |r| == |attrs| && forall i :: 0 <= i < |attrs| ==> r[i] == Strip(attrs[i])
  {
    seq(|attrs|, i requires 0 <= i < |attrs| => Strip(attrs[i]))
  }

  lemma AttrStep(a: Attr, rest: bytes)
    requires Sendable(a)
    ensures ParseAttrs(AttrBytes(a) + rest) == ParseAttrs(rest).After([Strip(a)])
  {
    SendableRoundTrip(a, rest);
  }

  lemma StripAllCons(attrs: seq<Attr>)
    requires attrs != []
    ensures StripAll(attrs) == [Strip(attrs[0])] + StripAll(attrs[1..])
  {
  }

  /** Sendable attributes are read back without padding, and then whatever follows them. */
  lemma {:induction false} ReadThrough(attrs: seq<Attr>, rest: bytes)
    requires AllSendable(attrs)
    ensures ParseAttrs(AttrsBytes(attrs) + rest) == ParseAttrs(rest).After(StripAll(attrs))
  {
    if attrs == [] {
      assert [] + rest == rest;
      ParsedAfterNil(ParseAttrs(rest));
    } else {
      ConcatAssoc(AttrBytes(attrs[0]), AttrsBytes(attrs[1..]), rest);
      AttrStep(attrs[0], AttrsBytes(attrs[1..]) + rest);
      ReadThrough(attrs[1..], rest);
      ParsedAfterAfter([Strip(attrs[0])], StripAll(attrs[1..]), ParseAttrs(rest));
      StripAllCons(attrs);
    }
  }

  lemma AttrsRoundTrip(attrs: seq<Attr>)
    requires AllSendable(attrs)
    ensures ParseAttrs(AttrsBytes(attrs)) == Parsed(Done, StripAll(attrs))
  {
    ReadThrough(attrs, []);
    assert AttrsBytes(attrs) + [] == AttrsBytes(attrs) && StripAll(attrs) + [] == StripAll(attrs);
  }

  function Types(attrs: seq<Attr>): (ts: seq<byte>)
    ensures |ts| == |attrs| && forall i :: 0 <= i < |attrs| ==> ts[i] == attrs[i].attrType
  {
    seq(|attrs|, i requires 0 <= i < |attrs| => attrs[i].attrType)
  }

  lemma {:induction false} InsertAllSnoc(s: Store, attrs: seq<Attr>, a: Attr)
    ensures InsertAll(s, attrs + [a]) == Insert(InsertAll(s, attrs), a)
    decreases |attrs|
  {
    if attrs == [] {
      assert attrs + [a] == [a] && [a][1..] == [];
    } else {
      InsertAllSnoc(Insert(s, attrs[0]), attrs[1..], a);
      assert (attrs + [a])[1..] == attrs[1..] + [a];
    }
  }

  /** `r` holds exactly `attrs`, in that order. */
  ghost predicate HoldsExactly(r: Store, attrs: seq<Attr>) {
    && r.order == Some(Types(attrs))
    && (forall k :: k in r.attributes <==> k in Types(attrs))
    && (forall i :: 0 <= i < |attrs| ==> attrs[i].attrType in r.attributes && r.attributes[attrs[i].attrType] == attrs[i])
  }

  /** Inserting attributes of distinct types into a store with an empty order list. */
  lemma {:induction false} InsertAllDistinct(s: Store, attrs: seq<Attr>)
    requires s.order == Some([]) && s.attributes == map[] && Distinct(Types(attrs))
    ensures HoldsExactly(InsertAll(s, attrs), attrs)
    ensures InsertAll(s, attrs).subType == s.subType && InsertAll(s, attrs).reserved == s.reserved
    decreases |attrs|
  {
    if attrs != [] {
      var n := |attrs| - 1;
      var front, a := attrs[..n], attrs[n];
      assert attrs == front + [a];
      assert Types(attrs) == Types(front) + [a.attrType];
      InsertAllDistinct(s, front);
      InsertAllSnoc(s, front, a);
      NotListed(attrs, n);
    }
  }

  lemma NotListed(attrs: seq<Attr>, n: nat)
    requires n < |attrs| && Distinct(Types(attrs))
    ensures attrs[n].attrType !in Types(attrs[..n])
  {
    forall i | 0 <= i < n
      ensures Types(attrs[..n])[i] != attrs[n].attrType
    {
      assert Types(attrs)[i] != Types(attrs)[n];
    }
  }

  /** The store as its receiver holds it: padding stripped, and the order of writing recorded. */
  function Received(s: Store): Store {
    s.(attributes := map k | k in s.attributes :: Strip(s.attributes[k]), order := Some(Keys(s)))
  }

  ghost predicate SendableStore(s: Store) {
    forall k :: k in s.attributes ==> Sendable(s.attributes[k])
  }

  lemma KeysListed(s: Store)
    requires Inv(s)
    ensures Lists(Keys(s), s.attributes.Keys)
    ensures Types(Listed(s.attributes, Keys(s))) == Keys(s)
  {
    forall i | 0 <= i < |Keys(s)|
      ensures s.attributes[Keys(s)[i]].attrType == Keys(s)[i]
    {
      assert Keys(s)[i] in Keys(s);
    }
  }

  lemma HeldUnder(r: Store, attrs: seq<Attr>, k: byte) returns (i: nat)
    requires HoldsExactly(r, attrs) && k in Types(attrs)
    ensures i < |attrs| && Types(attrs)[i] == k && k in r.attributes && r.attributes[k] == attrs[i]
  {
    i :| 0 <= i < |attrs| && Types(attrs)[i] == k;
  }

  lemma ReceivedIs(r: Store, s: Store)
    requires Inv(s)
    requires r.subType == s.subType && r.reserved == s.reserved
    requires HoldsExactly(r, StripAll(Listed(s.attributes, Keys(s))))
    ensures r == Received(s)
  {
    KeysListed(s);
    var attrs := StripAll(Listed(s.attributes, Keys(s)));
    assert Types(attrs) == Keys(s);
    forall k | k in s.attributes
      ensures k in r.attributes && r.attributes[k] == Strip(s.attributes[k])
    {
      var i := HeldUnder(r, attrs, k);
    }
    SameEntries(r.attributes, Received(s).attributes);
  }

  lemma SameEntries(m: map<byte, Attr>, n: map<byte, Attr>)
    requires m.Keys == n.Keys && forall k :: k in n ==> m[k] == n[k]
    ensures m == n
  {
  }

  lemma SendableListed(s: Store)
    requires Inv(s) && SendableStore(s)
    ensures AllSendable(Listed(s.attributes, Keys(s)))
  {
    KeysListed(s);
    forall i | 0 <= i < |Keys(s)|
      ensures Sendable(Listed(s.attributes, Keys(s))[i])
    {
      assert Keys(s)[i] in Keys(s);
    }
  }

  /** A written store is read back, into any store, with nothing changed but the padding and the recorded order. */
  lemma StoreRoundTrip(s: Store, receiver: Store)
    requires Inv(s) && SendableStore(s)
    ensures Unmarshal(receiver, StoreBytes(s)) == (Done, Received(s))
  {
    SendableListed(s);
    ListReadBack(s, Listed(s.attributes, Keys(s)), receiver);
    InsertedIs(s);
  }

  /** A receiver's store when the four bytes in front of the attributes have been read. */
  function Emptied(s: Store): Store {
    Store(s.subType, s.reserved, map[], Some([]))
  }

  lemma ListReadBack(s: Store, attrs: seq<Attr>, receiver: Store)
    requires AllSendable(attrs)
    ensures Unmarshal(receiver, Head(s) + AttrsBytes(attrs)) == (Done, InsertAll(Emptied(s), StripAll(attrs)))
  {
    AttrsRoundTrip(attrs);
    HeadRead(s, AttrsBytes(attrs), receiver);
  }

  lemma HeadRead(s: Store, b: bytes, receiver: Store)
    ensures Unmarshal(receiver, Head(s) + b) == (ParseAttrs(b).status, InsertAll(Emptied(s), ParseAttrs(b).items))
  {
    assert (Head(s) + b)[4..] == b;
  }

  lemma InsertedIs(s: Store)
    requires Inv(s)
    ensures InsertAll(Emptied(s), StripAll(Listed(s.attributes, Keys(s)))) == Received(s)
  {
    KeysListed(s);
    var attrs := StripAll(Listed(s.attributes, Keys(s)));
    assert Types(attrs) == Keys(s);
    InsertAllDistinct(Emptied(s), attrs);
    ReceivedIs(InsertAll(Emptied(s), attrs), s);
  }

  // ----- The last value set for each type is the one delivered

  function SetCalls(s: Store, calls: seq<(byte, bytes)>): Store
    decreases |calls|
  {
    if calls == [] then s
    else
      var n := |calls| - 1;
      SetAttr(SetCalls(s, calls[..n]), calls[n].0, calls[n].1)
  }

  /** The value of the last accepted call for type `t`. */
  function Last(calls: seq<(byte, bytes)>, t: byte): Option<bytes>
    decreases |calls|
  {
    if calls == [] then None
    else
      var n := |calls| - 1;
      if calls[n].0 == t && MakeAttr(t, calls[n].1).Ok? then Some(calls[n].1) else Last(calls[..n], t)
  }

  lemma {:induction false} SetCallsStore(subType: byte, calls: seq<(byte, bytes)>)
    ensures var s := SetCalls(New(subType), calls);
            && Inv(s) && s.order == None && s.subType == subType && s.reserved == 0
            && forall t: byte ::
                 && (t in s.attributes <==> Last(calls, t).Some?)
                 && (t in s.attributes ==> MakeAttr(t, Last(calls, t).value) == Ok(s.attributes[t]))
    decreases |calls|
  {
    if calls != [] {
      var n := |calls| - 1;
      SetCallsStore(subType, calls[..n]);
      ApplyKeepsInv(SetCalls(New(subType), calls[..n]), Set(calls[n].0, calls[n].1));
    }
  }

  /** After any calls on a new store, its packet delivers, for each type set, the last value given. */
  lemma LastValueDelivered(subType: byte, calls: seq<(byte, bytes)>, receiver: Store)
    requires forall t: byte :: Last(calls, t).Some? ==> Fits(t, Last(calls, t).value)
    ensures Inv(SetCalls(New(subType), calls))
    ensures var (status, r) := Unmarshal(receiver, StoreBytes(SetCalls(New(subType), calls)));
            && status == Done && r.subType == subType
            && forall t: byte ::
                 && (t in r.attributes <==> Last(calls, t).Some?)
                 && (t in r.attributes ==> GetValue(r.attributes[t]) == Last(calls, t).value)
  {
    var s := SetCalls(New(subType), calls);
    SetCallsStore(subType, calls);
    forall t: byte | t in s.attributes
      ensures Sendable(s.attributes[t]) && GetValue(Strip(s.attributes[t])) == Last(calls, t).value
    {
      MadeAttr(t, Last(calls, t).value);
    }
    StoreRoundTrip(s, receiver);
  }

  // ----- Both ends compute the MAC over the same bytes

  /** No attribute of the store carries padding. */
  ghost predicate Unpadded(s: Store) {
    forall k :: k in s.attributes ==> Strip(s.attributes[k]) == s.attributes[k]
  }

  lemma StripShortens(a: Attr)
    ensures |AttrBytes(Strip(a))| <= |AttrBytes(a)|
    ensures |AttrBytes(Strip(a))| == |AttrBytes(a)| <==> Strip(a) == a
  {
  }

  lemma StripCons(attrs: seq<Attr>)
    requires attrs != []
    ensures var all, head, rest := StripAll(attrs), Strip(attrs[0]), StripAll(attrs[1..]);
            && all != [] && all[0] == head && all[1..] == rest
            && (all == attrs <==> head == attrs[0] && rest == attrs[1..])
  {
    ConsEqual(StripAll(attrs), attrs);
    assert StripAll(attrs)[1..] == StripAll(attrs[1..]);
  }

  lemma ConsEqual<T>(xs: seq<T>, ys: seq<T>)
    requires xs != [] && ys != []
    ensures xs == ys <==> xs[0] == ys[0] && xs[1..] == ys[1..]
  {
    assert xs == [xs[0]] + xs[1..] && ys == [ys[0]] + ys[1..];
  }

  lemma {:induction false} StrippedLength(attrs: seq<Attr>)
    ensures |AttrsBytes(StripAll(attrs))| <= |AttrsBytes(attrs)|
    ensures |AttrsBytes(StripAll(attrs))| == |AttrsBytes(attrs)| <==> StripAll(attrs) == attrs
  {
    if attrs != [] {
      var head, rest := attrs[0], attrs[1..];
      StrippedLength(rest);
      StripShortens(head);
      StripCons(attrs);
    }
  }

  /** Replacing an attribute changes neither the keys nor their order. */
  lemma Replace(s: Store, a: Attr)
    requires Inv(s) && a.attrType in s.attributes
    ensures Inv(Insert(s, a)) && Keys(Insert(s, a)) == Keys(s)
    ensures Insert(s, a) == s.(attributes := s.attributes[a.attrType := a])
  {
    assert Insert(s, a).attributes.Keys == s.attributes.Keys;
  }

  lemma ReceivedKeepsInv(s: Store)
    requires Inv(s)
    ensures Inv(Received(s)) && Keys(Received(s)) == Keys(s)
  {
    KeysListed(s);
    assert Received(s).attributes.Keys == s.attributes.Keys;
  }

  /** The store as sent: the MAC, reset while it was computed, is then set. */
  function Sent(s: Store, mac: bytes): Store {
    Insert(InitMac(s), MacAttr(mac))
  }

  lemma SentBySetAttr(s: Store, mac: bytes)
    requires |mac| == 16
    ensures Sent(s, mac) == SetAttr(InitMac(s), AT_MAC, mac)
    ensures InitMac(s) == SetAttr(s, AT_MAC, Zeros(16))
  {
  }

  /** What the sender hashes, what it then sends, and what the receiver hashes. */
  lemma MacStores(s: Store, mac: bytes)
    requires Inv(s)
    ensures var zeroed, there := InitMac(s), InitMac(Received(Sent(s, mac)));
            && Inv(zeroed) && Inv(Sent(s, mac)) && Inv(there)
            && Keys(Sent(s, mac)) == Keys(zeroed) == Keys(there)
            && Head(there) == Head(zeroed) == Head(s)
            && Sent(s, mac) == zeroed.(attributes := zeroed.attributes[AT_MAC := MacAttr(mac)])
            && forall k :: k in zeroed.attributes ==>
                 k in there.attributes && there.attributes[k] == Strip(zeroed.attributes[k])
  {
    InsertKeepsInv(s, MacAttr(Zeros(16)));
    Replace(InitMac(s), MacAttr(mac));
    ReceivedKeepsInv(Sent(s, mac));
    Replace(Received(Sent(s, mac)), MacAttr(Zeros(16)));
  }

  /**
   The receiver of a store, once it has reset the MAC, writes exactly what the sender wrote with the MAC reset,
   whatever MAC was sent, if and only if no attribute carries padding.
   */
  lemma SameBytesUnderMac(s: Store, mac: bytes)
    requires Inv(s)
    ensures Inv(InitMac(s)) && Inv(InitMac(Received(Sent(s, mac))))
    ensures StoreBytes(InitMac(Received(Sent(s, mac)))) == StoreBytes(InitMac(s)) <==> Unpadded(InitMac(s))
  {
    MacStores(s, mac);
    var zeroed, there := InitMac(s), InitMac(Received(Sent(s, mac)));
    var ks := Keys(zeroed);
    UnpaddedListed(zeroed);
    var attrs := Listed(zeroed.attributes, ks);
    ListedStripped(zeroed.attributes, there.attributes, ks);
    StrippedLength(attrs);
    if StripAll(attrs) != attrs {
      assert |StoreBytes(there)| != |StoreBytes(zeroed)|;
    }
  }

  lemma ListedStripped(m: map<byte, Attr>, n: map<byte, Attr>, ks: seq<byte>)
    requires forall k :: k in ks ==> k in m && k in n && n[k] == Strip(m[k])
    ensures Listed(n, ks) == StripAll(Listed(m, ks))
  {
    forall i | 0 <= i < |ks|
      ensures Listed(n, ks)[i] == Strip(Listed(m, ks)[i])
    {
      assert ks[i] in ks;
    }
  }

  lemma UnpaddedListed(s: Store)
    requires Inv(s)
    ensures Lists(Keys(s), s.attributes.Keys)
    ensures StripAll(Listed(s.attributes, Keys(s))) == Listed(s.attributes, Keys(s)) <==> Unpadded(s)
  {
    var ks := Keys(s);
    KeysListed(s);
    var attrs := Listed(s.attributes, ks);
    if StripAll(attrs) == attrs {
      forall k | k in s.attributes
        ensures Strip(s.attributes[k]) == s.attributes[k]
      {
        assert k in ks;
        var i :| 0 <= i < |ks| && ks[i] == k;
        assert StripAll(attrs)[i] == attrs[i];
      }
    } else {
      var i :| 0 <= i < |attrs| && StripAll(attrs)[i] != attrs[i];
      assert ks[i] in ks;
    }
  }

  lemma {:induction false} AttrsBytesConcat(xs: seq<Attr>, ys: seq<Attr>)
    ensures AttrsBytes(xs + ys) == AttrsBytes(xs) + AttrsBytes(ys)
  {
    if xs == [] {
      assert xs + ys == ys;
    } else {
      AttrsBytesConcat(xs[1..], ys);
      assert (xs + ys)[1..] == xs[1..] + ys;
      ConcatAssoc(AttrBytes(xs[0]), AttrsBytes(xs[1..]), AttrsBytes(ys));
    }
  }

  lemma AttrsBytesSplit(attrs: seq<Attr>, i: nat)
    requires i < |attrs|
    ensures AttrsBytes(attrs) == AttrsBytes(attrs[..i]) + AttrBytes(attrs[i]) + AttrsBytes(attrs[i + 1..])
  {
    assert attrs == attrs[..i] + attrs[i..];
    AttrsBytesConcat(attrs[..i], attrs[i..]);
    assert attrs[i..][1..] == attrs[i + 1..];
  }

  lemma MacAmongAttrs(attrs: seq<Attr>, i: nat, mac: bytes) returns (before: bytes, after: bytes)
    requires i < |attrs| && attrs[i] == MacAttr(Zeros(16))
    ensures AttrsBytes(attrs) == before + Zeros(16) + after
    ensures AttrsBytes(attrs[i := MacAttr(mac)]) == before + mac + after
  {
    var attrs' := attrs[i := MacAttr(mac)];
    AttrsBytesSplit(attrs, i);
    AttrsBytesSplit(attrs', i);
    assert attrs'[..i] == attrs[..i] && attrs'[i + 1..] == attrs[i + 1..];
    before := AttrsBytes(attrs[..i]) + [AT_MAC, 5, 0, 0];
    after := AttrsBytes(attrs[i + 1..]);
    MacAttrBytes(AttrsBytes(attrs[..i]), mac);
    MacAttrBytes(AttrsBytes(attrs[..i]), Zeros(16));
  }

  lemma MacAttrBytes(before: bytes, mac: bytes)
    ensures before + AttrBytes(MacAttr(mac)) == before + [AT_MAC, 5, 0, 0] + mac
  {
  }

  lemma MacAmongListed(m: map<byte, Attr>, ks: seq<byte>, mac: bytes) returns (before: bytes, after: bytes)
    requires (forall k :: k in ks ==> k in m) && Distinct(ks) && AT_MAC in ks && m[AT_MAC] == MacAttr(Zeros(16))
    ensures AttrsBytes(Listed(m, ks)) == before + Zeros(16) + after
    ensures AttrsBytes(Listed(m[AT_MAC := MacAttr(mac)], ks)) == before + mac + after
  {
    var i :| 0 <= i < |ks| && ks[i] == AT_MAC;
    var attrs := Listed(m, ks);
    assert Listed(m[AT_MAC := MacAttr(mac)], ks) == attrs[i := MacAttr(mac)];
    before, after := MacAmongAttrs(attrs, i, mac);
  }

  /** The bytes hashed are the bytes sent with only the sixteen bytes of the MAC replaced by zeros. */
  lemma OnlyMacZeroed(s: Store, mac: bytes) returns (before: bytes, after: bytes)
    requires Inv(s)
    ensures Inv(InitMac(s)) && Inv(Sent(s, mac))
    ensures StoreBytes(Sent(s, mac)) == before + mac + after
    ensures StoreBytes(InitMac(s)) == before + Zeros(16) + after
  {
    MacStores(s, mac);
    var zeroed := InitMac(s);
    KeysListed(zeroed);
    var b, a := MacAmongListed(zeroed.attributes, Keys(zeroed), mac);
    before, after := Head(s) + b, a;
    Rebracket(Head(s), b, mac, a);
    Rebracket(Head(s), b, Zeros(16), a);
  }

  lemma Rebracket(a: bytes, b: bytes, c: bytes, d: bytes)
    ensures a + (b + c + d) == (a + b) + c + d
  {
  }
}
