/** AKA' stores with attributes of unknown types: how they are read back, and exactly when they come back as they are. */
module AkaPrimeUnknown {
  import opened Bytes
  import opened AkaPrime
  import opened AkaPrimeProofs
  import opened AkaPrimeExact

  /** The attribute read from two zero bytes. */
  const ZERO := Attr(0, 0, 0, [])

  /** An attribute of a known type in its final form, or of an unknown type as the decoder makes it. */
  predicate Plain(a: Attr) {
    if KnownAttr(a.attrType) then Sendable(a) && Strip(a) == a else a.reserved == 0 && a.value == []
  }

  ghost predicate AllPlain(attrs: seq<Attr>) {
    forall a :: a in attrs ==> Plain(a)
  }

  /** Every attribute of an unknown type followed by the zero attribute, which its reserved bytes are read as. */
  function Doubled(attrs: seq<Attr>): seq<Attr> {
    if attrs == [] then []
    else (if KnownAttr(attrs[0].attrType) then [attrs[0]] else [attrs[0], ZERO]) + Doubled(attrs[1..])
  }

  // ----- Reading

  lemma UnknownRead(a: Attr, rest: bytes)
    requires !KnownAttr(a.attrType) && a.reserved == 0 && a.value == []
    ensures ParseAttrs(AttrBytes(a) + rest) == ParseAttrs(rest).After([a, ZERO])
  {
    var b := AttrBytes(a) + rest;
    var zeros: bytes := [0, 0] + rest;
    assert b == [a.attrType, a.length] + zeros && b[2..] == zeros && zeros[2..] == rest;
    assert ParseAttr(b) == Got(a, zeros) && ParseAttr(zeros) == Got(ZERO, rest);
    ParsedAfterAfter([a], [ZERO], ParseAttrs(rest));
    assert [a] + [ZERO] == [a, ZERO];
  }

  lemma PlainRead(a: Attr, rest: bytes)
    requires Plain(a)
    ensures ParseAttrs(AttrBytes(a) + rest) ==
            ParseAttrs(rest).After(if KnownAttr(a.attrType) then [a] else [a, ZERO])
  {
    if KnownAttr(a.attrType) {
      AttrStep(a, rest);
    } else {
      UnknownRead(a, rest);
    }
  }

  /** Plain attributes are read back with those of unknown types doubled. */
  lemma {:induction false} DoubledRead(attrs: seq<Attr>)
    requires AllPlain(attrs)
    ensures ParseAttrs(AttrsBytes(attrs)) == Parsed(Done, Doubled(attrs))
  {
    if attrs != [] {
      DoubledRead(attrs[1..]);
      assert attrs[0] in attrs;
      PlainRead(attrs[0], AttrsBytes(attrs[1..]));
    }
  }

  // ----- Entering

  lemma {:induction false} InsertAllConcat(s: Store, xs: seq<Attr>, ys: seq<Attr>)
    ensures InsertAll(s, xs + ys) == InsertAll(InsertAll(s, xs), ys)
    decreases |xs|
  {
    if xs == [] {
      assert xs + ys == ys;
    } else {
      InsertAllConcat(Insert(s, xs[0]), xs[1..], ys);
      assert (xs + ys)[1..] == xs[1..] + ys;
    }
  }

  lemma {:induction false} DoubledConcat(xs: seq<Attr>, ys: seq<Attr>)
    ensures Doubled(xs + ys) == Doubled(xs) + Doubled(ys)
  {
    if xs == [] {
      assert xs + ys == ys;
    } else {
      DoubledConcat(xs[1..], ys);
      assert (xs + ys)[0] == xs[0] && (xs + ys)[1..] == xs[1..] + ys;
      ConcatAssoc(if KnownAttr(xs[0].attrType) then [xs[0]] else [xs[0], ZERO], Doubled(xs[1..]), Doubled(ys));
    }
  }

  predicate AllKnown(attrs: seq<Attr>) {
    forall i :: 0 <= i < |attrs| ==> KnownAttr(attrs[i].attrType)
  }

  lemma {:induction false} KnownUndoubled(attrs: seq<Attr>)
    requires AllKnown(attrs)
    ensures Doubled(attrs) == attrs
  {
    if attrs != [] {
      KnownUndoubled(attrs[1..]);
      assert attrs == [attrs[0]] + attrs[1..];
    }
  }

  ghost predicate HoldsZero(s: Store) {
    0 in s.attributes && s.attributes[0] == ZERO
  }

  lemma ZeroAgain(s: Store)
    requires HoldsZero(s)
    ensures Insert(s, ZERO) == s
  {
    assert s.attributes[0 := ZERO] == s.attributes;
  }

  /** Once the zero attribute is there, entering it again and again changes nothing. */
  lemma {:induction false} DoublingIgnored(s: Store, attrs: seq<Attr>)
    requires HoldsZero(s) && forall a :: a in attrs ==> a.attrType != 0
    ensures InsertAll(s, Doubled(attrs)) == InsertAll(s, attrs)
    decreases |attrs|
  {
    if attrs != [] {
      var a := attrs[0];
      assert a in attrs;
      DoublingIgnored(Insert(s, a), attrs[1..]);
      if KnownAttr(a.attrType) {
        InsertAllConcat(s, [a], Doubled(attrs[1..]));
        assert InsertAll(s, [a]) == Insert(s, a);
      } else {
        InsertAllConcat(s, [a, ZERO], Doubled(attrs[1..]));
        TwoInserted(s, a, ZERO);
        ZeroAgain(Insert(s, a));
      }
    }
  }

  lemma TwoInserted(s: Store, a: Attr, b: Attr)
    ensures InsertAll(s, [a, b]) == Insert(Insert(s, a), b)
  {
    assert [a, b][1..] == [b] && [b][1..] == [];
    assert InsertAll(Insert(s, a), [b]) == Insert(Insert(s, a), b);
  }

  /** The zero attribute stays whatever plain attributes follow, doubled. */
  lemma {:induction false} ZeroStays(s: Store, attrs: seq<Attr>)
    requires HoldsZero(s)
    ensures HoldsZero(InsertAll(s, Doubled(attrs)))
    decreases |attrs|
  {
    if attrs != [] {
      var a := attrs[0];
      if KnownAttr(a.attrType) {
        InsertAllConcat(s, [a], Doubled(attrs[1..]));
        assert InsertAll(s, [a]) == Insert(s, a);
        ZeroStays(Insert(s, a), attrs[1..]);
      } else {
        InsertAllConcat(s, [a, ZERO], Doubled(attrs[1..]));
        TwoInserted(s, a, ZERO);
        ZeroStays(Insert(Insert(s, a), ZERO), attrs[1..]);
      }
    }
  }

  /** The order list only grows at its end. */
  lemma {:induction false} OrderGrows(s: Store, attrs: seq<Attr>)
    requires s.order.Some?
    ensures InsertAll(s, attrs).order.Some? && s.order.value <= InsertAll(s, attrs).order.value
    decreases |attrs|
  {
    if attrs != [] {
      OrderGrows(Insert(s, attrs[0]), attrs[1..]);
    }
  }

  // ----- Where the zero attribute stands

  /** The place of the first attribute of an unknown type. */
  function FirstUnknown(attrs: seq<Attr>): (f: nat)
    ensures f <= |attrs| && AllKnown(attrs[..f]) && (f < |attrs| ==> !KnownAttr(attrs[f].attrType))
    ensures f == |attrs| <==> AllKnown(attrs)
  {
    if attrs == [] || !KnownAttr(attrs[0].attrType) then 0
    else
      var f := 1 + FirstUnknown(attrs[1..]);
      assert attrs[..f] == [attrs[0]] + attrs[1..][..f - 1];
      assert AllKnown(attrs) <==> AllKnown(attrs[1..]);
      f
  }

  /** There is no unknown type, or the zero attribute is the first of an unknown type or stands right behind it. */
  predicate ZeroInPlace(attrs: seq<Attr>) {
    var f := FirstUnknown(attrs);
    f < |attrs| ==> attrs[f] == ZERO || (f + 1 < |attrs| && attrs[f + 1] == ZERO)
  }

  lemma CutAtUnknown(attrs: seq<Attr>, f: nat)
    requires f == FirstUnknown(attrs) < |attrs|
    ensures attrs == attrs[..f] + [attrs[f]] + attrs[f + 1..]
    ensures Doubled(attrs) == attrs[..f] + [attrs[f], ZERO] + Doubled(attrs[f + 1..])
  {
    var pre, u, post := attrs[..f], attrs[f], attrs[f + 1..];
    CutAt(attrs, f);
    DoubledConcat(pre + [u], post);
    DoubledConcat(pre, [u]);
    KnownUndoubled(pre);
    assert [u][1..] == [];
    assert Doubled([u]) == [u, ZERO];
  }

  ghost predicate Empty(s: Store) {
    s.order == Some([]) && s.attributes == map[]
  }

  /** What has been entered right behind the first unknown type and the zero attribute that follows it. */
  lemma EnteredFirst(e: Store, pre: seq<Attr>, u: Attr)
    requires Empty(e) && AllKnown(pre) && Distinct(Types(pre + [u])) && !KnownAttr(u.attrType)
    ensures var s := InsertAll(e, pre + [u, ZERO]);
            HoldsZero(s) && s.order == Some(Types(pre) + [u.attrType] + if u.attrType == 0 then [] else [0])
  {
    InsertAllDistinct(e, pre) by {
      assert forall i :: 0 <= i < |pre| ==> Types(pre)[i] == Types(pre + [u])[i];
    }
    InsertAllConcat(e, pre, [u, ZERO]);
    TwoInserted(InsertAll(e, pre), u, ZERO);
    assert forall i :: 0 <= i < |pre| ==> Types(pre)[i] != Types(pre + [u])[|pre|];
    assert u.attrType !in Types(pre) && 0 !in Types(pre);
    assert Types(pre) + [u.attrType] + [] == Types(pre) + [u.attrType];
  }

  lemma PrefixDistinct(xs: seq<Attr>, ys: seq<Attr>)
    requires Distinct(Types(xs + ys))
    ensures Distinct(Types(xs)) && Distinct(Types(ys))
    ensures forall x, y :: x in xs && y in ys ==> x.attrType != y.attrType
  {
    var all := Types(xs + ys);
    assert forall i :: 0 <= i < |xs| ==> Types(xs)[i] == all[i];
    assert forall i :: 0 <= i < |ys| ==> Types(ys)[i] == all[|xs| + i];
    forall x, y | x in xs && y in ys
      ensures x.attrType != y.attrType
    {
      var i :| 0 <= i < |xs| && xs[i] == x;
      var j :| 0 <= j < |ys| && ys[j] == y;
      assert all[i] != all[|xs| + j];
    }
  }

  /** Wherever a store has unknown types, the zero attribute ends up in it, no later than behind the first of them. */
  lemma EnteredDoubled(e: Store, attrs: seq<Attr>, f: nat)
    requires Empty(e) && Distinct(Types(attrs)) && f == FirstUnknown(attrs) < |attrs|
    ensures var r, t := InsertAll(e, Doubled(attrs)), attrs[f].attrType;
            && HoldsZero(r) && r.order.Some?
            && Types(attrs[..f]) + [t] + (if t == 0 then [] else [0]) <= r.order.value
  {
    var pre, u, post := attrs[..f], attrs[f], attrs[f + 1..];
    CutAtUnknown(attrs, f);
    PrefixDistinct(pre + [u], post);
    EnteredFirst(e, pre, u);
    InsertAllConcat(e, pre + [u, ZERO], Doubled(post));
    ZeroStays(InsertAll(e, pre + [u, ZERO]), post);
    OrderGrows(InsertAll(e, pre + [u, ZERO]), Doubled(post));
  }

  lemma PlacedFirst(e: Store, pre: seq<Attr>, post: seq<Attr>)
    requires Empty(e) && AllKnown(pre) && Distinct(Types(pre + [ZERO] + post))
    ensures InsertAll(e, pre + [ZERO, ZERO] + Doubled(post)) == InsertAll(e, pre + [ZERO] + post)
  {
    PrefixDistinct(pre + [ZERO], post);
    EnteredFirst(e, pre, ZERO);
    var s := InsertAll(e, pre + [ZERO]);
    InsertAllSnoc(e, pre, ZERO);
    InsertAllSnoc(e, pre + [ZERO], ZERO);
    assert pre + [ZERO] + [ZERO] == pre + [ZERO, ZERO];
    ZeroAgain(s);
    assert ZERO in pre + [ZERO];
    DoublingIgnored(s, post);
    InsertAllConcat(e, pre + [ZERO, ZERO], Doubled(post));
    InsertAllConcat(e, pre + [ZERO], post);
  }

  lemma PlacedSecond(e: Store, pre: seq<Attr>, u: Attr, post: seq<Attr>)
    requires Empty(e) && AllKnown(pre) && !KnownAttr(u.attrType) && Distinct(Types(pre + [u, ZERO] + post))
    ensures InsertAll(e, pre + [u, ZERO] + Doubled([ZERO] + post)) == InsertAll(e, pre + [u, ZERO] + post)
  {
    PrefixDistinct(pre + [u, ZERO], post);
    assert pre + [u, ZERO] == pre + [u] + [ZERO];
    PrefixDistinct(pre + [u], [ZERO]);
    EnteredFirst(e, pre, u);
    var s := InsertAll(e, pre + [u, ZERO]);
    assert ([ZERO] + post)[1..] == post;
    TwoInserted(s, ZERO, ZERO);
    ZeroAgain(s);
    assert ZERO in pre + [u, ZERO];
    InsertAllConcat(s, [ZERO, ZERO], Doubled(post));
    DoublingIgnored(s, post);
    InsertAllConcat(e, pre + [u, ZERO], Doubled([ZERO] + post));
    InsertAllConcat(e, pre + [u, ZERO], post);
  }

  /** With the zero attribute in its place, doubling changes nothing. */
  lemma PlacedKept(e: Store, attrs: seq<Attr>)
    requires Empty(e) && Distinct(Types(attrs)) && ZeroInPlace(attrs)
    ensures InsertAll(e, Doubled(attrs)) == InsertAll(e, attrs)
  {
    var f := FirstUnknown(attrs);
    if f == |attrs| {
      KnownUndoubled(attrs);
    } else {
      CutAtUnknown(attrs, f);
      if attrs[f] == ZERO {
        PlacedFirst(e, attrs[..f], attrs[f + 1..]);
      } else {
        CutBehind(attrs, f);
        PlacedSecond(e, attrs[..f], attrs[f], attrs[f + 2..]);
      }
    }
  }

  lemma CutBehind(attrs: seq<Attr>, f: nat)
    requires f + 1 < |attrs| && attrs[f + 1] == ZERO
    ensures attrs[f + 1..] == [ZERO] + attrs[f + 2..]
    ensures attrs == attrs[..f] + [attrs[f], ZERO] + attrs[f + 2..]
  {
  }

  // ----- A whole store

  ghost predicate PlainStore(s: Store) {
    forall k :: k in s.attributes ==> Plain(s.attributes[k])
  }

  lemma PlainListed(s: Store)
    requires Inv(s) && PlainStore(s)
    ensures Lists(Keys(s), s.attributes.Keys)
    ensures AllPlain(Listed(s.attributes, Keys(s))) && Types(Listed(s.attributes, Keys(s))) == Keys(s)
  {
    KeysListed(s);
  }

  lemma EnteredBack(s: Store)
    requires Inv(s) && PlainStore(s) && s.order.Some?
    ensures InsertAll(Emptied(s), Listed(s.attributes, Keys(s))) == s
  {
    PlainListed(s);
    InsertedIs(s);
    var attrs := Listed(s.attributes, Keys(s));
    forall i | 0 <= i < |attrs|
      ensures Strip(attrs[i]) == attrs[i]
    {
      assert attrs[i] in attrs;
    }
    assert StripAll(attrs) == attrs;
    forall k | k in s.attributes
      ensures Strip(s.attributes[k]) == s.attributes[k]
    {
      assert Plain(s.attributes[k]);
    }
    assert Received(s).attributes == s.attributes;
  }

  /**
   A store of plain attributes, with an order list, is read back as it is exactly when the zero attribute is in its
   place, if there are unknown types at all.
   */
  lemma EchoedExactly(s: Store, receiver: Store)
    requires Inv(s) && PlainStore(s) && s.order.Some?
    ensures Unmarshal(receiver, StoreBytes(s)) == (Done, s) <==> ZeroInPlace(Listed(s.attributes, Keys(s)))
  {
    PlainListed(s);
    var attrs := Listed(s.attributes, Keys(s));
    DoubledRead(attrs);
    HeadRead(s, AttrsBytes(attrs), receiver);
    EnteredBack(s);
    if ZeroInPlace(attrs) {
      PlacedKept(Emptied(s), attrs);
    }
    var f := FirstUnknown(attrs);
    if f < |attrs| && Unmarshal(receiver, StoreBytes(s)) == (Done, s) {
      EnteredDoubled(Emptied(s), attrs, f);
      ZeroFound(s, attrs, f);
    }
  }

  lemma ZeroFound(s: Store, attrs: seq<Attr>, f: nat)
    requires Inv(s) && s.order.Some? && HoldsZero(s) && attrs == Listed(s.attributes, Keys(s)) && f < |attrs|
    requires var t := attrs[f].attrType; Types(attrs[..f]) + [t] + (if t == 0 then [] else [0]) <= s.order.value
    ensures attrs[f] == ZERO || (f + 1 < |attrs| && attrs[f + 1] == ZERO)
  {
    KeysListed(s);
    var t := attrs[f].attrType;
    if t == 0 {
      assert Types(attrs)[f] == 0 && attrs[f] == s.attributes[0];
    } else {
      var head := Types(attrs[..f]) + [t] + [0];
      assert head[f + 1] == 0 && Keys(s)[f + 1] == 0;
    }
  }

  // ----- Exactly which stores come back

  /** The stores that come back: plain attributes, an order list, and the zero attribute in its place. */
  ghost predicate Settled(s: Store)
    requires Inv(s)
  {
    PlainStore(s) && s.order.Some? && ZeroInPlace(Listed(s.attributes, Keys(s)))
  }

  lemma KnownSettled(s: Store)
    requires Inv(s) && OnlyKnown(s)
    ensures Settled(s) <==> Canonical(s)
  {
    KeysListed(s);
    var attrs := Listed(s.attributes, Keys(s));
    forall i | 0 <= i < |attrs|
      ensures KnownAttr(attrs[i].attrType)
    {
      assert Keys(s)[i] in Keys(s);
    }
    assert FirstUnknown(attrs) == |attrs|;
  }

  /** A store whose attributes are plain, or all of known types, comes back as it is exactly when it is settled. */
  lemma ComesBackExactly(s: Store, receiver: Store)
    requires Inv(s) && (OnlyKnown(s) || PlainStore(s))
    ensures Unmarshal(receiver, StoreBytes(s)) == (Done, s) <==> Settled(s)
  {
    if OnlyKnown(s) {
      ReadBackExactly(s, receiver);
      KnownSettled(s);
    } else if s.order.Some? {
      EchoedExactly(s, receiver);
    } else {
      HeadRead(s, AttrsBytes(Listed(s.attributes, Keys(s))), receiver);
      OrderGrows(Emptied(s), ParseAttrs(AttrsBytes(Listed(s.attributes, Keys(s)))).items);
    }
  }

  /** A settled store comes back as it is. */
  lemma SettledReadBack(s: Store, receiver: Store)
    requires Inv(s) && Settled(s)
    ensures Unmarshal(receiver, StoreBytes(s)) == (Done, s)
  {
    ComesBackExactly(s, receiver);
  }

  // ----- Attributes of unknown types over whole runs

  /** Attributes of unknown types have no value and nothing in their reserved field. */
  ghost predicate BareUnknowns(s: Store) {
    forall k :: k in s.attributes && !KnownAttr(k) ==> Plain(s.attributes[k]) && s.attributes[k].attrType == k
  }

  lemma {:induction false} ReadBare(b: bytes)
    ensures forall a :: a in ParseAttrs(b).items && !KnownAttr(a.attrType) ==> Plain(a)
    decreases |b|
  {
    match ParseAttr(b)
    case Got(a, rest) =>
      ReadBare(rest);
      assert ParseAttrs(b).items == [a] + ParseAttrs(rest).items;
    case _ =>
  }

  lemma {:induction false} InsertAllBare(s: Store, attrs: seq<Attr>)
    requires BareUnknowns(s) && forall a :: a in attrs && !KnownAttr(a.attrType) ==> Plain(a)
    ensures BareUnknowns(InsertAll(s, attrs))
    decreases |attrs|
  {
    if attrs != [] {
      assert attrs[0] in attrs;
      InsertAllBare(Insert(s, attrs[0]), attrs[1..]);
    }
  }

  lemma ApplyKeepsBare(s: Store, op: Op)
    requires BareUnknowns(s)
    ensures BareUnknowns(Apply(s, op))
  {
    match op
    case Decode(raw) =>
      if |raw| >= 4 {
        ReadBare(raw[4..]);
        InsertAllBare(Store(raw[1], Get16(raw, 2), map[], Some([])), ParseAttrs(raw[4..]).items);
      }
    case _ =>
  }

  /** Over every run, whatever is decoded, attributes of unknown types stay plain. */
  lemma {:induction false} RunKeepsBare(s: Store, ops: seq<Op>)
    requires BareUnknowns(s)
    ensures BareUnknowns(Run(s, ops))
    decreases |ops|
  {
    if ops != [] {
      ApplyKeepsBare(s, ops[0]);
      RunKeepsBare(Apply(s, ops[0]), ops[1..]);
    }
  }

  // ----- Stores that are not settled and come back

  /** A network name without padding whose length field asks for two bytes of it. */
  predicate AsksForTwo(a: Attr) {
    a.attrType == AT_KDF_INPUT && a.reserved == |a.value| && Padding(a.length, a.reserved) == 2
  }

  /** There are such names. */
  lemma TwoLetters(v: bytes)
    requires |v| == 2
    ensures AsksForTwo(Attr(AT_KDF_INPUT, 2, 2, v))
  {
  }

  /** A store with such a name and, behind it, the zero attribute. */
  ghost predicate Skipping(s: Store, a: Attr) {
    s.attributes == map[AT_KDF_INPUT := a, 0 := ZERO] && s.order == Some([AT_KDF_INPUT, 0])
  }

  lemma SkippingListed(s: Store, a: Attr)
    requires Skipping(s, a) && AsksForTwo(a)
    ensures Inv(s) && Lists(Keys(s), s.attributes.Keys) && Listed(s.attributes, Keys(s)) == [a] + [ZERO]
  {
  }

  lemma ZeroBytes()
    ensures AttrBytes(ZERO) == [0, 0, 0, 0]
  {
  }

  lemma TwoBytes(a: Attr)
    ensures AttrsBytes([a] + [ZERO]) == AttrBytes(a) + AttrBytes(ZERO)
  {
    var attrs := [a] + [ZERO];
    assert attrs[0] == a && attrs[1..] == [ZERO] && [ZERO][1..] == [];
    assert AttrsBytes([ZERO]) == AttrBytes(ZERO) + [] == AttrBytes(ZERO);
  }

  /** A network name without padding is read, and as many bytes behind it are skipped as its length field asks for. */
  lemma NameRead(a: Attr, rest: bytes, skip: nat)
    requires a.attrType == AT_KDF_INPUT && a.reserved == |a.value| && Padding(a.length, a.reserved) == skip <= |rest|
    ensures ParseAttr(AttrBytes(a) + rest) == Got(a, rest[skip..])
  {
    BodyRead(a, rest);
    var d := (AttrBytes(a) + rest)[2..];
    assert d[2 + |a.value| + skip..] == d[2 + |a.value|..][skip..];
  }

  lemma OneRead(b: bytes, a: Attr, rest: bytes)
    requires ParseAttr(b) == Got(a, rest)
    ensures ParseAttrs(b) == ParseAttrs(rest).After([a])
  {
  }

  lemma ZeroRead(b: bytes)
    requires |b| == 2 && b[0] == b[1] == 0
    ensures ParseAttrs(b) == Parsed(Done, [ZERO])
  {
    assert ParseAttr(b) == Got(ZERO, b[2..]);
    OneRead(b, ZERO, b[2..]);
    assert [ZERO] + [] == [ZERO];
  }

  lemma SkippingRead(a: Attr, zeros: bytes)
    requires AsksForTwo(a) && |zeros| == 4 && zeros[2] == zeros[3] == 0
    ensures ParseAttrs(AttrBytes(a) + zeros) == Parsed(Done, [a] + [ZERO])
  {
    NameRead(a, zeros, 2);
    OneRead(AttrBytes(a) + zeros, a, zeros[2..]);
    ZeroRead(zeros[2..]);
  }

  lemma SkippingEntered(s: Store, a: Attr)
    requires Skipping(s, a) && AsksForTwo(a)
    ensures Inv(s) && InsertAll(Emptied(s), [a] + [ZERO]) == s
  {
    SkippingListed(s, a);
    assert a.value[..a.reserved] == a.value;
    assert StripAll([a] + [ZERO]) == [a] + [ZERO];
    assert Received(s).attributes == s.attributes;
    InsertedIs(s);
  }

  lemma AskerNotPlain(a: Attr)
    requires AsksForTwo(a)
    ensures !Plain(a)
  {
  }

  /**
   Beyond plain attributes, a store with an unknown type can come back without being settled: the two bytes that are
   skipped as padding are half of the zero attribute, and the other half is read as that attribute.
   */
  lemma NotOnlySettled(s: Store, a: Attr)
    requires Skipping(s, a) && AsksForTwo(a)
    ensures Inv(s) && !Settled(s) && Unmarshal(New(0), StoreBytes(s)) == (Done, s)
  {
    SkippingListed(s, a);
    TwoBytes(a);
    ZeroBytes();
    SkippingRead(a, AttrBytes(ZERO));
    SkippingEntered(s, a);
    HeadRead(s, AttrBytes(a) + AttrBytes(ZERO), New(0));
    AskerNotPlain(a);
    assert !Plain(s.attributes[AT_KDF_INPUT]);
  }
}
