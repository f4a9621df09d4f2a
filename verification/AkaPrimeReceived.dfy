/** Exactly when an AKA' store that was read writes the very bytes it was read from. */
module AkaPrimeReceived {
  import opened Bytes
  import opened AkaPrime
  import opened AkaPrimeProofs
  import opened AkaPrimeExact
  import opened AkaPrimeUnknown

  /** The decoder drops nothing of the attribute in front: reserved bytes it ignores are zero, and there is no padding. */
  predicate NothingDropped(b: bytes)
    requires ParseAttr(b).Got?
  {
    if Is16(b[0]) || b[0] == AT_CHECKCODE then Get16(b, 2) == 0
    else if b[0] == AT_KDF_INPUT then Padding(b[1], Get16(b, 2)) == 0
    else if b[0] == AT_RES then Padding(b[1], Get16(b, 2) / 8) == 0
    else true
  }

  /** Nothing dropped of any attribute, and no single byte left over. */
  predicate Clean(b: bytes)
    decreases |b|
  {
    match ParseAttr(b)
    case End => b == []
    case Bad => false
    case Got(_, rest) => NothingDropped(b) && Clean(rest)
  }

  ghost predicate KnownItems(attrs: seq<Attr>) {
    forall a :: a in attrs ==> KnownAttr(a.attrType)
  }

  // ----- One attribute

  lemma RestIsSuffix(b: bytes)
    requires ParseAttr(b).Got?
    ensures |ParseAttr(b).rest| <= |b| && ParseAttr(b).rest == b[|b| - |ParseAttr(b).rest|..]
  {
  }

  /** When bytes are an attribute, with its reserved field, in front of `rest`. */
  lemma LaidOutAs(b: bytes, a: Attr, rest: bytes)
    requires a.attrType != AT_AUTS && 4 + |a.value| <= |b|
    requires b[0] == a.attrType && b[1] == a.length && b[4..4 + |a.value|] == a.value
    ensures b == AttrBytes(a) + rest <==> b[2..4] == Put16(a.reserved) && b[4 + |a.value|..] == rest
  {
    var n := |a.value|;
    assert b == [b[0], b[1]] + b[2..4] + b[4..4 + n] + b[4 + n..];
    if b == AttrBytes(a) + rest {
      assert b[2] == Hi(a.reserved) && b[3] == Lo(a.reserved);
      assert b[4 + n..] == rest;
    }
  }

  lemma Shifted(b: bytes, n: nat)
    requires 4 + n <= |b|
    ensures b[2..][2..2 + n] == b[4..4 + n] && b[2..][2 + n..] == b[4 + n..]
  {
    var d := b[2..];
    assert forall i :: 0 <= i < |d| ==> d[i] == b[2 + i];
    assert d[2..2 + n] == b[4..4 + n];
    assert d[2 + n..] == b[4 + n..];
  }

  lemma FieldBytes(b: bytes)
    requires |b| >= 4
    ensures Get16(b[2..], 0) == Get16(b, 2) && b[2..4] == Put16(Get16(b, 2))
    ensures Get16(b, 2) == 0 <==> b[2..4] == Put16(0)
  {
  }

  /** AT_MAC, AT_RAND, AT_AUTN and AT_CHECKCODE: the reserved field is ignored. */
  lemma FixedTaken(b: bytes)
    requires ParseAttr(b).Got? && (Is16(b[0]) || b[0] == AT_CHECKCODE)
    ensures NothingDropped(b) <==> b == AttrBytes(ParseAttr(b).attr) + ParseAttr(b).rest
  {
    var a, rest := ParseAttr(b).attr, ParseAttr(b).rest;
    var n := if Is16(b[0]) then 16 else (4 * b[1] as int - 4) % 0x100;
    Shifted(b, n);
    assert a == Attr(b[0], b[1], 0, b[2..][2..2 + n]) && rest == b[2..][2 + n..];
    FieldBytes(b);
    LaidOutAs(b, a, rest);
  }

  /** AT_KDF_INPUT and AT_RES: the padding is skipped. */
  lemma PaddedTaken(b: bytes, n: uint16)
    requires |b| >= 4 && b[0] != AT_AUTS && ParsePadded(b[0], b[1], b[2..], n).Got?
    ensures var a, rest := ParsePadded(b[0], b[1], b[2..], n).attr, ParsePadded(b[0], b[1], b[2..], n).rest;
            Padding(b[1], n) == 0 <==> b == AttrBytes(a) + rest
  {
    var a, rest := ParsePadded(b[0], b[1], b[2..], n).attr, ParsePadded(b[0], b[1], b[2..], n).rest;
    Shifted(b, n);
    Shifted(b, n + Padding(b[1], n));
    FieldBytes(b);
    LaidOutAs(b, a, rest);
  }

  lemma TakenAsWritten(b: bytes)
    requires ParseAttr(b).Got? && KnownAttr(ParseAttr(b).attr.attrType)
    ensures NothingDropped(b) <==> b == AttrBytes(ParseAttr(b).attr) + ParseAttr(b).rest
  {
    if b[0] == AT_AUTS {
      assert b == [b[0], b[1]] + b[2..16] + b[16..];
    } else if Is16(b[0]) || b[0] == AT_CHECKCODE {
      FixedTaken(b);
    } else {
      FieldBytes(b);
      if b[0] == AT_KDF_INPUT {
        PaddedTaken(b, Get16(b, 2));
      } else if b[0] == AT_RES {
        PaddedTaken(b, Get16(b, 2) / 8);
      } else {
        LaidOutAs(b, ParseAttr(b).attr, ParseAttr(b).rest);
      }
    }
  }

  // ----- A list of attributes

  lemma ConsItems(b: bytes)
    requires ParseAttr(b).Got?
    ensures var a, tail := ParseAttr(b).attr, ParseAttrs(ParseAttr(b).rest);
            && ParseAttrs(b) == Parsed(tail.status, [a] + tail.items)
            && AttrsBytes([a] + tail.items) == AttrBytes(a) + AttrsBytes(tail.items)
            && (KnownItems([a] + tail.items) <==> KnownAttr(a.attrType) && KnownItems(tail.items))
  {
    var a, tail := ParseAttr(b).attr, ParseAttrs(ParseAttr(b).rest);
    var items := [a] + tail.items;
    assert items[0] == a && items[1..] == tail.items;
    assert forall x :: x in items <==> x == a || x in tail.items;
  }

  /** Bytes of known types are clean exactly when writing what was read gives them back. */
  lemma {:induction false} CleanExactly(b: bytes)
    requires ParseAttrs(b).status == Done && KnownItems(ParseAttrs(b).items)
    ensures Clean(b) <==> b == AttrsBytes(ParseAttrs(b).items)
    decreases |b|
  {
    match ParseAttr(b)
    case End =>
    case Got(a, rest) =>
      ConsItems(b);
      CleanExactly(rest);
      TakenAsWritten(b);
      if b == AttrBytes(a) + AttrsBytes(ParseAttrs(rest).items) {
        ReadSize(b);
        ReadSizes(rest);
        RestIsSuffix(b);
        SameSuffix(AttrBytes(a), AttrsBytes(ParseAttrs(rest).items), b, rest);
      }
  }

  lemma SameSuffix(x: bytes, y: bytes, b: bytes, rest: bytes)
    requires b == x + y && |x| + |rest| <= |b| && |y| <= |rest| && rest == b[|b| - |rest|..]
    ensures rest == y && b == x + rest
  {
  }

  /** The order list of a decoded store is as long as the list read exactly when no type was read twice. */
  lemma {:induction false} OrderCount(s: Store, attrs: seq<Attr>)
    requires s.order == Some([]) && s.attributes == map[]
    ensures InsertAll(s, attrs).order.Some? && |InsertAll(s, attrs).order.value| <= |attrs|
    ensures |InsertAll(s, attrs).order.value| == |attrs| ==> Distinct(Types(attrs))
    decreases |attrs|
  {
    if attrs != [] {
      var n := |attrs| - 1;
      var front, a := attrs[..n], attrs[n];
      assert attrs == front + [a];
      OrderCount(s, front);
      InsertAllSnoc(s, front, a);
      if |InsertAll(s, attrs).order.value| == |attrs| {
        assert Types(attrs) == Types(front) + [a.attrType];
        forall i | 0 <= i < n
          ensures Types(front)[i] != a.attrType
        {
          assert front[i] in front;
          ReadIsEntered(s, front, front[i].attrType);
        }
      }
    }
  }

  /** A store into which attributes of distinct types were read writes them in that order. */
  lemma DistinctListed(s: Store, items: seq<Attr>)
    requires s.order == Some([]) && s.attributes == map[] && Distinct(Types(items))
    ensures var r := InsertAll(s, items);
            Inv(r) && Lists(Keys(r), r.attributes.Keys) && Listed(r.attributes, Keys(r)) == items
  {
    InsertAllKeepsInv(s, items);
    InsertAllDistinct(s, items);
    var r := InsertAll(s, items);
    KeysListed(r);
    assert Keys(r) == Types(items);
  }

  /** If the store takes as many bytes to write as were read, no type was read twice. */
  lemma SameSizeDistinct(s: Store, items: seq<Attr>)
    requires s.order == Some([]) && s.attributes == map[]
    ensures var r := InsertAll(s, items);
            && Inv(r) && Lists(Keys(r), r.attributes.Keys)
            && (|AttrsBytes(Listed(r.attributes, Keys(r)))| >= |AttrsBytes(items)| ==> Distinct(Types(items)))
  {
    var r := InsertAll(s, items);
    InsertAllKeepsInv(s, items);
    KeysListed(r);
    forall k | k in r.attributes
      ensures r.attributes[k] in items
    {
      EntriesWereRead(s, items, k);
    }
    Shorter(Listed(r.attributes, Keys(r)), items);
    OrderCount(s, items);
  }

  /** What was read is the store's attributes, each once and in order, those of unknown types followed by a zero one. */
  predicate EachOnce(s: Store, items: seq<Attr>)
    requires forall k :: k in Keys(s) ==> k in s.attributes
  {
    items == Doubled(Listed(s.attributes, Keys(s)))
  }

  /** For known types: the store read from `b` writes `b` exactly when `b` is clean and holds each attribute once. */
  lemma KnownRewrittenExactly(s: Store, b: bytes)
    requires Empty(s) && ParseAttrs(b).status == Done && KnownItems(ParseAttrs(b).items)
    ensures var items := ParseAttrs(b).items;
            var r := InsertAll(s, items);
            && Inv(r) && Lists(Keys(r), r.attributes.Keys)
            && (AttrsBytes(Listed(r.attributes, Keys(r))) == b <==> Clean(b) && EachOnce(r, items))
  {
    var items := ParseAttrs(b).items;
    SameSizeDistinct(s, items);
    ReadSizes(b);
    CleanExactly(b);
    OnceIsDistinct(s, items);
    if Distinct(Types(items)) {
      DistinctListed(s, items);
    }
  }

  lemma OnceIsDistinct(s: Store, items: seq<Attr>)
    requires Empty(s) && KnownItems(items)
    ensures var r := InsertAll(s, items);
            Inv(r) && Lists(Keys(r), r.attributes.Keys) && (EachOnce(r, items) <==> Distinct(Types(items)))
  {
    var r := InsertAll(s, items);
    InsertAllKeepsInv(s, items);
    KeysListed(r);
    var attrs := Listed(r.attributes, Keys(r));
    forall i | 0 <= i < |attrs|
      ensures KnownAttr(attrs[i].attrType)
    {
      assert Keys(r)[i] in Keys(r);
      EntriesWereRead(s, items, Keys(r)[i]);
    }
    KnownUndoubled(attrs);
    if Distinct(Types(items)) {
      DistinctListed(s, items);
    }
  }

  // ----- Attributes of unknown types

  /** No padding is skipped. */
  predicate NothingSkipped(b: bytes)
    decreases |b|
  {
    match ParseAttr(b)
    case Got(_, rest) =>
      && (b[0] == AT_KDF_INPUT ==> Padding(b[1], Get16(b, 2)) == 0)
      && (b[0] == AT_RES ==> Padding(b[1], Get16(b, 2) / 8) == 0)
      && NothingSkipped(rest)
    case _ => true
  }

  lemma {:induction false} CleanSkipsNothing(b: bytes)
    requires Clean(b)
    ensures NothingSkipped(b)
    decreases |b|
  {
    if ParseAttr(b).Got? {
      CleanSkipsNothing(ParseAttr(b).rest);
    }
  }

  lemma PlainOne(b: bytes)
    requires ParseAttr(b).Got?
    requires b[0] == AT_KDF_INPUT ==> Padding(b[1], Get16(b, 2)) == 0
    requires b[0] == AT_RES ==> Padding(b[1], Get16(b, 2) / 8) == 0
    ensures Plain(ParseAttr(b).attr)
  {
    if |b| >= 4 {
      FieldBytes(b);
    }
    if KnownAttr(b[0]) {
      ReadSize(b);
      WholeSize(b);
    }
  }

  lemma WholeSize(b: bytes)
    requires ParseAttr(b).Got? && KnownAttr(b[0])
    requires b[0] == AT_KDF_INPUT ==> Padding(b[1], Get16(b, 2)) == 0
    requires b[0] == AT_RES ==> Padding(b[1], Get16(b, 2) / 8) == 0
    ensures |AttrBytes(ParseAttr(b).attr)| + |ParseAttr(b).rest| == |b|
  {
    if |b| >= 4 {
      FieldBytes(b);
    }
  }

  lemma {:induction false} ReadPlain(b: bytes)
    requires NothingSkipped(b)
    ensures forall a :: a in ParseAttrs(b).items ==> Plain(a)
    decreases |b|
  {
    match ParseAttr(b)
    case Got(a, rest) =>
      ReadPlain(rest);
      PlainOne(b);
      assert ParseAttrs(b).items == [a] + ParseAttrs(rest).items;
    case _ =>
  }

  /** Written plain attributes are clean. */
  lemma {:induction false} WrittenClean(attrs: seq<Attr>)
    requires AllPlain(attrs)
    ensures Clean(AttrsBytes(attrs))
  {
    if attrs != [] {
      var a, rest := attrs[0], AttrsBytes(attrs[1..]);
      assert a in attrs;
      WrittenClean(attrs[1..]);
      if KnownAttr(a.attrType) {
        SendableRoundTrip(a, rest);
        TakenAsWritten(AttrBytes(a) + rest);
      } else {
        UnknownClean(a, rest);
      }
    }
  }

  lemma UnknownClean(a: Attr, rest: bytes)
    requires !KnownAttr(a.attrType) && Plain(a) && Clean(rest)
    ensures Clean(AttrBytes(a) + rest)
  {
    var b := AttrBytes(a) + rest;
    var zeros: bytes := [0, 0] + rest;
    assert b == [a.attrType, a.length] + zeros && b[2..] == zeros && zeros[2..] == rest;
    assert ParseAttr(b) == Got(a, zeros) && ParseAttr(zeros) == Got(ZERO, rest);
    assert Clean(zeros);
  }

  /** Clean bytes in which plain attributes are read, those of unknown types doubled, are what writing those gives. */
  lemma {:induction false} CleanWritten(b: bytes, attrs: seq<Attr>)
    requires ParseAttrs(b) == Parsed(Done, Doubled(attrs)) && AllPlain(attrs) && Clean(b)
    ensures b == AttrsBytes(attrs)
    decreases |b|
  {
    if attrs != [] {
      var a := attrs[0];
      assert a in attrs;
      if KnownAttr(a.attrType) {
        KnownFront(b, attrs);
        CleanWritten(ParseAttr(b).rest, attrs[1..]);
      } else {
        UnknownFront(b, attrs);
        CleanWritten(b[4..], attrs[1..]);
      }
    } else {
      assert ParseAttr(b).End?;
    }
  }

  lemma FrontItem(b: bytes, a: Attr, items: seq<Attr>)
    requires ParseAttrs(b) == Parsed(Done, [a] + items)
    ensures ParseAttr(b).Got? && ParseAttr(b).attr == a && ParseAttrs(ParseAttr(b).rest) == Parsed(Done, items)
  {
    assert ([a] + items)[0] == a && ([a] + items)[1..] == items;
    match ParseAttr(b)
    case Got(x, rest) =>
      var tail := ParseAttrs(rest).items;
      assert ([x] + tail)[0] == x && ([x] + tail)[1..] == tail;
    case _ =>
  }

  lemma KnownFront(b: bytes, attrs: seq<Attr>)
    requires attrs != [] && KnownAttr(attrs[0].attrType) && Clean(b)
    requires ParseAttrs(b) == Parsed(Done, Doubled(attrs))
    ensures ParseAttr(b).Got? && b == AttrBytes(attrs[0]) + ParseAttr(b).rest && Clean(ParseAttr(b).rest)
    ensures ParseAttrs(ParseAttr(b).rest) == Parsed(Done, Doubled(attrs[1..]))
  {
    FrontItem(b, attrs[0], Doubled(attrs[1..]));
    TakenAsWritten(b);
  }

  lemma UnknownFront(b: bytes, attrs: seq<Attr>)
    requires attrs != [] && !KnownAttr(attrs[0].attrType) && Plain(attrs[0]) && Clean(b)
    requires ParseAttrs(b) == Parsed(Done, Doubled(attrs))
    ensures |b| >= 4 && b == AttrBytes(attrs[0]) + b[4..] && Clean(b[4..])
    ensures ParseAttrs(b[4..]) == Parsed(Done, Doubled(attrs[1..]))
  {
    DoubledHead(attrs);
    TwoFront(b, attrs[0], Doubled(attrs[1..]));
    FourInFront(b, attrs[0]);
  }

  lemma DoubledHead(attrs: seq<Attr>)
    requires attrs != [] && !KnownAttr(attrs[0].attrType)
    ensures Doubled(attrs) == [attrs[0]] + ([ZERO] + Doubled(attrs[1..]))
  {
    assert [attrs[0], ZERO] == [attrs[0]] + [ZERO];
    ConcatAssoc([attrs[0]], [ZERO], Doubled(attrs[1..]));
  }

  /** An attribute of an unknown type with the zero one behind it was read from four bytes. */
  lemma TwoFront(b: bytes, a: Attr, items: seq<Attr>)
    requires ParseAttrs(b) == Parsed(Done, [a] + ([ZERO] + items)) && !KnownAttr(a.attrType) && Clean(b)
    ensures |b| >= 4 && a == Attr(b[0], b[1], 0, []) && b[2] == b[3] == 0
    ensures ParseAttrs(b[4..]) == Parsed(Done, items) && Clean(b[4..])
  {
    OneFront(b, a, [ZERO] + items);
    SecondFront(b, b[2..], items);
  }

  lemma SecondFront(b: bytes, c: bytes, items: seq<Attr>)
    requires |b| >= 2 && c == b[2..] && ParseAttrs(c) == Parsed(Done, [ZERO] + items) && Clean(c)
    ensures |b| >= 4 && b[2] == b[3] == 0 && ParseAttrs(b[4..]) == Parsed(Done, items) && Clean(b[4..])
  {
    OneFront(c, ZERO, items);
    DropTwo(b, c);
  }

  lemma DropTwo(b: bytes, c: bytes)
    requires |b| >= 4 && c == b[2..]
    ensures c[0] == b[2] && c[1] == b[3] && c[2..] == b[4..]
  {
  }

  lemma OneFront(b: bytes, a: Attr, items: seq<Attr>)
    requires ParseAttrs(b) == Parsed(Done, [a] + items) && !KnownAttr(a.attrType) && Clean(b)
    ensures |b| >= 2 && a == Attr(b[0], b[1], 0, []) && ParseAttrs(b[2..]) == Parsed(Done, items) && Clean(b[2..])
  {
    FrontItem(b, a, items);
    UnknownTaken(b);
  }

  lemma FourInFront(b: bytes, a: Attr)
    requires |b| >= 4 && a == Attr(b[0], b[1], 0, []) && b[2] == b[3] == 0 && !KnownAttr(a.attrType)
    ensures b == AttrBytes(a) + b[4..]
  {
    assert b == [b[0], b[1], 0, 0] + b[4..];
  }

  lemma UnknownTaken(b: bytes)
    requires ParseAttr(b).Got? && !KnownAttr(ParseAttr(b).attr.attrType)
    ensures |b| >= 2 && ParseAttr(b) == Got(Attr(b[0], b[1], 0, []), b[2..])
  {
  }

  lemma StoredPlain(s: Store, items: seq<Attr>)
    requires Empty(s) && forall a :: a in items ==> Plain(a)
    ensures PlainStore(InsertAll(s, items)) && Inv(InsertAll(s, items))
  {
    InsertAllKeepsInv(s, items);
    forall k | k in InsertAll(s, items).attributes
      ensures Plain(InsertAll(s, items).attributes[k])
    {
      EntriesWereRead(s, items, k);
    }
  }

  /** Without padding, whatever the types: the store read from `b` writes `b` exactly under the same conditions. */
  lemma PlainRewrittenExactly(s: Store, b: bytes)
    requires Empty(s) && ParseAttrs(b).status == Done && NothingSkipped(b)
    ensures var items := ParseAttrs(b).items;
            var r := InsertAll(s, items);
            && Inv(r) && Lists(Keys(r), r.attributes.Keys)
            && (AttrsBytes(Listed(r.attributes, Keys(r))) == b <==> Clean(b) && EachOnce(r, items))
  {
    var items := ParseAttrs(b).items;
    ReadPlain(b);
    StoredPlain(s, items);
    var r := InsertAll(s, items);
    PlainListed(r);
    var attrs := Listed(r.attributes, Keys(r));
    if AttrsBytes(attrs) == b {
      DoubledRead(attrs);
      WrittenClean(attrs);
    }
    if Clean(b) && EachOnce(r, items) {
      CleanWritten(b, attrs);
    }
  }

  // ----- A whole store

  lemma {:induction false} FieldsStay(s: Store, attrs: seq<Attr>)
    ensures InsertAll(s, attrs).subType == s.subType && InsertAll(s, attrs).reserved == s.reserved
    decreases |attrs|
  {
    if attrs != [] {
      FieldsStay(Insert(s, attrs[0]), attrs[1..]);
    }
  }

  /** What decoding started from, once the four bytes in front have been read. */
  lemma HeadTaken(raw: bytes, receiver: Store) returns (s: Store)
    requires Unmarshal(receiver, raw).0 == Done
    ensures |raw| >= 4 && s.order == Some([]) && s.attributes == map[] && Head(s) == raw[..4]
    ensures var p := ParseAttrs(raw[4..]); p.status == Done && Unmarshal(receiver, raw).1 == InsertAll(s, p.items)
  {
    s := Store(raw[1], Get16(raw, 2), map[], Some([]));
  }

  lemma KnownRead(s: Store, items: seq<Attr>)
    requires OnlyKnown(InsertAll(s, items))
    ensures KnownItems(items)
  {
    forall a | a in items
      ensures KnownAttr(a.attrType)
    {
      ReadIsEntered(s, items, a.attrType);
    }
  }

  /** The store a packet is read into holds each attribute of the packet once. */
  predicate HoldsEachOnce(raw: bytes, receiver: Store)
    requires |raw| >= 4 && Inv(Unmarshal(receiver, raw).1)
  {
    var r := Unmarshal(receiver, raw).1;
    (forall k :: k in Keys(r) ==> k in r.attributes) && EachOnce(r, ParseAttrs(raw[4..]).items)
  }

  lemma RewrittenExactly(s: Store, b: bytes)
    requires Empty(s) && ParseAttrs(b).status == Done
    requires OnlyKnown(InsertAll(s, ParseAttrs(b).items)) || NothingSkipped(b)
    ensures var items := ParseAttrs(b).items;
            var r := InsertAll(s, items);
            && Inv(r) && Lists(Keys(r), r.attributes.Keys)
            && (AttrsBytes(Listed(r.attributes, Keys(r))) == b <==> Clean(b) && EachOnce(r, items))
  {
    if NothingSkipped(b) {
      PlainRewrittenExactly(s, b);
    } else {
      KnownRead(s, ParseAttrs(b).items);
      KnownRewrittenExactly(s, b);
    }
  }

  /**
   For any bytes that decoding accepts, if all types are known or no padding is skipped: the store writes those very
   bytes again exactly when they are clean and hold each attribute once.
   */
  lemma WritesWhatWasRead(raw: bytes, receiver: Store)
    requires Unmarshal(receiver, raw).0 == Done && |raw| >= 4
    requires OnlyKnown(Unmarshal(receiver, raw).1) || NothingSkipped(raw[4..])
    ensures var r := Unmarshal(receiver, raw).1;
            && Inv(r)
            && (StoreBytes(r) == raw <==> Clean(raw[4..]) && HoldsEachOnce(raw, receiver))
  {
    var s := HeadTaken(raw, receiver);
    var r := Unmarshal(receiver, raw).1;
    var items := ParseAttrs(raw[4..]).items;
    RewrittenExactly(s, raw[4..]);
    FieldsStay(s, items);
    HeadAndRest(raw, Head(s), AttrsBytes(Listed(r.attributes, Keys(r))));
  }

  lemma HeadAndRest(raw: bytes, head: bytes, rest: bytes)
    requires |raw| >= 4 && head == raw[..4]
    ensures head + rest == raw <==> rest == raw[4..]
  {
    assert raw == raw[..4] + raw[4..];
    assert (head + rest)[4..] == rest;
  }

  // ----- The MAC

  lemma {:induction false} MacForm(b: bytes, a: Attr)
    requires a in ParseAttrs(b).items && a.attrType == AT_MAC
    ensures |a.value| == 16 && a == MacAttr(a.value)
    decreases |b|
  {
    if a != ParseAttr(b).attr {
      assert ParseAttrs(b).items == [ParseAttr(b).attr] + ParseAttrs(ParseAttr(b).rest).items;
      MacForm(ParseAttr(b).rest, a);
    }
  }

  lemma MacRead(s: Store, b: bytes)
    requires s.attributes == map[] && s.order == Some([]) && AT_MAC in InsertAll(s, ParseAttrs(b).items).attributes
    ensures var a := InsertAll(s, ParseAttrs(b).items).attributes[AT_MAC]; |a.value| == 16 && a == MacAttr(a.value)
  {
    EntriesWereRead(s, ParseAttrs(b).items, AT_MAC);
    InsertAllKeepsInv(s, ParseAttrs(b).items);
    MacForm(b, InsertAll(s, ParseAttrs(b).items).attributes[AT_MAC]);
  }

  /** Resetting the MAC and setting it to what it was changes nothing. */
  lemma SentAsHeld(r: Store)
    requires AT_MAC in r.attributes && r.attributes[AT_MAC] == MacAttr(r.attributes[AT_MAC].value)
    ensures Sent(r, r.attributes[AT_MAC].value) == r
  {
    var mac := r.attributes[AT_MAC];
    assert r.attributes[AT_MAC := MacAttr(Zeros(16))][AT_MAC := mac] == r.attributes;
  }

  /** From clean bytes that hold each attribute once, a receiver hashes what it received with only the MAC bytes zeroed. */
  lemma HashesWhatWasRead(raw: bytes, receiver: Store) returns (before: bytes, mac: bytes, after: bytes)
    requires Unmarshal(receiver, raw).0 == Done && AT_MAC in Unmarshal(receiver, raw).1.attributes
    requires |raw| >= 4 && Inv(Unmarshal(receiver, raw).1) && Clean(raw[4..]) && HoldsEachOnce(raw, receiver)
    ensures var r := Unmarshal(receiver, raw).1;
            && mac == r.attributes[AT_MAC].value && |mac| == 16 && raw == before + mac + after
            && Inv(InitMac(r)) && StoreBytes(InitMac(r)) == before + Zeros(16) + after
  {
    var s := HeadTaken(raw, receiver);
    var r := Unmarshal(receiver, raw).1;
    MacRead(s, raw[4..]);
    mac := r.attributes[AT_MAC].value;
    CleanSkipsNothing(raw[4..]);
    WritesWhatWasRead(raw, receiver);
    SentAsHeld(r);
    before, after := OnlyMacZeroed(r, mac);
  }
}
