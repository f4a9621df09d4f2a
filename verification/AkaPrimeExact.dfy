/** Exactly which AKA' stores are read back as they are, and exactly which values are delivered. */
module AkaPrimeExact {
  import opened Bytes
  import opened AkaPrime
  import opened AkaPrimeProofs

  /** A store that is already as its receiver would hold it. */
  ghost predicate Canonical(s: Store) {
    SendableStore(s) && Unpadded(s) && s.order.Some?
  }

  /** The types whose values the decoder reads. */
  predicate KnownAttr(t: byte) {
    Is16(t) || t == AT_AUTS || t == AT_KDF_INPUT || t == AT_RES || InReserved(t) || t == AT_CHECKCODE
  }

  ghost predicate OnlyKnown(s: Store) {
    forall k :: k in s.attributes ==> KnownAttr(k)
  }

  // ----- What is read takes at least as many bytes as it would take to write

  lemma UnpaddedRead(a: Attr, n: uint16)
    requires |a.value| == n && Padding(a.length, n) == 0
    ensures PaddedBy(a, n)
  {
    var total := (4 * a.length as int) % 0x100;
    assert total % 4 == 0;
    assert total - n - 4 == 0 || total - n - 4 == -0x1_0000;
  }

  lemma PaddedSize(t: byte, length: byte, d: bytes, n: uint16)
    requires |d| >= 2 && ParsePadded(t, length, d, n).Got?
    requires (t == AT_KDF_INPUT && n == Get16(d, 0)) || (t == AT_RES && n == Get16(d, 0) / 8)
    ensures var a, rest := ParsePadded(t, length, d, n).attr, ParsePadded(t, length, d, n).rest;
            && |AttrBytes(a)| + |rest| <= 2 + |d|
            && (|AttrBytes(a)| + |rest| == 2 + |d| ==> Sendable(a) && Strip(a) == a)
  {
    if Padding(length, n) == 0 {
      UnpaddedRead(ParsePadded(t, length, d, n).attr, n);
    }
  }

  lemma ReadSize(b: bytes)
    requires ParseAttr(b).Got? && KnownAttr(ParseAttr(b).attr.attrType)
    ensures var a, rest := ParseAttr(b).attr, ParseAttr(b).rest;
            && |AttrBytes(a)| + |rest| <= |b|
            && (|AttrBytes(a)| + |rest| == |b| ==> Sendable(a) && Strip(a) == a)
  {
    if b[0] == AT_KDF_INPUT {
      PaddedSize(b[0], b[1], b[2..], Get16(b[2..], 0));
    } else if b[0] == AT_RES {
      PaddedSize(b[0], b[1], b[2..], Get16(b[2..], 0) / 8);
    }
  }

  ghost predicate AllKept(attrs: seq<Attr>) {
    forall a :: a in attrs ==> Sendable(a) && Strip(a) == a
  }

  lemma {:induction false} ReadSizes(b: bytes)
    requires forall a :: a in ParseAttrs(b).items ==> KnownAttr(a.attrType)
    ensures |AttrsBytes(ParseAttrs(b).items)| <= |b|
    ensures |AttrsBytes(ParseAttrs(b).items)| == |b| ==> AllKept(ParseAttrs(b).items)
    decreases |b|
  {
    match ParseAttr(b)
    case Got(a, rest) =>
      var items := ParseAttrs(rest).items;
      assert ParseAttrs(b).items == [a] + items;
      assert ([a] + items)[0] == a && ([a] + items)[1..] == items;
      ReadSize(b);
      ReadSizes(rest);
    case _ =>
  }

  // ----- Every entry of a decoded store was read

  lemma {:induction false} EntriesWereRead(s: Store, attrs: seq<Attr>, k: byte)
    requires k in InsertAll(s, attrs).attributes
    ensures var a := InsertAll(s, attrs).attributes[k]; a in attrs || (k in s.attributes && a == s.attributes[k])
    decreases |attrs|
  {
    if attrs != [] {
      EntriesWereRead(Insert(s, attrs[0]), attrs[1..], k);
    }
  }

  lemma {:induction false} ReadIsEntered(s: Store, attrs: seq<Attr>, t: byte)
    requires t in s.attributes || exists a :: a in attrs && a.attrType == t
    ensures t in InsertAll(s, attrs).attributes
    decreases |attrs|
  {
    if attrs != [] {
      assert attrs == [attrs[0]] + attrs[1..];
      ReadIsEntered(Insert(s, attrs[0]), attrs[1..], t);
    }
  }

  // ----- Counting bytes

  lemma {:induction false} AtLeastTwoEach(attrs: seq<Attr>)
    ensures |AttrsBytes(attrs)| >= 2 * |attrs|
  {
    if attrs != [] {
      AtLeastTwoEach(attrs[1..]);
    }
  }

  /** Attributes of distinct types, all among `ys`, take no more bytes than `ys`, and fewer if there are fewer of them. */
  lemma {:induction false} Shorter(xs: seq<Attr>, ys: seq<Attr>)
    requires Distinct(Types(xs)) && forall x :: x in xs ==> x in ys
    ensures |xs| <= |ys| && |AttrsBytes(xs)| + 2 * (|ys| - |xs|) <= |AttrsBytes(ys)|
  {
    if xs == [] {
      AtLeastTwoEach(ys);
    } else {
      assert xs[0] in ys;
      var i :| 0 <= i < |ys| && ys[i] == xs[0];
      var others := ys[..i] + ys[i + 1..];
      AttrsBytesSplit(ys, i);
      AttrsBytesConcat(ys[..i], ys[i + 1..]);
      forall x | x in xs[1..]
        ensures x in others
      {
        Elsewhere(xs, ys, i, x);
      }
      assert Types(xs[1..]) == Types(xs)[1..];
      Shorter(xs[1..], others);
    }
  }

  lemma Elsewhere(xs: seq<Attr>, ys: seq<Attr>, i: nat, x: Attr)
    requires xs != [] && Distinct(Types(xs)) && x in xs[1..] && x in ys && i < |ys| && ys[i] == xs[0]
    ensures x in ys[..i] + ys[i + 1..]
  {
    var j :| 0 <= j < |xs[1..]| && xs[1..][j] == x;
    assert Types(xs)[0] != Types(xs)[j + 1];
    var m :| 0 <= m < |ys| && ys[m] == x;
    assert m < i ==> ys[..i][m] == x;
    assert m > i ==> ys[i + 1..][m - i - 1] == x;
  }

  /**
   A store without unknown types is read back as it is exactly when it is canonical. If it is read back, every entry
   was read at least once, so reading took at least the bytes that were written; hence it took exactly those bytes.
   */
  lemma ReadBackExactly(s: Store, receiver: Store)
    requires Inv(s) && OnlyKnown(s)
    ensures Unmarshal(receiver, StoreBytes(s)) == (Done, s) <==> Canonical(s)
  {
    if Canonical(s) {
      StoreRoundTrip(s, receiver);
      assert Received(s).attributes == s.attributes;
    }
    if Unmarshal(receiver, StoreBytes(s)) == (Done, s) {
      ReadBackIsCanonical(s, receiver);
    }
  }

  /** What was read into a store that became `s`. */
  lemma ReadInto(s: Store, items: seq<Attr>)
    requires OnlyKnown(s) && InsertAll(Emptied(s), items).attributes == s.attributes
    ensures forall a :: a in items ==> KnownAttr(a.attrType)
    ensures forall k :: k in s.attributes ==> s.attributes[k] in items
  {
    forall a | a in items
      ensures KnownAttr(a.attrType)
    {
      ReadIsEntered(Emptied(s), items, a.attrType);
    }
    forall k | k in s.attributes
      ensures s.attributes[k] in items
    {
      EntriesWereRead(Emptied(s), items, k);
    }
  }

  lemma WrittenIsShorter(s: Store, items: seq<Attr>)
    requires Inv(s) && forall k :: k in s.attributes ==> s.attributes[k] in items
    ensures Lists(Keys(s), s.attributes.Keys)
    ensures |AttrsBytes(Listed(s.attributes, Keys(s)))| <= |AttrsBytes(items)|
  {
    KeysListed(s);
    Shorter(Listed(s.attributes, Keys(s)), items);
  }

  lemma KeptIsCanonical(s: Store, items: seq<Attr>)
    requires AllKept(items) && s.order.Some? && forall k :: k in s.attributes ==> s.attributes[k] in items
    ensures Canonical(s)
  {
  }

  lemma BytesOfCanonical(s: Store, b: bytes)
    requires Inv(s) && OnlyKnown(s) && s.order.Some? && InsertAll(Emptied(s), ParseAttrs(b).items) == s
    requires |b| == |AttrsBytes(Listed(s.attributes, Keys(s)))|
    ensures Canonical(s)
  {
    var items := ParseAttrs(b).items;
    ReadInto(s, items);
    ReadSizes(b);
    WrittenIsShorter(s, items);
    KeptIsCanonical(s, items);
  }

  lemma {:induction false} OrderStays(s: Store, attrs: seq<Attr>)
    requires s.order.Some?
    ensures InsertAll(s, attrs).order.Some?
    decreases |attrs|
  {
    if attrs != [] {
      OrderStays(Insert(s, attrs[0]), attrs[1..]);
    }
  }

  lemma ReadBackIsCanonical(s: Store, receiver: Store)
    requires Inv(s) && OnlyKnown(s) && Unmarshal(receiver, StoreBytes(s)) == (Done, s)
    ensures Canonical(s)
  {
    var b := AttrsBytes(Listed(s.attributes, Keys(s)));
    HeadRead(s, b, receiver);
    OrderStays(Emptied(s), ParseAttrs(b).items);
    BytesOfCanonical(s, b);
  }

  // ----- Which values are delivered

  /** Every type set is received with the last value given for it. */
  ghost predicate AllDelivered(status: Status, r: Store, calls: seq<(byte, bytes)>) {
    && status == Done
    && forall t: byte :: Last(calls, t).Some? ==> t in r.attributes && GetValue(r.attributes[t]) == Last(calls, t).value
  }

  ghost predicate AllFit(calls: seq<(byte, bytes)>) {
    forall t: byte :: Last(calls, t).Some? ==> Fits(t, Last(calls, t).value)
  }

  /** What any attribute read from `n` bytes can hold. */
  predicate Bounded(a: Attr, n: nat) {
    && |a.value| <= n
    && (a.attrType == AT_KDF_INPUT ==> |a.value| <= 0xFFFF)
    && (a.attrType == AT_CHECKCODE ==> |a.value| % 4 == 0 && |a.value| <= 252)
  }

  lemma OneBounded(b: bytes)
    requires ParseAttr(b).Got?
    ensures Bounded(ParseAttr(b).attr, |b|)
  {
    if b[0] == AT_CHECKCODE {
      CheckcodeBound(b[1]);
    }
  }

  lemma CheckcodeBound(length: byte)
    ensures var n := (4 * length as int - 4) % 0x100; n % 4 == 0 && n <= 252
  {
  }

  lemma {:induction false} ReadBounded(b: bytes)
    ensures forall a :: a in ParseAttrs(b).items ==> Bounded(a, |b|)
    decreases |b|
  {
    match ParseAttr(b)
    case Got(a, rest) =>
      ReadBounded(rest);
      OneBounded(b);
      assert ParseAttrs(b).items == [a] + ParseAttrs(rest).items;
    case _ =>
  }

  /** The entry under a type was read with that type. */
  lemma HeldWasRead(s: Store, items: seq<Attr>, t: byte)
    requires t in InsertAll(Emptied(s), items).attributes
    ensures var a := InsertAll(Emptied(s), items).attributes[t]; a in items && a.attrType == t
  {
    EntriesWereRead(Emptied(s), items, t);
    InsertAllKeepsInv(Emptied(s), items);
  }

  /** A value longer than any that can be read is not delivered. */
  lemma TooLong(s: Store, b: bytes, t: byte, v: bytes)
    requires (t == AT_KDF_INPUT && |v| > 0xFFFF) || (t == AT_CHECKCODE && !Fits(t, v))
    ensures var r := InsertAll(Emptied(s), ParseAttrs(b).items);
            t in r.attributes ==> GetValue(r.attributes[t]) != v
  {
    var items := ParseAttrs(b).items;
    if t in InsertAll(Emptied(s), items).attributes {
      ReadBounded(b);
      HeldWasRead(s, items, t);
    }
  }

  /** Between the two ranges that fit, the receiver skips at least 256 bytes too many. */
  lemma BadSkip(n: nat)
    requires 249 <= n <= 65528
    ensures Padding(Words(n), n) >= 256 + PadLen(n)
  {
    WordsBytes(n);
    var total := 4 + n + PadLen(n);
    assert total % 0x100 == total - 0x100 * (total / 0x100);
    assert 1 <= total / 0x100 <= 255;
  }

  lemma Swallows(v: bytes, post: bytes)
    requires 249 <= |v| <= 65528
    ensures var r := ParseAttr(AttrBytes(MakeAttr(AT_KDF_INPUT, v).value) + post);
            r.Bad? || (r.Got? && r.attr.attrType == AT_KDF_INPUT && |r.rest| + 256 <= |post|)
  {
    var a := Attr(AT_KDF_INPUT, Words(|v|), |v|, v + Zeros(PadLen(|v|)));
    KdfInputIs(v);
    var b := AttrBytes(a) + post;
    assert b[2..] == Put16(|v|) + a.value + post;
    assert Get16(b[2..], 0) == |v|;
    BadSkip(|v|);
  }

  lemma LaterItem(pre: seq<Attr>, x: Attr, items: seq<Attr>, a: Attr)
    requires forall y :: y in pre ==> y.attrType < a.attrType
    requires x.attrType < a.attrType && a in StripAll(pre) + ([x] + items)
    ensures a in items
  {
    forall i | 0 <= i < |pre|
      ensures StripAll(pre)[i] != a
    {
      assert pre[i] in pre;
    }
  }

  /** An attribute of a later type, held after a swallowing one, is short. */
  lemma AfterSwallowing(s: Store, pre: seq<Attr>, v: bytes, post: bytes, t: byte)
    requires AllSendable(pre) && 249 <= |v| <= 65528 && t > AT_KDF_INPUT
    requires forall a :: a in pre ==> a.attrType < AT_KDF_INPUT
    ensures var p := ParseAttrs(AttrsBytes(pre) + (AttrBytes(MakeAttr(AT_KDF_INPUT, v).value) + post));
            && (|post| < 256 ==> p.status != Done)
            && (p.status == Done && t in InsertAll(Emptied(s), p.items).attributes
                ==> |InsertAll(Emptied(s), p.items).attributes[t].value| + 256 <= |post|)
  {
    var b := AttrBytes(MakeAttr(AT_KDF_INPUT, v).value) + post;
    var p := ParseAttrs(AttrsBytes(pre) + b);
    ReadThrough(pre, b);
    Swallows(v, post);
    if p.status == Done && t in InsertAll(Emptied(s), p.items).attributes {
      var step := ParseAttr(b);
      ReadBounded(step.rest);
      HeldWasRead(s, p.items, t);
      assert p.items == StripAll(pre) + ([step.attr] + ParseAttrs(step.rest).items);
      LaterItem(pre, step.attr, ParseAttrs(step.rest).items, InsertAll(Emptied(s), p.items).attributes[t]);
    }
  }

  // ----- A store built by its sender

  /** What `SetAttr` can have put there. */
  ghost predicate Built(s: Store) {
    && Inv(s) && s.order.None? && OnlyKnown(s)
    && (AT_KDF in s.attributes ==> s.attributes[AT_KDF].value == [])
  }

  /** The attributes with types above AT_KDF_INPUT. */
  function Above(s: Store): seq<Attr> {
    (if AT_KDF in s.attributes then [s.attributes[AT_KDF]] else [])
    + (if AT_CHECKCODE in s.attributes then [s.attributes[AT_CHECKCODE]] else [])
  }

  lemma AboveSize(s: Store)
    requires Built(s)
    ensures |AttrsBytes(Above(s))| <= 4 + if AT_CHECKCODE in s.attributes then 4 + |s.attributes[AT_CHECKCODE].value| else 0
  {
    var xs := if AT_KDF in s.attributes then [s.attributes[AT_KDF]] else [];
    var ys := if AT_CHECKCODE in s.attributes then [s.attributes[AT_CHECKCODE]] else [];
    AttrsBytesConcat(xs, ys);
    assert xs != [] ==> xs[1..] == [];
    assert ys != [] ==> ys[1..] == [];
  }

  lemma LaterSize(s: Store, ks: seq<byte>, i: nat)
    requires Built(s) && Increasing(ks) && (forall k :: k in ks ==> k in s.attributes)
    requires i < |ks| && ks[i] == AT_KDF_INPUT
    ensures |AttrsBytes(Listed(s.attributes, ks)[i + 1..])| <= |AttrsBytes(Above(s))|
  {
    var post := Listed(s.attributes, ks)[i + 1..];
    forall j | 0 <= j < |post|
      ensures post[j] in Above(s) && Types(post)[j] == ks[i + 1 + j]
    {
      assert ks[i + 1 + j] in ks && ks[i] < ks[i + 1 + j];
      AboveHas(s, ks[i + 1 + j]);
    }
    Shorter(post, Above(s));
  }

  lemma AboveHas(s: Store, k: byte)
    requires Built(s) && k in s.attributes && k > AT_KDF_INPUT
    ensures s.attributes[k] in Above(s) && s.attributes[k].attrType == k
  {
  }

  lemma EarlierTypes(s: Store, ks: seq<byte>, i: nat)
    requires Inv(s) && Increasing(ks) && (forall k :: k in ks ==> k in s.attributes) && i < |ks|
    ensures forall a :: a in Listed(s.attributes, ks)[..i] ==>
              a.attrType < ks[i] && a.attrType in s.attributes && a == s.attributes[a.attrType]
  {
    forall a | a in Listed(s.attributes, ks)[..i]
      ensures a.attrType < ks[i] && a.attrType in s.attributes && a == s.attributes[a.attrType]
    {
      var j :| 0 <= j < i && Listed(s.attributes, ks)[..i][j] == a;
      assert ks[j] in ks;
    }
  }

  lemma CutAt<T>(xs: seq<T>, i: nat)
    requires i < |xs|
    ensures xs == xs[..i] + [xs[i]] + xs[i + 1..]
  {
  }

  /** The written list, cut at AT_KDF_INPUT. */
  lemma CutAtKdfInput(s: Store) returns (pre: seq<Attr>, post: seq<Attr>)
    requires Built(s) && AT_KDF_INPUT in s.attributes
    ensures Listed(s.attributes, Keys(s)) == pre + [s.attributes[AT_KDF_INPUT]] + post
    ensures forall a :: a in pre ==> a.attrType < AT_KDF_INPUT && a.attrType in s.attributes && a == s.attributes[a.attrType]
    ensures |AttrsBytes(post)| <= |AttrsBytes(Above(s))|
  {
    var ks := Keys(s);
    assert AT_KDF_INPUT in ks;
    var i :| 0 <= i < |ks| && ks[i] == AT_KDF_INPUT;
    var attrs := Listed(s.attributes, ks);
    pre, post := attrs[..i], attrs[i + 1..];
    CutAt(attrs, i);
    EarlierTypes(s, ks, i);
    LaterSize(s, ks, i);
  }

  lemma BuiltByCalls(subType: byte, calls: seq<(byte, bytes)>)
    ensures Built(SetCalls(New(subType), calls))
  {
    SetCallsStore(subType, calls);
  }

  /** An AT_KDF_INPUT between the two ranges that fit: either nothing is accepted, or AT_CHECKCODE is lost. */
  lemma KdfInputLost(s: Store, v: bytes, receiver: Store)
    requires Built(s) && AT_KDF_INPUT in s.attributes && 249 <= |v| <= 65528
    requires MakeAttr(AT_KDF_INPUT, v) == Ok(s.attributes[AT_KDF_INPUT])
    requires forall k :: k in s.attributes && k < AT_KDF_INPUT ==> Sendable(s.attributes[k])
    requires AT_CHECKCODE in s.attributes ==> |s.attributes[AT_CHECKCODE].value| <= 252
    ensures var (status, r) := Unmarshal(receiver, StoreBytes(s));
            status == Done ==>
              && AT_CHECKCODE in s.attributes
              && (AT_CHECKCODE in r.attributes ==> r.attributes[AT_CHECKCODE].value != s.attributes[AT_CHECKCODE].value)
  {
    var pre, post := CutBytes(s);
    SwallowedFrom(s, pre, v, post, receiver);
  }

  lemma CutBytes(s: Store) returns (pre: seq<Attr>, post: bytes)
    requires Built(s) && AT_KDF_INPUT in s.attributes
    requires forall k :: k in s.attributes && k < AT_KDF_INPUT ==> Sendable(s.attributes[k])
    ensures StoreBytes(s) == Head(s) + (AttrsBytes(pre) + (AttrBytes(s.attributes[AT_KDF_INPUT]) + post))
    ensures AllSendable(pre) && forall a :: a in pre ==> a.attrType < AT_KDF_INPUT
    ensures |post| <= 4 + if AT_CHECKCODE in s.attributes then 4 + |s.attributes[AT_CHECKCODE].value| else 0
  {
    var after;
    pre, after := CutAtKdfInput(s);
    post := AttrsBytes(after);
    AboveSize(s);
    KdfInputBytes(pre, s.attributes[AT_KDF_INPUT], after);
    forall i | 0 <= i < |pre|
      ensures Sendable(pre[i])
    {
      assert pre[i] in pre;
    }
  }

  lemma SwallowedFrom(s: Store, pre: seq<Attr>, v: bytes, post: bytes, receiver: Store)
    requires AllSendable(pre) && 249 <= |v| <= 65528
    requires forall a :: a in pre ==> a.attrType < AT_KDF_INPUT
    requires |post| <= 4 + if AT_CHECKCODE in s.attributes then 4 + |s.attributes[AT_CHECKCODE].value| else 0
    requires AT_CHECKCODE in s.attributes ==> |s.attributes[AT_CHECKCODE].value| <= 252
    ensures var b := AttrsBytes(pre) + (AttrBytes(MakeAttr(AT_KDF_INPUT, v).value) + post);
            var (status, r) := Unmarshal(receiver, Head(s) + b);
            status == Done ==>
              && AT_CHECKCODE in s.attributes
              && (AT_CHECKCODE in r.attributes ==> r.attributes[AT_CHECKCODE].value != s.attributes[AT_CHECKCODE].value)
  {
    HeadRead(s, AttrsBytes(pre) + (AttrBytes(MakeAttr(AT_KDF_INPUT, v).value) + post), receiver);
    AfterSwallowing(s, pre, v, post, AT_CHECKCODE);
  }

  lemma KdfInputBytes(pre: seq<Attr>, a: Attr, post: seq<Attr>)
    ensures AttrsBytes(pre + [a] + post) == AttrsBytes(pre) + (AttrBytes(a) + AttrsBytes(post))
  {
    ConcatAssoc(pre, [a], post);
    AttrsBytesConcat(pre, [a] + post);
    assert ([a] + post)[1..] == post;
  }

  lemma TooLongLost(s: Store, t: byte, v: bytes, receiver: Store)
    requires Inv(s) && ((t == AT_KDF_INPUT && |v| > 0xFFFF) || (t == AT_CHECKCODE && !Fits(t, v)))
    ensures var (_, r) := Unmarshal(receiver, StoreBytes(s)); t in r.attributes ==> GetValue(r.attributes[t]) != v
  {
    var b := AttrsBytes(Listed(s.attributes, Keys(s)));
    HeadRead(s, b, receiver);
    TooLong(s, b, t, v);
  }

  lemma CheckcodeOf(subType: byte, calls: seq<(byte, bytes)>)
    ensures var s, c := SetCalls(New(subType), calls), Last(calls, AT_CHECKCODE);
            && (c.Some? <==> AT_CHECKCODE in s.attributes)
            && (c.Some? ==> s.attributes[AT_CHECKCODE].value == c.value)
  {
    SetCallsStore(subType, calls);
  }

  lemma BelowSendable(subType: byte, calls: seq<(byte, bytes)>)
    ensures var s := SetCalls(New(subType), calls);
            forall k :: k in s.attributes && k < AT_KDF_INPUT ==> Sendable(s.attributes[k])
  {
    var s := SetCalls(New(subType), calls);
    SetCallsStore(subType, calls);
    forall k | k in s.attributes && k < AT_KDF_INPUT
      ensures Sendable(s.attributes[k])
    {
      MadeAttr(k, Last(calls, k).value);
    }
  }

  lemma UnfitKdfInput(subType: byte, calls: seq<(byte, bytes)>, receiver: Store)
    requires var v := Last(calls, AT_KDF_INPUT); v.Some? && 249 <= |v.value| <= 65528
    requires var c := Last(calls, AT_CHECKCODE); c.Some? ==> Fits(AT_CHECKCODE, c.value)
    ensures Inv(SetCalls(New(subType), calls))
    ensures var (status, r) := Unmarshal(receiver, StoreBytes(SetCalls(New(subType), calls)));
            var c := Last(calls, AT_CHECKCODE);
            status == Done ==> c.Some? && (AT_CHECKCODE in r.attributes ==> r.attributes[AT_CHECKCODE].value != c.value)
  {
    SetCallsStore(subType, calls);
    BuiltByCalls(subType, calls);
    BelowSendable(subType, calls);
    CheckcodeOf(subType, calls);
    KdfInputLost(SetCalls(New(subType), calls), Last(calls, AT_KDF_INPUT).value, receiver);
  }

  lemma OneMissing(status: Status, r: Store, calls: seq<(byte, bytes)>, t: byte)
    requires status == Done ==> Last(calls, t).Some?
    requires status == Done && t in r.attributes ==> GetValue(r.attributes[t]) != Last(calls, t).value
    ensures !AllDelivered(status, r, calls)
  {
  }

  lemma UnfitNotDelivered(subType: byte, calls: seq<(byte, bytes)>, t: byte, receiver: Store)
    requires Last(calls, t).Some? && !Fits(t, Last(calls, t).value)
    ensures Inv(SetCalls(New(subType), calls))
    ensures var (status, r) := Unmarshal(receiver, StoreBytes(SetCalls(New(subType), calls)));
            !AllDelivered(status, r, calls)
  {
    BuiltByCalls(subType, calls);
    var s, c := SetCalls(New(subType), calls), Last(calls, AT_CHECKCODE);
    var (status, r) := Unmarshal(receiver, StoreBytes(s));
    if c.Some? && !Fits(AT_CHECKCODE, c.value) {
      TooLongLost(s, AT_CHECKCODE, c.value, receiver);
      OneMissing(status, r, calls, AT_CHECKCODE);
    } else if |Last(calls, t).value| > 0xFFFF {
      TooLongLost(s, t, Last(calls, t).value, receiver);
      OneMissing(status, r, calls, t);
    } else {
      UnfitKdfInput(subType, calls, receiver);
      CheckcodeHeld(s, receiver);
      OneMissing(status, r, calls, AT_CHECKCODE);
    }
  }

  lemma CheckcodeHeld(s: Store, receiver: Store)
    requires Inv(s)
    ensures var (_, r) := Unmarshal(receiver, StoreBytes(s));
            AT_CHECKCODE in r.attributes ==> GetValue(r.attributes[AT_CHECKCODE]) == r.attributes[AT_CHECKCODE].value
  {
    HeadRead(s, AttrsBytes(Listed(s.attributes, Keys(s))), receiver);
    InsertAllKeepsInv(Emptied(s), ParseAttrs(AttrsBytes(Listed(s.attributes, Keys(s)))).items);
  }

  /** After any calls on a new store, its packet delivers the last value given for each type exactly when all of them fit. */
  lemma DeliveredExactly(subType: byte, calls: seq<(byte, bytes)>, receiver: Store)
    ensures Inv(SetCalls(New(subType), calls))
    ensures var (status, r) := Unmarshal(receiver, StoreBytes(SetCalls(New(subType), calls)));
            AllDelivered(status, r, calls) <==> AllFit(calls)
  {
    if AllFit(calls) {
      LastValueDelivered(subType, calls, receiver);
    } else {
      var t: byte :| Last(calls, t).Some? && !Fits(t, Last(calls, t).value);
      UnfitNotDelivered(subType, calls, t, receiver);
    }
  }
}
