/** The mutable EAP-AKA' object; every method is described by what it does to the store's value. */
module AkaPrimeObject {
  import opened Bytes
  import opened AkaPrime
  import opened AkaPrimeProofs

  /** Library sorting, on distinct keys. */
  function SortKeys(ks: seq<byte>): (r: seq<byte>)
    requires Distinct(ks)
    ensures Increasing(r) && forall k :: k in r <==> k in ks
  {
    if ks == [] then []
    else
      assert forall i :: 0 <= i < |ks[1..]| ==> ks[1..][i] == ks[i + 1] != ks[0];
      InsertKey(ks[0], SortKeys(ks[1..]))
  }

  function InsertKey(k: byte, ks: seq<byte>): (r: seq<byte>)
    requires Increasing(ks) && k !in ks
    ensures Increasing(r) && forall x :: x in r <==> x == k || x in ks
  {
    if ks == [] then [k]
    else if k < ks[0] then
      HeadIsLeast(ks);
      FrontKey(k, ks);
      [k] + ks
    else
      HeadIsLeast(ks);
      var rest := InsertKey(k, ks[1..]);
      FrontKey(ks[0], rest);
      [ks[0]] + rest
  }

  lemma HeadIsLeast(ks: seq<byte>)
    requires Increasing(ks) && ks != []
    ensures Increasing(ks[1..])
    ensures forall x :: x in ks <==> x == ks[0] || x in ks[1..]
    ensures forall x :: x in ks[1..] ==> ks[0] < x
  {
    assert ks == [ks[0]] + ks[1..];
    assert forall j :: 0 <= j < |ks[1..]| ==> ks[1..][j] == ks[j + 1];
  }

  lemma FrontKey(k: byte, ks: seq<byte>)
    requires Increasing(ks) && forall x :: x in ks ==> k < x
    ensures Increasing([k] + ks) && forall x :: x in [k] + ks <==> x == k || x in ks
  {
    assert forall i :: 0 <= i < |ks| ==> ks[i] in ks;
  }

  lemma {:induction false} IncreasingUnique(xs: seq<byte>, ys: seq<byte>)
    requires Increasing(xs) && Increasing(ys) && forall k :: k in xs <==> k in ys
    ensures xs == ys
  {
    assert |xs| > 0 ==> xs[0] in xs;
    assert |ys| > 0 ==> ys[0] in ys;
    if xs != [] && ys != [] {
      assert xs[0] in ys && ys[0] in xs;
      forall k
        ensures k in xs[1..] <==> k in ys[1..]
      {
        assert k in xs[1..] <==> k in xs && k != xs[0];
        assert k in ys[1..] <==> k in ys && k != ys[0];
      }
      IncreasingUnique(xs[1..], ys[1..]);
      assert xs == [xs[0]] + xs[1..] && ys == [ys[0]] + ys[1..];
    }
  }

  class EapAkaPrime {
    var subType: byte
    var reserved: uint16
    var attributes: map<byte, Attr>
    var attributeOrder: Option<seq<byte>>

    function Value(): Store
      reads this
    {
      Store(subType, reserved, attributes, attributeOrder)
    }

    constructor (subType: byte)
      ensures Value() == New(subType) && Inv(Value())
    {
      this.subType, reserved, attributes, attributeOrder := subType, 0, map[], None;
    }

    method SetAttr(t: byte, v: bytes) returns (ok: bool)
      modifies this
      ensures Value() == AkaPrime.SetAttr(old(Value()), t, v)
      ensures ok <==> MakeAttr(t, v).Ok?
      ensures old(Inv(Value())) ==> Inv(Value())
    {
      var made := MakeAttr(t, v);
      ghost var was := Value();
      if !made.Ok? {
        return false;
      }
      var attr := made.value;
      if attr.attrType !in attributes && attributeOrder.Some? {
        attributeOrder := Some(attributeOrder.value + [attr.attrType]);
      }
      attributes := attributes[attr.attrType := attr];
      if Inv(was) {
        InsertKeepsInv(was, attr);
      }
      ok := true;
    }

    /** Searches the entries, in no particular order, for one of the wanted type. */
    method GetAttr(t: byte) returns (r: Outcome<Attr>)
      requires Inv(Value())
      ensures r == if t in attributes then Ok(attributes[t]) else Error
    {
      var rest := attributes.Keys;
      while rest != {}
        invariant rest <= attributes.Keys && (t in attributes ==> t in rest)
        decreases |rest|
      {
        var k :| k in rest;
        if attributes[k].attrType == t {
          return Ok(attributes[k]);
        }
        rest := rest - {k};
      }
      return Error;
    }

    /** The recorded order, or else the keys collected from the map and sorted. */
    method GetAttrsKeys() returns (ks: seq<byte>)
      ensures ks == Keys(Value())
    {
      if attributeOrder.Some? {
        return attributeOrder.value;
      }
      ks := [];
      var rest := attributes.Keys;
      while rest != {}
        invariant rest <= attributes.Keys && Distinct(ks)
        invariant forall k :: k in attributes.Keys <==> k in ks || k in rest
        invariant forall k :: k in ks ==> k !in rest
        decreases |rest|
      {
        var k :| k in rest;
        ks := ks + [k];
        rest := rest - {k};
      }
      ks := SortKeys(ks);
      IncreasingUnique(ks, Sorted(attributes.Keys));
    }

    method Marshal() returns (b: bytes)
      requires Inv(Value())
      ensures b == StoreBytes(Value())
    {
      b := [EAP_TYPE_AKA_PRIME, subType] + Put16(reserved);
      var keys := GetAttrsKeys();
      KeysListed(Value());
      b := WriteAttrs(b, attributes, keys);
    }

    static method WriteAttrs(head: bytes, m: map<byte, Attr>, keys: seq<byte>) returns (b: bytes)
      requires forall k :: k in keys ==> k in m
      ensures b == head + AttrsBytes(Listed(m, keys))
    {
      b := head;
      ghost var attrs := Listed(m, keys);
      assert attrs[0..] == attrs;
      for i := 0 to |keys|
        invariant head + AttrsBytes(attrs) == b + AttrsBytes(attrs[i..])
      {
        assert keys[i] in keys;
        ghost var before := b;
        var written := WriteAttr(m[keys[i]]);
        b := b + written;
        AttrsBytesFrom(attrs, i);
        assert before + (written + AttrsBytes(attrs[i + 1..])) == b + AttrsBytes(attrs[i + 1..]);
      }
    }

    static lemma AttrsBytesFrom(attrs: seq<Attr>, i: nat)
      requires i < |attrs|
      ensures AttrsBytes(attrs[i..]) == AttrBytes(attrs[i]) + AttrsBytes(attrs[i + 1..])
    {
      assert attrs[i..][1..] == attrs[i + 1..];
    }

    static method WriteAttr(attr: Attr) returns (b: bytes)
      ensures b == AttrBytes(attr)
    {
      b := [attr.attrType, attr.length];
      if attr.attrType != AT_AUTS {
        b := b + Put16(attr.reserved);
      }
      b := b + attr.value;
    }

    /** Decodes a packet; what was decoded before a malformed attribute stays in the store. */
    method Unmarshal(raw: bytes) returns (status: Status)
      modifies this
      ensures (status, Value()) == AkaPrime.Unmarshal(old(Value()), raw)
      ensures old(Inv(Value())) ==> Inv(Value())
    {
      ghost var was := Value();
      if Inv(was) {
        ApplyKeepsInv(was, Decode(raw));
      }
      if |raw| < 4 || raw[0] != EAP_TYPE_AKA_PRIME {
        return Failed;
      }
      subType := raw[1];
      reserved := Get16(raw, 2);
      attributes := map[];
      attributeOrder := Some([]);
      ghost var base := Value();
      var rest := raw[4..];
      ghost var seen: seq<Attr> := [];
      ParsedAfterNil(ParseAttrs(rest));
      while true
        invariant ParseAttrs(raw[4..]) == ParseAttrs(rest).After(seen)
        invariant Value() == InsertAll(base, seen) && attributeOrder.Some?
        decreases |rest|
      {
        match ParseAttr(rest) {
          case End =>
            assert seen + [] == seen;
            return Done;
          case Bad =>
            assert seen + [] == seen;
            return Failed;
          case Got(attr, tail) =>
            InsertAllSnoc(base, seen, attr);
            ParsedAfterAfter(seen, [attr], ParseAttrs(tail));
            if attr.attrType !in attributes {
              attributeOrder := Some(attributeOrder.value + [attr.attrType]);
            }
            attributes := attributes[attr.attrType := attr];
            seen := seen + [attr];
            rest := tail;
        }
      }
    }

    method InitMac()
      modifies this
      ensures Value() == AkaPrime.InitMac(old(Value()))
      ensures old(Inv(Value())) ==> Inv(Value())
    {
      SentBySetAttr(Value(), Zeros(16));
      var ok := SetAttr(AT_MAC, Zeros(16));
    }
  }
}
