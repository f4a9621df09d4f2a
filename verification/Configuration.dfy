/** The Configuration payload (section 3.15 of RFC 7296): a type and a list of type/length/value attributes. */
module Configurations {
  import opened Bytes

  datatype Attribute = Attribute(kind: uint16, value: bytes)

  function AttributeBytes(a: Attribute): Outcome<bytes> {
    var kind, n := a.kind % 0x8000, |a.value|;
    if n > 0xFFFF then Error else Ok([Hi(kind), Lo(kind), Hi(n), Lo(n)] + a.value)
  }

  function AttributesBytes(attributes: seq<Attribute>): Outcome<bytes> {
    if attributes == [] then Ok([])
    else
      var head :- AttributeBytes(attributes[0]);
      After(head, AttributesBytes(attributes[1..]))
  }

  function ConfigurationBytes(cfgType: byte, attributes: seq<Attribute>): Outcome<bytes> {
    After([cfgType, 0, 0, 0], AttributesBytes(attributes))
  }

  /** Reads one attribute; the bounds test adds 4 to the length with 16-bit wrap-around. */
  function ParseAttribute(d: bytes): (r: Outcome<(Attribute, nat)>)
    ensures r.Ok? ==> 4 <= r.value.1 <= |d|
  {
    if |d| < 4 then Error
    else
      var n := Get16(d, 2);
      if |d| < (4 + n) % 0x1_0000 then Error
      else if |d| < 4 + n then Fault
      else
        var end: nat := 4 + n;
        Ok((Attribute(Get16(d, 0), d[4..end]), end))
  }

  function ParseAttributes(d: bytes): Parsed<Attribute> {
    if d == [] then Parsed(Done, [])
    else
      match ParseAttribute(d)
      case Ok((a, n)) => ParseAttributes(d[n..]).After([a])
      case o => Parsed(StatusOf(o), [])
  }

  predicate WfAttributes(attributes: seq<Attribute>) {
    forall i :: 0 <= i < |attributes| ==> attributes[i].kind < 0x8000
  }

  lemma AttributeRoundTrip(a: Attribute, rest: bytes)
    requires AttributeBytes(a).Ok?
    ensures var b := AttributeBytes(a).value;
            |b| >= 4 && ParseAttribute(b + rest) == Ok((Attribute(a.kind % 0x8000, a.value), |b|))
  {
    var d := AttributeBytes(a).value + rest;
    assert Get16(d, 0) == a.kind % 0x8000 && Get16(d, 2) == |a.value|;
    assert d[4..4 + |a.value|] == a.value;
  }

  lemma {:induction false} AttributesRoundTrip(attributes: seq<Attribute>)
    requires AttributesBytes(attributes).Ok?
    ensures var r := ParseAttributes(AttributesBytes(attributes).value);
            r.status == Done && (r.items == attributes <==> WfAttributes(attributes))
  {
    if attributes != [] {
      var head, rest := AttributeBytes(attributes[0]).value, AttributesBytes(attributes[1..]).value;
      AttributeRoundTrip(attributes[0], rest);
      AttributesRoundTrip(attributes[1..]);
      assert (head + rest)[|head|..] == rest;
      var kept := Attribute(attributes[0].kind % 0x8000, attributes[0].value);
      assert ParseAttributes(head + rest) == ParseAttributes(rest).After([kept]);
      WfStep(attributes, kept, ParseAttributes(rest).items);
    }
  }

  lemma WfStep(attributes: seq<Attribute>, kept: Attribute, items: seq<Attribute>)
    requires attributes != [] && kept == Attribute(attributes[0].kind % 0x8000, attributes[0].value)
    requires items == attributes[1..] <==> WfAttributes(attributes[1..])
    ensures [kept] + items == attributes <==> WfAttributes(attributes)
  {
    assert attributes == [attributes[0]] + attributes[1..];
    assert ([kept] + items)[0] == kept && ([kept] + items)[1..] == items;
  }

  class Configuration {
    var configurationType: byte
    var attributes: seq<Attribute>

    constructor (configurationType: byte, attributes: seq<Attribute>)
      ensures this.configurationType == configurationType && this.attributes == attributes
    {
      this.configurationType, this.attributes := configurationType, attributes;
    }

    method Marshal() returns (r: Outcome<bytes>)
      ensures r == ConfigurationBytes(configurationType, attributes)
    {
      var data: bytes := [configurationType, 0, 0, 0];
      assert attributes[0..] == attributes;
      for i := 0 to |attributes|
        invariant ConfigurationBytes(configurationType, attributes) == After(data, AttributesBytes(attributes[i..]))
      {
        var a := attributes[i];
        assert attributes[i..][0] == a && attributes[i..][1..] == attributes[i + 1..];
        var attributeData: bytes := [0, 0, 0, 0];
        attributeData := Patch16(attributeData, 0, a.kind % 0x8000);
        if |a.value| > 0xFFFF {
          return Error;
        }
        attributeData := Patch16(attributeData, 2, |a.value|);
        attributeData := attributeData + a.value;
        assert attributeData == AttributeBytes(a).value;
        AfterAfter(data, attributeData, AttributesBytes(attributes[i + 1..]));
        data := data + attributeData;
      }
      assert data + [] == data;
      return Ok(data);
    }

    method Unmarshal(b: bytes) returns (status: Status)
      modifies this
      ensures |b| == 0 ==> status == Done && unchanged(this)
      ensures 0 < |b| <= 4 ==> status == Failed && unchanged(this)
      ensures |b| > 4 ==> && configurationType == b[0]
                          && status == ParseAttributes(b[4..]).status
                          && attributes == old(attributes) + ParseAttributes(b[4..]).items
    {
      if |b| == 0 {
        return Done;
      }
      if |b| <= 4 {
        return Failed;
      }
      configurationType := b[0];
      var d := b[4..];
      ghost var done: seq<Attribute> := [];
      ParsedAfterNil(ParseAttributes(d));
      while |d| > 0
        invariant ParseAttributes(b[4..]) == ParseAttributes(d).After(done)
        invariant attributes == old(attributes) + done && configurationType == b[0]
        decreases |d|
      {
        if |d| < 4 {
          return Failed;
        }
        var n: int := Get16(d, 2);
        if |d| < (4 + n) % 0x1_0000 {
          return Failed;
        }
        var kind := Get16(d, 0);
        ghost var from := d;
        d := d[4..];
        if |d| < n {
          return Faulted;
        }
        var a := Attribute(kind, d[..n]);
        assert from[4..4 + n] == d[..n];
        d := d[n..];
        assert ParseAttribute(from) == Ok((a, 4 + n)) && from[4 + n..] == d;
        attributes := attributes + [a];
        ParsedAfterAfter(done, [a], ParseAttributes(d));
        done := done + [a];
      }
      return Done;
    }
  }
}
