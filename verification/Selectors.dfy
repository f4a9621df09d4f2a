/** Traffic selectors (section 3.13 of RFC 7296): a counted list of records of two sizes. */
module Selectors {
  import opened Bytes

  const IPV4_RANGE: byte := 7
  const IPV6_RANGE: byte := 8

  datatype Selector = Selector(
    tsType: byte,
    ipProtocolId: byte,
    startPort: uint16,
    endPort: uint16,
    startAddress: bytes,
    endAddress: bytes)

  /** The address length of a known selector type. */
  function AddressLength(tsType: byte): Option<nat> {
    if tsType == IPV4_RANGE then Some(4) else if tsType == IPV6_RANGE then Some(16) else None
  }

  function SelectorBytes(s: Selector): Outcome<bytes> {
    var length := AddressLength(s.tsType);
    if length.None? || |s.startAddress| != length.value || |s.endAddress| != length.value then Error
    else
      var n := 8 + 2 * length.value;
      Ok([s.tsType, s.ipProtocolId, Hi(n), Lo(n), Hi(s.startPort), Lo(s.startPort), Hi(s.endPort), Lo(s.endPort)]
         + s.startAddress + s.endAddress)
  }

  function SelectorsBytes(ss: seq<Selector>): Outcome<bytes> {
    if ss == [] then Ok([])
    else
      var head :- SelectorBytes(ss[0]);
      After(head, SelectorsBytes(ss[1..]))
  }

  function PayloadBytes(ss: seq<Selector>): Outcome<bytes> {
    if ss == [] || |ss| > 0xFF then Error else After([|ss|, 0, 0, 0], SelectorsBytes(ss))
  }

  /** The selector at the front of `b`; it occupies 8 bytes and its two addresses. */
  function ParseSelector(b: bytes): (r: Outcome<(Selector, nat)>)
    ensures r.Ok? ==> r.value.1 <= |b|
  {
    if |b| < 4 then Error
    else
      var length := AddressLength(b[0]);
      if length.None? then Error
      else
        var k := length.value;
        var n: nat := 8 + 2 * k;
        if Get16(b, 2) != n || |b| < n then Error
        else Ok((Selector(b[0], b[1], Get16(b, 4), Get16(b, 6), b[8..8 + k], b[8 + k..n]), n))
  }

  function ParseSelectors(b: bytes, count: nat): Parsed<Selector> {
    if count == 0 then Parsed(Done, [])
    else
      match ParseSelector(b)
      case Ok((s, n)) => ParseSelectors(b[n..], count - 1).After([s])
      case o => Parsed(StatusOf(o), [])
  }

  function ParsePayload(b: bytes): Parsed<Selector> {
    if b == [] then Parsed(Done, [])
    else if |b| < 4 then Parsed(Failed, [])
    else ParseSelectors(b[4..], b[0])
  }

  // ----- Round trip

  lemma SelectorRoundTrip(s: Selector, rest: bytes)
    requires SelectorBytes(s).Ok?
    ensures var b := SelectorBytes(s).value; ParseSelector(b + rest) == Ok((s, |b|))
  {
    var b := SelectorBytes(s).value;
    var d, k := b + rest, AddressLength(s.tsType).value;
    assert d[8..8 + k] == s.startAddress && d[8 + k..8 + 2 * k] == s.endAddress;
    assert Get16(d, 2) == 8 + 2 * k && Get16(d, 4) == s.startPort && Get16(d, 6) == s.endPort;
  }

  lemma SelectorsStep(head: bytes, rest: bytes, s: Selector, count: nat)
    requires count > 0 && ParseSelector(head + rest) == Ok((s, |head|))
    ensures ParseSelectors(head + rest, count) == ParseSelectors(rest, count - 1).After([s])
  {
    assert (head + rest)[|head|..] == rest;
  }

  /** The decoding loop's step: `done` holds the selectors before `rest`. */
  lemma LoopStep(b: bytes, rest: bytes, count: nat, done: seq<Selector>, s: Selector, n: nat)
    requires count > 0 && ParseSelector(rest) == Ok((s, n)) && ParsePayload(b) == ParseSelectors(rest, count).After(done)
    ensures ParsePayload(b) == ParseSelectors(rest[n..], count - 1).After(done + [s])
  {
    ParsedAfterAfter(done, [s], ParseSelectors(rest[n..], count - 1));
  }

  lemma {:induction false} SelectorsRoundTrip(ss: seq<Selector>)
    requires SelectorsBytes(ss).Ok?
    ensures ParseSelectors(SelectorsBytes(ss).value, |ss|) == Parsed(Done, ss)
  {
    if ss != [] {
      var head, rest := SelectorBytes(ss[0]).value, SelectorsBytes(ss[1..]).value;
      SelectorRoundTrip(ss[0], rest);
      SelectorsStep(head, rest, ss[0], |ss|);
      SelectorsRoundTrip(ss[1..]);
      assert ss == [ss[0]] + ss[1..];
    }
  }

  /** Every selector list that can be written is read back. */
  lemma PayloadRoundTrip(ss: seq<Selector>)
    requires PayloadBytes(ss).Ok?
    ensures ParsePayload(PayloadBytes(ss).value) == Parsed(Done, ss)
  {
    SelectorsRoundTrip(ss);
    assert PayloadBytes(ss).value[4..] == SelectorsBytes(ss).value;
  }

  // ----- The two payload objects

  class TrafficSelectorInitiator {
    var trafficSelectors: seq<Selector>

    constructor (trafficSelectors: seq<Selector>)
      ensures this.trafficSelectors == trafficSelectors
    {
      this.trafficSelectors := trafficSelectors;
    }

    method Marshal() returns (r: Outcome<bytes>)
      ensures r == PayloadBytes(trafficSelectors)
    {
      if |trafficSelectors| == 0 {
        return Error;
      }
      var data: bytes := [0, 0, 0, 0];
      if |trafficSelectors| > 0xFF {
        return Error;
      }
      data := data[0 := |trafficSelectors|];
      assert data == [|trafficSelectors|, 0, 0, 0];
      assert trafficSelectors[0..] == trafficSelectors;
      for i := 0 to |trafficSelectors|
        invariant PayloadBytes(trafficSelectors) == After(data, SelectorsBytes(trafficSelectors[i..]))
      {
        assert trafficSelectors[i..][0] == trafficSelectors[i] && trafficSelectors[i..][1..] == trafficSelectors[i + 1..];
        var selectorData :- MarshalSelector(trafficSelectors[i]);
        AfterAfter(data, selectorData, SelectorsBytes(trafficSelectors[i + 1..]));
        data := data + selectorData;
      }
      assert data + [] == data;
      return Ok(data);
    }

    static method MarshalSelector(s: Selector) returns (r: Outcome<bytes>)
      ensures r == SelectorBytes(s)
    {
      if s.tsType == IPV4_RANGE {
        if |s.startAddress| != 4 || |s.endAddress| != 4 {
          return Error;
        }
      } else if s.tsType == IPV6_RANGE {
        if |s.startAddress| != 16 || |s.endAddress| != 16 {
          return Error;
        }
      } else {
        return Error;
      }
      var selectorData: bytes := [s.tsType, s.ipProtocolId, 0, 0, 0, 0, 0, 0];
      selectorData := Patch16(selectorData, 4, s.startPort);
      selectorData := Patch16(selectorData, 6, s.endPort);
      selectorData := selectorData + s.startAddress + s.endAddress;
      selectorData := Patch16(selectorData, 2, |selectorData|);
      assert selectorData == SelectorBytes(s).value;
      return Ok(selectorData);
    }

    static method UnmarshalSelector(b: bytes) returns (r: Outcome<(Selector, nat)>)
      ensures r == ParseSelector(b)
    {
      if |b| < 4 {
        return Error;
      }
      var size: nat;
      if b[0] == IPV4_RANGE {
        size := 4;
      } else if b[0] == IPV6_RANGE {
        size := 16;
      } else {
        return Error;
      }
      var n: nat := 8 + 2 * size;
      if Get16(b, 2) != n || |b| < n {
        return Error;
      }
      return Ok((Selector(b[0], b[1], Get16(b, 4), Get16(b, 6), b[8..8 + size], b[8 + size..n]), n));
    }

    /** Appends to the receiver, counting the number of selectors down. */
    method Unmarshal(b: bytes) returns (status: Status)
      modifies this
      ensures status == ParsePayload(b).status
      ensures trafficSelectors == old(trafficSelectors) + ParsePayload(b).items
    {
      if |b| == 0 {
        return Done;
      }
      if |b| < 4 {
        return Failed;
      }
      var number, b' := b[0], b[4..];
      ghost var done: seq<Selector> := [];
      ParsedAfterNil(ParsePayload(b));
      while number > 0
        invariant 0 <= number < 0x100
        invariant ParsePayload(b) == ParseSelectors(b', number).After(done)
        invariant trafficSelectors == old(trafficSelectors) + done
      {
        var r := UnmarshalSelector(b');
        if !r.Ok? {
          return StatusOf(r);
        }
        var (s, n) := r.value;
        trafficSelectors := trafficSelectors + [s];
        LoopStep(b, b', number, done, s, n);
        done := done + [s];
        b' := b'[n..];
        number := number - 1;
      }
      return Done;
    }
  }

  /** The responder's payload is written and read by its own code, to the same format. */
  class TrafficSelectorResponder {
    var trafficSelectors: seq<Selector>

    constructor (trafficSelectors: seq<Selector>)
      ensures this.trafficSelectors == trafficSelectors
    {
      this.trafficSelectors := trafficSelectors;
    }

    method Marshal() returns (r: Outcome<bytes>)
      ensures r == PayloadBytes(trafficSelectors)
    {
      if |trafficSelectors| > 0 {
        if |trafficSelectors| > 0xFF {
          return Error;
        }
        var data: bytes := [|trafficSelectors|, 0, 0, 0];
        assert trafficSelectors[0..] == trafficSelectors;
        for i := 0 to |trafficSelectors|
          invariant PayloadBytes(trafficSelectors) == After(data, SelectorsBytes(trafficSelectors[i..]))
        {
          assert trafficSelectors[i..][0] == trafficSelectors[i] && trafficSelectors[i..][1..] == trafficSelectors[i + 1..];
          var selectorData :- MarshalSelector(trafficSelectors[i]);
          AfterAfter(data, selectorData, SelectorsBytes(trafficSelectors[i + 1..]));
          data := data + selectorData;
        }
        assert data + [] == data;
        return Ok(data);
      } else {
        return Error;
      }
    }

    static method MarshalSelector(s: Selector) returns (r: Outcome<bytes>)
      ensures r == SelectorBytes(s)
    {
      var header: bytes := [s.tsType, s.ipProtocolId, 0, 0, Hi(s.startPort), Lo(s.startPort), Hi(s.endPort), Lo(s.endPort)];
      if s.tsType == IPV4_RANGE {
        if |s.startAddress| != 4 || |s.endAddress| != 4 {
          return Error;
        }
        header := Patch16(header, 2, 16);
        assert header + s.startAddress + s.endAddress == SelectorBytes(s).value;
        return Ok(header + s.startAddress + s.endAddress);
      } else if s.tsType == IPV6_RANGE {
        if |s.startAddress| != 16 || |s.endAddress| != 16 {
          return Error;
        }
        header := Patch16(header, 2, 40);
        assert header + s.startAddress + s.endAddress == SelectorBytes(s).value;
        return Ok(header + s.startAddress + s.endAddress);
      } else {
        return Error;
      }
    }

    method Unmarshal(b: bytes) returns (status: Status)
      modifies this
      ensures status == ParsePayload(b).status
      ensures trafficSelectors == old(trafficSelectors) + ParsePayload(b).items
    {
      if |b| > 0 {
        if |b| < 4 {
          return Failed;
        }
        var number, b' := b[0], b[4..];
        ghost var done: seq<Selector> := [];
        ParsedAfterNil(ParsePayload(b));
        while number > 0
          invariant 0 <= number < 0x100
          invariant ParsePayload(b) == ParseSelectors(b', number).After(done)
          invariant trafficSelectors == old(trafficSelectors) + done
        {
          var r := UnmarshalSelector(b');
          if !r.Ok? {
            return StatusOf(r);
          }
          var (s, n) := r.value;
          trafficSelectors := trafficSelectors + [s];
          LoopStep(b, b', number, done, s, n);
          done := done + [s];
          b' := b'[n..];
          number := number - 1;
        }
      }
      return Done;
    }

    static method UnmarshalSelector(b: bytes) returns (r: Outcome<(Selector, nat)>)
      ensures r == ParseSelector(b)
    {
      if |b| < 4 {
        return Error;
      }
      var n := Get16(b, 2);
      if b[0] == IPV4_RANGE {
        if n != 16 || |b| < 16 {
          return Error;
        }
        return Ok((Selector(b[0], b[1], Get16(b, 4), Get16(b, 6), b[8..12], b[12..16]), 16));
      } else if b[0] == IPV6_RANGE {
        if n != 40 || |b| < 40 {
          return Error;
        }
        return Ok((Selector(b[0], b[1], Get16(b, 4), Get16(b, 6), b[8..24], b[24..40]), 40));
      }
      return Error;
    }
  }
}
