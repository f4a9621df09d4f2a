/** Messages and payload containers as mutable objects, with the loops that encode and decode a payload chain. */
module IkeMessage {
  import opened Bytes
  import opened Payloads
  import Chain
  import opened Message
  import SecurityAssociations
  import SecurityAssociationPayload
  import Notifications
  import Deletes
  import Selectors
  import Configurations
  import EapObject

  /** The SK payload; its data is a buffer that it hands out, so whoever holds the buffer sees a change to it. */
  class Encrypted {
    var nextPayload: byte
    var encryptedData: array<byte>

    constructor (nextPayload: byte, data: bytes)
      ensures this.nextPayload == nextPayload && encryptedData[..] == data && fresh(encryptedData)
    {
      this.nextPayload := nextPayload;
      encryptedData := new byte[|data|](i requires 0 <= i < |data| => data[i]);
    }

    /** The live buffer. */
    method Marshal() returns (r: Outcome<array<byte>>)
      ensures r == if encryptedData.Length == 0 then Error else Ok(encryptedData)
    {
      if encryptedData.Length == 0 {
        return Error;
      }
      return Ok(encryptedData);
    }

    method Unmarshal(b: bytes)
      modifies this
      ensures fresh(encryptedData) && encryptedData[..] == old(encryptedData[..]) + b && nextPayload == old(nextPayload)
    {
      var data := encryptedData[..] + b;
      encryptedData := new byte[|data|](i requires 0 <= i < |data| => data[i]);
    }
  }

  /** A payload in a container: a value, or a reference to an SK payload. */
  datatype PayloadObj = Val(p: Payload) | Sk(enc: Encrypted)

  ghost function Encs(os: seq<PayloadObj>): set<Encrypted> {
    set o | o in os && o.Sk? :: o.enc
  }

  ghost function View(o: PayloadObj): Payload
    reads if o.Sk? then {o.enc, o.enc.encryptedData} else {}
  {
    match o
    case Val(p) => p
    case Sk(enc) => SK(enc.nextPayload, enc.encryptedData[..])
  }

  /** The buffers of the SK payloads. */
  ghost function Buffers(os: seq<PayloadObj>): set<array<byte>>
    reads Encs(os)
  {
    set o | o in os && o.Sk? :: o.enc.encryptedData
  }

  ghost function Views(os: seq<PayloadObj>): (ps: seq<Payload>)
    reads Encs(os), Buffers(os)
    ensures |ps| == |os|
  {
    if os == [] then []
    else
      assert Encs(os[1..]) <= Encs(os) && Buffers(os[1..]) <= Buffers(os);
      [View(os[0])] + Views(os[1..])
  }

  lemma {:induction false} ViewsAt(os: seq<PayloadObj>, i: nat)
    requires i < |os|
    ensures Views(os)[i] == View(os[i])
  {
    if i > 0 {
      ViewsAt(os[1..], i - 1);
    }
  }

  /** Payloads whose objects did not change look the same. */
  twostate lemma {:induction false} ViewsFrame(os: seq<PayloadObj>)
    requires forall i :: 0 <= i < |os| && os[i].Sk? ==> unchanged(os[i].enc) && unchanged(os[i].enc.encryptedData)
    ensures Views(os) == old(Views(os))
  {
    if os != [] {
      ViewsFrame(os[1..]);
    }
  }

  lemma {:induction false} ViewsConcat(os: seq<PayloadObj>, qs: seq<PayloadObj>)
    ensures Views(os + qs) == Views(os) + Views(qs)
  {
    if os == [] {
      assert os + qs == qs;
    } else {
      ViewsConcat(os[1..], qs);
      assert (os + qs)[0] == os[0] && (os + qs)[1..] == os[1..] + qs;
      ConcatAssoc([View(os[0])], Views(os[1..]), Views(qs));
    }
  }

  function TypeOfObj(o: PayloadObj): byte {
    match o
    case Val(p) => TypeOf(p)
    case Sk(_) => TYPE_SK
  }

  /** Writes the body of a payload through the object of its kind. */
  method MarshalPayload(o: PayloadObj, ghost view: Payload) returns (r: Outcome<bytes>)
    requires View(o) == view
    ensures r == Payloads.Marshal(view)
  {
    match o {
      case Sk(enc) =>
        var buffer :- enc.Marshal();
        return Ok(buffer[..]);
      case Val(SA(proposals)) =>
        var sa := new SecurityAssociationPayload.SecurityAssociation(proposals);
        r := sa.Marshal();
      case Val(N(notice)) =>
        var n := new Notifications.Notification(notice);
        r := n.Marshal();
      case Val(D(deletion)) =>
        var d := new Deletes.Delete(deletion);
        r := d.Marshal();
      case Val(TSi(selectors)) =>
        var ts := new Selectors.TrafficSelectorInitiator(selectors);
        r := ts.Marshal();
      case Val(TSr(selectors)) =>
        var ts := new Selectors.TrafficSelectorResponder(selectors);
        r := ts.Marshal();
      case Val(CP(cfgType, attributes)) =>
        var cp := new Configurations.Configuration(cfgType, attributes);
        r := cp.Marshal();
      case Val(p) =>
        r := Payloads.Marshal(p);
    }
  }

  /** Reads a body, with the bytes `behind` behind it in its array, into a new object of its kind. */
  method UnmarshalPayload(t: byte, next: byte, b: bytes, behind: bytes) returns (r: Outcome<PayloadObj>)
    requires KnownType(t)
    ensures StatusOf(r) == StatusOf(Payloads.Unmarshal(t, next, b, behind))
    ensures r.Ok? ==> Payloads.Unmarshal(t, next, b, behind) == Ok(View(r.value))
    ensures r.Ok? && r.value.Sk? ==> fresh(r.value.enc) && fresh(r.value.enc.encryptedData)
  {
    var status;
    if t == TYPE_SK {
      var enc := new Encrypted(next, []);
      enc.Unmarshal(b);
      assert enc.encryptedData[..] == b;
      return Ok(Sk(enc));
    }
    var payload;
    if t == TYPE_SA {
      var sa := new SecurityAssociationPayload.SecurityAssociation([]);
      status := sa.Unmarshal(b);
      payload := SA(sa.proposals);
      assert sa.proposals == SecurityAssociations.ParseProposals(b).items;
    } else if t == TYPE_N {
      var n := new Notifications.Notification(Notifications.Notice(0, 0, [], []));
      status := n.Unmarshal(b);
      payload := N(n.Value());
      assert status == Done ==> n.Value() == Notifications.ParseNotice(b).value;
    } else if t == TYPE_D {
      var d := new Deletes.Delete(Deletes.Deletion(0, 0, 0, []));
      status := d.Unmarshal(b, behind);
      payload := D(d.Value());
      assert status == Done ==> d.Value() == Deletes.ParseDeletion(b, behind).value;
    } else if t == TYPE_TSI {
      var ts := new Selectors.TrafficSelectorInitiator([]);
      status := ts.Unmarshal(b);
      payload := TSi(ts.trafficSelectors);
      assert ts.trafficSelectors == Selectors.ParsePayload(b).items;
    } else if t == TYPE_TSR {
      var ts := new Selectors.TrafficSelectorResponder([]);
      status := ts.Unmarshal(b);
      payload := TSr(ts.trafficSelectors);
      assert ts.trafficSelectors == Selectors.ParsePayload(b).items;
    } else if t == TYPE_CP {
      var cp := new Configurations.Configuration(0, []);
      status := cp.Unmarshal(b);
      payload := CP(cp.configurationType, cp.attributes);
      assert |b| > 4 ==> cp.attributes == Configurations.ParseAttributes(b[4..]).items;
    } else if t == TYPE_EAP {
      var e := new EapObject.EapPacket();
      status := e.Unmarshal(b);
      payload := EAP(e.View());
    } else {
      var o := Payloads.Unmarshal(t, next, b, behind);
      status := StatusOf(o);
      payload := if o.Ok? then o.value else Bare(Nonce, []);
    }
    match status {
      case Done => return Ok(Val(payload));
      case Failed => return Error;
      case Faulted => return Fault;
    }
  }

  class IkePayloadContainer {
    var payloads: seq<PayloadObj>

    constructor ()
      ensures payloads == []
    {
      payloads := [];
    }

    method Encode() returns (r: Outcome<bytes>)
      ensures r == Chain.Encode(Views(payloads))
    {
      var data: bytes := [];
      ghost var views := Views(payloads);
      AfterNil(Chain.Encode(views));
      assert views[0..] == views;
      for i := 0 to |payloads|
        invariant Views(payloads) == views
        invariant Chain.Encode(views) == After(data, Chain.Encode(views[i..]))
      {
        label one:
        var payloadData := EncodeAt(i, views);
        ViewsFrame@one(payloads);
        Chain.EncodeStep(views, i, data, payloadData);
        if !payloadData.Ok? {
          return payloadData;
        }
        data := data + payloadData.value;
      }
      assert data + [] == data;
      return Ok(data);
    }

    method EncodeAt(i: nat, ghost views: seq<Payload>) returns (r: Outcome<bytes>)
      requires i < |payloads| && views == Views(payloads)
      ensures r == Chain.One(Chain.NextByte(views[i..]), views[i])
    {
      ViewsAt(payloads, i);
      var next := NextAt(i, views);
      var body :- MarshalPayload(payloads[i], views[i]);
      r := Frame(next, body);
    }

    /** The type of the next payload, or for the last one an SK payload's own next-payload byte. */
    method NextAt(i: nat, ghost views: seq<Payload>) returns (next: byte)
      requires i < |payloads| && views == Views(payloads)
      ensures next == Chain.NextByte(views[i..])
    {
      ViewsAt(payloads, i);
      if i + 1 < |payloads| {
        ViewsAt(payloads, i + 1);
        return TypeOfObj(payloads[i + 1]);
      }
      match payloads[i] {
        case Sk(enc) => return enc.nextPayload;
        case Val(p) => return if p.SK? then p.next else NO_NEXT;
      }
    }

    static method Frame(next: byte, body: bytes) returns (r: Outcome<bytes>)
      ensures r == Chain.Framed(next, body)
    {
      var payloadData: bytes := [next, 0, 0, 0] + body;
      var n := |payloadData|;
      if n > 0xFFFF {
        return Error;
      }
      payloadData := Patch16(payloadData, 2, n);
      assert payloadData == [next, 0, Hi(n), Lo(n)] + body;
      return Ok(payloadData);
    }

    /** Appends the payloads of a chain; those before a malformed one stay appended. */
    method Decode(next: byte, b: bytes, spare: bytes) returns (status: Status)
      modifies this
      ensures status == Chain.Decode(next, b, spare).status
      ensures old(payloads) <= payloads
      ensures Views(payloads[|old(payloads)|..]) == Chain.Decode(next, b, spare).items
      ensures forall i :: |old(payloads)| <= i < |payloads| && payloads[i].Sk?
                ==> fresh(payloads[i].enc) && fresh(payloads[i].enc.encryptedData)
    {
      var added;
      status, added := DecodeLoop(next, b, spare);
      label append:
      payloads := payloads + added;
      ViewsFrame@append(added);
      assert payloads[|old(payloads)|..] == added;
    }

    static method DecodeLoop(next: byte, b: bytes, spare: bytes) returns (status: Status, added: seq<PayloadObj>)
      ensures status == Chain.Decode(next, b, spare).status
      ensures Views(added) == Chain.Decode(next, b, spare).items
      ensures forall i :: 0 <= i < |added| && added[i].Sk? ==> fresh(added[i].enc) && fresh(added[i].enc.encryptedData)
    {
      var next', b' := next, b;
      added := [];
      ghost var seen: seq<Payload> := [];
      ParsedAfterNil(Chain.Decode(next, b, spare));
      while |b'| > 0
        invariant Views(added) == seen
        invariant Chain.Decode(next, b, spare) == Chain.Decode(next', b', spare).After(seen)
        invariant forall i :: 0 <= i < |added| && added[i].Sk? ==> fresh(added[i].enc) && fresh(added[i].enc.encryptedData)
        decreases |b'|
      {
        if Chain.WellFramed(b') && KnownType(next') {
          Chain.DecodeStep(next, b, spare, next', b', seen);
        } else {
          Chain.DecodeStop(next, b, spare, next', b', seen);
        }
        if |b'| < 4 {
          return Failed, added;
        }
        var n := Get16(b', 2);
        if n < 4 || |b'| < n {
          return Failed, added;
        }
        if !KnownType(next') {
          if b'[1] < 0x80 {
            next', b' := b'[0], b'[n..];
            continue;
          } else {
            return Failed, added;
          }
        }
        label one:
        var o := UnmarshalPayload(next', b'[0], b'[4..n], b'[n..] + spare);
        ViewsFrame@one(added);
        if !o.Ok? {
          return StatusOf(o), added;
        }
        ViewsConcat(added, [o.value]);
        added := added + [o.value];
        seen := seen + [View(o.value)];
        next', b' := b'[0], b'[n..];
      }
      Chain.DecodeStop(next, b, spare, next', b', seen);
      return Done, added;
    }
  }

  class IkeMsg {
    var header: Header
    const container: IkePayloadContainer

    constructor (header: Header)
      ensures this.header == header && fresh(container) && container.payloads == []
    {
      this.header := header;
      container := new IkePayloadContainer();
    }

    /** Sets the header's next payload and payload bytes, then writes the message. */
    method Encode() returns (r: Outcome<bytes>)
      modifies this
      ensures r == old(Message.Encode(header, Views(container.payloads)))
      ensures Core(header) == old(Core(header))
      ensures r.Ok? ==> header == old(var ps := Views(container.payloads); Linked(header, ps, Chain.Encode(ps).value))
    {
      ghost var views := Views(container.payloads);
      LinkFirst(views);
      label linked:
      var payloadBytes := container.Encode();
      ViewsFrame@linked(container.payloads);
      header := header.(payloadBytes := if payloadBytes.Ok? then payloadBytes.value else []);
      if !payloadBytes.Ok? {
        return payloadBytes;
      }
      r := HeaderBytes(header);
    }

    method LinkFirst(ghost views: seq<Payload>)
      requires views == Views(container.payloads)
      modifies this
      ensures header == old(header).(nextPayload := Chain.FirstType(views)) && views == Views(container.payloads)
    {
      if |container.payloads| > 0 {
        ViewsAt(container.payloads, 0);
        header := header.(nextPayload := TypeOfObj(container.payloads[0]));
      } else {
        header := header.(nextPayload := NO_NEXT);
      }
      ViewsFrame(container.payloads);
    }

    /** Decodes behind the header already in place, appending to the container. */
    method DecodePayload(b: bytes, spare: bytes) returns (status: Status)
      modifies container
      ensures status == Message.DecodePayload(header.nextPayload, b, spare).status
      ensures old(container.payloads) <= container.payloads
      ensures Views(container.payloads[|old(container.payloads)|..]) ==
              Message.DecodePayload(header.nextPayload, b, spare).items
      ensures forall i :: |old(container.payloads)| <= i < |container.payloads| && container.payloads[i].Sk?
                ==> fresh(container.payloads[i].enc) && fresh(container.payloads[i].enc.encryptedData)
    {
      if header.nextPayload != NO_NEXT && |b| == 0 {
        return Failed;
      }
      status := container.Decode(header.nextPayload, b, spare);
    }

    /** Parses the header, then appends the payloads behind it to the container. */
    method Decode(b: bytes, spare: bytes) returns (status: Status)
      modifies this, container
      ensures status == StatusOf(Message.Decode(b, spare))
      ensures old(container.payloads) <= container.payloads
      ensures status == Done ==>
                Message.Decode(b, spare) == Ok((header, Views(container.payloads[|old(container.payloads)|..])))
      ensures ParseHeader(b).Ok? ==> header == ParseHeader(b).value
      ensures forall i :: |old(container.payloads)| <= i < |container.payloads| && container.payloads[i].Sk?
                ==> fresh(container.payloads[i].enc) && fresh(container.payloads[i].enc.encryptedData)
    {
      var h := ParseHeader(b);
      if !h.Ok? {
        return StatusOf(h);
      }
      header := h.value;
      status := DecodePayload(header.payloadBytes, spare);
    }
  }
}
