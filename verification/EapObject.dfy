/** The mutable EAP packet, whose AKA' type data is an object that computing the MAC changes. */
module EapObject {
  import opened Bytes
  import opened AkaPrime
  import opened AkaPrimeObject
  import opened Eap

  datatype TypeDataRef = NoData | Plain(data: TypeData) | Aka(obj: EapAkaPrime)

  class EapPacket {
    var code: byte
    var identifier: byte
    var typeData: TypeDataRef

    ghost predicate Valid()
      reads this, if typeData.Aka? then {typeData.obj} else {}
    {
      match typeData
      case NoData => true
      case Plain(data) => !data.AkaPrimeData?
      case Aka(obj) => Inv(obj.Value())
    }

    function View(): Packet
      requires Valid()
      reads this, if typeData.Aka? then {typeData.obj} else {}
    {
      match typeData
      case NoData => Packet(code, identifier, None)
      case Plain(data) => Packet(code, identifier, Some(data))
      case Aka(obj) => AkaPacket(code, identifier, obj.Value())
    }

    constructor ()
      ensures Valid() && View() == Packet(0, 0, None)
    {
      code, identifier, typeData := 0, 0, NoData;
    }

    method Marshal() returns (r: Outcome<bytes>)
      requires Valid()
      ensures r == PacketBytes(View())
    {
      var eapData: bytes := [code, identifier, 0, 0];
      var data: bytes := [];
      match typeData {
        case NoData =>
        case Plain(d) => data :- TypeDataBytes(d);
        case Aka(obj) => data := obj.Marshal();
      }
      eapData := eapData + data;
      var n := |eapData|;
      if n > 0xFFFF {
        return Error;
      }
      eapData := Patch16(eapData, 2, n);
      assert eapData == [code, identifier, Hi(n), Lo(n)] + data;
      return Ok(eapData);
    }

    /** Decodes into the receiver; an empty input changes nothing, and a bare header leaves the type data alone. */
    method Unmarshal(b: bytes) returns (status: Status)
      requires Valid()
      modifies this
      ensures Valid() && (typeData.Aka? ==> typeData == old(typeData) || fresh(typeData.obj))
      ensures status == StatusOf(ParsePacket(b))
      ensures status == Done ==>
                View() == if |b| == 0 then old(View())
                          else if |b| == 4 then Packet(b[0], b[1], old(View().typeData))
                          else ParsePacket(b).value
      ensures status != Done ==> typeData == old(typeData)
      ensures if |b| >= 4 && |b| == Get16(b, 2) then code == b[0] && identifier == b[1]
              else code == old(code) && identifier == old(identifier)
    {
      if |b| == 0 {
        return Done;
      }
      if |b| < 4 {
        return Failed;
      }
      var n := Get16(b, 2);
      if n < 4 || |b| != n {
        return Failed;
      }
      code := b[0];
      identifier := b[1];
      if (code == REQUEST || code == RESPONSE) && n < 5 {
        return Failed;
      }
      if n == 4 {
        return Done;
      }
      if b[4] == EAP_TYPE_AKA_PRIME {
        var obj := new EapAkaPrime(0);
        status := obj.Unmarshal(b[4..]);
        if status == Done {
          typeData := Aka(obj);
        }
        AkaStatus(b[4..]);
      } else {
        var data := ParseTypeData(b[4..]);
        status := StatusOf(data);
        if data.Ok? {
          typeData := Plain(data.value);
        }
      }
    }

    static lemma AkaStatus(raw: bytes)
      requires |raw| >= 1 && raw[0] == EAP_TYPE_AKA_PRIME
      ensures StatusOf(ParseTypeData(raw)) == AkaPrime.Unmarshal(New(0), raw).0
    {
      NeverFaults(if |raw| >= 4 then raw[4..] else []);
    }

    static lemma {:induction false} NeverFaults(b: bytes)
      ensures ParseAttrs(b).status != Faulted
      decreases |b|
    {
      if ParseAttr(b).Got? {
        NeverFaults(ParseAttr(b).rest);
      }
    }

    /** Resets the MAC attribute in the AKA' object, then hashes the whole packet. */
    method CalcEapAkaPrimeAtMac(h: Hmac, key: bytes) returns (r: Outcome<bytes>)
      requires Valid() && Gives32(h)
      modifies if typeData.Aka? then {typeData.obj} else {}
      ensures Valid() && r == CalcAtMac(h, key, old(View()))
      ensures View() == if IsAkaPrime(old(View())) then Zeroed(old(View())) else old(View())
    {
      match typeData {
        case NoData => return Fault;
        case Plain(_) => return Error;
        case Aka(obj) =>
          obj.InitMac();
          var eapBytes :- Marshal();
          var sum := h(key, eapBytes);
          return Ok(sum[..16]);
      }
    }
  }
}
