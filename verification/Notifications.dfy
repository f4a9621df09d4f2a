/** The Notify payload (section 3.10 of RFC 7296). */
module Notifications {
  import opened Bytes

  datatype Notice = Notice(protocolId: byte, messageType: uint16, spi: bytes, data: bytes)

  function NoticeBytes(n: Notice): Outcome<bytes> {
    if |n.spi| > 0xFF then Error
    else Ok([n.protocolId, |n.spi|, Hi(n.messageType), Lo(n.messageType)] + n.spi + n.data)
  }

  /** The end of the SPI is computed with 8-bit wrap-around. */
  function ParseNotice(b: bytes): Outcome<Notice> {
    if b == [] then Ok(Notice(0, 0, [], []))
    else if |b| < 4 then Error
    else
      var end := (4 + b[1] as int) % 0x100;
      if |b| < end then Error
      else if end < 4 then Fault
      else Ok(Notice(b[0], Get16(b, 2), b[4..end], b[end..]))
  }

  /** A notice that can be written is read back exactly when its SPI has at most 251 bytes. */
  lemma NoticeRoundTrip(n: Notice)
    requires NoticeBytes(n).Ok?
    ensures ParseNotice(NoticeBytes(n).value) == Ok(n) <==> |n.spi| <= 251
  {
    var b, end := NoticeBytes(n).value, 4 + |n.spi|;
    assert b[4..end] == n.spi && b[end..] == n.data;
    assert Get16(b, 2) == n.messageType;
  }

  class Notification {
    var protocolId: byte
    var notifyMessageType: uint16
    var spi: bytes
    var notificationData: bytes

    function Value(): Notice
      reads this
    {
      Notice(protocolId, notifyMessageType, spi, notificationData)
    }

    constructor (n: Notice)
      ensures Value() == n
    {
      protocolId, notifyMessageType, spi, notificationData := n.protocolId, n.messageType, n.spi, n.data;
    }

    method Marshal() returns (r: Outcome<bytes>)
      ensures r == NoticeBytes(Value())
    {
      var data: bytes := [protocolId, 0, 0, 0];
      if |spi| > 0xFF {
        return Error;
      }
      data := data[1 := |spi|];
      data := Patch16(data, 2, notifyMessageType);
      assert data == [protocolId, |spi|, Hi(notifyMessageType), Lo(notifyMessageType)];
      return Ok(data + spi + notificationData);
    }

    /** The SPI and the data are appended to what the receiver already held. */
    method Unmarshal(b: bytes) returns (status: Status)
      modifies this
      ensures status == StatusOf(ParseNotice(b))
      ensures |b| == 0 || status == Failed ==> unchanged(this)
      ensures |b| > 0 && status == Done ==>
                var n := ParseNotice(b).value;
                Value() == n.(spi := old(spi) + n.spi, data := old(notificationData) + n.data)
    {
      if |b| == 0 {
        return Done;
      }
      if |b| < 4 {
        return Failed;
      }
      var end := (4 + b[1] as int) % 0x100;
      if |b| < end {
        return Failed;
      }
      protocolId, notifyMessageType := b[0], Get16(b, 2);
      if end < 4 {
        return Faulted;
      }
      spi := spi + b[4..end];
      notificationData := notificationData + b[end..];
      return Done;
    }
  }
}
