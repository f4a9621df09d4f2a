/** The Security Association payload object, with the loops that write and read it. */
module SecurityAssociationPayload {
  import opened Bytes
  import opened SecurityAssociations
  import opened SecurityAssociationProofs

  class SecurityAssociation {
    var proposals: seq<Proposal>

    constructor (proposals: seq<Proposal>)
      ensures this.proposals == proposals
    {
      this.proposals := proposals;
    }

    method Marshal() returns (r: Outcome<bytes>)
      ensures r == ProposalsBytes(proposals)
    {
      var data: bytes := [];
      AfterNil(ProposalsBytes(proposals));
      assert proposals[0..] == proposals;
      for i := 0 to |proposals|
        invariant ProposalsBytes(proposals) == After(data, ProposalsBytes(proposals[i..]))
      {
        assert proposals[i..][0] == proposals[i] && proposals[i..][1..] == proposals[i + 1..];
        var proposalData :- MarshalProposal(proposals[i], i + 1 < |proposals|);
        AfterAfter(data, proposalData, ProposalsBytes(proposals[i + 1..]));
        data := data + proposalData;
      }
      assert data + [] == data;
      return Ok(data);
    }

    static method MarshalProposal(p: Proposal, more: bool) returns (r: Outcome<bytes>)
      ensures r == ProposalBytes(p, more)
    {
      var data: bytes := [if more then 2 else 0, 0, 0, 0, p.number, p.protocolId, 0, 0];
      if |p.spi| > 0xFF {
        return Error;
      }
      data := data[6 := |p.spi|];
      if |p.spi| > 0 {
        data := data + p.spi;
      }
      var transformList := p.All();
      if |transformList| == 0 || |transformList| > 0xFF {
        return Error;
      }
      data := data[7 := |transformList|];
      assert data == ProposalHeader(p, more, 0, |p.spi|, |transformList|) + p.spi;
      var transformData :- MarshalTransforms(transformList);
      data := data + transformData;
      var n := |data|;
      if n > 0xFFFF {
        return Error;
      }
      PatchProposal(p, more, |transformList|, transformData, n);
      data := Patch16(data, 2, n);
      return Ok(data);
    }

    static lemma PatchProposal(p: Proposal, more: bool, count: byte, transforms: bytes, n: uint16)
      requires |p.spi| <= 0xFF
      ensures Patch16(ProposalHeader(p, more, 0, |p.spi|, count) + p.spi + transforms, 2, n)
           == ProposalHeader(p, more, n, |p.spi|, count) + p.spi + transforms
    {
    }

    static method MarshalTransforms(ts: seq<Transform>) returns (r: Outcome<bytes>)
      ensures r == TransformsBytes(ts)
    {
      var data: bytes := [];
      AfterNil(TransformsBytes(ts));
      assert ts[0..] == ts;
      for i := 0 to |ts|
        invariant TransformsBytes(ts) == After(data, TransformsBytes(ts[i..]))
      {
        assert ts[i..][0] == ts[i] && ts[i..][1..] == ts[i + 1..];
        var transformData :- MarshalTransform(ts[i], i + 1 < |ts|);
        AfterAfter(data, transformData, TransformsBytes(ts[i + 1..]));
        data := data + transformData;
      }
      assert data + [] == data;
      return Ok(data);
    }

    static method MarshalTransform(t: Transform, more: bool) returns (r: Outcome<bytes>)
      ensures r == TransformBytes(t, more)
    {
      var data: bytes := [if more then 3 else 0, 0, 0, 0, t.transformType, 0, 0, 0];
      data := Patch16(data, 6, t.transformId);
      if t.attributePresent {
        var tag := FormatAndType(t.attributeFormat, t.attributeType);
        var attributeData: bytes := [Hi(tag), Lo(tag), 0, 0];
        if t.attributeFormat == 0 {
          var n := |t.variableLengthValue|;
          if n == 0 || n > 0xFFFF {
            return Error;
          }
          attributeData := Patch16(attributeData, 2, n) + t.variableLengthValue;
        } else {
          attributeData := Patch16(attributeData, 2, t.attributeValue);
        }
        assert attributeData == AttributeBytes(t).value;
        data := data + attributeData;
      }
      var n := |data|;
      if n > 0xFFFF {
        return Error;
      }
      data := Patch16(data, 2, n);
      assert data == TransformBytes(t, more).value;
      return Ok(data);
    }

    /** Appends the proposals of `b` to the receiver; those before a malformed one stay appended. */
    method Unmarshal(b: bytes) returns (status: Status)
      modifies this
      ensures status == ParseProposals(b).status
      ensures proposals == old(proposals) + ParseProposals(b).items
    {
      var b' := b;
      ghost var done: seq<Proposal> := [];
      ParsedAfterNil(ParseProposals(b));
      while |b'| > 0
        invariant ParseProposals(b) == ParseProposals(b').After(done)
        invariant proposals == old(proposals) + done
        decreases |b'|
      {
        var r := UnmarshalProposal(b');
        if !r.Ok? {
          return StatusOf(r);
        }
        var (proposal, n) := r.value;
        proposals := proposals + [proposal];
        ParsedAfterAfter(done, [proposal], ParseProposals(b'[n..]));
        done := done + [proposal];
        b' := b'[n..];
      }
      return Done;
    }

    static method UnmarshalProposal(b: bytes) returns (r: Outcome<(Proposal, nat)>)
      ensures r == ParseProposal(b)
    {
      if |b| < 8 {
        return Error;
      }
      var n := Get16(b, 2);
      if n < 8 || |b| < n {
        return Error;
      }
      var spi: bytes := [];
      var end := SpiEnd(b[6]);
      if b[6] > 0 {
        if |b| < end {
          return Error;
        }
        if end < 8 {
          return Fault;
        }
        spi := b[8..end];
      }
      if n < end {
        return Fault;
      }
      assert spi == b[8..end];
      var status, proposal := UnmarshalTransforms(b[end..n], Proposal(b[4], b[5], spi, [], [], [], [], []));
      match status {
        case Done => return Ok((proposal, n));
        case Failed => return Error;
        case Faulted => return Fault;
      }
    }

    /** Each transform of a known type joins the bucket of its type; the others are dropped. */
    static method UnmarshalTransforms(d: bytes, empty: Proposal) returns (status: Status, p: Proposal)
      requires empty.All() == []
      ensures status == ParseTransforms(d).status
      ensures p == Bucketed(empty.number, empty.protocolId, empty.spi, ParseTransforms(d).items)
    {
      p := empty;
      var d' := d;
      ghost var done: seq<Transform> := [];
      ParsedAfterNil(ParseTransforms(d));
      while |d'| > 0
        invariant ParseTransforms(d) == ParseTransforms(d').After(done)
        invariant p == Bucketed(empty.number, empty.protocolId, empty.spi, done)
        decreases |d'|
      {
        var t := ParseTransform(d');
        if !t.Ok? {
          assert done + [] == done;
          return StatusOf(t), p;
        }
        var (transform, n) := t.value;
        match transform.transformType {
          case 1 => p := p.(encr := p.encr + [transform]);
          case 2 => p := p.(prf := p.prf + [transform]);
          case 3 => p := p.(integ := p.integ + [transform]);
          case 4 => p := p.(dh := p.dh + [transform]);
          case 5 => p := p.(esn := p.esn + [transform]);
          case _ =>
        }
        forall k: byte {
          OfTypeSnoc(done, transform, k);
        }
        ParsedAfterAfter(done, [transform], ParseTransforms(d'[n..]));
        done := done + [transform];
        d' := d'[n..];
      }
      assert done + [] == done;
      status := Done;
    }
  }
}
