/** When exactly the Security Association codec gives back what it was given. */
module SecurityAssociationProofs {
  import opened Bytes
  import opened SecurityAssociations

  /** The transforms that survive a round trip: no attribute, or one in type/value form with type below 128. */
  predicate WfTransform(t: Transform) {
    && t.variableLengthValue == []
    && if t.attributePresent then t.attributeFormat == 1 && t.attributeType < 0x80
       else t.attributeFormat == 0 && t.attributeType == 0 && t.attributeValue == 0
  }

  predicate AllOfType(ts: seq<Transform>, k: byte) {
    forall i :: 0 <= i < |ts| ==> ts[i].transformType == k
  }

  /** Every transform sits in the bucket of its type. */
  predicate InBuckets(p: Proposal) {
    && AllOfType(p.encr, ENCR)
    && AllOfType(p.prf, PRF)
    && AllOfType(p.integ, INTEG)
    && AllOfType(p.dh, DH)
    && AllOfType(p.esn, ESN)
  }

  predicate WfTransforms(ts: seq<Transform>) {
    forall i :: 0 <= i < |ts| ==> WfTransform(ts[i])
  }

  predicate WfProposal(p: Proposal) {
    |p.spi| <= 247 && InBuckets(p) && WfTransforms(p.All())
  }

  predicate WfProposals(ps: seq<Proposal>) {
    forall i :: 0 <= i < |ps| ==> WfProposal(ps[i])
  }

  // ----- Transforms

  /**
   Whatever follows, a written transform is read as one of the same length and type, and as itself exactly when it is
   well formed.
   */
  lemma TransformRoundTrip(t: Transform, more: bool, rest: bytes)
    requires TransformBytes(t, more).Ok?
    ensures var b, r := TransformBytes(t, more).value, ParseTransform(TransformBytes(t, more).value + rest);
            && |b| >= 8
            && (r.Ok? ==> r.value.1 == |b| && r.value.0.transformType == t.transformType)
            && (r == Ok((t, |b|)) <==> WfTransform(t))
  {
    TransformFields(t, more, rest);
    if t.attributePresent {
      var d := TransformBytes(t, more).value + rest;
      if t.attributeFormat != 0 {
        ValueRead(t, d);
      } else {
        LengthValueRead(t, d);
      }
    }
  }

  predicate SameHead(t: Transform, d: bytes, n: uint16)
    requires |d| >= 12
  {
    var tag := FormatAndType(t.attributeFormat, t.attributeType);
    && Get16(d, 2) == n && d[4] == t.transformType && Get16(d, 6) == t.transformId && d[8] == Hi(tag) && d[9] == Lo(tag)
  }

  /** An attribute in type/value form is read as it was exactly when its format is 1 and its type is below 128. */
  lemma ValueRead(t: Transform, d: bytes)
    requires t.attributePresent && t.attributeFormat != 0
    requires |d| >= 12 && SameHead(t, d, 12) && Get16(d, 10) == t.attributeValue
    ensures var r := ParseTransform(d);
            && (r.Ok? ==> r.value.1 == 12 && r.value.0.transformType == t.transformType)
            && (r == Ok((t, 12)) <==> WfTransform(t))
  {
    TagBits(t.attributeFormat, t.attributeType);
  }

  /** An attribute in type/length/value form is never read as it was. */
  lemma LengthValueRead(t: Transform, d: bytes)
    requires t.attributePresent && t.attributeFormat == 0
    requires var n := 12 + |t.variableLengthValue|; 12 < n <= 0xFFFF && n <= |d| && SameHead(t, d, n)
    ensures var r := ParseTransform(d);
            && (r.Ok? ==> r.value.1 == 12 + |t.variableLengthValue| && r.value.0.transformType == t.transformType)
            && (r.Ok? ==> r.value.0 != t)
  {
  }

  /** Where the fields of a written transform stand. */
  lemma TransformFields(t: Transform, more: bool, rest: bytes)
    requires TransformBytes(t, more).Ok?
    ensures var attribute, b := AttributeBytes(t).value, TransformBytes(t, more).value;
            var d := b + rest;
            && |b| == 8 + |attribute| && Get16(d, 2) == |b| && d[4] == t.transformType && Get16(d, 6) == t.transformId
            && (t.attributePresent ==> && |attribute| >= 4 && d[8] == attribute[0] && d[9] == attribute[1]
                                       && Get16(d, 10) == Get16(attribute, 2))
  {
    var attribute, b := AttributeBytes(t).value, TransformBytes(t, more).value;
    var d := b + rest;
    assert forall i :: 0 <= i < |attribute| ==> d[8 + i] == attribute[i];
  }

  /** The two bytes of an attribute's format and type. */
  lemma TagBits(format: byte, kind: uint16)
    ensures var tag := FormatAndType(format, kind);
            && (Hi(tag) >= 0x80 <==> format % 2 == 1 || kind >= 0x8000)
            && Lo(tag) % 0x80 == kind % 0x80
  {
    var tag := FormatAndType(format, kind);
    assert tag % 0x80 == kind % 0x80;
    assert tag % 0x100 % 0x80 == tag % 0x80;
  }

  lemma {:induction false} TransformsRoundTrip(ts: seq<Transform>)
    requires TransformsBytes(ts).Ok?
    ensures var r := ParseTransforms(TransformsBytes(ts).value);
            && (r.status == Done ==> SameTypes(r.items, ts))
            && (r == Parsed(Done, ts) <==> WfTransforms(ts))
  {
    if ts != [] {
      var head, rest := TransformBytes(ts[0], |ts| > 1).value, TransformsBytes(ts[1..]).value;
      var b := TransformsBytes(ts).value;
      TransformRoundTrip(ts[0], |ts| > 1, rest);
      TransformsRoundTrip(ts[1..]);
      assert b == head + rest && b[|head|..] == rest;
      if ParseTransform(b).Ok? {
        TransformsCons(ts, ParseTransform(b).value.0, ParseTransforms(rest).items);
      }
      WfTransformsCons(ts);
    }
  }

  lemma TransformsCons(ts: seq<Transform>, t: Transform, rest: seq<Transform>)
    requires ts != []
    ensures [t] + rest == ts <==> t == ts[0] && rest == ts[1..]
    ensures t.transformType == ts[0].transformType && SameTypes(rest, ts[1..]) ==> SameTypes([t] + rest, ts)
  {
    assert ts == [ts[0]] + ts[1..];
    assert ([t] + rest)[0] == t && ([t] + rest)[1..] == rest;
  }

  lemma WfTransformsCons(ts: seq<Transform>)
    requires ts != []
    ensures WfTransforms(ts) <==> WfTransform(ts[0]) && WfTransforms(ts[1..])
  {
    assert ts == [ts[0]] + ts[1..];
  }

  predicate SameTypes(ts: seq<Transform>, us: seq<Transform>) {
    |ts| == |us| && forall i :: 0 <= i < |ts| ==> ts[i].transformType == us[i].transformType
  }

  // ----- Regrouping by type

  lemma {:induction false} OfTypeConcat(ts: seq<Transform>, us: seq<Transform>, k: byte)
    ensures OfType(ts + us, k) == OfType(ts, k) + OfType(us, k)
  {
    if ts == [] {
      assert ts + us == us;
    } else {
      OfTypeConcat(ts[1..], us, k);
      assert (ts + us)[0] == ts[0] && (ts + us)[1..] == ts[1..] + us;
      ConcatAssoc(if ts[0].transformType == k then [ts[0]] else [], OfType(ts[1..], k), OfType(us, k));
    }
  }

  lemma OfTypeSnoc(ts: seq<Transform>, t: Transform, k: byte)
    ensures OfType(ts + [t], k) == if t.transformType == k then OfType(ts, k) + [t] else OfType(ts, k)
  {
    OfTypeConcat(ts, [t], k);
    assert [t][1..] == [];
  }

  lemma {:induction false} OfTypeUniform(ts: seq<Transform>, j: byte, k: byte)
    requires AllOfType(ts, j)
    ensures OfType(ts, k) == if j == k then ts else []
  {
    if ts != [] {
      OfTypeUniform(ts[1..], j, k);
      assert ts == [ts[0]] + ts[1..];
    }
  }

  lemma {:induction false} OfTypeMembers(ts: seq<Transform>, k: byte)
    ensures AllOfType(OfType(ts, k), k)
    ensures forall t :: t in OfType(ts, k) <==> t in ts && t.transformType == k
  {
    if ts != [] {
      OfTypeMembers(ts[1..], k);
      assert ts == [ts[0]] + ts[1..];
      var head := if ts[0].transformType == k then [ts[0]] else [];
      assert OfType(ts, k) == head + OfType(ts[1..], k);
      assert forall t :: t in OfType(ts, k) <==> t in head || t in OfType(ts[1..], k);
    }
  }

  /** Regrouping a list already laid out bucket after bucket finds those buckets. */
  lemma OfTypeGrouped(a: seq<Transform>, b: seq<Transform>, c: seq<Transform>, d: seq<Transform>, e: seq<Transform>, k: byte)
    requires AllOfType(a, ENCR) && AllOfType(b, PRF) && AllOfType(c, INTEG) && AllOfType(d, DH) && AllOfType(e, ESN)
    ensures OfType(a + b + c + d + e, k) ==
            if k == ENCR then a else if k == PRF then b else if k == INTEG then c
            else if k == DH then d else if k == ESN then e else []
  {
    OfTypeConcat(a + b + c + d, e, k);
    OfTypeConcat(a + b + c, d, k);
    OfTypeConcat(a + b, c, k);
    OfTypeConcat(a, b, k);
    OfTypeUniform(a, ENCR, k);
    OfTypeUniform(b, PRF, k);
    OfTypeUniform(c, INTEG, k);
    OfTypeUniform(d, DH, k);
    OfTypeUniform(e, ESN, k);
    OnlyOne(a, b, c, d, e, k);
  }

  /** Of five lists of which at most one is kept, the concatenation is the one kept. */
  lemma OnlyOne<T>(a: seq<T>, b: seq<T>, c: seq<T>, d: seq<T>, e: seq<T>, k: byte)
    ensures (if k == ENCR then a else []) + (if k == PRF then b else []) + (if k == INTEG then c else [])
            + (if k == DH then d else []) + (if k == ESN then e else []) ==
            if k == ENCR then a else if k == PRF then b else if k == INTEG then c
            else if k == DH then d else if k == ESN then e else []
  {
  }

  /** Bucketing the transforms of a proposal gives the proposal back exactly when its buckets are right. */
  lemma BucketedAll(p: Proposal)
    ensures Bucketed(p.number, p.protocolId, p.spi, p.All()) == p <==> InBuckets(p)
  {
    if InBuckets(p) {
      BucketedGrouped(p, p.encr, p.prf, p.integ, p.dh, p.esn);
    } else {
      BucketsAreTyped(p.number, p.protocolId, p.spi, p.All());
    }
  }

  lemma SegmentOfType(ts: seq<Transform>, us: seq<Transform>, segment: seq<Transform>, at: nat, k: byte)
    requires SameTypes(ts, us) && at + |segment| <= |us| && us[at..at + |segment|] == segment && AllOfType(segment, k)
    ensures AllOfType(ts[at..at + |segment|], k)
  {
    var part := ts[at..at + |segment|];
    forall m | 0 <= m < |part|
      ensures part[m].transformType == k
    {
      assert us[at + m] == segment[m];
    }
  }

  lemma BucketedGrouped(p: Proposal, a: seq<Transform>, b: seq<Transform>, c: seq<Transform>,
        d: seq<Transform>, e: seq<Transform>)
    requires AllOfType(a, ENCR) && AllOfType(b, PRF) && AllOfType(c, INTEG) && AllOfType(d, DH) && AllOfType(e, ESN)
    ensures Bucketed(p.number, p.protocolId, p.spi, a + b + c + d + e) ==
            p.(encr := a, prf := b, integ := c, dh := d, esn := e)
  {
    OfTypeGrouped(a, b, c, d, e, ENCR);
    OfTypeGrouped(a, b, c, d, e, PRF);
    OfTypeGrouped(a, b, c, d, e, INTEG);
    OfTypeGrouped(a, b, c, d, e, DH);
    OfTypeGrouped(a, b, c, d, e, ESN);
  }

  lemma FiveSlices<T>(a: seq<T>, b: seq<T>, c: seq<T>, d: seq<T>, e: seq<T>)
    ensures var all := a + b + c + d + e;
            var i := |a|;
            var j := i + |b|;
            var k := j + |c|;
            var l := k + |d|;
            && |all| == l + |e| && all[0..i] == a && all[i..j] == b && all[j..k] == c && all[k..l] == d
            && all[l..l + |e|] == e
  {
  }

  lemma CutInFive<T>(ts: seq<T>, i: nat, j: nat, k: nat, l: nat)
    requires i <= j <= k <= l <= |ts|
    ensures ts == ts[0..i] + ts[i..j] + ts[j..k] + ts[k..l] + ts[l..|ts|]
  {
  }

  /** A list with the types of five buckets, one after the other, has its types in five segments. */
  lemma SegmentsOfType(ts: seq<Transform>, a: seq<Transform>, b: seq<Transform>, c: seq<Transform>,
        d: seq<Transform>, e: seq<Transform>)
    requires SameTypes(ts, a + b + c + d + e)
    requires AllOfType(a, ENCR) && AllOfType(b, PRF) && AllOfType(c, INTEG) && AllOfType(d, DH) && AllOfType(e, ESN)
    ensures var i := |a|;
            var j := i + |b|;
            var k := j + |c|;
            var l := k + |d|;
            && AllOfType(ts[0..i], ENCR) && AllOfType(ts[i..j], PRF) && AllOfType(ts[j..k], INTEG)
            && AllOfType(ts[k..l], DH) && AllOfType(ts[l..|ts|], ESN)
  {
    var us := a + b + c + d + e;
    FiveSlices(a, b, c, d, e);
    SegmentOfType(ts, us, a, 0, ENCR);
    SegmentOfType(ts, us, b, |a|, PRF);
    SegmentOfType(ts, us, c, |a| + |b|, INTEG);
    SegmentOfType(ts, us, d, |a| + |b| + |c|, DH);
    SegmentOfType(ts, us, e, |a| + |b| + |c| + |d|, ESN);
  }

  /** A list with the types of a bucketed proposal's transforms is its own regrouping. */
  lemma BucketedSameTypes(p: Proposal, ts: seq<Transform>)
    requires InBuckets(p) && SameTypes(ts, p.All())
    ensures Bucketed(p.number, p.protocolId, p.spi, ts).All() == ts
  {
    var i := |p.encr|;
    var j := i + |p.prf|;
    var k := j + |p.integ|;
    var l := k + |p.dh|;
    SegmentsOfType(ts, p.encr, p.prf, p.integ, p.dh, p.esn);
    CutInFive(ts, i, j, k, l);
    GroupedAll(p, ts[0..i], ts[i..j], ts[j..k], ts[k..l], ts[l..|ts|]);
  }

  lemma GroupedAll(p: Proposal, a: seq<Transform>, b: seq<Transform>, c: seq<Transform>,
        d: seq<Transform>, e: seq<Transform>)
    requires AllOfType(a, ENCR) && AllOfType(b, PRF) && AllOfType(c, INTEG) && AllOfType(d, DH) && AllOfType(e, ESN)
    ensures Bucketed(p.number, p.protocolId, p.spi, a + b + c + d + e).All() == a + b + c + d + e
  {
    BucketedGrouped(p, a, b, c, d, e);
  }

  /** Regrouping keeps every transform of a known type exactly once, and nothing else. */
  lemma RegroupingConserves(number: byte, protocolId: byte, spi: bytes, ts: seq<Transform>)
    ensures multiset(Bucketed(number, protocolId, spi, ts).All()) == multiset(Known(ts))
  {
    BucketCounts(ts);
  }

  lemma {:induction false} BucketCounts(ts: seq<Transform>)
    ensures multiset(OfType(ts, ENCR)) + multiset(OfType(ts, PRF)) + multiset(OfType(ts, INTEG))
            + multiset(OfType(ts, DH)) + multiset(OfType(ts, ESN)) == multiset(Known(ts))
  {
    if ts != [] {
      BucketCounts(ts[1..]);
      HeadCount(ts, ENCR);
      HeadCount(ts, PRF);
      HeadCount(ts, INTEG);
      HeadCount(ts, DH);
      HeadCount(ts, ESN);
      KnownCount(ts);
    }
  }

  lemma KnownCount(ts: seq<Transform>)
    requires ts != []
    ensures multiset(Known(ts)) == multiset(Known(ts[1..])) + if IsKnown(ts[0]) then multiset{ts[0]} else multiset{}
  {
  }

  lemma HeadCount(ts: seq<Transform>, k: byte)
    requires ts != []
    ensures multiset(OfType(ts, k)) ==
            multiset(OfType(ts[1..], k)) + if ts[0].transformType == k then multiset{ts[0]} else multiset{}
  {
  }

  predicate IsKnown(t: Transform) {
    ENCR <= t.transformType <= ESN
  }

  /** The transforms of a known type, in wire order. */
  function Known(ts: seq<Transform>): seq<Transform> {
    if ts == [] then []
    else (if IsKnown(ts[0]) then [ts[0]] else []) + Known(ts[1..])
  }

  // ----- Proposals

  lemma ProposalSlices(p: Proposal, more: bool, rest: bytes)
    requires ProposalBytes(p, more).Ok?
    ensures var b, d := ProposalBytes(p, more).value, ProposalBytes(p, more).value + rest;
            && 8 + |p.spi| <= |b| <= 0xFFFF
            && d[6] == |p.spi| && Get16(d, 2) == |b| && d[4] == p.number && d[5] == p.protocolId
            && d[8..8 + |p.spi|] == p.spi
            && TransformsBytes(p.All()) == Ok(d[8 + |p.spi|..|b|])
  {
    var b := ProposalBytes(p, more).value;
    var tail := TransformsBytes(p.All()).value;
    var header := ProposalHeader(p, more, |b|, |p.spi|, |p.All()|);
    assert b == header + p.spi + tail;
    var d := b + rest;
    assert d[6] == header[6] && d[2] == header[2] && d[3] == header[3] && d[4] == header[4] && d[5] == header[5];
  }

  /** How a proposal is read, given how its transforms are read. */
  function FromTransforms(number: byte, protocolId: byte, spi: bytes, ts: Parsed<Transform>, n: nat)
    : Outcome<(Proposal, nat)>
  {
    match ts.status
    case Done => Ok((Bucketed(number, protocolId, spi, ts.items), n))
    case Failed => Error
    case Faulted => Fault
  }

  lemma ParseLaidOut(d: bytes, n: uint16, size: byte, spi: bytes, transforms: bytes)
    requires 8 + size <= n <= |d| && Get16(d, 2) == n && d[6] == size
    requires d[8..8 + size] == spi && d[8 + size..n] == transforms
    ensures ParseProposal(d) ==
            if size > 247 then Fault else FromTransforms(d[4], d[5], spi, ParseTransforms(transforms), n)
  {
    var end := SpiEnd(d[6]);
    if size > 247 {
      assert end == size - 248;
    } else {
      assert end == 8 + size && d[end..n] == transforms && d[8..end] == spi;
    }
  }

  lemma ParseWritten(p: Proposal, more: bool, rest: bytes)
    requires ProposalBytes(p, more).Ok?
    ensures var b, ts := ProposalBytes(p, more).value, ParseTransforms(TransformsBytes(p.All()).value);
            ParseProposal(b + rest) ==
            if |p.spi| > 247 then Fault else FromTransforms(p.number, p.protocolId, p.spi, ts, |b|)
  {
    ProposalSlices(p, more, rest);
    var b := ProposalBytes(p, more).value;
    ParseLaidOut(b + rest, |b|, |p.spi|, p.spi, TransformsBytes(p.All()).value);
  }

  lemma BucketedIff(p: Proposal, ts: seq<Transform>)
    requires SameTypes(ts, p.All())
    ensures Bucketed(p.number, p.protocolId, p.spi, ts) == p <==> InBuckets(p) && ts == p.All()
  {
    if Bucketed(p.number, p.protocolId, p.spi, ts) == p {
      BucketsAreTyped(p.number, p.protocolId, p.spi, ts);
    }
    if InBuckets(p) {
      BucketedSameTypes(p, ts);
      BucketedAll(p);
    }
  }

  /** Whatever follows, a written proposal is read as one of the same length, and as itself exactly when well formed. */
  lemma ProposalRoundTrip(p: Proposal, more: bool, rest: bytes)
    requires ProposalBytes(p, more).Ok?
    ensures var b, r := ProposalBytes(p, more).value, ParseProposal(ProposalBytes(p, more).value + rest);
            && |b| >= 8
            && (r.Ok? ==> r.value.1 == |b|)
            && (r == Ok((p, |b|)) <==> WfProposal(p))
  {
    ParseWritten(p, more, rest);
    TransformsRoundTrip(p.All());
    var ts := ParseTransforms(TransformsBytes(p.All()).value);
    if ts.status == Done {
      BucketedIff(p, ts.items);
    }
  }

  lemma BucketsAreTyped(number: byte, protocolId: byte, spi: bytes, ts: seq<Transform>)
    ensures InBuckets(Bucketed(number, protocolId, spi, ts))
    ensures forall t :: t in Bucketed(number, protocolId, spi, ts).All() <==> t in ts && IsKnown(t)
  {
    OfTypeMembers(ts, ENCR);
    OfTypeMembers(ts, PRF);
    OfTypeMembers(ts, INTEG);
    OfTypeMembers(ts, DH);
    OfTypeMembers(ts, ESN);
  }

  /** Every list of proposals that can be written is read back unchanged exactly when it is well formed. */
  lemma {:induction false} ProposalsRoundTrip(ps: seq<Proposal>)
    requires ProposalsBytes(ps).Ok?
    ensures ParseProposals(ProposalsBytes(ps).value) == Parsed(Done, ps) <==> WfProposals(ps)
  {
    if ps != [] {
      var head, rest := ProposalBytes(ps[0], |ps| > 1).value, ProposalsBytes(ps[1..]).value;
      var b := ProposalsBytes(ps).value;
      ProposalRoundTrip(ps[0], |ps| > 1, rest);
      ProposalsRoundTrip(ps[1..]);
      assert b == head + rest && b[|head|..] == rest;
      assert ps == [ps[0]] + ps[1..];
      var first, tail := ParseProposal(b), ParseProposals(rest);
      if first.Ok? {
        var r := ParseProposals(b);
        assert r.items == [first.value.0] + tail.items;
        assert r.items[0] == first.value.0 && r.items[1..] == tail.items;
      }
      assert WfProposals(ps) <==> WfProposal(ps[0]) && WfProposals(ps[1..]);
    }
  }

  // ----- Decoding, then encoding, then decoding

  /** A decoded attribute in type/length/value form: its value has been dropped. */
  predicate LostValue(t: Transform) {
    t.attributePresent && t.attributeFormat == 0
  }

  predicate ParsedForm(t: Transform) {
    if LostValue(t) then t.variableLengthValue == [] else WfTransform(t)
  }

  lemma {:induction false} ParsedTransformForms(d: bytes)
    ensures forall t :: t in ParseTransforms(d).items ==> ParsedForm(t)
    decreases |d|
  {
    if d != [] && ParseTransform(d).Ok? {
      ParsedTransformForms(d[ParseTransform(d).value.1..]);
    }
  }

  predicate ParsedProposal(p: Proposal) {
    |p.spi| <= 247 && InBuckets(p) && forall t :: t in p.All() ==> ParsedForm(t)
  }

  lemma {:induction false} ParsedProposalForms(b: bytes)
    ensures forall p :: p in ParseProposals(b).items ==> ParsedProposal(p)
    decreases |b|
  {
    if b != [] && ParseProposal(b).Ok? {
      var n, end := ParseProposal(b).value.1, SpiEnd(b[6]);
      ParsedProposalForms(b[n..]);
      ParsedTransformForms(b[end..n]);
      BucketsAreTyped(b[4], b[5], b[8..end], ParseTransforms(b[end..n]).items);
    }
  }

  /** A decoded proposal can be written again exactly when it kept 1 to 255 transforms and no dropped value. */
  predicate Rewritable(p: Proposal) {
    1 <= |p.All()| <= 0xFF && forall t :: t in p.All() ==> !LostValue(t)
  }

  lemma {:induction false} TransformsRewritable(ts: seq<Transform>)
    requires forall t :: t in ts ==> ParsedForm(t)
    ensures TransformsBytes(ts).Ok? <==> forall t :: t in ts ==> !LostValue(t)
    ensures TransformsBytes(ts).Ok? ==> |TransformsBytes(ts).value| <= 12 * |ts|
  {
    if ts != [] {
      assert ts[0] in ts && forall t :: t in ts <==> t == ts[0] || t in ts[1..];
      TransformsRewritable(ts[1..]);
    }
  }

  lemma {:induction false} ProposalsRewritable(ps: seq<Proposal>)
    requires forall p :: p in ps ==> ParsedProposal(p)
    ensures ProposalsBytes(ps).Ok? <==> forall p :: p in ps ==> Rewritable(p)
  {
    if ps != [] {
      assert ps[0] in ps && forall p :: p in ps <==> p == ps[0] || p in ps[1..];
      ProposalsRewritable(ps[1..]);
      TransformsRewritable(ps[0].All());
    }
  }

  /**
   For any received bytes: what was decoded can be encoded again exactly when every proposal kept 1 to 255
   known transforms and none of them lost a variable-length value, and then decoding again changes nothing.
   */
  lemma DecodeEncodeDecode(b: bytes)
    requires ParseProposals(b).status == Done
    ensures var ps := ParseProposals(b).items;
            && (ProposalsBytes(ps).Ok? <==> forall p :: p in ps ==> Rewritable(p))
            && (ProposalsBytes(ps).Ok? ==> ParseProposals(ProposalsBytes(ps).value) == Parsed(Done, ps))
  {
    var ps := ParseProposals(b).items;
    ParsedProposalForms(b);
    ProposalsRewritable(ps);
    if ProposalsBytes(ps).Ok? {
      forall i | 0 <= i < |ps|
        ensures WfProposal(ps[i])
      {
        assert ps[i] in ps;
        forall j | 0 <= j < |ps[i].All()|
          ensures WfTransform(ps[i].All()[j])
        {
          assert ps[i].All()[j] in ps[i].All();
        }
      }
      ProposalsRoundTrip(ps);
    }
  }
}
