/**
 The payload chain (section 3.2 of RFC 7296): each payload's type is carried by the payload before it, unknown
 payloads are skipped unless critical, and an SK payload keeps its own next-payload byte.
 */
module Chain {
  import opened Bytes
  import opened Payloads
  import Deletes

  function FirstType(ps: seq<Payload>): byte {
    if ps == [] then NO_NEXT else TypeOf(ps[0])
  }

  /** The next-payload byte written in front of `ps[0]`. */
  function NextByte(ps: seq<Payload>): byte
    requires ps != []
  {
    if |ps| > 1 then TypeOf(ps[1]) else if ps[0].SK? then ps[0].next else NO_NEXT
  }

  function Framed(next: byte, data: bytes): Outcome<bytes> {
    var n := 4 + |data|;
    if n > 0xFFFF then Error else Ok([next, 0, Hi(n), Lo(n)] + data)
  }

  /** One payload with its header. */
  function One(next: byte, p: Payload): Outcome<bytes> {
    var data :- Marshal(p);
    Framed(next, data)
  }

  function Encode(ps: seq<Payload>): Outcome<bytes> {
    if ps == [] then Ok([])
    else
      var head :- One(NextByte(ps), ps[0]);
      After(head, Encode(ps[1..]))
  }

  /** The encoding loop's step: `data` holds the payloads before `i`. */
  lemma EncodeStep(ps: seq<Payload>, i: nat, data: bytes, o: Outcome<bytes>)
    requires i < |ps| && Encode(ps) == After(data, Encode(ps[i..])) && o == One(NextByte(ps[i..]), ps[i])
    ensures Encode(ps) == if o.Ok? then After(data + o.value, Encode(ps[i + 1..])) else o
  {
    assert ps[i..][0] == ps[i] && ps[i..][1..] == ps[i + 1..];
    if o.Ok? {
      AfterAfter(data, o.value, Encode(ps[i + 1..]));
    }
  }

  /** Decodes the chain in `b`, which has the bytes `spare` behind it in its array. */
  function Decode(next: byte, b: bytes, spare: bytes): Parsed<Payload>
    decreases |b|
  {
    if b == [] then Parsed(Done, [])
    else if !WellFramed(b) then Parsed(Failed, [])
    else
      var n := Get16(b, 2);
      if KnownType(next) then
        FromBody(Unmarshal(next, b[0], b[4..n], b[n..] + spare), Decode(b[0], b[n..], spare))
      else if b[1] < 0x80 then Decode(b[0], b[n..], spare)
      else Parsed(Failed, [])
  }

  predicate WellFramed(b: bytes) {
    |b| >= 4 && 4 <= Get16(b, 2) <= |b|
  }

  /** The decoding loop's step: `seen` holds the payloads before `b'`. */
  lemma DecodeStep(next: byte, b: bytes, spare: bytes, next': byte, b': bytes, seen: seq<Payload>)
    requires Decode(next, b, spare) == Decode(next', b', spare).After(seen) && WellFramed(b') && KnownType(next')
    ensures var n := Get16(b', 2);
            var o := Unmarshal(next', b'[0], b'[4..n], b'[n..] + spare);
            Decode(next, b, spare) ==
            if o.Ok? then Decode(b'[0], b'[n..], spare).After(seen + [o.value]) else Parsed(StatusOf(o), seen)
  {
    var n := Get16(b', 2);
    var o := Unmarshal(next', b'[0], b'[4..n], b'[n..] + spare);
    if o.Ok? {
      ParsedAfterAfter(seen, [o.value], Decode(b'[0], b'[n..], spare));
    } else {
      assert seen + [] == seen;
    }
  }

  /** The loop's other endings and its skip. */
  lemma DecodeStop(next: byte, b: bytes, spare: bytes, next': byte, b': bytes, seen: seq<Payload>)
    requires Decode(next, b, spare) == Decode(next', b', spare).After(seen) && !(WellFramed(b') && KnownType(next'))
    ensures Decode(next, b, spare) ==
            if b' == [] then Parsed(Done, seen)
            else if WellFramed(b') && b'[1] < 0x80 then Decode(b'[0], b'[Get16(b', 2)..], spare).After(seen)
            else Parsed(Failed, seen)
  {
    assert seen + [] == seen;
  }

  // ----- Round trip

  /** Every payload is well formed, and an SK payload that is not last names its successor. */
  ghost predicate WfChain(ps: seq<Payload>) {
    && (forall i :: 0 <= i < |ps| ==> WfPayload(ps[i]))
    && (forall i :: 0 <= i < |ps| - 1 && ps[i].SK? ==> ps[i].next == TypeOf(ps[i + 1]))
  }

  /** No AKA' body has both an unknown type and an attribute that is not plain. */
  ghost predicate NoStrange(ps: seq<Payload>) {
    forall i :: 0 <= i < |ps| ==> !CarriesStrange(ps[i])
  }

  /** How a written payload is read: by its own body, and then the rest of the chain from the type it names. */
  lemma DecodeOne(next: byte, p: Payload, rest: bytes, spare: bytes)
    requires One(next, p).Ok?
    ensures Decode(TypeOf(p), One(next, p).value + rest, spare) ==
            FromBody(Unmarshal(TypeOf(p), next, Marshal(p).value, rest + spare), Decode(next, rest, spare))
  {
    DecodeFrame(TypeOf(p), next, Marshal(p).value, rest, spare);
  }

  lemma DecodeFrame(t: byte, next: byte, body: bytes, rest: bytes, spare: bytes)
    requires Framed(next, body).Ok? && KnownType(t)
    ensures Decode(t, Framed(next, body).value + rest, spare) ==
            FromBody(Unmarshal(t, next, body, rest + spare), Decode(next, rest, spare))
  {
    FrontFrame(next, body, rest);
  }

  function FromBody(o: Outcome<Payload>, rest: Parsed<Payload>): Parsed<Payload> {
    match o
    case Ok(p) => rest.After([p])
    case _ => Parsed(StatusOf(o), [])
  }

  lemma FrontFrame(next: byte, data: bytes, rest: bytes)
    requires Framed(next, data).Ok?
    ensures var head := Framed(next, data).value;
            var b := head + rest;
            |head| >= 4 && |head| == Get16(b, 2) && b[0] == next && b[1] == 0 && b[4..|head|] == data && b[|head|..] == rest
  {
  }

  lemma WfCons(ps: seq<Payload>)
    requires ps != []
    ensures WfChain(ps) <==> WfPayload(ps[0]) && (ps[0].SK? ==> ps[0].next == NextByte(ps)) && WfChain(ps[1..])
  {
    if WfPayload(ps[0]) && (ps[0].SK? ==> ps[0].next == NextByte(ps)) && WfChain(ps[1..]) {
      forall i | 0 <= i < |ps| - 1 && ps[i].SK?
        ensures ps[i].next == TypeOf(ps[i + 1])
      {
        if i > 0 {
          assert ps[1..][i - 1].SK?;
        }
      }
    } else if WfChain(ps) {
      assert WfChain(ps[1..]);
    }
  }

  lemma ReadBackCons(ps: seq<Payload>, o: Outcome<Payload>, rest: Parsed<Payload>)
    requires ps != []
    ensures FromBody(o, rest) == Parsed(Done, ps) <==> o == Ok(ps[0]) && rest == Parsed(Done, ps[1..])
  {
    assert ps == [ps[0]] + ps[1..];
    if o.Ok? {
      assert ([o.value] + rest.items)[0] == o.value && ([o.value] + rest.items)[1..] == rest.items;
    }
  }

  /**
   Every list of payloads that can be written is read back, in order and whatever stands behind it, when decoding starts
   from the first type and the chain is well formed. Unless it has a strange AKA' body, only a well-formed chain is.
   */
  lemma {:induction false} ChainRoundTrip(ps: seq<Payload>, first: byte, spare: bytes)
    requires Encode(ps).Ok? && (ps != [] ==> first == TypeOf(ps[0]))
    ensures WfChain(ps) ==> Decode(first, Encode(ps).value, spare) == Parsed(Done, ps)
    ensures NoStrange(ps) && Decode(first, Encode(ps).value, spare) == Parsed(Done, ps) ==> WfChain(ps)
  {
    if ps != [] {
      var next, rest := NextByte(ps), Encode(ps[1..]).value;
      ReadBackStep(ps, next, rest, spare);
      PayloadRoundTrip(ps[0], next, rest + spare);
      ChainRoundTrip(ps[1..], next, spare);
      WfCons(ps);
    }
  }

  /** A chain is read back exactly when its first payload is, where it stands, and the rest of the chain is. */
  lemma ReadBackStep(ps: seq<Payload>, next: byte, rest: bytes, spare: bytes)
    requires ps != [] && next == NextByte(ps) && One(next, ps[0]).Ok? && Encode(ps[1..]) == Ok(rest)
    ensures Encode(ps).Ok?
    ensures Decode(TypeOf(ps[0]), Encode(ps).value, spare) == Parsed(Done, ps)
            <==> ReadsBack(ps[0], next, rest + spare) && Decode(next, rest, spare) == Parsed(Done, ps[1..])
  {
    TypeIsKnown(ps[0]);
    DecodeOne(next, ps[0], rest, spare);
    ReadBackCons(ps, Unmarshal(TypeOf(ps[0]), next, Marshal(ps[0]).value, rest + spare), Decode(next, rest, spare));
  }

  // ----- Unknown payloads

  /** One payload on the wire, before its body is read. */
  datatype Frame = Frame(kind: byte, flags: byte, body: bytes)

  /** A frame, and the bytes behind it in its array. */
  datatype Placed = Placed(frame: Frame, behind: bytes)

  predicate Unknown(f: Frame) { !KnownType(f.kind) }

  predicate Critical(f: Frame) { f.flags >= 0x80 }

  /** A Delete body whose last SPI is completed from what stands behind it. */
  predicate ReadsOn(f: Frame) { f.kind == TYPE_D && Deletes.Ragged(f.body) }

  /** The frames of a chain, read without looking into their bodies. */
  function ParseFrames(next: byte, b: bytes, spare: bytes): Parsed<Placed>
    decreases |b|
  {
    if b == [] then Parsed(Done, [])
    else if !WellFramed(b) then Parsed(Failed, [])
    else
      var n := Get16(b, 2);
      ParseFrames(b[0], b[n..], spare).After([Placed(Frame(next, b[1], b[4..n]), b[n..] + spare)])
  }

  /** Whether a frame lets decoding go on. */
  predicate Acceptable(q: Placed) {
    if Unknown(q.frame) then !Critical(q.frame) else Unmarshal(q.frame.kind, NO_NEXT, q.frame.body, q.behind).Ok?
  }

  lemma NextIsIrrelevant(t: byte, next: byte, b: bytes, behind: bytes)
    requires KnownType(t)
    ensures Unmarshal(t, next, b, behind).Ok? <==> Unmarshal(t, NO_NEXT, b, behind).Ok?
    ensures t != TYPE_SK ==> Unmarshal(t, next, b, behind) == Unmarshal(t, NO_NEXT, b, behind)
  {
  }

  /** Except for such a Delete body, a payload is read from its body alone. */
  lemma ReadAlone(f: Frame, next: byte, x: bytes, y: bytes)
    requires !Unknown(f) && !ReadsOn(f)
    ensures Unmarshal(f.kind, next, f.body, x) == Unmarshal(f.kind, next, f.body, y)
  {
    if f.kind == TYPE_D {
      Deletes.IgnoresBehind(f.body, x, y);
    }
  }

  /**
   For any bytes: a chain is accepted exactly when its framing is sound, every known body can be read where it stands,
   and no unknown payload has the critical bit set.
   */
  lemma {:induction false} AcceptedExactly(next: byte, b: bytes, spare: bytes)
    ensures Decode(next, b, spare).status == Done <==>
            ParseFrames(next, b, spare).status == Done
            && forall q :: q in ParseFrames(next, b, spare).items ==> Acceptable(q)
    decreases |b|
  {
    if WellFramed(b) {
      var n := Get16(b, 2);
      var q, rest := Placed(Frame(next, b[1], b[4..n]), b[n..] + spare), ParseFrames(b[0], b[n..], spare);
      AcceptedExactly(b[0], b[n..], spare);
      assert ParseFrames(next, b, spare).items == [q] + rest.items;
      assert q in ParseFrames(next, b, spare).items;
      assert forall g :: g in ParseFrames(next, b, spare).items <==> g == q || g in rest.items;
      if KnownType(next) {
        NextIsIrrelevant(next, b[0], b[4..n], b[n..] + spare);
      }
    }
  }

  /** Without a Delete body that reads on, acceptance depends on each body alone, and not on what stands behind the chain. */
  lemma AcceptedByBodies(next: byte, b: bytes, spare: bytes)
    requires forall q :: q in ParseFrames(next, b, spare).items ==> !ReadsOn(q.frame)
    ensures Decode(next, b, spare).status == Done <==>
            ParseFrames(next, b, spare).status == Done
            && forall q :: q in ParseFrames(next, b, spare).items ==> Acceptable(q.(behind := []))
  {
    AcceptedExactly(next, b, spare);
    forall q | q in ParseFrames(next, b, spare).items
      ensures Acceptable(q) <==> Acceptable(q.(behind := []))
    {
      if !Unknown(q.frame) {
        ReadAlone(q.frame, NO_NEXT, q.behind, []);
      }
    }
  }

  /** A chain that contains an unknown payload with the critical bit set is never accepted. */
  lemma CriticalRejected(next: byte, b: bytes, spare: bytes, q: Placed)
    requires q in ParseFrames(next, b, spare).items && Unknown(q.frame) && Critical(q.frame)
    ensures Decode(next, b, spare).status != Done
  {
    AcceptedExactly(next, b, spare);
  }

  // A chain laid out from frames: each names its successor, and the last names `last`.

  function NextKind(fs: seq<Frame>, last: byte): byte {
    if fs == [] then last else fs[0].kind
  }

  predicate Fits(fs: seq<Frame>) {
    forall i :: 0 <= i < |fs| ==> 4 + |fs[i].body| <= 0xFFFF
  }

  function Render(fs: seq<Frame>, last: byte): bytes
    requires Fits(fs)
  {
    if fs == [] then []
    else
      var n := 4 + |fs[0].body|;
      [NextKind(fs[1..], last), fs[0].flags, Hi(n), Lo(n)] + fs[0].body + Render(fs[1..], last)
  }

  /** The frames of a known type, in order. */
  function KnownFrames(fs: seq<Frame>): (known: seq<Frame>)
    ensures Fits(fs) ==> Fits(known)
  {
    if fs == [] then []
    else if Unknown(fs[0]) then KnownFrames(fs[1..])
    else [fs[0]] + KnownFrames(fs[1..])
  }

  predicate Skippable(fs: seq<Frame>) {
    forall i :: 0 <= i < |fs| ==> fs[i].kind != TYPE_SK && (Unknown(fs[i]) ==> !Critical(fs[i]))
  }

  /** The payloads read from frames, each body where it stands. */
  function Bodies(fs: seq<Frame>, last: byte, spare: bytes): Parsed<Payload>
    requires Fits(fs)
  {
    if fs == [] then Parsed(Done, [])
    else if Unknown(fs[0]) then Bodies(fs[1..], last, spare)
    else
      FromBody(Unmarshal(fs[0].kind, NO_NEXT, fs[0].body, Render(fs[1..], last) + spare), Bodies(fs[1..], last, spare))
  }

  lemma RenderedFront(fs: seq<Frame>, last: byte)
    requires Fits(fs) && fs != []
    ensures var b, n := Render(fs, last), 4 + |fs[0].body|;
            && |b| >= n && Get16(b, 2) == n && b[0] == NextKind(fs[1..], last) && b[1] == fs[0].flags
            && b[4..n] == fs[0].body && b[n..] == Render(fs[1..], last)
  {
    var n := 4 + |fs[0].body|;
    var head: bytes := [NextKind(fs[1..], last), fs[0].flags, Hi(n), Lo(n)];
    assert Render(fs, last) == head + fs[0].body + Render(fs[1..], last);
  }

  /** A correctly linked chain decodes to the bodies of its known frames, each read where it stands. */
  lemma {:induction false} RenderedDecodes(fs: seq<Frame>, last: byte, spare: bytes)
    requires Fits(fs) && Skippable(fs)
    ensures Decode(NextKind(fs, last), Render(fs, last), spare) == Bodies(fs, last, spare)
  {
    if fs != [] {
      RenderedFront(fs, last);
      RenderedDecodes(fs[1..], last, spare);
      if !Unknown(fs[0]) {
        NextIsIrrelevant(fs[0].kind, NextKind(fs[1..], last), fs[0].body, Render(fs[1..], last) + spare);
      }
    }
  }

  lemma {:induction false} KnownFramesSkippable(fs: seq<Frame>)
    requires Skippable(fs)
    ensures Skippable(KnownFrames(fs))
  {
    if fs != [] {
      KnownFramesSkippable(fs[1..]);
    }
  }

  lemma FromBodySame(o: Outcome<Payload>, o': Outcome<Payload>, rest: Parsed<Payload>, rest': Parsed<Payload>)
    ensures FromBody(o, rest) == FromBody(o', rest') <==> o == o' && (o.Ok? ==> rest == rest')
  {
    if o.Ok? {
      assert ([o.value] + rest.items)[0] == o.value && ([o.value] + rest.items)[1..] == rest.items;
    }
    if o'.Ok? {
      assert ([o'.value] + rest'.items)[0] == o'.value && ([o'.value] + rest'.items)[1..] == rest'.items;
    }
  }

  /**
   Up to the first body that cannot be read, every Delete that reads on finds the same bytes behind it with and without
   the unknown payloads.
   */
  predicate Undisturbed(fs: seq<Frame>, last: byte, spare: bytes)
    requires Fits(fs)
  {
    if fs == [] then true
    else if Unknown(fs[0]) then Undisturbed(fs[1..], last, spare)
    else
      SameInBoth(fs[0], Render(fs[1..], last) + spare, Render(KnownFrames(fs[1..]), last) + spare,
                 Undisturbed(fs[1..], last, spare))
  }

  /** A frame is read the same way in two places and, if it can be read, so is the rest. */
  predicate SameInBoth(f: Frame, x: bytes, y: bytes, rest: bool)
    requires !Unknown(f)
  {
    && (ReadsOn(f) ==> Deletes.SameFirst(x, y, 4 - |f.body| % 4))
    && (Unmarshal(f.kind, NO_NEXT, f.body, x).Ok? ==> rest)
  }

  lemma SameRead(f: Frame, x: bytes, y: bytes)
    requires !Unknown(f)
    ensures Unmarshal(f.kind, NO_NEXT, f.body, x) == Unmarshal(f.kind, NO_NEXT, f.body, y)
            <==> (ReadsOn(f) ==> Deletes.SameFirst(x, y, 4 - |f.body| % 4))
  {
    if ReadsOn(f) {
      Deletes.ReadOnExactly(f.body, x, y);
    } else {
      ReadAlone(f, NO_NEXT, x, y);
    }
  }

  ghost predicate SkippingShows(fs: seq<Frame>, last: byte, spare: bytes)
    requires Fits(fs)
  {
    Bodies(KnownFrames(fs), last, spare) == Bodies(fs, last, spare) <==> Undisturbed(fs, last, spare)
  }

  lemma {:induction false} KnownFramesBodies(fs: seq<Frame>, last: byte, spare: bytes)
    requires Fits(fs)
    ensures SkippingShows(fs, last, spare)
  {
    if fs != [] {
      KnownFramesBodies(fs[1..], last, spare);
      assert fs == [fs[0]] + fs[1..];
      if Unknown(fs[0]) {
        UnknownCons(fs[0], fs[1..], last, spare);
      } else {
        KnownCons(fs[0], fs[1..], last, spare);
      }
    }
  }

  lemma UnknownCons(f: Frame, fs: seq<Frame>, last: byte, spare: bytes)
    requires Unknown(f) && Fits([f] + fs) && Fits(fs) && SkippingShows(fs, last, spare)
    ensures SkippingShows([f] + fs, last, spare)
  {
    assert ([f] + fs)[0] == f && ([f] + fs)[1..] == fs;
  }

  lemma KnownCons(f: Frame, fs: seq<Frame>, last: byte, spare: bytes)
    requires !Unknown(f) && Fits([f] + fs) && Fits(fs) && SkippingShows(fs, last, spare)
    ensures SkippingShows([f] + fs, last, spare)
  {
    KnownHead(f, fs);
    KnownCase(f, fs, KnownFrames(fs), last, spare);
    UndisturbedHead(f, fs, last, spare);
  }

  lemma KnownHead(f: Frame, fs: seq<Frame>)
    requires !Unknown(f)
    ensures KnownFrames([f] + fs) == [f] + KnownFrames(fs)
  {
    assert ([f] + fs)[0] == f && ([f] + fs)[1..] == fs;
  }

  lemma UndisturbedHead(f: Frame, fs: seq<Frame>, last: byte, spare: bytes)
    requires !Unknown(f) && Fits([f] + fs) && Fits(fs)
    ensures Undisturbed([f] + fs, last, spare) ==
            SameInBoth(f, Render(fs, last) + spare, Render(KnownFrames(fs), last) + spare, Undisturbed(fs, last, spare))
  {
    assert ([f] + fs)[0] == f && ([f] + fs)[1..] == fs;
  }

  lemma BodiesHead(f: Frame, fs: seq<Frame>, last: byte, spare: bytes)
    requires !Unknown(f) && Fits([f] + fs) && Fits(fs)
    ensures Bodies([f] + fs, last, spare) ==
            FromBody(Unmarshal(f.kind, NO_NEXT, f.body, Render(fs, last) + spare), Bodies(fs, last, spare))
  {
    assert ([f] + fs)[0] == f && ([f] + fs)[1..] == fs;
  }

  /** The same known frame in front of two lists. */
  lemma KnownCase(f: Frame, fs: seq<Frame>, gs: seq<Frame>, last: byte, spare: bytes)
    requires !Unknown(f) && Fits([f] + fs) && Fits([f] + gs) && Fits(fs) && Fits(gs)
    ensures Bodies([f] + gs, last, spare) == Bodies([f] + fs, last, spare) <==>
            SameInBoth(f, Render(fs, last) + spare, Render(gs, last) + spare,
                       Bodies(gs, last, spare) == Bodies(fs, last, spare))
  {
    BodiesHead(f, fs, last, spare);
    BodiesHead(f, gs, last, spare);
    KnownStep(f, Render(fs, last) + spare, Render(gs, last) + spare, Bodies(fs, last, spare), Bodies(gs, last, spare));
  }

  /** One known frame, read in two places, in front of what is read behind it in each. */
  lemma KnownStep(f: Frame, x: bytes, y: bytes, rest: Parsed<Payload>, rest': Parsed<Payload>)
    requires !Unknown(f)
    ensures var o, o' := Unmarshal(f.kind, NO_NEXT, f.body, x), Unmarshal(f.kind, NO_NEXT, f.body, y);
            FromBody(o', rest') == FromBody(o, rest) <==> SameInBoth(f, x, y, rest' == rest)
  {
    SameRead(f, x, y);
    FromBodySame(Unmarshal(f.kind, NO_NEXT, f.body, y), Unmarshal(f.kind, NO_NEXT, f.body, x), rest', rest);
  }

  /**
   A chain without SK decodes to the same payloads, and ends the same way, with or without its unknown payloads,
   however many there are and wherever they stand, as long as none has the critical bit set, exactly when no Delete
   that reads on is disturbed.
   */
  lemma SkippedExactly(fs: seq<Frame>, last: byte, spare: bytes)
    requires Fits(fs) && Skippable(fs)
    ensures var known := KnownFrames(fs);
            var x := Decode(NextKind(fs, last), Render(fs, last), spare);
            var y := Decode(NextKind(known, last), Render(known, last), spare);
            x == y <==> Undisturbed(fs, last, spare)
  {
    KnownFramesSkippable(fs);
    KnownFramesBodies(fs, last, spare);
    RenderedDecodes(fs, last, spare);
    RenderedDecodes(KnownFrames(fs), last, spare);
  }

  /** No Delete body takes bytes from behind it. */
  predicate NoneReadsOn(fs: seq<Frame>) {
    forall i :: 0 <= i < |fs| ==> !ReadsOn(fs[i])
  }

  lemma {:induction false} NothingDisturbed(fs: seq<Frame>, last: byte, spare: bytes)
    requires Fits(fs) && NoneReadsOn(fs)
    ensures Undisturbed(fs, last, spare)
  {
    if fs != [] {
      NothingDisturbed(fs[1..], last, spare);
    }
  }

  /** In particular, nothing changes if no Delete body reads on. */
  lemma UnknownPayloadsSkipped(fs: seq<Frame>, last: byte, spare: bytes)
    requires Fits(fs) && Skippable(fs) && NoneReadsOn(fs)
    ensures Decode(NextKind(fs, last), Render(fs, last), spare)
         == Decode(NextKind(KnownFrames(fs), last), Render(KnownFrames(fs), last), spare)
  {
    KnownFramesSkippable(fs);
    NothingDisturbed(fs, last, spare);
    SkippedExactly(fs, last, spare);
  }
}
