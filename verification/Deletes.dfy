/** The Delete payload (section 3.11 of RFC 7296): a counted list of SPIs. */
module Deletes {
  import opened Bytes

  datatype Deletion = Deletion(protocolId: byte, spiSize: byte, numberOfSpi: uint16, spis: seq<uint32>)

  /** Each SPI fills the first four bytes of a slot of `size` bytes. */
  function SpisBytes(size: byte, spis: seq<uint32>): bytes
    requires size >= 4
  {
    if spis == [] then [] else Put32(spis[0]) + Zeros(size - 4) + SpisBytes(size, spis[1..])
  }

  function DeletionBytes(d: Deletion): Outcome<bytes> {
    if |d.spis| != d.numberOfSpi then Error
    else if d.spis != [] && d.spiSize < 4 then Fault
    else Ok([d.protocolId, d.spiSize, Hi(d.numberOfSpi), Lo(d.numberOfSpi)]
            + if d.spis == [] then [] else SpisBytes(d.spiSize, d.spis))
  }

  /**
   Reads four bytes at a time, whatever the SPI size says. A last group of less than four bytes is completed from the
   bytes that stand behind the body in its array, and faults if there are too few of them.
   */
  function ParseSpis(b: bytes, behind: bytes): Parsed<uint32> {
    if b == [] then Parsed(Done, [])
    else if |b| < 4 then
      if |b + behind| < 4 then Parsed(Faulted, []) else Parsed(Done, [Get32(b + behind, 0)])
    else ParseSpis(b[4..], behind).After([Get32(b, 0)])
  }

  function ParseDeletion(b: bytes, behind: bytes): Outcome<Deletion> {
    if b == [] then Ok(Deletion(0, 0, 0, []))
    else if |b| <= 3 || |b| < 4 + b[1] as int * Get16(b, 2) as int then Error
    else
      var spis := ParseSpis(b[4..], behind);
      if spis.status == Done then Ok(Deletion(b[0], b[1], Get16(b, 2), spis.items)) else Fault
  }

  /** A body whose SPIs are read, and whose last group has less than four bytes. */
  predicate Ragged(b: bytes) {
    |b| > 3 && |b| >= 4 + b[1] as int * Get16(b, 2) as int && |b| % 4 != 0
  }

  lemma {:induction false} WordsIgnoreBehind(b: bytes, x: bytes, y: bytes)
    requires |b| % 4 == 0
    ensures ParseSpis(b, x) == ParseSpis(b, y)
  {
    if b != [] {
      WordsIgnoreBehind(b[4..], x, y);
    }
  }

  /** What stands behind a body plays no part exactly when the body is not ragged. */
  lemma BehindIgnoredExactly(b: bytes)
    ensures (forall x: bytes, y: bytes :: ParseDeletion(b, x) == ParseDeletion(b, y)) <==> !Ragged(b)
  {
    if Ragged(b) {
      FaultsExactly(b[4..], []);
      FaultsExactly(b[4..], [0, 0, 0]);
      assert ParseDeletion(b, []) != ParseDeletion(b, [0, 0, 0]);
    } else {
      forall x: bytes, y: bytes
        ensures ParseDeletion(b, x) == ParseDeletion(b, y)
      {
        IgnoresBehind(b, x, y);
      }
    }
  }

  lemma IgnoresBehind(b: bytes, x: bytes, y: bytes)
    requires !Ragged(b)
    ensures ParseDeletion(b, x) == ParseDeletion(b, y)
  {
    if |b| > 3 && |b| % 4 == 0 {
      WordsIgnoreBehind(b[4..], x, y);
    }
  }

  /** The first `k` bytes are the same, or missing in both. */
  predicate SameFirst(x: bytes, y: bytes, k: nat) {
    if |x| < k then |y| < k else |y| >= k && x[..k] == y[..k]
  }

  lemma {:induction false} SpisReadOn(b: bytes, x: bytes, y: bytes)
    requires |b| % 4 != 0
    ensures ParseSpis(b, x) == ParseSpis(b, y) <==> SameFirst(x, y, 4 - |b| % 4)
  {
    if |b| >= 4 {
      SpisReadOn(b[4..], x, y);
      AfterOne(Get32(b, 0), ParseSpis(b[4..], x), ParseSpis(b[4..], y));
    } else {
      GroupReadOn(b, x, y);
    }
  }

  lemma AfterOne<T>(a: T, p: Parsed<T>, q: Parsed<T>)
    ensures p.After([a]) == q.After([a]) <==> p == q
  {
    assert ([a] + p.items)[1..] == p.items && ([a] + q.items)[1..] == q.items;
  }

  lemma GroupReadOn(b: bytes, x: bytes, y: bytes)
    requires 0 < |b| < 4
    ensures ParseSpis(b, x) == ParseSpis(b, y) <==> SameFirst(x, y, 4 - |b|)
  {
    var k := 4 - |b|;
    if |x| >= k && |y| >= k {
      var v, w := (b + x)[0..4], (b + y)[0..4];
      assert v[|b|..] == x[..k] && w[|b|..] == y[..k];
      assert v == b + x[..k] && w == b + y[..k];
      assert [Get32(b + x, 0)][0] == Value(v) && [Get32(b + y, 0)][0] == Value(w);
      if Value(v) == Value(w) {
        ValueInjective(v, w);
      }
    }
  }

  /** A ragged body is read the same way in two places exactly when the bytes that complete it are the same. */
  lemma ReadOnExactly(b: bytes, x: bytes, y: bytes)
    requires Ragged(b)
    ensures ParseDeletion(b, x) == ParseDeletion(b, y) <==> SameFirst(x, y, 4 - |b| % 4)
  {
    SpisReadOn(b[4..], x, y);
    FaultsExactly(b[4..], x);
    FaultsExactly(b[4..], y);
  }

  lemma {:induction false} FaultsExactly(b: bytes, behind: bytes)
    requires |b| % 4 != 0
    ensures ParseSpis(b, behind).status == if |behind| < 4 - |b| % 4 then Faulted else Done
  {
    if |b| >= 4 {
      FaultsExactly(b[4..], behind);
    }
  }

  lemma {:induction false} SpisLength(size: byte, spis: seq<uint32>)
    requires size >= 4
    ensures |SpisBytes(size, spis)| == size as int * |spis|
  {
    if spis != [] {
      SpisLength(size, spis[1..]);
      assert |spis| == 1 + |spis[1..]|;
      assert size as int * (1 + |spis[1..]|) == size as int + size as int * |spis[1..]|;
    }
  }

  /** As many SPIs are read as there are groups of four bytes, counting a short one. */
  lemma {:induction false} WordCount(b: bytes, behind: bytes)
    ensures ParseSpis(b, behind).status != Failed
    ensures ParseSpis(b, behind).status == Done ==> |b| <= 4 * |ParseSpis(b, behind).items| < |b| + 4
  {
    if |b| >= 4 {
      WordCount(b[4..], behind);
    }
  }

  lemma {:induction false} SpisRoundTrip(spis: seq<uint32>, behind: bytes)
    ensures ParseSpis(SpisBytes(4, spis), behind) == Parsed(Done, spis)
  {
    if spis != [] {
      SpisRoundTrip(spis[1..], behind);
      var b := SpisBytes(4, spis);
      assert b == Put32(spis[0]) + SpisBytes(4, spis[1..]);
      assert b[4..] == SpisBytes(4, spis[1..]);
      assert b[0..4] == Put32(spis[0]);
      Put32Read(b, 0, spis[0]);
      assert spis == [spis[0]] + spis[1..];
    }
  }

  /** The decoding loop's step: `done` holds the SPIs before `i`. */
  lemma SpisStep(d: bytes, behind: bytes, i: nat, done: seq<uint32>)
    requires i < |d| && i + 4 <= |d + behind| && ParseSpis(d, behind) == ParseSpis(d[i..], behind).After(done)
    ensures var spi := Get32((d + behind)[i..i + 4], 0);
            ParseSpis(d, behind) == ParseSpis(if i + 4 <= |d| then d[i + 4..] else [], behind).After(done + [spi])
  {
    if i + 4 <= |d| {
      Group(d, behind, i);
      FullGroup(d[i..], behind, done);
    } else {
      ShortGroup(d, behind, i);
      LastGroup(d[i..], behind, (d + behind)[i..i + 4], done);
    }
  }

  lemma Group(d: bytes, behind: bytes, i: nat)
    requires i + 4 <= |d|
    ensures d[i..][0..4] == (d + behind)[i..i + 4] == (d + behind)[i..i + 4][0..4] && d[i..][4..] == d[i + 4..]
  {
  }

  lemma ShortGroup(d: bytes, behind: bytes, i: nat)
    requires i <= |d| && i + 4 <= |d + behind|
    ensures (d[i..] + behind)[0..4] == (d + behind)[i..i + 4]
  {
  }

  lemma FullGroup(b: bytes, behind: bytes, done: seq<uint32>)
    requires |b| >= 4
    ensures ParseSpis(b, behind).After(done) == ParseSpis(b[4..], behind).After(done + [Get32(b, 0)])
  {
    ParsedAfterAfter(done, [Get32(b, 0)], ParseSpis(b[4..], behind));
  }

  lemma LastGroup(b: bytes, behind: bytes, word: bytes, done: seq<uint32>)
    requires 0 < |b| < 4 && |b + behind| >= 4 && |word| == 4 && (b + behind)[0..4] == word
    ensures ParseSpis(b, behind).After(done) == ParseSpis([], behind).After(done + [Get32(word, 0)])
  {
    assert word[0..4] == word;
    assert done + [Get32(word, 0)] + [] == done + [Get32(word, 0)];
  }

  /**
   A deletion that can be written is read back, whatever stands behind it, exactly when its SPIs have four bytes, or
   there are none.
   */
  lemma DeletionRoundTrip(d: Deletion, behind: bytes)
    requires DeletionBytes(d).Ok?
    ensures ParseDeletion(DeletionBytes(d).value, behind) == Ok(d) <==> d.spiSize == 4 || d.spis == []
  {
    var b := DeletionBytes(d).value;
    assert Get16(b, 2) == d.numberOfSpi;
    if d.spis == [] {
      assert b[4..] == [];
    } else {
      SpisLength(d.spiSize, d.spis);
      assert b[4..] == SpisBytes(d.spiSize, d.spis);
      WordCount(b[4..], behind);
      if d.spiSize == 4 {
        SpisRoundTrip(d.spis, behind);
      } else {
        MoreGroups(d.spiSize, |d.spis|);
      }
    }
  }

  lemma MoreGroups(size: byte, n: nat)
    requires size > 4 && n > 0
    ensures size as int * n > 4 * n
  {
  }

  class Delete {
    var protocolId: byte
    var spiSize: byte
    var numberOfSpi: uint16
    var spis: seq<uint32>

    function Value(): Deletion
      reads this
    {
      Deletion(protocolId, spiSize, numberOfSpi, spis)
    }

    constructor (d: Deletion)
      ensures Value() == d
    {
      protocolId, spiSize, numberOfSpi, spis := d.protocolId, d.spiSize, d.numberOfSpi, d.spis;
    }

    /** Writes every SPI through one slot buffer, whose bytes after the fourth stay zero. */
    method Marshal() returns (r: Outcome<bytes>)
      ensures r == DeletionBytes(Value())
    {
      if |spis| != numberOfSpi {
        return Error;
      }
      var data: bytes := [protocolId, spiSize, 0, 0];
      data := Patch16(data, 2, numberOfSpi);
      ghost var head := data;
      assert head == [protocolId, spiSize, Hi(numberOfSpi), Lo(numberOfSpi)];
      if numberOfSpi > 0 {
        var slot := new byte[spiSize](_ => 0);
        assert spis[0..] == spis;
        for i := 0 to |spis|
          invariant i > 0 ==> spiSize >= 4
          invariant forall j :: 4 <= j < slot.Length ==> slot[j] == 0
          invariant spiSize >= 4 ==> head + SpisBytes(spiSize, spis) == data + SpisBytes(spiSize, spis[i..])
          modifies slot
        {
          if slot.Length < 4 {
            return Fault;
          }
          PutUint32(slot, spis[i]);
          assert spis[i..][0] == spis[i] && spis[i..][1..] == spis[i + 1..];
          ConcatAssoc(data, slot[..], SpisBytes(spiSize, spis[i + 1..]));
          data := data + slot[..];
        }
      }
      assert data + [] == data && head + [] == head;
      return Ok(data);
    }

    /** Overwrites the first four bytes of a slot that is zero behind them. */
    static method PutUint32(slot: array<byte>, v: uint32)
      requires slot.Length >= 4 && forall j :: 4 <= j < slot.Length ==> slot[j] == 0
      modifies slot
      ensures forall j :: 4 <= j < slot.Length ==> slot[j] == 0
      ensures slot[..] == Put32(v) + Zeros(slot.Length - 4)
    {
      var word := Put32(v);
      slot[0], slot[1], slot[2], slot[3] := word[0], word[1], word[2], word[3];
    }

    /** Decodes a body that has the bytes `behind` behind it in its array. */
    method Unmarshal(b: bytes, behind: bytes) returns (status: Status)
      modifies this
      ensures status == StatusOf(ParseDeletion(b, behind))
      ensures |b| == 0 || status == Failed ==> unchanged(this)
      ensures |b| > 0 && status == Done ==>
                var d := ParseDeletion(b, behind).value; Value() == d.(spis := old(spis) + d.spis)
    {
      if |b| == 0 {
        return Done;
      }
      if |b| <= 3 {
        return Failed;
      }
      var size, number := b[1], Get16(b, 2);
      if |b| < 4 + size as int * number as int {
        return Failed;
      }
      protocolId, spiSize, numberOfSpi := b[0], size, number;
      WordCount(b[4..], behind);
      status, spis := AppendSpis(spis, b[4..], behind);
    }

    /** Appends one SPI for every four bytes; the slice taken for each is bounded by the array, not by the body. */
    static method AppendSpis(spis: seq<uint32>, d: bytes, behind: bytes) returns (status: Status, r: seq<uint32>)
      ensures status == ParseSpis(d, behind).status
      ensures r == spis + ParseSpis(d, behind).items
    {
      r := spis;
      var i := 0;
      ghost var done: seq<uint32> := [];
      ParsedAfterNil(ParseSpis(d, behind));
      assert d[0..] == d;
      while i < |d|
        invariant 0 <= i
        invariant ParseSpis(d, behind) == ParseSpis(if i <= |d| then d[i..] else [], behind).After(done)
        invariant r == spis + done
        decreases |d| - i
      {
        if i + 4 > |d + behind| {
          assert done + [] == done;
          return Faulted, r;
        }
        SpisStep(d, behind, i, done);
        var spi := Get32((d + behind)[i..i + 4], 0);
        r := r + [spi];
        done := done + [spi];
        i := i + 4;
      }
      assert (if i <= |d| then d[i..] else []) == [] && done + [] == done;
      return Done, r;
    }
  }
}
