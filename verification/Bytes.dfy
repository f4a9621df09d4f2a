/** Bytes, big-endian fields, and the outcome of a codec call. */
module Bytes {

  type byte = n: int | 0 <= n < 0x100
  type uint16 = n: int | 0 <= n < 0x1_0000
  type uint32 = n: int | 0 <= n < 0x1_0000_0000
  type uint64 = n: int | 0 <= n < 0x1_0000_0000_0000_0000
  type bytes = seq<byte>

  /** `Error` is a returned error (its text is not modelled); `Fault` is a run-time bounds fault. */
  datatype Outcome<+T> = Ok(value: T) | Error | Fault {

    predicate IsFailure() {
      !Ok?
    }

    function PropagateFailure<U>(): Outcome<U>
      requires !Ok?
    {
      if Error? then Error else Fault
    }

    function Extract(): T
      requires Ok?
    {
      value
    }
  }

  datatype Option<+T> = None | Some(value: T)

  /** How a decoding loop ended. */
  datatype Status = Done | Failed | Faulted

  /** A decoding loop's result: the elements it appended before it ended, and how it ended. */
  datatype Parsed<T> = Parsed(status: Status, items: seq<T>) {

    function After(prefix: seq<T>): Parsed<T> {
      Parsed(status, prefix + items)
    }
  }

  function StatusOf<T>(o: Outcome<T>): Status {
    match o
    case Ok(_) => Done
    case Error => Failed
    case Fault => Faulted
  }

  /** `o` with `prefix` written in front of its bytes. */
  function After(prefix: bytes, o: Outcome<bytes>): Outcome<bytes> {
    match o
    case Ok(b) => Ok(prefix + b)
    case Error => Error
    case Fault => Fault
  }

  lemma ConcatAssoc<T>(a: seq<T>, b: seq<T>, c: seq<T>)
    ensures a + (b + c) == (a + b) + c
  {
  }

  lemma AfterNil(o: Outcome<bytes>)
    ensures After([], o) == o
  {
    if o.Ok? {
      assert [] + o.value == o.value;
    }
  }

  lemma AfterAfter(p: bytes, q: bytes, o: Outcome<bytes>)
    ensures After(p, After(q, o)) == After(p + q, o)
  {
    if o.Ok? {
      assert p + (q + o.value) == (p + q) + o.value;
    }
  }

  lemma ParsedAfterNil<T>(r: Parsed<T>)
    ensures r.After([]) == r
  {
    assert [] + r.items == r.items;
  }

  lemma ParsedAfterAfter<T>(p: seq<T>, q: seq<T>, r: Parsed<T>)
    ensures r.After(q).After(p) == r.After(p + q)
  {
    assert p + (q + r.items) == (p + q) + r.items;
  }

  function Hi(n: uint16): byte { n / 256 }

  function Lo(n: uint16): byte { n % 256 }

  function Put16(n: uint16): bytes { [Hi(n), Lo(n)] }

  /** Writes a 16-bit field in place at `at`. */
  function Patch16(b: bytes, at: nat, n: uint16): (r: bytes)
    requires at + 2 <= |b|
    ensures |r| == |b| && Get16(r, at) == n
    ensures forall i :: 0 <= i < |b| && i != at && i != at + 1 ==> r[i] == b[i]
  {
    b[at := Hi(n)][at + 1 := Lo(n)]
  }

  function Get16(b: bytes, at: nat): uint16
    requires at + 2 <= |b|
  {
    (b[at] as int) * 256 + b[at + 1] as int
  }

  // ----- Wider big-endian fields

  /** The number that bytes stand for, most significant first. */
  function Value(b: bytes): nat {
    if b == [] then 0 else Value(b[..|b| - 1]) * 0x100 + b[|b| - 1] as int
  }

  /** The low `k` bytes of `n`, most significant first. */
  function BigEndian(n: nat, k: nat): (b: bytes)
    ensures |b| == k
  {
    if k == 0 then [] else BigEndian(n / 0x100, k - 1) + [n % 0x100]
  }

  function Pow256(k: nat): nat {
    if k == 0 then 1 else 0x100 * Pow256(k - 1)
  }

  lemma {:induction false} ValueBound(b: bytes)
    ensures Value(b) < Pow256(|b|)
  {
    if b != [] {
      ValueBound(b[..|b| - 1]);
    }
  }

  lemma {:induction false} ValueOfBigEndian(n: nat, k: nat)
    requires n < Pow256(k)
    ensures Value(BigEndian(n, k)) == n
  {
    if k > 0 {
      ValueOfBigEndian(n / 0x100, k - 1);
      var b := BigEndian(n, k);
      assert b[..k - 1] == BigEndian(n / 0x100, k - 1);
    }
  }

  lemma {:induction false} ValueInjective(a: bytes, b: bytes)
    requires |a| == |b| && Value(a) == Value(b)
    ensures a == b
  {
    if a != [] {
      var n := |a| - 1;
      assert Value(a) == Value(a[..n]) * 0x100 + a[n] as int && Value(b) == Value(b[..n]) * 0x100 + b[n] as int;
      ValueInjective(a[..n], b[..n]);
      assert a == a[..n] + [a[n]] && b == b[..n] + [b[n]];
    }
  }

  lemma Pow256s()
    ensures Pow256(4) == 0x1_0000_0000 && Pow256(8) == 0x1_0000_0000_0000_0000
  {
    assert Pow256(6) == 0x1_0000_0000_0000;
  }

  function Put32(n: uint32): (b: bytes)
    ensures |b| == 4
  {
    BigEndian(n, 4)
  }

  function Get32(b: bytes, at: nat): uint32
    requires at + 4 <= |b|
  {
    ValueBound(b[at..at + 4]);
    Pow256s();
    Value(b[at..at + 4])
  }

  lemma Put32Read(b: bytes, at: nat, n: uint32)
    requires at + 4 <= |b| && b[at..at + 4] == Put32(n)
    ensures Get32(b, at) == n
  {
    Pow256s();
    ValueOfBigEndian(n, 4);
  }

  function Put64(n: uint64): (b: bytes)
    ensures |b| == 8
  {
    BigEndian(n, 8)
  }

  function Get64(b: bytes, at: nat): uint64
    requires at + 8 <= |b|
  {
    ValueBound(b[at..at + 8]);
    Pow256s();
    Value(b[at..at + 8])
  }

  lemma Put64Read(b: bytes, at: nat, n: uint64)
    requires at + 8 <= |b| && b[at..at + 8] == Put64(n)
    ensures Get64(b, at) == n
  {
    Pow256s();
    ValueOfBigEndian(n, 8);
  }

  function Zeros(n: nat): (z: bytes)
    ensures |z| == n && forall i :: 0 <= i < n ==> z[i] == 0
  {
    seq(n, _ => 0)
  }
}
