/** Modular exponentiation key agreement (section 3 of RFC 3526) with fixed-width public values and shared keys. */
module DiffieHellman {
  import opened Bytes
  import opened Modular

  // ----- Integers as big-endian bytes

  /** The shortest big-endian form; zero has no bytes. */
  function ToBytes(n: nat): bytes {
    if n == 0 then [] else ToBytes(n / 0x100) + [n % 0x100]
  }

  lemma {:induction false} BytesRoundTrip(n: nat)
    ensures Value(ToBytes(n)) == n
  {
    if n > 0 {
      BytesRoundTrip(n / 0x100);
      var b := ToBytes(n);
      assert b[..|b| - 1] == ToBytes(n / 0x100);
    }
  }

  lemma {:induction false} LongerForLarger(m: nat, n: nat)
    requires m <= n
    ensures |ToBytes(m)| <= |ToBytes(n)|
    decreases n
  {
    if m > 0 {
      LongerForLarger(m / 0x100, n / 0x100);
    }
  }

  lemma {:induction false} LeadingZeros(k: nat, b: bytes)
    ensures Value(Zeros(k) + b) == Value(b)
    decreases |b|, k
  {
    var z := Zeros(k) + b;
    if b != [] {
      LeadingZeros(k, b[..|b| - 1]);
      assert z[..|z| - 1] == Zeros(k) + b[..|b| - 1];
    } else if k > 0 {
      LeadingZeros(k - 1, []);
      assert z[..|z| - 1] == Zeros(k - 1) + [];
    }
  }

  // ----- The group

  datatype Group = Group(factor: nat, generator: nat) {

    /** The byte length of the modulus. */
    function Width(): nat {
      |ToBytes(factor)|
    }
  }

  /** A residue as bytes, zeros in front up to the width of the modulus. */
  function FixedWidth(g: Group, n: nat): (b: bytes)
    requires n < g.factor
    ensures |b| == g.Width()
  {
    LongerForLarger(n, g.factor);
    Zeros(g.Width() - |ToBytes(n)|) + ToBytes(n)
  }

  lemma FixedWidthRoundTrip(g: Group, n: nat)
    requires n < g.factor
    ensures Value(FixedWidth(g, n)) == n
  {
    LongerForLarger(n, g.factor);
    LeadingZeros(g.Width() - |ToBytes(n)|, ToBytes(n));
    BytesRoundTrip(n);
  }

  /** A power of the generator, as wide as the modulus. */
  function PowerBytes(g: Group, n: nat): bytes
    requires g.factor > 0
  {
    FixedWidth(g, Pow(g.generator, n) % g.factor)
  }

  function GetPublicValue(g: Group, secret: nat): bytes
    requires g.factor > 0
  {
    PowerBytes(g, secret)
  }

  /** Only public values strictly between 1 and the modulus minus one are accepted. */
  predicate Accepts(g: Group, peer: nat) {
    1 < peer < g.factor - 1
  }

  function GetSharedKey(g: Group, secret: nat, peer: nat): Outcome<bytes> {
    if !Accepts(g, peer) then Error else Ok(FixedWidth(g, Pow(peer, secret) % g.factor))
  }

  /** The local public value and the shared key, from a secret and the peer's bytes. */
  function Materials(g: Group, secret: nat, peerBytes: bytes): Outcome<(bytes, bytes)> {
    var shared :- GetSharedKey(g, secret, Value(peerBytes));
    Ok((GetPublicValue(g, secret), shared))
  }

  /** One side's view: the shared key is the generator raised to the product of the secrets. */
  lemma SharedKeyIs(g: Group, a: nat, b: nat)
    requires g.factor > 0
    ensures var m := Materials(g, a, GetPublicValue(g, b));
            && (m.Ok? <==> Accepts(g, Pow(g.generator, b) % g.factor))
            && (m.Ok? ==> m.value == (GetPublicValue(g, a), PowerBytes(g, a * b)))
  {
    FixedWidthRoundTrip(g, Pow(g.generator, b) % g.factor);
    ModularPowPow(g.generator, b, a, g.factor);
    assert a * b == b * a;
  }

  /**
   Whatever the modulus, the generator and the secrets: a side accepts exactly when the other's power is strictly
   between 1 and the modulus minus one, and two accepting sides hold the same key, as long as the modulus.
   */
  lemma Agreement(g: Group, a: nat, b: nat)
    requires g.factor > 0
    ensures var fromA, fromB := Materials(g, a, GetPublicValue(g, b)), Materials(g, b, GetPublicValue(g, a));
            && (fromA.Ok? <==> Accepts(g, Pow(g.generator, b) % g.factor))
            && (fromB.Ok? <==> Accepts(g, Pow(g.generator, a) % g.factor))
            && (fromA.Ok? && fromB.Ok? ==> fromA.value.1 == fromB.value.1 && |fromA.value.1| == g.Width())
  {
    SharedKeyIs(g, a, b);
    SharedKeyIs(g, b, a);
    assert a * b == b * a;
  }
}
