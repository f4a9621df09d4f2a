/** Keyed hash objects and the prf+ expansion (section 2.13 of RFC 7296), over slices that share backing arrays. */
module PrfPlus {
  import opened Bytes

  // ----- Hash objects

  /** A keyed hash: a key and a message give `size` bytes. */
  datatype Algorithm = Algorithm(digest: (bytes, bytes) -> bytes, size: nat)

  ghost predicate Sized(a: Algorithm) {
    forall k: bytes, m: bytes :: |a.digest(k, m)| == a.size
  }

  /** A hash object absorbs what is written to it until it is reset. */
  class Hash {
    const alg: Algorithm
    const key: bytes
    var absorbed: bytes

    constructor (alg: Algorithm, key: bytes)
      ensures this.alg == alg && this.key == key && absorbed == []
    {
      this.alg, this.key, absorbed := alg, key, [];
    }

    method Reset()
      modifies this
      ensures absorbed == []
    {
      absorbed := [];
    }

    method Write(b: bytes)
      modifies this
      ensures absorbed == old(absorbed) + b
    {
      absorbed := absorbed + b;
    }

    method Sum() returns (d: bytes)
      ensures d == alg.digest(key, absorbed)
    {
      d := alg.digest(key, absorbed);
    }
  }

  // ----- The expansion as a function

  /** The n-th block; the counter octet is the low byte of `n`. */
  function T(a: Algorithm, key: bytes, s: bytes, n: nat): bytes {
    if n == 0 then [] else a.digest(key, T(a, key, s, n - 1) + s + [n % 0x100])
  }

  /** The first `n` blocks. */
  function Stream(a: Algorithm, key: bytes, s: bytes, n: nat): bytes {
    if n == 0 then [] else Stream(a, key, s, n - 1) + T(a, key, s, n)
  }

  lemma {:induction false} StreamLength(a: Algorithm, key: bytes, s: bytes, n: nat)
    requires Sized(a)
    ensures |Stream(a, key, s, n)| == n * a.size
  {
    if n > 0 {
      StreamLength(a, key, s, n - 1);
      assert n * a.size == (n - 1) * a.size + a.size;
    }
  }

  lemma {:induction false} StreamPrefix(a: Algorithm, key: bytes, s: bytes, m: nat, n: nat)
    requires m <= n
    ensures Stream(a, key, s, m) <= Stream(a, key, s, n)
    decreases n - m
  {
    if m < n {
      StreamPrefix(a, key, s, m, n - 1);
    }
  }

  lemma EnoughBlocks(a: Algorithm, key: bytes, s: bytes, n: nat)
    requires Sized(a) && a.size > 0
    ensures |Stream(a, key, s, n)| >= n
  {
    StreamLength(a, key, s, n);
    assert n * a.size >= n * 1;
  }

  /** The first `length` bytes of the blocks. */
  function Output(a: Algorithm, key: bytes, s: bytes, length: nat): (r: bytes)
    requires Sized(a) && a.size > 0
    ensures |r| == length
  {
    EnoughBlocks(a, key, s, length);
    Stream(a, key, s, length)[..length]
  }

  /** Any number of blocks that is long enough gives the same output. */
  lemma OutputOfBlocks(a: Algorithm, key: bytes, s: bytes, n: nat, length: nat)
    requires Sized(a) && a.size > 0 && length <= |Stream(a, key, s, n)|
    ensures Output(a, key, s, length) == Stream(a, key, s, n)[..length]
  {
    EnoughBlocks(a, key, s, length);
    if n <= length {
      StreamPrefix(a, key, s, n, length);
    } else {
      StreamPrefix(a, key, s, length, n);
    }
  }

  /** A shorter output is a prefix of a longer one. */
  lemma OutputPrefix(a: Algorithm, key: bytes, s: bytes, m: nat, n: nat)
    requires Sized(a) && a.size > 0 && m <= n
    ensures Output(a, key, s, m) <= Output(a, key, s, n)
  {
    EnoughBlocks(a, key, s, n);
    OutputOfBlocks(a, key, s, n, m);
  }

  // ----- Section 2.13 of RFC 7296, where the octet counts up to 255

  function RfcT(a: Algorithm, key: bytes, s: bytes, n: nat): bytes
    requires 1 <= n <= 0xFF
  {
    if n == 1 then a.digest(key, s + [1]) else a.digest(key, RfcT(a, key, s, n - 1) + s + [n])
  }

  function RfcStream(a: Algorithm, key: bytes, s: bytes, n: nat): bytes
    requires n <= 0xFF
  {
    if n == 0 then [] else RfcStream(a, key, s, n - 1) + RfcT(a, key, s, n)
  }

  lemma {:induction false} TIsRfc(a: Algorithm, key: bytes, s: bytes, n: nat)
    requires 1 <= n <= 0xFF
    ensures T(a, key, s, n) == RfcT(a, key, s, n)
  {
    if n > 1 {
      TIsRfc(a, key, s, n - 1);
    } else {
      assert [] + s + [1] == s + [1];
      assert T(a, key, s, 0) == [];
    }
  }

  lemma {:induction false} StreamIsRfc(a: Algorithm, key: bytes, s: bytes, n: nat)
    requires n <= 0xFF
    ensures Stream(a, key, s, n) == RfcStream(a, key, s, n)
  {
    if n > 0 {
      StreamIsRfc(a, key, s, n - 1);
      TIsRfc(a, key, s, n);
    }
  }

  /** Up to 255 blocks, the output is the prefix of T1 | T2 | ... | Tn of the standard, for any n long enough. */
  lemma OutputIsRfc(a: Algorithm, key: bytes, s: bytes, n: nat, length: nat)
    requires Sized(a) && a.size > 0 && n <= 0xFF && length <= n * a.size
    ensures |RfcStream(a, key, s, n)| == n * a.size
    ensures Output(a, key, s, length) == RfcStream(a, key, s, n)[..length]
  {
    StreamIsRfc(a, key, s, n);
    StreamLength(a, key, s, n);
    OutputOfBlocks(a, key, s, n, length);
  }

  // ----- Slices

  /** A nil slice, or `len` bytes from `off` in a backing array with room for `cap`. */
  datatype Slice = Nil | Slice(arr: array<byte>, off: nat, len: nat, cap: nat) {

    ghost predicate Valid() {
      Slice? ==> len <= cap && off + cap <= arr.Length
    }

    function Len(): nat {
      if Nil? then 0 else len
    }

    function Contents(): bytes
      requires Valid()
      reads if Slice? then {arr} else {}
    {
      if Nil? then [] else arr[off..off + len]
    }
  }

  /**
   Appends in place when the capacity allows, or else to a new array of any sufficient size. Only the spare capacity
   behind the slice may change in the old array.
   */
  method Append(s: Slice, x: bytes) returns (r: Slice)
    requires s.Valid()
    modifies if s.Slice? then {s.arr} else {}
    ensures r.Valid() && r.Contents() == old(s.Contents()) + x
    ensures s.Slice? ==> forall i :: 0 <= i < s.off + s.len ==> s.arr[i] == old(s.arr[i])
    ensures r == s || (s.Slice? && r == s.(len := s.len + |x|)) || (r.Slice? && fresh(r.arr))
    ensures x != [] ==> r.Slice?
  {
    if |x| == 0 {
      assert s.Contents() + x == s.Contents();
      return s;
    }
    if s.Slice? && s.len + |x| <= s.cap {
      r := Extend(s, x);
    } else {
      r := Grow(s.Contents() + x);
    }
  }

  method Extend(s: Slice, x: bytes) returns (r: Slice)
    requires s.Valid() && s.Slice? && s.len + |x| <= s.cap
    modifies s.arr
    ensures r == s.(len := s.len + |x|) && r.Contents() == old(s.Contents()) + x
    ensures forall i :: 0 <= i < s.off + s.len ==> s.arr[i] == old(s.arr[i])
  {
    var end := s.off + s.len;
    CopyInto(s.arr, end, x);
    assert s.arr[s.off..end] == old(s.arr[s.off..end]);
    r := s.(len := s.len + |x|);
    assert s.arr[s.off..end + |x|] == s.arr[s.off..end] + s.arr[end..end + |x|];
  }

  method Grow(all: bytes) returns (r: Slice)
    ensures r.Valid() && r.Slice? && fresh(r.arr) && r.Contents() == all
  {
    var capacity :| |all| <= capacity;
    var arr := new byte[capacity](i => if 0 <= i < |all| then all[i] else 0);
    r := Slice(arr, 0, |all|, capacity);
  }

  method CopyInto(arr: array<byte>, at: nat, x: bytes)
    requires at + |x| <= arr.Length
    modifies arr
    ensures arr[at..at + |x|] == x
    ensures forall i :: 0 <= i < at ==> arr[i] == old(arr[i])
  {
    forall i | 0 <= i < |x| {
      arr[at + i] := x[i];
    }
  }

  /** The slice expression `s[:n]`. */
  function Truncate(s: Slice, n: nat): (r: Slice)
    requires s.Valid() && n <= s.Len()
    reads if s.Slice? then {s.arr} else {}
    ensures r.Valid() && r.Contents() == s.Contents()[..n] && (r.Nil? <==> s.Nil?) && (r.Slice? ==> r.arr == s.arr)
  {
    if s.Nil? then Nil else s.(len := n)
  }

  /** `block` is the last `size` bytes of `stream`, in the same array and with the capacity behind them. */
  ghost predicate TailOf(block: Slice, stream: Slice, size: nat)
    requires stream.Valid()
  {
    if stream.Nil? then block.Nil?
    else
      var front := stream.len - size;
      front >= 0 && block == Slice(stream.arr, stream.off + front, size, stream.cap - front)
  }

  /** The scratch append: the seed and the counter behind `block`; the stream keeps its bytes. */
  method Scratch(stream: Slice, block: Slice, s: bytes, octet: byte) returns (input: bytes)
    requires stream.Valid() && block.Valid() && TailOf(block, stream, block.Len())
    modifies if stream.Slice? then {stream.arr} else {}
    ensures input == old(block.Contents()) + s + [octet]
    ensures stream.Contents() == old(stream.Contents())
  {
    var longer := AppendBehind(stream, block, s);
    var longest := AppendBehind(stream, longer, [octet]);
    input := longest.Contents();
  }

  /** `part` ends no earlier than `stream` if both lie in one array. */
  ghost predicate Behind(stream: Slice, part: Slice) {
    stream.Slice? && part.Slice? && part.arr == stream.arr ==> stream.off + stream.len <= part.off + part.len
  }

  /** Appending to a slice that ends behind the stream leaves the stream's contents. */
  method AppendBehind(stream: Slice, part: Slice, x: bytes) returns (r: Slice)
    requires stream.Valid() && part.Valid() && Behind(stream, part)
    modifies if part.Slice? then {part.arr} else {}
    ensures r.Valid() && Behind(stream, r) && r.Contents() == old(part.Contents()) + x
    ensures stream.Contents() == old(stream.Contents())
    ensures r.Slice? ==> fresh(r.arr) || (part.Slice? && r.arr == part.arr)
  {
    r := Append(part, x);
  }

  /**
   One round. Appending the seed and the counter to `block` may write into the spare capacity behind `stream`, but
   never touches what `stream` holds; the digest is then appended to `stream` itself.
   */
  method Round(prf: Hash, stream: Slice, block: Slice, s: bytes, octet: byte) returns (r: Slice, tail: Slice)
    requires Sized(prf.alg) && prf.alg.size > 0
    requires stream.Valid() && block.Valid() && TailOf(block, stream, prf.alg.size)
    modifies prf, if stream.Slice? then {stream.arr} else {}
    ensures r.Valid() && r.Slice? && r.Len() == stream.Len() + prf.alg.size
    ensures fresh(r.arr) || (stream.Slice? && r.arr == stream.arr)
    ensures tail.Valid() && TailOf(tail, r, prf.alg.size)
    ensures tail.Contents() == prf.alg.digest(prf.key, old(block.Contents()) + s + [octet])
    ensures r.Contents() == old(stream.Contents()) + tail.Contents()
  {
    ghost var held, message := stream.Contents(), block.Contents() + s + [octet];
    prf.Reset();
    var input := Scratch(stream, block, s, octet);
    assert [] + input == input;
    prf.Write(input);
    var digest := prf.Sum();
    assert stream.Contents() == held && digest == prf.alg.digest(prf.key, message);
    r := Append(stream, digest);
    tail := LastOf(r, |digest|);
    assert (held + digest)[|held|..] == digest;
  }

  /** The slice expression `s[len(s) - n:]`. */
  function LastOf(s: Slice, n: nat): (r: Slice)
    requires s.Valid() && s.Slice? && n <= s.len
    reads s.arr
    ensures r.Valid() && TailOf(r, s, n) && r.Contents() == s.Contents()[s.len - n..]
  {
    Slice(s.arr, s.off + s.len - n, n, s.cap - (s.len - n))
  }

  /** `stream` holds the first `n` blocks, and `block` is the last of them. */
  ghost predicate Expanded(prf: Hash, s: bytes, stream: Slice, block: Slice, n: nat)
    reads if stream.Slice? then {stream.arr} else {}, if block.Slice? then {block.arr} else {}
  {
    && stream.Valid() && block.Valid() && TailOf(block, stream, prf.alg.size)
    && stream.Contents() == Stream(prf.alg, prf.key, s, n) && block.Contents() == T(prf.alg, prf.key, s, n)
  }

  method NextBlock(prf: Hash, stream: Slice, block: Slice, s: bytes, i: nat) returns (r: Slice, tail: Slice)
    requires Sized(prf.alg) && prf.alg.size > 0 && i >= 1 && Expanded(prf, s, stream, block, i - 1)
    modifies prf, if stream.Slice? then {stream.arr} else {}
    ensures Expanded(prf, s, r, tail, i)
    ensures r.Slice? && r.Len() > stream.Len() && (fresh(r.arr) || (stream.Slice? && r.arr == stream.arr))
  {
    r, tail := Round(prf, stream, block, s, i % 0x100);
  }

  /** The expansion; its result depends on the hash's key only, not on what the hash absorbed before. */
  method PrfPlus(prf: Hash, s: bytes, streamLen: nat) returns (r: Slice)
    requires Sized(prf.alg) && prf.alg.size > 0
    modifies prf
    ensures r.Valid() && (r.Slice? ==> fresh(r.arr))
    ensures r.Contents() == Output(prf.alg, prf.key, s, streamLen)
    ensures r.Nil? <==> streamLen == 0
  {
    ghost var n;
    var stream;
    stream, n := Expand(prf, s, streamLen);
    OutputOfBlocks(prf.alg, prf.key, s, n, streamLen);
    r := Truncate(stream, streamLen);
  }

  /** Appends block after block until there are enough bytes. */
  method Expand(prf: Hash, s: bytes, streamLen: nat) returns (stream: Slice, ghost n: nat)
    requires Sized(prf.alg) && prf.alg.size > 0
    modifies prf
    ensures stream.Valid() && stream.Len() >= streamLen && (stream.Slice? ==> fresh(stream.arr))
    ensures stream.Contents() == Stream(prf.alg, prf.key, s, n)
    ensures stream.Nil? <==> streamLen == 0
  {
    stream, n := Nil, 0;
    var block := Nil;
    var i := 1;
    while stream.Len() < streamLen
      invariant i == n + 1 && Expanded(prf, s, stream, block, n)
      invariant stream.Slice? ==> streamLen > 0 && fresh(stream.arr)
      decreases streamLen - stream.Len()
    {
      stream, block := NextBlock(prf, stream, block, s, i);
      n := i;
      i := i + 1;
    }
  }
}
