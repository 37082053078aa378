/** The name hash of hash.h: 64-bit FNV-1a with the bytes taken from the last
    to the first. */
module NameHash {

  /** The 64-bit FNV offset basis and prime. */
  const OffsetBasis: bv64 := 0xcbf29ce484222325
  const Prime: bv64 := 0x100000001b3

  /** One FNV-1a step: the byte, zero-extended, is xor-ed in, then the
      accumulator is multiplied by the prime modulo 2^64. */
  function Step(acc: bv64, x: bv8): bv64 {
    (acc ^ (x as bv64)) * Prime
  }

  /** FNV-1a from `acc`, taking the bytes first to last. */
  function FnvFrom(acc: bv64, s: seq<bv8>): bv64
    decreases |s|
  {
    if s == [] then acc else FnvFrom(Step(acc, s[0]), s[1..])
  }

  /** Standard FNV-1a. */
  function Fnv1a(s: seq<bv8>): bv64 {
    FnvFrom(OffsetBasis, s)
  }

  function Reverse(s: seq<bv8>): (r: seq<bv8>)
    ensures |r| == |s|
    ensures forall i :: 0 <= i < |s| ==> r[i] == s[|s| - 1 - i]
  {
    if s == [] then [] else [s[|s| - 1]] + Reverse(s[..|s| - 1])
  }

  /** The `while (size > 0)` loop: `byte[size - 1]` is mixed in, then `size`
      goes down by one. From any accumulator, this is forward FNV-1a over the
      prefix read backwards. */
  function HashLoop(acc: bv64, bytes: seq<bv8>, size: nat): (h: bv64)
    requires size <= |bytes|
    ensures h == FnvFrom(acc, Reverse(bytes[..size]))
    decreases size
  {
    if size == 0 then acc
    else
      assert bytes[..size][..size - 1] == bytes[..size - 1];
      HashLoop(Step(acc, bytes[size - 1]), bytes, size - 1)
  }

  /** `Hash(byte, size)`; the caller must provide `size` readable bytes. The
      result is standard FNV-1a of the prefix read backwards. */
  function Hash(bytes: seq<bv8>, size: nat): (h: bv64)
    requires size <= |bytes|
    ensures h == Fnv1a(Reverse(bytes[..size]))
  {
    HashLoop(OffsetBasis, bytes, size)
  }

  /** The step, started from the offset basis, gives the published FNV-1a
      64-bit values of "a" and "foobar". */
  lemma Fnv1aTestVectors()
    ensures Fnv1a([0x61]) == 0xaf63dc4c8601ec8c
    ensures Fnv1a([0x66, 0x6f, 0x6f, 0x62, 0x61, 0x72]) == 0x85944171f73967e8
  {
    assert OffsetBasis ^ 0x61 == 0xcbf29ce484222344 && 0xcbf29ce484222344 * Prime == 0xaf63dc4c8601ec8c;
    FoobarVector();
  }

  lemma FoobarVector()
    ensures Fnv1a([0x66, 0x6f, 0x6f, 0x62, 0x61, 0x72]) == 0x85944171f73967e8
  {
    var s: seq<bv8> := [0x66, 0x6f, 0x6f, 0x62, 0x61, 0x72];
    var h1: bv64, h2: bv64, h3: bv64 := 0xaf63db4c8601ead9, 0x08985907b541d342, 0xdcb27518fed9d577;
    var h4: bv64, h5: bv64 := 0xdd120e790c2512af, 0xcac165afa2fef40a;
    assert OffsetBasis ^ 0x66 == 0xcbf29ce484222343 && 0xcbf29ce484222343 * Prime == h1;
    assert h1 ^ 0x6f == 0xaf63db4c8601eab6 && 0xaf63db4c8601eab6 * Prime == h2;
    assert h2 ^ 0x6f == 0x08985907b541d32d && 0x08985907b541d32d * Prime == h3;
    assert h3 ^ 0x62 == 0xdcb27518fed9d515 && 0xdcb27518fed9d515 * Prime == h4;
    assert h4 ^ 0x61 == 0xdd120e790c2512ce && 0xdd120e790c2512ce * Prime == h5;
    assert h5 ^ 0x72 == 0xcac165afa2fef478 && 0xcac165afa2fef478 * Prime == 0x85944171f73967e8;
    assert s[1..][1..][1..][1..][1..][1..] == [];
  }

  /** With nothing to hash the result is the offset basis. */
  lemma EmptyHash(bytes: seq<bv8>)
    ensures Hash(bytes, 0) == 0xcbf29ce484222325
  {
  }

  /** Only the first `size` bytes are read. */
  lemma HashReadsPrefix(a: seq<bv8>, b: seq<bv8>, size: nat)
    requires size <= |a| && size <= |b| && a[..size] == b[..size]
    ensures Hash(a, size) == Hash(b, size)
  {
  }

  lemma {:induction false} FnvFromAppend(acc: bv64, s: seq<bv8>, x: bv8)
    ensures FnvFrom(acc, s + [x]) == Step(FnvFrom(acc, s), x)
    decreases |s|
  {
    if s != [] {
      assert (s + [x])[1..] == s[1..] + [x];
      FnvFromAppend(Step(acc, s[0]), s[1..], x);
    }
  }

  /** The first byte is the last one mixed in: hashing one more byte in front
      is one more step after hashing the rest. */
  lemma HashPrepend(x: bv8, s: seq<bv8>)
    ensures Hash([x] + s, |s| + 1) == Step(Hash(s, |s|), x)
  {
    var t := [x] + s;
    assert t[..|t|] == t && s[..|s|] == s;
    assert Reverse(t) == Reverse(s) + [x];
    FnvFromAppend(OffsetBasis, Reverse(s), x);
  }

  /** The hash of the attribute name "Code". */
  lemma HashOfCode()
    ensures Hash([0x43, 0x6f, 0x64, 0x65], 4) == 0x3a5a12602c5b1a2e
  {
    var s: seq<bv8> := [0x43, 0x6f, 0x64, 0x65];
    var h1: bv64, h2: bv64, h3: bv64 := 0xaf63d84c8601e5c0, 0x088e2e07b53935ac, 0xc2cdfa18f0365a59;
    assert OffsetBasis ^ 0x65 == 0xcbf29ce484222340 && 0xcbf29ce484222340 * Prime == h1;
    assert h1 ^ 0x64 == 0xaf63d84c8601e5a4 && 0xaf63d84c8601e5a4 * Prime == h2;
    assert h2 ^ 0x6f == 0x088e2e07b53935c3 && 0x088e2e07b53935c3 * Prime == h3;
    assert h3 ^ 0x43 == 0xc2cdfa18f0365a1a && 0xc2cdfa18f0365a1a * Prime == 0x3a5a12602c5b1a2e;
    assert HashLoop(h3, s, 1) == 0x3a5a12602c5b1a2e;
    assert HashLoop(h2, s, 2) == 0x3a5a12602c5b1a2e;
    assert HashLoop(h1, s, 3) == 0x3a5a12602c5b1a2e;
  }
}
