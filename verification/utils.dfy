/** The copy of the name hash in utils.h, used by the offline table
    generator, written as the loop it is. */
module Utils {
  import NameHash

  /** `Hash(byte, size)`: the accumulator starts at the offset basis; while
      `size` is positive, `byte[size - 1]` is mixed in by one FNV-1a step and
      `size` goes down by one. The step is the one hash.h uses, since the two
      functions have the same text. */
  method Hash(bytes: seq<bv8>, size: nat) returns (h: bv64)
    requires size <= |bytes|
    ensures h == NameHash.Hash(bytes, size)
    ensures h == NameHash.Fnv1a(NameHash.Reverse(bytes[..size]))
  {
    h := NameHash.OffsetBasis;
    var n: nat := size;
    while n > 0
      invariant n <= size
      invariant NameHash.HashLoop(h, bytes, n) == NameHash.Hash(bytes, size)
      decreases n
    {
      h := NameHash.Step(h, bytes[n - 1]);
      n := n - 1;
    }
  }
}
