/** Reference definition of big-endian (most significant byte first) unsigned
    integers, against which the reader's hand-composed reads are stated. */
module BigEndian {
  import opened Types

  /** The number of values an `n`-byte field can hold. */
  function Pow256(n: nat): (p: nat)
    ensures p >= 1
  {
    if n == 0 then 1 else 256 * Pow256(n - 1)
  }

  /** The unsigned value of `s`, first byte most significant. */
  function Value(s: seq<u8>): (v: nat)
    ensures v < Pow256(|s|)
  {
    if s == [] then 0 else Value(s[..|s| - 1]) * 256 + s[|s| - 1]
  }

  /** The low `width` bytes of `v`, most significant first. */
  function Encode(v: nat, width: nat): (s: seq<u8>)
    ensures |s| == width
  {
    if width == 0 then [] else Encode(v / 256, width - 1) + [v % 256]
  }

  lemma EncodeOneByte(t: nat)
    requires t < 0x100
    ensures Encode(t, 1) == [t]
  {
    assert Encode(t, 1) == Encode(t / 256, 0) + [t % 256];
  }

  lemma {:induction false} ValueOfEncode(v: nat, width: nat)
    requires v < Pow256(width)
    ensures Value(Encode(v, width)) == v
  {
    if width > 0 {
      var s := Encode(v, width);
      var q, r := v / 256, v % 256;
      assert s == Encode(q, width - 1) + [r];
      assert s[..width - 1] == Encode(q, width - 1);
      DivBound(v, Pow256(width - 1));
      ValueOfEncode(q, width - 1);
      assert Value(s) == q * 256 + r;
    }
  }

  lemma DivBound(v: nat, p: nat)
    requires v < 256 * p
    ensures v / 256 < p
  {
  }

  lemma Regroup(a: nat, p: nat, c: nat, x: nat)
    ensures (a * p + c) * 256 + x == a * (256 * p) + (c * 256 + x)
  {
  }

  lemma {:induction false} EncodeOfValue(s: seq<u8>)
    ensures Encode(Value(s), |s|) == s
  {
    if s != [] {
      var p := s[..|s| - 1];
      var x := s[|s| - 1];
      var v := Value(s);
      assert v == Value(p) * 256 + x;
      SplitByte(Value(p), x);
      assert Encode(v, |s|) == Encode(Value(p), |p|) + [x];
      EncodeOfValue(p);
      assert s == p + [x];
    }
  }

  /** The last byte of a value and the value above it. */
  lemma SplitByte(a: nat, x: nat)
    requires x < 256
    ensures (a * 256 + x) / 256 == a && (a * 256 + x) % 256 == x
  {
  }

  /** Splitting a field: the high part counts `Pow256(|c|)` times. */
  lemma {:induction false} ValueAppend(a: seq<u8>, c: seq<u8>)
    ensures Value(a + c) == Value(a) * Pow256(|c|) + Value(c)
  {
    if c == [] {
      assert a + c == a;
    } else {
      var c' := c[..|c| - 1];
      assert (a + c)[..|a + c| - 1] == a + c';
      ValueAppend(a, c');
      assert c[..|c| - 1] == c';
      Regroup(Value(a), Pow256(|c'|), Value(c'), c[|c| - 1]);
    }
  }
}
