/** The byte cursor of oclass.c: big-endian reads over an immutable buffer that
    advance an offset. The C reads are unchecked; here a read that would leave
    the buffer yields `PastEnd` instead of touching memory that is not there. */
module Cursor {
  import opened Types
  import BigEndian

  /** The outcome of one read: the value and the offset just after it, or the
      offset of the read that would have left the buffer. */
  datatype Read<+T> = Got(value: T, next: nat) | PastEnd(at: nat)

  lemma ValueOfOne(s: seq<u8>)
    requires |s| == 1
    ensures BigEndian.Value(s) == s[0]
  {
    assert s[..0] == [];
  }

  lemma ValueOfTwo(s: seq<u8>)
    requires |s| == 2
    ensures BigEndian.Value(s) == s[0] as nat * 0x100 + s[1]
  {
    assert s[..1][..0] == [];
  }

  function ReadU8(b: seq<u8>, o: nat): (r: Read<u8>)
    ensures r.Got? <==> o + 1 <= |b|
    ensures r.Got? ==> r.next == o + 1
  {
    if o + 1 <= |b| then Got(b[o], o + 1) else PastEnd(o)
  }

  /** The high byte is shifted left by eight and or-ed with the low byte; the two
      never overlap, so this is a multiply and an add. */
  function ReadU16(b: seq<u8>, o: nat): (r: Read<u16>)
    ensures r.Got? <==> o + 2 <= |b|
    ensures r.Got? ==> r.next == o + 2
  {
    if o + 2 <= |b| then Got(b[o] as nat * 0x100 + b[o + 1], o + 2) else PastEnd(o)
  }

  /** The 16-bit word at `i`, as a successful `ReadU16` there returns it. */
  function Word(b: seq<u8>, i: nat): (w: u16)
    requires i + 2 <= |b|
    ensures ReadU16(b, i) == Got(w, i + 2)
  {
    b[i] as nat * 0x100 + b[i + 1]
  }

  /** Two 16-bit reads, the first one high. */
  function ReadU32(b: seq<u8>, o: nat): (r: Read<u32>)
    ensures r.Got? <==> o + 4 <= |b|
    ensures r.Got? ==> r.next == o + 4
  {
    match ReadU16(b, o)
    case PastEnd(at) => PastEnd(at)
    case Got(hi, m) =>
      match ReadU16(b, m)
      case PastEnd(at) => PastEnd(at)
      case Got(lo, n) => Got(hi * 0x1_0000 + lo, n)
  }

  /** Two 32-bit reads, the first one high. */
  function ReadU64(b: seq<u8>, o: nat): (r: Read<u64>)
    ensures r.Got? <==> o + 8 <= |b|
    ensures r.Got? ==> r.next == o + 8
  {
    match ReadU32(b, o)
    case PastEnd(at) => PastEnd(at)
    case Got(hi, m) =>
      match ReadU32(b, m)
      case PastEnd(at) => PastEnd(at)
      case Got(lo, n) => Got(hi * 0x1_0000_0000 + lo, n)
  }

  /** Each reader yields the big-endian value of the bytes it passed over. */
  lemma ReadU8Value(b: seq<u8>, o: nat)
    requires o + 1 <= |b|
    ensures ReadU8(b, o).value == BigEndian.Value(b[o..o + 1])
  {
    ValueOfOne(b[o..o + 1]);
  }

  lemma ReadU16Value(b: seq<u8>, o: nat)
    requires o + 2 <= |b|
    ensures ReadU16(b, o).value == BigEndian.Value(b[o..o + 2])
  {
    ValueOfTwo(b[o..o + 2]);
  }

  lemma ReadU32Value(b: seq<u8>, o: nat)
    requires o + 4 <= |b|
    ensures ReadU32(b, o).value == BigEndian.Value(b[o..o + 4])
  {
    ReadU16Value(b, o);
    ReadU16Value(b, o + 2);
    assert b[o..o + 4] == b[o..o + 2] + b[o + 2..o + 4];
    BigEndian.ValueAppend(b[o..o + 2], b[o + 2..o + 4]);
  }

  lemma ReadU64Value(b: seq<u8>, o: nat)
    requires o + 8 <= |b|
    ensures ReadU64(b, o).value == BigEndian.Value(b[o..o + 8])
  {
    ReadU32Value(b, o);
    ReadU32Value(b, o + 4);
    assert BigEndian.Pow256(4) == 0x1_0000_0000;
    assert b[o..o + 8] == b[o..o + 4] + b[o + 4..o + 8];
    BigEndian.ValueAppend(b[o..o + 4], b[o + 4..o + 8]);
  }

  /** A 16-bit read over the encoding of `v` yields `v`. */
  lemma ReadU16At(b: seq<u8>, o: nat, v: nat)
    requires v < 0x1_0000 && o + 2 <= |b| && b[o..o + 2] == BigEndian.Encode(v, 2)
    ensures ReadU16(b, o) == Got(v, o + 2)
  {
    ReadU16Value(b, o);
    BigEndian.ValueOfEncode(v, 2);
  }

  /** The bytes a 16-bit read passed over are the encoding of its value. */
  lemma ReadU16Bytes(b: seq<u8>, o: nat)
    requires o + 2 <= |b|
    ensures b[o..o + 2] == BigEndian.Encode(ReadU16(b, o).value, 2)
  {
    ReadU16Value(b, o);
    BigEndian.EncodeOfValue(b[o..o + 2]);
  }

  lemma ReadU32At(b: seq<u8>, o: nat, v: nat)
    requires v < 0x1_0000_0000 && o + 4 <= |b| && b[o..o + 4] == BigEndian.Encode(v, 4)
    ensures ReadU32(b, o) == Got(v, o + 4)
  {
    ReadU32Value(b, o);
    BigEndian.ValueOfEncode(v, 4);
  }

  lemma ReadU32Bytes(b: seq<u8>, o: nat)
    requires o + 4 <= |b|
    ensures b[o..o + 4] == BigEndian.Encode(ReadU32(b, o).value, 4)
  {
    ReadU32Value(b, o);
    BigEndian.EncodeOfValue(b[o..o + 4]);
  }

  /** The widths of the fixed-size fields the constant-pool scan reads. */
  datatype Width = One | Two | Four

  function Size(w: Width): nat {
    match w
    case One => 1
    case Two => 2
    case Four => 4
  }

  /** The number of values a field of width `w` can hold. */
  function Limit(w: Width): nat {
    match w
    case One => 0x100
    case Two => 0x1_0000
    case Four => 0x1_0000_0000
  }

  lemma LimitIsPow256(w: Width)
    ensures Limit(w) == BigEndian.Pow256(Size(w))
  {
    assert BigEndian.Pow256(1) == 0x100;
    assert BigEndian.Pow256(2) == 0x1_0000;
    assert BigEndian.Pow256(4) == 0x1_0000_0000;
  }

  function TotalSize(ws: seq<Width>): nat {
    if ws == [] then 0 else Size(ws[0]) + TotalSize(ws[1..])
  }

  /** One field read with the reader of its width. */
  function ReadField(b: seq<u8>, o: nat, w: Width): (r: Read<nat>)
    ensures r.Got? <==> o + Size(w) <= |b|
    ensures r.Got? ==> r.next == o + Size(w) && r.value < Limit(w)
  {
    match w
    case One => ReadU8(b, o)
    case Two => ReadU16(b, o)
    case Four => ReadU32(b, o)
  }

  lemma ReadFieldValue(b: seq<u8>, o: nat, w: Width)
    requires o + Size(w) <= |b|
    ensures ReadField(b, o, w).value == BigEndian.Value(b[o..o + Size(w)])
  {
    match w
    case One => ReadU8Value(b, o);
    case Two => ReadU16Value(b, o);
    case Four => ReadU32Value(b, o);
  }

  /** `vs` holds one value per width, each small enough for its field. */
  predicate Fit(vs: seq<nat>, ws: seq<Width>) {
    |vs| == |ws| && forall i :: 0 <= i < |ws| ==> vs[i] < Limit(ws[i])
  }

  /** The bytes a sequence of fields occupies, each big-endian. */
  function EncodeFields(vs: seq<nat>, ws: seq<Width>): (s: seq<u8>)
    requires |vs| == |ws|
    ensures |s| == TotalSize(ws)
  {
    if ws == [] then [] else BigEndian.Encode(vs[0], Size(ws[0])) + EncodeFields(vs[1..], ws[1..])
  }

  /** Fields read one after another; the first read that would leave the buffer
      ends the sequence. */
  function ReadFields(b: seq<u8>, o: nat, ws: seq<Width>): (r: Read<seq<nat>>)
    requires o <= |b|
    decreases |ws|
    ensures r.Got? <==> o + TotalSize(ws) <= |b|
    ensures r.Got? ==> r.next == o + TotalSize(ws) && Fit(r.value, ws)
  {
    if ws == [] then
      Got([], o)
    else
      match ReadField(b, o, ws[0])
      case PastEnd(at) => PastEnd(at)
      case Got(v, p) =>
        match ReadFields(b, p, ws[1..])
        case PastEnd(at) => PastEnd(at)
        case Got(vs, n) =>
          FitCons(v, vs, ws);
          Got([v] + vs, n)
  }

  lemma FitCons(v: nat, vs: seq<nat>, ws: seq<Width>)
    requires ws != [] && v < Limit(ws[0]) && Fit(vs, ws[1..])
    ensures Fit([v] + vs, ws)
  {
    forall i | 0 <= i < |ws|
      ensures ([v] + vs)[i] < Limit(ws[i])
    {
      if i > 0 {
        assert ([v] + vs)[i] == vs[i - 1] && ws[i] == ws[1..][i - 1];
      }
    }
  }

  /** The bytes the fields were read from are their encoding. */
  lemma {:induction false} ReadFieldsConsumesEncoding(b: seq<u8>, o: nat, ws: seq<Width>)
    requires o <= |b| && ReadFields(b, o, ws).Got?
    ensures var r := ReadFields(b, o, ws);
      EncodeFields(r.value, ws) == b[o..r.next]
    decreases |ws|
  {
    if ws != [] {
      var p := o + Size(ws[0]);
      ReadFieldsUnfold(b, o, ws);
      ReadFieldsConsumesEncoding(b, p, ws[1..]);
      BigEndian.EncodeOfValue(b[o..p]);
      var r := ReadFields(b, o, ws);
      assert b[o..r.next] == b[o..p] + b[p..r.next];
    }
  }

  lemma ReadFieldsUnfold(b: seq<u8>, o: nat, ws: seq<Width>)
    requires o <= |b| && ws != [] && ReadFields(b, o, ws).Got?
    ensures var p := o + Size(ws[0]);
      var r, rest := ReadFields(b, o, ws), ReadFields(b, p, ws[1..]);
      p <= |b| && rest.Got? && r.next == rest.next
      && r.value[0] == BigEndian.Value(b[o..p]) && r.value[1..] == rest.value
  {
    ReadFieldValue(b, o, ws[0]);
  }

  lemma ReadFieldAt(b: seq<u8>, o: nat, v: nat, w: Width)
    requires o + Size(w) <= |b| && v < Limit(w)
    requires b[o..o + Size(w)] == BigEndian.Encode(v, Size(w))
    ensures ReadField(b, o, w) == Got(v, o + Size(w))
  {
    ReadFieldValue(b, o, w);
    LimitIsPow256(w);
    BigEndian.ValueOfEncode(v, Size(w));
  }

  /** Reading fields back from their encoding yields the values and consumes
      exactly the encoding. */
  lemma {:induction false} ReadFieldsAt(b: seq<u8>, o: nat, n: nat, vs: seq<nat>, ws: seq<Width>)
    requires Fit(vs, ws) && n == o + TotalSize(ws) <= |b|
    requires b[o..n] == EncodeFields(vs, ws)
    ensures ReadFields(b, o, ws) == Got(vs, n)
    decreases |ws|
  {
    if ws != [] {
      var k := Size(ws[0]);
      assert b[o..o + k] == b[o..n][..k];
      ReadFieldAt(b, o, vs[0], ws[0]);
      assert b[o + k..n] == b[o..n][k..];
      assert Fit(vs[1..], ws[1..]);
      ReadFieldsAt(b, o + k, n, vs[1..], ws[1..]);
      assert [vs[0]] + vs[1..] == vs;
    }
  }

}
