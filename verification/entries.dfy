/** Constant-pool entries as the scan in oclass.c recognises them: the tag byte,
    the fixed-width fields that follow it, and which of those fields are
    constant-pool indices that the scan range-checks. */
module Entries {
  import opened Types
  import opened Builds
  import opened Cursor
  import BigEndian

  datatype RefKind = FieldRef | MethodRef | InterfaceMethodRef

  /** One entry. Utf8 keeps its raw bytes (nothing is decoded); Float and Double
      keep their bit patterns as two 32-bit halves (nothing is interpreted). */
  datatype Entry =
    | Utf8(bytes: seq<u8>)
    | Integer(bits: u32)
    | Float(bits: u32)
    | Long(high: u32, low: u32)
    | Double(high: u32, low: u32)
    | Class(name: u16)
    | String(utf8: u16)
    | Ref(kind: RefKind, owner: u16, nameAndType: u16)
    | NameAndType(name: u16, descriptor: u16)
    | MethodHandle(referenceKind: u8, reference: u16)
    | MethodType(descriptor: u16)
    | InvokeDynamic(bootstrap: u16, nameAndType: u16)

  /** The tags the scan's switch has a case for. */
  const KnownTags: set<nat> := {1, 3, 4, 5, 6, 7, 8, 9, 10, 11, 12, 15, 16, 17}

  function Tag(e: Entry): (t: u8)
    ensures t in KnownTags
  {
    match e
    case Utf8(_) => 1
    case Integer(_) => 3
    case Float(_) => 4
    case Long(_, _) => 5
    case Double(_, _) => 6
    case Class(_) => 7
    case String(_) => 8
    case Ref(k, _, _) => (match k case FieldRef => 9 case MethodRef => 10 case InterfaceMethodRef => 11)
    case NameAndType(_, _) => 12
    case MethodHandle(_, _) => 15
    case MethodType(_) => 16
    case InvokeDynamic(_, _) => 17
  }

  /** Long and Double occupy their own slot and the one after it. */
  function Slots(e: Entry): (n: nat)
    ensures 1 <= n <= 2
    ensures n == 2 <==> Tag(e) == 5 || Tag(e) == 6
  {
    if e.Long? || e.Double? then 2 else 1
  }

  /** How many fixed-width fields follow a tag (none for Utf8 and for tags the
      scan rejects). */
  function FieldCount(tag: nat): nat {
    if tag in {3, 4, 7, 8, 16} then 1
    else if tag in KnownTags && tag != 1 then 2
    else 0
  }

  /** The widths of the fields that follow a tag, in the order they are read. */
  function Layout(tag: nat, build: Build): (ws: seq<Width>)
    ensures |ws| == FieldCount(tag)
  {
    if tag == 3 || tag == 4 then [Four]
    else if tag == 5 || tag == 6 then [Four, Four]
    else if tag == 7 || tag == 8 || tag == 16 then [Two]
    else if 9 <= tag <= 12 || tag == 17 then [Two, Two]
    else if tag == 15 then [One, if ByteWideHandleIndex(build) then One else Two]
    else []
  }

  /** The fixed-width fields of an entry, in reading order. */
  function Fields(e: Entry): (fs: seq<nat>)
    ensures e.Utf8? || |fs| == FieldCount(Tag(e))
  {
    match e
    case Utf8(_) => []
    case Integer(x) => [x]
    case Float(x) => [x]
    case Long(h, l) => [h, l]
    case Double(h, l) => [h, l]
    case Class(n) => [n]
    case String(s) => [s]
    case Ref(_, c, nt) => [c, nt]
    case NameAndType(n, d) => [n, d]
    case MethodHandle(k, r) => [k, r]
    case MethodType(d) => [d]
    case InvokeDynamic(bs, nt) => [bs, nt]
  }

  /** The entry a tag and its field values denote: the inverse of `Tag` and
      `Fields`. */
  function Make(tag: nat, fs: seq<nat>, build: Build): (e: Entry)
    requires tag in KnownTags && tag != 1
    requires Fit(fs, Layout(tag, build))
    ensures Tag(e) == tag && Fields(e) == fs
  {
    if tag == 3 then Integer(fs[0])
    else if tag == 4 then Float(fs[0])
    else if tag == 5 then Long(fs[0], fs[1])
    else if tag == 6 then Double(fs[0], fs[1])
    else if tag == 7 then Class(fs[0])
    else if tag == 8 then String(fs[0])
    else if tag == 9 then Ref(FieldRef, fs[0], fs[1])
    else if tag == 10 then Ref(MethodRef, fs[0], fs[1])
    else if tag == 11 then Ref(InterfaceMethodRef, fs[0], fs[1])
    else if tag == 12 then NameAndType(fs[0], fs[1])
    else if tag == 15 then MethodHandle(fs[0], fs[1])
    else if tag == 16 then MethodType(fs[0])
    else InvokeDynamic(fs[0], fs[1])
  }

  /** Every field fits the width the build reads it with; a Utf8 length fits in
      16 bits. */
  predicate Shaped(e: Entry, build: Build) {
    if e.Utf8? then |e.bytes| < 0x1_0000 else Fit(Fields(e), Layout(Tag(e), build))
  }

  /** The range check of oclass.c's `check_index`: an index is refused when it is
      zero or greater than the pool count minus one. */
  function IndexAccepted(i: nat, count: int): (ok: bool)
    ensures ok <==> 1 <= i < count
  {
    !(i == 0 || i > count - 1)
  }

  /** The indices the scan range-checks. The InvokeDynamic bootstrap index is
      read but not checked. */
  predicate IndicesAccepted(e: Entry, count: int) {
    match e
    case Class(n) => IndexAccepted(n, count)
    case String(s) => IndexAccepted(s, count)
    case Ref(_, c, nt) => IndexAccepted(c, count) && IndexAccepted(nt, count)
    case NameAndType(n, d) => IndexAccepted(n, count) && IndexAccepted(d, count)
    case MethodHandle(_, r) => IndexAccepted(r, count)
    case MethodType(d) => IndexAccepted(d, count)
    case InvokeDynamic(_, nt) => IndexAccepted(nt, count)
    case _ => true
  }

  /** The positions, among the fields a tag's case reads, of those passed to
      `check_index`: the first for Class, String and MethodType, both for the
      Refs and NameAndType, the second for MethodHandle and InvokeDynamic, and
      none for the numeric constants. */
  function CheckedFields(tag: nat): set<nat> {
    if tag in {7, 8, 16} then {0}
    else if tag in {9, 10, 11, 12} then {0, 1}
    else if tag in {15, 17} then {1}
    else {}
  }

  /** An entry passes its index checks exactly when every field at a checked
      position lies in 1..count - 1. */
  lemma IndicesAcceptedByPosition(e: Entry, count: int)
    ensures forall k :: k in CheckedFields(Tag(e)) ==> k < |Fields(e)|
    ensures IndicesAccepted(e, count) <==>
      forall k :: k in CheckedFields(Tag(e)) ==> IndexAccepted(Fields(e)[k], count)
  {
    var c := CheckedFields(Tag(e));
    if e.Class? || e.String? || e.MethodType? {
      assert c == {0};
    } else if e.Ref? || e.NameAndType? {
      assert Tag(e) in {9, 10, 11, 12};
      assert c == {0, 1} && 0 in c && 1 in c;
    } else if e.MethodHandle? || e.InvokeDynamic? {
      assert c == {1};
    } else {
      assert c == {};
    }
  }

  /** The bytes of one entry as the build reads it: the tag, then its body. */
  function Encode(e: Entry, build: Build): seq<u8> {
    BigEndian.Encode(Tag(e), 1) + Body(e, build)
  }

  /** What follows the tag: a 16-bit length and the raw bytes for Utf8, the
      big-endian fields for everything else. */
  function Body(e: Entry, build: Build): seq<u8> {
    if e.Utf8? then Utf8Body(e.bytes)
    else EncodeFields(Fields(e), Layout(Tag(e), build))
  }

  function Utf8Body(s: seq<u8>): seq<u8> {
    BigEndian.Encode(|s|, 2) + s
  }

  /** The number of bytes each kind of entry occupies. */
  lemma EncodedSize(e: Entry, build: Build)
    ensures |Encode(e, build)| == 1 + match e
      case Utf8(s) => 2 + |s|
      case Integer(_) => 4
      case Float(_) => 4
      case Long(_, _) => 8
      case Double(_, _) => 8
      case Class(_) => 2
      case String(_) => 2
      case MethodType(_) => 2
      case Ref(_, _, _) => 4
      case NameAndType(_, _) => 4
      case InvokeDynamic(_, _) => 4
      case MethodHandle(_, _) => if ByteWideHandleIndex(build) then 2 else 3
  {
    var ws := Layout(Tag(e), build);
    assert |Encode(e, build)| == 1 + |Body(e, build)|;
    if |ws| == 1 {
      assert ws[1..] == [];
    } else if |ws| == 2 {
      assert ws[1..][1..] == [];
      assert TotalSize(ws[1..]) == Size(ws[1]);
      assert TotalSize(ws) == Size(ws[0]) + Size(ws[1]);
    }
  }

  /** `Make` recovers any well-shaped entry from its tag and fields. */
  lemma MakeOfFields(e: Entry, build: Build)
    requires !e.Utf8? && Shaped(e, build)
    ensures Make(Tag(e), Fields(e), build) == e
  {
  }
}
