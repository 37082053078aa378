/** The constant-pool scan of oclass.c's `ParseFile`: one forward pass that
    switches on each tag byte, consumes that entry's fields, range-checks the
    indices among them and steps the slot counter by one, or by two for Long
    and Double. */
module ConstantPool {
  import opened Types
  import opened Builds
  import opened Cursor
  import opened Entries
  import opened Outcome
  import BigEndian

  datatype Step = Next(entry: Entry, next: nat) | Stop(status: Status)

  /** The Utf8 case, after the tag: a 16-bit length, refused when the string's
      end would reach the end of the file, then that many bytes skipped without
      decoding. */
  function ReadUtf8(b: seq<u8>, p: nat): (r: Step)
    ensures r.Next? ==> r.entry.Utf8? && |r.entry.bytes| < 0x1_0000 && p + 2 <= r.next < |b|
    ensures r.Stop? ==> r.status == FormatError || r.status.Undefined?
    ensures p + 2 <= |b| && r.Stop? ==> r.status == FormatError
  {
    match ReadU16(b, p)
    case PastEnd(at) => Stop(Undefined(ReadPastEnd(at)))
    case Got(length, q) =>
      if q + length >= |b| then Stop(FormatError) else Next(Utf8(b[q..q + length]), q + length)
  }

  /** Once the length is readable, the entry is refused, with -4, exactly when
      the string would reach the end of the file. */
  lemma ReadUtf8RefusedIff(b: seq<u8>, p: nat)
    requires p + 2 <= |b|
    ensures ReadUtf8(b, p) == Stop(FormatError) <==> p + 2 + BigEndian.Value(b[p..p + 2]) >= |b|
  {
    ReadU16Value(b, p);
  }

  /** A Utf8 entry read back occupies its length field and its bytes. */
  lemma ReadUtf8ConsumesBody(b: seq<u8>, p: nat)
    requires ReadUtf8(b, p).Next?
    ensures var r := ReadUtf8(b, p); b[p..r.next] == Utf8Body(r.entry.bytes)
  {
    var r := ReadUtf8(b, p);
    BigEndian.EncodeOfValue(b[p..p + 2]);
    assert b[p..r.next] == b[p..p + 2] + b[p + 2..r.next];
  }

  /** The cases with fixed-width fields, after the tag: all fields are read,
      then the indices among them are range-checked. */
  function ReadFixed(b: seq<u8>, p: nat, tag: nat, count: u16, build: Build): (r: Step)
    requires p <= |b| && tag in KnownTags && tag != 1
    ensures r.Next? ==> p < r.next <= |b|
    ensures r.Stop? ==> r.status == FormatError || r.status.Undefined?
  {
    match ReadFields(b, p, Layout(tag, build))
    case PastEnd(at) => Stop(Undefined(ReadPastEnd(at)))
    case Got(fs, q) =>
      var e := Make(tag, fs, build);
      if IndicesAccepted(e, count) then Next(e, q) else Stop(FormatError)
  }

  /** A fixed-width entry read back has the tag it was read under, fits the
      widths it was read with, passed the index checks, and occupies exactly its
      encoded fields. */
  lemma ReadFixedConsumesBody(b: seq<u8>, p: nat, tag: nat, count: u16, build: Build)
    requires p <= |b| && tag in KnownTags && tag != 1
    requires ReadFixed(b, p, tag, count, build).Next?
    ensures var r := ReadFixed(b, p, tag, count, build);
      Tag(r.entry) == tag && Shaped(r.entry, build) && IndicesAccepted(r.entry, count)
      && b[p..r.next] == Body(r.entry, build)
  {
    ReadFieldsConsumesEncoding(b, p, Layout(tag, build));
  }

  /** One iteration of the scan loop, starting at the tag byte. */
  function ReadEntry(b: seq<u8>, o: nat, count: u16, build: Build): (r: Step)
    ensures r.Next? ==> o < r.next <= |b|
    ensures r.Stop? ==> r.status == FormatError || r.status.Undefined?
  {
    match ReadU8(b, o)
    case PastEnd(at) => Stop(Undefined(ReadPastEnd(at)))
    case Got(tag, p) =>
      if tag == 1 then ReadUtf8(b, p)
      else if tag !in KnownTags then Stop(FormatError)
      else ReadFixed(b, p, tag, count, build)
  }

  /** An accepted entry carries the tag byte it was read under, fits the widths
      it was read with, passed the index checks (a Utf8 entry also left at
      least one byte after it), and occupies exactly its own encoding. */
  lemma ReadEntryConsumesEncoding(b: seq<u8>, o: nat, count: u16, build: Build)
    requires ReadEntry(b, o, count, build).Next?
    ensures var r := ReadEntry(b, o, count, build);
      Tag(r.entry) == b[o] && Shaped(r.entry, build) && IndicesAccepted(r.entry, count)
      && (r.entry.Utf8? ==> r.next < |b|)
      && o < r.next <= |b| && b[o..r.next] == Encode(r.entry, build)
  {
    var r := ReadEntry(b, o, count, build);
    var tag := b[o];
    ValueOfOne(b[o..o + 1]);
    BigEndian.EncodeOfValue(b[o..o + 1]);
    if tag == 1 {
      ReadUtf8ConsumesBody(b, o + 1);
    } else {
      ReadFixedConsumesBody(b, o + 1, tag, count, build);
    }
    JoinSlices(b, o, o + 1, r.next, BigEndian.Encode(tag, 1), Body(r.entry, build));
  }

  /** A tag byte the switch has no case for ends the scan with a format error. */
  lemma UnknownTagRejected(b: seq<u8>, o: nat, count: u16, build: Build)
    requires o < |b| && b[o] !in KnownTags
    ensures ReadEntry(b, o, count, build) == Stop(FormatError)
  {
    ValueOfOne(b[o..o + 1]);
  }

  lemma JoinSlices(b: seq<u8>, i: nat, j: nat, k: nat, x: seq<u8>, y: seq<u8>)
    requires i <= j <= k <= |b| && b[i..j] == x && b[j..k] == y
    ensures b[i..k] == x + y
  {
    assert b[i..k] == b[i..j] + b[j..k];
  }

  lemma SplitSlices(b: seq<u8>, i: nat, k: nat, x: seq<u8>, y: seq<u8>)
    requires i + |x| + |y| == k <= |b| && b[i..k] == x + y
    ensures b[i..i + |x|] == x && b[i + |x|..k] == y
  {
    assert b[i..i + |x|] == b[i..k][..|x|];
    assert b[i + |x|..k] == b[i..k][|x|..];
  }

  /** A Utf8 body spanning `p` to `n` is read back as its entry. */
  lemma ReadUtf8OfBody(b: seq<u8>, p: nat, n: nat, e: Entry)
    requires e.Utf8? && |e.bytes| < 0x1_0000
    requires n == p + |Utf8Body(e.bytes)| < |b| && b[p..n] == Utf8Body(e.bytes)
    ensures ReadUtf8(b, p) == Next(e, n)
  {
    var body := Utf8Body(e.bytes);
    assert b[p..p + 2] == body[..2] == BigEndian.Encode(|e.bytes|, 2);
    BigEndian.ValueOfEncode(|e.bytes|, 2);
    ReadU16Value(b, p);
    assert b[p + 2..n] == body[2..] == e.bytes;
  }

  /** A fixed-width body spanning `p` to `n` is read back as its entry, which
      is then accepted exactly when its indices pass the range check. */
  lemma ReadFixedOfBody(b: seq<u8>, p: nat, n: nat, e: Entry, count: u16, build: Build)
    requires !e.Utf8? && Shaped(e, build)
    requires n == p + |Body(e, build)| <= |b| && b[p..n] == Body(e, build)
    ensures ReadFixed(b, p, Tag(e), count, build)
      == if IndicesAccepted(e, count) then Next(e, n) else Stop(FormatError)
  {
    ReadFieldsAt(b, p, n, Fields(e), Layout(Tag(e), build));
    MakeOfFields(e, build);
  }

  /** The dispatch on a Utf8 tag byte. */
  lemma DispatchUtf8(b: seq<u8>, o: nat, count: u16, build: Build)
    requires o < |b| && b[o] == 1
    ensures ReadEntry(b, o, count, build) == ReadUtf8(b, o + 1)
  {
  }

  /** The dispatch on the tag byte of a fixed-width entry. */
  lemma DispatchFixed(b: seq<u8>, o: nat, count: u16, build: Build)
    requires o < |b| && b[o] in KnownTags && b[o] != 1
    ensures ReadEntry(b, o, count, build) == ReadFixed(b, o + 1, b[o], count, build)
  {
  }

  /** Reading an entry back from its encoding, which spans `o` to `n`: it is
      accepted exactly when its indices pass the range check, and then it is
      the entry and it consumes the whole encoding. A Utf8 entry needs at least
      one byte after it. */
  lemma ReadEntryOfEncoding(b: seq<u8>, o: nat, n: nat, e: Entry, count: u16, build: Build)
    requires Shaped(e, build)
    requires n == o + |Encode(e, build)| <= |b| && b[o..n] == Encode(e, build)
    requires e.Utf8? ==> n < |b|
    ensures ReadEntry(b, o, count, build)
      == if IndicesAccepted(e, count) then Next(e, n) else Stop(FormatError)
  {
    var body := Body(e, build);
    BigEndian.EncodeOneByte(Tag(e));
    assert Encode(e, build) == [Tag(e)] + body;
    assert b[o] == b[o..n][0] == Tag(e);
    assert b[o + 1..n] == b[o..n][1..] == body;
    if e.Utf8? {
      DispatchUtf8(b, o, count, build);
      ReadUtf8OfBody(b, o + 1, n, e);
    } else {
      DispatchFixed(b, o, count, build);
      ReadFixedOfBody(b, o + 1, n, e, count, build);
    }
  }

  /** The slot counter after an entry of `slots` slots. The C counter is a `u8`,
      so in the as-written build it wraps modulo 256. */
  function Advance(index: nat, slots: nat, build: Build): (r: nat)
    ensures WrapsPoolCounter(build) ==> r < 256
    ensures r == index + slots <==> !WrapsPoolCounter(build) || index + slots < 256
  {
    if WrapsPoolCounter(build) then (index + slots) % 256 else index + slots
  }

  /** The C's `index++` on a `u8`: 255 steps to 0. */
  function U8Inc(i: u8): u8 {
    if i == 255 then 0 else i + 1
  }

  /** As written, the counter after an entry is what the C's increments give:
      the loop's `index++`, preceded by `index += 1` for Long and Double. */
  lemma AdvanceIsIncrements(index: u8)
    ensures Advance(index, 1, AsWritten) == U8Inc(index)
    ensures Advance(index, 2, AsWritten) == U8Inc(U8Inc(index))
  {
  }

  /** `es` is the sequence of entries the loop visits when the counter starts at
      `index`: each entry starts while the counter is below the count, and the
      counter has reached the count after the last one. */
  predicate Fills(es: seq<Entry>, index: nat, count: nat, build: Build)
    decreases |es|
  {
    if es == [] then index >= count
    else index < count && Fills(es[1..], Advance(index, Slots(es[0]), build), count, build)
  }

  /** Every entry fits its widths and passes the index checks. */
  predicate AllAccepted(es: seq<Entry>, count: nat, build: Build)
    decreases |es|
  {
    es == [] || (Shaped(es[0], build) && IndicesAccepted(es[0], count) && AllAccepted(es[1..], count, build))
  }

  function EncodePool(es: seq<Entry>, build: Build): seq<u8> {
    if es == [] then [] else Encode(es[0], build) + EncodePool(es[1..], build)
  }

  datatype Scan = Scanned(entries: seq<Entry>, next: nat) | Halted(status: Status)

  /** The scan loop, started with the slot counter at `index`: while the
      counter is below the pool count, an entry is read and the counter steps
      past its slots. It ends only when the counter reaches the count or an
      entry is refused; each iteration consumes at least the tag byte, which
      is what bounds it. */
  function ScanPool(b: seq<u8>, o: nat, count: u16, index: nat, build: Build): (r: Scan)
    requires o <= |b|
    decreases |b| - o
    ensures r.Scanned? ==> o <= r.next <= |b|
    ensures r.Halted? ==> r.status == FormatError || r.status.Undefined?
  {
    if index >= count then
      Scanned([], o)
    else
      match ReadEntry(b, o, count, build)
      case Stop(s) => Halted(s)
      case Next(e, n) =>
        match ScanPool(b, n, count, Advance(index, Slots(e), build), build)
        case Halted(s) => Halted(s)
        case Scanned(es, m) =>
          assert ([e] + es)[1..] == es;
          Scanned([e] + es, m)
  }

  /** One turn of the loop, read forwards. */
  lemma ScanPoolUnfold(b: seq<u8>, o: nat, count: u16, index: nat, build: Build)
    requires o <= |b| && index < count && ScanPool(b, o, count, index, build).Scanned?
    ensures var r, s := ScanPool(b, o, count, index, build), ReadEntry(b, o, count, build);
      s.Next? && s.next <= |b| &&
      var rest := ScanPool(b, s.next, count, Advance(index, Slots(s.entry), build), build);
      rest.Scanned? && r.next == rest.next && r.entries == [s.entry] + rest.entries
  {
  }

  /** One turn of the loop, read backwards. */
  lemma ScanPoolFold(b: seq<u8>, o: nat, e: Entry, n: nat, es: seq<Entry>, m: nat, count: u16, index: nat, build: Build)
    requires o <= |b| && index < count && ReadEntry(b, o, count, build) == Next(e, n)
    requires ScanPool(b, n, count, Advance(index, Slots(e), build), build) == Scanned(es, m)
    ensures ScanPool(b, o, count, index, build) == Scanned([e] + es, m)
  {
  }

  /** The bytes a successful scan consumed are exactly the encodings of the
      entries it returned, one after another. */
  lemma {:induction false} ScanPoolConsumesEncoding(b: seq<u8>, o: nat, count: u16, index: nat, build: Build)
    requires o <= |b| && ScanPool(b, o, count, index, build).Scanned?
    ensures var r := ScanPool(b, o, count, index, build);
      b[o..r.next] == EncodePool(r.entries, build)
    decreases |b| - o
  {
    if index < count {
      var s := ReadEntry(b, o, count, build);
      ScanPoolUnfold(b, o, count, index, build);
      var r := ScanPool(b, o, count, index, build);
      var rest := ScanPool(b, s.next, count, Advance(index, Slots(s.entry), build), build);
      ScanPoolConsumesEncoding(b, s.next, count, Advance(index, Slots(s.entry), build), build);
      ReadEntryConsumesEncoding(b, o, count, build);
      JoinSlices(b, o, s.next, r.next, Encode(s.entry, build), EncodePool(rest.entries, build));
      assert r.entries[1..] == rest.entries;
    }
  }

  /** A successful scan visited its entries while the counter walked from
      `index` to the count, and every entry it returned passed its checks. */
  lemma {:induction false} ScanPoolAccepts(b: seq<u8>, o: nat, count: u16, index: nat, build: Build)
    requires o <= |b| && ScanPool(b, o, count, index, build).Scanned?
    ensures var r := ScanPool(b, o, count, index, build);
      Fills(r.entries, index, count, build) && AllAccepted(r.entries, count, build)
    decreases |b| - o
  {
    if index < count {
      var s := ReadEntry(b, o, count, build);
      var idx := Advance(index, Slots(s.entry), build);
      ScanPoolUnfold(b, o, count, index, build);
      ScanPoolAccepts(b, s.next, count, idx, build);
      ReadEntryConsumesEncoding(b, o, count, build);
      var r, rest := ScanPool(b, o, count, index, build), ScanPool(b, s.next, count, idx, build);
      assert r.entries[0] == s.entry && r.entries[1..] == rest.entries;
    }
  }

  /** Reading entry after entry from `o` yields `es` and ends at `m`. */
  predicate ReadsBack(b: seq<u8>, o: nat, es: seq<Entry>, m: nat, count: u16, build: Build)
    decreases |es|
  {
    if es == [] then o == m
    else
      var s := ReadEntry(b, o, count, build);
      s.Next? && s.entry == es[0] && ReadsBack(b, s.next, es[1..], m, count, build)
  }

  /** The scan returns exactly the entries that read back one after another
      while the counter walks to the count. */
  lemma {:induction false} ScanPoolOfReads(b: seq<u8>, o: nat, es: seq<Entry>, m: nat, count: u16, index: nat, build: Build)
    requires o <= |b| && Fills(es, index, count, build) && ReadsBack(b, o, es, m, count, build)
    ensures ScanPool(b, o, count, index, build) == Scanned(es, m)
    decreases |es|
  {
    if es != [] {
      var s := ReadEntry(b, o, count, build);
      ScanPoolOfReads(b, s.next, es[1..], m, count, Advance(index, Slots(es[0]), build), build);
      ScanPoolFold(b, o, es[0], s.next, es[1..], m, count, index, build);
      assert [es[0]] + es[1..] == es;
    }
  }

  lemma ReadsBackCons(b: seq<u8>, o: nat, e: Entry, es: seq<Entry>, n: nat, m: nat, count: u16, build: Build)
    requires ReadEntry(b, o, count, build) == Next(e, n)
    requires ReadsBack(b, n, es, m, count, build)
    ensures ReadsBack(b, o, [e] + es, m, count, build)
  {
    assert ([e] + es)[1..] == es;
  }

  /** The entries of an encoded pool, when they pass their checks, read back
      one after another and end exactly after the encoding, at `m`. */
  lemma {:induction false} EncodingReadsBack(b: seq<u8>, o: nat, es: seq<Entry>, m: nat, count: u16, build: Build)
    requires AllAccepted(es, count, build)
    requires m == o + |EncodePool(es, build)| < |b| && b[o..m] == EncodePool(es, build)
    ensures ReadsBack(b, o, es, m, count, build)
    decreases |es|
  {
    if es != [] {
      var n := o + |Encode(es[0], build)|;
      FirstEntryOfEncoding(b, o, n, m, es, count, build);
      EncodingReadsBack(b, n, es[1..], m, count, build);
      ReadsBackCons(b, o, es[0], es[1..], n, m, count, build);
      assert [es[0]] + es[1..] == es;
    }
  }

  /** A pool laid out entry by entry, whose entries pass their checks and whose
      slot counts walk the counter to the pool count, is scanned back entry for
      entry, consuming exactly its bytes. */
  lemma ScanPoolOfEncoding(b: seq<u8>, o: nat, m: nat, es: seq<Entry>, count: u16, index: nat, build: Build)
    requires Fills(es, index, count, build) && AllAccepted(es, count, build)
    requires m == o + |EncodePool(es, build)| < |b| && b[o..m] == EncodePool(es, build)
    ensures ScanPool(b, o, count, index, build) == Scanned(es, m)
  {
    EncodingReadsBack(b, o, es, m, count, build);
    ScanPoolOfReads(b, o, es, m, count, index, build);
  }

  /** The first entry of an encoded pool, which spans `o` to `n`, is read
      back, and the rest of the pool follows it up to `m`. */
  lemma FirstEntryOfEncoding(b: seq<u8>, o: nat, n: nat, m: nat, es: seq<Entry>, count: u16, build: Build)
    requires es != [] && AllAccepted(es, count, build)
    requires n == o + |Encode(es[0], build)|
    requires m == o + |EncodePool(es, build)| < |b| && b[o..m] == EncodePool(es, build)
    ensures ReadEntry(b, o, count, build) == Next(es[0], n)
    ensures AllAccepted(es[1..], count, build)
    ensures m == n + |EncodePool(es[1..], build)| && b[n..m] == EncodePool(es[1..], build)
  {
    var enc, rest := Encode(es[0], build), EncodePool(es[1..], build);
    assert EncodePool(es, build) == enc + rest;
    SplitSlices(b, o, m, enc, rest);
    ReadEntryOfEncoding(b, o, n, es[0], count, build);
  }

  /** The loop visits `es` from counter `index` and is still running after
      them: the counter is below the count at each of them and after the
      last, so one more entry is read. */
  predicate StillRunning(es: seq<Entry>, index: nat, count: nat, build: Build)
    decreases |es|
  {
    index < count && (es == [] || StillRunning(es[1..], Advance(index, Slots(es[0]), build), count, build))
  }

  /** A scan that halts read some entries back, was still running after them,
      and halted with the status the next entry was refused with. */
  lemma {:induction false} ScanPoolHalted(b: seq<u8>, o: nat, count: u16, index: nat, build: Build)
    returns (es: seq<Entry>, n: nat)
    requires o <= |b| && ScanPool(b, o, count, index, build).Halted?
    ensures StillRunning(es, index, count, build) && ReadsBack(b, o, es, n, count, build)
    ensures ReadEntry(b, n, count, build) == Stop(ScanPool(b, o, count, index, build).status)
    decreases |b| - o
  {
    var s := ReadEntry(b, o, count, build);
    if s.Stop? {
      es, n := [], o;
    } else {
      var rest, m := ScanPoolHalted(b, s.next, count, Advance(index, Slots(s.entry), build), build);
      es, n := [s.entry] + rest, m;
      ReadsBackCons(b, o, s.entry, rest, s.next, m, count, build);
      assert es[1..] == rest;
    }
  }

  /** Conversely, when the entries read back so far leave the loop running and
      the next entry is refused, the scan halts with that entry's status: a
      refusal anywhere in the pool, not only of the first entry, ends it. */
  lemma {:induction false} ScanPoolHaltsAt(b: seq<u8>, o: nat, es: seq<Entry>, n: nat, s: Status, count: u16, index: nat, build: Build)
    requires o <= |b| && StillRunning(es, index, count, build) && ReadsBack(b, o, es, n, count, build)
    requires ReadEntry(b, n, count, build) == Stop(s)
    ensures ScanPool(b, o, count, index, build) == Halted(s)
    decreases |es|
  {
    if es != [] {
      var r := ReadEntry(b, o, count, build);
      ScanPoolHaltsAt(b, r.next, es[1..], n, s, count, Advance(index, Slots(es[0]), build), build);
    }
  }

  function SlotTotal(es: seq<Entry>): nat {
    if es == [] then 0 else Slots(es[0]) + SlotTotal(es[1..])
  }

  /** With a counter that does not wrap, the entries occupy every slot from the
      starting index up to the count; only a Long or Double in the last slot
      overhangs, by one. */
  lemma {:induction false} SlotAccounting(es: seq<Entry>, index: nat, count: nat)
    requires Fills(es, index, count, Corrected)
    ensures es == [] <==> index >= count
    ensures es != [] ==> count <= index + SlotTotal(es) <= count + 1
    decreases |es|
  {
    if es != [] {
      SlotAccounting(es[1..], index + Slots(es[0]), count);
    }
  }

  /** Conversely, entries whose slots add up exactly to the distance from the
      counter to the count are what a counter that does not wrap visits. */
  lemma {:induction false} FillsOfSlotTotal(es: seq<Entry>, index: nat, count: nat)
    requires index + SlotTotal(es) == count
    ensures Fills(es, index, count, Corrected)
    decreases |es|
  {
    if es != [] {
      FillsOfSlotTotal(es[1..], index + Slots(es[0]), count);
    }
  }

  /** When the entries overhang the count, the one that does is the last, and
      it is a Long or Double. */
  lemma {:induction false} OverhangIsFinalWide(es: seq<Entry>, index: nat, count: nat)
    requires Fills(es, index, count, Corrected) && es != [] && index + SlotTotal(es) == count + 1
    ensures Slots(es[|es| - 1]) == 2
    decreases |es|
  {
    if |es| > 1 {
      OverhangIsFinalWide(es[1..], index + Slots(es[0]), count);
      assert es[1..][|es[1..]| - 1] == es[|es| - 1];
    }
  }

  /** With the `u8` counter the loop cannot reach a count of 256 or more. */
  lemma {:induction false} NarrowCounterNeverReachesCount(es: seq<Entry>, index: nat, count: nat)
    requires index < 256 && count >= 256
    ensures !Fills(es, index, count, AsWritten)
    decreases |es|
  {
    if es != [] {
      NarrowCounterNeverReachesCount(es[1..], Advance(index, Slots(es[0]), AsWritten), count);
    }
  }
}
