/** Three places where oclass.c does something its authors evidently did not
    intend. Each is shown twice: the as-written build exhibits the behaviour,
    and the corrected build has the intended property. */
module Findings {
  import opened Types
  import opened Builds
  import opened Entries
  import opened Outcome
  import opened ConstantPool
  import opened Versions
  import opened Parser

  /** A class laid out at the start of the file whose header, pool entries and
      trailing values pass their checks and whose entries fill the slots from
      1 to the pool count minus one; only the walk of the loop counter is left
      open. */
  predicate WellFormedExceptCounter(b: seq<u8>, info: ClassInfo, version: u16, build: Build) {
    LaidOut(b, info, build) && info.major <= MAX_VERSION && info.major <= version
    && 1 + SlotTotal(info.pool) == info.poolCount && AllAccepted(info.pool, info.poolCount, build)
    && MembersAccepted(info.members, info.poolCount, 10 + |EncodePool(info.pool, build)|, |b|)
  }

  /** As written, the `u8` counter of the pool loop never reaches a pool count
      of 256 or more, so no such class is ever parsed, however well formed. */
  lemma NarrowCounterRejectsLargePools(b: seq<u8>, info: ClassInfo, version: u16)
    requires WellFormedExceptCounter(b, info, version, AsWritten) && info.poolCount >= 256
    ensures !ParseBytes(b, version, AsWritten).Parsed?
  {
    if ParseBytes(b, version, AsWritten).Parsed? {
      var got := ParseBytes(b, version, AsWritten).info;
      HeaderOfParsed(b, version, AsWritten, got);
      var _ := PoolOfParsed(b, got.minor, got.major, AsWritten, got);
      PoolCountOfLayout(b, info, AsWritten);
      NarrowCounterNeverReachesCount(got.pool, 1, got.poolCount);
    }
  }

  /** With a counter as wide as the count, the same class is parsed, whatever
      its pool count. */
  lemma WideCounterParsesLargePools(b: seq<u8>, info: ClassInfo, version: u16)
    requires WellFormedExceptCounter(b, info, version, Corrected)
    ensures ParseBytes(b, version, Corrected) == Parsed(info)
  {
    FillsOfSlotTotal(info.pool, 1, info.poolCount);
    ParsedOfLayout(b, version, Corrected, info);
  }

  /** A MethodHandle of kind 1 referring to slot 5, in a pool of count 6. */
  const HandleBytes: seq<u8> := [15, 1, 0, 5, 0]

  /** As written, the reference index is read as one byte: the high byte 0 is
      taken for the index, refused, and the entry ends the parse with -4. */
  lemma NarrowHandleIndexMisreadsEntry()
    ensures ReadEntry(HandleBytes, 0, 6, AsWritten) == Stop(FormatError)
  {
    assert HandleBytes[2] == 0;
  }

  /** Read as two bytes, the index is 5, which the pool has; the entry is read
      whole and the scan moves to the byte after it. */
  lemma WideHandleIndexReadsEntry()
    ensures ReadEntry(HandleBytes, 0, 6, Corrected) == Next(MethodHandle(1, 5), 4)
  {
    assert HandleBytes[2] as nat * 0x100 + HandleBytes[3] == 5;
  }

  /** As written, `InitClass` hands back `(void*)-1` for an empty file, which
      `ParseFile` does not recognise: unless the requested version is refused
      first, the sentinel is read from as if it were a class. */
  lemma SentinelDereferenced(allocates: bool, version: u16)
    ensures var s := ParseFile(InitClass(Mapped([]), allocates), version, AsWritten);
      if version > MAX_VERSION then s == RequestedVersionTooHigh else s == Undefined(InvalidHandle)
  {
  }

  /** Recognising the sentinel, the parse of a missing or empty file returns -1. */
  lemma SentinelReportedAsNullFile(buffer: Buffer, allocates: bool, version: u16)
    requires buffer.NullBuffer? || buffer.bytes == []
    ensures ReturnCode(ParseFile(InitClass(buffer, allocates), version, Corrected)) == -1
  {
  }
}
