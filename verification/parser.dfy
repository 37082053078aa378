/** `InitClass` and `ParseFile` of oclass.c: the handle a mapped buffer becomes,
    and the parse of the header, the constant pool and the counts after it. */
module Parser {
  import opened Types
  import opened Builds
  import opened Cursor
  import opened Entries
  import opened Outcome
  import opened ConstantPool
  import opened Versions
  import BigEndian

  /** The memory `InitClass` is handed: no pointer at all, or a mapped file
      whose length is its size. */
  datatype Buffer = NullBuffer | Mapped(bytes: seq<u8>)

  /** A class file about to be read, as `InitClass` leaves it: the C struct's
      `Length` is `|bytes|` and its `Offset` is zero. What a successful parse
      read is returned as the `ClassInfo` of a `Parsed` status; the pool
      entries in it are the model's, since the C reads them into locals. */
  datatype ClassFile = ClassFile(bytes: seq<u8>)

  /** What `InitClass` returns: `NULL` when the allocation fails, the
      `(void*)-1` sentinel for a missing or empty buffer, or a fresh class. */
  datatype Handle = Null | Sentinel | Valid(file: ClassFile)

  /** `InitClass(File, Length)`; whether `malloc` succeeds is a parameter. */
  function InitClass(buffer: Buffer, allocates: bool): (h: Handle)
    ensures h.Sentinel? <==> buffer.NullBuffer? || buffer.bytes == []
    ensures h.Null? <==> !h.Sentinel? && !allocates
    ensures h.Valid? ==> buffer.Mapped? && h.file.bytes == buffer.bytes != []
  {
    if buffer.NullBuffer? || buffer.bytes == [] then Sentinel
    else if !allocates then Null
    else Valid(ClassFile(buffer.bytes))
  }

  /** `ParseFile(file, version)`. The null check and the requested-version check
      come before any byte is read. The as-written build passes the sentinel on
      as if it were a class; the corrected build reports it as a null file. */
  function ParseFile(h: Handle, version: u16, build: Build): (s: Status)
    ensures h.Null? ==> s == NullFile
    ensures h.Valid? && version > MAX_VERSION ==> s == RequestedVersionTooHigh
    ensures s.Parsed? ==> h.Valid? && version <= MAX_VERSION
  {
    match h
    case Null => NullFile
    case Sentinel =>
      if !DereferencesSentinel(build) then NullFile
      else if version > MAX_VERSION then RequestedVersionTooHigh
      else Undefined(InvalidHandle)
    case Valid(f) =>
      if version > MAX_VERSION then RequestedVersionTooHigh
      else ParseBytes(f.bytes, version, build)
  }

  /** The reads of `ParseFile` from offset zero: the magic number. */
  function ParseBytes(b: seq<u8>, version: u16, build: Build): (s: Status)
    ensures s.Parsed? || s == BadMagic || s == FileVersionTooHigh || s == FormatError || s.Undefined?
    ensures |b| < 4 ==> s.Undefined?
    ensures s.Parsed? ==> s.info.major <= MAX_VERSION && s.info.major <= version
  {
    match ReadU32(b, 0)
    case PastEnd(at) => Undefined(ReadPastEnd(at))
    case Got(magic, p) =>
      if magic != JAVA_MAGIC then BadMagic else ParseVersion(b, p, version, build)
  }

  /** The minor and major versions, and the file-version check. */
  function ParseVersion(b: seq<u8>, p: nat, version: u16, build: Build): (s: Status)
    ensures s == FileVersionTooHigh || s.Parsed? || s == FormatError || s.Undefined?
    ensures s.Parsed? ==> s.info.major <= MAX_VERSION && s.info.major <= version
  {
    match ReadU16(b, p)
    case PastEnd(at) => Undefined(ReadPastEnd(at))
    case Got(minor, p') =>
      match ReadU16(b, p')
      case PastEnd(at) => Undefined(ReadPastEnd(at))
      case Got(major, q) =>
        if major > MAX_VERSION || major > version then FileVersionTooHigh
        else ParsePool(b, q, minor, major, build)
  }

  /** The pool count, the pool scan from slot 1, and what follows the pool. */
  function ParsePool(b: seq<u8>, p: nat, minor: u16, major: u16, build: Build): (s: Status)
    ensures s.Parsed? || s == FormatError || s.Undefined?
    ensures s.Parsed? ==> s.info.minor == minor && s.info.major == major
  {
    match ReadU16(b, p)
    case PastEnd(at) => Undefined(ReadPastEnd(at))
    case Got(count, q) =>
      match ScanPool(b, q, count, 1, build)
      case Halted(s) => s
      case Scanned(es, r) =>
        match ParseMembers(b, r, count)
        case Stopped(s) => s
        case Read(m) => Parsed(ClassInfo(minor, major, count, es, m))
  }

  datatype Tail = Read(members: Members) | Stopped(status: Status)

  /** The reads after the pool. `this` and `super` are range-checked. Each of the
      three counts is refused when that many two-byte items would reach the end
      of the file; the items themselves are not skipped, so the next count is
      read from the two bytes right after the previous one. */
  function ParseMembers(b: seq<u8>, o: nat, count: u16): (t: Tail)
    ensures t.Stopped? ==> t.status == FormatError || t.status.Undefined?
    ensures o + 12 <= |b| ==> !(t.Stopped? && t.status.Undefined?)
  {
    match ReadU16(b, o)
    case PastEnd(at) => Stopped(Undefined(ReadPastEnd(at)))
    case Got(access, o1) =>
      match ReadU16(b, o1)
      case PastEnd(at) => Stopped(Undefined(ReadPastEnd(at)))
      case Got(thisClass, o2) =>
        if !IndexAccepted(thisClass, count) then Stopped(FormatError) else
        match ReadU16(b, o2)
        case PastEnd(at) => Stopped(Undefined(ReadPastEnd(at)))
        case Got(superClass, o3) =>
          if !IndexAccepted(superClass, count) then Stopped(FormatError) else
          match ReadU16(b, o3)
          case PastEnd(at) => Stopped(Undefined(ReadPastEnd(at)))
          case Got(interfaces, o4) =>
            if o4 + interfaces * 2 >= |b| then Stopped(FormatError) else
            match ReadU16(b, o4)
            case PastEnd(at) => Stopped(Undefined(ReadPastEnd(at)))
            case Got(fields, o5) =>
              if o5 + fields * 2 >= |b| then Stopped(FormatError) else
              match ReadU16(b, o5)
              case PastEnd(at) => Stopped(Undefined(ReadPastEnd(at)))
              case Got(methods, o6) =>
                if o6 + methods * 2 >= |b| then Stopped(FormatError)
                else Read(Members(access, thisClass, superClass, interfaces, fields, methods))
  }

  /** The six 16-bit values after the pool, one after another. */
  function EncodeMembers(m: Members): seq<u8> {
    BigEndian.Encode(m.access, 2) + BigEndian.Encode(m.thisClass, 2) + BigEndian.Encode(m.superClass, 2)
    + BigEndian.Encode(m.interfacesCount, 2) + BigEndian.Encode(m.fieldsCount, 2) + BigEndian.Encode(m.methodsCount, 2)
  }

  /** The checks after the pool, for values laid out from `o` in a file of
      `len` bytes: `this` and `super` name pool slots, and after each count
      there is room for that many two-byte items with at least one byte to
      spare. */
  predicate MembersAccepted(m: Members, count: u16, o: nat, len: nat) {
    IndexAccepted(m.thisClass, count) && IndexAccepted(m.superClass, count)
    && o + 8 + m.interfacesCount * 2 < len
    && o + 10 + m.fieldsCount * 2 < len
    && o + 12 + m.methodsCount * 2 < len
  }

  /** What `ParseMembers` accepts is laid out as `EncodeMembers` and passed its checks. */
  lemma MembersRead(b: seq<u8>, o: nat, count: u16)
    requires ParseMembers(b, o, count).Read?
    ensures var m := ParseMembers(b, o, count).members;
      o + 12 <= |b| && b[o..o + 12] == EncodeMembers(m) && MembersAccepted(m, count, o, |b|)
  {
    var m := ParseMembers(b, o, count).members;
    ReadU16Bytes(b, o);
    ReadU16Bytes(b, o + 2);
    ReadU16Bytes(b, o + 4);
    ReadU16Bytes(b, o + 6);
    ReadU16Bytes(b, o + 8);
    ReadU16Bytes(b, o + 10);
    var a, t, s := BigEndian.Encode(m.access, 2), BigEndian.Encode(m.thisClass, 2), BigEndian.Encode(m.superClass, 2);
    var i, f, n := BigEndian.Encode(m.interfacesCount, 2), BigEndian.Encode(m.fieldsCount, 2), BigEndian.Encode(m.methodsCount, 2);
    JoinSlices(b, o, o + 2, o + 4, a, t);
    JoinSlices(b, o, o + 4, o + 6, a + t, s);
    JoinSlices(b, o, o + 6, o + 8, a + t + s, i);
    JoinSlices(b, o, o + 8, o + 10, a + t + s + i, f);
    JoinSlices(b, o, o + 10, o + 12, a + t + s + i + f, n);
  }

  /** One of the checks after the pool fails while the values it needs, and
      the ones before it, are in the file: `this` or `super` outside the pool,
      or a count whose items would reach the end of the file. */
  predicate MembersRefused(b: seq<u8>, o: nat, count: u16) {
    o + 4 <= |b| &&
    (!IndexAccepted(Word(b, o + 2), count) ||
     (o + 6 <= |b| &&
      (!IndexAccepted(Word(b, o + 4), count) ||
       (o + 8 <= |b| &&
        (o + 8 + Word(b, o + 6) * 2 >= |b| ||
         (o + 10 <= |b| &&
          (o + 10 + Word(b, o + 8) * 2 >= |b| ||
           (o + 12 <= |b| && o + 12 + Word(b, o + 10) * 2 >= |b|))))))))
  }

  /** The reads after the pool end with -4 exactly when one of their checks
      fails with the bytes it needs present; each check is made before the
      next value is read, so a failure is never hidden by a later read past
      the end. */
  lemma MembersRefusedIff(b: seq<u8>, o: nat, count: u16)
    ensures ParseMembers(b, o, count) == Stopped(FormatError) <==> MembersRefused(b, o, count)
  {
  }

  /** Values laid out as `EncodeMembers` that pass the checks are read back. */
  lemma MembersOfEncoding(b: seq<u8>, o: nat, count: u16, m: Members)
    requires o + 12 <= |b| && b[o..o + 12] == EncodeMembers(m) && MembersAccepted(m, count, o, |b|)
    ensures ParseMembers(b, o, count) == Read(m)
  {
    var a, t, s := BigEndian.Encode(m.access, 2), BigEndian.Encode(m.thisClass, 2), BigEndian.Encode(m.superClass, 2);
    var i, f, n := BigEndian.Encode(m.interfacesCount, 2), BigEndian.Encode(m.fieldsCount, 2), BigEndian.Encode(m.methodsCount, 2);
    SplitSlices(b, o, o + 12, a + t + s + i + f, n);
    SplitSlices(b, o, o + 10, a + t + s + i, f);
    SplitSlices(b, o, o + 8, a + t + s, i);
    SplitSlices(b, o, o + 6, a + t, s);
    SplitSlices(b, o, o + 4, a, t);
    ReadU16At(b, o, m.access);
    ReadU16At(b, o + 2, m.thisClass);
    ReadU16At(b, o + 4, m.superClass);
    ReadU16At(b, o + 6, m.interfacesCount);
    ReadU16At(b, o + 8, m.fieldsCount);
    ReadU16At(b, o + 10, m.methodsCount);
  }

  /** The magic number as it appears in the file. */
  const MagicBytes: seq<u8> := [0xCA, 0xFE, 0xBA, 0xBE]

  lemma MagicEncoding()
    ensures BigEndian.Encode(JAVA_MAGIC, 4) == MagicBytes
  {
  }

  /** The ten header bytes: the magic number, the minor and major versions and
      the pool count. */
  function EncodeHeader(info: ClassInfo): seq<u8> {
    MagicBytes + BigEndian.Encode(info.minor, 2) + BigEndian.Encode(info.major, 2)
    + BigEndian.Encode(info.poolCount, 2)
  }

  /** A class file as far as `ParseFile` reads it. */
  function EncodeClass(info: ClassInfo, build: Build): seq<u8> {
    EncodeHeader(info) + EncodePool(info.pool, build) + EncodeMembers(info.members)
  }

  /** Everything `ParseFile` checks of a class laid out as `EncodeClass` at the
      start of a file of `len` bytes, when `version` is requested. */
  predicate ClassAccepted(info: ClassInfo, version: u16, build: Build, len: nat) {
    info.major <= MAX_VERSION && info.major <= version
    && Fills(info.pool, 1, info.poolCount, build) && AllAccepted(info.pool, info.poolCount, build)
    && MembersAccepted(info.members, info.poolCount, 10 + |EncodePool(info.pool, build)|, len)
  }

  /** The file starts with the layout of `info`. */
  predicate LaidOut(b: seq<u8>, info: ClassInfo, build: Build) {
    var n := |EncodeClass(info, build)|;
    n <= |b| && b[..n] == EncodeClass(info, build)
  }

  /** The layout of a class, part by part: the header fields at their fixed
      offsets, the pool from 10 to `q`, the six values from `q`. */
  predicate PartsAt(b: seq<u8>, info: ClassInfo, build: Build, q: nat) {
    q + 12 <= |b| && 10 <= q &&
    b[0..4] == MagicBytes && b[4..6] == BigEndian.Encode(info.minor, 2) &&
    b[6..8] == BigEndian.Encode(info.major, 2) && b[8..10] == BigEndian.Encode(info.poolCount, 2) &&
    b[10..q] == EncodePool(info.pool, build) && b[q..q + 12] == EncodeMembers(info.members)
  }

  lemma LaidOutOfParts(b: seq<u8>, info: ClassInfo, build: Build, q: nat)
    requires PartsAt(b, info, build, q)
    ensures LaidOut(b, info, build) && q == 10 + |EncodePool(info.pool, build)|
  {
    var mg, mi, ma, c := MagicBytes, BigEndian.Encode(info.minor, 2), BigEndian.Encode(info.major, 2), BigEndian.Encode(info.poolCount, 2);
    JoinSlices(b, 0, 4, 6, mg, mi);
    JoinSlices(b, 0, 6, 8, mg + mi, ma);
    JoinSlices(b, 0, 8, 10, mg + mi + ma, c);
    JoinSlices(b, 0, 10, q, EncodeHeader(info), EncodePool(info.pool, build));
    JoinSlices(b, 0, q, q + 12, EncodeHeader(info) + EncodePool(info.pool, build), EncodeMembers(info.members));
  }

  lemma PartsOfLaidOut(b: seq<u8>, info: ClassInfo, build: Build, q: nat)
    requires LaidOut(b, info, build) && q == 10 + |EncodePool(info.pool, build)|
    ensures PartsAt(b, info, build, q)
  {
    var h, pool, m := EncodeHeader(info), EncodePool(info.pool, build), EncodeMembers(info.members);
    assert b[0..q + 12] == h + pool + m;
    SplitSlices(b, 0, q + 12, h + pool, m);
    SplitSlices(b, 0, q, h, pool);
    var mg, mi, ma, c := MagicBytes, BigEndian.Encode(info.minor, 2), BigEndian.Encode(info.major, 2), BigEndian.Encode(info.poolCount, 2);
    SplitSlices(b, 0, 10, mg + mi + ma, c);
    SplitSlices(b, 0, 8, mg + mi, ma);
    SplitSlices(b, 0, 6, mg, mi);
  }

  /** The header of a successful parse: the magic number, the versions that
      passed their check, and the pool parse they lead to. */
  lemma HeaderOfParsed(b: seq<u8>, version: u16, build: Build, info: ClassInfo)
    requires ParseBytes(b, version, build) == Parsed(info)
    ensures 8 <= |b| && b[0..4] == MagicBytes
    ensures b[4..6] == BigEndian.Encode(info.minor, 2) && b[6..8] == BigEndian.Encode(info.major, 2)
    ensures info.major <= MAX_VERSION && info.major <= version
    ensures ParsePool(b, 8, info.minor, info.major, build) == Parsed(info)
  {
    ReadU32Bytes(b, 0);
    MagicEncoding();
    ReadU16Bytes(b, 4);
    ReadU16Bytes(b, 6);
  }

  /** The pool count, the pool and the values after it, in a successful pool
      parse; the values start at `q`. */
  lemma PoolOfParsed(b: seq<u8>, minor: u16, major: u16, build: Build, info: ClassInfo) returns (q: nat)
    requires ParsePool(b, 8, minor, major, build) == Parsed(info)
    ensures 10 <= q && q + 12 <= |b| && b[8..10] == BigEndian.Encode(info.poolCount, 2)
    ensures ReadU16(b, 8) == Got(info.poolCount, 10)
    ensures b[10..q] == EncodePool(info.pool, build) && b[q..q + 12] == EncodeMembers(info.members)
    ensures Fills(info.pool, 1, info.poolCount, build) && AllAccepted(info.pool, info.poolCount, build)
    ensures MembersAccepted(info.members, info.poolCount, q, |b|)
  {
    ReadU16Bytes(b, 8);
    var count := ReadU16(b, 8).value;
    var r := ScanPool(b, 10, count, 1, build);
    assert r.Scanned? && ParseMembers(b, r.next, count).Read?;
    assert info == ClassInfo(minor, major, count, r.entries, ParseMembers(b, r.next, count).members);
    ScanPoolConsumesEncoding(b, 10, count, 1, build);
    ScanPoolAccepts(b, 10, count, 1, build);
    MembersRead(b, r.next, count);
    q := r.next;
  }

  /** The pool count of a class laid out at the start of the file is the one
      read at offset 8. */
  lemma PoolCountOfLayout(b: seq<u8>, info: ClassInfo, build: Build)
    requires LaidOut(b, info, build)
    ensures ReadU16(b, 8) == Got(info.poolCount, 10)
  {
    PartsOfLaidOut(b, info, build, 10 + |EncodePool(info.pool, build)|);
    ReadU16At(b, 8, info.poolCount);
  }

  /** A parse that succeeds read a class laid out at the start of the file,
      which passed every check. */
  lemma ParsedLaidOut(b: seq<u8>, version: u16, build: Build, info: ClassInfo)
    requires ParseBytes(b, version, build) == Parsed(info)
    ensures LaidOut(b, info, build) && ClassAccepted(info, version, build, |b|)
  {
    HeaderOfParsed(b, version, build, info);
    var q := PoolOfParsed(b, info.minor, info.major, build, info);
    LaidOutOfParts(b, info, build, q);
  }

  /** A class laid out at the start of the file that passes every check is
      parsed back as itself. */
  lemma ParsedOfLayout(b: seq<u8>, version: u16, build: Build, info: ClassInfo)
    requires LaidOut(b, info, build) && ClassAccepted(info, version, build, |b|)
    ensures ParseBytes(b, version, build) == Parsed(info)
  {
    var q := 10 + |EncodePool(info.pool, build)|;
    PartsOfLaidOut(b, info, build, q);
    MagicEncoding();
    ReadU32At(b, 0, JAVA_MAGIC);
    ReadU16At(b, 4, info.minor);
    ReadU16At(b, 6, info.major);
    ReadU16At(b, 8, info.poolCount);
    ScanPoolOfEncoding(b, 10, q, info.pool, info.poolCount, 1, build);
    MembersOfEncoding(b, q, info.poolCount, info.members);
  }

  /** The result is -2 exactly when the file starts with four bytes other than
      the magic number. */
  lemma BadMagicIff(b: seq<u8>, version: u16, build: Build)
    ensures ParseBytes(b, version, build) == BadMagic <==> 4 <= |b| && b[..4] != MagicBytes
    ensures var s := ParseBytes(b, version, build);
      (!s.Undefined? && ReturnCode(s) == -2) <==> 4 <= |b| && b[..4] != MagicBytes
  {
    MagicEncoding();
    if 4 <= |b| {
      ReadU32Bytes(b, 0);
      if b[..4] == MagicBytes {
        ReadU32At(b, 0, JAVA_MAGIC);
      }
    }
  }

  /** The result is -3 exactly when the magic number is followed by a major
      version, at offset 6, above the newest supported one or above the one
      requested. */
  lemma FileVersionTooHighIff(b: seq<u8>, version: u16, build: Build)
    ensures ParseBytes(b, version, build) == FileVersionTooHigh <==>
      8 <= |b| && b[..4] == MagicBytes &&
      var major := b[6] as nat * 0x100 + b[7];
      major > MAX_VERSION || major > version
    ensures var s := ParseBytes(b, version, build);
      (!s.Undefined? && ReturnCode(s) == -3) <==>
      8 <= |b| && b[..4] == MagicBytes && (Word(b, 6) > MAX_VERSION || Word(b, 6) > version)
  {
    MagicEncoding();
    if 8 <= |b| {
      ReadU32Bytes(b, 0);
      if b[..4] == MagicBytes {
        ReadU32At(b, 0, JAVA_MAGIC);
      }
    }
  }

  /** The header checks pass: the magic number, and a major version within
      both ceilings; the pool count follows at offset 8. */
  predicate HeaderPasses(b: seq<u8>, version: u16) {
    10 <= |b| && b[..4] == MagicBytes && Word(b, 6) <= MAX_VERSION && Word(b, 6) <= version
  }

  /** With the header passing, the parse goes on to the pool count. */
  lemma HeaderPassesReadsPool(b: seq<u8>, version: u16, build: Build)
    requires HeaderPasses(b, version)
    ensures ParseBytes(b, version, build) == ParsePool(b, 8, Word(b, 4), Word(b, 6), build)
  {
    MagicEncoding();
    ReadU32At(b, 0, JAVA_MAGIC);
  }

  /** A refusal anywhere in the pool ends the parse with the refusal's status:
      when the entries before it read back and leave the slot counter below
      the pool count, the next entry's refusal is the result. */
  lemma PoolEntryRefused(b: seq<u8>, version: u16, build: Build, es: seq<Entry>, n: nat, s: Status)
    requires HeaderPasses(b, version)
    requires StillRunning(es, 1, Word(b, 8), build) && ReadsBack(b, 10, es, n, Word(b, 8), build)
    requires ReadEntry(b, n, Word(b, 8), build) == Stop(s)
    ensures ParseBytes(b, version, build) == s
  {
    HeaderPassesReadsPool(b, version, build);
    ScanPoolHaltsAt(b, 10, es, n, s, Word(b, 8), 1, build);
  }

  /** An entry anywhere in the pool whose index is 0 or not below the pool
      count ends the parse with -4. */
  lemma IndexRefusedInPool(b: seq<u8>, version: u16, build: Build, es: seq<Entry>, n: nat, e: Entry, n': nat)
    requires HeaderPasses(b, version)
    requires StillRunning(es, 1, Word(b, 8), build) && AllAccepted(es, Word(b, 8), build)
    requires n == 10 + |EncodePool(es, build)| && n' == n + |Encode(e, build)| <= |b|
    requires b[10..n] == EncodePool(es, build) && b[n..n'] == Encode(e, build)
    requires Shaped(e, build) && !IndicesAccepted(e, Word(b, 8))
    ensures ParseBytes(b, version, build) == FormatError
    ensures ReturnCode(ParseBytes(b, version, build)) == -4
  {
    var count := Word(b, 8);
    assert !e.Utf8?;
    EncodingReadsBack(b, 10, es, n, count, build);
    ReadEntryOfEncoding(b, n, n', e, count, build);
    PoolEntryRefused(b, version, build, es, n, FormatError);
  }

  /** A Utf8 entry anywhere in the pool whose string would reach the end of
      the file ends the parse with -4. */
  lemma Utf8OverrunInPool(b: seq<u8>, version: u16, build: Build, es: seq<Entry>, n: nat)
    requires HeaderPasses(b, version)
    requires StillRunning(es, 1, Word(b, 8), build) && AllAccepted(es, Word(b, 8), build)
    requires n == 10 + |EncodePool(es, build)| && n + 3 <= |b| && b[10..n] == EncodePool(es, build)
    requires b[n] == 1 && n + 3 + Word(b, n + 1) >= |b|
    ensures ParseBytes(b, version, build) == FormatError
    ensures ReturnCode(ParseBytes(b, version, build)) == -4
  {
    var count := Word(b, 8);
    EncodingReadsBack(b, 10, es, n, count, build);
    DispatchUtf8(b, n, count, build);
    PoolEntryRefused(b, version, build, es, n, FormatError);
  }

  /** A class whose pool is laid out and accepted, but which fails a check
      after the pool, ends the parse with -4. */
  lemma MemberCheckRefused(b: seq<u8>, version: u16, build: Build, es: seq<Entry>, q: nat)
    requires HeaderPasses(b, version)
    requires Fills(es, 1, Word(b, 8), build) && AllAccepted(es, Word(b, 8), build)
    requires q == 10 + |EncodePool(es, build)| && q + 4 <= |b| && b[10..q] == EncodePool(es, build)
    requires MembersRefused(b, q, Word(b, 8))
    ensures ParseBytes(b, version, build) == FormatError
    ensures ReturnCode(ParseBytes(b, version, build)) == -4
  {
    HeaderPassesReadsPool(b, version, build);
    ScanPoolOfEncoding(b, 10, q, es, Word(b, 8), 1, build);
    MembersRefusedIff(b, q, Word(b, 8));
  }

  /** For a real class, 0 is returned exactly when the requested version is
      above `MAX_VERSION`, and -1 never is. */
  lemma ValidHandleCodes(f: ClassFile, version: u16, build: Build)
    ensures var s := ParseFile(Valid(f), version, build);
      (!s.Undefined? && ReturnCode(s) == 0) <==> version > MAX_VERSION
    ensures var s := ParseFile(Valid(f), version, build);
      !(!s.Undefined? && ReturnCode(s) == -1)
  {
  }

  /** When the header passes and the pool has at least one entry, a first tag
      byte the scan does not know ends the parse with -4. */
  lemma UnknownFirstTagRejected(b: seq<u8>, version: u16, build: Build)
    requires 10 < |b| && b[..4] == MagicBytes
    requires var major := b[6] as nat * 0x100 + b[7]; major <= MAX_VERSION && major <= version
    requires b[8] as nat * 0x100 + b[9] >= 2 && b[10] !in KnownTags
    ensures ParseBytes(b, version, build) == FormatError
  {
    MagicEncoding();
    ReadU32Bytes(b, 0);
    ReadU32At(b, 0, JAVA_MAGIC);
    UnknownTagRejected(b, 10, ReadU16(b, 8).value, build);
  }

  /** The whole of `main`'s call, `ParseFile(InitClass(mem, size), version)`,
      on a mapped file: it succeeds with `info` exactly when the requested
      version is supported and the file starts with the layout of `info`,
      which passes every check. */
  lemma ParseFileParsedIff(bytes: seq<u8>, version: u16, build: Build, info: ClassInfo)
    ensures ParseFile(InitClass(Mapped(bytes), true), version, build) == Parsed(info) <==>
      version <= MAX_VERSION && LaidOut(bytes, info, build) && ClassAccepted(info, version, build, |bytes|)
  {
    if ParseFile(InitClass(Mapped(bytes), true), version, build) == Parsed(info) {
      ParsedLaidOut(bytes, version, build, info);
    }
    if version <= MAX_VERSION && LaidOut(bytes, info, build) && ClassAccepted(info, version, build, |bytes|) {
      assert |EncodeClass(info, build)| >= 12;
      ParsedOfLayout(bytes, version, build, info);
    }
  }

  /** `this` and `super` must name pool slots, so a class with fewer than two
      slots in its pool is never parsed. */
  lemma ParsedHasPool(b: seq<u8>, version: u16, build: Build, info: ClassInfo)
    requires ParseBytes(b, version, build) == Parsed(info)
    ensures 1 <= info.members.thisClass < info.poolCount
    ensures 1 <= info.members.superClass < info.poolCount
    ensures info.poolCount >= 2
  {
    HeaderOfParsed(b, version, build, info);
    var _ := PoolOfParsed(b, info.minor, info.major, build, info);
  }
}
