# A verified model of the blue class-file reader's header and constant-pool scan

This project models two parts of the `blue` Java class-file reader in Dafny:

- `ParseFile` (oclass.c) and the helpers it uses:
  - `InitClass`;
  - the big-endian byte readers `ReadU8`, `ReadU16`, `ReadU32` and `ReadU64`;
  - the `check_index` range check;
  - the header checks: magic number, minor and major versions;
  - the single forward scan over the constant pool;
  - the checks on `this`, `super` and the interface, field and method counts that follow the pool.
- The reverse-order FNV-1a name hash `Hash` of hash.h, and its textual copy in utils.h.

The model also uses the constants of oclass.h: the `ClassFileVersion` enumeration, `JAVA_MAGIC` and `MAX_VERSION`.

The file is an immutable byte sequence. Each reader is a pure function from a buffer and an offset to a value and the next offset. The C reads are unchecked. Here, a read that would leave the buffer yields `PastEnd`, and the parse then ends in `Undefined(ReadPastEnd(at))`. That status stands for undefined behaviour in the C and has no return code.

`ParseFile` returns a `Status`:

- `NullFile` (-1);
- `RequestedVersionTooHigh` (0);
- `BadMagic` (-2);
- `FileVersionTooHigh` (-3);
- `FormatError` (-4);
- `Parsed(info)` (1), where `info` holds everything the parse read, including the pool entries the scan recognised;
- `Undefined(fault)`.

Three places in oclass.c evidently do not do what was intended (see "## Findings"). So the model is parameterised by a `Build`:

- `AsWritten` reproduces the code.
- `Corrected` repairs those three places.

Every general theorem holds for both builds.

Modules, following the source:

| file | module | models |
|---|---|---|
| types.dfy | `Types` | `u8` … `u64` as bounded naturals |
| builds.dfy | `Builds` | the as-written and corrected builds |
| versions.dfy | `Versions` | oclass.h constants |
| bigendian.dfy | `BigEndian` | reference definition of big-endian values (`Value`, `Encode`) |
| cursor.dfy | `Cursor` | `ReadU8` … `ReadU64`, fields of a given width read in sequence |
| entries.dfy | `Entries` | constant-pool entries, their tags, layouts, encodings, `check_index` |
| outcome.dfy | `Outcome` | statuses, return codes, what a successful parse read |
| pool.dfy | `ConstantPool` | one iteration of the pool loop, the loop itself, its round trip |
| parser.dfy | `Parser` | `InitClass`, `ParseFile`, the checks after the pool, the whole-file round trip |
| hash.dfy | `NameHash` | hash.h `Hash` |
| utils.dfy | `Utils` | utils.h `Hash`, as the loop it is |
| findings.dfy | `Findings` | the three defects, as written and corrected |
| samples.dfy | `Samples` | a small class file worked through the parser |

The central results are two round trips, both with the checks stated as conditions:

- `ConstantPool.ScanPoolOfEncoding` with `ConstantPool.ScanPoolConsumesEncoding`: a laid-out pool is scanned back entry for entry, and the scan consumes exactly the layout of its entries.
- `Parser.ParsedOfLayout` with `Parser.ParsedLaidOut`, combined in `Parser.ParseFileParsedIff`: `ParseFile` succeeds with `info` exactly when the file begins with the layout of `info` and `info` passes every check.

## Model

| member | source | states |
|---|---|---|
| `Versions.VersionValues` | oclass.h:9-22 | `JDK_1_0` and `JDK_1_1` are 45. The later versions count up to `JDK_1_7` = 51 and `JDK_VERMAX` = 52. `MAX_VERSION` is 51. `JAVA_MAGIC` is the bytes CA FE BA BE read big-endian. |
| `Cursor.ReadU8` | oclass.c:55-57 | A one-byte read succeeds exactly when a byte is left, and it advances the offset by 1. |
| `Cursor.ReadU16` | oclass.c:59-64 | A two-byte read succeeds exactly when two bytes are left, and it advances the offset by 2. |
| `Cursor.ReadU32` | oclass.c:66-70 | Succeeds exactly when four bytes are left, and advances the offset by 4. |
| `Cursor.ReadU64` | oclass.c:72-76 | Succeeds exactly when eight bytes are left, and advances the offset by 8. |
| `Cursor.ReadU8Value` | oclass.c:55-57 | The byte read is the big-endian value of the one byte passed over. |
| `Cursor.ReadU16Value` | oclass.c:59-64 | High byte shifted by 8 and or-ed with the low byte is the big-endian value of the two bytes. |
| `Cursor.ReadU32Value` | oclass.c:66-70 | The first 16-bit half is the high half; the result is the big-endian value of the four bytes. |
| `Cursor.ReadU64Value` | oclass.c:72-76 | The first 32-bit half is the high half; the result is the big-endian value of the eight bytes. |
| `Cursor.ReadU16At` | oclass.c:59-64 | A 16-bit read over the big-endian encoding of `v` yields `v` (inverse of `ReadU16Bytes`). |
| `Cursor.ReadU16Bytes` | oclass.c:59-64 | The two bytes a 16-bit read passed over are the encoding of the value it returned. |
| `Cursor.ReadU32At` | oclass.c:66-70 | A 32-bit read over the encoding of `v` yields `v`. |
| `Cursor.ReadU32Bytes` | oclass.c:66-70 | The four bytes a 32-bit read passed over are the encoding of its value. |
| `Cursor.ReadFields` | oclass.c:114-210 | Fields read back to back all succeed exactly when their total width is left. Each value fits its width, and the offset advances by the total width. |
| `Cursor.ReadFieldsConsumesEncoding` | oclass.c:114-210 | The bytes a run of field reads passed over are the concatenated big-endian encodings of the values read. |
| `Cursor.ReadFieldsAt` | oclass.c:114-210 | Values that fit their widths, laid out back to back, are read back exactly, ending after their encoding. |
| `Entries.IndexAccepted` | oclass.c:78-81 | `check_index` refuses index 0 and any index above count − 1. So an index is accepted exactly when 1 ≤ i < count, including for a count of 0. |
| `Entries.Tag` | oclass.c:103-214 | Every entry's tag is one the switch has a case for: 1, 3–12, 15, 16, 17. |
| `Entries.Layout` | oclass.c:114-210 | Each tag has as many field widths as it has fields. MethodHandle's second field is one byte as written and two bytes corrected. |
| `Entries.Slots` | oclass.c:136-166 | An entry takes one or two slots, and two exactly when its tag is 5 (Long) or 6 (Double), the cases with the extra `index += 1`. |
| `Entries.IndicesAcceptedByPosition` | oclass.c:169-209 | An entry passes its checks exactly when every field the C passes to `check_index` lies in 1..count − 1: the first field of Class, String and MethodType; both of the Refs and NameAndType; the second of MethodHandle and InvokeDynamic (so the bootstrap index and the handle kind are unchecked); none for the numeric constants. |
| `Entries.Make` | oclass.c:114-210 | Building an entry from a known tag and fitting field values gives back that tag and those fields. |
| `Entries.EncodedSize` | oclass.c:104-210 | Bytes consumed per tag, tag byte included: Utf8 3 + length; Integer and Float 5; Long and Double 9; Class, String and MethodType 3; the Refs, NameAndType and InvokeDynamic 5; MethodHandle 3 as written and 4 corrected. |
| `Entries.MakeOfFields` | oclass.c:114-210 | An entry is recovered from its tag and fields. |
| `Outcome.ReturnCode` | oclass.c:83-251 | The return codes lie in −4..1. 1 is success. Only success and "requested version too high" are non-negative. Which condition gives which code is stated by `Parser.ValidHandleCodes` (0, −1), `Parser.BadMagicIff` (−2), `Parser.FileVersionTooHighIff` (−3) and the −4 lemmas `Parser.IndexRefusedInPool`, `Parser.Utf8OverrunInPool` and `Parser.MemberCheckRefused`. |
| `ConstantPool.ReadUtf8` | oclass.c:104-112 | A Utf8 entry is accepted only with at least one byte left after its bytes. It consumes the length field and `length` bytes, undecoded. Once the length is readable, a refusal is always −4, never a read past the end. |
| `ConstantPool.ReadUtf8RefusedIff` | oclass.c:105-109 | With the length readable, the entry is refused with −4 exactly when offset + length reaches the end of the file. |
| `ConstantPool.ReadUtf8ConsumesBody` | oclass.c:104-112 | An accepted Utf8 entry spans exactly its 16-bit length and its raw bytes. |
| `ConstantPool.ReadUtf8OfBody` | oclass.c:104-112 | A Utf8 body with a byte after it is read back as that entry, ending right after it. |
| `ConstantPool.ReadFixed` | oclass.c:114-210 | A fixed-width case consumes at least one byte and refuses only with a format error or a read past the end. |
| `ConstantPool.ReadFixedConsumesBody` | oclass.c:114-210 | An accepted fixed-width entry has the tag it was read under, fits its widths and passed the index checks. The checked indices are Class, String, both Ref indices, both NameAndType indices, the MethodHandle reference, MethodType and the InvokeDynamic name-and-type; the bootstrap index is not checked. The entry spans exactly its encoded fields. |
| `ConstantPool.ReadFixedOfBody` | oclass.c:114-210 | A fixed-width body is read back as its entry. It is accepted exactly when its indices pass `check_index`, and is otherwise a format error. |
| `ConstantPool.ReadEntry` | oclass.c:101-214 | One loop iteration either consumes at least the tag byte or stops with a format error or a read past the end. |
| `ConstantPool.ReadEntryConsumesEncoding` | oclass.c:101-214 | An accepted entry carries the tag byte it was read from, passed its checks and spans exactly its encoding. |
| `ConstantPool.ReadEntryOfEncoding` | oclass.c:101-214 | The converse: an encoded entry is read back. It is accepted exactly when its indices pass, and is otherwise a format error. |
| `ConstantPool.UnknownTagRejected` | oclass.c:212-214 | A tag byte outside {1, 3–12, 15, 16, 17}, such as 2, 13, 14 or 18, ends the scan with −4. |
| `ConstantPool.ScanPool` | oclass.c:100-216 | The pool loop ends inside the buffer, or stops with a format error or a read past the end. Which entry stops it is stated by `ConstantPool.ScanPoolHalted` and `ConstantPool.ScanPoolHaltsAt`. |
| `ConstantPool.ScanPoolHalted` | oclass.c:100-216 | A scan that halts read some entries back with the counter still below the count, and halted with exactly the status the next entry was refused with. |
| `ConstantPool.ScanPoolHaltsAt` | oclass.c:100-216 | Conversely, when the entries so far read back and leave the counter below the count, a refusal of the next entry, at any position in the pool, is the scan's result. |
| `ConstantPool.ScanPoolConsumesEncoding` | oclass.c:100-216 | The bytes a successful scan consumed are exactly the encodings of the entries it returned, in order. |
| `ConstantPool.ScanPoolAccepts` | oclass.c:100-216 | A successful scan's entries are the ones the slot counter visits from 1 to the count. Long and Double advance it by two, and the as-written `u8` counter wraps. Every entry passed its checks. |
| `ConstantPool.ScanPoolOfEncoding` | oclass.c:100-216 | The converse: a laid-out pool whose entries pass their checks and fill the slots is scanned back entry for entry, ending right after it. |
| `ConstantPool.Advance` | oclass.c:100 | The slot counter steps by the entry's slot count exactly (two for Long and Double, through the extra increments on lines 141 and 166), unless the as-written `u8` counter passes 255; then it wraps and stays below 256. The wrapped value is stated by `ConstantPool.AdvanceIsIncrements`. |
| `ConstantPool.AdvanceIsIncrements` | oclass.c:100 | As written, the counter after a one-slot entry is the `u8` `index++` (255 goes to 0), and after a Long or Double it is two such increments: the `index += 1` of line 141 or 166, then the loop's `index++`. |
| `ConstantPool.SlotAccounting` | oclass.c:100-167 | With a counter that does not wrap, the entries occupy every slot from 1 up to count − 1, overhanging the count by at most one; `ConstantPool.OverhangIsFinalWide` states that the overhanging entry is the last and is a Long or Double. |
| `ConstantPool.OverhangIsFinalWide` | oclass.c:136-166 | When the slots overhang the count by one, the last entry is a Long or Double. |
| `ConstantPool.FillsOfSlotTotal` | oclass.c:100-167 | Conversely, entries whose slots add up to count − 1 are what a non-wrapping counter visits. |
| `ConstantPool.NarrowCounterNeverReachesCount` | oclass.c:100 | A `u8` counter never reaches a pool count of 256 or more. |
| `Parser.InitClass` | oclass.c:40-53 | A missing or empty buffer gives the `(void*)-1` sentinel. Otherwise a failed allocation gives `NULL`, and a successful one gives a class over exactly the buffer's bytes. |
| `Parser.ParseFile` | oclass.c:83-87 | A null class gives −1. A requested version above `MAX_VERSION` gives 0 before any byte is read. Success needs a real class and a supported requested version. |
| `Parser.ParseBytes` | oclass.c:88-251 | The reads from offset zero give only success, −2, −3, −4 or a read past the end; a file shorter than the magic number is read past its end; success never has a major version above `MAX_VERSION` or the requested version. |
| `Parser.ParseVersion` | oclass.c:91-94 | After the magic number, only −3, −4, success or a read past the end can follow, and success has a major version within both ceilings. |
| `Parser.ParsePool` | oclass.c:97-251 | After the versions, only −4, success or a read past the end can follow, and success keeps the versions read. |
| `Parser.ParseMembers` | oclass.c:220-251 | After the pool, only −4 or a read past the end can stop the parse. With twelve bytes left it never reads past the end. |
| `Parser.MembersRefusedIff` | oclass.c:220-249 | The reads after the pool give −4 exactly when a check fails with the bytes it and the earlier reads need present: `this` or `super` outside 1..count − 1, or a count whose two-byte items would reach the end of the file. |
| `Parser.MembersRead` | oclass.c:220-251 | Accepted values after the pool are six consecutive 16-bit words. No interface entry is skipped before the fields count. `this` and `super` name pool slots, and each count leaves room for that many 16-bit items plus one byte. |
| `Parser.MembersOfEncoding` | oclass.c:220-251 | The converse: six words laid out after the pool that pass those checks are read back. |
| `Parser.MagicEncoding` | oclass.h:21 | `JAVA_MAGIC` is stored as the bytes CA FE BA BE. |
| `Parser.HeaderOfParsed` | oclass.c:86-94 | A successful parse began with the magic number and versions that passed the checks against `MAX_VERSION` and the requested version. |
| `Parser.PoolOfParsed` | oclass.c:97-251 | A successful parse read the pool count at offset 8, a pool that filled its slots and passed its checks, and six accepted words after it. |
| `Parser.PoolCountOfLayout` | oclass.c:97 | The pool count of a laid-out class is the word read at offset 8. |
| `Parser.ParsedLaidOut` | oclass.c:83-251 | Whatever `ParseFile` accepts is, byte for byte, the layout of what it returned, and passed every check. |
| `Parser.ParsedOfLayout` | oclass.c:83-251 | A file beginning with the layout of a class that passes every check is parsed as exactly that class. |
| `Parser.ParseFileParsedIff` | oclass.c:83-251 | `ParseFile(InitClass(file, size), version)` returns 1 with `info` exactly when the version is supported, the file begins with the layout of `info`, and `info` passes every check. |
| `Parser.BadMagicIff` | oclass.c:88-89 | −2 is returned exactly when the first four bytes exist and are not CA FE BA BE, both as a status and as a return code. |
| `Parser.FileVersionTooHighIff` | oclass.c:91-94 | −3 is returned exactly when the magic is right and the major version at offset 6 exceeds `MAX_VERSION` or the requested version, both as a status and as a return code. |
| `Parser.ValidHandleCodes` | oclass.c:84-87 | For a real class, 0 is returned exactly when the requested version is above `MAX_VERSION`, and −1 is never returned. |
| `Parser.HeaderPassesReadsPool` | oclass.c:88-97 | When the magic is right and the major version is within both ceilings, the parse goes on to the pool count at offset 8. |
| `Parser.PoolEntryRefused` | oclass.c:100-216 | With a good header, a refusal of any pool entry, reached with the counter below the count, is the result of the whole parse. |
| `Parser.IndexRefusedInPool` | oclass.c:169-209 | With a good header, an entry anywhere in the pool with an index that `check_index` (lines 78-81) refuses, 0 or not below the pool count, gives −4. |
| `Parser.Utf8OverrunInPool` | oclass.c:104-109 | With a good header, a Utf8 entry anywhere in the pool whose string would reach the end of the file gives −4. |
| `Parser.MemberCheckRefused` | oclass.c:220-249 | A class whose pool is laid out and accepted, but which fails a `this`, `super` or count check with its bytes present, gives −4. |
| `Parser.UnknownFirstTagRejected` | oclass.c:100-214 | With a good header and a non-empty pool, an unknown first tag gives −4. |
| `Parser.ParsedHasPool` | oclass.c:222-225 | A parsed class has `this` and `super` in 1..count − 1, so its pool count is at least 2. |
| `NameHash.HashLoop` | hash.h:8-12 | From any accumulator, the loop is forward FNV-1a over the prefix read backwards. |
| `NameHash.Hash` | hash.h:5-14 | `Hash(byte, size)` equals standard FNV-1a over `byte[size−1], …, byte[0]`. |
| `NameHash.Fnv1aTestVectors` | hash.h:10-11 | The step, xor with the byte and multiply by the 64-bit FNV prime modulo 2^64, reproduces the published FNV-1a values of "a" (0xaf63dc4c8601ec8c) and "foobar" (0x85944171f73967e8). |
| `NameHash.HashReadsPrefix` | hash.h:9 | The hash depends only on `byte[0..size)`. |
| `NameHash.HashPrepend` | hash.h:8-12 | The first byte is mixed in last: hashing `x` followed by `s` is one step after hashing `s`. |
| `NameHash.EmptyHash` | hash.h:6-8 | With `size` 0 the result is the offset basis 0xcbf29ce484222325. |
| `NameHash.HashOfCode` | hash.h:5-14 | The hash of the attribute name "Code" is 0x3a5a12602c5b1a2e. |
| `Utils.Hash` | utils.h:6-15 | The utils.h loop computes the same value as hash.h's `Hash` for every input. That value is forward FNV-1a of the reversed prefix. |
| `Findings.NarrowCounterRejectsLargePools` | oclass.c:100 | As written, a well-formed class whose pool count is 256 or more is never parsed. |
| `Findings.WideCounterParsesLargePools` | oclass.c:100 | With a 16-bit counter, every well-formed class is parsed, whatever its pool count. |
| `Findings.NarrowHandleIndexMisreadsEntry` | oclass.c:195-199 | As written, MethodHandle bytes 15 1 0 5 in a pool of count 6 give −4: the index is read as the single byte 0. |
| `Findings.WideHandleIndexReadsEntry` | oclass.c:195-199 | With a two-byte read, the same bytes are MethodHandle(kind 1, index 5), spanning four bytes. |
| `Findings.SentinelDereferenced` | oclass.c:41-89 | As written, an empty file's sentinel passes the null check and, unless the requested version is refused, is read as a class. |
| `Findings.SentinelReportedAsNullFile` | oclass.c:41-85 | With the sentinel recognised, a missing or empty file gives −1. |
| `Samples.SampleParses` | oclass.c:83-251 | A 31-byte class with a Class and a Utf8 entry is parsed by both builds. |
| `Samples.SampleFromMain` | main.c:19-20 | `main`'s call `ParseFile(InitClass(mem, size), JDK_1_7)` accepts that class. |

## Left out

- Float and Double decoding (oclass.c:118-135, 144-167): these involve floating point, `pow`, `INFINITY` and `NAN`. The entries keep their bit patterns as two 32-bit halves.
- The signed casts of Integer, Long and Double halves (oclass.c:115, 138-140, 145-147): the values are stored into locals the C never uses, so they are kept unsigned.
- `log` and `printf` calls: output only.
- main.c: `open`, `stat`, `mmap` and printing the result are left out; the model begins with the mapped bytes. `InitClass`'s `Length` is taken to be the number of mapped bytes, and a failing `malloc` is a parameter.
- precompute.c only prints `Hash` of fixed names, which `NameHash.Hash` covers.
- strtab.c and strtab.h are not part of this model. Their functions are stubs or unimplemented, and none is called by `ParseFile`.
- The `Interfaces`, `Fields` and `Methods` pointers into the buffer (oclass.c:232, 240, 248): they are raw-memory aliasing, stored and never read. Only the counts and their bound checks are modelled.
- `ParseFile` is modelled on a fresh handle, whose `Offset` is 0 as `InitClass` leaves it (oclass.c:50). The C never resets `Offset`, so a second `ParseFile` on the same handle starts where the first stopped; that is not modelled. The C also stores `Minor` and `Major` into the struct before a −3, which the model does not return. The pool entries in `ClassInfo` are the model's; the C reads them into locals and discards them.
- Reads are bounds-checked, which is stricter than the C. A read that would leave the buffer ends the parse in `Undefined`, and a 32- or 64-bit read is refused as a whole when it does not fit.
- Offsets are unbounded naturals. The u64 sums on oclass.c:106, 228, 236 and 244 cannot wrap for a buffer that fits in memory.
- Cursor.ReadU8: its contract states the bounds and the advance only; the value is stated by `Cursor.ReadU8Value`.
- Cursor.ReadU16: its contract states the bounds and the advance only; the value is stated by `Cursor.ReadU16Value`, `Cursor.ReadU16At` and `Cursor.ReadU16Bytes`.
- Cursor.ReadU32: its contract states the bounds and the advance only; the value is stated by `Cursor.ReadU32Value`, `Cursor.ReadU32At` and `Cursor.ReadU32Bytes`.
- Cursor.ReadU64: its contract states the bounds and the advance only; the value is stated by `Cursor.ReadU64Value`.
- Later stages of a class-file reader do not exist in oclass.c and are not modelled. These are cross-reference validation, modified-UTF-8 decoding, the interface, field, method and attribute tables, and a string table. Interface entries are not skipped before the fields count. A class with an empty pool is never parsed, because `this` must name a pool slot (`Parser.ParsedHasPool`).
- `NameHash` takes its bytes as `bv8`, not `u8`, so the 64-bit step is plain bit-vector arithmetic. The two types denote the same byte values.
- `Utils.Hash` performs each loop step with `NameHash.Step`, the xor-then-multiply step, instead of spelling the two statements out again. The two C functions are textually identical.

## Findings

| source | as written | input that shows it | evidently intended | confidence | as-written member | corrected member |
|---|---|---|---|---|---|---|
| oclass.c:100 | The pool loop counter is a `u8`, compared with the 16-bit pool count. It wraps at 256 and never reaches a count of 256 or more. | Any well-formed class with a pool count of 256 or more (255 or more slots): as written it is never parsed. The scan runs on into the bytes after the pool. | A counter as wide as the count, so every slot from 1 to count − 1 is visited. | not executed | `Findings.NarrowCounterRejectsLargePools` | `Findings.WideCounterParsesLargePools` |
| oclass.c:197 | The MethodHandle reference index is read with `ReadU8`. The entry's two-byte index field is then misread and the entry is one byte short. | Pool count 6, bytes 15 1 0 5: the index is read as 0 and refused with −4. | A 16-bit read, giving index 5 and a four-byte entry. | not executed | `Findings.NarrowHandleIndexMisreadsEntry` | `Findings.WideHandleIndexReadsEntry` |
| oclass.c:41-42 | `InitClass` returns `(void*)-1` for a missing or empty buffer. `ParseFile` only checks for `NULL`, so it reads through that pointer. | A direct call `ParseFile(InitClass(p, 0), JDK_1_7)`, or one with a null `p`, gives undefined behaviour. `main` does not reach it, because `mmap` of an empty file fails first. | Reporting a null file, −1. | not executed | `Findings.SentinelDereferenced` | `Findings.SentinelReportedAsNullFile` |
