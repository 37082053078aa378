/** A small class file worked through the parser by hand: a pool of a Class
    entry naming a one-letter Utf8 entry, `this` and `super` both slot 1, no
    interfaces, fields or methods, and a two-byte attribute count after them. */
module Samples {
  import opened Types
  import opened Builds
  import opened Cursor
  import opened Entries
  import opened Outcome
  import opened ConstantPool
  import opened Versions
  import opened Parser

  const SampleClass: seq<u8> := [
    0xCA, 0xFE, 0xBA, 0xBE,  // magic
    0, 0, 0, 0x33,           // minor 0, major 51
    0, 3,                    // pool count 3
    7, 0, 2,                 // #1 Class, name #2
    1, 0, 1, 0x41,           // #2 Utf8 "A"
    0, 0x21,                 // access
    0, 1, 0, 1,              // this #1, super #1
    0, 0, 0, 0, 0, 0,        // no interfaces, fields or methods
    0, 0]                    // attribute count

  const SampleInfo: ClassInfo :=
    ClassInfo(0, 0x33, 3, [Class(2), Utf8([0x41])], Members(0x21, 1, 1, 0, 0, 0))

  lemma SampleClassEntry(build: Build)
    ensures ReadEntry(SampleClass, 10, 3, build) == Next(Class(2), 13)
  {
    assert ReadU8(SampleClass, 10) == Got(7, 11);
    assert Layout(7, build) == [Two] && [Two][1..] == [];
    assert ReadField(SampleClass, 11, Two) == Got(2, 13);
    assert ReadFields(SampleClass, 13, []) == Got([], 13);
    assert ReadFields(SampleClass, 11, [Two]).value == [2] + [] == [2];
  }

  lemma SampleUtf8Entry(build: Build)
    ensures ReadEntry(SampleClass, 13, 3, build) == Next(Utf8([0x41]), 17)
  {
    assert ReadU8(SampleClass, 13) == Got(1, 14);
    assert ReadU16(SampleClass, 14) == Got(1, 16);
    assert SampleClass[16..17] == [0x41];
  }

  /** The scan visits slots 1 and 2 and stops at the access flags. */
  lemma SamplePool(build: Build)
    ensures ScanPool(SampleClass, 10, 3, 1, build) == Scanned([Class(2), Utf8([0x41])], 17)
  {
    SampleClassEntry(build);
    SampleUtf8Entry(build);
    assert ScanPool(SampleClass, 17, 3, 3, build) == Scanned([], 17);
    ScanPoolFold(SampleClass, 13, Utf8([0x41]), 17, [], 17, 3, 2, build);
    ScanPoolFold(SampleClass, 10, Class(2), 13, [Utf8([0x41])], 17, 3, 1, build);
  }

  lemma SampleMembers()
    ensures ParseMembers(SampleClass, 17, 3) == Read(SampleInfo.members)
  {
  }

  lemma SamplePoolParsed(build: Build)
    ensures ParsePool(SampleClass, 8, 0, 0x33, build) == Parsed(SampleInfo)
  {
    assert ReadU16(SampleClass, 8) == Got(3, 10);
    SamplePool(build);
    SampleMembers();
  }

  lemma SampleVersionParsed(build: Build)
    ensures ParseVersion(SampleClass, 4, 51, build) == Parsed(SampleInfo)
  {
    assert ReadU16(SampleClass, 4) == Got(0, 6);
    assert ReadU16(SampleClass, 6) == Got(0x33, 8);
    SamplePoolParsed(build);
  }

  /** Both builds parse the sample. */
  lemma SampleParses(build: Build)
    ensures ParseBytes(SampleClass, 51, build) == Parsed(SampleInfo)
  {
    assert ReadU32(SampleClass, 0) == Got(JAVA_MAGIC, 4);
    SampleVersionParsed(build);
  }

  /** `main`'s call, with the newest supported version requested, parses the
      sample. */
  lemma SampleFromMain(build: Build)
    ensures ParseFile(InitClass(Mapped(SampleClass), true), JDK_1_7 as u16, build) == Parsed(SampleInfo)
  {
    SampleParses(build);
  }
}
