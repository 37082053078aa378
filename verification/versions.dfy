/** The constants of oclass.h: the `ClassFileVersion` enumeration, the magic
    number and the highest supported major version. */
module Versions {
  // Each enumerator without an initializer is its predecessor plus one.
  const JDK_1_0: nat := 45
  const JDK_1_1: nat := 45
  const JDK_1_2: nat := JDK_1_1 + 1
  const JDK_1_3: nat := JDK_1_2 + 1
  const JDK_1_4: nat := JDK_1_3 + 1
  const JDK_1_5: nat := JDK_1_4 + 1
  const JDK_1_6: nat := JDK_1_5 + 1
  const JDK_1_7: nat := JDK_1_6 + 1
  const JDK_VERMAX: nat := JDK_1_7 + 1

  const JAVA_MAGIC: nat := 0xCAFEBABE
  const MAX_VERSION: int := JDK_VERMAX - 1

  /** The numeric values the enumeration takes, and the ceiling they give. */
  lemma VersionValues()
    ensures JDK_1_0 == JDK_1_1 == 45
    ensures JDK_1_2 == 46 && JDK_1_3 == 47 && JDK_1_4 == 48
    ensures JDK_1_5 == 49 && JDK_1_6 == 50 && JDK_1_7 == 51
    ensures JDK_VERMAX == 52
    ensures MAX_VERSION == JDK_1_7 == 51
    ensures JAVA_MAGIC == 0xCA * 0x100_0000 + 0xFE * 0x1_0000 + 0xBA * 0x100 + 0xBE
  {
  }
}
