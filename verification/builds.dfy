/** The reader exists here in two builds: the code as written, and the same code
    with its three evident defects repaired. Every definition that differs
    between them asks one of the predicates below. */
module Builds {
  datatype Build = AsWritten | Corrected

  /** The constant-pool loop counter is a `u8`, so it wraps modulo 256. */
  predicate WrapsPoolCounter(build: Build) {
    build.AsWritten?
  }

  /** The MethodHandle reference index is read with a one-byte read. */
  predicate ByteWideHandleIndex(build: Build) {
    build.AsWritten?
  }

  /** `ParseFile` takes the `(void*)-1` that `InitClass` returns for an empty
      buffer for a real class and dereferences it. */
  predicate DereferencesSentinel(build: Build) {
    build.AsWritten?
  }
}
