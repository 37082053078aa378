/** What `ParseFile` reports, and the fields it stores into the class when it
    succeeds. */
module Outcome {
  import opened Types
  import opened Entries

  /** Situations in which the C code has no defined behaviour: a read beyond the
      buffer, or a dereference of the pointer `InitClass` returns for an empty
      buffer. Neither has a return code. */
  datatype Fault = ReadPastEnd(at: nat) | InvalidHandle

  /** The fields stored after the constant pool. */
  datatype Members = Members(
    access: u16,
    thisClass: u16,
    superClass: u16,
    interfacesCount: u16,
    fieldsCount: u16,
    methodsCount: u16)

  /** Everything a successful parse has read: the version, the pool count, the
      entries the pool scan recognised and the fields after the pool. */
  datatype ClassInfo = ClassInfo(minor: u16, major: u16, poolCount: u16, pool: seq<Entry>, members: Members)

  datatype Status =
    | NullFile
    | RequestedVersionTooHigh
    | BadMagic
    | FileVersionTooHigh
    | FormatError
    | Parsed(info: ClassInfo)
    | Undefined(fault: Fault)

  /** The integer `ParseFile` returns for each defined outcome. */
  function ReturnCode(s: Status): (code: int)
    requires !s.Undefined?
    ensures -4 <= code <= 1
    ensures code == 1 <==> s.Parsed?
    ensures code < 0 <==> !(s.Parsed? || s.RequestedVersionTooHigh?)
  {
    match s
    case NullFile => -1
    case RequestedVersionTooHigh => 0
    case BadMagic => -2
    case FileVersionTooHigh => -3
    case FormatError => -4
    case Parsed(_) => 1
  }
}
