/** Reported errors, kept as kinds and levels. */
module Errors {
  datatype ErrorLevel = ErrorLevel | WarningLevel

  datatype ErrorKind =
    | UnknownError
    | IoError
    | ShadowingType
    | ShadowingMember
    | UnknownType
    | OptionMustBeString
    | OptionMustBeStringTyped
    | UnknownOptionValue
    | UnknownOptionValueTyped
    | AmbiguousOption
    | DuplicateOption
    | OptionInvalidForType
    | UnknownOptionType
    | UnexpectedEndOfStream
    | LittleEndianAlign
    | FieldsMustBeStatic
    | NoTypes

  /** A value, or the error a call reports when it returns false. */
  datatype Result<+T> = Ok(value: T) | Err(kind: ErrorKind)

  datatype ErrorInfo = ErrorInfo(kind: ErrorKind, level: ErrorLevel)

  class ErrorCollection {
    var errors: seq<ErrorInfo>
    var hasErrors: bool

    constructor ()
      ensures errors == [] && !hasErrors
    {
      errors, hasErrors := [], false;
    }

    method Add(info: ErrorInfo)
      modifies this
      ensures errors == old(errors) + [info]
      ensures hasErrors == (old(hasErrors) || info.level == ErrorLevel.ErrorLevel)
    {
      errors := errors + [info];
      if info.level == ErrorLevel.ErrorLevel {
        hasErrors := true;
      }
    }
  }

  function Fatal(kind: ErrorKind): ErrorInfo {
    ErrorInfo(kind, ErrorLevel.ErrorLevel)
  }

  function Fatals(kinds: seq<ErrorKind>): (r: seq<ErrorInfo>)
    ensures |r| == |kinds|
  {
    seq(|kinds|, i requires 0 <= i < |kinds| => Fatal(kinds[i]))
  }

  lemma FatalsConcat(a: seq<ErrorKind>, b: seq<ErrorKind>)
    ensures Fatals(a + b) == Fatals(a) + Fatals(b)
  {
  }
}
