/**
 The library's error taxonomy and the two places where a platform errno is
 classified into it: opening a converter and running one conversion call.
 */
module Errors {

  /** errno values of the Linux C library that iconv_open and iconv report. */
  const E2BIG: int := 7
  const EINVAL: int := 22
  const EILSEQ: int := 84

  /** `IconvError`: why opening or running a converter failed. */
  datatype IconvError =
    | ConversionNotSupport   // the encoding pair is unknown to the platform
    | OsError(code: int)     // any other errno, kept verbatim
    | IncompleteInput        // the input ends inside a multi-byte sequence
    | InvalidInput           // an illegal byte sequence was met
    | NotSufficientOutput    // the output region is full

  /** The errno a classified error stands for; inverse of both classifications below. */
  function Errno(e: IconvError): (errno: int)
  {
    match e
    case ConversionNotSupport => EINVAL
    case OsError(code) => code
    case IncompleteInput => EINVAL
    case InvalidInput => EILSEQ
    case NotSufficientOutput => E2BIG
  }

  /** Classification of a failed `iconv_open`: only EINVAL means the pair is unsupported. */
  function OpenError(errno: int): (e: IconvError)
    ensures e == ConversionNotSupport <==> errno == EINVAL
    ensures e != ConversionNotSupport ==> e == OsError(errno)
  {
    if errno == EINVAL then ConversionNotSupport else OsError(errno)
  }

  /** Classification of a failed `iconv` call. */
  function ConvertError(errno: int): (e: IconvError)
    ensures e == NotSufficientOutput <==> errno == E2BIG
    ensures e == IncompleteInput <==> errno == EINVAL
    ensures e == InvalidInput <==> errno == EILSEQ
    ensures e.OsError? <==> errno !in {E2BIG, EINVAL, EILSEQ}
    ensures e.OsError? ==> e.code == errno
    ensures e != ConversionNotSupport
  {
    if errno == E2BIG then NotSufficientOutput
    else if errno == EINVAL then IncompleteInput
    else if errno == EILSEQ then InvalidInput
    else OsError(errno)
  }

  /** The errors a conversion call can report: everything but an open failure,
      and an `OsError` only for an errno with no dedicated variant. */
  predicate IsConvertError(e: IconvError)
  {
    match e
    case ConversionNotSupport => false
    case OsError(code) => code !in {E2BIG, EINVAL, EILSEQ}
    case _ => true
  }

  /** Classifying a conversion errno loses nothing: the errno is recovered, and
      every conversion error is the classification of exactly its own errno. */
  lemma ConvertErrorRoundTrip(errno: int, e: IconvError)
    ensures Errno(ConvertError(errno)) == errno
    ensures IsConvertError(ConvertError(errno))
    ensures IsConvertError(e) ==> ConvertError(Errno(e)) == e
  {
  }

  /** The same for `iconv_open`: the errno is recovered from the error. */
  lemma OpenErrorRoundTrip(errno: int, e: IconvError)
    ensures Errno(OpenError(errno)) == errno
    ensures (e.ConversionNotSupport? || (e.OsError? && e.code != EINVAL)) ==> OpenError(Errno(e)) == e
  {
  }
}

/**
 The part of `std::io` the library touches: error kinds and the conversion of
 an `IconvError` into an I/O error.
 */
module Io {
  import Errors

  /** The `std::io::ErrorKind` values the library produces itself. */
  datatype ErrorKind = Unsupported | InvalidInput | InvalidData

  /** An I/O error: either a raw OS error code, or a custom error of some kind
      that carries the conversion error it was made from. Errors of the byte
      source and sink are values of this type too. */
  datatype IoError = Os(code: int) | Custom(kind: ErrorKind, cause: Errors.IconvError)

  /** `IconvError::into_io_error`. */
  function IntoIoError(e: Errors.IconvError): (r: IoError)
    ensures r.Os? <==> e.OsError?
    ensures r.Os? ==> r.code == e.code
    ensures r.Custom? ==> r.cause == e
    ensures e == Errors.ConversionNotSupport ==> r.kind == Unsupported
    ensures e == Errors.NotSufficientOutput ==> r.kind == InvalidInput
    ensures e == Errors.IncompleteInput ==> r.kind == InvalidInput
    ensures e == Errors.InvalidInput ==> r.kind == InvalidData
  {
    match e
    case OsError(code) => Os(code)
    case ConversionNotSupport => Custom(Unsupported, e)
    case NotSufficientOutput => Custom(InvalidInput, e)
    case InvalidInput => Custom(InvalidData, e)
    case IncompleteInput => Custom(InvalidInput, e)
  }

  /** The inverse of `IntoIoError`: the conversion error an I/O error carries. */
  function Cause(r: IoError): (e: Errors.IconvError)
  {
    match r
    case Os(code) => Errors.OsError(code)
    case Custom(_, cause) => cause
  }

  /** No conversion error is lost or confused when it becomes an I/O error. */
  lemma IntoIoErrorInjective(a: Errors.IconvError, b: Errors.IconvError)
    ensures Cause(IntoIoError(a)) == a
    ensures IntoIoError(a) == IntoIoError(b) ==> a == b
  {
  }
}
