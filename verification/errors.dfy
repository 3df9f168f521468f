/**
  The common error type and its `From` conversions. A codec's native error
  is kept as an opaque `Cause`; which variant wraps it records the codec and,
  where the codec has two error types, the direction.
*/
module Errors {
  import opened Wrappers
  import F = Formats

  /** The native error of a codec or of the operating system, kept as the cause. */
  datatype Cause = Cause(detail: string)

  datatype Error =
    | Json(cause: Cause)
    | Yaml(cause: Cause)
    | TomlDeserialize(cause: Cause)
    | TomlSerialize(cause: Cause)
    | RonDeserialize(cause: Cause)
    | RonSerialize(cause: Cause)
    | Xml(cause: Cause)
    | UrlDeserialize(cause: Cause)
    | UrlSerialize(cause: Cause)
    | Io(cause: Cause)
      /** The format is known but its feature is not enabled. */
    | UnsupportedFormat(format: F.Format)
      /** A write target whose extension names no format ("" when it has none). */
    | UnsupportedFileExtension(ext: string)
      /** Every tried format failed; one record per try, in the order tried. */
    | NoSuccessfulParse(attempts: seq<Attempt>)

  /** One failed try while probing: the format tried and the error it gave. */
  datatype Attempt = Attempt(format: F.Format, error: Error)

  /** The format whose codec produced a codec error. */
  function CodecOf(e: Error): Option<F.Format> {
    match e
    case Json(_) => Some(F.Json)
    case Yaml(_) => Some(F.Yaml)
    case TomlDeserialize(_) => Some(F.Toml)
    case TomlSerialize(_) => Some(F.Toml)
    case RonDeserialize(_) => Some(F.Ron)
    case RonSerialize(_) => Some(F.Ron)
    case _ => None
  }

  /** A variant that can carry a decoding failure. */
  predicate IsDecodeError(e: Error) {
    e.Json? || e.Yaml? || e.TomlDeserialize? || e.RonDeserialize? || e.Xml? || e.UrlDeserialize?
  }

  /** A variant that can carry an encoding failure. */
  predicate IsEncodeError(e: Error) {
    e.Json? || e.Yaml? || e.TomlSerialize? || e.RonSerialize? || e.UrlSerialize?
  }

  /** "Not attempted": the input never reached a codec. */
  predicate NotAttempted(e: Error) {
    e.UnsupportedFormat? || e.UnsupportedFileExtension?
  }

  /** `From<io::Error>`. */
  function FromIo(c: Cause): (e: Error)
    ensures e.Io? && e.cause == c && CodecOf(e).None? && !NotAttempted(e)
    ensures !IsDecodeError(e) && !IsEncodeError(e)
  {
    Io(c)
  }

  /** `From` for the deserialization error of the codec of `f`. */
  function FromDecodeError(f: F.Format, c: Cause): (e: Error)
    ensures CodecOf(e) == Some(f) && e.cause == c
    ensures IsDecodeError(e) && !NotAttempted(e)
  {
    match f
    case Json => Json(c)
    case Yaml => Yaml(c)
    case Toml => TomlDeserialize(c)
    case Ron => RonDeserialize(c)
  }

  /** `From` for the serialization error of the codec of `f`. */
  function FromEncodeError(f: F.Format, c: Cause): (e: Error)
    ensures CodecOf(e) == Some(f) && e.cause == c
    ensures IsEncodeError(e) && !NotAttempted(e)
  {
    match f
    case Json => Json(c)
    case Yaml => Yaml(c)
    case Toml => TomlSerialize(c)
    case Ron => RonSerialize(c)
  }

  /** `From<xml::Error>` wraps the XML error before storing it. */
  function FromXml(c: Cause): (e: Error)
    ensures e.Xml? && e.cause == c && IsDecodeError(e) && CodecOf(e).None?
  {
    Xml(c)
  }

  /** The two `From` conversions of the URL-encoding codec. */
  function FromUrlDecodeError(c: Cause): (e: Error)
    ensures e.UrlDeserialize? && e.cause == c && CodecOf(e).None?
    ensures IsDecodeError(e) && !IsEncodeError(e)
  {
    UrlDeserialize(c)
  }

  function FromUrlEncodeError(c: Cause): (e: Error)
    ensures e.UrlSerialize? && e.cause == c && CodecOf(e).None?
    ensures IsEncodeError(e) && !IsDecodeError(e)
  {
    UrlSerialize(c)
  }

  /**
    Each conversion keeps the codec and the cause apart: different formats or
    causes never give the same error. JSON and YAML use one error type for
    both directions; TOML and RON have one per direction.
  */
  lemma ConversionsAreInjective(f: F.Format, g: F.Format, c: Cause, d: Cause)
    ensures FromDecodeError(f, c) == FromDecodeError(g, d) ==> f == g && c == d
    ensures FromEncodeError(f, c) == FromEncodeError(g, d) ==> f == g && c == d
    ensures FromDecodeError(f, c) == FromEncodeError(g, d) <==> f == g && c == d && (f == F.Json || f == F.Yaml)
  {
  }

  /**
    The errors a build with features `enabled` can produce: a codec variant
    only for an enabled codec (XML and URL-encoding are not among this
    registry's formats), and probing records only tries of enabled formats.
  */
  predicate Admissible(enabled: set<F.Format>, e: Error)
    decreases e
  {
    match e
    case Xml(_) => false
    case UrlDeserialize(_) => false
    case UrlSerialize(_) => false
    case NoSuccessfulParse(attempts) =>
      forall i :: 0 <= i < |attempts| ==>
        attempts[i].format in enabled && Admissible(enabled, attempts[i].error)
    case _ => CodecOf(e).None? || CodecOf(e).value in enabled
  }
}
