/**
  Serialization: the single-format dispatchers `to_string`, `to_vec` and
  `to_writer`. YAML and JSON stream into the writer; TOML and RON are
  serialized in memory first and then written.
*/
module Ser {
  import opened Wrappers
  import opened Formats
  import opened Errors
  import opened Codecs
  import De

  /** `to_string`: encode a value as text with the codec of `format`. */
  function ToString<V>(c: Codec<V>, enabled: set<Format>, v: V, format: Format): (r: Result<string, Error>)
    ensures !IsSupported(enabled, format) ==> r == Failure(UnsupportedFormat(format))
    ensures r.Success? <==> IsSupported(enabled, format) && c.toString(format, v).Success?
    ensures r.Success? ==> r.value == c.toString(format, v).value
    ensures r.Failure? && IsSupported(enabled, format) ==>
      r.error == FromEncodeError(format, c.toString(format, v).error) && IsEncodeError(r.error)
  {
    if !IsSupported(enabled, format) then Failure(UnsupportedFormat(format))
    else
      match c.toString(format, v)
      case Success(s) => Success(s)
      case Failure(e) => Failure(FromEncodeError(format, e))
  }

  /**
    `to_vec`: encode a value as bytes. RON has no byte encoder, so its arm
    takes the RON text and its UTF-8 bytes.
  */
  function ToVec<V>(c: Codec<V>, enabled: set<Format>, v: V, format: Format): (r: Result<Bytes, Error>)
    ensures !IsSupported(enabled, format) ==> r == Failure(UnsupportedFormat(format))
    ensures format != Ron ==>
      (r.Success? <==> IsSupported(enabled, format) && c.toVec(format, v).Success?) &&
      (r.Success? ==> r.value == c.toVec(format, v).value)
    ensures r.Failure? && IsSupported(enabled, format) ==>
      CodecOf(r.error) == Some(format) && IsEncodeError(r.error)
    ensures r.Failure? && IsSupported(enabled, format) && format != Ron ==>
      r.error == FromEncodeError(format, c.toVec(format, v).error)
  {
    if !IsSupported(enabled, format) then Failure(UnsupportedFormat(format))
    else if format == Ron then
      match ToString(c, enabled, v, Ron)
      case Success(s) => Success(Utf8(s))
      case Failure(e) => Failure(e)
    else Encoded(c.toVec(format, v), format)
  }

  /** A codec's byte encoding, its error converted into the common type. */
  function Encoded(out: Result<Bytes, Cause>, f: Format): Result<Bytes, Error> {
    match out
    case Success(b) => Success(b)
    case Failure(e) => Failure(FromEncodeError(f, e))
  }

  /** RON bytes are exactly the UTF-8 encoding of the RON text, and fail alike. */
  lemma RonBytesAreItsText<V>(c: Codec<V>, enabled: set<Format>, v: V)
    ensures ToVec(c, enabled, v, Ron).Success? <==> ToString(c, enabled, v, Ron).Success?
    ensures ToVec(c, enabled, v, Ron).Success? ==>
      ToVec(c, enabled, v, Ron).value == Utf8(ToString(c, enabled, v, Ron).value)
    ensures ToVec(c, enabled, v, Ron).Failure? ==>
      ToVec(c, enabled, v, Ron).error == ToString(c, enabled, v, Ron).error
  {
  }

  /**
    What `to_writer` does to a sink that fails every write with `sink`
    (or accepts every write, when `sink` is None): the bytes appended to it
    and the result.
  */
  function Emit<V>(c: Codec<V>, enabled: set<Format>, v: V, format: Format, sink: Option<Cause>): (out: (Bytes, Result<(), Error>))
    ensures !IsSupported(enabled, format) ==> out == ([], Failure(UnsupportedFormat(format)))
    ensures sink.Some? ==> out.0 == []
    ensures (format == Toml || format == Ron) && out.1.Failure? ==> out.0 == []
    ensures out.1.Failure? && out.1.error.Io? ==>
      (format == Toml || format == Ron) && sink == Some(out.1.error.cause)
    ensures out.1.Failure? && IsSupported(enabled, format) && !out.1.error.Io? ==>
      CodecOf(out.1.error) == Some(format) && IsEncodeError(out.1.error)
  {
    if !IsSupported(enabled, format) then ([], Failure(UnsupportedFormat(format)))
    else
      match format
      case Toml =>
        (match ToVec(c, enabled, v, Toml)
         case Failure(e) => ([], Failure(e))
         case Success(s) => if sink.Some? then ([], Failure(FromIo(sink.value))) else (s, Success(())))
      case Ron =>
        (match ToString(c, enabled, v, Ron)
         case Failure(e) => ([], Failure(e))
         case Success(s) =>
           if Utf8(s) == [] then ([], Success(()))
           else if sink.Some? then ([], Failure(FromIo(sink.value)))
           else (Utf8(s), Success(())))
      case _ =>
        var em := c.toWriter(format, v);
        if em.bytes != [] && sink.Some? then ([], Failure(FromEncodeError(format, sink.value)))
        else (em.bytes, if em.failure.Some? then Failure(FromEncodeError(format, em.failure.value)) else Success(()))
  }

  /**
    A failing sink fails TOML and RON with `Io` and the sink's error, once
    their in-memory encoding succeeded and has something to write.
  */
  lemma FailingSinkIsIo<V>(c: Codec<V>, enabled: set<Format>, v: V, format: Format, sink: Option<Cause>)
    requires sink.Some? && IsSupported(enabled, format)
    ensures format == Toml && ToVec(c, enabled, v, Toml).Success? ==>
      Emit(c, enabled, v, format, sink) == ([], Failure(Io(sink.value)))
    ensures format == Ron && ToString(c, enabled, v, Ron).Success? && Utf8(ToString(c, enabled, v, Ron).value) != [] ==>
      Emit(c, enabled, v, format, sink) == ([], Failure(Io(sink.value)))
  {
  }

  /**
    `to_writer`. TOML and RON write their whole in-memory encoding at once,
    so a serialization error leaves the writer untouched; YAML and JSON hand
    the writer whatever their streaming serializer emits.
  */
  method ToWriter<V>(w: Writer, c: Codec<V>, enabled: set<Format>, v: V, format: Format) returns (r: Result<(), Error>)
    modifies w
    ensures w.data == old(w.data) + Emit(c, enabled, v, format, w.failure).0
    ensures r == Emit(c, enabled, v, format, w.failure).1
  {
    if !IsSupported(enabled, format) {
      return Failure(UnsupportedFormat(format));
    }
    match format {
      case Toml =>
        var s := ToVec(c, enabled, v, Toml);
        if s.Failure? {
          return Failure(s.error);
        }
        var written := w.Write(s.value);
        if written.Failure? {
          return Failure(FromIo(written.error));
        }
        return Success(());
      case Ron =>
        var s := ToString(c, enabled, v, Ron);
        if s.Failure? {
          return Failure(s.error);
        }
        var written := w.WriteAll(Utf8(s.value));
        if written.Failure? {
          return Failure(FromIo(written.error));
        }
        return Success(());
      case _ =>
        var em := c.toWriter(format, v);
        var written := w.WriteAll(em.bytes);
        if written.Failure? {
          return Failure(FromEncodeError(format, written.error));
        }
        if em.failure.Some? {
          return Failure(FromEncodeError(format, em.failure.value));
        }
        return Success(());
    }
  }

  /**
    On a working sink, TOML and RON write exactly the bytes `to_vec` returns,
    and fail exactly when `to_vec` fails, with its error.
  */
  lemma WriterAgreesWithToVec<V>(c: Codec<V>, enabled: set<Format>, v: V, format: Format)
    requires format == Toml || format == Ron
    ensures Emit(c, enabled, v, format, None).1.Success? <==> ToVec(c, enabled, v, format).Success?
    ensures ToVec(c, enabled, v, format).Success? ==> Emit(c, enabled, v, format, None).0 == ToVec(c, enabled, v, format).value
    ensures ToVec(c, enabled, v, format).Failure? ==>
      Emit(c, enabled, v, format, None).1 == Failure(ToVec(c, enabled, v, format).error)
  {
  }

  /**
    A streaming codec whose `to_writer` emits, without error, exactly what
    its `to_vec` returns.
  */
  predicate StreamsItsBytes<V>(c: Codec<V>, f: Format, v: V) {
    c.toVec(f, v).Success? ==> c.toWriter(f, v) == Emission(c.toVec(f, v).value, None)
  }

  /**
    For YAML and JSON the agreement between `to_writer` and `to_vec` is the
    codec's own: given it, the writer receives exactly the `to_vec` bytes.
  */
  lemma StreamingWriterAgreesWithToVec<V>(c: Codec<V>, enabled: set<Format>, v: V, format: Format)
    requires format == Format.Json || format == Format.Yaml
    requires StreamsItsBytes(c, format, v)
    ensures ToVec(c, enabled, v, format).Success? ==>
      Emit(c, enabled, v, format, None) == (ToVec(c, enabled, v, format).value, Success(()))
  {
  }

  /** The dispatcher answered `UnsupportedFormat(f)`. */
  predicate Refuses<T>(r: Result<T, Error>, f: Format) {
    r.Failure? && r.error == UnsupportedFormat(f)
  }

  /**
    Every dispatcher has an arm for each enabled format: none of them
    answers `UnsupportedFormat` for an enabled format, and each answers it
    for a disabled one.
  */
  lemma DispatchIffEnabled<V>(c: Codec<V>, enabled: set<Format>, format: Format, v: V, s: string, b: Bytes, reader: Reader, sink: Option<Cause>)
    ensures !IsSupported(enabled, format) <==> Refuses(ToString(c, enabled, v, format), format)
    ensures !IsSupported(enabled, format) <==> Refuses(ToVec(c, enabled, v, format), format)
    ensures !IsSupported(enabled, format) <==> Refuses(Emit(c, enabled, v, format, sink).1, format)
    ensures !IsSupported(enabled, format) <==> Refuses(De.FromStr(c, enabled, s, format), format)
    ensures !IsSupported(enabled, format) <==> Refuses(De.FromSlice(c, enabled, b, format), format)
    ensures !IsSupported(enabled, format) <==> Refuses(De.FromReader(c, enabled, reader, format), format)
  {
  }
}
