/**
  Deserialization: the single-format dispatchers (`from_reader`, `from_str`,
  `from_slice`) and probing (`from_str_any`, `from_slice_any`), which tries
  the supported formats in priority order and returns the first success.
*/
module De {
  import opened Wrappers
  import opened Formats
  import opened Errors
  import opened Codecs

  /** A codec's decoding outcome, its error converted into the common type. */
  function Decoded<V>(out: Result<V, Cause>, f: Format): Result<V, Error> {
    match out
    case Success(v) => Success(v)
    case Failure(c) => Failure(FromDecodeError(f, c))
  }

  /**
    `from_reader`. TOML has no streaming reader, so its arm reads the whole
    stream into a buffer first and decodes the buffer; the other codecs read
    the stream themselves.
  */
  function FromReader<V>(c: Codec<V>, enabled: set<Format>, reader: Reader, format: Format): Result<V, Error> {
    if !IsSupported(enabled, format) then Failure(UnsupportedFormat(format))
    else
      match format
      case Toml =>
        (match ReadToEnd(reader)
         case Failure(io) => Failure(FromIo(io))
         case Success(buffer) => Decoded(c.fromSlice(Toml, buffer), Toml))
      case _ => Decoded(c.fromReader(format, reader), format)
  }

  /**
    What `from_reader` can answer: `UnsupportedFormat` exactly for a disabled
    format; `Io` only from TOML, with the reader's own error; otherwise the
    chosen codec's decode error, or its value, which for TOML is the value
    the codec gives for the whole stream.
  */
  lemma FromReaderOutcomes<V>(c: Codec<V>, enabled: set<Format>, reader: Reader, format: Format)
    ensures var r := FromReader(c, enabled, reader, format);
      (!IsSupported(enabled, format) <==> r == Failure(UnsupportedFormat(format))) &&
      (r.Failure? && r.error.Io? ==> format == Toml && reader.failure == Some(r.error.cause)) &&
      (r.Failure? && IsSupported(enabled, format) && !r.error.Io? ==>
        CodecOf(r.error) == Some(format) && IsDecodeError(r.error)) &&
      (r.Success? && format == Toml ==>
        reader.failure.None? && c.fromSlice(Toml, reader.data) == Success(r.value)) &&
      (r.Success? && format != Toml ==>
        IsSupported(enabled, format) && c.fromReader(format, reader) == Success(r.value))
    ensures var r := FromReader(c, enabled, reader, format);
      IsSupported(enabled, format) && format != Toml ==>
        (r.Success? <==> c.fromReader(format, reader).Success?) &&
        (r.Failure? ==> r.error == FromDecodeError(format, c.fromReader(format, reader).error))
    ensures var r := FromReader(c, enabled, reader, format);
      IsSupported(enabled, Toml) && format == Toml ==>
        (reader.failure.Some? ==> r == Failure(Io(reader.failure.value))) &&
        (reader.failure.None? ==>
          (r.Success? <==> c.fromSlice(Toml, reader.data).Success?) &&
          (r.Failure? ==> r.error == FromDecodeError(Toml, c.fromSlice(Toml, reader.data).error)))
  {
  }

  /** `from_str`: decode text with the codec of `format`. */
  function FromStr<V>(c: Codec<V>, enabled: set<Format>, s: string, format: Format): Result<V, Error> {
    if !IsSupported(enabled, format) then Failure(UnsupportedFormat(format))
    else Decoded(c.fromStr(format, s), format)
  }

  /**
    `from_str` answers `UnsupportedFormat` exactly for a disabled format;
    otherwise the codec's value, or its error in the codec's own variant.
  */
  lemma FromStrOutcomes<V>(c: Codec<V>, enabled: set<Format>, s: string, format: Format)
    ensures var r := FromStr(c, enabled, s, format);
      (!IsSupported(enabled, format) <==> r == Failure(UnsupportedFormat(format))) &&
      (r.Success? <==> IsSupported(enabled, format) && c.fromStr(format, s).Success?) &&
      (r.Success? ==> r.value == c.fromStr(format, s).value) &&
      (r.Failure? && IsSupported(enabled, format) ==>
        r.error == FromDecodeError(format, c.fromStr(format, s).error) && IsDecodeError(r.error))
  {
  }

  /** `from_slice`: decode bytes with the codec of `format`. */
  function FromSlice<V>(c: Codec<V>, enabled: set<Format>, s: Bytes, format: Format): Result<V, Error> {
    if !IsSupported(enabled, format) then Failure(UnsupportedFormat(format))
    else Decoded(c.fromSlice(format, s), format)
  }

  /**
    `from_slice` answers `UnsupportedFormat` exactly for a disabled format;
    otherwise the codec's value, or its error in the codec's own variant.
  */
  lemma FromSliceOutcomes<V>(c: Codec<V>, enabled: set<Format>, s: Bytes, format: Format)
    ensures var r := FromSlice(c, enabled, s, format);
      (!IsSupported(enabled, format) <==> r == Failure(UnsupportedFormat(format))) &&
      (r.Success? <==> IsSupported(enabled, format) && c.fromSlice(format, s).Success?) &&
      (r.Success? ==> r.value == c.fromSlice(format, s).value) &&
      (r.Failure? && IsSupported(enabled, format) ==>
        r.error == FromDecodeError(format, c.fromSlice(format, s).error) && IsDecodeError(r.error))
  {
  }

  /**
    A disabled format, or a TOML stream that cannot be read to its end, gives
    the same result whatever the codecs are: no codec is invoked.
  */
  lemma NoCodecBeforeDispatch<V>(c1: Codec<V>, c2: Codec<V>, enabled: set<Format>, reader: Reader, s: string, bytes: Bytes, format: Format)
    requires !IsSupported(enabled, format) || (format == Toml && reader.failure.Some?)
    ensures FromReader(c1, enabled, reader, format) == FromReader(c2, enabled, reader, format)
    ensures IsSupported(enabled, format) ==> FromReader(c1, enabled, reader, format) == Failure(Io(reader.failure.value))
    ensures !IsSupported(enabled, format) ==>
      FromStr(c1, enabled, s, format) == FromStr(c2, enabled, s, format) &&
      FromSlice(c1, enabled, bytes, format) == FromSlice(c2, enabled, bytes, format)
  {
  }

  // ----- probing -----

  /** The record of one failed try, kept when the try is tagged with a format. */
  function Record(tag: Option<Format>, e: Error): seq<Attempt> {
    match tag
    case Some(f) => [Attempt(f, e)]
    case None => []
  }

  /** Prefixes the records of earlier failed tries to the outcome of the rest. */
  function Continue<V>(earlier: seq<Attempt>, rest: Result<V, seq<Attempt>>): Result<V, seq<Attempt>> {
    match rest
    case Success(v) => Success(v)
    case Failure(later) => Failure(earlier + later)
  }

  lemma ContinueAppend<V>(a: seq<Attempt>, b: seq<Attempt>, rest: Result<V, seq<Attempt>>)
    ensures Continue(a, Continue(b, rest)) == Continue(a + b, rest)
  {
    if rest.Failure? {
      assert a + (b + rest.error) == (a + b) + rest.error;
    }
  }

  /**
    Tries `attempt` on each key in order. The first success is the result and
    ends the search; otherwise the result is the record of every failure, in
    the order tried.
  */
  function FirstSuccess<K, V>(keys: seq<K>, tag: K -> Option<Format>, attempt: K -> Result<V, Error>): Result<V, seq<Attempt>>
    decreases |keys|
  {
    if keys == [] then Failure([])
    else
      match attempt(keys[0])
      case Success(v) => Success(v)
      case Failure(e) => Continue(Record(tag(keys[0]), e), FirstSuccess(keys[1..], tag, attempt))
  }

  /** The first successful key decides the result; no later key matters. */
  lemma {:induction false} FirstSuccessAt<K, V>(keys: seq<K>, tag: K -> Option<Format>, attempt: K -> Result<V, Error>, i: nat)
    requires i < |keys| && attempt(keys[i]).Success?
    requires forall j :: 0 <= j < i ==> attempt(keys[j]).Failure?
    ensures FirstSuccess(keys, tag, attempt) == Success(attempt(keys[i]).value)
    decreases i
  {
    if i > 0 {
      assert attempt(keys[0]).Failure?;
      forall j | 0 <= j < i - 1 ensures attempt(keys[1..][j]).Failure? {
        assert keys[1..][j] == keys[j + 1];
      }
      FirstSuccessAt(keys[1..], tag, attempt, i - 1);
    }
  }

  /**
    The search fails exactly when every key fails, and then, when every key
    is tagged, it records one attempt per key, in key order.
  */
  lemma {:induction false} FirstSuccessExhausted<K, V>(keys: seq<K>, tag: K -> Option<Format>, attempt: K -> Result<V, Error>)
    ensures FirstSuccess(keys, tag, attempt).Failure? <==>
      forall i :: 0 <= i < |keys| ==> attempt(keys[i]).Failure?
    ensures (forall i :: 0 <= i < |keys| ==> tag(keys[i]).Some?) && FirstSuccess(keys, tag, attempt).Failure? ==>
        var records := FirstSuccess(keys, tag, attempt).error;
        |records| == |keys| &&
        forall i :: 0 <= i < |keys| ==>
          records[i] == Attempt(tag(keys[i]).value, attempt(keys[i]).error)
    decreases |keys|
  {
    if keys != [] {
      var tail := keys[1..];
      FirstSuccessExhausted(tail, tag, attempt);
      assert forall i :: 0 <= i < |tail| ==> tail[i] == keys[i + 1];
      assert (forall i :: 0 <= i < |keys| ==> attempt(keys[i]).Failure?) <==>
        attempt(keys[0]).Failure? && forall i :: 0 <= i < |tail| ==> attempt(tail[i]).Failure?;
    }
  }

  /** Membership form of the exhaustion property: the search fails iff every key fails. */
  lemma FirstSuccessFailsIffAllFail<K, V>(keys: seq<K>, tag: K -> Option<Format>, attempt: K -> Result<V, Error>)
    ensures FirstSuccess(keys, tag, attempt).Failure? <==> forall k :: k in keys ==> attempt(k).Failure?
  {
    FirstSuccessExhausted(keys, tag, attempt);
    if forall i :: 0 <= i < |keys| ==> attempt(keys[i]).Failure? {
      forall k | k in keys ensures attempt(k).Failure? {
        var i :| 0 <= i < |keys| && keys[i] == k;
      }
    }
  }

  /** A search loop starts with no records and all keys ahead of it. */
  lemma FirstSuccessStart<K, V>(keys: seq<K>, tag: K -> Option<Format>, attempt: K -> Result<V, Error>)
    ensures FirstSuccess(keys, tag, attempt) == Continue([], FirstSuccess(keys[0..], tag, attempt))
  {
    assert keys[0..] == keys;
    if FirstSuccess(keys, tag, attempt).Failure? {
      assert [] + FirstSuccess(keys, tag, attempt).error == FirstSuccess(keys, tag, attempt).error;
    }
  }

  /**
    One step of a search loop that has recorded `records` for the keys
    before `i`: a success at `i` is the result; a failure adds its record.
  */
  lemma FirstSuccessStep<K, V>(keys: seq<K>, tag: K -> Option<Format>, attempt: K -> Result<V, Error>, i: nat, records: seq<Attempt>)
    requires i < |keys|
    requires FirstSuccess(keys, tag, attempt) == Continue(records, FirstSuccess(keys[i..], tag, attempt))
    ensures attempt(keys[i]).Success? ==> FirstSuccess(keys, tag, attempt) == Success(attempt(keys[i]).value)
    ensures attempt(keys[i]).Failure? ==>
      FirstSuccess(keys, tag, attempt) ==
      Continue(records + Record(tag(keys[i]), attempt(keys[i]).error), FirstSuccess(keys[i + 1..], tag, attempt))
  {
    assert keys[i..][0] == keys[i] && keys[i..][1..] == keys[i + 1..];
    if attempt(keys[i]).Failure? {
      ContinueAppend(records, Record(tag(keys[i]), attempt(keys[i]).error), FirstSuccess(keys[i + 1..], tag, attempt));
    }
  }

  /** A search loop that ran out of keys has recorded the whole failure. */
  lemma FirstSuccessEnd<K, V>(keys: seq<K>, tag: K -> Option<Format>, attempt: K -> Result<V, Error>, records: seq<Attempt>)
    requires FirstSuccess(keys, tag, attempt) == Continue(records, FirstSuccess(keys[|keys|..], tag, attempt))
    ensures FirstSuccess(keys, tag, attempt) == Failure(records)
  {
    assert records + [] == records;
  }

  /** Probing labels each try with the format tried. */
  function Tagged(f: Format): Option<Format> {
    Some(f)
  }

  /**
    The outcome of probing with a single-format decoder: the supported
    formats are tried in priority order; the first success wins, and if none
    succeeds the error lists every tried format with its error.
  */
  function Probe<V>(enabled: set<Format>, decode: Format -> Result<V, Error>): Result<V, Error> {
    match FirstSuccess(SupportedFormats(enabled), Tagged, decode)
    case Success(v) => Success(v)
    case Failure(attempts) => Failure(NoSuccessfulParse(attempts))
  }

  /**
    Probing is deterministic in the priority order: when the format at
    position `i` is the first that decodes, its value is the result, whether
    or not any later format would also decode.
  */
  lemma ProbeFirstSuccessWins<V>(enabled: set<Format>, decode: Format -> Result<V, Error>, i: nat)
    requires i < |SupportedFormats(enabled)|
    requires decode(SupportedFormats(enabled)[i]).Success?
    requires forall j :: 0 <= j < i ==> decode(SupportedFormats(enabled)[j]).Failure?
    ensures Probe(enabled, decode) == decode(SupportedFormats(enabled)[i])
  {
    FirstSuccessAt(SupportedFormats(enabled), Tagged, decode, i);
  }

  /**
    Probing fails exactly when every enabled format fails, and then with
    `NoSuccessfulParse` holding one attempt per enabled format, in priority
    order, each with the error that format gave.
  */
  lemma ProbeExhausted<V>(enabled: set<Format>, decode: Format -> Result<V, Error>)
    ensures Probe(enabled, decode).Failure? <==> forall f :: f in enabled ==> decode(f).Failure?
    ensures Probe(enabled, decode).Failure? ==>
      var formats := SupportedFormats(enabled);
      var e := Probe(enabled, decode).error;
      e.NoSuccessfulParse? && |e.attempts| == |formats| == |enabled| &&
      forall i :: 0 <= i < |formats| ==> e.attempts[i] == Attempt(formats[i], decode(formats[i]).error)
  {
    var formats := SupportedFormats(enabled);
    FirstSuccessExhausted(formats, Tagged, decode);
    SupportedFormatsCount(enabled);
    FirstSuccessFailsIffAllFail(formats, Tagged, decode);
    SupportedFormatsInOrder(enabled);
  }

  /**
    Every error a single-format decoder gives is one the build can produce:
    a codec variant only of an enabled codec.
  */
  lemma DecodeErrorsAdmissible<V>(c: Codec<V>, enabled: set<Format>, s: string, bytes: Bytes, reader: Reader, format: Format)
    ensures FromStr(c, enabled, s, format).Failure? ==> Admissible(enabled, FromStr(c, enabled, s, format).error)
    ensures FromSlice(c, enabled, bytes, format).Failure? ==> Admissible(enabled, FromSlice(c, enabled, bytes, format).error)
    ensures FromReader(c, enabled, reader, format).Failure? ==> Admissible(enabled, FromReader(c, enabled, reader, format).error)
  {
  }

  /**
    Probing with a decoder whose every error is admissible fails only with an
    admissible error: each recorded attempt names an enabled format and
    holds an admissible error.
  */
  lemma ProbeAdmissible<V>(enabled: set<Format>, decode: Format -> Result<V, Error>)
    requires forall f :: decode(f).Failure? ==> Admissible(enabled, decode(f).error)
    ensures Probe(enabled, decode).Failure? ==> Admissible(enabled, Probe(enabled, decode).error)
  {
    if Probe(enabled, decode).Failure? {
      ProbeExhausted(enabled, decode);
      SupportedFormatsInOrder(enabled);
    }
  }

  /** So is every error of `from_str_any` and of `from_slice_any`. */
  lemma ProbeAnyAdmissible<V>(c: Codec<V>, enabled: set<Format>, s: string, bytes: Bytes)
    ensures Probe(enabled, StrDecoder(c, enabled, s)).Failure? ==>
      Admissible(enabled, Probe(enabled, StrDecoder(c, enabled, s)).error)
    ensures Probe(enabled, SliceDecoder(c, enabled, bytes)).Failure? ==>
      Admissible(enabled, Probe(enabled, SliceDecoder(c, enabled, bytes)).error)
  {
    forall f ensures StrDecoder(c, enabled, s)(f).Failure? ==> Admissible(enabled, StrDecoder(c, enabled, s)(f).error) {
      DecodeErrorsAdmissible(c, enabled, s, bytes, Reader([], None), f);
    }
    forall f ensures SliceDecoder(c, enabled, bytes)(f).Failure? ==> Admissible(enabled, SliceDecoder(c, enabled, bytes)(f).error) {
      DecodeErrorsAdmissible(c, enabled, s, bytes, Reader([], None), f);
    }
    ProbeAdmissible(enabled, StrDecoder(c, enabled, s));
    ProbeAdmissible(enabled, SliceDecoder(c, enabled, bytes));
  }

  /**
    The probing loop: tries each supported format in order and returns as
    soon as one decodes. `tried` is the sequence of formats it handed to the
    decoder: a prefix of the supported formats, all of them failing except
    possibly the last, which then gave the result.
  */
  method ProbeEach<V>(enabled: set<Format>, decode: Format -> Result<V, Error>)
    returns (r: Result<V, Error>, ghost tried: seq<Format>)
    ensures r == Probe(enabled, decode)
    ensures tried <= SupportedFormats(enabled)
    ensures forall j :: 0 <= j < |tried| - 1 ==> decode(tried[j]).Failure?
    ensures r.Success? ==> |tried| > 0 && decode(tried[|tried| - 1]) == r
    ensures r.Failure? ==> tried == SupportedFormats(enabled)
  {
    var formats := SupportedFormats(enabled);
    var attempts: seq<Attempt> := [];
    var i := 0;
    FirstSuccessStart(formats, Tagged, decode);
    while i < |formats|
      invariant 0 <= i <= |formats|
      invariant forall j :: 0 <= j < i ==> decode(formats[j]).Failure?
      invariant FirstSuccess(formats, Tagged, decode) == Continue(attempts, FirstSuccess(formats[i..], Tagged, decode))
    {
      var res := decode(formats[i]);
      FirstSuccessStep(formats, Tagged, decode, i, attempts);
      if res.Success? {
        return Success(res.value), formats[..i + 1];
      }
      attempts := attempts + Record(Tagged(formats[i]), res.error);
      i := i + 1;
    }
    FirstSuccessEnd(formats, Tagged, decode, attempts);
    return Failure(NoSuccessfulParse(attempts)), formats;
  }

  /** The decoder `from_str_any` probes with: `from_str` on the given text. */
  function StrDecoder<V>(c: Codec<V>, enabled: set<Format>, s: string): Format -> Result<V, Error> {
    f => FromStr(c, enabled, s, f)
  }

  /** The decoder `from_slice_any` probes with: `from_slice` on the given bytes. */
  function SliceDecoder<V>(c: Codec<V>, enabled: set<Format>, s: Bytes): Format -> Result<V, Error> {
    f => FromSlice(c, enabled, s, f)
  }

  /** `from_str_any`: probe the supported formats with `from_str`. */
  method FromStrAny<V>(c: Codec<V>, enabled: set<Format>, s: string)
    returns (r: Result<V, Error>, ghost tried: seq<Format>)
    ensures r == Probe(enabled, StrDecoder(c, enabled, s))
    ensures tried <= SupportedFormats(enabled)
    ensures r.Success? ==> |tried| > 0 && FromStr(c, enabled, s, tried[|tried| - 1]) == r
    ensures forall j :: 0 <= j < |tried| - 1 ==> FromStr(c, enabled, s, tried[j]).Failure?
  {
    r, tried := ProbeEach(enabled, StrDecoder(c, enabled, s));
  }

  /** `from_slice_any`: probe the supported formats with `from_slice`. */
  method FromSliceAny<V>(c: Codec<V>, enabled: set<Format>, s: Bytes)
    returns (r: Result<V, Error>, ghost tried: seq<Format>)
    ensures r == Probe(enabled, SliceDecoder(c, enabled, s))
    ensures tried <= SupportedFormats(enabled)
    ensures r.Success? ==> |tried| > 0 && FromSlice(c, enabled, s, tried[|tried| - 1]) == r
    ensures forall j :: 0 <= j < |tried| - 1 ==> FromSlice(c, enabled, s, tried[j]).Failure?
  {
    r, tried := ProbeEach(enabled, SliceDecoder(c, enabled, s));
  }
}
