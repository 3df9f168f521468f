/**
  The older single-file revision of the crate. Its registry and single-format
  dispatchers match the ones modelled in Formats, De and Ser, with two
  differences: `NoSuccessfulParse` carries nothing, so the probing loops
  throw away each format's error, and `to_vec` has no RON arm but a second
  TOML arm where the RON arm should be.
*/
module Legacy {
  import opened Wrappers
  import opened Formats
  import opened Errors
  import opened Codecs
  import De
  import Ser

  /**
    The unit `NoSuccessfulParse` of this revision, written as the list form
    with no attempts: what remains of a result once the attempts are dropped.
  */
  function Erase<V>(r: Result<V, Error>): Result<V, Error> {
    match r
    case Failure(NoSuccessfulParse(_)) => Failure(NoSuccessfulParse([]))
    case _ => r
  }

  /**
    Dropping the attempts changes nothing else: successes and their values
    are kept, every other error is kept, and `NoSuccessfulParse` stays
    `NoSuccessfulParse`. Dropping twice is dropping once.
  */
  lemma EraseKeepsOutcome<V>(r: Result<V, Error>)
    ensures Erase(r).Success? <==> r.Success?
    ensures r.Success? ==> Erase(r) == r
    ensures r.Failure? && !r.error.NoSuccessfulParse? ==> Erase(r) == r
    ensures r.Failure? && r.error.NoSuccessfulParse? ==> Erase(r) == Failure(NoSuccessfulParse([]))
    ensures Erase(Erase(r)) == Erase(r)
  {
  }

  /**
    The probing loop of this revision: tries the supported formats in order,
    returns the first success, and on a failure moves on without keeping
    the error.
  */
  method ProbeDiscarding<V>(enabled: set<Format>, decode: Format -> Result<V, Error>) returns (r: Result<V, Error>)
    ensures r == Erase(De.Probe(enabled, decode))
    ensures r.Failure? ==> r.error == NoSuccessfulParse([])
    ensures r.Failure? ==> forall f :: f in SupportedFormats(enabled) ==> decode(f).Failure?
  {
    var formats := SupportedFormats(enabled);
    ghost var attempts: seq<Attempt> := [];
    var i := 0;
    De.FirstSuccessStart(formats, De.Tagged, decode);
    while i < |formats|
      invariant 0 <= i <= |formats|
      invariant forall j :: 0 <= j < i ==> decode(formats[j]).Failure?
      invariant De.FirstSuccess(formats, De.Tagged, decode) == De.Continue(attempts, De.FirstSuccess(formats[i..], De.Tagged, decode))
    {
      var res := decode(formats[i]);
      De.FirstSuccessStep(formats, De.Tagged, decode, i, attempts);
      if res.Success? {
        return Success(res.value);
      }
      attempts := attempts + De.Record(De.Tagged(formats[i]), res.error);
      i := i + 1;
    }
    De.FirstSuccessEnd(formats, De.Tagged, decode, attempts);
    return Failure(NoSuccessfulParse([]));
  }

  /** `from_str_any` of this revision: `from_str_any` of the current one, attempts dropped. */
  method FromStrAny<V>(c: Codec<V>, enabled: set<Format>, s: string) returns (r: Result<V, Error>)
    ensures r == Erase(De.Probe(enabled, De.StrDecoder(c, enabled, s)))
  {
    r := ProbeDiscarding(enabled, De.StrDecoder(c, enabled, s));
  }

  /** `from_slice_any` of this revision: `from_slice_any` of the current one, attempts dropped. */
  method FromSliceAny<V>(c: Codec<V>, enabled: set<Format>, s: Bytes) returns (r: Result<V, Error>)
    ensures r == Erase(De.Probe(enabled, De.SliceDecoder(c, enabled, s)))
  {
    r := ProbeDiscarding(enabled, De.SliceDecoder(c, enabled, s));
  }

  /**
    `to_vec` as this revision writes it. The arms are tried in order: YAML,
    JSON, TOML (when enabled), then a second TOML arm holding the RON
    encoder (when RON is enabled), which a TOML-enabled build never reaches.
    No arm matches `Ron`.
  */
  function ToVecAsWritten<V>(c: Codec<V>, enabled: set<Format>, v: V, format: Format): (r: Result<Bytes, Error>)
    ensures format == Ron ==> r == Failure(UnsupportedFormat(Ron))
    ensures format == Toml && !IsSupported(enabled, Toml) && IsSupported(enabled, Ron) ==>
      (r.Success? <==> c.toString(Ron, v).Success?) &&
      (r.Failure? ==> r.error == RonSerialize(c.toString(Ron, v).error))
  {
    if format == Format.Yaml && Format.Yaml in enabled then Ser.Encoded(c.toVec(Format.Yaml, v), Format.Yaml)
    else if format == Format.Json && Format.Json in enabled then Ser.Encoded(c.toVec(Format.Json, v), Format.Json)
    else if format == Toml && Toml in enabled then Ser.Encoded(c.toVec(Toml, v), Toml)
    else if format == Toml && Ron in enabled then
      (match c.toString(Ron, v)
       case Success(s) => Success(Utf8(s))
       case Failure(e) => Failure(FromEncodeError(Ron, e)))
    else Failure(UnsupportedFormat(format))
  }

  /**
    The defect: with RON enabled, the written `to_vec` still refuses RON,
    although RON is supported and the corrected dispatcher encodes it.
  */
  lemma AsWrittenRefusesRon<V>(c: Codec<V>, enabled: set<Format>, v: V)
    requires IsSupported(enabled, Ron)
    ensures ToVecAsWritten(c, enabled, v, Ron) == Failure(UnsupportedFormat(Ron))
    ensures !Ser.Refuses(Ser.ToVec(c, enabled, v, Ron), Ron)
  {
    Ser.DispatchIffEnabled(c, enabled, Ron, v, [], [], Reader([], None), None);
  }

  /**
    The other face of the defect: a build with RON but without TOML answers
    a TOML request with RON text, where the corrected dispatcher refuses it.
  */
  lemma AsWrittenEncodesTomlAsRon<V>(c: Codec<V>, enabled: set<Format>, v: V)
    requires !IsSupported(enabled, Toml) && IsSupported(enabled, Ron)
    ensures ToVecAsWritten(c, enabled, v, Toml).Success? <==> c.toString(Ron, v).Success?
    ensures ToVecAsWritten(c, enabled, v, Toml).Success? ==>
      ToVecAsWritten(c, enabled, v, Toml).value == Utf8(c.toString(Ron, v).value)
    ensures Ser.ToVec(c, enabled, v, Toml) == Failure(UnsupportedFormat(Toml))
  {
  }

  /**
    Everywhere else the written `to_vec` is the corrected one: the two differ
    only on RON, and on TOML in a build that has RON but not TOML.
  */
  lemma AsWrittenAgreesElsewhere<V>(c: Codec<V>, enabled: set<Format>, v: V, format: Format)
    ensures ToVecAsWritten(c, enabled, v, format) == Ser.ToVec(c, enabled, v, format) <==>
      !(format == Ron && IsSupported(enabled, Ron)) &&
      !(format == Toml && !IsSupported(enabled, Toml) && IsSupported(enabled, Ron))
  {
    if format == Ron && IsSupported(enabled, Ron) {
      AsWrittenRefusesRon(c, enabled, v);
    } else if format == Toml && !IsSupported(enabled, Toml) && IsSupported(enabled, Ron) {
      AsWrittenEncodesTomlAsRon(c, enabled, v);
    }
  }
}
