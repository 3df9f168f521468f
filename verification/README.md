# serde_any: format resolution and dispatch, modelled in Dafny

`serde_any` lets a Rust program read and write a value without naming the
serialization format. The format is either guessed from a file name, or found
by trying every format compiled into the build until one of them decodes. This
project models that layer:

- the format registry: the formats, which of them the build enables, their
  file extensions, and how a format is guessed from a path;
- the single-format dispatchers: `from_reader`, `from_str`, `from_slice`,
  `to_string`, `to_vec` and `to_writer`;
- probing: `from_str_any` and `from_slice_any`;
- the file resolver: `from_file`, `from_file_stem` and `to_file`;
- the error type and its conversions;
- the older single-file revision `src/lib.rs`, where it differs.

The codecs themselves (serde_json, serde_yaml, toml, ron) are outside the
model. A build's codecs are a parameter `Codec<V>`: a record of total
functions, one per entry point the dispatchers call. A codec can return any
value or error, and every property below holds for all of them. The
`cfg(feature = …)` flags of a build are the parameter `enabled: set<Format>`.

Files, one module each:

- `wrappers.dfy`: `Option` and `Result`.
- `paths.dfy`: the part of `std::path::Path` that format guessing relies on:
  the final component, `extension()` and `with_extension()`. The only
  separator is '/'.
- `formats.dfy` (`src/format.rs`): the registry.
- `errors.dfy` (`src/error.rs`): the `Error` datatype and its `From`
  conversions.
- `codecs.dfy`: what the layer sees of the outside world:
  - the codec record;
  - a `Reader` value, i.e. the bytes of a stream and the I/O error reading
    it fails with, if any;
  - a `Writer` class whose `data` field grows in place as it is written to;
  - the UTF-8 encoding of `String::into_bytes`.
- `de.rs` is modelled by `de.dfy`. Its pieces:
  - the decoding dispatchers, each a function with an outcome lemma;
  - a generic first-success search `FirstSuccess` over a list of keys, with
    lemmas for the steps of a loop that computes it;
  - the probing loop `ProbeEach`, a method proved equal to the function
    `Probe`.
- `ser.dfy` (`src/ser.rs`):
  - `to_string` and `to_vec`;
  - `Emit`, a function stating what `to_writer` appends to a sink and what it
    returns;
  - the `ToWriter` method, which mutates a `Writer` and is proved against
    `Emit`.
- `files.dfy`:
  - a `FileSystem` class whose `files` field maps paths to their contents;
  - its methods `FromFile`, `FromFileStem` and `ToFile`, proved equal to the
    functions `LoadFile`, `LoadStem` and `Store`;
  - lemmas about those functions.
- `legacy.dfy` (`src/lib.rs`):
  - the probing loops that throw each format's error away;
  - `to_vec` as that revision writes it.

The registry and the single-format decoders of `src/lib.rs` (lines 156-225,
276-297, 338-355 and 447-464) are the same code as in `src/format.rs` and
`src/de.rs`, so they are modelled once.

`NoSuccessfulParse` appears in two forms in the sources:

- `src/error.rs:69-73` gives it the list of tried formats with their errors.
  The model uses this form, and `De.Probe` and `Files.LoadStem` fill the
  list in the order the formats were tried.
- The loops of `src/de.rs` (lines 193-200, 302-309 and 406-413) are written
  like those of `src/lib.rs`. They discard each error (`Err(_) => continue`)
  and return the unit variant.
  - `Legacy.ProbeDiscarding` models that loop exactly, with the unit variant
    written as an empty list.
  - It is proved equal to the list-carrying result with the list dropped
    (`Legacy.Erase`).

The stem order follows the code of `src/format.rs:72-93` (toml, json, yml,
yaml, ron). This deliberately departs from two doc comments:

- `src/de.rs:393` gives the order as json, yaml, toml, ron.
- `examples/settings.rs:19-20` says much the same.

## Model

| member | source | states |
|---|---|---|
| Paths.FileNameIsLastSegment | src/format.rs:102-105 | the final component is the whole path or starts right after a '/' |
| Paths.Extension | src/format.rs:102-105 | an extension is the text after a '.' at the end of the final '/'-segment, holding no '.' or '/' |
| Paths.ExtensionExists | src/format.rs:102-105 | a path has an extension iff it has a file name with a '.' after the name's first character, so ".bashrc" has none |
| Paths.ExtensionOfWithExtension | src/de.rs:407 | giving a named path a plain extension makes exactly that its extension |
| Formats.NameIsInjective | src/format.rs:18-22 | `Display` prints the variant name, so two formats print alike only when equal |
| Formats.Rank | src/format.rs:7-16 | each format has one position in the priority order Toml, Json, Yaml, Ron |
| Formats.SupportedFormatsInOrder | src/format.rs:29-66 | `supported_formats()` holds a format iff `is_supported` holds of it, in strictly increasing priority order |
| Formats.SupportedFormatsCount | src/format.rs:50-66 | one entry per enabled format and no duplicates |
| Formats.SupportedExtensionsResolve | src/format.rs:72-93 | an extension is listed iff it names an enabled format, and none is listed twice |
| Formats.SupportedExtensionsFollowFormats | src/format.rs:72-93 | extensions are listed format by format in priority order, yml before yaml |
| Formats.SupportedExtensionIsPlain | src/format.rs:72-93 | every listed extension is non-empty and holds no '.' or '/' |
| Formats.ExtensionTable | src/format.rs:111-119 | the lookup is exact and case-sensitive: an extension names a format iff the table lists it for that format |
| Formats.GuessFormatReadsExtension | src/format.rs:98-106 | no extension means no format; otherwise the path names a format iff its extension is listed for it, whether or not that format is enabled |
| Formats.SupportedExtensionResolves | src/lib.rs:624-634 | every supported extension names an enabled format, on its own and as the extension of `stem.with_extension(ext)`, the same format both ways |
| Formats.FullRegistryOrder | src/format.rs:50-93 | with every feature on, the formats are Toml, Json, Yaml, Ron and the extensions toml, json, yml, yaml, ron |
| Errors.FromIo | src/error.rs:86 | an I/O error becomes `Io` with the same cause, neither a codec error nor "not attempted" |
| Errors.FromDecodeError | src/error.rs:88-102 | a codec's deserialization error goes to that codec's own variant, keeping its cause |
| Errors.FromEncodeError | src/error.rs:88-100 | a codec's serialization error goes to that codec's own variant, keeping its cause |
| Errors.FromXml | src/error.rs:104-109 | an XML error is wrapped into `Xml` |
| Errors.FromUrlDecodeError | src/error.rs:114 | the URL-encoding decode error goes to `UrlDeserialize` |
| Errors.FromUrlEncodeError | src/error.rs:112 | the URL-encoding encode error goes to `UrlSerialize` |
| Errors.ConversionsAreInjective | src/error.rs:86-114 | distinct formats or causes never give the same error; decode and encode share a variant only for JSON and YAML |
| Codecs.ReadToEnd | src/de.rs:83-85 | reading to the end gives all the stream's bytes, or its I/O error |
| Codecs.Utf8Append | src/ser.rs:123 | the UTF-8 encoding of `into_bytes` is character by character: the encoding of a concatenation is the concatenation of the encodings |
| Codecs.Utf8Ascii | src/ser.rs:123 | ASCII text encodes byte for byte, each character as its own code, and only ASCII text keeps its length |
| Codecs.Writer.Write | src/ser.rs:184 | a working sink appends the whole buffer; a failing one appends nothing and returns its error |
| Codecs.Writer.WriteAll | src/ser.rs:190 | as `write`, except that an empty buffer succeeds without touching the sink |
| De.FromReaderOutcomes | src/de.rs:71-91 | `UnsupportedFormat` iff disabled; `Io` only from TOML's read of the whole stream; for an enabled format other than TOML, success iff the codec's `from_reader` succeeds, with its value or its error's cause in the codec's own variant; for enabled TOML on a readable stream, the same with the codec's `from_slice` of the stream's bytes |
| De.FromStrOutcomes | src/de.rs:132-148 | `UnsupportedFormat` iff disabled; otherwise the codec's value, or its error in its own variant |
| De.FromSliceOutcomes | src/de.rs:241-257 | `UnsupportedFormat` iff disabled; otherwise the codec's value, or its error in its own variant |
| De.NoCodecBeforeDispatch | src/de.rs:82-90 | a disabled format, or a TOML stream that fails to read, gives the same result whatever the codecs are |
| De.DecodeErrorsAdmissible | src/error.rs:13-55 | a decoder's error is never the variant of a codec the build lacks |
| De.ProbeAdmissible | src/error.rs:69-73 | probing with a decoder whose errors are admissible records only enabled formats with admissible errors |
| De.ProbeAnyAdmissible | src/de.rs:189-201 | every error of `from_str_any` and of `from_slice_any` is admissible |
| De.FirstSuccessAt | src/de.rs:193-198 | the first key that succeeds decides the result; later keys do not matter |
| De.FirstSuccessExhausted | src/de.rs:193-200 | the search fails iff every key fails, and then records each key's error in order |
| De.ProbeFirstSuccessWins | src/de.rs:193-198 | when the format at position i is the first that decodes, probing returns its value |
| De.ProbeExhausted | src/de.rs:302-309 | probing fails iff every enabled format fails, and then lists one attempt per enabled format, in order, with its error |
| De.ProbeEach | src/de.rs:302-307 | the loop returns `Probe`; it hands the decoder a prefix of the supported formats, all failing but the last, which gave the result |
| De.FromStrAny | src/de.rs:189-201 | `from_str_any` is the probe with `from_str`; nothing after the first success is tried |
| De.FromSliceAny | src/de.rs:298-310 | `from_slice_any` is the probe with `from_slice`; nothing after the first success is tried |
| Ser.ToString | src/ser.rs:51-68 | `UnsupportedFormat` for a disabled format; otherwise the codec's text, or its error in its own variant |
| Ser.ToVec | src/ser.rs:110-127 | `UnsupportedFormat` for a disabled format; otherwise the codec's bytes, or its encode error in its own variant, keeping the codec's cause for YAML, JSON and TOML |
| Ser.RonBytesAreItsText | src/ser.rs:123 | RON's `to_vec` is the UTF-8 of its `to_string`, and fails alike |
| Ser.FailingSinkIsIo | src/ser.rs:182-192 | on a failing sink, TOML with a successful encoding and RON with non-empty text fail with `Io` and the sink's error, writing nothing |
| Ser.Emit | src/ser.rs:170-196 | TOML and RON write nothing when serialization fails; `Io` comes only from their single write; streaming codecs' errors are their own |
| Ser.ToWriter | src/ser.rs:170-196 | the writer grows by exactly what `Emit` says, and the result is `Emit`'s |
| Ser.WriterAgreesWithToVec | src/ser.rs:182-192 | on a working sink TOML and RON write exactly the `to_vec` bytes, and fail exactly when `to_vec` fails |
| Ser.StreamingWriterAgreesWithToVec | src/ser.rs:177-180 | a streaming codec that agrees with its own `to_vec` writes exactly those bytes |
| Ser.DispatchIffEnabled | src/ser.rs:115-125 | each of the six dispatchers answers `UnsupportedFormat` iff the format is disabled |
| Files.Open | src/de.rs:358 | opening succeeds iff the path holds a file, otherwise `Io(NotFound)` |
| Files.KnownExtensionNeverProbes | src/de.rs:355-358 | a recognised extension means that format's `from_reader` alone, never `NoSuccessfulParse`, `UnsupportedFormat` when disabled |
| Files.UnknownExtensionProbes | src/de.rs:359-365 | otherwise a missing or unreadable file is `Io`, and a readable one gives `from_slice_any` of its bytes |
| Files.MissingFileFails | src/de.rs:358-361 | loading a path without a file is `Io(NotFound)` |
| Files.CandidateUsesItsExtension | src/de.rs:406-409 | each stem candidate is decoded with the enabled format of its extension |
| Files.StemFirstSuccessWins | src/de.rs:406-411 | the first candidate that loads decides `from_file_stem` |
| Files.StemExhausted | src/de.rs:406-413 | `from_file_stem` fails iff every candidate fails, missing and unparsable alike, with one attempt per extension in order |
| Files.StoreTouchesOnlyPath | src/ser.rs:249-252 | only `path` can change, and a recognised writable path exists afterwards |
| Files.StoreErrorsNameTheirCause | src/ser.rs:249-260 | `UnsupportedFileExtension` comes exactly from an unrecognised extension; `UnsupportedFormat` names the guessed format and leaves the file empty |
| Files.Store | src/ser.rs:244-262 | an unknown extension is `UnsupportedFileExtension` (with "" for none) and leaves the disk as it was; a recognised path that cannot be created is `Io(PermissionDenied)` with the disk unchanged; otherwise `path` holds exactly the bytes `to_writer` emits and the result is `to_writer`'s, so a disabled format leaves an empty file and `UnsupportedFormat` |
| Files.StoreThenLoad | tests/there_and_back_again.rs:98-111 | `from_file` of a path `to_file` wrote decodes exactly the bytes `to_writer` produced |
| Files.CandidatesAreDistinct | src/de.rs:406-407 | the candidates of one stem are distinct paths |
| Files.StoreThenLoadStem | tests/there_and_back_again.rs:198-211 | after `to_file` of `stem.ext` with no earlier candidate present, `from_file_stem` reads that file back |
| Files.FileSystem.FromFile | src/de.rs:350-367 | `from_file` returns `LoadFile` of the current files and changes nothing |
| Files.FileSystem.LoadCandidates | src/de.rs:406-411 | the stem loop returns the first success, loading only a prefix of the candidates, all failing but the last |
| Files.FileSystem.FromFileStem | src/de.rs:401-414 | `from_file_stem` returns `LoadStem` of the current files and changes nothing |
| Files.FileSystem.CreateAndWrite | src/ser.rs:252 | the file at `path` is emptied, then holds exactly what `to_writer` emits, and the result is `to_writer`'s |
| Files.FileSystem.ToFile | src/ser.rs:249-260 | the new files and result are exactly `Store` of the old files |
| Legacy.EraseKeepsOutcome | src/lib.rs:78-80 | dropping the attempt list keeps successes, values and every other error |
| Legacy.ProbeDiscarding | src/lib.rs:508-515 | the error-discarding loop returns the probe's result with the attempts dropped, and fails only when every format failed |
| Legacy.FromStrAny | src/lib.rs:395-407 | the older `from_str_any` is the current one with the attempts dropped |
| Legacy.FromSliceAny | src/lib.rs:504-516 | the older `from_slice_any` is the current one with the attempts dropped |
| Legacy.ToVecAsWritten | src/lib.rs:572-589 | as written, `to_vec` refuses RON whatever is enabled, and a build with RON but not TOML answers TOML with RON's encoding or RON's serialization error |
| Legacy.AsWrittenRefusesRon | src/lib.rs:582-585 | with RON enabled the written `to_vec` still refuses RON, where `Ser.ToVec` does not |
| Legacy.AsWrittenEncodesTomlAsRon | src/lib.rs:582-585 | with RON enabled and TOML disabled, a TOML request returns RON text |
| Legacy.AsWrittenAgreesElsewhere | src/lib.rs:572-589 | the written `to_vec` equals `Ser.ToVec` exactly outside those two cases |

## Left out

- The codec algorithms (JSON, YAML, TOML, RON). They are the parameter
  `Codec<V>`. Their round trips, tested at tests/there_and_back_again.rs:47-96,
  are properties of the codecs, not of this layer.
- The XML and URL-encoding formats. Their errors are modelled, but no
  dispatch arm or extension for them is part of this model.
- The pretty-printing variants.
- Real I/O:
  - a file system is a map from paths to readers;
  - a sink either accepts every write or fails every write with one error.
- Codecs.Writer.Write: appends the whole buffer. A `write` that accepts only
  part of it (the single `writer.write` at src/ser.rs:184) is not modelled.
- Files.Store: the only way creating a file can fail is a path in
  `unwritable` (`PermissionDenied`). Other `File::create` errors, such as a
  missing directory, are not modelled.
- Paths:
  - '/' is the only separator;
  - trailing-separator normalisation and non-UTF-8 names (`OsStr::to_str`
    returning None) are not modelled;
  - non-leading "." components, which `Path::components` drops, are kept.
    A path whose last '/'-segment is "." after other components
    ("config.json/.") has no file name and no extension in the model.
    Rust uses the component before it, so there `guess_format` gives
    `Some(Json)` and `with_extension` renames that component.
- The `failure` derive, the `Display` texts of errors, the `SyncFailure`
  wrapper (src/error.rs:45), and the re-exports of src/backend.rs.
- src/test_util.rs and the examples.
- The remaining functions of src/lib.rs:
  - `from_reader`, `from_str`, `from_slice`, `to_string`, `to_writer`,
    `from_file` and `from_file_stem` are the same code as their counterparts
    in src/de.rs and src/ser.rs, so they are modelled once.
  - Because of the unit `NoSuccessfulParse`, `from_file` and `from_file_stem`
    differ from those counterparts only as `Legacy.Erase` describes.
- Files.FileSystem.FromFileStem: returns the attempt list of src/error.rs:69-73.
  The loop at src/de.rs:406-413 as written returns the unit variant; its
  error-discarding form is modelled only for probing (`Legacy.ProbeDiscarding`).

## Findings

| source | as written | input that shows it | evidently intended | confidence | as-written member | corrected member |
|---|---|---|---|---|---|---|
| src/lib.rs:582-585 | `to_vec` has two `Format::Toml` arms and no `Format::Ron` arm; the second TOML arm holds the RON encoder | a build with RON enabled and `to_vec(value, Format::Ron)`: returns `UnsupportedFormat(Ron)`; a build with RON and without TOML and `to_vec(value, Format::Toml)`: returns RON text | the second arm is `Format::Ron`, as in src/ser.rs:122-123, so every enabled format is encoded and only disabled ones are refused | high, by reading; not executed | Legacy.ToVecAsWritten, shown by Legacy.AsWrittenRefusesRon and Legacy.AsWrittenEncodesTomlAsRon | Ser.ToVec, with Ser.DispatchIffEnabled |
