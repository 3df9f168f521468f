/**
  The file resolver: `from_file`, `from_file_stem` and `to_file`, over a
  filesystem that maps paths to their contents.
*/
module Files {
  import opened Wrappers
  import opened Formats
  import opened Errors
  import opened Codecs
  import Paths
  import De
  import Ser

  /**
    The contents of a filesystem: every existing file as a reader of it
    sees it, its bytes and, when reading it fails, the I/O error.
  */
  type Disk = map<string, Reader>

  /** The I/O error of opening a path that does not exist. */
  const NotFound := Cause("entity not found")

  /** The I/O error of creating a file where that is not allowed. */
  const PermissionDenied := Cause("permission denied")

  /** `File::open`: a reader over the file, or `Io(NotFound)`. */
  function Open(disk: Disk, path: string): (r: Result<Reader, Error>)
    ensures r.Success? <==> path in disk
    ensures r.Success? ==> r.value == disk[path]
    ensures r.Failure? ==> r.error == Io(NotFound)
  {
    if path in disk then Success(disk[path]) else Failure(FromIo(NotFound))
  }

  /**
    `from_file`. A recognised extension decides the format and the file is
    decoded with it alone; any other path is read whole and probed.
  */
  function LoadFile<V>(c: Codec<V>, enabled: set<Format>, disk: Disk, path: string): Result<V, Error> {
    match GuessFormat(path)
    case Some(f) =>
      (match Open(disk, path)
       case Failure(e) => Failure(e)
       case Success(file) => De.FromReader(c, enabled, file, f))
    case None =>
      (match Open(disk, path)
       case Failure(e) => Failure(e)
       case Success(file) =>
         match ReadToEnd(file)
         case Failure(io) => Failure(FromIo(io))
         case Success(s) => De.Probe(enabled, De.SliceDecoder(c, enabled, s)))
  }

  /**
    With a recognised extension `from_file` never falls back to probing: a
    missing file is `Io`, and otherwise the result is that format's
    `from_reader`, which is `UnsupportedFormat` when the format is disabled.
  */
  lemma KnownExtensionNeverProbes<V>(c: Codec<V>, enabled: set<Format>, disk: Disk, path: string)
    requires GuessFormat(path).Some?
    ensures path !in disk ==> LoadFile(c, enabled, disk, path) == Failure(Io(NotFound))
    ensures path in disk ==>
      LoadFile(c, enabled, disk, path) == De.FromReader(c, enabled, disk[path], GuessFormat(path).value)
    ensures path in disk && !IsSupported(enabled, GuessFormat(path).value) ==>
      LoadFile(c, enabled, disk, path) == Failure(UnsupportedFormat(GuessFormat(path).value))
    ensures LoadFile(c, enabled, disk, path).Failure? ==> !LoadFile(c, enabled, disk, path).error.NoSuccessfulParse?
  {
  }

  /**
    Without a recognised extension `from_file` is `from_slice_any` of the
    file's bytes, after an `Io` error for a file that is missing or cannot
    be read.
  */
  lemma UnknownExtensionProbes<V>(c: Codec<V>, enabled: set<Format>, disk: Disk, path: string)
    requires GuessFormat(path).None?
    ensures path !in disk ==> LoadFile(c, enabled, disk, path) == Failure(Io(NotFound))
    ensures path in disk && disk[path].failure.Some? ==>
      LoadFile(c, enabled, disk, path) == Failure(Io(disk[path].failure.value))
    ensures path in disk && disk[path].failure.None? ==>
      LoadFile(c, enabled, disk, path) == De.Probe(enabled, De.SliceDecoder(c, enabled, disk[path].data))
    ensures path in disk && disk[path].failure.None? && LoadFile(c, enabled, disk, path).Failure? ==>
      LoadFile(c, enabled, disk, path).error.NoSuccessfulParse?
  {
  }

  /** The candidate `from_file_stem` tries for an extension: `from_file(stem.with_extension(ext))`. */
  function Candidate<V>(c: Codec<V>, enabled: set<Format>, disk: Disk, stem: string): string -> Result<V, Error> {
    ext => LoadFile(c, enabled, disk, Paths.WithExtension(stem, ext))
  }

  /**
    `from_file_stem`: the candidates for the supported extensions in order;
    the first that loads wins, and if none does the error records each
    candidate's format with its error.
  */
  function LoadStem<V>(c: Codec<V>, enabled: set<Format>, disk: Disk, stem: string): Result<V, Error> {
    match De.FirstSuccess(SupportedExtensions(enabled), GuessFormatFromExtension, Candidate(c, enabled, disk, stem))
    case Success(v) => Success(v)
    case Failure(attempts) => Failure(NoSuccessfulParse(attempts))
  }

  /**
    Each candidate is decoded with its own extension's format, never probed:
    a supported extension appended to a stem with a file name is recognised.
  */
  lemma CandidateUsesItsExtension<V>(c: Codec<V>, enabled: set<Format>, disk: Disk, stem: string, ext: string)
    requires ext in SupportedExtensions(enabled) && Paths.HasFileName(stem)
    ensures GuessFormatFromExtension(ext).Some? && IsSupported(enabled, GuessFormatFromExtension(ext).value)
    ensures var path := Paths.WithExtension(stem, ext);
      var f := GuessFormatFromExtension(ext).value;
      (path !in disk ==> Candidate(c, enabled, disk, stem)(ext) == Failure(Io(NotFound))) &&
      (path in disk ==> Candidate(c, enabled, disk, stem)(ext) == De.FromReader(c, enabled, disk[path], f))
  {
    SupportedExtensionResolves(enabled, ext, stem);
  }

  /** The first candidate that loads decides the result, whatever the later ones hold. */
  lemma StemFirstSuccessWins<V>(c: Codec<V>, enabled: set<Format>, disk: Disk, stem: string, i: nat)
    requires i < |SupportedExtensions(enabled)|
    requires Candidate(c, enabled, disk, stem)(SupportedExtensions(enabled)[i]).Success?
    requires forall j :: 0 <= j < i ==> Candidate(c, enabled, disk, stem)(SupportedExtensions(enabled)[j]).Failure?
    ensures LoadStem(c, enabled, disk, stem) == Candidate(c, enabled, disk, stem)(SupportedExtensions(enabled)[i])
  {
    De.FirstSuccessAt(SupportedExtensions(enabled), GuessFormatFromExtension, Candidate(c, enabled, disk, stem), i);
  }

  /**
    `from_file_stem` fails exactly when every candidate fails, missing and
    unparsable files alike, and then with one attempt per supported
    extension, in order, tagged with that extension's format.
  */
  lemma StemExhausted<V>(c: Codec<V>, enabled: set<Format>, disk: Disk, stem: string)
    ensures LoadStem(c, enabled, disk, stem).Failure? <==>
      forall ext :: ext in SupportedExtensions(enabled) ==> Candidate(c, enabled, disk, stem)(ext).Failure?
    ensures LoadStem(c, enabled, disk, stem).Failure? ==>
      var exts := SupportedExtensions(enabled);
      var e := LoadStem(c, enabled, disk, stem).error;
      e.NoSuccessfulParse? && |e.attempts| == |exts| &&
      forall i :: 0 <= i < |exts| ==>
        GuessFormatFromExtension(exts[i]) == Some(e.attempts[i].format) &&
        Candidate(c, enabled, disk, stem)(exts[i]) == Failure(e.attempts[i].error)
  {
    var exts := SupportedExtensions(enabled);
    var candidate := Candidate(c, enabled, disk, stem);
    SupportedExtensionsResolve(enabled);
    De.FirstSuccessExhausted(exts, GuessFormatFromExtension, candidate);
    De.FirstSuccessFailsIffAllFail(exts, GuessFormatFromExtension, candidate);
  }

  /**
    `to_file`. An unrecognised extension is refused before any file is
    touched; otherwise the file is created (emptied) first and then written
    by `to_writer` with the recognised format, even when that format is
    disabled.
  */
  function Store<V>(c: Codec<V>, enabled: set<Format>, disk: Disk, unwritable: set<string>, path: string, v: V): (out: (Disk, Result<(), Error>))
    ensures GuessFormat(path).None? ==>
      out == (disk, Failure(UnsupportedFileExtension(Paths.Extension(path).GetOr(""))))
    ensures GuessFormat(path).Some? && path in unwritable ==> out == (disk, Failure(Io(PermissionDenied)))
    ensures GuessFormat(path).Some? && path !in unwritable ==>
      var written := Ser.Emit(c, enabled, v, GuessFormat(path).value, None);
      out == (disk[path := Reader(written.0, None)], written.1)
    ensures GuessFormat(path).Some? && path !in unwritable && !IsSupported(enabled, GuessFormat(path).value) ==>
      out == (disk[path := Reader([], None)], Failure(UnsupportedFormat(GuessFormat(path).value)))
  {
    match GuessFormat(path)
    case None => (disk, Failure(UnsupportedFileExtension(Paths.Extension(path).GetOr(""))))
    case Some(f) =>
      if path in unwritable then (disk, Failure(FromIo(PermissionDenied)))
      else
        var written := Ser.Emit(c, enabled, v, f, None);
        (disk[path := Reader(written.0, None)], written.1)
  }

  /** `to_file` changes no file but `path`, and a recognised writable path exists afterwards. */
  lemma StoreTouchesOnlyPath<V>(c: Codec<V>, enabled: set<Format>, disk: Disk, unwritable: set<string>, path: string, v: V)
    ensures var out := Store(c, enabled, disk, unwritable, path, v);
      out.0 - {path} == disk - {path} &&
      (GuessFormat(path).Some? && path !in unwritable ==> path in out.0)
  {
    match GuessFormat(path)
    case None =>
    case Some(f) =>
      if path !in unwritable {
        var written := Ser.Emit(c, enabled, v, f, None);
        assert Store(c, enabled, disk, unwritable, path, v).0 == disk[path := Reader(written.0, None)];
        UpdateThenRemove(disk, path, Reader(written.0, None));
      }
  }

  /** Removing a key just written leaves the map as it was without that key. */
  lemma UpdateThenRemove<K, U>(m: map<K, U>, k: K, x: U)
    ensures m[k := x] - {k} == m - {k}
  {
  }

  /**
    The errors of `to_file` point at their cause: `UnsupportedFileExtension`
    comes exactly from an unrecognised extension, and `UnsupportedFormat`
    names the recognised format and leaves the file empty.
  */
  lemma StoreErrorsNameTheirCause<V>(c: Codec<V>, enabled: set<Format>, disk: Disk, unwritable: set<string>, path: string, v: V)
    ensures var out := Store(c, enabled, disk, unwritable, path, v);
      GuessFormat(path).None? <==> out.1.Failure? && out.1.error.UnsupportedFileExtension?
    ensures var out := Store(c, enabled, disk, unwritable, path, v);
      out.1.Failure? && out.1.error.UnsupportedFormat? ==>
        GuessFormat(path) == Some(out.1.error.format) && path in out.0 && out.0[path] == Reader([], None)
  {
    match GuessFormat(path)
    case None =>
    case Some(f) =>
      if path !in unwritable {
        var written := Ser.Emit(c, enabled, v, f, None);
        if IsSupported(enabled, f) && written.1.Failure? && !written.1.error.Io? {
          assert CodecOf(written.1.error) == Some(f);
        }
      }
  }

  /**
    What `to_file` writes, `from_file` at the same path reads back with the
    same format: it decodes exactly the bytes `to_writer` produced.
  */
  lemma StoreThenLoad<V>(c: Codec<V>, enabled: set<Format>, disk: Disk, unwritable: set<string>, path: string, v: V)
    requires GuessFormat(path).Some? && path !in unwritable
    ensures var f := GuessFormat(path).value;
      LoadFile(c, enabled, Store(c, enabled, disk, unwritable, path, v).0, path) ==
      De.FromReader(c, enabled, Reader(Ser.Emit(c, enabled, v, f, None).0, None), f)
  {
  }

  /** The candidates of one stem are distinct paths, one per extension. */
  lemma CandidatesAreDistinct(enabled: set<Format>, stem: string, e1: string, e2: string)
    requires Paths.HasFileName(stem)
    requires e1 in SupportedExtensions(enabled) && e2 in SupportedExtensions(enabled) && e1 != e2
    ensures Paths.WithExtension(stem, e1) != Paths.WithExtension(stem, e2)
  {
    SupportedExtensionIsPlain(enabled, e1);
    SupportedExtensionIsPlain(enabled, e2);
    Paths.ExtensionOfWithExtension(stem, e1);
    Paths.ExtensionOfWithExtension(stem, e2);
  }

  /**
    Writing a value to `stem.<ext>` with `to_file` and then loading the stem
    gives the value read back from that file, provided no candidate before
    `ext` exists and the written file decodes.
  */
  lemma StoreThenLoadStem<V>(c: Codec<V>, enabled: set<Format>, disk: Disk, unwritable: set<string>, stem: string, i: nat, v: V)
    requires Paths.HasFileName(stem)
    requires i < |SupportedExtensions(enabled)|
    requires Paths.WithExtension(stem, SupportedExtensions(enabled)[i]) !in unwritable
    requires forall j :: 0 <= j < i ==> Paths.WithExtension(stem, SupportedExtensions(enabled)[j]) !in disk
    requires var path := Paths.WithExtension(stem, SupportedExtensions(enabled)[i]);
      LoadFile(c, enabled, Store(c, enabled, disk, unwritable, path, v).0, path).Success?
    ensures var path := Paths.WithExtension(stem, SupportedExtensions(enabled)[i]);
      var written := Store(c, enabled, disk, unwritable, path, v).0;
      LoadStem(c, enabled, written, stem) == LoadFile(c, enabled, written, path)
  {
    var exts := SupportedExtensions(enabled);
    var path := Paths.WithExtension(stem, exts[i]);
    var written := Store(c, enabled, disk, unwritable, path, v).0;
    var candidate := Candidate(c, enabled, written, stem);
    SupportedExtensionsResolve(enabled);
    forall j | 0 <= j < i ensures candidate(exts[j]).Failure? {
      var other := Paths.WithExtension(stem, exts[j]);
      CandidatesAreDistinct(enabled, stem, exts[j], exts[i]);
      assert other !in written - {path};
      MissingFileFails(c, enabled, written, other);
    }
    StemFirstSuccessWins(c, enabled, written, stem, i);
  }

  /** Loading a path that holds no file is the `Io` error of opening it. */
  lemma MissingFileFails<V>(c: Codec<V>, enabled: set<Format>, disk: Disk, path: string)
    requires path !in disk
    ensures LoadFile(c, enabled, disk, path) == Failure(Io(NotFound))
  {
  }

  /** A filesystem: its files, and the paths where a file may not be created. */
  class FileSystem {
    var files: Disk
    const unwritable: set<string>

    constructor (files: Disk, unwritable: set<string>)
      ensures this.files == files && this.unwritable == unwritable
    {
      this.files := files;
      this.unwritable := unwritable;
    }

    /** `from_file`. */
    method FromFile<V>(c: Codec<V>, enabled: set<Format>, path: string) returns (r: Result<V, Error>)
      ensures r == LoadFile(c, enabled, files, path)
    {
      var format := GuessFormat(path);
      var file := Open(files, path);
      if file.Failure? {
        return Failure(file.error);
      }
      match format {
        case Some(f) =>
          r := De.FromReader(c, enabled, file.value, f);
        case None =>
          var s := ReadToEnd(file.value);
          if s.Failure? {
            return Failure(FromIo(s.error));
          }
          ghost var tried;
          r, tried := De.FromSliceAny(c, enabled, s.value);
      }
    }

    /**
      The loop of `from_file_stem` over the candidates for `extensions`:
      loads each in turn and stops at the first that loads. `candidate` is
      what loading each candidate gives. `tried` is the sequence of
      extensions whose candidates it loaded, all failing except possibly the
      last, which then gave the result.
    */
    method LoadCandidates<V>(c: Codec<V>, enabled: set<Format>, stem: string, extensions: seq<string>,
                             ghost candidate: string -> Result<V, Error>)
      returns (r: Result<V, seq<Attempt>>, ghost tried: seq<string>)
      requires forall ext {:trigger LoadFile(c, enabled, files, Paths.WithExtension(stem, ext))} ::
        candidate(ext) == LoadFile(c, enabled, files, Paths.WithExtension(stem, ext))
      ensures r == De.FirstSuccess(extensions, GuessFormatFromExtension, candidate)
      ensures tried <= extensions
      ensures forall j :: 0 <= j < |tried| - 1 ==> candidate(tried[j]).Failure?
      ensures r.Success? ==> |tried| > 0 && candidate(tried[|tried| - 1]) == Success(r.value)
      ensures r.Failure? ==> tried == extensions
    {
      var attempts: seq<Attempt> := [];
      var i := 0;
      De.FirstSuccessStart(extensions, GuessFormatFromExtension, candidate);
      while i < |extensions|
        invariant 0 <= i <= |extensions|
        invariant forall j :: 0 <= j < i ==> candidate(extensions[j]).Failure?
        invariant De.FirstSuccess(extensions, GuessFormatFromExtension, candidate)
          == De.Continue(attempts, De.FirstSuccess(extensions[i..], GuessFormatFromExtension, candidate))
      {
        var res := FromFile(c, enabled, Paths.WithExtension(stem, extensions[i]));
        De.FirstSuccessStep(extensions, GuessFormatFromExtension, candidate, i, attempts);
        if res.Success? {
          return Success(res.value), extensions[..i + 1];
        }
        attempts := attempts + De.Record(GuessFormatFromExtension(extensions[i]), res.error);
        i := i + 1;
      }
      De.FirstSuccessEnd(extensions, GuessFormatFromExtension, candidate, attempts);
      return Failure(attempts), extensions;
    }

    /**
      `from_file_stem`: the candidates for the supported extensions, in
      order, until one loads. No file is modified.
    */
    method FromFileStem<V>(c: Codec<V>, enabled: set<Format>, stem: string)
      returns (r: Result<V, Error>, ghost tried: seq<string>)
      ensures r == LoadStem(c, enabled, files, stem)
      ensures tried <= SupportedExtensions(enabled)
      ensures forall j :: 0 <= j < |tried| - 1 ==> Candidate(c, enabled, files, stem)(tried[j]).Failure?
      ensures r.Success? ==> |tried| > 0 && Candidate(c, enabled, files, stem)(tried[|tried| - 1]) == r
      ensures r.Failure? ==> tried == SupportedExtensions(enabled)
    {
      var found;
      found, tried := LoadCandidates(c, enabled, stem, SupportedExtensions(enabled), Candidate(c, enabled, files, stem));
      match found {
        case Success(v) => r := Success(v);
        case Failure(attempts) => r := Failure(NoSuccessfulParse(attempts));
      }
    }

    /**
      `File::create` followed by `to_writer` into the new file: the file at
      `path` is emptied and then holds what `to_writer` wrote into it.
    */
    method CreateAndWrite<V>(c: Codec<V>, enabled: set<Format>, path: string, f: Format, v: V) returns (r: Result<(), Error>)
      modifies this
      ensures files == old(files)[path := Reader(Ser.Emit(c, enabled, v, f, None).0, None)]
      ensures r == Ser.Emit(c, enabled, v, f, None).1
    {
      var w := new Writer([], None);
      files := files[path := Reader(w.data, None)];
      r := Ser.ToWriter(w, c, enabled, v, f);
      assert w.data == Ser.Emit(c, enabled, v, f, None).0;
      files := files[path := Reader(w.data, None)];
      assert files == old(files)[path := Reader(w.data, None)];
    }

    /**
      `to_file`: with an unrecognised extension the filesystem is left as it
      was; otherwise the file at `path` ends up holding what `to_writer`
      wrote into it.
    */
    method ToFile<V>(c: Codec<V>, enabled: set<Format>, path: string, v: V) returns (r: Result<(), Error>)
      modifies this
      ensures (files, r) == Store(c, enabled, old(files), unwritable, path, v)
    {
      var format := GuessFormat(path);
      match format {
        case None =>
          var ext := Paths.Extension(path).GetOr("");
          return Failure(UnsupportedFileExtension(ext));
        case Some(f) =>
          if path in unwritable {
            return Failure(FromIo(PermissionDenied));
          }
          r := CreateAndWrite(c, enabled, path, f, v);
      }
    }
  }
}
