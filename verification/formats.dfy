/**
  The format registry: the closed set of formats, which of them a build
  enables, their file extensions, and guessing a format from a file name.
  The build-time features are the parameter `enabled`.
*/
module Formats {
  import opened Wrappers
  import Paths

  datatype Format = Toml | Json | Yaml | Ron

  /** `Display` prints the variant name, as the derived `Debug` does. */
  function Name(f: Format): string {
    match f
    case Toml => "Toml"
    case Json => "Json"
    case Yaml => "Yaml"
    case Ron => "Ron"
  }

  lemma NameIsInjective(f: Format, g: Format)
    ensures Name(f) == Name(g) <==> f == g
  {
  }

  /** Every format, in the registry's priority order. */
  const AllFormats: seq<Format> := [Toml, Json, Yaml, Ron]

  /** The position of a format in the priority order. */
  function Rank(f: Format): (i: nat)
    ensures i < |AllFormats| && AllFormats[i] == f
  {
    match f
    case Toml => 0
    case Json => 1
    case Yaml => 2
    case Ron => 3
  }

  /** The extensions the registry lists for one format, in the order it lists them. */
  function ExtensionsOf(f: Format): seq<string> {
    match f
    case Toml => ["toml"]
    case Json => ["json"]
    case Yaml => ["yml", "yaml"]
    case Ron => ["ron"]
  }

  /** `Format::is_supported`: the format's feature is enabled in this build. */
  predicate IsSupported(enabled: set<Format>, f: Format) {
    f in enabled
  }

  /** Pushes `xs` when their feature is enabled. */
  function When<T>(on: bool, xs: seq<T>): seq<T> {
    if on then xs else []
  }

  /** `supported_formats`: the enabled formats pushed in the order Toml, Json, Yaml, Ron. */
  function SupportedFormats(enabled: set<Format>): seq<Format> {
    When(Toml in enabled, [Toml])
    + When(Json in enabled, [Json])
    + When(Yaml in enabled, [Yaml])
    + When(Ron in enabled, [Ron])
  }

  /**
    `supported_formats` holds exactly the supported formats, in strictly
    increasing priority, so each of them once.
  */
  lemma SupportedFormatsInOrder(enabled: set<Format>)
    ensures forall f :: f in SupportedFormats(enabled) <==> IsSupported(enabled, f)
    ensures forall i, j :: 0 <= i < j < |SupportedFormats(enabled)| ==>
      Rank(SupportedFormats(enabled)[i]) < Rank(SupportedFormats(enabled)[j])
  {
    forall f ensures f in SupportedFormats(enabled) <==> f in enabled {
      assert f == Toml || f == Json || f == Yaml || f == Ron;
    }
  }

  /** A sequence without repetitions is as long as the set of its elements. */
  lemma {:induction false} DistinctCount<T>(s: seq<T>)
    requires forall i, j :: 0 <= i < j < |s| ==> s[i] != s[j]
    ensures |set x | x in s| == |s|
  {
    if s != [] {
      DistinctCount(s[1..]);
      assert (set x | x in s) == {s[0]} + (set x | x in s[1..]);
      assert s[0] !in (set x | x in s[1..]);
    }
  }

  /** One entry per enabled format: `supported_formats().len()` is the number of enabled features. */
  lemma SupportedFormatsCount(enabled: set<Format>)
    ensures |SupportedFormats(enabled)| == |enabled|
  {
    var r := SupportedFormats(enabled);
    SupportedFormatsInOrder(enabled);
    DistinctCount(r);
    assert (set x | x in r) == enabled;
  }

  /**
    `supported_extensions`: "toml", "json", "yml", "yaml", "ron", keeping only
    those whose format is enabled.
  */
  function SupportedExtensions(enabled: set<Format>): seq<string> {
    When(Toml in enabled, ["toml"])
    + When(Json in enabled, ["json"])
    + When(Yaml in enabled, ["yml", "yaml"])
    + When(Ron in enabled, ["ron"])
  }

  /**
    Every listed extension resolves to an enabled format, every extension of
    an enabled format is listed, and none is listed twice.
  */
  lemma SupportedExtensionsResolve(enabled: set<Format>)
    ensures forall e :: e in SupportedExtensions(enabled) <==>
      GuessFormatFromExtension(e).Some? && GuessFormatFromExtension(e).value in enabled
    ensures forall i, j :: 0 <= i < j < |SupportedExtensions(enabled)| ==>
      SupportedExtensions(enabled)[i] != SupportedExtensions(enabled)[j]
  {
  }

  /** The extensions of a list of formats, format by format. */
  function ExtensionsFor(fs: seq<Format>): seq<string> {
    if fs == [] then [] else ExtensionsOf(fs[0]) + ExtensionsFor(fs[1..])
  }

  /** Extensions follow format order first, then the order within each format. */
  lemma SupportedExtensionsFollowFormats(enabled: set<Format>)
    ensures SupportedExtensions(enabled) == ExtensionsFor(SupportedFormats(enabled))
  {
    var t := When(Toml in enabled, [Toml]);
    var j := When(Json in enabled, [Json]);
    var y := When(Yaml in enabled, [Yaml]);
    var r := When(Ron in enabled, [Ron]);
    assert SupportedFormats(enabled) == t + j + y + r;
    ExtensionsForAppend(t + j + y, r);
    ExtensionsForAppend(t + j, y);
    ExtensionsForAppend(t, j);
    ExtensionsForWhen(Toml in enabled, Toml);
    ExtensionsForWhen(Json in enabled, Json);
    ExtensionsForWhen(Yaml in enabled, Yaml);
    ExtensionsForWhen(Ron in enabled, Ron);
  }

  lemma ExtensionsForWhen(on: bool, f: Format)
    ensures ExtensionsFor(When(on, [f])) == When(on, ExtensionsOf(f))
  {
    assert [f][1..] == [];
  }

  lemma {:induction false} ExtensionsForAppend(a: seq<Format>, b: seq<Format>)
    ensures ExtensionsFor(a + b) == ExtensionsFor(a) + ExtensionsFor(b)
  {
    if a == [] {
      assert a + b == b;
    } else {
      assert (a + b)[1..] == a[1..] + b;
      ExtensionsForAppend(a[1..], b);
    }
  }

  /**
    `guess_format_from_extension`: an exact, case-sensitive lookup in the
    extension table. It does not consult the enabled set, so it may name a
    disabled format.
  */
  function GuessFormatFromExtension(ext: string): Option<Format> {
    match ext
    case "yml" => Some(Yaml)
    case "yaml" => Some(Yaml)
    case "json" => Some(Json)
    case "toml" => Some(Toml)
    case "ron" => Some(Ron)
    case _ => None
  }

  /**
    The lookup is exactly the registry's extension table: an extension names
    a format iff the registry lists it for that format, so anything else,
    including "YAML" or "yml " spelled differently, names none.
  */
  lemma ExtensionTable(ext: string)
    ensures forall f :: GuessFormatFromExtension(ext) == Some(f) <==> ext in ExtensionsOf(f)
  {
  }

  /**
    `guess_format`: the format named by the path's extension; none when the
    path has no extension or an unknown one. Like the lookup above, it
    ignores the enabled set.
  */
  function GuessFormat(path: string): Option<Format> {
    match Paths.Extension(path)
    case None => None
    case Some(ext) => GuessFormatFromExtension(ext)
  }

  /**
    A path names a format exactly when its extension is one the registry
    lists for that format; a path without an extension names none.
  */
  lemma GuessFormatReadsExtension(path: string)
    ensures Paths.Extension(path).None? ==> GuessFormat(path).None?
    ensures forall f :: GuessFormat(path) == Some(f) <==>
      Paths.Extension(path).Some? && Paths.Extension(path).value in ExtensionsOf(f)
  {
    match Paths.Extension(path)
    case None =>
    case Some(ext) => ExtensionTable(ext);
  }

  /** A supported extension is a plain, non-empty file-name suffix: no '.' and no '/'. */
  lemma SupportedExtensionIsPlain(enabled: set<Format>, ext: string)
    requires ext in SupportedExtensions(enabled)
    ensures ext != "" && '.' !in ext && '/' !in ext
  {
    assert ext in ["toml", "json", "yml", "yaml", "ron"];
  }

  /**
    Every supported extension resolves to an enabled format, both on its own
    and as the extension of a named path: the registry's `extensions` test.
  */
  lemma SupportedExtensionResolves(enabled: set<Format>, ext: string, stem: string)
    requires ext in SupportedExtensions(enabled)
    requires Paths.HasFileName(stem)
    ensures GuessFormatFromExtension(ext).Some?
    ensures GuessFormatFromExtension(ext).value in enabled
    ensures GuessFormat(Paths.WithExtension(stem, ext)) == GuessFormatFromExtension(ext)
  {
    SupportedExtensionsResolve(enabled);
    SupportedExtensionIsPlain(enabled, ext);
    Paths.ExtensionOfWithExtension(stem, ext);
  }

  /** With every feature on, the stem candidates are tried as toml, json, yml, yaml, ron. */
  lemma FullRegistryOrder()
    ensures SupportedFormats({Toml, Json, Yaml, Ron}) == [Toml, Json, Yaml, Ron]
    ensures SupportedExtensions({Toml, Json, Yaml, Ron}) == ["toml", "json", "yml", "yaml", "ron"]
  {
  }
}
