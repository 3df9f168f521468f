/**
  The part of Rust's `std::path::Path` that format resolution relies on:
  the final component of a path, its extension, and `with_extension`.
  Paths are strings with '/' as the only separator.
*/
module Paths {
  import opened Wrappers

  /**
    The final component of `p`: everything after its last '/'. A final "."
    segment is kept as it is, although `Path::components` drops a
    non-leading "." and would use the component before it.
  */
  function FileName(p: string): (n: string)
    ensures '/' !in n
    ensures |n| <= |p| && n == p[|p| - |n|..]
  {
    if p == [] then []
    else if p[|p| - 1] == '/' then []
    else FileName(p[..|p| - 1]) + [p[|p| - 1]]
  }

  /** The final component is all of `p` or follows a '/': nothing after the last '/' is left out. */
  lemma {:induction false} FileNameIsLastSegment(p: string)
    ensures |FileName(p)| == |p| || p[|p| - |FileName(p)| - 1] == '/'
    decreases |p|
  {
    if p != [] && p[|p| - 1] != '/' {
      FileNameIsLastSegment(p[..|p| - 1]);
    }
  }

  /**
    Whether the final '/'-segment names a file: not when it is empty, ".."
    or ".". For a last segment of "." after other components the model thus
    has no name, where `Path::file_name` takes the component before it.
  */
  predicate HasFileName(p: string) {
    var n := FileName(p);
    n != "" && n != "." && n != ".."
  }

  /** Splits a file name at its last '.', when it has one. */
  function SplitAtLastDot(n: string): (r: Option<(string, string)>)
    ensures r.None? <==> '.' !in n
    ensures r.Some? ==> r.value.0 + "." + r.value.1 == n && '.' !in r.value.1
  {
    if n == [] then None
    else if n[|n| - 1] == '.' then Some((n[..|n| - 1], ""))
    else
      match SplitAtLastDot(n[..|n| - 1])
      case None => None
      case Some((before, after)) =>
        assert n == n[..|n| - 1] + [n[|n| - 1]];
        Some((before, after + [n[|n| - 1]]))
  }

  /**
    The extension of a file name: the text after its last '.', unless that
    '.' is the name's first character (".bashrc" has none).
  */
  function NameExtension(n: string): (r: Option<string>)
    ensures r.Some? <==> n != "" && '.' in n[1..]
    ensures r.Some? ==> '.' !in r.value && ('/' !in n ==> '/' !in r.value)
    ensures r.Some? ==> |r.value| < |n| && n[|n| - |r.value| - 1..] == "." + r.value
  {
    match SplitAtLastDot(n)
    case None => None
    case Some((before, after)) =>
      assert n == before + "." + after;
      if before == "" then
        assert n[1..] == after;
        None
      else
        assert n[1..][|before| - 1] == '.';
        assert n[|before|..] == "." + after;
        Some(after)
  }

  /**
    `Path::extension`: the extension of the final component, when the path
    has one.
  */
  function Extension(p: string): (r: Option<string>)
    ensures r.Some? ==> '.' !in r.value && '/' !in r.value
    ensures r.Some? ==> |r.value| < |p| && p[|p| - |r.value| - 1..] == "." + r.value
  {
    if !HasFileName(p) then None
    else
      match NameExtension(FileName(p))
      case None => None
      case Some(e) =>
        SuffixOfSuffix(p, FileName(p), "." + e);
        Some(e)
  }

  /**
    A path has an extension exactly when it has a file name with a '.'
    after the name's first character.
  */
  lemma ExtensionExists(p: string)
    ensures Extension(p).Some? <==> HasFileName(p) && '.' in FileName(p)[1..]
  {
  }

  /** A suffix of a suffix of `p` is a suffix of `p`. */
  lemma SuffixOfSuffix<T>(p: seq<T>, n: seq<T>, m: seq<T>)
    requires |n| <= |p| && n == p[|p| - |n|..]
    requires |m| <= |n| && m == n[|n| - |m|..]
    ensures m == p[|p| - |m|..]
  {
    assert p[|p| - |n|..][|n| - |m|..] == p[|p| - |m|..];
  }

  /** The path `p` with its extension, if any, removed. */
  function WithoutExtension(p: string): string {
    match Extension(p)
    case Some(e) => p[..|p| - |e| - 1]
    case None => p
  }

  /**
    `Path::with_extension`: replaces the extension of the final component
    (adding one when there is none); a path without a file name is returned
    unchanged.
  */
  function WithExtension(p: string, ext: string): string {
    if !HasFileName(p) then p
    else if ext == "" then WithoutExtension(p)
    else WithoutExtension(p) + "." + ext
  }

  lemma {:induction false} FileNameOfAppend(q: string, s: string)
    requires '/' !in s
    ensures FileName(q + s) == FileName(q) + s
    decreases |s|
  {
    if s == [] {
      assert q + s == q;
    } else {
      var s' := s[..|s| - 1];
      assert (q + s)[..|q + s| - 1] == q + s';
      FileNameOfAppend(q, s');
    }
  }

  lemma {:induction false} SplitAtAppendedDot(n: string, ext: string)
    requires '.' !in ext
    ensures SplitAtLastDot(n + "." + ext) == Some((n, ext))
    decreases |ext|
  {
    if ext == [] {
      assert (n + "." + ext)[..|n + "." + ext| - 1] == n;
    } else {
      var ext' := ext[..|ext| - 1];
      assert (n + "." + ext)[..|n + "." + ext| - 1] == n + "." + ext';
      SplitAtAppendedDot(n, ext');
      assert ext' + [ext[|ext| - 1]] == ext;
    }
  }

  /** The file name that remains once the extension is removed is not empty. */
  lemma BaseHasName(p: string)
    requires HasFileName(p)
    ensures FileName(WithoutExtension(p)) != ""
  {
    match Extension(p)
    case None =>
    case Some(e) =>
      var n := FileName(p);
      var base := WithoutExtension(p);
      assert NameExtension(n) == Some(e);
      NameExtensionSplits(n);
      SplitsAt(p, |p| - |e| - 1);
      FileNameOfAppend(base, "." + e);
      AppendAssociates(FileName(base), ".", e);
      SplitAtAppendedDot(FileName(base), e);
  }

  /** A name's extension is what follows the last '.', and something precedes that '.'. */
  lemma NameExtensionSplits(n: string)
    ensures NameExtension(n).Some? ==>
      SplitAtLastDot(n).Some? && SplitAtLastDot(n).value.0 != "" &&
      NameExtension(n).value == SplitAtLastDot(n).value.1
  {
  }

  /** A sequence is its prefix followed by the matching suffix. */
  lemma SplitsAt<T>(p: seq<T>, k: nat)
    requires k <= |p|
    ensures p == p[..k] + p[k..]
  {
  }

  /** The file name of `p.with_extension(ext)` is the old base name, a '.', and `ext`. */
  lemma FileNameOfWithExtension(p: string, ext: string)
    requires HasFileName(p)
    requires ext != "" && '/' !in ext
    ensures FileName(WithExtension(p, ext)) == FileName(WithoutExtension(p)) + "." + ext
  {
    var base := WithoutExtension(p);
    AppendAssociates(base, ".", ext);
    FileNameOfAppend(base, "." + ext);
    AppendAssociates(FileName(base), ".", ext);
  }

  /** Regrouping a concatenation of three strings, kept apart so that the proofs above stay small. */
  lemma AppendAssociates(a: string, b: string, c: string)
    ensures a + (b + c) == a + b + c
  {
  }

  /**
    Giving a named path a plain extension makes that the path's extension:
    `stem.with_extension(ext).extension() == Some(ext)`.
  */
  lemma ExtensionOfWithExtension(p: string, ext: string)
    requires HasFileName(p)
    requires ext != "" && '.' !in ext && '/' !in ext
    ensures Extension(WithExtension(p, ext)) == Some(ext)
  {
    var q := WithExtension(p, ext);
    var m := FileName(WithoutExtension(p));
    BaseHasName(p);
    FileNameOfWithExtension(p, ext);
    NameExtensionOfAppendedDot(m, ext);
    assert HasFileName(q) by {
      var n := FileName(q);
      assert |n| >= 2 && n[|n| - 1] == ext[|ext| - 1];
    }
  }

  /** A non-empty name followed by '.' and a dot-free `ext` has extension `ext`. */
  lemma NameExtensionOfAppendedDot(m: string, ext: string)
    requires m != "" && '.' !in ext
    ensures NameExtension(m + "." + ext) == Some(ext)
  {
    SplitAtAppendedDot(m, ext);
  }
}
