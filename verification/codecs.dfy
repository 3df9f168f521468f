/**
  What the dispatch layer sees of the world outside it: the external codecs,
  byte streams to read from, and writers to write to. None of the codecs'
  algorithms is modelled; a build's codecs are a parameter `Codec<V>`, where
  `V` is the Rust type being (de)serialized.
*/
module Codecs {
  import opened Wrappers
  import opened Formats
  import opened Errors

  type Bytes = seq<bv8>

  /**
    A byte stream as a reader yields it: its bytes and, when reading it to
    the end fails, the I/O error it fails with.
  */
  datatype Reader = Reader(data: Bytes, failure: Option<Cause>)

  /** `Read::read_to_end`: all of the stream's bytes, or its I/O error. */
  function ReadToEnd(r: Reader): (res: Result<Bytes, Cause>)
    ensures res.Success? <==> r.failure.None?
    ensures res.Failure? ==> Some(res.error) == r.failure
  {
    match r.failure
    case None => Success(r.data)
    case Some(e) => Failure(e)
  }

  /**
    What a streaming serializer pushes into its writer: the bytes it emits
    and, when it stops early, its error (the bytes emitted before the error
    have already been handed to the writer).
  */
  datatype Emission = Emission(bytes: Bytes, failure: Option<Cause>)

  /**
    The codec capability of one build, one entry per external entry point,
    each applied to the format whose crate it stands for:
    from_str, from_slice (RON: from_bytes), from_reader, to_string,
    to_vec (YAML, JSON, TOML) and the streaming to_writer (YAML, JSON).
  */
  datatype Codec<!V> = Codec(
    fromStr: (Format, string) -> Result<V, Cause>,
    fromSlice: (Format, Bytes) -> Result<V, Cause>,
    fromReader: (Format, Reader) -> Result<V, Cause>,
    toString: (Format, V) -> Result<string, Cause>,
    toVec: (Format, V) -> Result<Bytes, Cause>,
    toWriter: (Format, V) -> Emission)

  /** The UTF-8 bytes of one character (`char::encode_utf8`). */
  function Utf8Char(ch: char): (b: Bytes)
    ensures 1 <= |b| <= 4
    ensures (|b| == 1) == (ch as int < 0x80)
  {
    var n := ch as int;
    if n < 0x80 then [n as bv8]
    else if n < 0x800 then [(0xC0 + n / 0x40) as bv8, (0x80 + n % 0x40) as bv8]
    else if n < 0x1_0000 then
      [(0xE0 + n / 0x1000) as bv8, (0x80 + n / 0x40 % 0x40) as bv8, (0x80 + n % 0x40) as bv8]
    else
      [(0xF0 + n / 0x4_0000) as bv8, (0x80 + n / 0x1000 % 0x40) as bv8,
       (0x80 + n / 0x40 % 0x40) as bv8, (0x80 + n % 0x40) as bv8]
  }

  /** `String::into_bytes`: the UTF-8 encoding of a string. */
  function Utf8(s: string): (b: Bytes)
    ensures |b| >= |s|
  {
    if s == [] then [] else Utf8Char(s[0]) + Utf8(s[1..])
  }

  /** The encoding of a string is the encodings of its characters in order: it splits at any point. */
  lemma {:induction false} Utf8Append(a: string, b: string)
    ensures Utf8(a + b) == Utf8(a) + Utf8(b)
    decreases |a|
  {
    if a == [] {
      assert a + b == b;
    } else {
      assert (a + b)[0] == a[0] && (a + b)[1..] == a[1..] + b;
      Utf8Append(a[1..], b);
    }
  }

  /**
    ASCII text encodes byte for byte, each character as its own code, and
    only ASCII text encodes to as many bytes as it has characters.
  */
  lemma {:induction false} Utf8Ascii(s: string)
    ensures |Utf8(s)| == |s| <==> forall i :: 0 <= i < |s| ==> s[i] as int < 0x80
    ensures |Utf8(s)| == |s| ==> forall i :: 0 <= i < |s| ==> Utf8(s)[i] == s[i] as int as bv8
    decreases |s|
  {
    if s != [] {
      Utf8Ascii(s[1..]);
      assert forall i :: 1 <= i < |s| ==> s[1..][i - 1] == s[i];
      if |Utf8(s)| == |s| {
        assert |Utf8Char(s[0])| == 1;
        forall i | 1 <= i < |s| ensures Utf8(s)[i] == s[i] as int as bv8 {
          assert Utf8(s)[i] == Utf8(s[1..])[i - 1];
        }
      }
    }
  }

  /**
    A `Write` sink. Every write appends its whole buffer, or, for a sink whose
    writes fail, fails with that sink's I/O error and appends nothing.
  */
  class Writer {
    var data: Bytes
    const failure: Option<Cause>

    constructor (data: Bytes, failure: Option<Cause>)
      ensures this.data == data && this.failure == failure
    {
      this.data := data;
      this.failure := failure;
    }

    /** `Write::write` of a whole buffer. */
    method Write(buf: Bytes) returns (r: Result<(), Cause>)
      modifies this
      ensures failure.None? ==> r.Success? && data == old(data) + buf
      ensures failure.Some? ==> r == Failure(failure.value) && data == old(data)
    {
      if failure.Some? {
        r := Failure(failure.value);
      } else {
        data := data + buf;
        r := Success(());
      }
    }

    /**
      `Write::write_all`: writes until the buffer is exhausted, so an empty
      buffer succeeds without touching the sink.
    */
    method WriteAll(buf: Bytes) returns (r: Result<(), Cause>)
      modifies this
      ensures buf == [] ==> r.Success? && data == old(data)
      ensures buf != [] && failure.None? ==> r.Success? && data == old(data) + buf
      ensures buf != [] && failure.Some? ==> r == Failure(failure.value) && data == old(data)
    {
      if buf == [] {
        r := Success(());
      } else {
        r := Write(buf);
      }
    }
  }
}
