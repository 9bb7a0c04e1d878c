/** `IOStream`, the adapter between a caller's Ruby stream and the driver's
    bulk loader (ext/swift.cc:54-95): the driver pulls data either whole or in
    bounded chunks, and the stream's `read` answers with a String or nil. */
module IoStream {
  import opened Wrappers
  import opened CTypes
  import opened Errors
  import opened Host
  import opened Decimal

  const STRINGIFY_MESSAGE: string :=
    "Adapter#write can only process string data. You need to stringify values returned in the callback."

  /** `IOStream::read()`: everything the stream's `read` returned. nil reads as
      empty; any other non-String is refused with an ArgumentError. The bytes
      are copied with their length, NULs included. */
  function ReadAll(response: HostValue): (r: Result<Bytes, Error>)
    ensures response.Nil? ==> r == Success([])
    ensures response.Str? ==> r == Success(response.s.bytes)
    ensures r.Failure? <==> !response.Nil? && !response.Str?
    ensures r.Failure? ==> r.error == ArgumentError(Ascii(STRINGIFY_MESSAGE))
  {
    match response
    case Nil => Success([])
    case Str(s) => Success(s.bytes)
    case _ => Failure(ArgumentError(Ascii(STRINGIFY_MESSAGE)))
  }

  /** The bytes a run of `IOStream::read()` calls hands the driver when the
      stream answered `answers`, in order: each answer's bytes, or the
      ArgumentError of the first answer that is neither nil nor a String. */
  function ReadEach(answers: seq<HostValue>): (r: Result<seq<Bytes>, Error>)
    ensures r.Success? <==> forall i :: 0 <= i < |answers| ==> ReadAll(answers[i]).Success?
    ensures r.Success? ==> |r.value| == |answers|
    ensures r.Success? ==> forall i :: 0 <= i < |answers| ==> r.value[i] == ReadAll(answers[i]).value
    ensures r.Failure? ==> r.error == ArgumentError(Ascii(STRINGIFY_MESSAGE))
  {
    if |answers| == 0 then Success([])
    else
      match ReadAll(answers[0])
      case Failure(e) => Failure(e)
      case Success(bytes) =>
        match ReadEach(answers[1..])
        case Failure(e) => Failure(e)
        case Success(rest) =>
          assert forall i :: 1 <= i < |answers| ==> answers[1..][i - 1] == answers[i];
          Success([bytes] + rest)
  }

  /** `IOStream::read(buffer, len)`: the stream's answer to `read(len)`, nil or
      a String, cut to at most `len` bytes; the count returned is the length
      of the chunk. */
  function ReadChunk(response: Option<RString>, len: uint32): (chunk: Bytes)
    ensures response.None? ==> chunk == []
    ensures response.Some? ==> |chunk| == Min(len as int, |response.value.bytes|)
    ensures response.Some? ==> chunk <= response.value.bytes
  {
    match response
    case None => []
    case Some(s) =>
      assert InUint32(len);
      s.bytes[..Min(len as int, |s.bytes|)]
  }

  /** `INT2NUM(len)`: the unsigned length is converted to a C `int`, so a
      length of 2^31 or more reaches `read` as a negative Integer. */
  function LengthArgument(len: uint32): (n: int32)
    ensures len as int < 0x8000_0000 ==> n as int == len as int
    ensures len as int >= 0x8000_0000 ==> n < 0 && n as int == len as int - 0x1_0000_0000
  {
    assert InUint32(len);
    if len as int < 0x8000_0000 then len as int else len as int - 0x1_0000_0000
  }

  /** The ArgumentError `IO#read` and `StringIO#read` raise for a negative
      length. */
  function NegativeLength(n: int): Error {
    ArgumentError(Ascii("negative length ") + FormatInteger(n) + Ascii(" given"))
  }

  /** A StringIO-like stream: its contents and the read position. */
  datatype Source = Source(contents: Bytes, pos: nat)

  /** The stream's `read(n)`: a negative length raises; a zero length
      answers the empty String; otherwise nil at the end and the next bytes,
      at most `n` of them, before it. */
  function Answer(src: Source, n: int): (a: Result<Option<RString>, Error>)
    requires src.pos <= |src.contents|
    ensures a.Failure? <==> n < 0
    ensures a.Failure? ==> a.error == NegativeLength(n)
    ensures a.Success? ==> (a.value.None? <==> n > 0 && src.pos == |src.contents|)
    ensures a.Success? && a.value.Some? ==>
      && a.value.value.bytes <= src.contents[src.pos..]
      && |a.value.value.bytes| == Min(n, |src.contents| - src.pos)
  {
    if n < 0 then Failure(NegativeLength(n))
    else if n > 0 && src.pos == |src.contents| then Success(None)
    else Success(Some(RString(src.contents[src.pos..src.pos + Min(n, |src.contents| - src.pos)], "ASCII-8BIT")))
  }

  /** `IOStream::read(buffer, len)` against such a stream: `read` is called
      with the converted length, and its exception propagates unchanged;
      otherwise the chunk copied into the buffer. */
  function Pull(src: Source, len: uint32): (r: Result<Bytes, Error>)
    requires src.pos <= |src.contents|
    ensures len as int >= 0x8000_0000 <==> r.Failure?
    ensures r.Failure? ==> r.error == NegativeLength(len as int - 0x1_0000_0000)
    ensures r.Success? ==> r.value <= src.contents[src.pos..]
    ensures r.Success? && len > 0 ==> |r.value| == Min(len as int, |src.contents| - src.pos)
  {
    assert InUint32(len);
    var n := LengthArgument(len);
    match Answer(src, n)
    case Failure(e) =>
      assert n as int == len as int - 0x1_0000_0000;
      Failure(e)
    case Success(response) =>
      var chunk := ReadChunk(response, len);
      assert response.Some? ==> chunk == response.value.bytes[..|chunk|];
      Success(chunk)
  }

  /** The whole read and the bounded read agree on the same answer: a chunk
      is a prefix of what a whole read delivers, and all of it once `len`
      covers the answer; nil is empty either way. */
  lemma {:induction false} ChunkOfWholeRead(response: Option<RString>, len: uint32)
    ensures var whole := ReadAll(if response.None? then Nil else Str(response.value));
      && whole.Success?
      && ReadChunk(response, len) <= whole.value
      && (|whole.value| <= len as int ==> ReadChunk(response, len) == whole.value)
  {
    if response.Some? {
      var b := response.value.bytes;
      assert |ReadChunk(response, len)| == Min(len as int, |b|);
      if |b| <= len as int {
        assert ReadChunk(response, len) == b[..|b|] == b;
      }
    }
  }

  /** A driver pulling chunks of at most `len` bytes until a read returns no
      bytes reassembles the stream's contents exactly, as long as `len` fits
      a C `int`; a longer `len` makes the first `read` raise. */
  method Drain(contents: Bytes, len: uint32) returns (data: Result<Bytes, Error>)
    requires len > 0
    ensures len as int < 0x8000_0000 ==> data == Success(contents)
    ensures len as int >= 0x8000_0000 ==> data == Failure(NegativeLength(len as int - 0x1_0000_0000))
  {
    assert InUint32(len);
    var src := Source(contents, 0);
    var got: Bytes := [];
    while true
      invariant src.contents == contents && src.pos <= |contents|
      invariant got == contents[..src.pos]
      decreases |contents| - src.pos
    {
      var chunk := Pull(src, len);
      if chunk.Failure? {
        return Failure(chunk.error);
      }
      if |chunk.value| == 0 {
        assert src.pos == |contents| && got == contents[..|contents|] == contents;
        return Success(got);
      }
      got := got + chunk.value;
      src := src.(pos := src.pos + |chunk.value|);
    }
  }
}
