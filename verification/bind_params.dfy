/** The parameter encoder: caller values become the driver's bind parameters,
    `rb_extract_bind_params` (ext/swift.cc:126-142) and its copy inside
    `rb_cpool_execute` (ext/swift.cc:720-734). */
module BindParams {
  import opened Wrappers
  import opened CTypes
  import opened Errors
  import opened Host

  /** `dbi::Param`: SQL NULL, a binary blob, or UTF-8 text. */
  datatype Param =
    | NullParam
    | BinaryParam(data: Bytes)
    | TextParam(data: Bytes)

  /** Transcoding of a non-UTF-8 String to UTF-8 (`rb_str_encode`), left to
      Ruby: the UTF-8 bytes, or the exception `String#encode` raises for bytes
      it cannot convert. */
  type Transcoder = RString -> Result<Bytes, Error>

  const UTF8: string := "UTF-8"

  /** The bytes bound for a value that is neither nil nor a stream: its String
      form, transcoded unless its encoding is already named UTF-8. */
  function TextOf(v: HostValue, toS: HostValue -> RString, transcode: Transcoder): Result<Bytes, Error> {
    var s := Obj2String(v, toS);
    if s.encoding == UTF8 then Success(s.bytes) else transcode(s)
  }

  /** A value the encoder refuses: a non-stream whose transcoding raises. */
  predicate Refused(v: HostValue, toS: HostValue -> RString, transcode: Transcoder) {
    !v.Nil? && !v.Stream? && TextOf(v, toS, transcode).Failure?
  }

  /** The streams among `args`: once those arguments are bound, each of these
      streams has been read to its end. */
  function Drained(args: seq<HostValue>): (ids: set<nat>)
    ensures forall i :: 0 <= i < |args| && args[i].Stream? ==> args[i].id in ids
    ensures forall id :: id in ids ==> exists i :: 0 <= i < |args| && args[i].Stream? && args[i].id == id
  {
    if |args| == 0 then {}
    else
      var n := |args| - 1;
      var earlier := Drained(args[..n]);
      assert forall i :: 0 <= i < n ==> args[..n][i] == args[i];
      if args[n].Stream? then earlier + {args[n].id} else earlier
  }

  /** One caller value, `drained` naming the streams an earlier argument of
      the same call has already read: nil binds NULL; an IO or StringIO is
      read and bound as binary, empty when it was already at its end; anything
      else is bound as text, or raises when transcoding raises. */
  function Encode(v: HostValue, drained: set<nat>, toS: HostValue -> RString, transcode: Transcoder): (r: Result<Param, Error>)
    ensures v.Nil? <==> r == Success(NullParam)
    ensures v.Stream? <==> r.Success? && r.value.BinaryParam?
    ensures v.Stream? ==> r.value.data == if v.id in drained then [] else v.contents
    ensures r.Failure? <==> Refused(v, toS, transcode)
    ensures r.Failure? ==> r.error == TextOf(v, toS, transcode).error
    ensures r.Success? && r.value.TextParam? ==> r.value.data == TextOf(v, toS, transcode).value
    ensures v.Str? && v.s.encoding == UTF8 ==> r == Success(TextParam(v.s.bytes))
  {
    match v
    case Nil => Success(NullParam)
    case Stream(id, contents) => Success(BinaryParam(if id in drained then [] else contents))
    case _ =>
      match TextOf(v, toS, transcode)
      case Success(data) => Success(TextParam(data))
      case Failure(e) => Failure(e)
  }

  /** The first argument the encoder refuses, or the number of arguments when
      it refuses none. */
  function FirstRefused(args: seq<HostValue>, toS: HostValue -> RString, transcode: Transcoder): (k: nat)
    ensures k <= |args|
    ensures forall i :: 0 <= i < k ==> !Refused(args[i], toS, transcode)
    ensures k < |args| ==> Refused(args[k], toS, transcode)
  {
    if |args| == 0 then 0
    else
      var n := |args| - 1;
      var k := FirstRefused(args[..n], toS, transcode);
      assert forall i :: 0 <= i < n ==> args[..n][i] == args[i];
      if k < n then k
      else if Refused(args[n], toS, transcode) then n
      else n + 1
  }

  /** `rb_extract_bind_params`: one parameter per argument, pushed in argument
      order, each argument encoded after the earlier ones were read. The first
      transcoding exception aborts the call. */
  function Extract(args: seq<HostValue>, toS: HostValue -> RString, transcode: Transcoder): (r: Result<seq<Param>, Error>)
    ensures r.Success? <==> FirstRefused(args, toS, transcode) == |args|
    ensures r.Success? ==> |r.value| == |args|
    ensures r.Success? ==> forall i {:trigger r.value[i]} :: 0 <= i < |args| ==>
      r.value[i] == Encode(args[i], Drained(args[..i]), toS, transcode).value
    ensures r.Failure? ==> r.error == TextOf(args[FirstRefused(args, toS, transcode)], toS, transcode).error
  {
    if |args| == 0 then Success([])
    else
      var n := |args| - 1;
      var earlier := args[..n];
      match Extract(earlier, toS, transcode)
      case Failure(e) => Failure(e)
      case Success(bind) =>
        match Encode(args[n], Drained(earlier), toS, transcode)
        case Failure(e) => Failure(e)
        case Success(p) =>
          EncodedPush(args, bind, p, toS, transcode);
          Success(bind + [p])
  }

  /** Appending the encoding of the last argument, made after the others were
      read, to the encodings of the others gives every argument's encoding. */
  lemma EncodedPush(args: seq<HostValue>, bind: seq<Param>, p: Param, toS: HostValue -> RString, transcode: Transcoder)
    requires |args| > 0 && |bind| == |args| - 1
    requires forall i :: 0 <= i < |bind| ==>
      Encode(args[..|bind|][i], Drained(args[..|bind|][..i]), toS, transcode) == Success(bind[i])
    requires Encode(args[|bind|], Drained(args[..|bind|]), toS, transcode) == Success(p)
    ensures forall i :: 0 <= i < |args| ==> Encode(args[i], Drained(args[..i]), toS, transcode) == Success((bind + [p])[i])
  {
    var n := |bind|;
    forall i | 0 <= i < |args|
      ensures Encode(args[i], Drained(args[..i]), toS, transcode) == Success((bind + [p])[i])
    {
      if i < n {
        assert args[..n][i] == args[i];
        assert args[..n][..i] == args[..i];
      }
    }
  }

  /** Argument `i` is the stream with identity `id`. */
  predicate IsStream(v: HostValue, id: nat) {
    v.Stream? && v.id == id
  }

  /** A stream's contents are bound where it first occurs; a later
      occurrence of the same stream binds the empty string. */
  lemma {:induction false} StreamReadOnce(args: seq<HostValue>, toS: HostValue -> RString, transcode: Transcoder, j: nat)
    requires Extract(args, toS, transcode).Success?
    requires j < |args| && args[j].Stream?
    ensures var data := Extract(args, toS, transcode).value[j].data;
      && ((forall i :: 0 <= i < j ==> !IsStream(args[i], args[j].id)) ==> data == args[j].contents)
      && ((exists i :: 0 <= i < j && IsStream(args[i], args[j].id)) ==> data == [])
  {
    var earlier := args[..j];
    var id := args[j].id;
    var data := Extract(args, toS, transcode).value[j].data;
    assert data == Encode(args[j], Drained(earlier), toS, transcode).value.data;
    if exists i :: 0 <= i < j && IsStream(args[i], id) {
      var i :| 0 <= i < j && IsStream(args[i], id);
      assert earlier[i] == args[i];
      assert id in Drained(earlier);
    } else {
      NotDrained(earlier, id);
    }
  }

  /** A stream none of the arguments is has not been drained by them. */
  lemma NotDrained(args: seq<HostValue>, id: nat)
    requires forall i :: 0 <= i < |args| ==> !IsStream(args[i], id)
    ensures id !in Drained(args)
  {
  }

  /** Binding one more argument appends its encoding, made after the earlier
      arguments were read. */
  lemma ExtractPush(args: seq<HostValue>, v: HostValue, toS: HostValue -> RString, transcode: Transcoder)
    requires Extract(args, toS, transcode).Success? && !Refused(v, toS, transcode)
    ensures Extract(args + [v], toS, transcode) ==
      Success(Extract(args, toS, transcode).value + [Encode(v, Drained(args), toS, transcode).value])
  {
    assert (args + [v])[..|args|] == args;
  }

  /** The same IO passed twice binds its contents and then the empty string. */
  lemma SameStreamTwice(id: nat, contents: Bytes, toS: HostValue -> RString, transcode: Transcoder)
    ensures Extract([Stream(id, contents), Stream(id, contents)], toS, transcode) ==
      Success([BinaryParam(contents), BinaryParam([])])
  {
    var io := Stream(id, contents);
    var args := [io, io];
    assert FirstRefused(args, toS, transcode) == 2;
    var bind := Extract(args, toS, transcode).value;
    assert args[..0] == [] && id !in Drained([]);
    assert bind[0] == BinaryParam(contents);
    assert args[..1] == [io] && id in Drained([io]);
    assert bind[1] == BinaryParam([]);
    assert bind == [BinaryParam(contents), BinaryParam([])];
  }

  /** Values that are nil, streams or UTF-8 Strings never raise. */
  lemma Utf8ArgumentsNeverRaise(args: seq<HostValue>, toS: HostValue -> RString, transcode: Transcoder)
    requires forall i :: 0 <= i < |args| ==> args[i].Nil? || args[i].Stream? || (args[i].Str? && args[i].s.encoding == UTF8)
    ensures Extract(args, toS, transcode).Success?
  {
  }

  /** The copy of the encoding loop inside `rb_cpool_execute`: it produces
      exactly the parameters, or the exception, of the adapter's encoder. */
  method PoolExtract(args: seq<HostValue>, toS: HostValue -> RString, transcode: Transcoder)
    returns (r: Result<seq<Param>, Error>)
    ensures r == Extract(args, toS, transcode)
  {
    var bind: seq<Param> := [];
    var read: set<nat> := {};
    var n := 0;
    while n < |args|
      invariant 0 <= n <= |args|
      invariant Extract(args[..n], toS, transcode) == Success(bind)
      invariant read == Drained(args[..n])
    {
      var arg := args[n];
      var param: Param;
      if arg.Nil? {
        param := NullParam;
      } else if arg.Stream? {
        param := BinaryParam(if arg.id in read then [] else arg.contents);
      } else {
        var s := Obj2String(arg, toS);
        var data := if s.encoding == UTF8 then Success(s.bytes) else transcode(s);
        if data.Failure? {
          assert Refused(arg, toS, transcode);
          StopsWith(args, n, toS, transcode);
          return Failure(data.error);
        }
        param := TextParam(data.value);
      }
      assert Encode(arg, read, toS, transcode) == Success(param);
      Pushed(args, n, toS, transcode);
      bind := bind + [param];
      if arg.Stream? {
        read := read + {arg.id};
      }
      n := n + 1;
    }
    assert args[..n] == args;
    r := Success(bind);
  }

  /** One step of the encoding loop: the prefix one argument longer binds
      one more parameter and has read one more stream. */
  lemma Pushed(args: seq<HostValue>, n: nat, toS: HostValue -> RString, transcode: Transcoder)
    requires n < |args| && Extract(args[..n], toS, transcode).Success? && !Refused(args[n], toS, transcode)
    ensures Extract(args[..n + 1], toS, transcode) ==
      Success(Extract(args[..n], toS, transcode).value + [Encode(args[n], Drained(args[..n]), toS, transcode).value])
    ensures Drained(args[..n + 1]) == if args[n].Stream? then Drained(args[..n]) + {args[n].id} else Drained(args[..n])
  {
    assert args[..n + 1] == args[..n] + [args[n]];
    ExtractPush(args[..n], args[n], toS, transcode);
    assert args[..n + 1][..n] == args[..n];
  }

  /** The encoding loop stopping at argument `n`: the whole list raises that
      argument's exception. */
  lemma StopsWith(args: seq<HostValue>, n: nat, toS: HostValue -> RString, transcode: Transcoder)
    requires n < |args| && Extract(args[..n], toS, transcode).Success? && Refused(args[n], toS, transcode)
    ensures Extract(args, toS, transcode) == Failure(TextOf(args[n], toS, transcode).error)
  {
    RefusedFirstAt(args, n, toS, transcode);
  }

  /** When the arguments before `n` encode and argument `n` raises, `n` is
      the first argument that raises. */
  lemma RefusedFirstAt(args: seq<HostValue>, n: nat, toS: HostValue -> RString, transcode: Transcoder)
    requires n < |args| && FirstRefused(args[..n], toS, transcode) == n && Refused(args[n], toS, transcode)
    ensures FirstRefused(args, toS, transcode) == n
  {
    forall i | 0 <= i < n
      ensures !Refused(args[i], toS, transcode)
    {
      assert args[..n][i] == args[i];
    }
  }

  /** Once a prefix of the arguments raises, the whole list raises the same
      exception. */
  lemma {:induction false} ExtractStopsAt(args: seq<HostValue>, n: nat, toS: HostValue -> RString, transcode: Transcoder)
    requires n <= |args| && Extract(args[..n], toS, transcode).Failure?
    ensures Extract(args, toS, transcode) == Extract(args[..n], toS, transcode)
    decreases |args| - n
  {
    if n < |args| {
      assert args[..n + 1][..n] == args[..n];
      ExtractStopsAt(args, n + 1, toS, transcode);
    } else {
      assert args[..n] == args;
    }
  }
}
