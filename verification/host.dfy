/** The Ruby values the extension receives from its callers, reduced to the
    distinctions its code makes: nil, true/false, strings with their encoding,
    arrays, IO-like streams, other objects that answer `read`, and everything
    else. */
module Host {
  import opened CTypes

  /** A Ruby String: its bytes and the name of its encoding. */
  datatype RString = RString(bytes: Bytes, encoding: string)

  datatype HostValue =
    | Nil
    | True
    | False
    | Int(i: int)
    | Str(s: RString)
    | Array(items: seq<HostValue>)
      /** An IO or StringIO, identified by `id`. `contents` is what a `read`
          with no argument answers the first time: the rest of the stream.
          After that read the stream is at its end and answers "". */
    | Stream(id: nat, contents: Bytes)
      /** Some other object that answers `read`. */
    | Readable(id: nat)
      /** Any other object. */
    | Object(id: nat)

  /** `rb_respond_to(v, read)`. */
  predicate RespondsToRead(v: HostValue) {
    v.Stream? || v.Readable?
  }

  /** `OBJ2STRING(v)`: a String as it is, anything else through its `to_s`
      (the callers' `to_s` methods are a parameter of the model). */
  function Obj2String(v: HostValue, toS: HostValue -> RString): (s: RString)
    ensures v.Str? ==> s == v.s
  {
    if v.Str? then v.s else toS(v)
  }

  /** `CSTRING(v)`: the C string of `OBJ2STRING(v)`, as handed to the driver. */
  function CString(v: HostValue, toS: HostValue -> RString): (r: Bytes)
    ensures NUL !in r
    ensures r <= Obj2String(v, toS).bytes
  {
    CStr(Obj2String(v, toS).bytes)
  }
}
