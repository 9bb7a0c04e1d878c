/** The argument checks of the adapter's entry points: `Adapter#new`
    (ext/swift.cc:158-186), `#execute` (235-266), `#write` (326-357),
    `#escape` (388-398) and `Swift.trace` (618-635). The driver behind each
    entry point is a parameter: a function from what the adapter hands it to
    what it answers. */
module Adapter {
  import opened Wrappers
  import opened CTypes
  import opened Errors
  import opened Host
  import opened BindParams
  import opened IoStream

  // ---------------------------------------------------------------------
  // Adapter#new
  // ---------------------------------------------------------------------

  /** An options Hash, keyed by the names of its symbols. */
  type Options = map<string, HostValue>

  /** `rb_hash_aref(opts, ID2SYM(rb_intern(key)))`: a missing key reads as nil. */
  function Aref(opts: Options, key: string): HostValue {
    if key in opts then opts[key] else Nil
  }

  /** The strings the driver's connection constructor receives, in its
      parameter order. */
  datatype ConnectArgs = ConnectArgs(driver: Bytes, user: Bytes, password: Bytes, db: Bytes, host: Bytes, port: Bytes)

  /** An optional String option: nil becomes `rb_str_new2("")`, whose C string
      is empty. */
  function OrEmpty(v: HostValue, toS: HostValue -> RString): Bytes {
    if v.Nil? then [] else CString(v, toS)
  }

  /** The option handling `Adapter#new` and `ConnectionPool#new` share,
      `context` naming the entry point: `:db` is required and checked first,
      then `:driver`; host, port and password default to "", the user to the
      login name of the process (`getlogin()`, a parameter). */
  function ConnectOptions(context: string, opts: Options, login: Bytes, toS: HostValue -> RString): (r: Result<ConnectArgs, Error>)
    ensures Aref(opts, "db").Nil? ==> r == Failure(ArgumentError(Ascii(context + " called without :db")))
    ensures !Aref(opts, "db").Nil? && Aref(opts, "driver").Nil? ==>
      r == Failure(ArgumentError(Ascii(context + " called without :driver")))
    ensures r.Success? <==> !Aref(opts, "db").Nil? && !Aref(opts, "driver").Nil?
    ensures r.Success? ==> r.value.db == CString(Aref(opts, "db"), toS) && r.value.driver == CString(Aref(opts, "driver"), toS)
    ensures r.Success? ==> forall key :: key in {"host", "port", "password"} && Aref(opts, key).Nil? ==>
      ArgOf(r.value, key) == []
    ensures r.Success? ==> forall key :: key in {"host", "port", "password", "user"} && !Aref(opts, key).Nil? ==>
      ArgOf(r.value, key) == CString(Aref(opts, key), toS)
    ensures r.Success? && Aref(opts, "user").Nil? ==> r.value.user == CStr(login)
  {
    var db := Aref(opts, "db");
    var driver := Aref(opts, "driver");
    if db.Nil? then Failure(ArgumentError(Ascii(context + " called without :db")))
    else if driver.Nil? then Failure(ArgumentError(Ascii(context + " called without :driver")))
    else
      var user := Aref(opts, "user");
      Success(ConnectArgs(
        CString(driver, toS),
        if user.Nil? then CStr(login) else CString(user, toS),
        OrEmpty(Aref(opts, "password"), toS),
        CString(db, toS),
        OrEmpty(Aref(opts, "host"), toS),
        OrEmpty(Aref(opts, "port"), toS)))
  }

  /** The connection argument that came from option `key`. */
  function ArgOf(args: ConnectArgs, key: string): Bytes {
    match key
    case "driver" => args.driver
    case "user" => args.user
    case "password" => args.password
    case "db" => args.db
    case "host" => args.host
    case "port" => args.port
    case _ => []
  }

  /** Ruby cannot tell an option set to nil from one never given: the
      connection arguments are the same. */
  lemma {:induction false} NilOptionIsAbsent(context: string, opts: Options, key: string, login: Bytes, toS: HostValue -> RString)
    ensures ConnectOptions(context, opts[key := Nil], login, toS) == ConnectOptions(context, opts - {key}, login, toS)
  {
    forall k
      ensures Aref(opts[key := Nil], k) == Aref(opts - {key}, k)
    {
    }
  }

  /** What an adapter keeps after `initialize`: its options and its zone. */
  datatype AdapterState = AdapterState(options: Options, timezone: HostValue)

  /** `rb_adapter_init`. `connect` is the driver's connection constructor,
      answering a failure or nothing. */
  function New(opts: Options, login: Bytes, toS: HostValue -> RString, connect: ConnectArgs -> Option<DriverError>)
    : (r: Result<AdapterState, Error>)
    ensures ConnectOptions("Adapter#new", opts, login, toS).Failure? ==>
      r == Failure(ConnectOptions("Adapter#new", opts, login, toS).error)
    ensures ConnectOptions("Adapter#new", opts, login, toS).Success? ==>
      var args := ConnectOptions("Adapter#new", opts, login, toS).value;
      && (connect(args).Some? ==> r == Failure(Raise("Adapter#new", connect(args).value)))
      && (connect(args).None? ==> r == Success(AdapterState(opts, Aref(opts, "timezone"))))
  {
    match ConnectOptions("Adapter#new", opts, login, toS)
    case Failure(e) => Failure(e)
    case Success(args) =>
      match connect(args)
      case Some(e) => Failure(Raise("Adapter#new", e))
      case None => Success(AdapterState(opts, Aref(opts, "timezone")))
  }

  // ---------------------------------------------------------------------
  // Adapter#execute
  // ---------------------------------------------------------------------

  /** What `execute` hands the driver: the SQL as a C string, and the bind
      parameters unless the SQL came alone. */
  datatype Query = Query(sql: Bytes, bind: Option<seq<Param>>)

  const EXECUTE_MESSAGE: string := "Adapter#execute called without a SQL command"

  /** The argument check and the query `rb_adapter_execute` builds. The
      SQL is checked first; a value whose transcoding raises aborts the call
      with that exception, which the driver-error handler does not catch. */
  function ExecuteQuery(args: seq<HostValue>, toS: HostValue -> RString, transcode: Transcoder): (r: Result<Query, Error>)
    ensures |args| == 0 || args[0].Nil? ==> r == Failure(ArgumentError(Ascii(EXECUTE_MESSAGE)))
    ensures r.Failure? <==>
      |args| == 0 || args[0].Nil? || FirstRefused(args[1..], toS, transcode) < |args| - 1
    ensures |args| > 0 && !args[0].Nil? && r.Failure? ==>
      r.error == TextOf(args[1 + FirstRefused(args[1..], toS, transcode)], toS, transcode).error
    ensures r.Success? ==> r.value.sql == CString(args[0], toS)
    ensures r.Success? ==> (r.value.bind.None? <==> |args| == 1)
    ensures r.Success? && r.value.bind.Some? ==>
      && |r.value.bind.value| == |args| - 1
      && forall i :: 1 <= i < |args| ==>
           r.value.bind.value[i - 1] == Encode(args[i], Drained(args[1..i]), toS, transcode).value
  {
    if |args| == 0 || args[0].Nil? then Failure(ArgumentError(Ascii(EXECUTE_MESSAGE)))
    else if |args| == 1 then Success(Query(CString(args[0], toS), None))
    else
      var values := args[1..];
      assert forall i :: 1 <= i < |args| ==> values[i - 1] == args[i] && values[..i - 1] == args[1..i];
      match Extract(values, toS, transcode)
      case Failure(e) => Failure(e)
      case Success(bind) => Success(Query(CString(args[0], toS), Some(bind)))
  }

  /** `rb_adapter_execute` without a block: the number of rows the driver
      reports, or its failure raised under "Adapter#execute". */
  function Execute(args: seq<HostValue>, toS: HostValue -> RString, transcode: Transcoder, run: Query -> Result<uint32, DriverError>)
    : (r: Result<uint32, Error>)
    ensures ExecuteQuery(args, toS, transcode).Failure? ==> r == Failure(ExecuteQuery(args, toS, transcode).error)
    ensures ExecuteQuery(args, toS, transcode).Success? ==>
      var answer := run(ExecuteQuery(args, toS, transcode).value);
      && (answer.Success? ==> r == Success(answer.value))
      && (answer.Failure? ==> r == Failure(Raise("Adapter#execute", answer.error)))
  {
    match ExecuteQuery(args, toS, transcode)
    case Failure(e) => Failure(e)
    case Success(q) =>
      match run(q)
      case Success(rows) => Success(rows)
      case Failure(e) => Failure(Raise("Adapter#execute", e))
  }

  /** Binding values after the SQL sends exactly what the encoder makes of
      them, or raises what it raises; a statement given no values is sent
      without parameters. */
  lemma ExecuteBindsTheRest(sql: HostValue, values: seq<HostValue>, toS: HostValue -> RString, transcode: Transcoder)
    requires !sql.Nil?
    ensures var q := ExecuteQuery([sql] + values, toS, transcode);
      && (|values| == 0 ==> q == Success(Query(CString(sql, toS), None)))
      && (|values| > 0 && Extract(values, toS, transcode).Success? ==>
            q == Success(Query(CString(sql, toS), Some(Extract(values, toS, transcode).value))))
      && (|values| > 0 && Extract(values, toS, transcode).Failure? ==>
            q == Failure(Extract(values, toS, transcode).error))
  {
    assert ([sql] + values)[1..] == values;
  }

  // ---------------------------------------------------------------------
  // Adapter#write
  // ---------------------------------------------------------------------

  const STREAM_MESSAGE: string := "Adapter#write: stream should be a string or kind_of?(IO)"
  const FIELDS_MESSAGE: string := "Adapter#write: fields should be an array of string values"

  /** Where the bulk loader reads from: the bytes of a String, or the caller's
      stream read through `IOStream`. */
  datatype WriteSource =
    | Buffer(bytes: Bytes)
    | CallerStream(stream: HostValue)

  /** What `write` hands the driver's bulk loader. */
  datatype Load = Load(table: Bytes, fields: seq<Bytes>, source: WriteSource)

  /** The field names the loader receives: every byte of each String. */
  function FieldNames(fields: seq<HostValue>): (names: seq<Bytes>)
    requires forall i :: 0 <= i < |fields| ==> fields[i].Str?
    ensures |names| == |fields|
    ensures forall i :: 0 <= i < |fields| ==> names[i] == fields[i].s.bytes
  {
    seq(|fields|, i requires 0 <= i < |fields| => fields[i].s.bytes)
  }

  /** The argument checks of `rb_adapter_write` and the load they lead to.
      The stream is checked before the fields; field names keep every byte of
      their Strings, the table name is read as a C string. */
  function WriteLoad(table: RString, fields: HostValue, stream: HostValue): (r: Result<Load, Error>)
    requires fields.Array? ==> forall i :: 0 <= i < |fields.items| ==> fields.items[i].Str?
    ensures !stream.Str? && !RespondsToRead(stream) ==> r == Failure(ArgumentError(Ascii(STREAM_MESSAGE)))
    ensures (stream.Str? || RespondsToRead(stream)) && !fields.Array? ==> r == Failure(ArgumentError(Ascii(FIELDS_MESSAGE)))
    ensures r.Success? <==> (stream.Str? || RespondsToRead(stream)) && fields.Array?
    ensures r.Success? ==> r.value.table == CStr(table.bytes) && |r.value.fields| == |fields.items|
    ensures r.Success? ==> forall i :: 0 <= i < |fields.items| ==> r.value.fields[i] == fields.items[i].s.bytes
    ensures r.Success? ==> r.value.source == if stream.Str? then Buffer(stream.s.bytes) else CallerStream(stream)
  {
    if !stream.Str? && !RespondsToRead(stream) then Failure(ArgumentError(Ascii(STREAM_MESSAGE)))
    else if !fields.Array? then Failure(ArgumentError(Ascii(FIELDS_MESSAGE)))
    else Success(Load(CStr(table.bytes), FieldNames(fields.items), if stream.Str? then Buffer(stream.s.bytes) else CallerStream(stream)))
  }

  /** `rb_adapter_write`: the row count the loader reports. `answers` are the
      caller stream's answers to the whole reads (`IOStream::read()`, with no
      length) the loader made, in order, and the loader receives their bytes
      (nothing for a String source). An answer that is neither nil nor a
      String raises IOStream's ArgumentError as it is; the bounded
      `read(buffer, len)` never raises that error. A failure of the loader
      itself is raised under "Adapter#write". */
  function Write(table: RString, fields: HostValue, stream: HostValue, answers: seq<HostValue>,
                 load: (Load, seq<Bytes>) -> Result<nat, DriverError>): (r: Result<nat, Error>)
    requires fields.Array? ==> forall i :: 0 <= i < |fields.items| ==> fields.items[i].Str?
    ensures WriteLoad(table, fields, stream).Failure? ==> r == Failure(WriteLoad(table, fields, stream).error)
    ensures WriteLoad(table, fields, stream).Success? && !stream.Str? && ReadEach(answers).Failure? ==>
      r == Failure(ArgumentError(Ascii(STRINGIFY_MESSAGE)))
    ensures WriteLoad(table, fields, stream).Success? && (stream.Str? || ReadEach(answers).Success?) ==>
      var answer := load(WriteLoad(table, fields, stream).value, if stream.Str? then [] else ReadEach(answers).value);
      && (answer.Success? ==> r == Success(answer.value))
      && (answer.Failure? ==> r == Failure(Raise("Adapter#write", answer.error)))
  {
    match WriteLoad(table, fields, stream)
    case Failure(e) => Failure(e)
    case Success(l) =>
      var pulled := if stream.Str? then Success([]) else ReadEach(answers);
      match pulled
      case Failure(e) => Failure(e)
      case Success(chunks) =>
        match load(l, chunks)
        case Success(rows) => Success(rows)
        case Failure(e) => Failure(Raise("Adapter#write", e))
  }

  /** Loading from a caller's stream raises the ArgumentError of the first
      answer that is not a String, whatever the loader does. */
  lemma WriteRefusesNonString(table: RString, fields: seq<HostValue>, stream: HostValue, answers: seq<HostValue>,
                              load: (Load, seq<Bytes>) -> Result<nat, DriverError>, k: nat)
    requires forall i :: 0 <= i < |fields| ==> fields[i].Str?
    requires RespondsToRead(stream)
    requires k < |answers| && !answers[k].Nil? && !answers[k].Str?
    ensures Write(table, Array(fields), stream, answers, load) == Failure(ReadAll(answers[k]).error)
  {
  }

  /** When every answer is nil or a String, the loader receives exactly those
      answers' bytes, in order, nil as nothing. */
  lemma WriteHandsOverAnswers(table: RString, fields: seq<HostValue>, stream: HostValue, answers: seq<HostValue>,
                              load: (Load, seq<Bytes>) -> Result<nat, DriverError>)
    requires forall i :: 0 <= i < |fields| ==> fields[i].Str?
    requires RespondsToRead(stream)
    requires forall i :: 0 <= i < |answers| ==> answers[i].Nil? || answers[i].Str?
    ensures var chunks := seq(|answers|, i requires 0 <= i < |answers| => if answers[i].Str? then answers[i].s.bytes else []);
      var answer := load(Load(CStr(table.bytes), FieldNames(fields), CallerStream(stream)), chunks);
      Write(table, Array(fields), stream, answers, load) ==
        if answer.Success? then Success(answer.value) else Failure(Raise("Adapter#write", answer.error))
  {
    var chunks := seq(|answers|, i requires 0 <= i < |answers| => if answers[i].Str? then answers[i].s.bytes else []);
    assert ReadEach(answers).value == chunks;
  }

  // ---------------------------------------------------------------------
  // Adapter#escape
  // ---------------------------------------------------------------------

  const ESCAPE_MESSAGE: string := "Adapter#escape: Cannot escape non-string value"

  /** `rb_adapter_escape`: only Strings are escaped, every byte of them; the
      driver's answer comes back as a binary String. */
  function Escape(value: HostValue, escape: Bytes -> Result<Bytes, DriverError>): (r: Result<RString, Error>)
    ensures !value.Str? ==> r == Failure(ArgumentError(Ascii(ESCAPE_MESSAGE)))
    ensures value.Str? && escape(value.s.bytes).Success? ==> r == Success(RString(escape(value.s.bytes).value, "ASCII-8BIT"))
    ensures value.Str? && escape(value.s.bytes).Failure? ==> r == Failure(Raise("Adapter#escape", escape(value.s.bytes).error))
  {
    if !value.Str? then Failure(ArgumentError(Ascii(ESCAPE_MESSAGE)))
    else
      match escape(value.s.bytes)
      case Success(safe) => Success(RString(safe, "ASCII-8BIT"))
      case Failure(e) => Failure(Raise("Adapter#escape", e))
  }

  /** Escaping sees every byte of the String, where a C string read stops at
      the first NUL: with a driver that leaves its input alone, the answer is
      the String's bytes, longer than its C string when it holds a NUL. */
  lemma EscapeKeepsBytesPastNul(s: RString, toS: HostValue -> RString, escape: Bytes -> Result<Bytes, DriverError>)
    requires forall b :: escape(b) == Success(b)
    requires NUL in s.bytes
    ensures Escape(Str(s), escape) == Success(RString(s.bytes, "ASCII-8BIT"))
    ensures |CString(Str(s), toS)| < |s.bytes|
  {
  }

  // ---------------------------------------------------------------------
  // Swift.trace
  // ---------------------------------------------------------------------

  /** What `dbi::trace` is told: whether to trace, and the descriptor to
      write to. */
  datatype TraceSetting = TraceSetting(enabled: bool, fd: int)

  const TRACE_MESSAGE: string := "Swift#trace expects a boolean flag, got "

  /** `rb_swift_trace`: the flag must be true or false; the descriptor is
      standard error unless an IO is given (`fdOf` stands for the IO's
      descriptor). */
  function Trace(flag: HostValue, io: HostValue, toS: HostValue -> RString, fdOf: HostValue -> int): (r: Result<TraceSetting, Error>)
    ensures r.Failure? <==> !flag.True? && !flag.False?
    ensures r.Failure? ==> r.error == ArgumentError(Ascii(TRACE_MESSAGE) + CString(flag, toS))
    ensures r.Success? ==> (r.value.enabled <==> flag.True?)
    ensures r.Success? ==> r.value.fd == if io.Nil? then 2 else fdOf(io)
  {
    if !flag.True? && !flag.False? then Failure(ArgumentError(Ascii(TRACE_MESSAGE) + CString(flag, toS)))
    else Success(TraceSetting(flag.True?, if io.Nil? then 2 else fdOf(io)))
  }

  /** The flag is checked before the IO is looked at: a refused flag raises
      the same error whatever IO is given, and an accepted one sets tracing
      the same way for every IO. */
  lemma TraceFlagCheckedFirst(flag: HostValue, io1: HostValue, io2: HostValue, toS: HostValue -> RString, fdOf: HostValue -> int)
    ensures Trace(flag, io1, toS, fdOf).Failure? <==> Trace(flag, io2, toS, fdOf).Failure?
    ensures Trace(flag, io1, toS, fdOf).Failure? ==> Trace(flag, io1, toS, fdOf) == Trace(flag, io2, toS, fdOf)
    ensures Trace(flag, io1, toS, fdOf).Success? ==>
      Trace(flag, io1, toS, fdOf).value.enabled == Trace(flag, io2, toS, fdOf).value.enabled
  {
  }
}
