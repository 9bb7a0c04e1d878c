/** The checks `ConnectionPool` makes before delegating to the driver's pool
    (ext/swift.cc:663-741): the options of `new`, the pool size, the block
    `execute` requires, and the callback a finished request is handed to.
    The pool itself, its requests and their dispatch live in the driver and
    are parameters here. */
module Pool {
  import opened Wrappers
  import opened CTypes
  import opened Errors
  import opened Host
  import opened BindParams
  import opened Adapter

  const SIZE_MESSAGE: string := "ConnectionPool#new called with invalid pool size."

  /** What the pool keeps after `initialize`: its zone. */
  datatype PoolState = PoolState(timezone: HostValue)

  /** `rb_cpool_init` with the size already converted to a C int. The option
      checks come first, then the size; `connect` is the driver's pool
      constructor. */
  function New(n: int32, opts: Options, login: Bytes, toS: HostValue -> RString, connect: (int32, ConnectArgs) -> Option<DriverError>)
    : (r: Result<PoolState, Error>)
    ensures ConnectOptions("ConnectionPool#new", opts, login, toS).Failure? ==>
      r == Failure(ConnectOptions("ConnectionPool#new", opts, login, toS).error)
    ensures ConnectOptions("ConnectionPool#new", opts, login, toS).Success? && n < 1 ==>
      r == Failure(ArgumentError(Ascii(SIZE_MESSAGE)))
    ensures r.Success? <==>
      && ConnectOptions("ConnectionPool#new", opts, login, toS).Success? && n >= 1
      && connect(n, ConnectOptions("ConnectionPool#new", opts, login, toS).value).None?
    ensures ConnectOptions("ConnectionPool#new", opts, login, toS).Success? && n >= 1 ==>
      var e := connect(n, ConnectOptions("ConnectionPool#new", opts, login, toS).value);
      e.Some? ==> r == Failure(Raise("ConnectionPool#new", e.value))
    ensures r.Success? ==> r.value.timezone == Aref(opts, "timezone")
  {
    match ConnectOptions("ConnectionPool#new", opts, login, toS)
    case Failure(e) => Failure(e)
    case Success(args) =>
      if n < 1 then Failure(ArgumentError(Ascii(SIZE_MESSAGE)))
      else
        match connect(n, args)
        case Some(e) => Failure(Raise("ConnectionPool#new", e))
        case None => Success(PoolState(Aref(opts, "timezone")))
  }

  /** The pool and a single adapter accept the same options and hand the
      driver the same connection arguments; the pool only adds the size
      check, which a missing `:db` or `:driver` still precedes. */
  lemma {:induction false} PoolAgreesWithAdapter(n: int32, opts: Options, login: Bytes, toS: HostValue -> RString)
    ensures ConnectOptions("ConnectionPool#new", opts, login, toS).Success? <==>
            ConnectOptions("Adapter#new", opts, login, toS).Success?
    ensures ConnectOptions("ConnectionPool#new", opts, login, toS).Success? ==>
      ConnectOptions("ConnectionPool#new", opts, login, toS).value == ConnectOptions("Adapter#new", opts, login, toS).value
  {
  }

  const NO_BLOCK_MESSAGE: string := "No block given in Pool#execute"

  /** The block handed to `execute`, with the `@timezone` the pool copied
      onto it: the request's context. */
  datatype Callback = Callback(block: HostValue, timezone: HostValue)

  /** What the driver's pool is asked to run: the SQL as a C string, the bind
      parameters, and the context its callback receives. */
  datatype Request = Request(sql: Bytes, bind: seq<Param>, context: Callback)

  /** The checks and the request of `rb_cpool_execute`. The block is
      required and receives the pool's zone; the values after the SQL are
      encoded as bind parameters, and a transcoding exception aborts the call
      as it is. */
  function Submission(pool: PoolState, sql: HostValue, args: seq<HostValue>, block: HostValue,
                      toS: HostValue -> RString, transcode: Transcoder): (r: Result<Request, Error>)
    ensures block.Nil? ==> r == Failure(ArgumentError(Ascii(NO_BLOCK_MESSAGE)))
    ensures !block.Nil? ==> (r.Success? <==> Extract(args, toS, transcode).Success?)
    ensures !block.Nil? && r.Failure? ==> r.error == Extract(args, toS, transcode).error
    ensures r.Success? ==> r.value.sql == CString(sql, toS) && r.value.bind == Extract(args, toS, transcode).value
    ensures r.Success? ==> r.value.context == Callback(block, pool.timezone)
  {
    if block.Nil? then Failure(ArgumentError(Ascii(NO_BLOCK_MESSAGE)))
    else
      match Extract(args, toS, transcode)
      case Failure(e) => Failure(e)
      case Success(bind) => Success(Request(CString(sql, toS), bind, Callback(block, pool.timezone)))
  }

  /** `rb_cpool_execute`. The driver's pool (`submit`) answers a request
      handle, no request, or a failure; no request reads as nil, and a failure
      is raised under "ConnectionPool#execute". */
  method Execute(
    pool: PoolState, sql: HostValue, args: seq<HostValue>, block: HostValue,
    toS: HostValue -> RString, transcode: Transcoder,
    submit: Request -> Result<Option<nat>, DriverError>)
    returns (r: Result<Option<nat>, Error>)
    ensures Submission(pool, sql, args, block, toS, transcode).Failure? ==>
      r == Failure(Submission(pool, sql, args, block, toS, transcode).error)
    ensures Submission(pool, sql, args, block, toS, transcode).Success? ==>
      var answer := submit(Submission(pool, sql, args, block, toS, transcode).value);
      && (answer.Success? ==> r == Success(answer.value))
      && (answer.Failure? ==> r == Failure(Raise("ConnectionPool#execute", answer.error)))
  {
    if block.Nil? {
      return Failure(ArgumentError(Ascii(NO_BLOCK_MESSAGE)));
    }
    var context := Callback(block, pool.timezone);
    var bind := PoolExtract(args, toS, transcode);
    if bind.Failure? {
      return Failure(bind.error);
    }
    var answer := submit(Request(CString(sql, toS), bind.value, context));
    match answer {
      case Success(request) => r := Success(request);
      case Failure(e) => r := Failure(Raise("ConnectionPool#execute", e));
    }
  }

  /** The pool path and `Adapter#execute` send the same bind parameters for
      the same values, and raise the same exception when the encoder does. */
  method PoolBindsLikeAdapter(pool: PoolState, sql: HostValue, values: seq<HostValue>, block: HostValue,
                              toS: HostValue -> RString, transcode: Transcoder)
    returns (bind: Result<seq<Param>, Error>)
    requires !sql.Nil? && !block.Nil? && |values| > 0
    ensures bind.Success? ==>
      && ExecuteQuery([sql] + values, toS, transcode) == Success(Query(CString(sql, toS), Some(bind.value)))
      && Submission(pool, sql, values, block, toS, transcode).value.bind == bind.value
    ensures bind.Failure? ==>
      && ExecuteQuery([sql] + values, toS, transcode) == Failure(bind.error)
      && Submission(pool, sql, values, block, toS, transcode) == Failure(bind.error)
  {
    bind := PoolExtract(values, toS, transcode);
    ExecuteBindsTheRest(sql, values, toS, transcode);
  }

  /** A result set as a pool callback receives it: the driver's result and
      the `@timezone` it is given. */
  datatype ResultSet = ResultSet(handle: nat, timezone: HostValue)

  /** `rb_cpool_callback`: a finished request's result set goes to the
      request's block, carrying the zone the block was given, unless the block
      is nil. The model answers the call made, if any. */
  function Dispatch(context: Callback, rs: nat): (call: Option<(HostValue, ResultSet)>)
    ensures call.None? <==> context.block.Nil?
    ensures call.Some? ==> call.value.0 == context.block
    ensures call.Some? ==> call.value.1.handle == rs && call.value.1.timezone == context.timezone
  {
    if context.block.Nil? then None else Some((context.block, ResultSet(rs, context.timezone)))
  }

  /** Every request `execute` submits is dispatched to the caller's block, and
      its result set carries the pool's zone. */
  lemma ResultsReachBlockWithPoolZone(pool: PoolState, sql: HostValue, args: seq<HostValue>, block: HostValue,
                                      toS: HostValue -> RString, transcode: Transcoder, rs: nat)
    requires Submission(pool, sql, args, block, toS, transcode).Success?
    ensures Dispatch(Submission(pool, sql, args, block, toS, transcode).value.context, rs) ==
      Some((block, ResultSet(rs, pool.timezone)))
  {
  }
}
