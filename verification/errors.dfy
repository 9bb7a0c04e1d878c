/** The exceptions the extension raises, and the `EXCEPTION` mapping that turns
    a driver failure into a Ruby exception whose message names the operation
    (ext/swift.cc:35-42). */
module Errors {
  import opened CTypes

  /** A failure reported by the driver library: `dbi::ConnectionError`, or any
      other `dbi::Error`. `what` is the text of `e.what()`. */
  datatype DriverError =
    | ConnectionFailure(what: Bytes)
    | QueryFailure(what: Bytes)

  /** A Ruby exception leaving an operation. `ConnectionError` is a
      subclass of RuntimeError (ext/swift.cc:783), so `rescue RuntimeError`
      catches both driver failures. `EncodingError` is what `String#encode`
      raises for bytes it cannot convert. `BlockError` is an exception raised
      by the caller's own block, identified opaquely and passed on untouched. */
  datatype Error =
    | ArgumentError(msg: Bytes)
    | RuntimeError(msg: Bytes)
    | ConnectionError(msg: Bytes)
    | EncodingError(msg: Bytes)
    | BlockError(exception: nat)

  /** Size of the buffer the driver message is copied through. */
  const ERRSTR_LIMIT: nat := 4096

  /** `snprintf(errstr, 4096, "%s", what)`: the C string of `what`, cut to the
      4095 bytes that fit before the terminating NUL. */
  function Truncated(what: Bytes): (r: Bytes)
    ensures |r| < ERRSTR_LIMIT
    ensures r <= CStr(what)
    ensures |CStr(what)| < ERRSTR_LIMIT ==> r == CStr(what)
    ensures |CStr(what)| >= ERRSTR_LIMIT ==> |r| == ERRSTR_LIMIT - 1
  {
    var text := CStr(what);
    text[..Min(|text|, ERRSTR_LIMIT - 1)]
  }

  /** The message `rb_raise(klass, "%s : %s", context, errstr)` builds. */
  function Message(context: string, what: Bytes): Bytes {
    Ascii(context) + Ascii(" : ") + Truncated(what)
  }

  /** The `EXCEPTION(context)` handler: a connection failure becomes a
      ConnectionError, every other driver error a RuntimeError; both carry the
      context, " : " and the (truncated) driver message. */
  function Raise(context: string, e: DriverError): (err: Error)
    ensures e.ConnectionFailure? <==> err.ConnectionError?
    ensures e.QueryFailure? <==> err.RuntimeError?
    ensures |context| + 3 <= |err.msg| <= |context| + 3 + ERRSTR_LIMIT - 1
    ensures err.msg[..|context| + 3] == Ascii(context + " : ")
  {
    AsciiAppend(context, " : ");
    match e
    case ConnectionFailure(what) => ConnectionError(Message(context, what))
    case QueryFailure(what) => RuntimeError(Message(context, what))
  }

  /** A driver message that fits the buffer and holds no NUL reaches the caller
      whole, right after the operation's prefix: the message can be recovered
      from the raised exception. */
  lemma {:induction false} RaiseKeepsShortMessage(context: string, e: DriverError)
    requires NUL !in e.what && |e.what| < ERRSTR_LIMIT
    ensures Raise(context, e).msg[|context| + 3..] == e.what
  {
    CStrOfTerminated(e.what);
    var err := Raise(context, e);
    assert err.msg == Ascii(context) + Ascii(" : ") + e.what;
  }

  /** A longer message is cut: the exception keeps exactly its first 4095 bytes. */
  lemma {:induction false} RaiseCutsLongMessage(context: string, e: DriverError)
    requires NUL !in e.what && |e.what| >= ERRSTR_LIMIT
    ensures Raise(context, e).msg[|context| + 3..] == e.what[..ERRSTR_LIMIT - 1]
  {
    CStrOfTerminated(e.what);
    var err := Raise(context, e);
    assert err.msg == Ascii(context) + Ascii(" : ") + e.what[..ERRSTR_LIMIT - 1];
  }
}
