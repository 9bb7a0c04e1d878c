# Swift: a Dafny model of the native adapter and the batch CRUD layer

Swift is a Ruby database access layer. A C++ extension wraps an external
driver library (dbic++), and Ruby code builds batch operations on top of it.
This project models the parts of that code with statable logic:

- **The column type decoder** (`rb_field_typecast`).
  - Booleans are recognised by exact text.
  - Integers are read from decimal text.
  - Text and blobs keep every byte.
  - Timestamps are read from `YYYY-MM-DD HH:MM:SS[.frac][±HH[:MM]]` and shifted by integer zone arithmetic.
  - A timestamp whose day does not parse comes back as its raw text.
  - Modules: `Typecast`, `Scan` (the `sscanf` subset used), `Decimal`, `Calendar`.
- **The bind-parameter encoder** (`rb_extract_bind_params` and its copy in `rb_cpool_execute`). Module `BindParams`.
- **Buffered result access** (`Statement#each`, `#read`, `#insert_id`). Module `Statements`.
- **The transaction wrapper** (`Adapter#transaction`). Module `Transactions`.
- **Argument and option checks** of `Adapter#new`, `#execute`, `#write`, `#escape`, `Swift.trace` and `ConnectionPool#new`/`#execute`. Modules `Adapter` and `Pool`.
- **The bounded stream reads** of `IOStream`. Module `IoStream`.
- **The `EXCEPTION` handler.** It turns driver errors into Ruby exceptions with a context prefix and a message cut to 4095 bytes. Module `Errors`.
- **`Adapter#get`, `#create`, `#update` and `#delete`** over an abstract scheme header and statement. Module `Crud`.

Things outside the extension's own code are function parameters of the model:

- the driver's connection, statement and pool calls;
- Ruby's `to_s`, transcoding, `scheme.new`, `inspect`;
- `getlogin`, `mktime`, zone lookup, UUID generation.

A driver failure is a `DriverError` value. `ConnectionFailure` becomes a `ConnectionError` and `QueryFailure` a `RuntimeError`.

Values the C code reads as a `const char*` are modelled as `CTypes.CStr(bytes)`, the prefix before the first NUL. Values it reads with their length keep every byte. `time_t` arithmetic wraps modulo 2^64, written out with `CTypes.Wrap64`.

The model follows the code where its behaviour is easy to misread:

- **Integer columns** use Ruby's conversion with error checking off. It skips leading blanks, one sign and an optional `0d`/`0D` prefix, then reads digits with single underscores between them; anything after the numeral is ignored. Text without a numeral gives 0, so the conversion never fails.
- **A `+HH:MM` suffix is subtracted** from the local offset and `-HH:MM` is added: the code computes `tzoffset - offset` with the suffix's sign applied to `offset`.
- **A block that raises (or leaves by `break` or `throw`) with an empty transaction stack** makes `Adapter#transaction` return true and drop the exception: the wrapper resumes the exception only when a savepoint is still open.
- **Blob columns** come back as a StringIO over the bytes. Text columns come back as a UTF-8 String of every byte.

## Model

| member | source | states |
|---|---|---|
| Errors.Truncated | ext/swift.cc:35-42 | the message kept is the driver's C string, or its first 4095 bytes when it does not fit the 4096-byte buffer |
| Errors.Raise | ext/swift.cc:35-42 | a connection failure raises ConnectionError and any other driver error RuntimeError; the message starts with the context and " : " and is at most 4095 bytes longer |
| Errors.RaiseKeepsShortMessage | ext/swift.cc:35-42 | a NUL-free driver message under 4096 bytes can be read back whole after the context prefix |
| Errors.RaiseCutsLongMessage | ext/swift.cc:35-42 | a longer NUL-free message is cut to exactly its first 4095 bytes |
| Host.CString | ext/swift.cc:32-33 | the C string of a value's String form has no NUL and is a prefix of that String's bytes |
| CTypes.CStr | ext/swift.cc:487 | the bytes a C routine reads are a NUL-free prefix that stops exactly at the first NUL |
| CTypes.CStrIdempotent | ext/swift.cc:487 | reading a C string of a C string changes nothing |
| CTypes.Wrap64 | ext/swift.cc:516-525 | the 64-bit `time_t` result equals the exact sum whenever the sum fits in 64 bits |
| CTypes.Wrap64Congruent | ext/swift.cc:516-525 | the 64-bit `time_t` result differs from the exact sum by a whole number of 2^64 periods |
| CTypes.Wrap64OfWrapped | ext/swift.cc:516-525 | wrapping a partial sum early does not change the wrapped total |
| BindParams.Encode | ext/swift.cc:129-140 | nil binds NULL and only nil does; an IO or StringIO binds as binary what its `read` answers, its contents the first time and the empty string once an earlier argument drained it; anything else binds its String form as text, unchanged when it is already UTF-8, and raises exactly when transcoding raises, with that exception |
| BindParams.Drained | ext/swift.cc:131-133 | the streams a list of arguments leaves at their end are exactly the streams among them |
| BindParams.FirstRefused | ext/swift.cc:126-142 | every argument before the returned index is encoded without raising, and the one at it raises |
| BindParams.Extract | ext/swift.cc:126-142 | succeeds exactly when no argument raises; then one parameter per argument, in argument order, each encoded after the earlier arguments were read; otherwise the first raising argument's exception |
| BindParams.StreamReadOnce | ext/swift.cc:131-133 | a stream binds its contents at its first occurrence in the arguments and the empty string at every later one |
| BindParams.ExtractPush | ext/swift.cc:127-141 | binding one more argument appends its encoding, made after the earlier arguments were read |
| BindParams.SameStreamTwice | ext/swift.cc:131-133 | the same IO passed twice binds its contents and then the empty string |
| BindParams.Utf8ArgumentsNeverRaise | ext/swift.cc:129-139 | arguments that are nil, streams or UTF-8 Strings never raise |
| BindParams.PoolExtract | ext/swift.cc:720-734 | the pool's own copy of the loop produces exactly the parameters, or the exception, of the adapter's encoder |
| BindParams.ExtractStopsAt | ext/swift.cc:127-141 | once a prefix of the arguments raises, the whole list raises the same exception |
| Decimal.ValueOfFormat | ext/swift.cc:489 | reading back the shortest decimal text of a natural number gives the number |
| Decimal.IntegerRoundTrip | ext/swift.cc:489 | base-10 conversion of the text of any integer, negative ones included, gives the integer back |
| Decimal.DigitsToEnd | ext/swift.cc:489 | a run of plain digits reaching the end of the text is read whole |
| Decimal.AfterPrefix | ext/swift.cc:489 | the numeral starts at the same place or two bytes on, never past the end of the text |
| Decimal.RadixPrefixSkipped | ext/swift.cc:489 | a "0d" or "0D" prefix after the sign is skipped: "0d12" reads 12 and "-0D5" reads -5 |
| Scan.Run | ext/swift.cc:505-512 | the scan never moves backwards or past the end of the text |
| Scan.RunDelivers | ext/swift.cc:505-512 | each conversion assigns at most one field, and a scan that matches the whole format assigns every one |
| Scan.RunAppend | ext/swift.cc:505-512 | scanning with two formats in sequence is scanning the first and, only if all of it matched, the second from where it stopped |
| Scan.ScanIntDigits | ext/swift.cc:505-512 | a `%Nd` field over exactly N digits reads their value and stops after them |
| Scan.ScanRealFraction | ext/swift.cc:505-507 | `%lf` at a '.' followed by digits consumes exactly those bytes |
| Scan.CharAtEnd | ext/swift.cc:509-512 | `%c` at the end of the text fails, so a missing zone suffix leaves the sign at zero |
| Typecast.ZoneToOffset | ext/swift.cc:364-369 | a nil zone means an offset of 0 |
| Typecast.Typecast | ext/swift.cc:477-536 | each type tag gives its own kind of value; text, blob and an unparsed timestamp keep exactly the column's bytes |
| Typecast.DecodeTime | ext/swift.cc:502-529 | a day field that is not positive gives back the raw bytes; otherwise the result is a Time carrying the scanned fraction text |
| Typecast.BooleanTrueExactly | ext/swift.cc:487 | a boolean column is true if and only if its C string is "t" or "1" |
| Typecast.BooleanRoundTrip | ext/swift.cc:487 | the texts "t"/"f" and "1"/"0" decode to the boolean they stand for |
| Typecast.NulTerminatedTags | ext/swift.cc:487-489 | the boolean, integer, numeric and float decoders ignore everything after the first NUL |
| Typecast.IntegerColumnRoundTrip | ext/swift.cc:489 | the text of any integer, read from an integer column, is that integer |
| Typecast.ZeroDayIsRaw | ext/swift.cc:515-529 | a well-formed date and time whose day reads as zero comes back as the unchanged column bytes |
| Typecast.NoDigitsIsRaw | ext/swift.cc:502-529 | text with no digit at all stops the scan before the day, and the raw bytes come back |
| Typecast.ParseDateTime | ext/swift.cc:502-514 | whatever follows a well-formed date and time, the struct handed to mktime holds its six numbers with the year less 1900 and the month less 1 |
| Typecast.DateTimeSamePrefix | ext/swift.cc:505-512 | texts that agree on their first nineteen bytes scan to the same date and time |
| Typecast.ZoneFields | ext/swift.cc:516-524 | the decoder's sign test on the scanned zone gives the correction the suffix names: minus its offset for '+', plus for '-', the adapter zone's correction when absent |
| Typecast.WholeSecondTimestamp | ext/swift.cc:502-529 | "YYYY-MM-DD HH:MM:SS" with no suffix, "±HH" or "±HH:MM" and a positive day decodes to mktime of its fields plus the local offset corrected by the suffix (or by the adapter's zone when absent), with no fraction |
| Typecast.FractionalTimestamp | ext/swift.cc:502-529 | with '.' and fraction digits before the zone, the same instant is decoded and the fraction text is kept |
| Typecast.DateOnlyTimestamp | ext/swift.cc:502-529 | a bare date with a positive day decodes to its midnight, corrected by the local and adapter offsets |
| Calendar.ZonedInstant | ext/swift.cc:516-525 | in a process whose zone keeps a fixed offset, a zone suffix makes the decoded instant the wall-clock reading as UTC minus the suffix's offset; the process's zone cancels out |
| Calendar.UnzonedInstant | ext/swift.cc:516-525 | without a suffix the wall-clock reading is taken in the adapter's zone |
| Calendar.ZonedTextIsPortable | ext/swift.cc:516-525 | two processes in different fixed zones with different adapter zones decode the same zoned text to the same instant |
| Calendar.NoonFirstOfMarch2024 | ext/swift.cc:502-529 | "2024-03-01 12:00:00+00:00" is the instant 1709294400 in any fixed-offset process, whatever the adapter's zone |
| Statements.CellValue | ext/swift.cc:564-569 | an absent cell reads as nil and only an absent cell does |
| Statements.LastColumn | ext/swift.cc:563-570 | the column whose value a key ends up holding is the last one with that name |
| Statements.BuildRow | ext/swift.cc:562-570 | a row holds exactly the names of the columns stored so far, each with the value of the last column of that name |
| Statements.RowHasEveryColumn | ext/swift.cc:563-570 | every column's name is a key of the row, holding that column's decoded value when no later column shares the name |
| Statements.RowHasOnlyColumns | ext/swift.cc:562-570 | a row has no key besides the columns' names |
| Statements.Each | ext/swift.cc:538-590 | a driver failure raises under "Statment#each"; otherwise one value per buffered row, in row order, each the row's Hash or what `load` made of it; the cursor ends at 0 and the buffer is unchanged |
| Statements.EachIsRepeatable | ext/swift.cc:559-587 | a second `each` yields exactly what the first did |
| Statements.EachRows | ext/swift.cc:561-572 | the nested loops without a scheme build one Hash per row, each equal to that row's Hash |
| Statements.FillRow | ext/swift.cc:562-570 | the inner loop builds exactly the Hash of its row, column by column |
| Statements.Read | ext/swift.cc:592-610 | nil once the cursor is at or past the last row; otherwise exactly one entry per column, the raw bytes or nil |
| Statements.ReadAfterEach | ext/swift.cc:592-610 | after `each`, `read` returns the raw cells of the first row |
| Statements.InsertId | ext/swift.cc:467-475 | nil exactly when the result has no rows; otherwise the driver's last insert id |
| Statements.InsertIdAgreesWithEach | ext/swift.cc:467-475 | the insert id is nil exactly when `each` yields no row, and `each` leaves the insert id unchanged |
| IoStream.ReadAll | ext/swift.cc:62-73 | nil reads as empty, a String as all of its bytes, and any other answer raises ArgumentError |
| IoStream.ReadEach | ext/swift.cc:62-73 | a run of whole reads succeeds exactly when every answer is nil or a String, delivering each answer's bytes in order; otherwise the "stringify" ArgumentError |
| IoStream.ChunkOfWholeRead | ext/swift.cc:62-84 | for the same answer, a bounded read delivers a prefix of what a whole read delivers, and all of it once the bound covers the answer |
| IoStream.ReadChunk | ext/swift.cc:75-84 | a chunk is a prefix of the stream's answer, exactly min(len, its length) long, and empty for nil |
| IoStream.LengthArgument | ext/swift.cc:76 | a length below 2^31 reaches `read` unchanged; a longer one arrives as the negative Integer 2^32 smaller |
| IoStream.Answer | ext/swift.cc:75-84 | a StringIO-like stream raises ArgumentError exactly for a negative length, answers nil exactly at its end for a positive one, and otherwise the next bytes, at most the length asked for |
| IoStream.Pull | ext/swift.cc:75-84 | one bounded read raises exactly when the length is 2^31 or more, with the stream's negative-length error; otherwise it copies a prefix of the remaining bytes, min(len, what remains) long |
| IoStream.Drain | ext/swift.cc:75-84 | pulling chunks until a read copies nothing reassembles the contents exactly when the length fits a C `int`, and raises the negative-length error otherwise |
| Transactions.SavePoint | ext/swift.cc:310 | without a name, the savepoint is "SP" followed by the fresh UUID; with one, it is the name's C string |
| Transactions.Transaction | ext/swift.cc:300-324 | without a block nothing is sent and ArgumentError is raised; otherwise `begin` comes first; every call names the one savepoint; the block runs exactly when `begin` succeeded; commit exactly when it completed with a non-empty stack; rollback exactly when it raised with a non-empty stack; with a non-empty stack the answer is true after a successful commit, the block's exception after a successful rollback, and a failing commit or rollback raised under "Adapter#transaction{}" |
| Transactions.FinishesAtMostOnce | ext/swift.cc:315-321 | a transaction never both commits and rolls back, and never finishes twice |
| Transactions.BlockOutcomeDecides | ext/swift.cc:315-323 | with a non-empty stack and no driver failure, a completed block gives true and a raising block's exception is raised again |
| Transactions.EmptyStackSwallowsError | ext/swift.cc:315-323 | with an empty stack a raising block leads to neither commit nor rollback, and the call returns true |
| Transactions.FailedBeginSkipsBlock | ext/swift.cc:312-322 | a failing `begin` is raised under "Adapter#transaction{}" and the block never runs |
| Transactions.FailedRollbackDropsBlockError | ext/swift.cc:318-322 | a failing rollback is raised under "Adapter#transaction{}" and the block's own exception is lost |
| Adapter.ConnectOptions | ext/swift.cc:159-178 | a nil `:db` is refused first, then a nil `:driver`; success exactly when both are given; nil host, port and password become empty; nil user becomes the login name; a given option is passed as its C string |
| Adapter.NilOptionIsAbsent | ext/swift.cc:159-165 | an option set to nil is treated exactly like one never given |
| Adapter.New | ext/swift.cc:158-187 | option errors come back unchanged; a failed connection raises under "Adapter#new"; success keeps the options and the `:timezone` option |
| Adapter.ExecuteQuery | ext/swift.cc:240-253 | refused with ArgumentError when there is no argument or the SQL is nil; otherwise raises exactly when a bound value raises, with the first such exception; the SQL goes as its C string; no bind list exactly when there is one argument, else one parameter per further argument, each its encoding after the earlier ones were read |
| Adapter.Execute | ext/swift.cc:235-266 | the argument or transcoding error as it is, or the driver's row count, or its failure raised under "Adapter#execute" |
| Adapter.ExecuteBindsTheRest | ext/swift.cc:247-256 | no values send no bind list; otherwise the values after the SQL are sent as exactly what the encoder makes of them, and its exception is what `execute` raises |
| Adapter.WriteLoad | ext/swift.cc:330-353 | the stream check comes first, then the fields check; success exactly when both pass; the table is read as a C string; each field keeps all its bytes; a String stream is loaded from its bytes and anything else is read through IOStream |
| Adapter.FieldNames | ext/swift.cc:339-342 | one field name per Array entry, in order, each with all its bytes |
| Adapter.Write | ext/swift.cc:326-357 | the argument error, or IOStream's ArgumentError as it is when the stream answers a `read` with something other than nil or a String, or the loader's row count, or its failure raised under "Adapter#write"; the loader receives the bytes of each answer |
| Adapter.WriteRefusesNonString | ext/swift.cc:62-73 | a stream answering one `read` with neither nil nor a String makes `write` raise the "stringify" ArgumentError |
| Adapter.WriteHandsOverAnswers | ext/swift.cc:62-73 | when every answer is nil or a String, the loader receives exactly their bytes, nil as empty, in order |
| Adapter.Escape | ext/swift.cc:388-398 | only Strings are escaped, all their bytes; the escaped bytes come back as a binary String; a driver failure is raised under "Adapter#escape" |
| Adapter.EscapeKeepsBytesPastNul | ext/swift.cc:388-398 | escaping reads the String with its length, so bytes after a NUL reach the driver, unlike the C-string reads elsewhere |
| Adapter.Trace | ext/swift.cc:618-634 | refused exactly when the flag is neither true nor false, with the flag's text in the message; tracing is on exactly for true; the descriptor is 2 unless an IO is given |
| Adapter.TraceFlagCheckedFirst | ext/swift.cc:624-634 | the flag is checked before the IO: a refused flag raises the same error whatever IO is given, and an accepted one enables tracing the same way for every IO |
| Pool.New | ext/swift.cc:663-690 | option errors first, then a size below 1, then the pool constructor's failure raised under "ConnectionPool#new", a connection failure as ConnectionError and any other as RuntimeError; success exactly when all pass, keeping the `:timezone` option |
| Pool.PoolAgreesWithAdapter | ext/swift.cc:663-678 | the pool and a single adapter accept the same options and hand the driver the same connection arguments |
| Pool.Submission | ext/swift.cc:710-737 | without a block ArgumentError; otherwise a request exactly when the values encode, carrying the SQL's C string, the encoded values and the block with the pool's `@timezone`; else the encoder's exception |
| Pool.Execute | ext/swift.cc:702-741 | the submission's error as it is; otherwise what the driver's pool answers: a request, nil for none, or its failure raised under "ConnectionPool#execute" |
| Pool.PoolBindsLikeAdapter | ext/swift.cc:720-734 | the pool sends the same bind parameters as `Adapter#execute` for the same values, and raises the same exception when they do not encode |
| Pool.Dispatch | ext/swift.cc:692-699 | the callback is called exactly when it is not nil, with a result set over the finished request that carries the `@timezone` the callback holds |
| Pool.ResultsReachBlockWithPoolZone | ext/swift.cc:692-737 | every submitted request's result set reaches the caller's block carrying the pool's `@timezone` |
| Crud.Flatten | lib/swift/adapter.rb:54 | a single element flattens to itself |
| Crud.FlattenAllAppend | lib/swift/adapter.rb:54 | flattening an Array is flattening its parts one after the other |
| Crud.FlattenFlat | lib/swift/adapter.rb:54 | an Array of plain elements flattens to those elements |
| Crud.Coerce | lib/swift/adapter.rb:55 | a scheme instance is used as it is, anything else is built with `scheme.new` |
| Crud.ValuesAt | lib/swift/adapter.rb:56 | one value per name in order, nil where the tuple lacks the field |
| Crud.Numbered | lib/swift/adapter.rb:54 | each flattened element is paired with its position, in order |
| Crud.FirstFailure | lib/swift/adapter.rb:54-59 | every element before the returned index is handled without raising, and the element at it raises |
| Crud.FirstFailureAll | lib/swift/adapter.rb:54-59 | when no element raises, the first failure is past the end |
| Crud.MapSteps | lib/swift/adapter.rb:54-59 | the batch succeeds exactly when no element raises, with one value per element in order; otherwise it raises the first element's error; exactly the elements up to and including the failing one execute |
| Crud.SentFromSomeStep | lib/swift/adapter.rb:54-59 | every parameter list a batch executes was sent for one of its elements |
| Crud.Shape | lib/swift/adapter.rb:60 | an Array argument gets the whole Array of values; any other gets the first value, or nil when there is none |
| Crud.BatchShape | lib/swift/adapter.rb:54-60 | a batch that raises nothing answers one value per flattened element, in order, shaped by its argument |
| Crud.CreateStep | lib/swift/adapter.rb:55-58 | each element executes its insertable values as the statement stands at its position in the batch; a failure is raised; the resource keeps its frozen state |
| Crud.CreateTouchesOnlySerial | lib/swift/adapter.rb:57 | `create` changes no field besides the serial one, and that one only when the header has a serial; it then holds the insert id of this element's own insert |
| Crud.Create | lib/swift/adapter.rb:52-61 | one execute per flattened element, in order, up to and including the first failure, and the shaped resources |
| Crud.RepeatedElementGetsOwnId | lib/swift/adapter.rb:54-58 | creating the same attribute Hash twice runs two inserts, and each of the two coerced resources gets the insert id of its own insert |
| Crud.SentEveryStep | lib/swift/adapter.rb:54-59 | when every element executes, one parameter list is sent per element, in order |
| Crud.UpdateStep | lib/swift/adapter.rb:95-103 | an incomplete key raises ArgumentError without executing; otherwise the updatable values then the keys are executed and the resource is returned |
| Crud.Update | lib/swift/adapter.rb:92-106 | every executed bind list is the updatable values followed by key values, none of them nil |
| Crud.DeleteStep | lib/swift/adapter.rb:136-146 | an incomplete key raises ArgumentError without executing; otherwise the key values are executed and the resource is frozen exactly when the result is truthy |
| Crud.Delete | lib/swift/adapter.rb:133-149 | every executed bind list is exactly the key values, none of them nil |
| Crud.StopsAt | lib/swift/adapter.rb:54-59 | a batch whose element raises before executing sends exactly the earlier elements' lists and raises that error |
| Crud.UpdateStopsAtIncompleteKey | lib/swift/adapter.rb:94-102 | an update stops at the first resource with an incomplete key: earlier resources are executed and its ArgumentError is raised |
| Crud.FirstFailureAt | lib/swift/adapter.rb:54-59 | the first failure is the first raising element |
| Crud.Get | lib/swift/adapter.rb:23-26 | the prepared get is executed with the key values of the resource built from `keys`; its exception, or `each`'s driver failure, is raised; otherwise the answer is nil for no row and the loaded first row otherwise |
| Crud.GetIsFirstOfEach | lib/swift/adapter.rb:25 | `get` answers exactly the first value `each` yields on the executed statement, or nil when it yields none |

## Left out

- rb_zone_to_offset for a non-nil zone: it sets the process `TZ`, calls `tzset` and reads `timezone`. The offset is a parameter of the model, and only "nil zone gives 0" is kept.
- compute_local_tzoffset: the process's local offset is a parameter.
- `mktime` is an abstract function parameter. The `Calendar` module adds an optional assumption: a fixed offset and no daylight saving.
- Typecast.DecodeTime: the fractional seconds are kept as the text `%lf` scanned, not converted to microseconds. Floating point is outside the model.
- Typecast.Typecast: NUMERIC and FLOAT columns are kept as the C string that BigDecimal or `atof` would read. Their numeric values are floating point or foreign numerics.
- Scan.Run: `%lf` is modelled as sign, digits, '.' and digits. Exponents, hexadecimal floats and inf/nan are not modelled, because no timestamp the decoder reads contains them.
- The diagnostic `fprintf` for an unparsed timestamp, tracing with `dbi::logMessage`, and `rb_thread_blocking_region` are left out. They are I/O and concurrency with no effect on results.
- Adapter.Trace: the conversion of `io` with `to_io` is a parameter, and its TypeError is not modelled. `rb_swift_trace` and `rb_adapter_begin`/`commit`/`rollback` have no return statement in the source, so their return values are undefined and not modelled.
- Adapter.New: `getlogin()` is a parameter, and its NULL result is not modelled.
- Pool.New: the size arrives already converted to a C int. The TypeError and RangeError of `NUM2INT` are not modelled.
- Adapter.Execute: with a block, the result set is handed to `Statement#each`. That part is modelled by `Statements.Each`, not composed here.
- Adapter.WriteLoad: requires the field Array to hold Strings. For other values the source's `RSTRING_PTR` is undefined behaviour.
- Adapter.WriteLoad: the source never checks that the table is a String; `RSTRING_PTR` of another value is undefined behaviour, so the model takes the table as a String and reads it as a C string.
- IoStream.ReadChunk: the source does not check that the answer to `read(len)` is a String. The model takes it as one. The `INT2NUM` conversion of `len` is modelled by `IoStream.LengthArgument` and `IoStream.Pull`; the negative-length message is that of Ruby's `IO#read` and `StringIO#read`, and other stream classes are not modelled.
- The connection pool's request state machine, `Request#socket` and `Request#process` are not modelled. They live in the external driver, so only the wrapper checks are modelled.
- UUID generation, `to_s`, transcoding to UTF-8, `scheme.new`, `inspect` and the driver's `escape`, `write`, `execute`, `begin`/`commit`/`rollback` and `transactions().size()` are function parameters.
- Crud.Create: returns the updated resources instead of mutating the caller's objects in place. Object identity is not modelled: the same scheme instance passed twice is one object in Ruby, so both entries of the answer are that object holding the last insert id, and the second insert reads the tuple after the first id was stored; the model treats the two entries as independent values.
- Crud.Delete: returns each result paired with the resource after the optional `freeze`; Ruby returns the results and freezes the caller's object.
- Ruby VM glue is left out: allocation and free functions, `rb_gc`, `Init_swift`, `dup`/`clone` refusal, `Swift#init`, `Adapter#close`, `#prepare`, `#results` and `Statement#rewind`.
- Statements.Each: requires the driver's buffer to report one field name and type per column and one cell per column in every row. The driver guarantees this.
- BindParams.Encode: a stream's `read` is modelled as answering its remaining contents once and then the empty string. Exceptions raised by `read` itself (an IOError for a closed IO) and by `to_s` are not modelled; the exception of `String#encode` is.
- BindParams.Extract: inherits the limits of `BindParams.Encode` above; a stream read by an earlier call of the program, rather than by an earlier argument of the same call, is not tracked.
- Typecast.Typecast: the decoder's `switch` on the column type has no default case, so a type tag outside the driver's known set falls off the end of the function without a return, which is undefined behaviour. The model's `TypeTag` has only the known tags, so that path is not modelled.
- Statements.Each: the driver failure is modelled only where the source can raise before the first row is yielded (fetching field names and types); a failure while reading a later row is not modelled.
