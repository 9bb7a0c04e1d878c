/** Buffered result access: `Statement#each`, `#read` and `#insert_id`
    (ext/swift.cc:538-610, 467-475). The driver's buffered result is an
    immutable matrix of optional cells with a field name and a type tag per
    column and a read cursor. */
module Statements {
  import opened Wrappers
  import opened CTypes
  import opened Errors
  import opened Host
  import opened Typecast

  /** One buffered cell: absent (SQL NULL) or the bytes the driver returned. */
  type Cell = Option<Bytes>

  /** The driver's buffered result: `fields()`, `types()`, `columns()` and the
      rows of cells behind `read(r, c)` (so `rows()` is their number). */
  datatype Buffer = Buffer(
    fields: seq<Bytes>,
    types: seq<TypeTag>,
    columns: nat,
    cells: seq<seq<Cell>>)
  {
    /** The driver reports one name and one type per column, and every row has
        one cell per column. */
    predicate Valid() {
      && |fields| == columns
      && |types| == columns
      && forall r :: 0 <= r < |cells| ==> |cells[r]| == columns
    }

    function Rows(): nat {
      |cells|
    }
  }

  /** A statement after execution: its buffered result, the read cursor
      (`tell()`) and the driver's `lastInsertID()`. */
  datatype Statement = Statement(result: Buffer, cursor: nat, lastInsertId: int64)
  {
    predicate Valid() {
      result.Valid()
    }
  }

  /** A row as `each` builds it: a Hash from field name to decoded value. */
  type Row = map<Bytes, Value>

  /** What `each` yields for one row: the Hash itself, or what the scheme's
      `load` made of it. */
  datatype Yielded =
    | RowOf(row: Row)
    | Loaded(obj: HostValue)

  /** The Hash key of column `c`: the symbol interned from the field's C
      string. */
  function Key(buf: Buffer, c: nat): Bytes
    requires buf.Valid() && c < buf.columns
  {
    CStr(buf.fields[c])
  }

  /** The value stored for cell (r, c): nil for an absent cell, otherwise the
      decoded bytes. */
  function CellValue(buf: Buffer, r: nat, c: nat, adapterTzOffset: int64, env: TimeEnv): (v: Value)
    requires buf.Valid() && r < buf.Rows() && c < buf.columns
    ensures buf.cells[r][c].None? <==> v.Nil?
  {
    match buf.cells[r][c]
    case None => Value.Nil
    case Some(data) => Typecast.Typecast(buf.types[c], data, adapterTzOffset, env)
  }

  /** The last of the first `n` columns whose key is `name`, if any. */
  function LastColumn(buf: Buffer, name: Bytes, n: nat): (c: Option<nat>)
    requires buf.Valid() && n <= buf.columns
    ensures c.Some? ==> c.value < n && Key(buf, c.value) == name
    ensures c.Some? ==> forall c' :: c.value < c' < n ==> Key(buf, c') != name
    ensures c.None? ==> forall c' :: 0 <= c' < n ==> Key(buf, c') != name
  {
    if n == 0 then None
    else if Key(buf, n - 1) == name then Some(n - 1)
    else LastColumn(buf, name, n - 1)
  }

  /** Row `r` after the inner loop has stored its first `n` columns: each
      column is stored under its key in turn, so a later column with the same
      name replaces an earlier one. */
  function BuildRow(buf: Buffer, r: nat, n: nat, adapterTzOffset: int64, env: TimeEnv): (row: Row)
    requires buf.Valid() && r < buf.Rows() && n <= buf.columns
    ensures forall name :: name in row <==> LastColumn(buf, name, n).Some?
    ensures forall name :: name in row ==> row[name] == CellValue(buf, r, LastColumn(buf, name, n).value, adapterTzOffset, env)
  {
    if n == 0 then map[]
    else BuildRow(buf, r, n - 1, adapterTzOffset, env)[Key(buf, n - 1) := CellValue(buf, r, n - 1, adapterTzOffset, env)]
  }

  /** The complete Hash of row `r`. */
  function RowAt(buf: Buffer, r: nat, adapterTzOffset: int64, env: TimeEnv): Row
    requires buf.Valid() && r < buf.Rows()
  {
    BuildRow(buf, r, buf.columns, adapterTzOffset, env)
  }

  /** Every column's name is a key of the row, and the key holds the value of
      the last column that has that name. */
  lemma RowHasEveryColumn(buf: Buffer, r: nat, c: nat, adapterTzOffset: int64, env: TimeEnv)
    requires buf.Valid() && r < buf.Rows() && c < buf.columns
    ensures Key(buf, c) in RowAt(buf, r, adapterTzOffset, env)
    ensures (forall c' :: c < c' < buf.columns ==> Key(buf, c') != Key(buf, c)) ==>
      RowAt(buf, r, adapterTzOffset, env)[Key(buf, c)] == CellValue(buf, r, c, adapterTzOffset, env)
  {
  }

  /** A row has no key but the columns' names. */
  lemma RowHasOnlyColumns(buf: Buffer, r: nat, name: Bytes, adapterTzOffset: int64, env: TimeEnv)
    requires buf.Valid() && r < buf.Rows()
    requires name in RowAt(buf, r, adapterTzOffset, env)
    ensures exists c :: 0 <= c < buf.columns && Key(buf, c) == name
  {
    var c := LastColumn(buf, name, buf.columns).value;
    assert Key(buf, c) == name;
  }

  /** What `each` yields for row `r`: the Hash, or `scheme.load(hash)`. */
  function YieldAt(buf: Buffer, r: nat, scheme: Option<Row -> HostValue>, adapterTzOffset: int64, env: TimeEnv): Yielded
    requires buf.Valid() && r < buf.Rows()
  {
    var row := RowAt(buf, r, adapterTzOffset, env);
    match scheme
    case None => RowOf(row)
    case Some(load) => Loaded(load(row))
  }

  /** `rb_statement_each`. The adapter's zone is resolved once; a driver
      failure while the field names and types are fetched raises through the
      handler named "Statment#each" (so spelled in the source). Otherwise the
      cursor is moved to the first row and every row is yielded in order. The
      model returns the yielded values and the statement afterwards. */
  function Each(st: Statement, scheme: Option<Row -> HostValue>, zone: HostValue, env: TimeEnv, fault: Option<DriverError>)
    : (r: (Result<seq<Yielded>, Error>, Statement))
    requires st.Valid()
    ensures fault.Some? ==> r.0 == Failure(Raise("Statment#each", fault.value))
    ensures fault.None? ==> r.0.Success? && |r.0.value| == st.result.Rows()
    ensures fault.None? ==> forall i :: 0 <= i < st.result.Rows() ==>
      r.0.value[i] == YieldAt(st.result, i, scheme, ZoneToOffset(zone, env), env)
    ensures r.1.result == st.result && r.1.lastInsertId == st.lastInsertId
    ensures fault.None? ==> r.1.cursor == 0
  {
    var adapterTzOffset := ZoneToOffset(zone, env);
    match fault
    case Some(e) => (Failure(Raise("Statment#each", e)), st)
    case None =>
      var buf := st.result;
      (Success(seq(buf.Rows(), i requires 0 <= i < buf.Rows() => YieldAt(buf, i, scheme, adapterTzOffset, env))),
       st.(cursor := 0))
  }

  /** `each` reads the buffer by index, so it yields the same rows whatever
      the cursor was: a second call yields exactly what the first did. */
  lemma EachIsRepeatable(st: Statement, scheme: Option<Row -> HostValue>, zone: HostValue, env: TimeEnv)
    requires st.Valid()
    ensures var once := Each(st, scheme, zone, env, None);
      Each(once.1, scheme, zone, env, None).0 == once.0
  {
  }

  /** The loops of `rb_statement_each` without a scheme: for each row, a
      fresh Hash filled column by column. */
  method EachRows(buf: Buffer, adapterTzOffset: int64, env: TimeEnv) returns (rows: seq<Row>)
    requires buf.Valid()
    ensures |rows| == buf.Rows()
    ensures forall r :: 0 <= r < |rows| ==> rows[r] == RowAt(buf, r, adapterTzOffset, env)
  {
    rows := [];
    var r := 0;
    while r < buf.Rows()
      invariant r <= buf.Rows()
      invariant rows == RowsBefore(buf, r, adapterTzOffset, env)
    {
      var row := FillRow(buf, r, adapterTzOffset, env);
      rows := rows + [row];
      r := r + 1;
    }
  }

  /** The Hashes of the first `n` rows, in row order. */
  function RowsBefore(buf: Buffer, n: nat, adapterTzOffset: int64, env: TimeEnv): (rows: seq<Row>)
    requires buf.Valid() && n <= buf.Rows()
    ensures |rows| == n
    ensures forall i :: 0 <= i < n ==> rows[i] == RowAt(buf, i, adapterTzOffset, env)
  {
    if n == 0 then [] else RowsBefore(buf, n - 1, adapterTzOffset, env) + [RowAt(buf, n - 1, adapterTzOffset, env)]
  }

  /** The inner loop of `rb_statement_each`: a fresh Hash, each column's
      decoded cell (or nil) stored under its key in column order. */
  method FillRow(buf: Buffer, r: nat, adapterTzOffset: int64, env: TimeEnv) returns (row: Row)
    requires buf.Valid() && r < buf.Rows()
    ensures row == RowAt(buf, r, adapterTzOffset, env)
  {
    row := map[];
    var c := 0;
    while c < buf.columns
      invariant c <= buf.columns
      invariant row == BuildRow(buf, r, c, adapterTzOffset, env)
    {
      var value := match buf.cells[r][c]
        case None => Value.Nil
        case Some(data) => Typecast.Typecast(buf.types[c], data, adapterTzOffset, env);
      row := row[CStr(buf.fields[c]) := value];
      c := c + 1;
    }
  }

  /** `rb_statement_read`: the raw cells of the row under the cursor, each as
      a String of its full length or nil; nil past the last row. The cursor
      does not move. */
  function Read(st: Statement, fault: Option<DriverError>): (r: Result<Option<seq<Cell>>, Error>)
    requires st.Valid()
    ensures fault.Some? ==> r == Failure(Raise("Statement#read", fault.value))
    ensures fault.None? ==> r.Success? && (r.value.None? <==> st.cursor >= st.result.Rows())
    ensures fault.None? && r.value.Some? ==> |r.value.value| == st.result.columns
    ensures fault.None? && r.value.Some? ==>
      forall c :: 0 <= c < st.result.columns ==> r.value.value[c] == st.result.cells[st.cursor][c]
  {
    match fault
    case Some(e) => Failure(Raise("Statement#read", e))
    case None =>
      if st.cursor < st.result.Rows() then Success(Some(st.result.cells[st.cursor])) else Success(None)
  }

  /** After `each`, `read` returns the raw cells of the first row, the row
      whose decoded values `each` yielded first. */
  lemma ReadAfterEach(st: Statement, zone: HostValue, env: TimeEnv)
    requires st.Valid() && st.result.Rows() > 0
    ensures var once := Each(st, None, zone, env, None);
      && Read(once.1, None) == Success(Some(st.result.cells[0]))
      && once.0.value[0] == RowOf(RowAt(st.result, 0, ZoneToOffset(zone, env), env))
  {
  }

  /** `rb_statement_insert_id`: the driver's last insert id when the statement
      affected or returned rows, nil otherwise. */
  function InsertId(st: Statement, fault: Option<DriverError>): (r: Result<Option<int64>, Error>)
    ensures fault.Some? ==> r == Failure(Raise("Statement#insert_id", fault.value))
    ensures fault.None? ==> r.Success? && (r.value.None? <==> st.result.Rows() == 0)
    ensures fault.None? && st.result.Rows() > 0 ==> r.value == Some(st.lastInsertId)
  {
    match fault
    case Some(e) => Failure(Raise("Statement#insert_id", e))
    case None => if st.result.Rows() > 0 then Success(Some(st.lastInsertId)) else Success(None)
  }

  /** `insert_id` and `each` read the same result: the id is nil exactly when
      `each` yields nothing, and iterating leaves the id unchanged. */
  lemma InsertIdAgreesWithEach(st: Statement, scheme: Option<Row -> HostValue>, zone: HostValue, env: TimeEnv)
    requires st.Valid()
    ensures var once := Each(st, scheme, zone, env, None);
      && (InsertId(st, None).value.None? <==> |once.0.value| == 0)
      && InsertId(once.1, None) == InsertId(st, None)
  {
  }
}
