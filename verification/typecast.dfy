/** The column type decoder `rb_field_typecast` (ext/swift.cc:477-536): raw
    column bytes and the driver's type tag become a Ruby value. */
module Typecast {
  import opened Wrappers
  import opened CTypes
  import opened Decimal
  import opened Host
  import opened Scan

  /** The driver's column type tags the decoder distinguishes. */
  datatype TypeTag =
    | BooleanType
    | IntegerType
    | BlobType
    | TextType
    | TimeType
    | NumericType
    | FloatType

  /** A decoded column value. */
  datatype Value =
    | Nil
    | Bool(b: bool)
    | Integer(i: int)
      /** A StringIO over a copy of the bytes. */
    | Blob(bytes: Bytes)
      /** A String tagged UTF-8. */
    | Text(bytes: Bytes)
      /** A String with no encoding, the timestamp decoder's fallback. */
    | Raw(bytes: Bytes)
      /** A Time: whole seconds since the epoch, and the `%lf` text that gave
          the sub-second part. */
    | Time(seconds: int64, fraction: Bytes)
      /** A BigDecimal built from the text. */
    | BigDecimal(text: Bytes)
      /** A Float from `atof` over the text. */
    | Float(text: Bytes)

  /** `struct tm` as the decoder fills it: year counted from 1900, month from 0. */
  datatype Tm = Tm(year: int, mon: int, mday: int, hour: int, min: int, sec: int)

  /** What the decoder takes from its process: the local zone's offset east of
      UTC in seconds (`compute_local_tzoffset`), the offset of a named zone
      (`rb_zone_to_offset` for a non-nil zone), and libc's `mktime`. */
  datatype TimeEnv = TimeEnv(
    localTzOffset: int32,
    namedZoneOffset: HostValue -> int64,
    mktime: Tm -> int64)

  /** `rb_zone_to_offset`: no zone means offset 0. */
  function ZoneToOffset(zone: HostValue, env: TimeEnv): (offset: int64)
    ensures zone.Nil? ==> offset == 0
  {
    if zone.Nil? then 0 else env.namedZoneOffset(zone)
  }

  const T_BYTE: byte := 116
  const ONE_BYTE: byte := 49
  const SPACE: byte := 32
  const COLON: byte := 58

  /** The two texts that decode to true. */
  predicate IsTrueText(text: Bytes) {
    text == [T_BYTE] || text == [ONE_BYTE]
  }

  // ---------------------------------------------------------------------
  // Timestamps: "%04d-%02d-%02d %02d:%02d:%02d[%lf]%c%02d:%02d"
  // ---------------------------------------------------------------------

  /** `%Nd<sep>%02d<sep>%02d`, the shape of both the date and the time. */
  function Triple(width: nat, sep: byte): seq<Directive> {
    [IntField(width)] + (SepDigits(sep) + SepDigits(sep))
  }

  /** `<sep>%02d` */
  function SepDigits(sep: byte): seq<Directive> {
    [Literal(sep), IntField(2)]
  }

  /** "%04d-%02d-%02d" */
  const DATE: seq<Directive> := Triple(4, MINUS)

  /** "%02d:%02d:%02d" */
  const CLOCK: seq<Directive> := Triple(2, COLON)

  /** The date, a blank, the clock. */
  const DATE_TIME: seq<Directive> := DATE + [Blank] + CLOCK

  /** "%c%02d:%02d" */
  const ZONE: seq<Directive> := [CharField, IntField(2), Literal(COLON), IntField(2)]

  /** Format used when the text holds no '.'. */
  const PLAIN_FORMAT: seq<Directive> := DATE_TIME + ZONE

  /** Format used when the text holds a '.': `%lf` between clock and zone. */
  const FRACTION_FORMAT: seq<Directive> := DATE_TIME + ([RealField] + ZONE)

  /** The destinations of the scan. Each starts at zero (`memset`, `tzsign = 0`,
      `tzhour = tzmin = 0`, `usec = 0`) and keeps that value unless the scan
      reaches its conversion. */
  datatype Fields = Fields(
    year: int, mon: int, mday: int, hour: int, min: int, sec: int,
    fraction: Bytes, tzsign: byte, tzhour: int, tzmin: int)

  function IntAt(items: seq<Item>, k: nat): int {
    if k < |items| && items[k].IntItem? then items[k].n else 0
  }

  function CharAt(items: seq<Item>, k: nat): byte {
    if k < |items| && items[k].CharItem? then items[k].c else NUL
  }

  function RealAt(items: seq<Item>, k: nat): Bytes {
    if k < |items| && items[k].RealItem? then items[k].text else []
  }

  /** Items delivered by the scan, assigned to the destinations in order. */
  function FieldsOf(items: seq<Item>, fractional: bool): Fields {
    var z := if fractional then 7 else 6;
    Fields(IntAt(items, 0), IntAt(items, 1), IntAt(items, 2), IntAt(items, 3), IntAt(items, 4), IntAt(items, 5),
           if fractional then RealAt(items, 6) else [],
           CharAt(items, z), IntAt(items, z + 1), IntAt(items, z + 2))
  }

  /** `strchr` picks the format, `sscanf` fills the fields; both read the
      C string of the data. */
  function ParseTimestamp(data: Bytes): Fields {
    var text := CStr(data);
    if DOT in text then FieldsOf(Run(text, 0, FRACTION_FORMAT).items, true)
    else FieldsOf(Run(text, 0, PLAIN_FORMAT).items, false)
  }

  /** The `struct tm` handed to mktime: year and month rebased. */
  function TmOf(f: Fields): Tm {
    Tm(f.year - 1900, f.mon - 1, f.mday, f.hour, f.min, f.sec)
  }

  /** Seconds added to mktime's result: the local offset, corrected by the
      explicit zone suffix when the scan read a sign byte, otherwise by the
      adapter's zone offset. */
  function ZoneCorrection(f: Fields, localTzOffset: int32, adapterTzOffset: int64): int64 {
    if f.tzsign == PLUS then Wrap64(localTzOffset + (f.tzhour * -3600 + f.tzmin * -60))
    else if f.tzsign == MINUS then Wrap64(localTzOffset + (f.tzhour * 3600 + f.tzmin * 60))
    else Wrap64(localTzOffset - adapterTzOffset)
  }

  /** The timestamp branch. A day field that is not positive (including one the
      scan never reached) gives back the original bytes, whole, instead of
      raising. */
  function DecodeTime(data: Bytes, adapterTzOffset: int64, env: TimeEnv): (v: Value)
    ensures ParseTimestamp(data).mday <= 0 ==> v == Raw(data)
    ensures ParseTimestamp(data).mday > 0 ==> v.Time? && v.fraction == ParseTimestamp(data).fraction
  {
    var f := ParseTimestamp(data);
    if f.mday > 0 then
      Time(Wrap64(env.mktime(TmOf(f)) + ZoneCorrection(f, env.localTzOffset, adapterTzOffset)), f.fraction)
    else
      Raw(data)
  }

  /** `rb_field_typecast`. Text and blob keep every byte of the column; the
      other tags read the data as a C string. */
  function Typecast(tag: TypeTag, data: Bytes, adapterTzOffset: int64, env: TimeEnv): (v: Value)
    ensures tag == BooleanType <==> v.Bool?
    ensures tag == IntegerType <==> v.Integer?
    ensures tag == TextType <==> v.Text?
    ensures tag == BlobType <==> v.Blob?
    ensures tag == TimeType <==> v.Time? || v.Raw?
    ensures (v.Text? || v.Blob? || v.Raw?) ==> v.bytes == data
  {
    match tag
    case BooleanType => Bool(IsTrueText(CStr(data)))
    case IntegerType => Integer(ParseInteger(CStr(data)))
    case BlobType => Blob(data)
    case TextType => Text(data)
    case TimeType => DecodeTime(data, adapterTzOffset, env)
    case NumericType => BigDecimal(CStr(data))
    case FloatType => Float(CStr(data))
  }

  // ---------------------------------------------------------------------
  // Properties
  // ---------------------------------------------------------------------

  /** A boolean column is true exactly when its text is "t" or "1" (as a C
      string: a NUL may follow), and false for every other text. */
  lemma BooleanTrueExactly(data: Bytes, adapterTzOffset: int64, env: TimeEnv)
    ensures Typecast(BooleanType, data, adapterTzOffset, env).b <==>
      (|data| >= 1 && (data[0] == T_BYTE || data[0] == ONE_BYTE) && (|data| == 1 || data[1] == NUL))
  {
    var text := CStr(data);
    if |data| >= 1 && data[0] != NUL {
      assert text[0] == data[0];
      if |data| >= 2 && data[1] != NUL {
        assert text[1] == data[1];
      }
    }
  }

  /** The text PostgreSQL and MySQL write for booleans decodes to the boolean. */
  lemma BooleanRoundTrip(b: bool, adapterTzOffset: int64, env: TimeEnv)
    ensures Typecast(BooleanType, if b then Ascii("t") else Ascii("f"), adapterTzOffset, env) == Bool(b)
    ensures Typecast(BooleanType, if b then Ascii("1") else Ascii("0"), adapterTzOffset, env) == Bool(b)
  {
    BooleanTrueExactly(if b then Ascii("t") else Ascii("f"), adapterTzOffset, env);
    BooleanTrueExactly(if b then Ascii("1") else Ascii("0"), adapterTzOffset, env);
  }

  /** The tags decoded from the C string ignore everything from the first NUL
      on, while text and blob keep all `len` bytes. */
  lemma NulTerminatedTags(tag: TypeTag, data: Bytes, adapterTzOffset: int64, env: TimeEnv)
    requires tag in {BooleanType, IntegerType, NumericType, FloatType}
    ensures Typecast(tag, data, adapterTzOffset, env) == Typecast(tag, CStr(data), adapterTzOffset, env)
  {
    CStrIdempotent(data);
  }

  /** The text of any integer, read from an integer column, is that integer. */
  lemma IntegerColumnRoundTrip(n: int, adapterTzOffset: int64, env: TimeEnv)
    ensures Typecast(IntegerType, FormatInteger(n), adapterTzOffset, env) == Integer(n)
  {
    CStrOfTerminated(FormatInteger(n));
    IntegerRoundTrip(n);
  }

  /** Digits of `width` bytes, `sep`, two digits, `sep`, two digits, at `i`. */
  predicate TripleAt(x: Bytes, i: nat, width: nat, sep: byte) {
    && 0 < width && i + width + 6 <= |x|
    && AllDigits(x[i..i + width]) && x[i + width] == sep
    && AllDigits(x[i + width + 1..i + width + 3]) && x[i + width + 3] == sep
    && AllDigits(x[i + width + 4..i + width + 6])
  }

  /** "YYYY-MM-DD HH:MM:SS" in digits at the start of `x`. */
  predicate DateTimeAt(x: Bytes) {
    |x| >= 19 && TripleAt(x, 0, 4, MINUS) && x[10] == SPACE && TripleAt(x, 11, 2, COLON)
  }

  /** Exactly a date and time. */
  predicate IsDateTime(s: Bytes) {
    |s| == 19 && DateTimeAt(s)
  }

  /** The six numbers of a date and time, in the order the format reads them. */
  function DateTimeItems(x: Bytes): seq<Item>
    requires DateTimeAt(x)
  {
    [IntItem(DigitsValue(x[0..4])), IntItem(DigitsValue(x[5..7])), IntItem(DigitsValue(x[8..10])),
     IntItem(DigitsValue(x[11..13])), IntItem(DigitsValue(x[14..16])), IntItem(DigitsValue(x[17..19]))]
  }

  /** The `struct tm` of a well-formed date and time. */
  function DateTimeTm(x: Bytes): Tm
    requires DateTimeAt(x)
  {
    Tm(DigitsValue(x[0..4]) - 1900, DigitsValue(x[5..7]) - 1, DigitsValue(x[8..10]), DigitsValue(x[11..13]), DigitsValue(x[14..16]), DigitsValue(x[17..19]))
  }

  lemma DateTimeHasNoNulOrDot(s: Bytes)
    requires IsDateTime(s)
    ensures NUL !in s && DOT !in s
  {
    forall k | 0 <= k < 19
      ensures s[k] != NUL && s[k] != DOT
    {
      if k < 4 { assert s[0..4][k] == s[k]; }
      else if 4 < k < 7 { assert s[5..7][k - 5] == s[k]; }
      else if 7 < k < 10 { assert s[8..10][k - 8] == s[k]; }
      else if 10 < k < 13 { assert s[11..13][k - 11] == s[k]; }
      else if 13 < k < 16 { assert s[14..16][k - 14] == s[k]; }
      else if 16 < k { assert s[17..19][k - 17] == s[k]; }
    }
  }

  /** A triple of digit groups is read as their three values. */
  lemma ScanTriple(x: Bytes, i: nat, width: nat, sep: byte)
    requires TripleAt(x, i, width, sep)
    ensures Run(x, i, Triple(width, sep)) == Scanned(
      [IntItem(DigitsValue(x[i..i + width])),
       IntItem(DigitsValue(x[i + width + 1..i + width + 3])),
       IntItem(DigitsValue(x[i + width + 4..i + width + 6]))],
      i + width + 6, true)
  {
    var p := i + width;
    var a := IntItem(DigitsValue(x[i..p]));
    var b := IntItem(DigitsValue(x[p + 1..p + 3]));
    var c := IntItem(DigitsValue(x[p + 4..p + 6]));
    ScanTwoSepDigits(x, p, sep);
    ScanOneInt(x, i, width);
    ScanThen(x, i, [IntField(width)], SepDigits(sep) + SepDigits(sep), [a], p, Scanned([b, c], p + 6, true));
    assert [a] + [b, c] == [a, b, c];
  }

  /** A lone `%Nd` over exactly N digits reads their value. */
  lemma ScanOneInt(x: Bytes, i: nat, width: nat)
    requires 0 < width && i + width <= |x| && AllDigits(x[i..i + width])
    ensures Run(x, i, [IntField(width)]) == Scanned([IntItem(DigitsValue(x[i..i + width]))], i + width, true)
  {
    ScanIntDigits(x, i, width);
    RunCons(x, i, [IntField(width)], Stepped(Some(IntItem(DigitsValue(x[i..i + width]))), i + width));
  }

  /** Two separated pairs of digits are read as their two values. */
  lemma ScanTwoSepDigits(x: Bytes, p: nat, sep: byte)
    requires p + 6 <= |x| && x[p] == sep && AllDigits(x[p + 1..p + 3]) && x[p + 3] == sep && AllDigits(x[p + 4..p + 6])
    ensures Run(x, p, SepDigits(sep) + SepDigits(sep)) ==
      Scanned([IntItem(DigitsValue(x[p + 1..p + 3])), IntItem(DigitsValue(x[p + 4..p + 6]))], p + 6, true)
  {
    var b := IntItem(DigitsValue(x[p + 1..p + 3]));
    var c := IntItem(DigitsValue(x[p + 4..p + 6]));
    ScanSepDigits(x, p, sep);
    ScanSepDigits(x, p + 3, sep);
    ScanThen(x, p, SepDigits(sep), SepDigits(sep), [b], p + 3, Scanned([c], p + 6, true));
  }

  /** A separator followed by two digits is read as their value. */
  lemma ScanSepDigits(x: Bytes, i: nat, sep: byte)
    requires i + 3 <= |x| && x[i] == sep && AllDigits(x[i + 1..i + 3])
    ensures Run(x, i, SepDigits(sep)) == Scanned([IntItem(DigitsValue(x[i + 1..i + 3]))], i + 3, true)
  {
    ScanIntDigits(x, i + 1, 2);
    RunCons(x, i + 1, [IntField(2)], Stepped(Some(IntItem(DigitsValue(x[i + 1..i + 3]))), i + 3));
    RunCons(x, i, SepDigits(sep), Stepped(None, i + 1));
  }

  /** A triple survives bytes appended after it. */
  lemma TripleAtAppend(s: Bytes, rest: Bytes, i: nat, width: nat, sep: byte)
    requires TripleAt(s, i, width, sep)
    ensures TripleAt(s + rest, i, width, sep)
    ensures (s + rest)[i..i + width] == s[i..i + width]
    ensures (s + rest)[i + width + 1..i + width + 3] == s[i + width + 1..i + width + 3]
    ensures (s + rest)[i + width + 4..i + width + 6] == s[i + width + 4..i + width + 6]
  {
    var x := s + rest;
    assert x[i..i + width] == s[i..i + width];
    assert x[i + width + 1..i + width + 3] == s[i + width + 1..i + width + 3];
    assert x[i + width + 4..i + width + 6] == s[i + width + 4..i + width + 6];
  }

  /** The date and the blank after it: the blank consumes whatever white
      space follows the day. */
  lemma ScanDatePart(x: Bytes, p: nat)
    requires TripleAt(x, 0, 4, MINUS) && SkipBlanks(x, 10) == p
    ensures Run(x, 0, DATE + [Blank]) == Scanned(
      [IntItem(DigitsValue(x[0..4])), IntItem(DigitsValue(x[5..7])), IntItem(DigitsValue(x[8..10]))], p, true)
  {
    var date := [IntItem(DigitsValue(x[0..4])), IntItem(DigitsValue(x[5..7])), IntItem(DigitsValue(x[8..10]))];
    RunCons(x, 10, [Blank], Stepped(None, p));
    ScanTriple(x, 0, 4, MINUS);
    ScanThen(x, 0, DATE, [Blank], date, 10, Scanned([], p, true));
    assert date + [] == date;
  }

  /** The date-and-time part of the format reads the six numbers and stops
      right after them. */
  lemma ScanDateTime(x: Bytes)
    requires DateTimeAt(x)
    ensures Run(x, 0, DATE_TIME) == Scanned(DateTimeItems(x), 19, true)
  {
    assert SkipBlanks(x, 11) == 11 by {
      assert x[11] == x[11..13][0];
    }
    var date := [IntItem(DigitsValue(x[0..4])), IntItem(DigitsValue(x[5..7])), IntItem(DigitsValue(x[8..10]))];
    var clock := [IntItem(DigitsValue(x[11..13])), IntItem(DigitsValue(x[14..16])), IntItem(DigitsValue(x[17..19]))];
    ScanDatePart(x, 11);
    ScanTriple(x, 11, 2, COLON);
    ScanThen(x, 0, DATE + [Blank], CLOCK, date, 11, Scanned(clock, 19, true));
    assert date + clock == DateTimeItems(x);
  }

  /** A date and time stays one, with the same numbers, when bytes follow it. */
  lemma DateTimeAppend(s: Bytes, rest: Bytes)
    requires DateTimeAt(s)
    ensures DateTimeAt(s + rest)
    ensures DateTimeItems(s + rest) == DateTimeItems(s)
    ensures DateTimeTm(s + rest) == DateTimeTm(s)
  {
    TripleAtAppend(s, rest, 0, 4, MINUS);
    TripleAtAppend(s, rest, 11, 2, COLON);
  }

  /** The first nineteen bytes of a date and time hold neither NUL nor '.'. */
  lemma DateTimeBytes(x: Bytes)
    requires DateTimeAt(x)
    ensures forall k :: 0 <= k < 19 ==> x[k] != NUL && x[k] != DOT
  {
    forall k | 0 <= k < 19
      ensures x[k] != NUL && x[k] != DOT
    {
      if k < 4 { assert x[0..4][k] == x[k]; }
      else if 4 < k < 7 { assert x[5..7][k - 5] == x[k]; }
      else if 7 < k < 10 { assert x[8..10][k - 8] == x[k]; }
      else if 10 < k < 13 { assert x[11..13][k - 11] == x[k]; }
      else if 13 < k < 16 { assert x[14..16][k - 14] == x[k]; }
      else if 16 < k { assert x[17..19][k - 17] == x[k]; }
    }
  }

  /** Two texts agreeing on their first nineteen bytes have the same date and
      time. */
  lemma DateTimeSamePrefix(x: Bytes, y: Bytes)
    requires DateTimeAt(x) && |y| >= 19 && x[..19] == y[..19]
    ensures DateTimeAt(y)
    ensures DateTimeItems(y) == DateTimeItems(x) && DateTimeTm(y) == DateTimeTm(x)
  {
    assert x[0..4] == x[..19][0..4] == y[..19][0..4] == y[0..4];
    assert x[5..7] == x[..19][5..7] == y[..19][5..7] == y[5..7];
    assert x[8..10] == x[..19][8..10] == y[..19][8..10] == y[8..10];
    assert x[11..13] == x[..19][11..13] == y[..19][11..13] == y[11..13];
    assert x[14..16] == x[..19][14..16] == y[..19][14..16] == y[14..16];
    assert x[17..19] == x[..19][17..19] == y[..19][17..19] == y[17..19];
    assert x[4] == x[..19][4] && y[4] == y[..19][4];
    assert x[7] == x[..19][7] && y[7] == y[..19][7];
    assert x[10] == x[..19][10] && y[10] == y[..19][10];
    assert x[13] == x[..19][13] && y[13] == y[..19][13];
    assert x[16] == x[..19][16] && y[16] == y[..19][16];
  }

  /** Any format that starts with the date and time delivers its six numbers
      first. */
  lemma ScanDateTimeThen(x: Bytes, tail: seq<Directive>)
    requires DateTimeAt(x)
    ensures |Run(x, 0, DATE_TIME + tail).items| >= 6
    ensures Run(x, 0, DATE_TIME + tail).items[..6] == DateTimeItems(x)
  {
    ScanDateTime(x);
    RunAppend(x, 0, DATE_TIME, tail);
  }

  /** The first six items land in the six `struct tm` fields. */
  lemma TmOfItems(x: Bytes, items: seq<Item>, fractional: bool)
    requires DateTimeAt(x) && |items| >= 6 && items[..6] == DateTimeItems(x)
    ensures TmOf(FieldsOf(items, fractional)) == DateTimeTm(x)
  {
    assert forall k :: 0 <= k < 6 ==> items[k] == items[..6][k];
  }

  /** Whatever follows a date and time, and whichever format the '.' test
      picks, the first six fields are the date and time. */
  lemma ParseDateTime(data: Bytes)
    requires DateTimeAt(data)
    ensures TmOf(ParseTimestamp(data)) == DateTimeTm(data)
  {
    var text := CStr(data);
    assert DateTimeAt(text) && DateTimeTm(text) == DateTimeTm(data) by {
      DateTimeBytes(data);
      assert NUL !in data[..19];
      CStrKeepsPrefix(data, 19);
      DateTimeSamePrefix(data, text);
    }
    if DOT in text {
      ScanDateTimeThen(text, [RealField] + ZONE);
      TmOfItems(text, Run(text, 0, FRACTION_FORMAT).items, true);
    } else {
      ScanDateTimeThen(text, ZONE);
      TmOfItems(text, Run(text, 0, PLAIN_FORMAT).items, false);
    }
  }

  /** A day field that reads as zero gives back the column bytes, whatever
      follows the date and time. */
  lemma ZeroDayIsRaw(data: Bytes, adapterTzOffset: int64, env: TimeEnv)
    requires DateTimeAt(data) && DigitsValue(data[8..10]) == 0
    ensures Typecast(TimeType, data, adapterTzOffset, env) == Raw(data)
  {
    ParseDateTime(data);
  }

  /** Text with no digit at all (for example "infinity") stops the scan at its
      first field; the day is never reached and the bytes come back unchanged. */
  lemma NoDigitsIsRaw(data: Bytes, adapterTzOffset: int64, env: TimeEnv)
    requires forall k :: 0 <= k < |data| ==> !IsDigit(data[k])
    ensures Typecast(TimeType, data, adapterTzOffset, env) == Raw(data)
  {
    var text := CStr(data);
    assert forall k :: 0 <= k < |text| ==> text[k] == data[k];
    var j := SkipBlanks(text, 0);
    var signed := j < |text| && IsSign(text[j]);
    var k := if signed then j + 1 else j;
    assert DigitRun(text, k, if signed then 3 else 4) == 0;
    assert ScanInt(text, 0, 4).None?;
    assert Run(text, 0, PLAIN_FORMAT).items == [];
    assert Run(text, 0, FRACTION_FORMAT).items == [];
  }

  // ---------------------------------------------------------------------
  // Zone suffixes
  // ---------------------------------------------------------------------

  /** A sign and two hour digits ending the text, as PostgreSQL writes "+00". */
  predicate HourZoneAt(x: Bytes, i: nat) {
    |x| == i + 3 && IsSign(x[i]) && AllDigits(x[i + 1..i + 3])
  }

  /** A sign, two hour digits, ':' and two minute digits ending the text. */
  predicate FullZoneAt(x: Bytes, i: nat) {
    |x| == i + 6 && IsSign(x[i]) && AllDigits(x[i + 1..i + 3]) && x[i + 3] == COLON && AllDigits(x[i + 4..i + 6])
  }

  /** What may end a timestamp at `i`: nothing, or one of the two zone forms. */
  predicate ZoneSuffixAt(x: Bytes, i: nat) {
    |x| == i || HourZoneAt(x, i) || FullZoneAt(x, i)
  }

  /** The offset east of UTC, in seconds, that a zone suffix names. */
  function SuffixOffset(x: Bytes, i: nat): int
    requires HourZoneAt(x, i) || FullZoneAt(x, i)
  {
    var hours := DigitsValue(x[i + 1..i + 3]);
    var minutes := if FullZoneAt(x, i) then DigitsValue(x[i + 4..i + 6]) else 0;
    var magnitude := hours * 3600 + minutes * 60;
    if x[i] == PLUS then magnitude else -magnitude
  }

  /** The intended correction: a zone suffix moves the wall-clock
      reading from that zone to the local one, and without a suffix the text
      is read in the adapter's zone. */
  function Correction(x: Bytes, i: nat, localTzOffset: int32, adapterTzOffset: int64): int64
    requires ZoneSuffixAt(x, i)
  {
    if |x| == i then Wrap64(localTzOffset - adapterTzOffset)
    else Wrap64(localTzOffset - SuffixOffset(x, i))
  }

  /** The items the zone part of the format delivers for a suffix. */
  function ZoneItems(x: Bytes, i: nat): seq<Item>
    requires ZoneSuffixAt(x, i)
  {
    if |x| == i then []
    else if HourZoneAt(x, i) then [CharItem(x[i]), IntItem(DigitsValue(x[i + 1..i + 3]))]
    else [CharItem(x[i]), IntItem(DigitsValue(x[i + 1..i + 3])), IntItem(DigitsValue(x[i + 4..i + 6]))]
  }

  lemma ScanZone(x: Bytes, i: nat)
    requires ZoneSuffixAt(x, i)
    ensures Run(x, i, ZONE).items == ZoneItems(x, i)
  {
    if |x| > i {
      var h := DigitsValue(x[i + 1..i + 3]);
      ScanIntDigits(x, i + 1, 2);
      if HourZoneAt(x, i) {
        assert Run(x, i + 3, ZONE[2..]) == Scanned([], i + 3, false);
        RunCons(x, i + 1, ZONE[1..], Stepped(Some(IntItem(h)), i + 3));
      } else {
        var m := DigitsValue(x[i + 4..i + 6]);
        ScanIntDigits(x, i + 4, 2);
        RunCons(x, i + 4, ZONE[3..], Stepped(Some(IntItem(m)), i + 6));
        RunCons(x, i + 3, ZONE[2..], Stepped(None, i + 4));
        RunCons(x, i + 1, ZONE[1..], Stepped(Some(IntItem(h)), i + 3));
      }
      RunCons(x, i, ZONE, Stepped(Some(CharItem(x[i])), i + 1));
    }
  }

  /** No byte of a zone suffix is NUL or '.'. */
  lemma ZoneBytes(x: Bytes, i: nat)
    requires ZoneSuffixAt(x, i)
    ensures forall k :: i <= k < |x| ==> x[k] != NUL && x[k] != DOT
  {
    forall k | i <= k < |x|
      ensures x[k] != NUL && x[k] != DOT
    {
      if i < k < i + 3 { assert x[i + 1..i + 3][k - i - 1] == x[k]; }
      else if i + 3 < k { assert x[i + 4..i + 6][k - i - 4] == x[k]; }
    }
  }

  /** The decoder's sign test on the fields the zone part filled agrees with
      the promised correction. */
  lemma ZoneFields(x: Bytes, i: nat, items: seq<Item>, z: nat, f: Fields, localTzOffset: int32, adapterTzOffset: int64)
    requires ZoneSuffixAt(x, i)
    requires |items| == z + |ZoneItems(x, i)| && items[z..] == ZoneItems(x, i)
    requires f.tzsign == CharAt(items, z) && f.tzhour == IntAt(items, z + 1) && f.tzmin == IntAt(items, z + 2)
    ensures ZoneCorrection(f, localTzOffset, adapterTzOffset) == Correction(x, i, localTzOffset, adapterTzOffset)
  {
    var zi := ZoneItems(x, i);
    assert forall k :: z <= k < |items| ==> items[k] == zi[k - z];
    if |x| > i {
      var hours := DigitsValue(x[i + 1..i + 3]);
      var minutes := if FullZoneAt(x, i) then DigitsValue(x[i + 4..i + 6]) else 0;
      assert f.tzsign == x[i] && f.tzhour == hours && f.tzmin == minutes;
      if x[i] == PLUS {
        assert f.tzhour * -3600 + f.tzmin * -60 == -(hours * 3600 + minutes * 60);
      } else {
        assert x[i] == MINUS;
      }
    }
  }

  // ---------------------------------------------------------------------
  // Decoded timestamps
  // ---------------------------------------------------------------------

  /** Once the fields are known and the day is positive, the result is
      mktime's reading plus the correction. */
  lemma DecodeParsed(data: Bytes, f: Fields, adapterTzOffset: int64, env: TimeEnv)
    requires ParseTimestamp(data) == f && f.mday > 0
    ensures DecodeTime(data, adapterTzOffset, env) ==
      Time(Wrap64(env.mktime(TmOf(f)) + ZoneCorrection(f, env.localTzOffset, adapterTzOffset)), f.fraction)
  {
  }

  lemma ScanPlain(x: Bytes)
    requires DateTimeAt(x) && ZoneSuffixAt(x, 19)
    ensures Run(x, 0, PLAIN_FORMAT).items == DateTimeItems(x) + ZoneItems(x, 19)
  {
    ScanDateTime(x);
    ScanZone(x, 19);
    RunAppend(x, 0, DATE_TIME, ZONE);
  }

  /** "YYYY-MM-DD HH:MM:SS" followed by nothing, "+HH", "-HH", "+HH:MM" or
      "-HH:MM" decodes to mktime's reading of the date and time plus the
      promised correction: the local offset minus the suffix's offset, or
      minus the adapter's offset when there is no suffix. */
  lemma {:induction false} WholeSecondTimestamp(x: Bytes, adapterTzOffset: int64, env: TimeEnv)
    requires DateTimeAt(x) && ZoneSuffixAt(x, 19) && DigitsValue(x[8..10]) > 0
    ensures Typecast(TimeType, x, adapterTzOffset, env) ==
      Time(Wrap64(env.mktime(DateTimeTm(x)) + Correction(x, 19, env.localTzOffset, adapterTzOffset)), [])
  {
    WholeSecondDecode(x, adapterTzOffset, env);
  }

  /** The shape of a timestamp without fraction digits. */
  predicate WholeSecondAt(x: Bytes) {
    DateTimeAt(x) && ZoneSuffixAt(x, 19)
  }

  lemma {:induction false} WholeSecondDecode(x: Bytes, adapterTzOffset: int64, env: TimeEnv)
    requires WholeSecondAt(x) && DigitsValue(x[8..10]) > 0
    ensures DecodeTime(x, adapterTzOffset, env) ==
      Time(Wrap64(env.mktime(DateTimeTm(x)) + Correction(x, 19, env.localTzOffset, adapterTzOffset)), [])
  {
    var f := PlainFields(x, env.localTzOffset, adapterTzOffset);
    DecodeWith(x, f, DateTimeTm(x), Correction(x, 19, env.localTzOffset, adapterTzOffset), [], adapterTzOffset, env);
  }

  /** `DecodeParsed` with the struct, the correction and the fraction
      named. */
  lemma {:induction false} DecodeWith(data: Bytes, f: Fields, tm: Tm, correction: int64, fraction: Bytes, adapterTzOffset: int64, env: TimeEnv)
    requires ParseTimestamp(data) == f && f.mday > 0
    requires TmOf(f) == tm && ZoneCorrection(f, env.localTzOffset, adapterTzOffset) == correction && f.fraction == fraction
    ensures DecodeTime(data, adapterTzOffset, env) == Time(Wrap64(env.mktime(tm) + correction), fraction)
  {
    DecodeParsed(data, f, adapterTzOffset, env);
  }

  /** The fields the decoder fills for a whole-second timestamp. */
  lemma {:induction false} PlainFields(x: Bytes, localTzOffset: int32, adapterTzOffset: int64) returns (f: Fields)
    requires DateTimeAt(x) && ZoneSuffixAt(x, 19)
    ensures ParseTimestamp(x) == f && TmOf(f) == DateTimeTm(x) && f.fraction == []
    ensures ZoneCorrection(f, localTzOffset, adapterTzOffset) == Correction(x, 19, localTzOffset, adapterTzOffset)
  {
    var items := DateTimeItems(x) + ZoneItems(x, 19);
    f := FieldsOf(items, false);
    assert ParseTimestamp(x) == f by {
      assert NUL !in x && DOT !in x by {
        DateTimeBytes(x);
        ZoneBytes(x, 19);
      }
      CStrOfTerminated(x);
      ScanPlain(x);
    }
    assert items[..6] == DateTimeItems(x);
    TmOfItems(x, items, false);
    ZoneFields(x, 19, items, 6, f, localTzOffset, adapterTzOffset);
  }

  /** The shape of a timestamp with fraction digits. */
  predicate FractionalAt(x: Bytes, n: nat) {
    DateTimeAt(x) && 0 < n && 20 + n <= |x| && x[19] == DOT && AllDigits(x[20..20 + n]) && ZoneSuffixAt(x, 20 + n)
  }

  lemma FractionalBytes(x: Bytes, n: nat)
    requires FractionalAt(x, n)
    ensures NUL !in x && DOT in x
  {
    DateTimeBytes(x);
    ZoneBytes(x, 20 + n);
    forall k | 20 <= k < 20 + n ensures x[k] != NUL {
      assert x[20..20 + n][k - 20] == x[k];
    }
    assert x[19] == DOT;
  }

  lemma ScanFractionThenZone(x: Bytes, n: nat)
    requires FractionalAt(x, n)
    ensures Run(x, 19, [RealField] + ZONE).items == [RealItem(x[19..20 + n])] + ZoneItems(x, 20 + n)
  {
    assert 20 + n == |x| || !IsDigit(x[20 + n]) by {
      if 20 + n < |x| { assert IsSign(x[20 + n]); }
    }
    ScanRealFraction(x, 19, n);
    ScanZone(x, 20 + n);
    RunCons(x, 19, [RealField] + ZONE, Stepped(Some(RealItem(x[19..20 + n])), 20 + n));
    assert ([RealField] + ZONE)[1..] == ZONE;
  }

  lemma ScanFractional(x: Bytes, n: nat)
    requires FractionalAt(x, n)
    ensures Run(x, 0, FRACTION_FORMAT).items == DateTimeItems(x) + [RealItem(x[19..20 + n])] + ZoneItems(x, 20 + n)
  {
    ScanDateTime(x);
    ScanFractionThenZone(x, n);
    RunAppend(x, 0, DATE_TIME, [RealField] + ZONE);
  }

  lemma ParseFractional(x: Bytes, n: nat)
    requires FractionalAt(x, n)
    ensures ParseTimestamp(x) == FieldsOf(DateTimeItems(x) + [RealItem(x[19..20 + n])] + ZoneItems(x, 20 + n), true)
  {
    FractionalBytes(x, n);
    CStrOfTerminated(x);
    ScanFractional(x, n);
  }

  /** With a '.' and fraction digits between the seconds and the zone, the
      whole seconds are decoded as without them, and the `%lf` text is the
      '.' and its digits. */
  lemma {:induction false} FractionalTimestamp(x: Bytes, n: nat, adapterTzOffset: int64, env: TimeEnv)
    requires FractionalAt(x, n) && DigitsValue(x[8..10]) > 0
    ensures Typecast(TimeType, x, adapterTzOffset, env) ==
      Time(Wrap64(env.mktime(DateTimeTm(x)) + Correction(x, 20 + n, env.localTzOffset, adapterTzOffset)), x[19..20 + n])
  {
    FractionalDecode(x, n, adapterTzOffset, env);
  }

  lemma {:induction false} FractionalDecode(x: Bytes, n: nat, adapterTzOffset: int64, env: TimeEnv)
    requires FractionalAt(x, n) && DigitsValue(x[8..10]) > 0
    ensures DecodeTime(x, adapterTzOffset, env) ==
      Time(Wrap64(env.mktime(DateTimeTm(x)) + Correction(x, 20 + n, env.localTzOffset, adapterTzOffset)), x[19..20 + n])
  {
    var f := FractionalFields(x, n, env.localTzOffset, adapterTzOffset);
    DecodeWith(x, f, DateTimeTm(x), Correction(x, 20 + n, env.localTzOffset, adapterTzOffset), x[19..20 + n], adapterTzOffset, env);
  }

  /** The fields the decoder fills for a timestamp with fraction digits. */
  lemma {:induction false} FractionalFields(x: Bytes, n: nat, localTzOffset: int32, adapterTzOffset: int64) returns (f: Fields)
    requires FractionalAt(x, n)
    ensures ParseTimestamp(x) == f && TmOf(f) == DateTimeTm(x) && f.fraction == x[19..20 + n]
    ensures ZoneCorrection(f, localTzOffset, adapterTzOffset) == Correction(x, 20 + n, localTzOffset, adapterTzOffset)
  {
    var items := DateTimeItems(x) + [RealItem(x[19..20 + n])] + ZoneItems(x, 20 + n);
    f := FieldsOf(items, true);
    ParseFractional(x, n);
    assert TmOf(f) == DateTimeTm(x) && f.fraction == x[19..20 + n] by {
      assert items[..6] == DateTimeItems(x);
      assert items[6] == RealItem(x[19..20 + n]);
      TmOfItems(x, items, true);
    }
    ZoneFields(x, 20 + n, items, 7, f, localTzOffset, adapterTzOffset);
  }

  /** After a bare date the blank matches nothing and the clock's first field
      finds the end of the text. */
  lemma ScanDateOnly(x: Bytes)
    requires |x| == 10 && TripleAt(x, 0, 4, MINUS)
    ensures Run(x, 0, PLAIN_FORMAT).items ==
      [IntItem(DigitsValue(x[0..4])), IntItem(DigitsValue(x[5..7])), IntItem(DigitsValue(x[8..10]))]
  {
    ScanDatePart(x, 10);
    assert Run(x, 10, CLOCK).complete == false by {
      assert SkipBlanks(x, 10) == 10;
      assert Step(x, 10, CLOCK[0]).None?;
    }
    RunAppend(x, 0, DATE + [Blank], CLOCK);
    RunAppend(x, 0, DATE_TIME, ZONE);
  }

  /** Midnight at the start of the date "YYYY-MM-DD" at the start of `x`. */
  function MidnightTm(x: Bytes): Tm
    requires TripleAt(x, 0, 4, MINUS)
  {
    Tm(DigitsValue(x[0..4]) - 1900, DigitsValue(x[5..7]) - 1, DigitsValue(x[8..10]), 0, 0, 0)
  }

  /** A bare date "YYYY-MM-DD", as a DATE column holds it, is read as midnight
      in the adapter's zone: the scan stops after the day, the clock fields
      stay zero and no sign byte is read. */
  lemma {:induction false} DateOnlyTimestamp(x: Bytes, adapterTzOffset: int64, env: TimeEnv)
    requires |x| == 10 && TripleAt(x, 0, 4, MINUS) && DigitsValue(x[8..10]) > 0
    ensures Typecast(TimeType, x, adapterTzOffset, env) ==
      Time(Wrap64(env.mktime(MidnightTm(x)) + Wrap64(env.localTzOffset - adapterTzOffset)), [])
  {
    DateOnlyDecode(x, adapterTzOffset, env);
  }

  lemma {:induction false} DateOnlyDecode(x: Bytes, adapterTzOffset: int64, env: TimeEnv)
    requires |x| == 10 && TripleAt(x, 0, 4, MINUS) && DigitsValue(x[8..10]) > 0
    ensures DecodeTime(x, adapterTzOffset, env) ==
      Time(Wrap64(env.mktime(MidnightTm(x)) + Wrap64(env.localTzOffset - adapterTzOffset)), [])
  {
    var f := DateOnlyFields(x, env.localTzOffset, adapterTzOffset);
    DecodeWith(x, f, MidnightTm(x), Wrap64(env.localTzOffset - adapterTzOffset), [], adapterTzOffset, env);
  }

  lemma {:induction false} DateOnlyFields(x: Bytes, localTzOffset: int32, adapterTzOffset: int64) returns (f: Fields)
    requires |x| == 10 && TripleAt(x, 0, 4, MINUS)
    ensures ParseTimestamp(x) == f && f.fraction == [] && TmOf(f) == MidnightTm(x)
    ensures ZoneCorrection(f, localTzOffset, adapterTzOffset) == Wrap64(localTzOffset - adapterTzOffset)
  {
    var items := [IntItem(DigitsValue(x[0..4])), IntItem(DigitsValue(x[5..7])), IntItem(DigitsValue(x[8..10]))];
    f := FieldsOf(items, false);
    DateOnlyBytes(x);
    CStrOfTerminated(x);
    ScanDateOnly(x);
  }

  /** A bare date holds neither NUL nor '.'. */
  lemma DateOnlyBytes(x: Bytes)
    requires |x| == 10 && TripleAt(x, 0, 4, MINUS)
    ensures NUL !in x && DOT !in x
  {
    forall k | 0 <= k < 10 ensures x[k] != NUL && x[k] != DOT {
      if k < 4 { assert x[0..4][k] == x[k]; }
      else if 4 < k < 7 { assert x[5..7][k - 5] == x[k]; }
      else if 7 < k { assert x[8..10][k - 8] == x[k]; }
    }
  }
}
