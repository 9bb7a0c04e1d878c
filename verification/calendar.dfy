/** What the timestamp decoder yields when `mktime` is the plain proleptic
    Gregorian calendar shifted by a fixed local offset (no daylight saving):
    the offset arithmetic then cancels the process's own zone, and the decoded
    instant depends only on the text and, for text without a zone suffix, on
    the adapter's zone. */
module Calendar {
  import opened CTypes
  import opened Decimal
  import opened Typecast

  /** Days from 1970-01-01 to the given civil date (proleptic Gregorian
      calendar; month 1..12, any day). */
  function DaysFromCivil(year: int, month: int, day: int): int
    requires 1 <= month <= 12
  {
    var y := if month <= 2 then year - 1 else year;
    var era := y / 400;
    var yoe := y - era * 400;
    var mp := (month + 9) % 12;
    var doy := (153 * mp + 2) / 5 + day - 1;
    var doe := yoe * 365 + yoe / 4 - yoe / 100 + doy;
    era * 146097 + doe - 719468
  }

  /** Seconds since the epoch of a `struct tm` read as UTC, normalising an
      out-of-range month into the year the way `mktime` does. */
  function NaiveUtc(tm: Tm): int {
    var year := tm.year + 1900 + tm.mon / 12;
    var month := tm.mon % 12 + 1;
    var days := DaysFromCivil(year, month, 1) + tm.mday - 1;
    days * 86400 + tm.hour * 3600 + tm.min * 60 + tm.sec
  }

  /** `mktime` as a process whose zone keeps a fixed offset (no daylight
      saving) computes it at `tm`: the wall-clock reading as UTC, minus the
      offset east of UTC. */
  predicate FixedOffsetAt(env: TimeEnv, tm: Tm) {
    env.mktime(tm) == Wrap64(NaiveUtc(tm) - env.localTzOffset)
  }

  /** The local offset is added back after mktime subtracted it. */
  lemma {:induction false} LocalOffsetCancels(m: int64, utc: int, local: int, shift: int)
    requires m == Wrap64(utc - local)
    ensures Wrap64(m + Wrap64(local - shift)) == Wrap64(utc - shift)
  {
    Wrap64OfWrapped(utc - local, Wrap64(local - shift));
    Wrap64OfWrapped(local - shift, utc - local);
  }

  /** With a zone suffix at `i`, mktime's reading plus the decoder's
      correction is the wall-clock reading as UTC minus the suffix's offset:
      the process's zone cancels and the adapter's zone plays no part. */
  lemma ZonedInstant(x: Bytes, i: nat, tm: Tm, adapterTzOffset: int64, env: TimeEnv)
    requires HourZoneAt(x, i) || FullZoneAt(x, i)
    requires FixedOffsetAt(env, tm)
    ensures Wrap64(env.mktime(tm) + Correction(x, i, env.localTzOffset, adapterTzOffset)) == Wrap64(NaiveUtc(tm) - SuffixOffset(x, i))
  {
    LocalOffsetCancels(env.mktime(tm), NaiveUtc(tm), env.localTzOffset, SuffixOffset(x, i));
  }

  /** Without a zone suffix the wall-clock reading is taken in the adapter's
      zone; the process's zone cancels. */
  lemma UnzonedInstant(x: Bytes, i: nat, tm: Tm, adapterTzOffset: int64, env: TimeEnv)
    requires |x| == i
    requires FixedOffsetAt(env, tm)
    ensures Wrap64(env.mktime(tm) + Correction(x, i, env.localTzOffset, adapterTzOffset)) == Wrap64(NaiveUtc(tm) - adapterTzOffset)
  {
    LocalOffsetCancels(env.mktime(tm), NaiveUtc(tm), env.localTzOffset, adapterTzOffset);
  }

  /** Two processes in different fixed zones, with different adapter zones,
      turn the same wall-clock reading and zone suffix into the same instant;
      with `WholeSecondTimestamp` and `FractionalTimestamp` this makes a zoned
      timestamp decode to the same value everywhere. */
  lemma ZonedTextIsPortable(x: Bytes, i: nat, tm: Tm, tz1: int64, env1: TimeEnv, tz2: int64, env2: TimeEnv)
    requires HourZoneAt(x, i) || FullZoneAt(x, i)
    requires FixedOffsetAt(env1, tm) && FixedOffsetAt(env2, tm)
    ensures Wrap64(env1.mktime(tm) + Correction(x, i, env1.localTzOffset, tz1)) ==
            Wrap64(env2.mktime(tm) + Correction(x, i, env2.localTzOffset, tz2))
  {
    ZonedInstant(x, i, tm, tz1, env1);
    ZonedInstant(x, i, tm, tz2, env2);
  }

  /** "2024-03-01 12:00:00+00:00", byte by byte. */
  const NOON_TEXT: Bytes := [50, 48, 50, 52, 45, 48, 51, 45, 48, 49, 32, 49, 50, 58, 48, 48, 58, 48, 48, 43, 48, 48, 58, 48, 48]

  /** Two digit bytes known by value read as their two-digit number. */
  lemma LiteralPair(x: Bytes, i: nat, hi: byte, lo: byte)
    requires i + 2 <= |x| && x[i..i + 2] == [hi, lo] && IsDigit(hi) && IsDigit(lo)
    ensures AllDigits(x[i..i + 2]) && DigitsValue(x[i..i + 2]) == DigitValue(hi) * 10 + DigitValue(lo)
  {
    assert [hi, lo][..1] == [hi];
    assert [hi][..0] == [];
  }

  lemma NoonYear()
    ensures AllDigits(NOON_TEXT[0..4]) && DigitsValue(NOON_TEXT[0..4]) == 2024
  {
    var y: Bytes := [50, 48, 50, 52];
    assert NOON_TEXT[0..4] == y;
    assert y[..3] == [50, 48, 50];
    assert y[..3][..2] == [50, 48];
    assert y[..3][..2][..1] == [50];
    assert y[..3][..2][..1][..0] == [];
    assert DigitsValue([50]) == 2;
    assert DigitsValue([50, 48]) == 20;
    assert DigitsValue([50, 48, 50]) == 202;
  }

  lemma NoonDate()
    ensures TripleAt(NOON_TEXT, 0, 4, MINUS)
    ensures DigitsValue(NOON_TEXT[0..4]) == 2024 && DigitsValue(NOON_TEXT[5..7]) == 3 && DigitsValue(NOON_TEXT[8..10]) == 1
  {
    NoonYear();
    LiteralPair(NOON_TEXT, 5, 48, 51);
    LiteralPair(NOON_TEXT, 8, 48, 49);
  }

  lemma NoonClock()
    ensures TripleAt(NOON_TEXT, 11, 2, COLON)
    ensures DigitsValue(NOON_TEXT[11..13]) == 12 && DigitsValue(NOON_TEXT[14..16]) == 0 && DigitsValue(NOON_TEXT[17..19]) == 0
  {
    LiteralPair(NOON_TEXT, 11, 49, 50);
    LiteralPair(NOON_TEXT, 14, 48, 48);
    LiteralPair(NOON_TEXT, 17, 48, 48);
  }

  lemma NoonZone()
    ensures FullZoneAt(NOON_TEXT, 19) && SuffixOffset(NOON_TEXT, 19) == 0
  {
    LiteralPair(NOON_TEXT, 20, 48, 48);
    LiteralPair(NOON_TEXT, 23, 48, 48);
  }

  lemma NoonUtc()
    ensures NaiveUtc(Tm(124, 2, 1, 12, 0, 0)) == 1709294400
  {
    assert DaysFromCivil(2024, 3, 1) == 19783;
  }

  /** "2024-03-01 12:00:00+00:00" is noon on 1 March 2024 with a zero offset:
      with `WholeSecondTimestamp`, it decodes to the instant 1709294400
      seconds after the epoch in any process whose zone keeps a fixed offset,
      whatever the adapter's zone. */
  lemma NoonFirstOfMarch2024(adapterTzOffset: int64, env: TimeEnv)
    requires FixedOffsetAt(env, Tm(124, 2, 1, 12, 0, 0))
    ensures DateTimeAt(NOON_TEXT) && FullZoneAt(NOON_TEXT, 19)
    ensures DateTimeTm(NOON_TEXT) == Tm(124, 2, 1, 12, 0, 0)
    ensures Wrap64(env.mktime(DateTimeTm(NOON_TEXT)) + Correction(NOON_TEXT, 19, env.localTzOffset, adapterTzOffset)) == 1709294400
  {
    NoonDate();
    NoonClock();
    NoonZone();
    NoonUtc();
    ZonedInstant(NOON_TEXT, 19, Tm(124, 2, 1, 12, 0, 0), adapterTzOffset, env);
  }
}
