/** A model of the part of C `sscanf` the timestamp decoder uses: a format is a
    list of directives applied left to right to the input; each conversion
    that succeeds delivers one item, and the first directive that fails ends
    the scan, leaving every later destination untouched. */
module Scan {
  import opened CTypes
  import opened Wrappers
  import opened Decimal

  const DOT: byte := 46

  datatype Directive =
      /** `%Nd`: blanks skipped, then at most N bytes of optional sign and digits. */
    | IntField(width: nat)
      /** An ordinary byte of the format, matched exactly. */
    | Literal(b: byte)
      /** A blank in the format: any amount of white space, possibly none. */
    | Blank
      /** `%c`: exactly one byte, blanks included. */
    | CharField
      /** `%lf`: blanks skipped, then a decimal number with optional sign and
          fraction; the model keeps its text. */
    | RealField
  {
    predicate IsConversion() {
      IntField? || CharField? || RealField?
    }
  }

  datatype Item =
    | IntItem(n: int)
    | CharItem(c: byte)
    | RealItem(text: Bytes)

  datatype Stepped = Stepped(item: Option<Item>, pos: nat)

  /** Where the scan stopped, what it delivered, and whether every directive
      matched. */
  datatype Scanned = Scanned(items: seq<Item>, pos: nat, complete: bool)

  function Conversions(fmt: seq<Directive>): nat {
    if |fmt| == 0 then 0
    else (if fmt[0].IsConversion() then 1 else 0) + Conversions(fmt[1..])
  }

  /** Length of the run of digits at `i`, at most `max` long. */
  function DigitRun(s: Bytes, i: nat, max: nat): (n: nat)
    requires i <= |s|
    ensures n <= max && i + n <= |s|
    ensures forall k :: i <= k < i + n ==> IsDigit(s[k])
    ensures n < max && i + n < |s| ==> !IsDigit(s[i + n])
    decreases max
  {
    if max > 0 && i < |s| && IsDigit(s[i]) then 1 + DigitRun(s, i + 1, max - 1) else 0
  }

  /** `%Nd` at position `i`. The width counts the sign. */
  function ScanInt(s: Bytes, i: nat, width: nat): (r: Option<Stepped>)
    requires i <= |s|
    ensures r.Some? ==> i < r.value.pos <= |s| && r.value.item.Some? && r.value.item.value.IntItem?
  {
    var j := SkipBlanks(s, i);
    var signed := width > 0 && j < |s| && IsSign(s[j]);
    var k := if signed then j + 1 else j;
    var n := DigitRun(s, k, if signed then width - 1 else width);
    if n == 0 then None
    else
      var magnitude: int := DigitsValue(s[k..k + n]);
      var v := if signed && s[j] == MINUS then -magnitude else magnitude;
      Some(Stepped(Some(IntItem(v)), k + n))
  }

  /** `%lf` at position `i`: the extent of `[sign] digits [. digits]` with at
      least one digit. */
  function ScanReal(s: Bytes, i: nat): (r: Option<Stepped>)
    requires i <= |s|
    ensures r.Some? ==> i < r.value.pos <= |s| && r.value.item.Some? && r.value.item.value.RealItem?
  {
    var j := SkipBlanks(s, i);
    var k := if j < |s| && IsSign(s[j]) then j + 1 else j;
    var whole := DigitRun(s, k, |s| - k);
    var point := k + whole;
    var fraction := if point < |s| && s[point] == DOT then DigitRun(s, point + 1, |s| - (point + 1)) else 0;
    var end := if point < |s| && s[point] == DOT then point + 1 + fraction else point;
    if whole + fraction == 0 then None
    else Some(Stepped(Some(RealItem(s[j..end])), end))
  }

  /** One directive at position `i`; None when it fails to match. */
  function Step(s: Bytes, i: nat, d: Directive): (r: Option<Stepped>)
    requires i <= |s|
    ensures r.Some? ==> i <= r.value.pos <= |s|
    ensures r.Some? ==> (r.value.item.Some? <==> d.IsConversion())
  {
    match d
    case IntField(width) => ScanInt(s, i, width)
    case Literal(b) =>
      if i < |s| && s[i] == b then Some(Stepped(None, i + 1)) else None
    case Blank => Some(Stepped(None, SkipBlanks(s, i)))
    case CharField =>
      if i < |s| then Some(Stepped(Some(CharItem(s[i])), i + 1)) else None
    case RealField => ScanReal(s, i)
  }

  /** The directives of `fmt` applied in order from position `i`. */
  function Run(s: Bytes, i: nat, fmt: seq<Directive>): (r: Scanned)
    requires i <= |s|
    ensures i <= r.pos <= |s|
    decreases |fmt|
  {
    if |fmt| == 0 then Scanned([], i, true)
    else
      match Step(s, i, fmt[0])
      case None => Scanned([], i, false)
      case Some(st) =>
        var rest := Run(s, st.pos, fmt[1..]);
        var first := if st.item.Some? then [st.item.value] else [];
        Scanned(first + rest.items, rest.pos, rest.complete)
  }

  /** Each conversion delivers at most one item, and a scan that matched the
      whole format delivered one item per conversion: the destinations are
      filled in order, and those after a failure keep their initial values. */
  lemma {:induction false} RunDelivers(s: Bytes, i: nat, fmt: seq<Directive>)
    requires i <= |s|
    ensures |Run(s, i, fmt).items| <= Conversions(fmt)
    ensures Run(s, i, fmt).complete ==> |Run(s, i, fmt).items| == Conversions(fmt)
    decreases |fmt|
  {
    if |fmt| > 0 {
      match Step(s, i, fmt[0])
      case None =>
      case Some(st) =>
        RunDelivers(s, st.pos, fmt[1..]);
    }
  }

  /** One step of `Run`, unfolded. */
  lemma RunCons(s: Bytes, i: nat, fmt: seq<Directive>, st: Stepped)
    requires i <= |s| && |fmt| > 0
    requires Step(s, i, fmt[0]) == Some(st)
    ensures st.pos <= |s|
    ensures Run(s, i, fmt) ==
      var rest := Run(s, st.pos, fmt[1..]);
      Scanned((if st.item.Some? then [st.item.value] else []) + rest.items, rest.pos, rest.complete)
  {
  }

  /** Scanning with `f1 + f2` is scanning with `f1` and, if all of it matched,
      continuing with `f2` where it stopped. */
  lemma {:induction false} RunAppend(s: Bytes, i: nat, f1: seq<Directive>, f2: seq<Directive>)
    requires i <= |s|
    ensures Run(s, i, f1 + f2) ==
      var a := Run(s, i, f1);
      if a.complete then
        var b := Run(s, a.pos, f2);
        Scanned(a.items + b.items, b.pos, b.complete)
      else a
    decreases |f1|
  {
    if |f1| == 0 {
      assert f1 + f2 == f2;
    } else {
      assert (f1 + f2)[0] == f1[0];
      assert (f1 + f2)[1..] == f1[1..] + f2;
      match Step(s, i, f1[0])
      case None =>
      case Some(st) =>
        RunAppend(s, st.pos, f1[1..], f2);
        RunCons(s, i, f1, st);
        RunCons(s, i, f1 + f2, st);
        var first := if st.item.Some? then [st.item.value] else [];
        var a := Run(s, st.pos, f1[1..]);
        if a.complete {
          var b := Run(s, a.pos, f2);
          ItemsAssoc(first, a.items, b.items);
        }
    }
  }

  /** Two scans that match in sequence: the second starts where the first,
      complete, stopped. */
  lemma ScanThen(s: Bytes, i: nat, f1: seq<Directive>, f2: seq<Directive>, items1: seq<Item>, p: nat, r2: Scanned)
    requires i <= |s| && p <= |s|
    requires Run(s, i, f1) == Scanned(items1, p, true)
    requires Run(s, p, f2) == r2
    ensures Run(s, i, f1 + f2) == Scanned(items1 + r2.items, r2.pos, r2.complete)
  {
    RunAppend(s, i, f1, f2);
  }

  lemma ItemsAssoc(x: seq<Item>, y: seq<Item>, z: seq<Item>)
    ensures x + (y + z) == (x + y) + z
  {
  }

  /** A field of exactly `width` digits is read as its value. */
  lemma ScanIntDigits(s: Bytes, i: nat, width: nat)
    requires 0 < width && i + width <= |s|
    requires AllDigits(s[i..i + width])
    ensures Step(s, i, IntField(width)) == Some(Stepped(Some(IntItem(DigitsValue(s[i..i + width]))), i + width))
  {
    assert IsDigit(s[i]) by { assert s[i..i + width][0] == s[i]; }
    assert SkipBlanks(s, i) == i;
  }

  /** A run of `n` digits that ends at a non-digit, at the end of the input or
      at the length limit has length `n`. */
  lemma {:induction false} DigitRunExact(s: Bytes, i: nat, max: nat, n: nat)
    requires i + n <= |s| && n <= max
    requires AllDigits(s[i..i + n])
    requires n == max || i + n == |s| || !IsDigit(s[i + n])
    ensures DigitRun(s, i, max) == n
    decreases n
  {
    if n > 0 {
      assert IsDigit(s[i]) by { assert s[i..i + n][0] == s[i]; }
      assert s[i + 1..i + n] == s[i..i + n][1..];
      DigitRunExact(s, i + 1, max - 1, n - 1);
    }
  }

  /** `%lf` at a '.' followed by `n` digits reads exactly those bytes. */
  lemma ScanRealFraction(s: Bytes, i: nat, n: nat)
    requires 0 < n && i + 1 + n <= |s| && s[i] == DOT
    requires AllDigits(s[i + 1..i + 1 + n])
    requires i + 1 + n == |s| || !IsDigit(s[i + 1 + n])
    ensures Step(s, i, RealField) == Some(Stepped(Some(RealItem(s[i..i + 1 + n])), i + 1 + n))
  {
    assert SkipBlanks(s, i) == i;
    DigitRunExact(s, i, |s| - i, 0);
    DigitRunExact(s, i + 1, |s| - (i + 1), n);
  }

  /** `%c` at the end of the input fails: a missing zone suffix ends the scan. */
  lemma CharAtEnd(s: Bytes)
    ensures Step(s, |s|, CharField).None?
  {
  }
}
