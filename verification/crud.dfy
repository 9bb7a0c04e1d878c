/** The batch operations of `Swift::Adapter` (lib/swift/adapter.rb:23-149):
    `get`, `create`, `update` and `delete` over a scheme. The scheme is
    abstract: its header's field lists, its constructor `new`, its name and
    `inspect`; so is the prepared statement, whose `execute` answers a result
    or raises. Each batch operation flattens its argument, handles the
    elements in order and stops at the first exception; the model answers the
    parameter lists sent to `execute`, in order, and what the call returns or
    raises. */
module Crud {
  import opened Wrappers
  import opened CTypes
  import opened Errors
  import opened Host
  import Typecast
  import Statements

  type FieldName = string

  /** A Hash of attributes, keyed by field name. */
  type Attrs = map<FieldName, HostValue>

  /** The parts of `scheme.header` the operations read. */
  datatype Header = Header(
    keys: seq<FieldName>,
    insertable: seq<FieldName>,
    updatable: seq<FieldName>,
    serial: Option<FieldName>)

  /** A scheme instance: its tuple and whether it has been frozen. */
  datatype Resource = Resource(tuple: Attrs, frozen: bool)

  /** One element of a batch: already an instance of the scheme, or a Hash
      still to be coerced. */
  datatype Element =
    | Instance(resource: Resource)
    | Attributes(attrs: Attrs)

  /** The `resources` argument: one element, or an Array whose entries may be
      Arrays again. */
  datatype Arg =
    | One(element: Element)
    | Many(items: seq<Arg>)

  /** `[resources].flatten`: the elements, depth first, in order. */
  function Flatten(a: Arg): (elems: seq<Element>)
    ensures a.One? ==> elems == [a.element]
    decreases a
  {
    match a
    case One(e) => [e]
    case Many(items) => FlattenAll(items)
  }

  function FlattenAll(items: seq<Arg>): (elems: seq<Element>)
    ensures |items| == 1 ==> elems == Flatten(items[0])
    decreases items
  {
    if |items| == 0 then [] else Flatten(items[0]) + FlattenAll(items[1..])
  }

  /** Flattening an Array is flattening its parts one after the other. */
  lemma {:induction false} FlattenAllAppend(xs: seq<Arg>, ys: seq<Arg>)
    ensures FlattenAll(xs + ys) == FlattenAll(xs) + FlattenAll(ys)
    decreases |xs|
  {
    if |xs| == 0 {
      assert xs + ys == ys;
    } else {
      assert (xs + ys)[1..] == xs[1..] + ys;
      FlattenAllAppend(xs[1..], ys);
    }
  }

  /** An Array of single elements flattens to those elements. */
  lemma {:induction false} FlattenFlat(es: seq<Element>)
    ensures FlattenAll(seq(|es|, i requires 0 <= i < |es| => One(es[i]))) == es
    decreases |es|
  {
    var items := seq(|es|, i requires 0 <= i < |es| => One(es[i]));
    if |es| > 0 {
      assert items[1..] == seq(|es[1..]|, i requires 0 <= i < |es[1..]| => One(es[1..][i]));
      FlattenFlat(es[1..]);
    }
  }

  /** `resource = scheme.new(resource) unless resource.kind_of?(scheme)`. */
  function Coerce(e: Element, newOf: Attrs -> Resource): (r: Resource)
    ensures e.Instance? ==> r == e.resource
    ensures e.Attributes? ==> r == newOf(e.attrs)
  {
    match e
    case Instance(r) => r
    case Attributes(attrs) => newOf(attrs)
  }

  /** `tuple.values_at(*names)`: one value per name, nil where the tuple has
      none. */
  function ValuesAt(tuple: Attrs, names: seq<FieldName>): (vs: seq<HostValue>)
    ensures |vs| == |names|
    ensures forall i :: 0 <= i < |names| ==> vs[i] == (if names[i] in tuple then tuple[names[i]] else Nil)
  {
    seq(|names|, i requires 0 <= i < |names| => if names[i] in tuple then tuple[names[i]] else Nil)
  }

  /** Ruby truth: everything but nil and false. */
  predicate Truthy(v: HostValue) {
    !v.Nil? && !v.False?
  }

  /** What handling one element did: the parameters it sent to `execute`, if
      it got that far, and its value or the exception it raised. */
  datatype Step<T> = Step(executed: Option<seq<HostValue>>, outcome: Result<T, Error>)

  /** What a batch did: every parameter list sent to `execute`, in order, and
      the values of all elements or the first exception. */
  datatype Run<T> = Run(executed: seq<seq<HostValue>>, outcome: Result<seq<T>, Error>)

  /** An element of a batch with its position. Elements are handled in
      order and the batch stops at the first exception, so when the element at
      `pos` is handled, exactly `pos` statements of the batch have run before
      it: the position stands for the database's state at that point. */
  datatype Entry = Entry(pos: nat, element: Element)

  function Numbered(es: seq<Element>): (ns: seq<Entry>)
    ensures |ns| == |es|
    ensures forall i :: 0 <= i < |es| ==> ns[i] == Entry(i, es[i])
  {
    seq(|es|, i requires 0 <= i < |es| => Entry(i, es[i]))
  }

  /** The index of the first element whose step raises, or the number of
      elements when none does. */
  function FirstFailure<E, T>(elems: seq<E>, step: E -> Step<T>): (k: nat)
    ensures k <= |elems|
    ensures forall i :: 0 <= i < k ==> step(elems[i]).outcome.Success?
    ensures k < |elems| ==> step(elems[k]).outcome.Failure?
  {
    if |elems| == 0 then 0
    else if step(elems[0]).outcome.Failure? then 0
    else 1 + FirstFailure(elems[1..], step)
  }

  /** The parameter lists the steps of `elems` send, in order. */
  function Sent<E, T>(elems: seq<E>, step: E -> Step<T>): seq<seq<HostValue>> {
    if |elems| == 0 then []
    else
      var s := step(elems[0]).executed;
      (if s.Some? then [s.value] else []) + Sent(elems[1..], step)
  }

  /** `elems.map { ... }` where the block may raise: the elements are handled
      in order until one raises. On success there is one value per element,
      in order; otherwise the exception is the first element's that raised.
      Either way `execute` has been called exactly for the elements handled,
      including the one that raised. */
  function MapSteps<E, T>(elems: seq<E>, step: E -> Step<T>): (r: Run<T>)
    ensures r.outcome.Success? <==> FirstFailure(elems, step) == |elems|
    ensures r.outcome.Success? ==> |r.outcome.value| == |elems|
    ensures r.outcome.Success? ==> forall i :: 0 <= i < |elems| ==> r.outcome.value[i] == step(elems[i]).outcome.value
    ensures r.outcome.Failure? ==> r.outcome.error == step(elems[FirstFailure(elems, step)]).outcome.error
    ensures r.executed == Sent(elems[..Min(FirstFailure(elems, step) + 1, |elems|)], step)
    decreases |elems|
  {
    if |elems| == 0 then Run([], Success([]))
    else
      var s := step(elems[0]);
      var head := if s.executed.Some? then [s.executed.value] else [];
      match s.outcome
      case Failure(e) =>
        assert elems[..1][1..] == [];
        Run(head, Failure(e))
      case Success(v) =>
        var rest := MapSteps(elems[1..], step);
        assert elems[..Min(FirstFailure(elems, step) + 1, |elems|)][1..] ==
               elems[1..][..Min(FirstFailure(elems[1..], step) + 1, |elems[1..]|)];
        Run(head + rest.executed, if rest.outcome.Success? then Success([v] + rest.outcome.value) else Failure(rest.outcome.error))
  }

  /** Every list `Sent` holds was sent by the step of some element. */
  lemma {:induction false} SentFromSomeStep<E, T>(elems: seq<E>, step: E -> Step<T>, b: seq<HostValue>)
    requires b in Sent(elems, step)
    ensures exists i :: 0 <= i < |elems| && step(elems[i]).executed == Some(b)
    decreases |elems|
  {
    var s := step(elems[0]).executed;
    if s.Some? && b == s.value {
      assert step(elems[0]).executed == Some(b);
    } else {
      assert b in Sent(elems[1..], step);
      SentFromSomeStep(elems[1..], step, b);
      var i :| 0 <= i < |elems[1..]| && step(elems[1..][i]).executed == Some(b);
      assert step(elems[i + 1]).executed == Some(b);
    }
  }

  /** What a batch call answers: the Array of values when `resources` was an
      Array, otherwise its first value (nil when there is none). */
  datatype Shaped<T> =
    | Whole(values: seq<T>)
    | Single(value: Option<T>)

  function Shape<T>(a: Arg, values: seq<T>): (s: Shaped<T>)
    ensures a.Many? <==> s.Whole?
    ensures s.Whole? ==> s.values == values
    ensures s.Single? ==> (s.value.None? <==> |values| == 0)
    ensures s.Single? && |values| > 0 ==> s.value.value == values[0]
  {
    if a.Many? then Whole(values)
    else if |values| == 0 then Single(None)
    else Single(Some(values[0]))
  }

  /** A batch call's answer: the parameter lists sent and the shaped values
      or the exception. */
  datatype Outcome<T> = Outcome(executed: seq<seq<HostValue>>, result: Result<Shaped<T>, Error>)

  /** The batch over `[resources].flatten`, each element handled with its
      position. */
  function Batch<T>(a: Arg, step: Entry -> Step<T>): (o: Outcome<T>)
    ensures o.executed == MapSteps(Numbered(Flatten(a)), step).executed
    ensures MapSteps(Numbered(Flatten(a)), step).outcome.Failure? ==>
      o.result == Failure(MapSteps(Numbered(Flatten(a)), step).outcome.error)
    ensures MapSteps(Numbered(Flatten(a)), step).outcome.Success? ==>
      o.result == Success(Shape(a, MapSteps(Numbered(Flatten(a)), step).outcome.value))
  {
    var run := MapSteps(Numbered(Flatten(a)), step);
    match run.outcome
    case Failure(e) => Outcome(run.executed, Failure(e))
    case Success(values) => Outcome(run.executed, Success(Shape(a, values)))
  }

  /** A batch that raises nothing answers one value per flattened element, in
      order, as an Array exactly when it was given an Array; a single element
      comes back as its own value. */
  lemma BatchShape<T>(a: Arg, step: Entry -> Step<T>)
    requires FirstFailure(Numbered(Flatten(a)), step) == |Flatten(a)|
    ensures var o := Batch(a, step);
      && o.result.Success?
      && (a.Many? ==>
            && o.result.value.Whole?
            && |o.result.value.values| == |Flatten(a)|
            && forall i :: 0 <= i < |Flatten(a)| ==> o.result.value.values[i] == step(Entry(i, Flatten(a)[i])).outcome.value)
      && (a.One? ==> o.result.value == Single(Some(step(Entry(0, a.element)).outcome.value)))
  {
  }

  /** A prepared statement's `execute` during a batch: given the number of
      statements the batch has run before and the parameters, it answers a
      result or raises. The count lets equal parameter lists meet a changed
      database: a fresh serial, or a unique index already holding the row. */
  type Execute = (nat, seq<HostValue>) -> Result<HostValue, Error>

  // ---------------------------------------------------------------------
  // create
  // ---------------------------------------------------------------------

  /** The block of `create` for one element: coerce, execute with the
      insertable values, and store the insert id of the result in the serial
      field when the header names one. */
  function CreateStep(h: Header, newOf: Attrs -> Resource, execute: Execute,
                      insertIdOf: HostValue -> HostValue, x: Entry): (s: Step<Resource>)
    ensures s.executed == Some(ValuesAt(Coerce(x.element, newOf).tuple, h.insertable))
    ensures s.outcome.Failure? <==> execute(x.pos, ValuesAt(Coerce(x.element, newOf).tuple, h.insertable)).Failure?
    ensures s.outcome.Failure? ==> s.outcome.error == execute(x.pos, ValuesAt(Coerce(x.element, newOf).tuple, h.insertable)).error
    ensures s.outcome.Success? ==> s.outcome.value.frozen == Coerce(x.element, newOf).frozen
  {
    var r := Coerce(x.element, newOf);
    var bind := ValuesAt(r.tuple, h.insertable);
    match execute(x.pos, bind)
    case Failure(err) => Step(Some(bind), Failure(err))
    case Success(res) =>
      Step(Some(bind), Success(if h.serial.Some? then r.(tuple := r.tuple[h.serial.value := insertIdOf(res)]) else r))
  }

  /** `create` changes no field but the serial one, and that one only when
      the header has a serial: it then holds the insert id of this element's
      own insert. */
  lemma CreateTouchesOnlySerial(h: Header, newOf: Attrs -> Resource, execute: Execute,
                                insertIdOf: HostValue -> HostValue, x: Entry)
    requires execute(x.pos, ValuesAt(Coerce(x.element, newOf).tuple, h.insertable)).Success?
    ensures var before := Coerce(x.element, newOf).tuple;
      var after := CreateStep(h, newOf, execute, insertIdOf, x).outcome.value.tuple;
      && (h.serial.None? ==> after == before)
      && (h.serial.Some? ==>
            && h.serial.value in after
            && after[h.serial.value] == insertIdOf(execute(x.pos, ValuesAt(before, h.insertable)).value)
            && forall f :: f != h.serial.value ==> (f in after <==> f in before) && (f in after ==> after[f] == before[f]))
  {
  }

  /** `Adapter#create`. */
  function Create(h: Header, newOf: Attrs -> Resource, execute: Execute,
                  insertIdOf: HostValue -> HostValue, resources: Arg): (o: Outcome<Resource>)
    ensures o == Batch(resources, x => CreateStep(h, newOf, execute, insertIdOf, x))
    ensures |o.executed| ==
      Min(FirstFailure(Numbered(Flatten(resources)), x => CreateStep(h, newOf, execute, insertIdOf, x)) + 1, |Flatten(resources)|)
  {
    var step := x => CreateStep(h, newOf, execute, insertIdOf, x);
    var elems := Numbered(Flatten(resources));
    SentEveryStep(elems[..Min(FirstFailure(elems, step) + 1, |elems|)], step);
    Batch(resources, step)
  }

  /** Creating the same attributes (a Hash, coerced afresh each time) twice
      runs two inserts, and each resource receives the insert id of its own
      insert. */
  lemma RepeatedElementGetsOwnId(h: Header, newOf: Attrs -> Resource, execute: Execute,
                                 insertIdOf: HostValue -> HostValue, e: Element)
    requires e.Attributes?
    requires h.serial.Some?
    requires execute(0, ValuesAt(Coerce(e, newOf).tuple, h.insertable)).Success?
    requires execute(1, ValuesAt(Coerce(e, newOf).tuple, h.insertable)).Success?
    ensures var bind := ValuesAt(Coerce(e, newOf).tuple, h.insertable);
      var o := Create(h, newOf, execute, insertIdOf, Many([One(e), One(e)]));
      && o.executed == [bind, bind]
      && o.result.Success? && o.result.value.Whole? && |o.result.value.values| == 2
      && o.result.value.values[0].tuple[h.serial.value] == insertIdOf(execute(0, bind).value)
      && o.result.value.values[1].tuple[h.serial.value] == insertIdOf(execute(1, bind).value)
  {
    var step := x => CreateStep(h, newOf, execute, insertIdOf, x);
    var a := Many([One(e), One(e)]);
    assert Flatten(a) == [e, e] by {
      assert [One(e), One(e)][1..] == [One(e)];
    }
    var elems := Numbered(Flatten(a));
    FirstFailureAll(elems, step);
    SentEveryStep(elems, step);
    BatchShape(a, step);
    CreateTouchesOnlySerial(h, newOf, execute, insertIdOf, Entry(0, e));
    CreateTouchesOnlySerial(h, newOf, execute, insertIdOf, Entry(1, e));
  }

  /** When no step raises, the first failure is past the end. */
  lemma {:induction false} FirstFailureAll<E, T>(elems: seq<E>, step: E -> Step<T>)
    requires forall i :: 0 <= i < |elems| ==> step(elems[i]).outcome.Success?
    ensures FirstFailure(elems, step) == |elems|
    decreases |elems|
  {
    if |elems| > 0 {
      FirstFailureAll(elems[1..], step);
    }
  }

  /** When every step executes, `Sent` holds one list per element. */
  lemma {:induction false} SentEveryStep<E, T>(elems: seq<E>, step: E -> Step<T>)
    requires forall i :: 0 <= i < |elems| ==> step(elems[i]).executed.Some?
    ensures |Sent(elems, step)| == |elems|
    ensures forall i :: 0 <= i < |elems| ==> Sent(elems, step)[i] == step(elems[i]).executed.value
    decreases |elems|
  {
    if |elems| > 0 {
      SentEveryStep(elems[1..], step);
    }
  }

  // ---------------------------------------------------------------------
  // update and delete
  // ---------------------------------------------------------------------

  /** The key values of a resource, and whether one of them is nil. */
  predicate CompleteKey(h: Header, r: Resource) {
    Nil !in ValuesAt(r.tuple, h.keys)
  }

  /** `"#{scheme} resource has incomplete key: #{resource.inspect}"`. */
  function IncompleteKey(schemeName: Bytes, inspect: Resource -> Bytes, r: Resource): Error {
    ArgumentError(schemeName + Ascii(" resource has incomplete key: ") + inspect(r))
  }

  /** The block of `update` for one element: coerce; refuse an incomplete key
      before executing; otherwise execute with the updatable values followed
      by the key values. */
  function UpdateStep(h: Header, newOf: Attrs -> Resource, execute: Execute,
                      schemeName: Bytes, inspect: Resource -> Bytes, x: Entry): (s: Step<Resource>)
    ensures !CompleteKey(h, Coerce(x.element, newOf)) ==>
      s == Step(None, Failure(IncompleteKey(schemeName, inspect, Coerce(x.element, newOf))))
    ensures CompleteKey(h, Coerce(x.element, newOf)) ==> s.executed.Some?
    ensures s.executed.Some? ==>
      var bind := s.executed.value;
      var r := Coerce(x.element, newOf);
      && |bind| == |h.updatable| + |h.keys|
      && bind[..|h.updatable|] == ValuesAt(r.tuple, h.updatable)
      && bind[|h.updatable|..] == ValuesAt(r.tuple, h.keys)
      && (s.outcome.Success? <==> execute(x.pos, bind).Success?)
    ensures s.outcome.Success? ==> s.outcome.value == Coerce(x.element, newOf)
  {
    var r := Coerce(x.element, newOf);
    var keys := ValuesAt(r.tuple, h.keys);
    if Nil in keys then Step(None, Failure(IncompleteKey(schemeName, inspect, r)))
    else
      var bind := ValuesAt(r.tuple, h.updatable) + keys;
      match execute(x.pos, bind)
      case Failure(err) => Step(Some(bind), Failure(err))
      case Success(_) => Step(Some(bind), Success(r))
  }

  /** `Adapter#update`. */
  function Update(h: Header, newOf: Attrs -> Resource, execute: Execute,
                  schemeName: Bytes, inspect: Resource -> Bytes, resources: Arg): (o: Outcome<Resource>)
    ensures o == Batch(resources, x => UpdateStep(h, newOf, execute, schemeName, inspect, x))
    ensures forall b :: b in o.executed ==> |b| == |h.updatable| + |h.keys| && Nil !in b[|h.updatable|..]
  {
    var step := x => UpdateStep(h, newOf, execute, schemeName, inspect, x);
    var o := Batch(resources, step);
    forall b | b in o.executed
      ensures |b| == |h.updatable| + |h.keys| && Nil !in b[|h.updatable|..]
    {
      var elems := Numbered(Flatten(resources));
      SentFromSomeStep(elems[..Min(FirstFailure(elems, step) + 1, |elems|)], step, b);
    }
    o
  }

  /** What `delete` makes of one element: the result of `execute`, which is
      the value the call answers, and the resource, frozen when that result
      is truthy. */
  datatype Deleted = Deleted(result: HostValue, resource: Resource)

  /** The block of `delete` for one element: coerce; refuse an incomplete key
      before executing; otherwise execute with the key values and freeze the
      resource when the result is truthy. */
  function DeleteStep(h: Header, newOf: Attrs -> Resource, execute: Execute,
                      schemeName: Bytes, inspect: Resource -> Bytes, x: Entry): (s: Step<Deleted>)
    ensures !CompleteKey(h, Coerce(x.element, newOf)) ==>
      s == Step(None, Failure(IncompleteKey(schemeName, inspect, Coerce(x.element, newOf))))
    ensures CompleteKey(h, Coerce(x.element, newOf)) ==> s.executed == Some(ValuesAt(Coerce(x.element, newOf).tuple, h.keys))
    ensures s.outcome.Success? ==>
      && execute(x.pos, ValuesAt(Coerce(x.element, newOf).tuple, h.keys)).Success?
      && s.outcome.value.result == execute(x.pos, ValuesAt(Coerce(x.element, newOf).tuple, h.keys)).value
      && s.outcome.value.resource.tuple == Coerce(x.element, newOf).tuple
      && (s.outcome.value.resource.frozen <==> Coerce(x.element, newOf).frozen || Truthy(s.outcome.value.result))
  {
    var r := Coerce(x.element, newOf);
    var keys := ValuesAt(r.tuple, h.keys);
    if Nil in keys then Step(None, Failure(IncompleteKey(schemeName, inspect, r)))
    else
      match execute(x.pos, keys)
      case Failure(err) => Step(Some(keys), Failure(err))
      case Success(res) => Step(Some(keys), Success(Deleted(res, if Truthy(res) then r.(frozen := true) else r)))
  }

  /** `Adapter#delete`. */
  function Delete(h: Header, newOf: Attrs -> Resource, execute: Execute,
                  schemeName: Bytes, inspect: Resource -> Bytes, resources: Arg): (o: Outcome<Deleted>)
    ensures o == Batch(resources, x => DeleteStep(h, newOf, execute, schemeName, inspect, x))
    ensures forall b :: b in o.executed ==> |b| == |h.keys| && Nil !in b
  {
    var step := x => DeleteStep(h, newOf, execute, schemeName, inspect, x);
    var o := Batch(resources, step);
    forall b | b in o.executed
      ensures |b| == |h.keys| && Nil !in b
    {
      var elems := Numbered(Flatten(resources));
      SentFromSomeStep(elems[..Min(FirstFailure(elems, step) + 1, |elems|)], step, b);
    }
    o
  }

  /** An Array holding each element once, unnested. */
  function Ones(es: seq<Element>): (items: seq<Arg>)
    ensures |items| == |es|
    ensures forall i :: 0 <= i < |es| ==> items[i] == One(es[i])
  {
    seq(|es|, i requires 0 <= i < |es| => One(es[i]))
  }

  /** Flattening elements, one more element and further entries. */
  lemma FlattenAround(done: seq<Element>, bad: Element, rest: seq<Arg>)
    ensures Flatten(Many(Ones(done) + [One(bad)] + rest)) == done + [bad] + FlattenAll(rest)
  {
    FlattenAllAppend(Ones(done) + [One(bad)], rest);
    FlattenAllAppend(Ones(done), [One(bad)]);
    FlattenFlat(done);
    assert Ones(done) == seq(|done|, i requires 0 <= i < |done| => One(done[i]));
  }

  /** A batch whose element `k` raises before executing, after every earlier
      element executed and succeeded, raises that exception having sent
      exactly the earlier elements' lists. */
  lemma StopsAt<E, T>(elems: seq<E>, step: E -> Step<T>, k: nat)
    requires k < |elems| && step(elems[k]).outcome.Failure? && step(elems[k]).executed.None?
    requires forall i :: 0 <= i < k ==> step(elems[i]).outcome.Success? && step(elems[i]).executed.Some?
    ensures var r := MapSteps(elems, step);
      && r.outcome == Failure(step(elems[k]).outcome.error)
      && |r.executed| == k
      && forall i :: 0 <= i < k ==> r.executed[i] == step(elems[i]).executed.value
  {
    FirstFailureAt(elems, step, k);
    assert elems[..k + 1][..k] == elems[..k];
    SentUpTo(elems[..k + 1], step);
    SentEveryStep(elems[..k], step);
  }

  /** An update stops at the first resource with an incomplete key: the
      resources before it were all executed, it and those after were not. */
  lemma UpdateStopsAtIncompleteKey(
    h: Header, newOf: Attrs -> Resource, execute: Execute,
    schemeName: Bytes, inspect: Resource -> Bytes, done: seq<Resource>, bad: Resource, rest: seq<Arg>)
    requires forall i :: 0 <= i < |done| ==> CompleteKey(h, done[i])
    requires forall i :: 0 <= i < |done| ==>
      execute(i, ValuesAt(done[i].tuple, h.updatable) + ValuesAt(done[i].tuple, h.keys)).Success?
    requires !CompleteKey(h, bad)
    ensures var items := seq(|done|, i requires 0 <= i < |done| => One(Instance(done[i]))) + [One(Instance(bad))] + rest;
      var o := Update(h, newOf, execute, schemeName, inspect, Many(items));
      && o.result == Failure(IncompleteKey(schemeName, inspect, bad))
      && |o.executed| == |done|
      && forall i :: 0 <= i < |done| ==>
           o.executed[i] == ValuesAt(done[i].tuple, h.updatable) + ValuesAt(done[i].tuple, h.keys)
  {
    var step := x => UpdateStep(h, newOf, execute, schemeName, inspect, x);
    var doneElems := seq(|done|, i requires 0 <= i < |done| => Instance(done[i]));
    assert Ones(doneElems) == seq(|done|, i requires 0 <= i < |done| => One(Instance(done[i])));
    FlattenAround(doneElems, Instance(bad), rest);
    var items := seq(|done|, i requires 0 <= i < |done| => One(Instance(done[i]))) + [One(Instance(bad))] + rest;
    var elems := Numbered(Flatten(Many(items)));
    assert elems == Numbered(doneElems + [Instance(bad)] + FlattenAll(rest));
    assert elems[|done|] == Entry(|done|, Instance(bad));
    assert step(elems[|done|]) == Step(None, Failure(IncompleteKey(schemeName, inspect, bad)));
    forall i | 0 <= i < |done|
      ensures step(elems[i]).outcome.Success? && step(elems[i]).executed.Some?
      ensures step(elems[i]).executed.value == ValuesAt(done[i].tuple, h.updatable) + ValuesAt(done[i].tuple, h.keys)
    {
      assert elems[i] == Entry(i, Instance(done[i]));
      var bind := step(elems[i]).executed.value;
      assert bind == bind[..|h.updatable|] + bind[|h.updatable|..];
    }
    StopsAt(elems, step, |done|);
  }

  /** The first failure is at `k` when every earlier step succeeds and the
      step at `k` raises. */
  lemma {:induction false} FirstFailureAt<E, T>(elems: seq<E>, step: E -> Step<T>, k: nat)
    requires k < |elems| && step(elems[k]).outcome.Failure?
    requires forall i :: 0 <= i < k ==> step(elems[i]).outcome.Success?
    ensures FirstFailure(elems, step) == k
    decreases k
  {
    if k > 0 {
      FirstFailureAt(elems[1..], step, k - 1);
    }
  }

  /** A step that sends nothing adds nothing at the end of `Sent`. */
  lemma {:induction false} SentUpTo<E, T>(elems: seq<E>, step: E -> Step<T>)
    requires |elems| > 0 && step(elems[|elems| - 1]).executed.None?
    ensures Sent(elems, step) == Sent(elems[..|elems| - 1], step)
    decreases |elems|
  {
    if |elems| > 1 {
      assert elems[1..][..|elems[1..]| - 1] == elems[..|elems| - 1][1..];
      SentUpTo(elems[1..], step);
    }
  }

  // ---------------------------------------------------------------------
  // get
  // ---------------------------------------------------------------------

  /** `Adapter#get`: `scheme.new(keys)`, the prepared get executed with the
      key values, then `first`, the first value `each` yields. The statement
      was prepared with the scheme, so that value is `scheme.load` of the
      first row's Hash; nil when there is no row. `execute` is the
      statement's `execute`, answering the statement with its buffered result
      or raising; `zone` is the `@timezone` it was prepared with, and `fault`
      a driver failure while `each` reads the field names and types. */
  function Get(h: Header, newOf: Attrs -> Resource, execute: seq<HostValue> -> Result<Statements.Statement, Error>,
               load: Statements.Row -> HostValue, zone: HostValue, env: Typecast.TimeEnv, fault: Option<DriverError>, keys: Attrs)
    : (r: Result<HostValue, Error>)
    requires var st := execute(ValuesAt(newOf(keys).tuple, h.keys)); st.Success? ==> st.value.Valid()
    ensures var st := execute(ValuesAt(newOf(keys).tuple, h.keys));
      && (st.Failure? ==> r == Failure(st.error))
      && (st.Success? && fault.Some? ==> r == Failure(Raise("Statment#each", fault.value)))
      && (st.Success? && fault.None? && st.value.result.Rows() == 0 ==> r == Success(Nil))
      && (st.Success? && fault.None? && st.value.result.Rows() > 0 ==>
            r == Success(load(Statements.RowAt(st.value.result, 0, Typecast.ZoneToOffset(zone, env), env))))
  {
    match execute(ValuesAt(newOf(keys).tuple, h.keys))
    case Failure(e) => Failure(e)
    case Success(st) =>
      if fault.Some? then Failure(Raise("Statment#each", fault.value))
      else if st.result.Rows() == 0 then Success(Nil)
      else Success(load(Statements.RowAt(st.result, 0, Typecast.ZoneToOffset(zone, env), env)))
  }

  /** `get` answers what `each` yields first over the executed statement:
      its failure, nil for no row, or the first loaded row. */
  lemma GetIsFirstOfEach(h: Header, newOf: Attrs -> Resource, execute: seq<HostValue> -> Result<Statements.Statement, Error>,
                         load: Statements.Row -> HostValue, zone: HostValue, env: Typecast.TimeEnv, fault: Option<DriverError>, keys: Attrs)
    requires var st := execute(ValuesAt(newOf(keys).tuple, h.keys)); st.Success? ==> st.value.Valid()
    ensures var st := execute(ValuesAt(newOf(keys).tuple, h.keys));
      st.Success? ==>
        var yielded := Statements.Each(st.value, Some(load), zone, env, fault).0;
        Get(h, newOf, execute, load, zone, env, fault, keys) ==
          if yielded.Failure? then Failure(yielded.error)
          else if |yielded.value| == 0 then Success(Nil)
          else Success(yielded.value[0].obj)
  {
  }
}
