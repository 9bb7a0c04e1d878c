/** `Adapter#transaction` (ext/swift.cc:300-324): open a savepoint, yield to
    the caller's block, then commit or roll back according to how the block
    ended and whether the driver still has a transaction open. The driver's
    answers, the block's outcome and the size of the driver's transaction
    stack after the block are parameters; the model answers the sequence of
    events the wrapper causes and what the call returns or raises. */
module Transactions {
  import opened Wrappers
  import opened CTypes
  import opened Errors
  import opened Host

  /** What the wrapper does, in order: the driver calls, and the yield to the
      block between them. */
  datatype Event =
    | Begin(savepoint: Bytes)
    | Yield
    | Commit(savepoint: Bytes)
    | Rollback(savepoint: Bytes)

  /** How the block ended: normally, or by raising or otherwise leaving
      non-locally (`break`, `throw`), which `rb_protect` reports as a
      non-zero status and `rb_jump_tag` resumes. The exception or jump is
      carried by identity. */
  datatype BlockOutcome =
    | Completed
    | Raised(exception: nat)

  datatype Outcome = Outcome(trace: seq<Event>, result: Result<bool, Error>)

  const NO_BLOCK_MESSAGE: string := "Adapter#transaction{} called without a block"

  /** The savepoint's name: "SP" and a fresh compact UUID when none is given,
      otherwise the given name read as a C string. */
  function SavePoint(sp: HostValue, uuid: Bytes, toS: HostValue -> RString): (s: Bytes)
    ensures sp.Nil? ==> |s| >= 2 && s[..2] == Ascii("SP") && s[2..] == uuid
    ensures !sp.Nil? ==> s == CString(sp, toS)
  {
    if sp.Nil? then Ascii("SP") + uuid else CString(sp, toS)
  }

  /** Every driver call in `trace` names savepoint `s`. */
  predicate OnlySavePoint(trace: seq<Event>, s: Bytes) {
    forall i :: 0 <= i < |trace| ==> trace[i].Yield? || trace[i].savepoint == s
  }

  /** `rb_adapter_transaction`. `failure` is the driver's answer to each call:
      a failure, or nothing. */
  function Transaction(
    sp: HostValue, hasBlock: bool, uuid: Bytes, toS: HostValue -> RString,
    outcome: BlockOutcome, depth: nat, failure: Event -> Option<DriverError>): (r: Outcome)
    ensures !hasBlock ==> r == Outcome([], Failure(ArgumentError(Ascii(NO_BLOCK_MESSAGE))))
    ensures hasBlock ==> |r.trace| > 0 && r.trace[0] == Begin(SavePoint(sp, uuid, toS))
    ensures OnlySavePoint(r.trace, SavePoint(sp, uuid, toS))
    ensures Yield in r.trace <==> hasBlock && failure(Begin(SavePoint(sp, uuid, toS))).None?
    ensures (exists i :: 0 <= i < |r.trace| && r.trace[i].Commit?) <==>
      Yield in r.trace && outcome.Completed? && depth > 0
    ensures (exists i :: 0 <= i < |r.trace| && r.trace[i].Rollback?) <==>
      Yield in r.trace && outcome.Raised? && depth > 0
    ensures r.result.Success? ==> r.result.value
    ensures hasBlock && failure(Begin(SavePoint(sp, uuid, toS))).None? && depth > 0 && outcome.Completed? ==>
      var e := failure(Commit(SavePoint(sp, uuid, toS)));
      r.result == if e.Some? then Failure(Raise("Adapter#transaction{}", e.value)) else Success(true)
    ensures hasBlock && failure(Begin(SavePoint(sp, uuid, toS))).None? && depth > 0 && outcome.Raised? ==>
      var e := failure(Rollback(SavePoint(sp, uuid, toS)));
      r.result == if e.Some? then Failure(Raise("Adapter#transaction{}", e.value)) else Failure(BlockError(outcome.exception))
  {
    if !hasBlock then Outcome([], Failure(ArgumentError(Ascii(NO_BLOCK_MESSAGE))))
    else
      var s := SavePoint(sp, uuid, toS);
      match failure(Begin(s))
      case Some(e) => Outcome([Begin(s)], Failure(Raise("Adapter#transaction{}", e)))
      case None =>
        if outcome.Completed? && depth > 0 then
          var trace := [Begin(s), Yield, Commit(s)];
          assert trace[2].Commit?;
          match failure(Commit(s))
          case Some(e) => Outcome(trace, Failure(Raise("Adapter#transaction{}", e)))
          case None => Outcome(trace, Success(true))
        else if outcome.Raised? && depth > 0 then
          var trace := [Begin(s), Yield, Rollback(s)];
          assert trace[2].Rollback?;
          match failure(Rollback(s))
          case Some(e) => Outcome(trace, Failure(Raise("Adapter#transaction{}", e)))
          case None => Outcome(trace, Failure(BlockError(outcome.exception)))
        else
          Outcome([Begin(s), Yield], Success(true))
  }

  /** A transaction never both commits and rolls back, and never finishes
      twice. */
  lemma FinishesAtMostOnce(
    sp: HostValue, hasBlock: bool, uuid: Bytes, toS: HostValue -> RString,
    outcome: BlockOutcome, depth: nat, failure: Event -> Option<DriverError>)
    ensures var t := Transaction(sp, hasBlock, uuid, toS, outcome, depth, failure).trace;
      forall i, j :: 0 <= i < j < |t| && !t[i].Begin? && !t[i].Yield? ==> !t[j].Commit? && !t[j].Rollback?
  {
  }

  /** The block's exception is raised again after a successful rollback, and
      the call succeeds after a successful commit. */
  lemma BlockOutcomeDecides(
    sp: HostValue, uuid: Bytes, toS: HostValue -> RString,
    outcome: BlockOutcome, depth: nat, failure: Event -> Option<DriverError>)
    requires depth > 0
    requires forall ev :: failure(ev).None?
    ensures var r := Transaction(sp, true, uuid, toS, outcome, depth, failure);
      && (outcome.Completed? ==> r.result == Success(true))
      && (outcome.Raised? ==> r.result == Failure(BlockError(outcome.exception)))
  {
  }

  /** When the block raised but the driver's transaction stack is already
      empty, the wrapper neither commits nor rolls back, and the block's
      exception is dropped: the call answers true. */
  lemma EmptyStackSwallowsError(
    sp: HostValue, uuid: Bytes, toS: HostValue -> RString,
    exception: nat, failure: Event -> Option<DriverError>)
    requires failure(Begin(SavePoint(sp, uuid, toS))).None?
    ensures var s := SavePoint(sp, uuid, toS);
      Transaction(sp, true, uuid, toS, Raised(exception), 0, failure) == Outcome([Begin(s), Yield], Success(true))
  {
  }

  /** A failing `begin` is raised under "Adapter#transaction{}" and the block
      never runs. */
  lemma FailedBeginSkipsBlock(
    sp: HostValue, uuid: Bytes, toS: HostValue -> RString,
    outcome: BlockOutcome, depth: nat, failure: Event -> Option<DriverError>)
    requires failure(Begin(SavePoint(sp, uuid, toS))).Some?
    ensures var r := Transaction(sp, true, uuid, toS, outcome, depth, failure);
      && r.trace == [Begin(SavePoint(sp, uuid, toS))]
      && r.result == Failure(Raise("Adapter#transaction{}", failure(Begin(SavePoint(sp, uuid, toS))).value))
  {
  }

  /** A rollback that fails is raised under "Adapter#transaction{}" before
      `rb_jump_tag` is reached, so the block's own exception is lost. */
  lemma FailedRollbackDropsBlockError(
    sp: HostValue, uuid: Bytes, toS: HostValue -> RString,
    exception: nat, depth: nat, failure: Event -> Option<DriverError>)
    requires depth > 0
    requires failure(Begin(SavePoint(sp, uuid, toS))).None?
    requires failure(Rollback(SavePoint(sp, uuid, toS))).Some?
    ensures var r := Transaction(sp, true, uuid, toS, Raised(exception), depth, failure);
      && r.result == Failure(Raise("Adapter#transaction{}", failure(Rollback(SavePoint(sp, uuid, toS))).value))
      && r.result != Failure(BlockError(exception))
  {
  }
}
