/**
 * What every run of a protected region satisfies, proved about the traces
 * that `RunRegion` produces (`WellFormed`): the order in which the clauses
 * of src/exception.h:61-110 run, what they see, and how control leaves.
 */
module RegionProperties {

  import opened Wrappers
  import opened Exceptions
  import opened Contexts
  import opened TryBlock

  /** Each event after the first is the step that `Next` predicts from the one before. */
  lemma Follows<V>(r: Region, runs: seq<Outcome<V>>, trace: seq<Event<V>>, i: nat)
    requires Linked(r, runs, trace) && 0 < i < |trace|
    ensures Next(r, trace[i - 1]) == Some(Step(trace[i].clause, trace[i].view))
  {
    var j := i - 1;
    assert j + 1 == i;
    assert Next(r, trace[j]) == Some(Step(trace[j + 1].clause, trace[j + 1].view));
  }

  /** The last event of a complete run is the only one after which control leaves. */
  lemma OnlyLastExits<V>(r: Region, runs: seq<Outcome<V>>, trace: seq<Event<V>>, belowEmpty: bool, res: RegionResult<V>, i: nat)
    requires WellFormed(r, runs, trace, belowEmpty, res) && i < |trace|
    requires Next(r, trace[i]).None?
    ensures i == |trace| - 1
  {
    if i < |trace| - 1 {
      Follows(r, runs, trace, i + 1);
      assert false;
    }
  }

  /**
   * The body runs first, on a frame with status NoException and `inFinally`
   * clear, and never again: the status `TryBlockInto` is seen only by the
   * direct return of `setjmp`.
   */
  lemma BodyRunsOnlyFirst<V>(r: Region, runs: seq<Outcome<V>>, trace: seq<Event<V>>)
    requires Linked(r, runs, trace)
    ensures trace[0].clause == Body && trace[0].view.status == NoException && !trace[0].view.inFinally
    ensures trace[0].view.exception == None && trace[0].outcome == OutcomeAt(runs, 0)
    ensures forall i :: 0 < i < |trace| ==> trace[i].clause != Body
  {
    forall i | 0 < i < |trace|
      ensures trace[i].clause != Body
    {
      Follows(r, runs, trace, i);
    }
  }

  /**
   * A `CATCH` clause runs only right after a throw that did not come from an
   * early return's landing, and it is the first clause, in declaration order,
   * whose type the instance matches; it sees status ExceptionCapture and the
   * thrown instance.
   */
  lemma HandlerIsFirstMatch<V>(r: Region, runs: seq<Outcome<V>>, trace: seq<Event<V>>, i: nat, k: nat)
    requires Linked(r, runs, trace) && i < |trace| && trace[i].clause == Handler(k)
    ensures 0 < i && trace[i - 1].outcome.Throw? && trace[i - 1].view.returning == None
    ensures k < |r.handlers| && Matches(trace[i - 1].outcome.e, r.handlers[k])
    ensures forall j :: 0 <= j < k ==> !Matches(trace[i - 1].outcome.e, r.handlers[j])
    ensures trace[i].view == View(ExceptionCapture, trace[i - 1].view.inFinally, Some(trace[i - 1].outcome.e), None)
  {
    BodyRunsOnlyFirst(r, runs, trace);
    Follows(r, runs, trace, i);
    FirstMatchIsFirst(r.handlers, trace[i - 1].outcome.e);
  }

  /**
   * After a throw outside an early return, whichever clause threw, the next
   * landing searches this region's handlers again: the first match runs; with
   * none, FINALLY runs with status ExceptionOccurred, or the exception leaves.
   */
  lemma ThrowSearchesHandlers<V>(r: Region, runs: seq<Outcome<V>>, trace: seq<Event<V>>, belowEmpty: bool,
                                 res: RegionResult<V>, i: nat, e: ExceptionInstance)
    requires WellFormed(r, runs, trace, belowEmpty, res) && i < |trace|
    requires trace[i].outcome == Throw(e) && trace[i].view.returning == None
    ensures match FirstMatch(r.handlers, e)
            case Some(k) => i + 1 < |trace| && trace[i + 1].clause == Handler(k)
                            && trace[i + 1].view == View(ExceptionCapture, trace[i].view.inFinally, Some(e), None)
            case None =>
              if r.hasFinally then
                i + 1 < |trace| && trace[i + 1].clause == Finally
                && trace[i + 1].view == View(ExceptionOccurred, true, Some(e), None)
              else i == |trace| - 1 && res == Escape(e, belowEmpty)
  {
    if i < |trace| - 1 {
      Follows(r, runs, trace, i + 1);
    }
  }

  /**
   * `PASSED` runs exactly when it is written and the body finished normally,
   * and then it is the second event: never after a throw, a catch or an early
   * return. It sees status NoException and `inFinally` clear.
   */
  lemma PassedRunsIff<V>(r: Region, runs: seq<Outcome<V>>, trace: seq<Event<V>>, belowEmpty: bool, res: RegionResult<V>)
    requires WellFormed(r, runs, trace, belowEmpty, res)
    ensures (exists i :: 0 <= i < |trace| && trace[i].clause == Passed) <==> r.hasPassed && trace[0].outcome.Normal?
    ensures forall i :: 0 <= i < |trace| && trace[i].clause == Passed ==>
              i == 1 && trace[i].view.status == NoException && !trace[i].view.inFinally
  {
    BodyRunsOnlyFirst(r, runs, trace);
    forall i | 0 <= i < |trace| && trace[i].clause == Passed
      ensures i == 1 && trace[i].view.status == NoException && !trace[i].view.inFinally
    {
      Follows(r, runs, trace, i);
    }
    if r.hasPassed && trace[0].outcome.Normal? {
      assert |trace| > 1;
      Follows(r, runs, trace, 1);
      assert trace[1].clause == Passed;
    }
  }

  /** A clause that sees `inFinally` set runs in FINALLY, or after a FINALLY run. */
  lemma {:induction false} InFinallyFollowsFinally<V>(r: Region, runs: seq<Outcome<V>>, trace: seq<Event<V>>, i: nat)
    requires Linked(r, runs, trace) && i < |trace| && trace[i].view.inFinally
    ensures exists j :: 0 <= j <= i && trace[j].clause == Finally
    decreases i
  {
    if trace[i].clause != Finally {
      BodyRunsOnlyFirst(r, runs, trace);
      Follows(r, runs, trace, i);
      InFinallyFollowsFinally(r, runs, trace, i - 1);
      var j :| 0 <= j <= i - 1 && trace[j].clause == Finally;
      assert 0 <= j <= i && trace[j].clause == Finally;
    }
  }

  /**
   * When the region has a FINALLY clause, every complete run passes through
   * it, and FINALLY always runs with `inFinally` set.
   */
  lemma FinallyAlwaysRuns<V>(r: Region, runs: seq<Outcome<V>>, trace: seq<Event<V>>, belowEmpty: bool, res: RegionResult<V>)
    requires WellFormed(r, runs, trace, belowEmpty, res)
    ensures r.hasFinally ==> exists j :: 0 <= j < |trace| && trace[j].clause == Finally
    ensures forall j :: 0 <= j < |trace| && trace[j].clause == Finally ==> trace[j].view.inFinally
  {
    BodyRunsOnlyFirst(r, runs, trace);
    forall j | 0 <= j < |trace| && trace[j].clause == Finally
      ensures trace[j].view.inFinally
    {
      Follows(r, runs, trace, j);
    }
    var n := |trace| - 1;
    if r.hasFinally && trace[n].clause != Finally {
      // Only a return from a clause that sees inFinally set leaves without FINALLY.
      assert trace[n].outcome.Return? && trace[n].view.inFinally;
      InFinallyFollowsFinally(r, runs, trace, n);
    }
  }

  /**
   * When no run of FINALLY throws, FINALLY runs exactly once, as the last
   * event of the region (a FINALLY that executes `RETURN_IN_TRY` returns).
   */
  lemma FinallyRunsOnce<V>(r: Region, runs: seq<Outcome<V>>, trace: seq<Event<V>>, belowEmpty: bool, res: RegionResult<V>)
    requires WellFormed(r, runs, trace, belowEmpty, res) && r.hasFinally
    requires forall j :: 0 <= j < |trace| && trace[j].clause == Finally ==> !trace[j].outcome.Throw?
    ensures trace[|trace| - 1].clause == Finally
    ensures forall j :: 0 <= j < |trace| - 1 ==> trace[j].clause != Finally
  {
    FinallyAlwaysRuns(r, runs, trace, belowEmpty, res);
    var j :| 0 <= j < |trace| && trace[j].clause == Finally;
    OnlyLastExits(r, runs, trace, belowEmpty, res, j);
    forall i | 0 <= i < |trace| - 1
      ensures trace[i].clause != Finally
    {
      if trace[i].clause == Finally {
        OnlyLastExits(r, runs, trace, belowEmpty, res, i);
      }
    }
  }

  /**
   * `RETURN_IN_TRY(v)` in a clause that sees `inFinally` set pops the frame
   * and returns `v` at once: nothing of the region runs after it.
   */
  lemma ReturnInFinallyReturnsAtOnce<V>(r: Region, runs: seq<Outcome<V>>, trace: seq<Event<V>>, belowEmpty: bool,
                                        res: RegionResult<V>, i: nat, v: V)
    requires WellFormed(r, runs, trace, belowEmpty, res) && i < |trace|
    requires trace[i].outcome == Return(v) && trace[i].view.inFinally
    ensures i == |trace| - 1 && res == Returned(v)
  {
    OnlyLastExits(r, runs, trace, belowEmpty, res, i);
  }

  /**
   * After `RETURN_IN_TRY(v)` outside FINALLY, every later event is a run of
   * FINALLY that sees status Interrupted, `inFinally` set and the pending
   * return of `v`: the handlers and `PASSED` are skipped.
   */
  lemma {:induction false} AfterEarlyReturn<V>(r: Region, runs: seq<Outcome<V>>, trace: seq<Event<V>>, i: nat, v: V, j: nat)
    requires Linked(r, runs, trace) && i < j < |trace|
    requires trace[i].outcome == Return(v) && !trace[i].view.inFinally
    ensures r.hasFinally && trace[j].clause == Finally
    ensures trace[j].view.status == Interrupted && trace[j].view.inFinally && trace[j].view.returning == Some(v)
    decreases j
  {
    Follows(r, runs, trace, j);
    if j > i + 1 {
      AfterEarlyReturn(r, runs, trace, i, v, j - 1);
    }
  }

  /**
   * A region left through `RETURN_IN_TRY(v)` outside FINALLY returns from
   * the function: with `v` unless a later FINALLY run returns a value of its
   * own, and straight away when there is no FINALLY clause.
   */
  lemma EarlyReturnResult<V>(r: Region, runs: seq<Outcome<V>>, trace: seq<Event<V>>, belowEmpty: bool,
                             res: RegionResult<V>, i: nat, v: V)
    requires WellFormed(r, runs, trace, belowEmpty, res) && i < |trace|
    requires trace[i].outcome == Return(v) && !trace[i].view.inFinally
    ensures res.Returned?
    ensures (forall j :: i < j < |trace| ==> !trace[j].outcome.Return?) ==> res == Returned(v)
    ensures !r.hasFinally ==> i == |trace| - 1 && res == Returned(v)
  {
    var n := |trace| - 1;
    if i < n {
      AfterEarlyReturn(r, runs, trace, i, v, n);
    }
  }

  /**
   * The status ExceptionOccurred is seen only by FINALLY, right after a throw
   * that no handler of the region matches, with that exception in the frame.
   */
  lemma {:induction false} OccurredFollowsUnmatchedThrow<V>(r: Region, runs: seq<Outcome<V>>, trace: seq<Event<V>>, i: nat)
    requires Linked(r, runs, trace) && i < |trace| && trace[i].view.status == ExceptionOccurred
    ensures 0 < i && trace[i].clause == Finally && trace[i - 1].outcome.Throw?
    ensures trace[i].view.exception == Some(trace[i - 1].outcome.e)
    ensures FirstMatch(r.handlers, trace[i - 1].outcome.e) == None
    decreases i
  {
    BodyRunsOnlyFirst(r, runs, trace);
    Follows(r, runs, trace, i);
    if trace[i - 1].outcome.Normal? {
      OccurredFollowsUnmatchedThrow(r, runs, trace, i - 1);
      assert false;
    }
  }

  /**
   * An exception that leaves the region, to the enclosing frame or to the
   * abort, was thrown by one of its clauses and matches none of its
   * handlers; it aborts exactly when no frame is left below.
   */
  lemma EscapedWasUnmatched<V>(r: Region, runs: seq<Outcome<V>>, trace: seq<Event<V>>, belowEmpty: bool, res: RegionResult<V>)
    requires WellFormed(r, runs, trace, belowEmpty, res) && (res.Propagated? || res.Uncaught?)
    ensures res == Escape(res.e, belowEmpty)
    ensures exists j :: 0 <= j < |trace| && trace[j].outcome == Throw(res.e)
    ensures forall k :: 0 <= k < |r.handlers| ==> !Matches(res.e, r.handlers[k])
  {
    var n := |trace| - 1;
    var a := trace[n];
    if a.outcome.Normal? {
      OccurredFollowsUnmatchedThrow(r, runs, trace, n);
      assert trace[n - 1].outcome == Throw(res.e);
    } else {
      assert a.outcome == Throw(res.e);
    }
    FirstMatchIsFirst(r.handlers, res.e);
  }

  /** Two linked runs of the same region and script agree wherever both are defined. */
  lemma {:induction false} LinkedRunsAgree<V>(r: Region, runs: seq<Outcome<V>>, t1: seq<Event<V>>, t2: seq<Event<V>>, i: nat)
    requires Linked(r, runs, t1) && Linked(r, runs, t2) && i < |t1| && i < |t2|
    ensures t1[i] == t2[i]
    decreases i
  {
    if i > 0 {
      LinkedRunsAgree(r, runs, t1, t2, i - 1);
      Follows(r, runs, t1, i);
      Follows(r, runs, t2, i);
    }
  }

  /** The script determines the run: one trace and one result. */
  lemma RunIsDetermined<V>(r: Region, runs: seq<Outcome<V>>, t1: seq<Event<V>>, t2: seq<Event<V>>,
                           belowEmpty: bool, res1: RegionResult<V>, res2: RegionResult<V>)
    requires WellFormed(r, runs, t1, belowEmpty, res1) && WellFormed(r, runs, t2, belowEmpty, res2)
    ensures t1 == t2 && res1 == res2
  {
    forall i | 0 <= i < |t1| && i < |t2|
      ensures t1[i] == t2[i]
    {
      LinkedRunsAgree(r, runs, t1, t2, i);
    }
    if |t1| < |t2| {
      OnlyLastExits(r, runs, t2, belowEmpty, res2, |t1| - 1);
    } else if |t2| < |t1| {
      OnlyLastExits(r, runs, t1, belowEmpty, res1, |t2| - 1);
    }
  }
}
