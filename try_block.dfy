/**
 * The protected region that the `TRY`, `CATCH`, `PASSED`, `FINALLY`,
 * `END_TRY` and `RETURN_IN_TRY` macros expand to (src/exception.h:61-110).
 *
 * `setjmp`/`longjmp` are replaced by a loop: each iteration is one landing at
 * the frame's checkpoint, carrying the value the jump passed (a `Status`).
 * What the body and the clauses do is abstracted to their outcome: they
 * finish normally, throw an exception, or execute `RETURN_IN_TRY(v)`.
 */
module TryBlock {

  import opened Wrappers
  import opened Exceptions
  import opened Contexts

  /** How a body or clause ends: normally, by `exceptionThrow`, or by `RETURN_IN_TRY`. */
  datatype Outcome<V> = Normal | Throw(e: ExceptionInstance) | Return(v: V)

  /** The parts of a region whose code can run; `Handler(k)` is the k-th `CATCH`. */
  datatype Clause = Body | Handler(index: nat) | Passed | Finally

  /** The shape of a region: the types of its `CATCH` clauses in order, and whether `PASSED` and `FINALLY` are written. */
  datatype Region = Region(handlers: seq<ExceptionType>, hasPassed: bool, hasFinally: bool)

  /**
   * The frame as a clause sees it when it starts. `returning` is `Some(v)`
   * exactly when the snapshot was refilled by `RETURN_IN_TRY` for `return v`.
   */
  datatype View<V> = View(status: Status, inFinally: bool, exception: Option<ExceptionInstance>, returning: Option<V>)

  /** One run of a clause: what it saw and how it ended. */
  datatype Event<V> = Ran(clause: Clause, view: View<V>, outcome: Outcome<V>)

  /** The clause that runs next and the frame it sees. */
  datatype Step<V> = Step(clause: Clause, view: View<V>)

  /**
   * How control leaves the region: falling through `END_TRY`, re-throwing to
   * the enclosing frame, aborting (no frame left), or returning from the function.
   */
  datatype RegionResult<V> = Completed | Propagated(e: ExceptionInstance) | Uncaught(e: ExceptionInstance) | Returned(value: V)

  /** The i-th run of a clause ends as `runs[i]`; every run past the script ends normally. */
  function OutcomeAt<V>(runs: seq<Outcome<V>>, i: nat): (out: Outcome<V>)
  {
    if i < |runs| then runs[i] else Normal
  }

  // ---------------------------------------------------------------------------
  // The chain of CATCH clauses (src/exception.h:69-72)
  // ---------------------------------------------------------------------------

  /** The first handler at or after position `i` that the instance matches. */
  function FirstMatchFrom(handlers: seq<ExceptionType>, e: ExceptionInstance, i: nat): (k: Option<nat>)
    decreases |handlers| - i
  {
    if i >= |handlers| then None
    else if Matches(e, handlers[i]) then Some(i)
    else FirstMatchFrom(handlers, e, i + 1)
  }

  /** The handler the `else if` chain selects for an instance. */
  function FirstMatch(handlers: seq<ExceptionType>, e: ExceptionInstance): (k: Option<nat>)
  {
    FirstMatchFrom(handlers, e, 0)
  }

  lemma {:induction false} FirstMatchFromIsFirst(handlers: seq<ExceptionType>, e: ExceptionInstance, i: nat)
    requires i <= |handlers|
    ensures match FirstMatchFrom(handlers, e, i)
            case Some(k) => i <= k < |handlers| && Matches(e, handlers[k])
                            && forall j :: i <= j < k ==> !Matches(e, handlers[j])
            case None => forall j :: i <= j < |handlers| ==> !Matches(e, handlers[j])
    decreases |handlers| - i
  {
    if i < |handlers| && !Matches(e, handlers[i]) {
      FirstMatchFromIsFirst(handlers, e, i + 1);
    }
  }

  /**
   * The selected handler is one the instance matches and no earlier handler
   * matches; no handler is selected only when none matches.
   */
  lemma FirstMatchIsFirst(handlers: seq<ExceptionType>, e: ExceptionInstance)
    ensures match FirstMatch(handlers, e)
            case Some(k) => k < |handlers| && Matches(e, handlers[k])
                            && forall j :: 0 <= j < k ==> !Matches(e, handlers[j])
            case None => forall j :: 0 <= j < |handlers| ==> !Matches(e, handlers[j])
  {
    FirstMatchFromIsFirst(handlers, e, 0);
  }

  /** The `else if` chain: call `exceptionInstanceOf` on each handler type in order. */
  method SelectHandler(handlers: seq<ExceptionType>, e: ExceptionInstance) returns (k: Option<nat>)
    ensures k == FirstMatch(handlers, e)
  {
    var i := 0;
    while i < |handlers|
      invariant 0 <= i <= |handlers|
      invariant FirstMatch(handlers, e) == FirstMatchFrom(handlers, e, i)
    {
      var b := InstanceOf(e, handlers[i]);
      if b {
        return Some(i);
      }
      i := i + 1;
    }
    return None;
  }

  // ---------------------------------------------------------------------------
  // What runs after what (src/exception.h:61-110)
  // ---------------------------------------------------------------------------

  /**
   * The clause that runs after event `a`, and the frame it sees, or `None`
   * when control leaves the region after `a`.
   */
  function Next<V>(r: Region, a: Event<V>): (step: Option<Step<V>>)
  {
    match a.outcome
    case Normal =>
      // The code after the clause: PASSED if the status is still NoException, then FINALLY.
      if a.clause == Body && r.hasPassed then Some(Step(Passed, a.view.(inFinally := false)))
      else if a.clause != Finally && r.hasFinally then Some(Step(Finally, a.view.(inFinally := true)))
      else None
    case Throw(e) =>
      if a.view.returning.Some? then
        // The jump lands in RETURN_IN_TRY's setjmp, which goes back to TRY with Interrupted.
        if r.hasFinally then Some(Step(Finally, a.view.(status := Interrupted, inFinally := true, exception := Some(e))))
        else None
      else
        (match FirstMatch(r.handlers, e)
         case Some(k) => Some(Step(Handler(k), View(ExceptionCapture, a.view.inFinally, Some(e), None)))
         case None =>
           if r.hasFinally then Some(Step(Finally, View(ExceptionOccurred, true, Some(e), None)))
           else None)
    case Return(v) =>
      if a.view.inFinally then None
      else if r.hasFinally then Some(Step(Finally, a.view.(status := Interrupted, inFinally := true, returning := Some(v))))
      else None
  }

  /** `END_TRY`'s re-throw after the pop: abort when no frame is left, else go to the new head. */
  function Escape<V>(e: ExceptionInstance, belowEmpty: bool): (res: RegionResult<V>)
  {
    if belowEmpty then Uncaught(e) else Propagated(e)
  }

  /**
   * `END_TRY` after the pop, on the frame's status, exception and pending
   * return: `None` for a state in which the C code would read a NULL exception
   * or jump to a snapshot that `RETURN_IN_TRY` never filled.
   */
  function EndTry<V>(status: Status, exception: Option<ExceptionInstance>, pending: Option<V>, belowEmpty: bool): (res: Option<RegionResult<V>>)
  {
    match status
    case Interrupted => if pending.Some? then Some(Returned(pending.value)) else None
    case ExceptionOccurred => if exception.Some? then Some(Escape(exception.value, belowEmpty)) else None
    case _ => Some(Completed)
  }

  /** The result of the region when control leaves it after `a`. */
  function ExitResult<V>(a: Event<V>, belowEmpty: bool): (res: Option<RegionResult<V>>)
  {
    match a.outcome
    case Return(v) => Some(Returned(v))
    case Throw(e) =>
      if a.view.returning.Some? then Some(Returned(a.view.returning.value)) else Some(Escape(e, belowEmpty))
    case Normal => EndTry(a.view.status, a.view.exception, a.view.returning, belowEmpty)
  }

  /** Control leaves the region after `a`, with result `res`. */
  ghost predicate Exits<V>(r: Region, a: Event<V>, belowEmpty: bool, res: RegionResult<V>)
  {
    Next(r, a).None? && ExitResult(a, belowEmpty) == Some(res)
  }

  /** The frame the body sees: freshly pushed, status set to NoException. */
  function BodyView<V>(): (view: View<V>)
  {
    View(NoException, false, None, None)
  }

  /** `trace` is a run of region `r` so far: it starts with the body and each event follows the one before. */
  ghost predicate Linked<V>(r: Region, runs: seq<Outcome<V>>, trace: seq<Event<V>>)
  {
    |trace| > 0 && trace[0].clause == Body && trace[0].view == BodyView() &&
    (forall i :: 0 <= i < |trace| ==> trace[i].outcome == OutcomeAt(runs, i)) &&
    (forall i :: 0 <= i < |trace| - 1 ==> Next(r, trace[i]) == Some(Step(trace[i + 1].clause, trace[i + 1].view)))
  }

  /** `trace` is a complete run of region `r` that leaves it with `res`. */
  ghost predicate WellFormed<V>(r: Region, runs: seq<Outcome<V>>, trace: seq<Event<V>>, belowEmpty: bool, res: RegionResult<V>)
  {
    Linked(r, runs, trace) && Exits(r, trace[|trace| - 1], belowEmpty, res)
  }

  /** Appending the step Next predicts, with the scripted outcome, keeps a run linked. */
  lemma LinkedAppend<V>(r: Region, runs: seq<Outcome<V>>, trace: seq<Event<V>>, ev: Event<V>)
    requires Linked(r, runs, trace)
    requires Next(r, trace[|trace| - 1]) == Some(Step(ev.clause, ev.view))
    requires ev.outcome == OutcomeAt(runs, |trace|)
    ensures Linked(r, runs, trace + [ev])
  {
    var t := trace + [ev];
    assert forall i :: 0 <= i < |trace| ==> t[i] == trace[i];
  }

  // ---------------------------------------------------------------------------
  // The region, pass by pass
  // ---------------------------------------------------------------------------

  /** The state in which a landing at the frame's checkpoint may begin. */
  ghost predicate Ready<V>(r: Region, runs: seq<Outcome<V>>, trace: seq<Event<V>>, signal: Status,
                           exception: Option<ExceptionInstance>, inFinally: bool, pending: Option<V>)
  {
    if trace == [] then signal == Into && pending == None && exception == None && !inFinally
    else (
      Linked(r, runs, trace) &&
      var a := trace[|trace| - 1];
      match a.outcome
      case Throw(e) =>
        signal == ExceptionOccurred && exception == Some(e) && inFinally == a.view.inFinally && pending == a.view.returning
      case Return(v) =>
        !a.view.inFinally && !inFinally && signal == Interrupted && pending == Some(v) && exception == a.view.exception
      case Normal => false)
  }

  /** The frame as a clause starting now would see it. */
  function ViewOf<V>(f: Frame, pending: Option<V>): (view: View<V>)
    reads f
  {
    View(f.status, f.inFinally, f.exception, pending)
  }

  /**
   * Control is at `PASSED` (src/exception.h:74-77) or, with `passed` false,
   * at `FINALLY` (src/exception.h:79-82), and what runs from here on is what
   * `Next` says comes after the last event; `st` is the frame now.
   */
  ghost predicate Poised<V>(r: Region, runs: seq<Outcome<V>>, trace: seq<Event<V>>, st: View<V>, passed: bool, belowEmpty: bool)
  {
    Linked(r, runs, trace) && EndTry(st.status, st.exception, st.returning, belowEmpty).Some? &&
    var first :=
      if passed && r.hasPassed && st.status == NoException then Some(Step(Passed, st.(inFinally := false)))
      else if r.hasFinally then Some(Step(Finally, st.(inFinally := true)))
      else None;
    Next(r, trace[|trace| - 1]) == first &&
    (first == None ==> ExitResult(trace[|trace| - 1], belowEmpty) == EndTry(st.status, st.exception, st.returning, belowEmpty))
  }

  /** How a pass through the code after the landing ended, given the run so far. */
  ghost predicate Ended<V>(r: Region, runs: seq<Outcome<V>>, before: seq<Event<V>>, trace: seq<Event<V>>,
                           out: Outcome<V>, st: View<V>, belowEmpty: bool)
  {
    Linked(r, runs, trace) && |before| <= |trace| && trace[..|before|] == before &&
    if out.Normal? then
      Next(r, trace[|trace| - 1]) == None &&
      ExitResult(trace[|trace| - 1], belowEmpty).Some? &&
      ExitResult(trace[|trace| - 1], belowEmpty) == EndTry(st.status, st.exception, st.returning, belowEmpty)
    else
      |before| < |trace| <= |runs| && trace[|trace| - 1] == Ran(trace[|trace| - 1].clause, st, out)
  }

  /**
   * The landing and the `if`/`else if` chain (src/exception.h:65-72): the status
   * takes the value the jump carried; on the first entry the body runs, after a
   * throw the first matching handler runs.
   */
  method Land<V>(ctx: Frame, r: Region, runs: seq<Outcome<V>>, trace: seq<Event<V>>, signal: Status, pending: Option<V>, ghost belowEmpty: bool)
    returns (out: Outcome<V>, trace': seq<Event<V>>)
    requires Ready(r, runs, trace, signal, ctx.exception, ctx.inFinally, pending)
    requires (ctx.snapshot == AtReturn) == pending.Some?
    modifies ctx`status
    ensures out.Normal? ==> |trace| <= |trace'| && trace'[..|trace|] == trace && Poised(r, runs, trace', ViewOf(ctx, pending), true, belowEmpty)
    ensures !out.Normal? ==> Ended(r, runs, trace, trace', out, ViewOf(ctx, pending), belowEmpty)
  {
    var landed := signal;
    if ctx.snapshot == AtReturn {
      // RETURN_IN_TRY's setjmp returned something other than FunctionReturn:
      // it jumps on to the TRY snapshot it saved, with Interrupted.
      landed := Interrupted;
    }
    ctx.status := landed;
    out := Normal;
    trace' := trace;
    if ctx.status == Into {
      ctx.status := NoException;
      out := OutcomeAt(runs, 0);
      trace' := [Ran(Body, ViewOf(ctx, pending), out)];
    } else if ctx.status == ExceptionOccurred {
      var k := SelectHandler(r.handlers, ctx.exception.value);
      if k.Some? {
        ctx.status := ExceptionCapture;
        out := OutcomeAt(runs, |trace|);
        var ev := Ran(Handler(k.value), ViewOf(ctx, pending), out);
        LinkedAppend(r, runs, trace, ev);
        trace' := trace + [ev];
      }
    }
  }

  /** `PASSED` (src/exception.h:74-77): clear `inFinally`; run the clause if the status is still NoException. */
  method PassedSection<V>(ctx: Frame, r: Region, runs: seq<Outcome<V>>, trace: seq<Event<V>>, pending: Option<V>, ghost belowEmpty: bool)
    returns (out: Outcome<V>, trace': seq<Event<V>>)
    requires Poised(r, runs, trace, ViewOf(ctx, pending), true, belowEmpty)
    modifies ctx`inFinally
    ensures r.hasPassed ==> !ctx.inFinally
    ensures out.Normal? ==> |trace| <= |trace'| && trace'[..|trace|] == trace && Poised(r, runs, trace', ViewOf(ctx, pending), false, belowEmpty)
    ensures !out.Normal? ==> Ended(r, runs, trace, trace', out, ViewOf(ctx, pending), belowEmpty)
  {
    out := Normal;
    trace' := trace;
    if r.hasPassed {
      ctx.inFinally := false;
      if ctx.status == NoException {
        out := OutcomeAt(runs, |trace|);
        var ev := Ran(Passed, ViewOf(ctx, pending), out);
        LinkedAppend(r, runs, trace, ev);
        trace' := trace + [ev];
      }
    }
  }

  /** `FINALLY` (src/exception.h:79-82): set `inFinally`, run the clause. */
  method FinallySection<V>(ctx: Frame, r: Region, runs: seq<Outcome<V>>, trace: seq<Event<V>>, pending: Option<V>, ghost belowEmpty: bool)
    returns (out: Outcome<V>, trace': seq<Event<V>>)
    requires Poised(r, runs, trace, ViewOf(ctx, pending), false, belowEmpty)
    modifies ctx`inFinally
    ensures Ended(r, runs, trace, trace', out, ViewOf(ctx, pending), belowEmpty)
    ensures r.hasFinally ==> ctx.inFinally
    ensures !r.hasFinally ==> ctx.inFinally == old(ctx.inFinally)
  {
    out := Normal;
    trace' := trace;
    if r.hasFinally {
      ctx.inFinally := true;
      out := OutcomeAt(runs, |trace|);
      var ev := Ran(Finally, ViewOf(ctx, pending), out);
      LinkedAppend(r, runs, trace, ev);
      trace' := trace + [ev];
    }
  }

  /** One landing at the checkpoint, up to `END_TRY` or to the next jump. */
  method Pass<V>(ctx: Frame, r: Region, runs: seq<Outcome<V>>, trace: seq<Event<V>>, signal: Status, pending: Option<V>, ghost belowEmpty: bool)
    returns (out: Outcome<V>, trace': seq<Event<V>>)
    requires Ready(r, runs, trace, signal, ctx.exception, ctx.inFinally, pending)
    requires (ctx.snapshot == AtReturn) == pending.Some?
    modifies ctx`status, ctx`inFinally
    ensures Ended(r, runs, trace, trace', out, ViewOf(ctx, pending), belowEmpty)
  {
    out, trace' := Land(ctx, r, runs, trace, signal, pending, belowEmpty);
    if out.Normal? {
      var mid := trace';
      out, trace' := PassedSection(ctx, r, runs, trace', pending, belowEmpty);
      if out.Normal? {
        var mid2 := trace';
        out, trace' := FinallySection(ctx, r, runs, trace', pending, belowEmpty);
        assert trace'[..|mid2|] == mid2;
      }
      assert trace'[..|mid|] == mid;
      assert trace'[..|trace|] == trace;
    }
  }

  /**
   * `END_TRY` (src/exception.h:84-94): pop the frame, then return from the
   * function after an early return, re-throw an exception no handler took, or
   * fall through.
   */
  method Retire<V>(stack: ContextStack, ctx: Frame, pending: Option<V>) returns (res: RegionResult<V>)
    requires stack.Valid() && stack.frames != [] && stack.frames[0] == ctx
    requires EndTry(ctx.status, ctx.exception, pending, |stack.frames| == 1).Some?
    modifies stack, stack.frames`exception
    ensures stack.Valid() && stack.frames == old(stack.frames)[1..]
    ensures Some(res) == EndTry(old(ctx.status), old(ctx.exception), pending, stack.frames == [])
    ensures res.Propagated? ==> stack.frames != [] && stack.frames[0].exception == Some(res.e)
                                && forall f :: f in stack.frames[1..] ==> f.exception == old(f.exception)
    ensures !res.Propagated? ==> forall f :: f in stack.frames ==> f.exception == old(f.exception)
  {
    stack.Pop();
    if ctx.status == Interrupted {
      // The jump with FunctionReturn lands in RETURN_IN_TRY, which returns its value.
      res := Returned(pending.value);
    } else if ctx.status == ExceptionOccurred {
      var e := ctx.exception.value;
      var t := stack.Throw(e);
      res := if t.Abort? then Uncaught(e) else Propagated(e);
    } else {
      res := Completed;
    }
  }

  /** After a throw the frame is ready for the landing that brings the exception back. */
  lemma ResumeAfterThrow<V>(r: Region, runs: seq<Outcome<V>>, before: seq<Event<V>>, trace: seq<Event<V>>,
                            e: ExceptionInstance, st: View<V>, belowEmpty: bool)
    requires Ended(r, runs, before, trace, Throw(e), st, belowEmpty)
    ensures Ready(r, runs, trace, ExceptionOccurred, Some(e), st.inFinally, st.returning)
  {
  }

  /** After `RETURN_IN_TRY` outside `FINALLY` the frame is ready for the landing with Interrupted. */
  lemma ResumeAfterReturn<V>(r: Region, runs: seq<Outcome<V>>, before: seq<Event<V>>, trace: seq<Event<V>>,
                             v: V, st: View<V>, belowEmpty: bool)
    requires Ended(r, runs, before, trace, Return(v), st, belowEmpty) && !st.inFinally
    ensures Ready(r, runs, trace, Interrupted, st.exception, false, Some(v))
  {
  }

  /** `RETURN_IN_TRY` with `inFinally` set ends the run with the value. */
  lemma ExitByReturn<V>(r: Region, runs: seq<Outcome<V>>, before: seq<Event<V>>, trace: seq<Event<V>>,
                        v: V, st: View<V>, belowEmpty: bool)
    requires Ended(r, runs, before, trace, Return(v), st, belowEmpty) && st.inFinally
    ensures WellFormed(r, runs, trace, belowEmpty, Returned(v))
  {
  }

  /** Reaching `END_TRY` ends the run with what `END_TRY` does on the frame. */
  lemma ExitAtEndTry<V>(r: Region, runs: seq<Outcome<V>>, before: seq<Event<V>>, trace: seq<Event<V>>,
                        st: View<V>, belowEmpty: bool, res: RegionResult<V>)
    requires Ended(r, runs, before, trace, Normal, st, belowEmpty)
    requires EndTry(st.status, st.exception, st.returning, belowEmpty) == Some(res)
    ensures WellFormed(r, runs, trace, belowEmpty, res)
  {
  }

  function Min(a: int, b: int): (m: int)
    ensures m <= a && m <= b && (m == a || m == b)
  {
    if a < b then a else b
  }

  /**
   * One landing and what follows it: the pass through the clauses, then
   * `END_TRY`, the throw back into this frame, or `RETURN_IN_TRY`.
   */
  method Round<V>(stack: ContextStack, ctx: Frame, r: Region, runs: seq<Outcome<V>>, trace: seq<Event<V>>,
                  signal: Status, pending: Option<V>, ghost below: seq<Frame>)
    returns (done: bool, res: RegionResult<V>, trace': seq<Event<V>>, signal': Status, pending': Option<V>)
    requires stack.Valid() && ctx !in below && stack.frames == [ctx] + below
    requires (ctx.snapshot == AtReturn) == pending.Some?
    requires Ready(r, runs, trace, signal, ctx.exception, ctx.inFinally, pending)
    modifies stack, stack.frames`exception, ctx`status, ctx`inFinally, ctx`snapshot
    ensures stack.Valid() && stack.frames == if done then below else [ctx] + below
    ensures !(done && res.Propagated?) ==> forall f :: f in below ==> f.exception == old(f.exception)
    ensures done && res.Propagated? ==> below != [] && below[0].exception == Some(res.e)
                                        && forall f :: f in below[1..] ==> f.exception == old(f.exception)
    ensures !done ==> (ctx.snapshot == AtReturn) == pending'.Some?
    ensures !done ==> Ready(r, runs, trace', signal', ctx.exception, ctx.inFinally, pending')
    ensures !done ==> |trace| < |trace'| <= |runs|
    ensures done ==> WellFormed(r, runs, trace', below == [], res)
  {
    var out;
    out, trace' := Pass(ctx, r, runs, trace, signal, pending, below == []);
    ghost var st := ViewOf(ctx, pending);
    done, res, signal', pending' := false, Completed, signal, pending;
    match out
    case Normal =>
      res := Retire(stack, ctx, pending);
      ExitAtEndTry(r, runs, trace, trace', st, below == [], res);
      done := true;
    case Throw(e) =>
      // The frame is still the head: the exception lands back in this region.
      var t := stack.Throw(e);
      signal' := t.signal;
      ResumeAfterThrow(r, runs, trace, trace', e, st, below == []);
    case Return(v) =>
      if ctx.inFinally {
        stack.Pop();
        res := Returned(v);
        ExitByReturn(r, runs, trace, trace', v, st, below == []);
        done := true;
      } else {
        // Save the TRY snapshot, refill it at RETURN_IN_TRY, jump to the saved one with Interrupted.
        pending' := Some(v);
        ctx.snapshot := AtReturn;
        signal' := Interrupted;
        ResumeAfterReturn(r, runs, trace, trace', v, st, below == []);
      }
  }

  /**
   * One protected region, from `TRY` to `END_TRY`, on the given context stack.
   * The i-th clause run ends as `OutcomeAt(runs, i)`.
   */
  method RunRegion<V>(stack: ContextStack, r: Region, runs: seq<Outcome<V>>) returns (res: RegionResult<V>, trace: seq<Event<V>>)
    requires stack.Valid()
    modifies stack, stack.frames`exception
    ensures stack.Valid() && stack.frames == old(stack.frames)
    ensures WellFormed(r, runs, trace, old(stack.frames) == [], res)
    ensures res.Propagated? ==> stack.frames != [] && stack.frames[0].exception == Some(res.e)
                                && forall f :: f in stack.frames[1..] ==> f.exception == old(f.exception)
    ensures !res.Propagated? ==> forall f :: f in stack.frames ==> f.exception == old(f.exception)
  {
    ghost var below := stack.frames;
    var ctx := new Frame();
    stack.Push(ctx);
    ctx.snapshot := AtTry;
    var signal := Into;
    var pending: Option<V> := None;
    trace := [];
    res := Completed;
    var done := false;
    while !done
      invariant stack.Valid() && ctx !in below
      invariant stack.frames == if done then below else [ctx] + below
      invariant !(done && res.Propagated?) ==> forall f :: f in below ==> f.exception == old(f.exception)
      invariant done && res.Propagated? ==> below != [] && below[0].exception == Some(res.e)
                                            && forall f :: f in below[1..] ==> f.exception == old(f.exception)
      invariant !done ==> (ctx.snapshot == AtReturn) == pending.Some?
      invariant !done ==> Ready(r, runs, trace, signal, ctx.exception, ctx.inFinally, pending)
      invariant done ==> WellFormed(r, runs, trace, below == [], res)
      decreases if done then 0 else 1 + |runs| - Min(|trace|, |runs|)
    {
      done, res, trace, signal, pending := Round(stack, ctx, r, runs, trace, signal, pending, below);
    }
  }
}
