/**
 * Concrete regions run through the model: the handler that takes a disk
 * error, an early return through FINALLY, a handler that re-throws its own
 * exception, a FINALLY that throws, and the ancestry test on a three-level
 * hierarchy.
 */
module Scenarios {

  import opened Wrappers
  import opened Exceptions
  import opened Contexts
  import opened TryBlock
  import opened RegionProperties

  /** A type defined with the root as parent. */
  const IOFailure: ExceptionType := ExceptionType("IOFailure", 1, Some(Root))

  const DiskError: ExceptionInstance := New(IOFailure, Some("disk error"))

  /** `TRY { throw } CATCH(IOFailure) { } FINALLY { } END_TRY` */
  const CatchRegion: Region := Region([IOFailure], false, true)

  const CatchRuns: seq<Outcome<int>> := [Throw(DiskError), Normal, Normal]

  const CatchTrace: seq<Event<int>> := [
    Ran(Body, BodyView(), Throw(DiskError)),
    Ran(Handler(0), View(ExceptionCapture, false, Some(DiskError), None), Normal),
    Ran(Finally, View(ExceptionCapture, true, Some(DiskError), None), Normal)
  ]

  /**
   * The disk error is taken by the IOFailure handler, which sees the
   * message; FINALLY runs next and the region completes without propagating.
   */
  lemma DiskErrorIsHandled(trace: seq<Event<int>>, belowEmpty: bool, res: RegionResult<int>)
    requires WellFormed(CatchRegion, CatchRuns, trace, belowEmpty, res)
    ensures trace == CatchTrace && res == Completed
    ensures trace[1].view.exception.value.message == Some("disk error")
  {
    assert WellFormed(CatchRegion, CatchRuns, CatchTrace, belowEmpty, Completed);
    RunIsDetermined(CatchRegion, CatchRuns, trace, CatchTrace, belowEmpty, res, Completed);
  }

  /** The same region run on the context stack: the stack is left as it was. */
  method RunDiskErrorRegion(stack: ContextStack) returns (res: RegionResult<int>)
    requires stack.Valid()
    modifies stack, stack.frames`exception
    ensures res == Completed
    ensures stack.Valid() && stack.frames == old(stack.frames)
    ensures forall f :: f in stack.frames ==> f.exception == old(f.exception)
  {
    var trace;
    res, trace := RunRegion(stack, CatchRegion, CatchRuns);
    DiskErrorIsHandled(trace, old(stack.frames) == [], res);
  }

  /** `TRY { RETURN_IN_TRY(42); } FINALLY { } END_TRY` */
  const ReturnRegion: Region := Region([], false, true)

  const ReturnRuns: seq<Outcome<int>> := [Return(42), Normal]

  /** FINALLY runs after the early return, seeing Interrupted, and then the function returns 42. */
  lemma EarlyReturnRunsFinally(trace: seq<Event<int>>, belowEmpty: bool, res: RegionResult<int>)
    requires WellFormed(ReturnRegion, ReturnRuns, trace, belowEmpty, res)
    ensures trace == [Ran(Body, BodyView(), Return(42)), Ran(Finally, View(Interrupted, true, None, Some(42)), Normal)]
    ensures res == Returned(42)
  {
    var expected := [Ran(Body, BodyView(), Return(42)), Ran(Finally, View(Interrupted, true, None, Some(42)), Normal)];
    assert WellFormed(ReturnRegion, ReturnRuns, expected, belowEmpty, Returned(42));
    RunIsDetermined(ReturnRegion, ReturnRuns, trace, expected, belowEmpty, res, Returned(42));
  }

  /** `TRY { throw } CATCH(IOFailure) { THROW(e); } END_TRY`, the re-throw happening once. */
  const RethrowRegion: Region := Region([IOFailure], false, false)

  const RethrowRuns: seq<Outcome<int>> := [Throw(DiskError), Throw(DiskError), Normal]

  /**
   * A handler that re-throws its own exception is entered again by it: the
   * frame is still the head, so the throw lands back in this region.
   */
  lemma RethrowReentersHandler(trace: seq<Event<int>>, belowEmpty: bool, res: RegionResult<int>)
    requires WellFormed(RethrowRegion, RethrowRuns, trace, belowEmpty, res)
    ensures |trace| == 3 && trace[1].clause == Handler(0) && trace[2].clause == Handler(0)
    ensures res == Completed
  {
    var capture := View(ExceptionCapture, false, Some(DiskError), None);
    var expected := [Ran(Body, BodyView(), Throw(DiskError)), Ran(Handler(0), capture, Throw(DiskError)), Ran(Handler(0), capture, Normal)];
    assert WellFormed(RethrowRegion, RethrowRuns, expected, belowEmpty, Completed);
    RunIsDetermined(RethrowRegion, RethrowRuns, trace, expected, belowEmpty, res, Completed);
  }

  /** `TRY { } FINALLY { THROW(e); } END_TRY`, the throw happening in the first FINALLY run. */
  const FinallyThrowRegion: Region := Region([], false, true)

  const FinallyThrowRuns: seq<Outcome<int>> := [Normal, Throw(DiskError), Normal]

  /**
   * A throw from FINALLY lands in the same region again: with no handler
   * taking it, FINALLY runs a second time, now seeing ExceptionOccurred, and
   * the exception then leaves the region.
   */
  lemma FinallyThrowRunsFinallyTwice(trace: seq<Event<int>>, belowEmpty: bool, res: RegionResult<int>)
    requires WellFormed(FinallyThrowRegion, FinallyThrowRuns, trace, belowEmpty, res)
    ensures |trace| == 3 && trace[1].clause == Finally && trace[2].clause == Finally
    ensures trace[2].view == View(ExceptionOccurred, true, Some(DiskError), None)
    ensures res == Escape(DiskError, belowEmpty)
  {
    var expected := [Ran(Body, BodyView(), Normal),
                     Ran(Finally, View(NoException, true, None, None), Throw(DiskError)),
                     Ran(Finally, View(ExceptionOccurred, true, Some(DiskError), None), Normal)];
    var escaped: RegionResult<int> := Escape(DiskError, belowEmpty);
    assert WellFormed(FinallyThrowRegion, FinallyThrowRuns, expected, belowEmpty, escaped);
    RunIsDetermined(FinallyThrowRegion, FinallyThrowRuns, trace, expected, belowEmpty, res, escaped);
  }

  /** A three-level hierarchy below the root, with distinct codes. */
  const Base: ExceptionType := ExceptionType("Base", 10, Some(Root))
  const Derived: ExceptionType := ExceptionType("Derived", 20, Some(Base))
  const Leaf: ExceptionType := ExceptionType("Leaf", 30, Some(Derived))

  /** A `Leaf` is caught by handlers for `Derived`, `Base` and the root; a `Base` is not caught by a `Leaf` handler. */
  lemma LeafHierarchy(m: Option<string>)
    ensures Matches(New(Leaf, m), Derived) && Matches(New(Leaf, m), Base) && Matches(New(Leaf, m), Root)
    ensures !Matches(New(Base, m), Leaf) && !Matches(New(Derived, m), Leaf)
  {
    assert Ancestors(Leaf) == [Derived, Base, Root];
    AncestorHandlerMatches(Leaf, m, 1);
    assert DistinctCodes(Leaf);
    AncestorDoesNotMatchDescendant(Leaf, 1, m);
  }
}
