# exceptions-for-c, modelled in Dafny

exceptions-for-c adds try/catch/finally to C. It has three parts:

- **Exception types.** A type has a name, a 64-bit code and an optional parent type. An instance pairs a type with an optional message. `exceptionInstanceOf` decides whether a handler declared for a type catches an instance. It compares codes: the instance's own code first, then the all-ones code of the root type `Exception`, then each code up the instance type's parent chain.
- **The context stack.** Every `TRY` pushes an `ExceptionContext` frame onto an intrusive linked stack whose head is a global. `END_TRY` pops it. `exceptionThrow` aborts when the stack is empty. Otherwise it stores the exception in the head frame and `longjmp`s to that frame's snapshot with `TryBlockExceptionOccurred`.
- **The region macros.** `TRY`, `CATCH`, `PASSED`, `FINALLY`, `END_TRY` and `RETURN_IN_TRY` expand to a `setjmp` followed by code that runs one frame through the `TryBlockStatus` values.

The Dafny modules follow that structure:

- `Wrappers` (`wrappers.dfy`): `Option`, which stands for a pointer that may be NULL.
- `Exceptions` (`exception.dfy`):
  - `ExceptionType` is a recursive datatype, so the parent chain is finite and acyclic.
  - `Matches` is the reference definition of ancestry.
  - `InstanceOf` is the C loop, proved equal to `Matches`.
  - Lemmas cover reflexivity, the root, ancestors and non-descendants.
- `Contexts` (`context.dfy`):
  - `Frame` is a class with the fields of `ExceptionContext`. The class stands for the stack-allocated context that is updated in place.
  - `ContextStack` holds the global `head`, plus a ghost sequence `frames` of the frames reachable along `link`.
  - Push, pop, the emptiness test and the throw are methods on it.
- `TryBlock` (`try_block.dfy`): one protected region, run on the context stack.
  - `setjmp`/`longjmp` become a loop. Each iteration (`Round`) is one landing at the frame's snapshot, and the `Status` the jump carried is its input.
  - What the body and each clause do is abstracted to how it ends: `Normal`, `Throw(e)` or `Return(v)` (`RETURN_IN_TRY(v)`). The i-th clause that runs ends as the i-th entry of a script `runs`. Every run past the end of the script finishes normally.
  - The method records a trace of the clauses that ran and what each one saw of the frame.
  - `Next` and `ExitResult` state, as functions, which clause the macros run after an event and how control leaves the region. `WellFormed` says a trace is a complete run under them. `RunRegion` is proved to produce a `WellFormed` trace, to pop exactly its own frame, and to touch no other frame except when it re-throws to the enclosing one.
  - The snapshot a frame holds is a `Checkpoint`: the one `TRY` saved, or the one `RETURN_IN_TRY` refilled.
- `RegionProperties` (`region_properties.dfy`): what every `WellFormed` run satisfies.
- `Scenarios` (`scenarios.dfy`): concrete regions with their complete runs.

Behaviour of the code that the model reproduces:

- A throw from a `CATCH`, `PASSED` or `FINALLY` clause is not passed straight to the enclosing region. Its frame is still the head until `END_TRY`, so the throw lands in the same region and that region's handler search runs again. A handler that re-throws its own exception is entered again (`Scenarios.RethrowReentersHandler`). A `FINALLY` that throws runs a second time before the exception leaves (`Scenarios.FinallyThrowRunsFinallyTwice`).
- After `RETURN_IN_TRY` outside `FINALLY`, the snapshot is the one saved by `RETURN_IN_TRY`'s own `setjmp`. A later throw (from `FINALLY`) lands there. That `setjmp` then jumps back to the `TRY` snapshot with `TryBlockInterrupted`. So the exception is not propagated: `FINALLY` runs again, and the function returns the pending value.
- `RETURN_IN_TRY` inside a handler that was entered by a throw from `FINALLY` sees `inFinally` set. It pops and returns directly.
- There is no "leaked" status and no replaceable hook for uncaught exceptions; an uncaught throw always aborts.

## Model

| member | source | states |
|---|---|---|
| Exceptions.New | src/exception.c:12-18 | the instance has exactly the given type and message |
| Exceptions.InstanceOf | src/exception.c:35-48 | the early test and the walk up `parent` return true exactly when `Matches` holds: equal codes, the root's all-ones code, or an ancestor with the target's code |
| Exceptions.ChainHasCode | src/exception.c:40-47 | the chain walk finds the code iff some type on the parent chain carries it |
| Exceptions.MatchingIgnoresMessage | src/exception.c:35-48 | whether a handler catches an instance does not depend on the instance's message |
| Exceptions.OwnTypeAndRootMatch | src/exception.c:36-38 | an instance is caught by a handler for its own type and by one for the root `Exception` |
| Exceptions.AncestorHandlerMatches | src/exception.c:40-47 | an instance is caught by a handler for any ancestor of its type |
| Exceptions.AncestorDoesNotMatchDescendant | src/exception.c:35-48 | when the codes on the chain are distinct and the type is not the root, an instance of an ancestor is not caught by a handler for the descendant |
| Contexts.Frame.constructor | src/exception.h:33-39 | a frame with the fields of `ExceptionContext`; the values stand for the uninitialised C local |
| Contexts.ContextStack.constructor | src/exception.c:8 | the stack starts empty, with a NULL head |
| Contexts.ContextStack.IsEmpty | src/exception.c:31-33 | true iff no frame is on the stack |
| Contexts.ContextStack.Push | src/exception.c:20-25 | the frame becomes the head and is linked to the old head; its exception is cleared and `inFinally` is false; its status and snapshot are unchanged |
| Contexts.ContextStack.Pop | src/exception.c:27-29 | on a non-empty stack the head moves to its link and the stack loses exactly its top frame |
| Contexts.ContextStack.PushThenPop | src/exception.c:20-29 | a push followed by a pop restores the previous head and frames |
| Contexts.ContextStack.Throw | src/exception.c:50-58 | with no frame, control aborts; otherwise the exception is stored in the head frame only and control jumps there with ExceptionOccurred; the stack is unchanged |
| TryBlock.FirstMatchIsFirst | src/exception.h:69-72 | the selected handler matches and no earlier one does; with no selection, no handler matches |
| TryBlock.SelectHandler | src/exception.h:69-72 | the `else if` chain of `CATCH` tests selects `FirstMatch` |
| TryBlock.Land | src/exception.h:61-72 | the landing sets the status from the jump (Interrupted at a refilled snapshot); on the first entry the body runs with NoException; after a throw the first matching handler runs with ExceptionCapture |
| TryBlock.PassedSection | src/exception.h:74-77 | when `PASSED` is written, `inFinally` is cleared; the clause runs only with status NoException, as `Next` predicts |
| TryBlock.FinallySection | src/exception.h:79-82 | when `FINALLY` is written, `inFinally` is set and stays set after it, and `FINALLY` runs as `Next` predicts; without it `inFinally` is unchanged |
| TryBlock.Pass | src/exception.h:61-82 | one landing through the clauses extends the trace as `Next` predicts, until a clause throws or returns or control reaches `END_TRY` |
| TryBlock.Retire | src/exception.h:84-94 | `END_TRY` pops the frame once; with Interrupted it returns the pending value, with ExceptionOccurred it re-throws to the new head or aborts, otherwise it completes; frames below are touched only by the re-throw |
| TryBlock.Round | src/exception.h:61-110 | one landing and the jump or exit it ends with leave the frame ready for the next landing, or end the region with a complete run |
| TryBlock.RunRegion | src/exception.h:61-110 | the whole region produces a complete run (`WellFormed`) and its result; the stack is restored; other frames change only by a re-throw into the enclosing head |
| RegionProperties.BodyRunsOnlyFirst | src/exception.h:61-67 | the body runs first, seeing NoException, no exception and `inFinally` clear, and never runs again |
| RegionProperties.HandlerIsFirstMatch | src/exception.h:69-72 | a `CATCH` clause runs only right after a throw, and it is the first one in declaration order whose type matches; it sees ExceptionCapture and the thrown instance |
| RegionProperties.ThrowSearchesHandlers | src/exception.h:69-82 | after any throw outside an early return, the region's own handlers are searched again: the first match runs, or FINALLY runs with ExceptionOccurred, or the exception leaves |
| RegionProperties.PassedRunsIff | src/exception.h:74-77 | `PASSED` runs iff it is written and the body finished normally, and then it is the second event, seeing NoException |
| RegionProperties.InFinallyFollowsFinally | src/exception.h:79-82 | a clause that sees `inFinally` set is FINALLY or comes after a FINALLY run |
| RegionProperties.FinallyAlwaysRuns | src/exception.h:79-82 | with a FINALLY clause every complete run passes through it, and it always runs with `inFinally` set |
| RegionProperties.FinallyRunsOnce | src/exception.h:79-101 | when no FINALLY run throws (it may finish or execute `RETURN_IN_TRY`), FINALLY runs exactly once, as the last event |
| RegionProperties.ReturnInFinallyReturnsAtOnce | src/exception.h:98-101 | `RETURN_IN_TRY(v)` in a clause that sees `inFinally` set is the last event: the frame is popped and `v` returned without running FINALLY again |
| RegionProperties.AfterEarlyReturn | src/exception.h:96-110 | after `RETURN_IN_TRY(v)` outside FINALLY, only FINALLY runs, seeing Interrupted, `inFinally` and the pending `v` |
| RegionProperties.EarlyReturnResult | src/exception.h:84-110 | a region left by `RETURN_IN_TRY(v)` returns `v`, unless a later FINALLY run returns its own value; without FINALLY it returns at once |
| RegionProperties.OccurredFollowsUnmatchedThrow | src/exception.h:69-82 | status ExceptionOccurred is seen only by FINALLY, right after a throw that no handler matches |
| RegionProperties.EscapedWasUnmatched | src/exception.h:84-94 | an exception leaving the region was thrown by one of its clauses and matches none of its handlers; it aborts iff no frame is left |
| RegionProperties.RunIsDetermined | src/exception.h:61-110 | the clause outcomes determine the run: one trace and one result |
| Scenarios.DiskErrorIsHandled | src/exception.h:61-94 | an IOFailure "disk error" thrown by the body is taken by the IOFailure handler, which sees the message; FINALLY runs; nothing propagates |
| Scenarios.RunDiskErrorRegion | src/exception.h:61-94 | the same region run on a stack completes and leaves the stack and its frames as they were |
| Scenarios.EarlyReturnRunsFinally | src/exception.h:96-110 | `RETURN_IN_TRY(42)` in the body runs FINALLY with Interrupted and then returns 42 |
| Scenarios.RethrowReentersHandler | src/exception.h:69-72 | a handler that re-throws its own exception is entered again for it |
| Scenarios.FinallyThrowRunsFinallyTwice | src/exception.h:79-94 | a FINALLY that throws with no handler to take it runs again, seeing ExceptionOccurred, and the exception then leaves the region |
| Scenarios.LeafHierarchy | src/exception.c:35-48 | on a three-level hierarchy a leaf is caught by its ancestors' and the root's handlers, and an ancestor is not caught by the leaf's |

## Left out

- `setjmp`, `longjmp`, `jmp_buf` and the `memcpy` of the snapshot are not modelled as machine state. A jump is a loop iteration carrying a `Status`. A snapshot is modelled only as which `setjmp` filled it. `Snapshot`, the type `RETURN_IN_TRY` declares, is not part of this model.
- The `fprintf` and `abort` of an uncaught throw are left out. The model ends the run with the `Uncaught` result (or the `Abort` transfer).
- `PRINT_EXCEPTION_INFO` is left out because it is output only.
- The `THROW`, `THROW_NEW`, `NEW_EXCEPTION`, `EXCEPTION_INSTANCE_OF`, `DECLARE_EXCEPTION` and `DEFINE_EXCEPTION` aliases are left out: they only rename the modelled functions. So are the `extern "C"` guards.
- Type names are kept as strings but play no part in matching.
- Contexts.ContextStack.Throw: the C code stores the address of its by-value parameter, which is dead once it jumps. The model stores the instance by value, as if the address stayed valid.
- Contexts.ContextStack.Pop: popping an empty stack dereferences NULL in C. The model excludes it by precondition.
- The head of the stack is a single process-wide global, and threads are not modelled.
- TryBlock.RunRegion: what the body and the clauses compute is not modelled, only how each ends. The script is finite and every run past its end finishes normally. A handler that re-throws its own exception forever loops forever in C; the model captures only finitely many repetitions.
- TryBlock.RunRegion: outside FINALLY, `RETURN_IN_TRY(value)` evaluates `value` only once, after FINALLY has run (src/exception.h:104-105). The model fixes the value when `RETURN_IN_TRY` runs, so a FINALLY that changes what the expression reads is not modelled.
- TryBlock.RunRegion: after a throw from FINALLY that follows an early return, the C code jumps through the saved snapshot copy of a block it has already left. The model assumes that copy still holds the `TRY` snapshot.
- `RETURN_IN_TRY` in a nested region names only the innermost frame. The model covers one region on a stack of enclosing frames. It does not claim that an early return runs the enclosing regions' FINALLY clauses or pops their frames; the code does neither.
- TryBlock.Retire: `EndTry` is undefined (`None`) for the states in which C would read a NULL exception or jump to a snapshot `RETURN_IN_TRY` never filled. The model proves that a run never reaches those states.
