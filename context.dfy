/**
 * The context stack: frames of the protected regions that are still running,
 * linked through `link` from the global head (src/exception.h:24-39,
 * src/exception.c:8 and 20-33), and the throw that delivers an exception to
 * the head frame (src/exception.c:50-58).
 */
module Contexts {

  import opened Wrappers
  import opened Exceptions

  /** `TryBlockStatus`, in declaration order (`Into` is 0, the direct return of `setjmp`). */
  datatype Status = Into | NoException | ExceptionOccurred | ExceptionCapture | Interrupted | FunctionReturn

  /**
   * Which `setjmp` last filled a frame's `snapshot`: the one of `TRY`
   * (src/exception.h:65) or the one of `RETURN_IN_TRY` (src/exception.h:104).
   */
  datatype Checkpoint = AtTry | AtReturn

  /** `ExceptionContext`: one frame, a local of the block that `TRY` opens. */
  class Frame {
    var exception: Option<ExceptionInstance>
    var snapshot: Checkpoint
    var inFinally: bool
    var status: Status
    var link: Frame?

    /**
     * The C local is left uninitialised; these values stand for that garbage.
     * `exception`, `inFinally` and `link` are written by the push, `snapshot`
     * and `status` by the `setjmp` that follows it.
     */
    constructor ()
      ensures exception == None && snapshot == AtTry && !inFinally && status == Into && link == null
    {
      exception, snapshot, inFinally, status, link := None, AtTry, false, Into, null;
    }
  }

  /** What `exceptionThrow` does with control: abort the process, or jump to the head frame. */
  datatype Transfer = Abort | JumpToHead(signal: Status)

  /** The global `exceptionContextStack` and the frames reachable from it. */
  class ContextStack {
    var head: Frame?
    /** The frames from the head down, following `link`. */
    ghost var frames: seq<Frame>

    ghost predicate Valid()
      reads this, frames`link
    {
      (head == null <==> frames == []) &&
      (frames != [] ==> head == frames[0] && frames[|frames| - 1].link == null) &&
      (forall i :: 0 <= i < |frames| - 1 ==> frames[i].link == frames[i + 1]) &&
      (forall i, j :: 0 <= i < j < |frames| ==> frames[i] != frames[j])
    }

    /** The static initialiser: the head is NULL. */
    constructor ()
      ensures Valid() && frames == []
    {
      head := null;
      frames := [];
    }

    /** `exceptionContextStackIsEmpty`. */
    function IsEmpty(): (b: bool)
      requires Valid()
      reads this, frames`link
      ensures b <==> frames == []
    {
      head == null
    }

    /**
     * `exceptionContextStackPush`: clear the frame's exception and `inFinally`,
     * link it to the old head and make it the head; its status is not touched.
     */
    method Push(f: Frame)
      requires Valid() && f !in frames
      modifies this, f
      ensures Valid() && frames == [f] + old(frames)
      ensures f.exception == None && !f.inFinally && f.link == old(head)
      ensures f.status == old(f.status) && f.snapshot == old(f.snapshot)
    {
      f.exception := None;
      f.inFinally := false;
      f.link := head;
      head := f;
      frames := [f] + frames;
      assert forall i :: 1 <= i < |frames| ==> frames[i] == old(frames)[i - 1];
    }

    /**
     * `exceptionContextStackPopup`: the head moves to the old head's link.
     * On an empty stack the C code dereferences NULL, hence the precondition.
     */
    method Pop()
      requires Valid() && frames != []
      modifies this
      ensures Valid() && frames == old(frames)[1..] && head == old(head.link)
    {
      assert |frames| > 1 ==> frames[0].link == frames[1];
      head := head.link;
      frames := frames[1..];
    }

    /**
     * `exceptionThrow`: with no frame the process aborts; otherwise the
     * exception is stored in the head frame, and only there, and control goes
     * to that frame's checkpoint with `TryBlockExceptionOccurred`.
     */
    method Throw(e: ExceptionInstance) returns (t: Transfer)
      requires Valid()
      modifies frames`exception
      ensures Valid() && frames == old(frames)
      ensures t == if frames == [] then Abort else JumpToHead(ExceptionOccurred)
      ensures frames != [] ==> frames[0].exception == Some(e)
      ensures frames != [] ==> forall f :: f in frames[1..] ==> f.exception == old(f.exception)
    {
      if head == null {
        t := Abort;
      } else {
        head.exception := Some(e);
        t := JumpToHead(ExceptionOccurred);
      }
    }

    /** A region's push followed by its pop leaves the stack as it was. */
    method PushThenPop(f: Frame)
      requires Valid() && f !in frames
      modifies this, f
      ensures Valid() && frames == old(frames) && head == old(head)
    {
      Push(f);
      Pop();
    }
  }
}
