/** The exception slot of a transport and the check wrapped around awaited
    transport operations.

    A transport records in `LastException` an exception that happened outside the
    call chain of the running operation. Before and after an awaited operation the
    slot is read and cleared, and a recorded exception is raised. The slot holds
    the code of the recorded DFU exception. */
module DfuExceptionExtensions {
  import opened Common
  import opened DfuErrors

  /** What a slot check raised, and the slot after it. */
  datatype SlotCheck = SlotCheck(raised: Option<int>, slot: Option<int>)

  /** `CheckExceptionWithThrow`: the slot is always left empty, and the exception it
      held, if any, is raised. */
  function CheckExceptionWithThrow(slot: Option<int>): (r: SlotCheck)
    ensures r.slot.None?
    ensures r.raised.Some? <==> slot.Some?
    ensures r.raised == slot
  {
    SlotCheck(slot, None)
  }

  /** `AwaitAndCheckException` (both overloads; the plain one has the unit result):
      the outcome and the final slot, given the slot before the operation and, when
      nothing was pending, the operation's outcome and the slot after it. A failure
      of the operation itself propagates and leaves the slot as the operation left
      it. */
  function AwaitAndCheck<T>(before: Option<int>, result: Result<T, Error>, after: Option<int>): (r: (Result<T, Error>, Option<int>))
    ensures before.Some? ==> r == (Failure(Dfu(before.value)), None)
    ensures before.None? && result.Failure? ==> r == (result, after)
    ensures before.None? && result.Success? ==> r.1.None?
    ensures before.None? && result.Success? ==> (r.0 == result <==> after.None?)
    ensures before.None? && result.Success? && after.Some? ==> r.0 == Failure(Dfu(after.value))
  {
    var pre := CheckExceptionWithThrow(before);
    if pre.raised.Some? then (Failure(Dfu(pre.raised.value)), pre.slot)
    else if result.Failure? then (result, after)
    else
      var post := CheckExceptionWithThrow(after);
      if post.raised.Some? then (Failure(Dfu(post.raised.value)), post.slot)
      else (result, post.slot)
  }

  /** With the slot empty before and after, the wrapper is transparent: the
      operation's outcome comes back unchanged and the slot stays empty. */
  lemma AwaitAndCheckTransparent<T>(result: Result<T, Error>)
    ensures AwaitAndCheck(None, result, None) == (result, None)
  {
  }

  /** The wrapper succeeds only when the operation succeeded and no exception was
      recorded before or during it; a success always leaves the slot empty. */
  lemma AwaitAndCheckSuccess<T>(before: Option<int>, result: Result<T, Error>, after: Option<int>)
    ensures AwaitAndCheck(before, result, after).0.Success? <==>
            before.None? && result.Success? && after.None?
    ensures AwaitAndCheck(before, result, after).0.Success? ==> AwaitAndCheck(before, result, after).1.None?
  {
  }
}
