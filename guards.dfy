/** The shape of a checked argument, and `checkBaseCallbacks`, the callback check
    the record operations share. */
module Guards {
  import opened Wrappers
  import opened Sequences

  /** An argument as the source inspects it: `undefined`, a value of the expected
      type (a function, a string, a number, an array), or a defined value of some
      other type. */
  datatype Arg<+T> = Undefined | Given(value: T) | OtherType {
    predicate IsDefined() {
      !Undefined?
    }
  }

  /** A callback argument; a function carries nothing the checks look at. */
  type CallbackArg = Arg<()>

  /** The strings `checkBaseCallbacks` throws. */
  datatype CallbackError = SuccessNotFunction | ErrorNotFunction {
    /** The thrown text names the callback at fault. */
    function Message(): (r: string)
      ensures EndsWith(r, " callback must be a type of function")
      ensures StartsWith(r, if SuccessNotFunction? then "Success" else "Error")
    {
      var callback := if SuccessNotFunction? then "Success" else "Error";
      var text := callback + " callback must be a type of function";
      assert text[..|callback|] == callback;
      assert text[|text| - 36..] == " callback must be a type of function";
      text
    }
  }

  /** `checkBaseCallbacks(successCallback, errorCallback)`: `None` when it returns,
      the error it throws otherwise. The error callback is only looked at when a
      success callback was passed. */
  function CheckBaseCallbacks(success: CallbackArg, error: CallbackArg): (r: Option<CallbackError>)
    ensures r == Some(SuccessNotFunction) <==> success.OtherType?
    ensures r == Some(ErrorNotFunction) <==> success.Given? && error.OtherType?
    ensures r.None? <==> !success.OtherType? && !(success.IsDefined() && error.OtherType?)
  {
    if success.IsDefined() then
      if !success.Given? then Some(SuccessNotFunction)
      else if error.IsDefined() && !error.Given? then Some(ErrorNotFunction)
      else None
    else None
  }

  /** Without a success callback, an error callback that is not a function slips through. */
  lemma UncheckedErrorCallback()
    ensures CheckBaseCallbacks(Undefined, OtherType) == None
  {
  }
}
