/**
 `NullTool`: refusing null references with a null-pointer failure.
 */
module NullTool {
  import opened Lang

  const MissingProperty := "Missing property"

  /** `forbidNull(o, message)`: a null reference fails with the given message, anything else passes. */
  function ForbidNull<T>(o: Nullable<T>, message: Nullable<string>): (r: Outcome<Exception>)
    ensures o.Null? <==> r == Fail(NullPointer(message))
    ensures o.NonNull? <==> r == Pass
  {
    if o.Null? then Fail(NullPointer(message)) else Pass
  }

  /**
   `forbidNull(Object...)`: a null array cannot be iterated; otherwise each
   element is refused in turn with the message "Missing property", so the
   call passes exactly when no element is null.
   */
  method ForbidNulls<T>(objects: Nullable<seq<Nullable<T>>>) returns (r: Outcome<Exception>)
    ensures objects.Null? ==> r == Fail(NullPointer(Null))
    ensures objects.NonNull? ==>
              (r == Pass <==> forall k | 0 <= k < |objects.value| :: objects.value[k].NonNull?)
    ensures objects.NonNull? && r != Pass ==> r == Fail(NullPointer(NonNull(MissingProperty)))
  {
    if objects.Null? {
      return Fail(NullPointer(Null));
    }
    var s := objects.value;
    var i := 0;
    while i < |s|
      invariant 0 <= i <= |s|
      invariant forall k | 0 <= k < i :: s[k].NonNull?
    {
      var step := ForbidNull(s[i], NonNull(MissingProperty));
      if step.Fail? {
        return step;
      }
      i := i + 1;
    }
    return Pass;
  }
}
