/**
 The evaluation-policy engine shared by the collection and map transforms
 (`InternalEvaluator` in the library). Its source is not part of this model:
 `Evaluate` is specified from the doc comments of its two callers, and is an
 assumption of the model rather than a transcription.
 */
module Evaluation {
  import opened Lang

  /** `IEvaluator<O, V>`: may answer null and may throw. */
  type Evaluator<!O, V> = O -> Result<Nullable<V>, Exception>

  /** The three independent policy flags of the transforms. */
  datatype Policy = Policy(allowDupes: bool, skipNullObjects: bool, skipNullValues: bool)

  /** The policy of the shortest overloads: duplicates and nulls all tolerated. */
  const Lenient := Policy(true, true, true)

  /** The policy of the overloads that take only `allowDupes`. */
  function WithDupes(allowDupes: bool): Policy
  {
    Policy(allowDupes, true, true)
  }

  /** The policy of the overloads that take `allowDupes` and `skipNullObjects`. */
  function WithNullObjects(allowDupes: bool, skipNullObjects: bool): Policy
  {
    Policy(allowDupes, skipNullObjects, true)
  }

  /** Why a transform stopped early. */
  datatype TransformError<K> =
    | NullElement                       // a null source element that the policy does not skip
    | EvaluatorFailed(cause: Exception) // the evaluator threw
    | DuplicateKey(key: Nullable<K>)    // DuplicateKeyException

  /**
   What a transform returns: the destination, or the destination as far as
   it was filled when a failure stopped the transform (nothing is rolled back).
   */
  datatype Partial<C, E> = Done(value: C) | Stopped(partial: C, error: E) {
    /** The destination's contents either way. */
    function Contents(): C
    {
      if Done? then value else partial
    }
  }

  /** What the engine decides about one source element. */
  datatype Verdict<V> = Skip | Keep(value: Nullable<V>) | Reject(error: TransformError<V>)

  const DuplicateKeyPrefix := "Duplicate key found: "

  /** `String.valueOf` of a possibly-null key, given how to render a present one. */
  function Render<K>(key: Nullable<K>, show: K -> string): string
  {
    if key.Null? then "null" else show(key.value)
  }

  /** The message of a `DuplicateKeyException` raised for `key`: the key text can be read back from it. */
  function DuplicateKeyMessage<K>(key: Nullable<K>, show: K -> string): (m: string)
    ensures |m| >= |DuplicateKeyPrefix|
    ensures m[..|DuplicateKeyPrefix|] == DuplicateKeyPrefix
    ensures m[|DuplicateKeyPrefix|..] == Render(key, show)
  {
    DuplicateKeyPrefix + Render(key, show)
  }

  /**
   The per-element policy: skip a null element when allowed (otherwise a null
   pointer failure), propagate an evaluator failure, skip a null result when
   allowed (otherwise the null is produced), and reject a result the dupe
   checker reports as present unless duplicates are allowed.
   */
  function Evaluate<O, V>(element: Nullable<O>, eval: Evaluator<O, V>, policy: Policy,
                          isDupe: Nullable<V> -> bool): (r: Verdict<V>)
    ensures element.Null? ==> r == (if policy.skipNullObjects then Skip else Reject(NullElement))
    ensures element.NonNull? && eval(element.value).Failure? ==>
              r == Reject(EvaluatorFailed(eval(element.value).error))
    ensures element.NonNull? && eval(element.value) == Success(Null) && policy.skipNullValues ==> r == Skip
    ensures r.Keep? ==> element.NonNull? && eval(element.value) == Success(r.value)
    ensures r.Keep? ==> policy.allowDupes || !isDupe(r.value)
    ensures r.Reject? && r.error.DuplicateKey? <==>
              && element.NonNull? && eval(element.value).Success?
              && !(eval(element.value).value.Null? && policy.skipNullValues)
              && !policy.allowDupes && isDupe(eval(element.value).value)
    ensures r.Reject? && r.error.DuplicateKey? ==> r.error.key == eval(element.value).value
  {
    match element
    case Null => if policy.skipNullObjects then Skip else Reject(NullElement)
    case NonNull(x) =>
      match eval(x)
      case Failure(e) => Reject(EvaluatorFailed(e))
      case Success(v) =>
        if v.Null? && policy.skipNullValues then Skip
        else if !policy.allowDupes && isDupe(v) then Reject(DuplicateKey(v))
        else Keep(v)
  }

  /** The engine's verdict with the duplicate check switched off. */
  function Judge<O, V>(element: Nullable<O>, eval: Evaluator<O, V>, policy: Policy): Verdict<V>
  {
    Evaluate(element, eval, policy, _ => false)
  }

  /**
   With duplicates allowed the dupe checker is irrelevant: the verdict is the
   same for every checker, and it is never a duplicate-key failure.
   */
  lemma DupesAllowedIgnoresChecker<O, V>(element: Nullable<O>, eval: Evaluator<O, V>, policy: Policy,
                                         isDupe: Nullable<V> -> bool)
    requires policy.allowDupes
    ensures Evaluate(element, eval, policy, isDupe) == Judge(element, eval, policy)
    ensures !(Evaluate(element, eval, policy, isDupe).Reject? && Evaluate(element, eval, policy, isDupe).error.DuplicateKey?)
  {
  }

  /**
   With duplicates forbidden the engine differs from `Judge` exactly when the
   judged value is reported present, and then it fails with that value as key.
   */
  lemma StrictEvaluateAgainstJudge<O, V>(element: Nullable<O>, eval: Evaluator<O, V>, policy: Policy,
                                         isDupe: Nullable<V> -> bool)
    requires !policy.allowDupes
    ensures var j := Judge(element, eval, policy);
            Evaluate(element, eval, policy, isDupe)
              == if j.Keep? && isDupe(j.value) then Reject(DuplicateKey(j.value)) else j
  {
  }

  /** The elements of a sequence, as a set. */
  function Elements<T>(s: seq<T>): set<T>
  {
    set x | x in s
  }

  /**
   The position of the first element of `s` that is already in `seen` or
   earlier in `s`; `|s|` when every element is new.
   */
  function FirstRepeat<T>(seen: set<T>, s: seq<T>): (j: nat)
    ensures j <= |s|
    ensures forall i | 0 <= i < j :: s[i] !in seen && s[i] !in s[..i]
    ensures j < |s| ==> s[j] in seen || s[j] in s[..j]
    decreases |s|
  {
    if |s| == 0 then 0
    else if s[0] in seen then 0
    else
      var j' := FirstRepeat(seen + {s[0]}, s[1..]);
      assert forall i | 1 <= i <= |s| :: s[..i] == [s[0]] + s[1..][..i - 1];
      1 + j'
  }

  /** A new first element shifts the first repeat one place on, counted against the enlarged set. */
  lemma FirstRepeatCons<T>(seen: set<T>, k: T, s: seq<T>)
    requires k !in seen
    ensures FirstRepeat(seen, [k] + s) == 1 + FirstRepeat(seen + {k}, s)
  {
    assert ([k] + s)[1..] == s;
  }

  /** A prefix of a sequence with one more element in front. */
  lemma PrefixCons<T>(a: T, s: seq<T>, n: nat)
    requires n <= |s|
    ensures ([a] + s)[..1 + n] == [a] + s[..n]
  {
  }

  /** The failure that stops a pass over `objects` when no duplicate is checked for, if any. */
  function Halt<O, V>(objects: seq<Nullable<O>>, eval: Evaluator<O, V>, policy: Policy): Nullable<TransformError<V>>
  {
    if |objects| == 0 then Null
    else match Judge(objects[0], eval, policy)
      case Reject(e) => NonNull(e)
      case _ => Halt(objects[1..], eval, policy)
  }

  /** Under the lenient policy the only failure that can stop a pass is an evaluator failure. */
  lemma {:induction false} LenientHaltIsEvaluatorFailure<O, V>(objects: seq<Nullable<O>>, eval: Evaluator<O, V>)
    ensures Halt(objects, eval, Lenient).NonNull? ==> Halt(objects, eval, Lenient).value.EvaluatorFailed?
    decreases |objects|
  {
    if |objects| > 0 {
      LenientHaltIsEvaluatorFailure(objects[1..], eval);
    }
  }

  /** A null source collection is treated as an empty one. */
  function Source<O>(objects: Nullable<seq<Nullable<O>>>): seq<Nullable<O>>
  {
    if objects.Null? then [] else objects.value
  }
}
