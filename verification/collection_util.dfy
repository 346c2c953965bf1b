/**
 `CollectionUtil`: filling a caller-supplied list with evaluated values,
 breaking a collection into chunks, joining evaluated strings and the
 append-if-present helper. The destination list is a value: a transform
 returns the list it leaves behind.
 */
module CollectionUtil {
  import opened Lang
  import opened Evaluation
  import UString

  /** The outcome of filling a list of possibly-null values. */
  type Filled<V> = Partial<seq<Nullable<V>>, TransformError<V>>

  /**
   The loop of `createCollection`: each element in order goes through the
   engine with "already in the list" as dupe checker; produced values are
   appended, and the first failure stops the loop with the list as it is.
   */
  function Fill<O, V(==)>(objects: seq<Nullable<O>>, eval: Evaluator<O, V>, policy: Policy,
                      acc: seq<Nullable<V>>): (r: Filled<V>)
    ensures acc <= r.Contents()
    ensures policy.allowDupes ==> !(r.Stopped? && r.error.DuplicateKey?)
    ensures policy.skipNullObjects ==> !(r.Stopped? && r.error.NullElement?)
    ensures r.Stopped? && r.error.DuplicateKey? ==> r.error.key in r.partial
    decreases |objects|
  {
    if |objects| == 0 then Done(acc)
    else match Evaluate(objects[0], eval, policy, InList(acc))
      case Skip => Fill(objects[1..], eval, policy, acc)
      case Keep(v) => Fill(objects[1..], eval, policy, acc + [v])
      case Reject(e) => Stopped(acc, e)
  }

  /** The dupe checker of a list destination: `Collection.contains`. */
  function InList<V(==)>(acc: seq<Nullable<V>>): Nullable<V> -> bool
  {
    v => v in acc
  }

  /** The list checker reports a value exactly when the list holds it, so a value added once is a duplicate from then on. */
  lemma InListIsContains<V>(acc: seq<Nullable<V>>, v: Nullable<V>, w: Nullable<V>)
    ensures InList(acc)(v) <==> exists i | 0 <= i < |acc| :: acc[i] == v
    ensures InList(acc + [w])(w)
    ensures InList(acc)(v) ==> InList(acc + [w])(v)
  {
  }

  /** The values the engine produces, in source order, up to the first failure; duplicates not checked. */
  function Survivors<O, V>(objects: seq<Nullable<O>>, eval: Evaluator<O, V>, policy: Policy): seq<Nullable<V>>
  {
    if |objects| == 0 then []
    else match Judge(objects[0], eval, policy)
      case Skip => Survivors(objects[1..], eval, policy)
      case Keep(v) => [v] + Survivors(objects[1..], eval, policy)
      case Reject(_) => []
  }

  /**
   Reference outcome of a fill: with duplicates forbidden, the first survivor
   already present (in the prior contents or earlier in the pass) stops the
   fill with the survivors before it appended; otherwise all survivors are
   appended and the fill ends as the first failure, if any, dictates.
   */
  function ExpectedFill<O, V(==)>(objects: seq<Nullable<O>>, eval: Evaluator<O, V>, policy: Policy,
                              acc: seq<Nullable<V>>): Filled<V>
  {
    var s := Survivors(objects, eval, policy);
    var j := FirstRepeat(Elements(acc), s);
    if !policy.allowDupes && j < |s| then Stopped(acc + s[..j], DuplicateKey(s[j]))
    else match Halt(objects, eval, policy)
      case Null => Done(acc + s)
      case NonNull(e) => Stopped(acc + s, e)
  }

  /** The fill loop computes the reference outcome, for every source, policy and prior contents. */
  lemma {:induction false} FillMatchesExpected<O, V>(objects: seq<Nullable<O>>, eval: Evaluator<O, V>,
                                                     policy: Policy, acc: seq<Nullable<V>>)
    ensures Fill(objects, eval, policy, acc) == ExpectedFill(objects, eval, policy, acc)
    decreases |objects|
  {
    if |objects| > 0 {
      var rest := objects[1..];
      if policy.allowDupes {
        DupesAllowedIgnoresChecker(objects[0], eval, policy, InList(acc));
      } else {
        StrictEvaluateAgainstJudge(objects[0], eval, policy, InList(acc));
      }
      match Judge(objects[0], eval, policy)
      case Skip =>
        FillMatchesExpected(rest, eval, policy, acc);
        assert ExpectedFill(objects, eval, policy, acc) == ExpectedFill(rest, eval, policy, acc);
      case Reject(e) =>
        assert Survivors(objects, eval, policy) == [];
        assert acc + [] == acc;
      case Keep(v) =>
        if !policy.allowDupes && v in acc {
          ExpectedFillRepeat(objects, eval, policy, acc, v);
        } else {
          FillMatchesExpected(rest, eval, policy, acc + [v]);
          ExpectedFillKeep(objects, eval, policy, acc, v);
        }
    } else {
      assert acc + [] == acc;
    }
  }

  /** A first survivor already in the list stops the reference fill at once. */
  lemma ExpectedFillRepeat<O, V>(objects: seq<Nullable<O>>, eval: Evaluator<O, V>, policy: Policy,
                                 acc: seq<Nullable<V>>, v: Nullable<V>)
    requires |objects| > 0 && Judge(objects[0], eval, policy) == Keep(v)
    requires !policy.allowDupes && v in acc
    ensures ExpectedFill(objects, eval, policy, acc) == Stopped(acc, DuplicateKey(v))
  {
    var s := Survivors(objects, eval, policy);
    assert s == [v] + Survivors(objects[1..], eval, policy);
    assert v in Elements(acc);
    assert FirstRepeat(Elements(acc), s) == 0;
    assert acc + s[..0] == acc;
  }

  /** A kept first element is the first survivor, and the pass halts as the rest does. */
  lemma SurvivorsKeep<O, V>(objects: seq<Nullable<O>>, eval: Evaluator<O, V>, policy: Policy, v: Nullable<V>)
    requires |objects| > 0 && Judge(objects[0], eval, policy) == Keep(v)
    ensures Survivors(objects, eval, policy) == [v] + Survivors(objects[1..], eval, policy)
    ensures Halt(objects, eval, policy) == Halt(objects[1..], eval, policy)
  {
  }

  /** The elements of a list with one more at the end. */
  lemma ElementsSnoc<V>(acc: seq<V>, v: V)
    ensures Elements(acc + [v]) == Elements(acc) + {v}
  {
  }

  /** Moving the first of the later values into the prior contents keeps every prefix. */
  lemma AppendShift<V>(acc: seq<V>, v: V, s': seq<V>, n: nat)
    requires n <= |s'|
    ensures acc + ([v] + s')[..1 + n] == (acc + [v]) + s'[..n]
  {
    PrefixCons(v, s', n);
  }

  /** A first survivor that is kept moves from the source into the prior contents. */
  lemma ExpectedFillKeep<O, V>(objects: seq<Nullable<O>>, eval: Evaluator<O, V>, policy: Policy,
                               acc: seq<Nullable<V>>, v: Nullable<V>)
    requires |objects| > 0 && Judge(objects[0], eval, policy) == Keep(v)
    requires policy.allowDupes || v !in acc
    ensures ExpectedFill(objects, eval, policy, acc) == ExpectedFill(objects[1..], eval, policy, acc + [v])
  {
    var s' := Survivors(objects[1..], eval, policy);
    SurvivorsKeep(objects, eval, policy, v);
    assert acc + ([v] + s') == (acc + [v]) + s';
    if !policy.allowDupes {
      ElementsSnoc(acc, v);
      FirstRepeatCons(Elements(acc), v, s');
      AppendShift(acc, v, s', FirstRepeat(Elements(acc + [v]), s'));
    }
  }

  /**
   `createCollection` with all three flags: the destination keeps its prior
   contents and receives the produced values in source order; a null source
   leaves it untouched.
   */
  function CreateCollection<O, V(==)>(objects: Nullable<seq<Nullable<O>>>, eval: Evaluator<O, V>,
                                  dest: seq<Nullable<V>>, policy: Policy): (r: Filled<V>)
    ensures objects.Null? ==> r == Done(dest)
    ensures dest <= r.Contents()
    ensures r == ExpectedFill(Source(objects), eval, policy, dest)
    ensures r.Done? ==> r.value == dest + Survivors(Source(objects), eval, policy)
    ensures policy.allowDupes ==> !(r.Stopped? && r.error.DuplicateKey?)
    ensures r.Stopped? && r.error.DuplicateKey? ==> r.error.key in r.partial
  {
    FillMatchesExpected(Source(objects), eval, policy, dest);
    Fill(Source(objects), eval, policy, dest)
  }

  /**
   The five-argument overload: null values are skipped, so the destination
   never receives null.
   */
  function CreateCollectionSkippingNullValues<O, V(==)>(objects: Nullable<seq<Nullable<O>>>, eval: Evaluator<O, V>,
                                                    dest: seq<Nullable<V>>, allowDupes: bool,
                                                    skipNullObjects: bool): (r: Filled<V>)
    ensures r == ExpectedFill(Source(objects), eval, WithNullObjects(allowDupes, skipNullObjects), dest)
    ensures dest <= r.Contents()
    ensures forall i | |dest| <= i < |r.Contents()| :: r.Contents()[i].NonNull?
  {
    var r := CreateCollection(objects, eval, dest, WithNullObjects(allowDupes, skipNullObjects));
    SurvivorsOfSkippingPolicy(Source(objects), eval, WithNullObjects(allowDupes, skipNullObjects));
    r
  }

  /** Under a policy that skips null values, every survivor is present. */
  lemma {:induction false} SurvivorsOfSkippingPolicy<O, V>(objects: seq<Nullable<O>>, eval: Evaluator<O, V>,
                                                           policy: Policy)
    requires policy.skipNullValues
    ensures forall i | 0 <= i < |Survivors(objects, eval, policy)| :: Survivors(objects, eval, policy)[i].NonNull?
    decreases |objects|
  {
    if |objects| > 0 {
      SurvivorsOfSkippingPolicy(objects[1..], eval, policy);
    }
  }

  /**
   The four-argument overload: null elements and null values are skipped,
   so only a duplicate or an evaluator failure can stop it.
   */
  function CreateCollectionWithDupes<O, V(==)>(objects: Nullable<seq<Nullable<O>>>, eval: Evaluator<O, V>,
                                           dest: seq<Nullable<V>>, allowDupes: bool): (r: Filled<V>)
    ensures r == ExpectedFill(Source(objects), eval, WithDupes(allowDupes), dest)
    ensures r.Done? ==> r.value == dest + Survivors(Source(objects), eval, WithDupes(allowDupes))
    ensures r.Stopped? ==> r.error.DuplicateKey? || r.error.EvaluatorFailed?
    ensures r.Stopped? && r.error.DuplicateKey? ==> !allowDupes && r.error.key in r.partial
  {
    CreateCollection(objects, eval, dest, WithDupes(allowDupes))
  }

  /**
   The three-argument collection overload: every flag set, so a duplicate
   can never be reported and only an evaluator failure escapes.
   */
  function CreateCollectionLenient<O, V(==)>(objects: Nullable<seq<Nullable<O>>>, eval: Evaluator<O, V>,
                                         dest: seq<Nullable<V>>): (r: Filled<V>)
    ensures r == ExpectedFill(Source(objects), eval, Lenient, dest)
    ensures r.Stopped? ==> r.error.EvaluatorFailed?
    ensures r.Done? ==> r.value == dest + Survivors(Source(objects), eval, Lenient)
  {
    CreateCollection(objects, eval, dest, Lenient)
  }

  /** The array overload: a null array returns the destination as it is. */
  function CreateCollectionFromArray<O, V(==)>(objects: Nullable<seq<Nullable<O>>>, eval: Evaluator<O, V>,
                                           dest: seq<Nullable<V>>): (r: Filled<V>)
    ensures objects.Null? ==> r == Done(dest)
    ensures r == ExpectedFill(Source(objects), eval, Lenient, dest)
  {
    assert dest + [] == dest;
    if objects.Null? then Done(dest) else CreateCollectionLenient(objects, eval, dest)
  }

  /** An evaluator that never throws nor answers null on the source's elements. */
  predicate Total<O, V>(objects: seq<Nullable<O>>, eval: Evaluator<O, V>)
  {
    forall i | 0 <= i < |objects| ::
      objects[i].NonNull? && eval(objects[i].value).Success? && eval(objects[i].value).value.NonNull?
  }

  /**
   With an evaluator that never throws nor answers null and no null element,
   the lenient transform appends exactly one value per element, in order.
   */
  lemma {:induction false} TotalEvaluatorKeepsEverything<O, V>(objects: seq<Nullable<O>>, eval: Evaluator<O, V>,
                                                               dest: seq<Nullable<V>>)
    requires Total(objects, eval)
    ensures CreateCollectionLenient(NonNull(objects), eval, dest)
              == Done(dest + seq(|objects|, i requires 0 <= i < |objects| => eval(objects[i].value).value))
    decreases |objects|
  {
    SurvivorsOfTotal(objects, eval);
    HaltOfTotal(objects, eval);
  }

  lemma {:induction false} SurvivorsOfTotal<O, V>(objects: seq<Nullable<O>>, eval: Evaluator<O, V>)
    requires Total(objects, eval)
    ensures Survivors(objects, eval, Lenient)
              == seq(|objects|, i requires 0 <= i < |objects| => eval(objects[i].value).value)
    decreases |objects|
  {
    if |objects| > 0 {
      assert Total(objects[1..], eval) by {
        forall i | 0 <= i < |objects[1..]| ensures objects[1..][i] == objects[i + 1] { }
      }
      SurvivorsOfTotal(objects[1..], eval);
    }
  }

  lemma {:induction false} HaltOfTotal<O, V>(objects: seq<Nullable<O>>, eval: Evaluator<O, V>)
    requires Total(objects, eval)
    ensures Halt(objects, eval, Lenient) == Null
    decreases |objects|
  {
    if |objects| > 0 {
      assert Total(objects[1..], eval) by {
        forall i | 0 <= i < |objects[1..]| ensures objects[1..][i] == objects[i + 1] { }
      }
      HaltOfTotal(objects[1..], eval);
    }
  }

  /**
   A fill that succeeds with duplicates forbidden succeeds identically with
   them allowed: forbidding duplicates only ever stops a fill early.
   */
  lemma StrictSuccessIsLenientSuccess<O, V>(objects: Nullable<seq<Nullable<O>>>, eval: Evaluator<O, V>,
                                            dest: seq<Nullable<V>>, policy: Policy)
    requires CreateCollection(objects, eval, dest, policy).Done?
    ensures CreateCollection(objects, eval, dest, policy.(allowDupes := true))
              == CreateCollection(objects, eval, dest, policy)
  {
    assert Survivors(Source(objects), eval, policy.(allowDupes := true)) == Survivors(Source(objects), eval, policy)
      by { SurvivorsIgnoreDupes(Source(objects), eval, policy); }
    assert Halt(Source(objects), eval, policy.(allowDupes := true)) == Halt(Source(objects), eval, policy)
      by { HaltIgnoresDupes(Source(objects), eval, policy); }
  }

  lemma {:induction false} SurvivorsIgnoreDupes<O, V>(objects: seq<Nullable<O>>, eval: Evaluator<O, V>, policy: Policy)
    ensures Survivors(objects, eval, policy.(allowDupes := true)) == Survivors(objects, eval, policy)
    decreases |objects|
  {
    if |objects| > 0 {
      SurvivorsIgnoreDupes(objects[1..], eval, policy);
    }
  }

  lemma {:induction false} HaltIgnoresDupes<O, V>(objects: seq<Nullable<O>>, eval: Evaluator<O, V>, policy: Policy)
    ensures Halt(objects, eval, policy.(allowDupes := true)) == Halt(objects, eval, policy)
    decreases |objects|
  {
    if |objects| > 0 {
      HaltIgnoresDupes(objects[1..], eval, policy);
    }
  }

  /** String length as an evaluator that never fails and never answers null. */
  function Length(s: string): Result<Nullable<int>, Exception>
  {
    Success(NonNull(|s|))
  }

  /**
   Words `a`, null, `bb`, `a` by length into an empty list, for a one-letter
   `a` and a two-letter `bb` (such as "a" and "bb"): the null word is
   skipped and the result is [1, 2, 1].
   */
  lemma LengthScenario(a: string, bb: string)
    requires |a| == 1 && |bb| == 2
    ensures CreateCollection(NonNull([NonNull(a), Null, NonNull(bb), NonNull(a)]), Length, [], Lenient)
              == Done([NonNull(1), NonNull(2), NonNull(1)])
  {
    var src := [NonNull(a), Null, NonNull(bb), NonNull(a)];
    var one, two := [NonNull(1)], [NonNull(1), NonNull(2)];
    assert src[1..] == [Null, NonNull(bb), NonNull(a)];
    assert src[1..][1..] == [NonNull(bb), NonNull(a)];
    assert src[1..][1..][1..] == [NonNull(a)];
    assert [] + [NonNull(1)] == one && one + [NonNull(2)] == two;
    assert Fill(src, Length, Lenient, []) == Fill(src[1..], Length, Lenient, one);
    assert Fill(src[1..], Length, Lenient, one) == Fill(src[1..][1..], Length, Lenient, one);
    assert Fill(src[1..][1..], Length, Lenient, one) == Fill(src[1..][1..][1..], Length, Lenient, two);
    assert Fill(src[1..][1..][1..], Length, Lenient, two) == Done(two + [NonNull(1)]);
    assert two + [NonNull(1)] == [NonNull(1), NonNull(2), NonNull(1)];
  }

  /** Forbidding duplicates, the same words stop at the second `a` with [1, 2] filled in. */
  lemma StrictLengthScenario(a: string, bb: string)
    requires |a| == 1 && |bb| == 2
    ensures CreateCollection(NonNull([NonNull(a), Null, NonNull(bb), NonNull(a)]), Length, [], WithDupes(false))
              == Stopped([NonNull(1), NonNull(2)], DuplicateKey(NonNull(1)))
  {
    var src := [NonNull(a), Null, NonNull(bb), NonNull(a)];
    var strict := WithDupes(false);
    var one, two := [NonNull(1)], [NonNull(1), NonNull(2)];
    var r1, r2, r3 := src[1..], src[2..], src[3..];
    assert r1 == [Null, NonNull(bb), NonNull(a)] && r1[1..] == r2;
    assert r2 == [NonNull(bb), NonNull(a)] && r2[1..] == r3;
    assert r3 == [NonNull(a)];
    assert [] + [NonNull(1)] == one && one + [NonNull(2)] == two;
    assert Evaluate(src[0], Length, strict, InList([])) == Keep(NonNull(1));
    assert Fill(src, Length, strict, []) == Fill(r1, Length, strict, one);
    assert Fill(r1, Length, strict, one) == Fill(r2, Length, strict, one);
    assert Evaluate(r2[0], Length, strict, InList(one)) == Keep(NonNull(2));
    assert Fill(r2, Length, strict, one) == Fill(r3, Length, strict, two);
    assert Evaluate(r3[0], Length, strict, InList(two)) == Reject(DuplicateKey(NonNull(1)));
    assert Fill(r3, Length, strict, two) == Stopped(two, DuplicateKey(NonNull(1)));
  }

  // ------------------------------------------------------------------ chunks

  /** The chunks laid end to end. */
  function Flatten<T>(chunks: seq<seq<T>>): seq<T>
  {
    if |chunks| == 0 then [] else chunks[0] + Flatten(chunks[1..])
  }

  lemma {:induction false} FlattenSnoc<T>(chunks: seq<seq<T>>, x: seq<T>)
    ensures Flatten(chunks + [x]) == Flatten(chunks) + x
    decreases |chunks|
  {
    if |chunks| > 0 {
      assert (chunks + [x])[1..] == chunks[1..] + [x];
      FlattenSnoc(chunks[1..], x);
    }
  }

  /** Reference chunking: full chunks of `n`, then what is left, if anything. */
  function Chunks<T>(c: seq<T>, n: nat): seq<seq<T>>
    requires n >= 1
    decreases |c|
  {
    if |c| == 0 then [] else if |c| <= n then [c] else [c[..n]] + Chunks(c[n..], n)
  }

  /** What the chunks of a collection must look like for a chunk size `n >= 1`. */
  ghost predicate WellChunked<T>(chunks: seq<seq<T>>, c: seq<T>, n: nat)
  {
    && Flatten(chunks) == c
    && (forall i | 0 <= i < |chunks| :: 1 <= |chunks[i]| <= n)
    && (forall i | 0 <= i < |chunks| - 1 :: |chunks[i]| == n)
  }

  /** Only one list of chunks is well chunked: the reference one. */
  lemma {:induction false} WellChunkedIsUnique<T>(chunks: seq<seq<T>>, c: seq<T>, n: nat)
    requires n >= 1 && WellChunked(chunks, c, n)
    ensures chunks == Chunks(c, n)
    decreases |chunks|
  {
    if |chunks| == 0 {
    } else if |chunks| == 1 {
      assert Flatten(chunks) == chunks[0];
    } else {
      var rest := chunks[1..];
      assert c == chunks[0] + Flatten(rest);
      assert |Flatten(rest)| >= 1 by { assert Flatten(rest) == rest[0] + Flatten(rest[1..]); }
      assert c[..n] == chunks[0];
      assert c[n..] == Flatten(rest);
      assert WellChunked(rest, c[n..], n) by {
        forall i | 0 <= i < |rest| ensures rest[i] == chunks[i + 1] { }
      }
      WellChunkedIsUnique(rest, c[n..], n);
    }
  }

  /** Full chunks followed by a last, partial one are well chunked. */
  lemma LastChunk<T>(chunks: seq<seq<T>>, step: seq<T>, c: seq<T>, n: nat)
    requires Flatten(chunks) + step == c && 1 <= |step| <= n
    requires forall k | 0 <= k < |chunks| :: |chunks[k]| == n
    ensures WellChunked(chunks + [step], c, n)
  {
    FlattenSnoc(chunks, step);
    var all := chunks + [step];
    assert forall k | 0 <= k < |chunks| :: all[k] == chunks[k];
  }

  /**
   The state of the chunking loop after reading `prefix`: the closed chunks
   and the open one lay end to end as the prefix; for a positive size the
   closed chunks are full and the open one is neither empty nor over-full;
   a size of zero closes one empty chunk at the first element; a negative
   size never closes a chunk.
   */
  ghost predicate Progress<T>(chunks: seq<seq<T>>, step: seq<T>, prefix: seq<T>, n: int)
  {
    && Flatten(chunks) + step == prefix
    && (n >= 1 ==> (forall k | 0 <= k < |chunks| :: |chunks[k]| == n)
                   && |step| <= n && (|prefix| > 0 ==> |step| >= 1))
    && (n == 0 ==> if |prefix| == 0 then chunks == [] && step == [] else chunks == [[]] && step == prefix)
    && (n < 0 ==> chunks == [] && step == prefix)
  }

  /** One element read: a full open chunk is closed first, then the element joins the open chunk. */
  function Advance<T>(chunks: seq<seq<T>>, step: seq<T>, x: T, n: int): (seq<seq<T>>, seq<T>)
  {
    if |step| == n then (chunks + [step], [x]) else (chunks, step + [x])
  }

  lemma AdvanceKeepsProgress<T>(chunks: seq<seq<T>>, step: seq<T>, prefix: seq<T>, x: T, n: int)
    requires Progress(chunks, step, prefix, n)
    ensures Progress(Advance(chunks, step, x, n).0, Advance(chunks, step, x, n).1, prefix + [x], n)
  {
    if |step| == n {
      FlattenSnoc(chunks, step);
      assert Flatten(chunks + [step]) + [x] == prefix + [x];
    } else {
      assert Flatten(chunks) + (step + [x]) == prefix + [x];
    }
  }

  /** Closing the open chunk, if any, after the whole collection gives the promised chunks. */
  lemma ProgressComplete<T>(chunks: seq<seq<T>>, step: seq<T>, c: seq<T>, n: int)
    requires Progress(chunks, step, c, n)
    ensures var r := if |step| > 0 then chunks + [step] else chunks;
            && Flatten(r) == c
            && (|c| == 0 ==> r == [])
            && (n >= 1 ==> WellChunked(r, c, n) && r == Chunks(c, n))
            && (n == 0 && |c| > 0 ==> r == [[], c])
            && (n < 0 && |c| > 0 ==> r == [c])
  {
    var r := if |step| > 0 then chunks + [step] else chunks;
    if |step| > 0 {
      FlattenSnoc(chunks, step);
      if n >= 1 {
        LastChunk(chunks, step, c, n);
      }
    } else {
      assert Flatten(chunks) == c;
    }
    if n >= 1 {
      WellChunkedIsUnique(r, c, n);
    }
  }

  /**
   `breakCollection`: consecutive chunks that lay end to end give the
   source. For `maxElements >= 1` they are the full chunks of that size
   followed by the remainder; a size of zero yields an empty first chunk and
   a negative size a single chunk.
   */
  method BreakCollection<T>(c: seq<T>, maxElements: int) returns (chunks: seq<seq<T>>)
    ensures Flatten(chunks) == c
    ensures |c| == 0 ==> chunks == []
    ensures maxElements >= 1 ==> WellChunked(chunks, c, maxElements)
    ensures maxElements >= 1 ==> chunks == Chunks(c, maxElements)
    ensures maxElements == 0 && |c| > 0 ==> chunks == [[], c]
    ensures maxElements < 0 && |c| > 0 ==> chunks == [c]
  {
    chunks := [];
    var step: seq<T> := [];
    var i := 0;
    while i < |c|
      invariant 0 <= i <= |c|
      invariant Progress(chunks, step, c[..i], maxElements)
    {
      AdvanceKeepsProgress(chunks, step, c[..i], c[i], maxElements);
      if |step| == maxElements {
        chunks := chunks + [step];
        step := [];
      }
      step := step + [c[i]];
      assert c[..i + 1] == c[..i] + [c[i]];
      i := i + 1;
    }
    assert c[..i] == c;
    ProgressComplete(chunks, step, c, maxElements);
    if |step| > 0 {
      chunks := chunks + [step];
    }
  }

  /** [1..7] in chunks of 3 is [[1, 2, 3], [4, 5, 6], [7]]. */
  lemma ChunkScenario()
    ensures Chunks([1, 2, 3, 4, 5, 6, 7], 3) == [[1, 2, 3], [4, 5, 6], [7]]
  {
    var c := [1, 2, 3, 4, 5, 6, 7];
    assert c[..3] == [1, 2, 3] && c[3..] == [4, 5, 6, 7];
    assert c[3..][..3] == [4, 5, 6] && c[3..][3..] == [7];
  }

  // ------------------------------------------------------------------- join

  /**
   `CollectionUtil.join`: the elements' strings, computed with every flag
   set, joined with the separator; `emptyMessage` when none survives. An
   evaluator failure propagates.
   */
  method Join<O>(c: Nullable<seq<Nullable<O>>>, eval: Evaluator<O, string>, sep: string, emptyMessage: string)
    returns (r: Result<string, Exception>)
    ensures var s := Survivors(Source(c), eval, Lenient);
            match Halt(Source(c), eval, Lenient)
            case NonNull(e) => e.EvaluatorFailed? && r == Failure(e.cause)
            case Null =>
              && (|s| == 0 ==> r == Success(emptyMessage))
              && (|s| > 0 ==> r == Success(UString.Concat(UString.Texts(s), sep)))
  {
    var strings := CreateCollectionLenient(c, eval, []);
    LenientHaltIsEvaluatorFailure(Source(c), eval);
    assert [] + Survivors(Source(c), eval, Lenient) == Survivors(Source(c), eval, Lenient);
    if strings.Stopped? {
      r := Failure(strings.error.cause);
    } else if |strings.value| > 0 {
      var joined := UString.Join(strings.value, sep);
      r := Success(joined);
    } else {
      r := Success(emptyMessage);
    }
  }

  /** The three-argument `join`: the empty message is `""`. */
  method JoinOrEmpty<O>(c: Nullable<seq<Nullable<O>>>, eval: Evaluator<O, string>, sep: string)
    returns (r: Result<string, Exception>)
    ensures var s := Survivors(Source(c), eval, Lenient);
            match Halt(Source(c), eval, Lenient)
            case NonNull(e) => e.EvaluatorFailed? && r == Failure(e.cause)
            case Null =>
              && (|s| == 0 ==> r == Success(""))
              && (|s| > 0 ==> r == Success(UString.Concat(UString.Texts(s), sep)))
  {
    r := Join(c, eval, sep, "");
  }

  /** `addIfNotNull`: the element is appended exactly when it is not null. */
  function AddIfNotNull<T>(element: Nullable<T>, c: seq<T>): (r: seq<T>)
    ensures element.Null? <==> r == c
    ensures element.NonNull? ==> |r| == |c| + 1 && r[..|c|] == c && r[|c|] == element.value
  {
    if element.NonNull? then c + [element.value] else c
  }
}
