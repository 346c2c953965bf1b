/**
 `MapUtil`: maps generated from a collection by a key evaluator, the
 get-or-initialise lookup, and the lazy initialisers it is used with.
 */
module MapUtil {
  import opened Lang
  import opened Evaluation

  /** A map from (possibly null) keys to the non-null source elements they came from. */
  type KeyMap<K(==), O> = map<Nullable<K>, O>

  type Generated<K(==), O> = Partial<KeyMap<K, O>, TransformError<K>>

  /** `InternalHashMap.checkIfDupe`: a key is a duplicate when the map already holds it. */
  function InKeys<K(==), O>(m: KeyMap<K, O>): Nullable<K> -> bool
  {
    k => k in m
  }

  /** The map checker reports a key exactly when the map holds it, and a stored key stays reported. */
  lemma InKeysIsContainsKey<K, O>(m: KeyMap<K, O>, k: Nullable<K>, j: Nullable<K>, x: O)
    ensures InKeys(m)(k) <==> k in m.Keys
    ensures InKeys(m[j := x])(j)
    ensures InKeys(m)(k) ==> InKeys(m[j := x])(k)
  {
  }

  /**
   The loop of `generateMap`: each element is judged by the engine against
   the keys stored so far, and a kept element is stored under its key,
   replacing any element stored there before.
   */
  function FillMap<O, K(==)>(items: seq<Nullable<O>>, gen: Evaluator<O, K>, policy: Policy,
                         acc: KeyMap<K, O>): (r: Generated<K, O>)
    ensures acc.Keys <= r.Contents().Keys
    ensures forall k | k in r.Contents() :: (k in acc && r.Contents()[k] == acc[k]) || NonNull(r.Contents()[k]) in items
    ensures !policy.allowDupes ==> forall k | k in acc :: r.Contents()[k] == acc[k]
    ensures policy.allowDupes ==> !(r.Stopped? && r.error.DuplicateKey?)
    ensures policy.skipNullObjects ==> !(r.Stopped? && r.error.NullElement?)
    ensures r.Stopped? && r.error.DuplicateKey? ==> r.error.key in r.partial
    decreases |items|
  {
    if |items| == 0 then Done(acc)
    else match Evaluate(items[0], gen, policy, InKeys(acc))
      case Skip => FillMap(items[1..], gen, policy, acc)
      case Keep(k) => FillMap(items[1..], gen, policy, acc[k := items[0].value])
      case Reject(e) => Stopped(acc, e)
  }

  // ---------------------------------------------------------------------------
  // An independent reference: the entries that survive, stored in order.
  // ---------------------------------------------------------------------------

  /** The (key, element) pairs that the engine keeps when no duplicate is checked for, in source order. */
  function SurvivingEntries<O, K(==)>(items: seq<Nullable<O>>, gen: Evaluator<O, K>, policy: Policy): seq<(Nullable<K>, O)>
  {
    if |items| == 0 then []
    else match Judge(items[0], gen, policy)
      case Skip => SurvivingEntries(items[1..], gen, policy)
      case Keep(k) => [(k, items[0].value)] + SurvivingEntries(items[1..], gen, policy)
      case Reject(_) => []
  }

  /** The keys of a sequence of entries, in order. */
  function KeysOf<K(==), O>(t: seq<(K, O)>): (r: seq<K>)
    ensures |r| == |t|
    ensures forall i | 0 <= i < |t| :: r[i] == t[i].0
  {
    seq(|t|, i requires 0 <= i < |t| => t[i].0)
  }

  /** The set of keys of a sequence of entries. */
  function KeySet<K(==), O>(t: seq<(K, O)>): set<K>
  {
    set i | 0 <= i < |t| :: t[i].0
  }

  /** The position of the last entry with key `k`. */
  function LastIndexOf<K(==), O>(t: seq<(K, O)>, k: K): (i: nat)
    requires k in KeySet(t)
    ensures i < |t| && t[i].0 == k
    ensures forall j | i < j < |t| :: t[j].0 != k
  {
    if t[|t| - 1].0 == k then |t| - 1
    else
      assert k in KeySet(t[..|t| - 1]) by {
        var i :| 0 <= i < |t| && t[i].0 == k;
        assert t[..|t| - 1][i].0 == k;
      }
      LastIndexOf(t[..|t| - 1], k)
  }

  /**
   `acc` after the entries `t` are put into it one after the other: every
   key of `t` holds the element of its last entry, the other keys of `acc`
   are untouched.
   */
  function Stored<K(==), O>(acc: KeyMap<K, O>, t: seq<(Nullable<K>, O)>): KeyMap<K, O>
  {
    map k | k in acc.Keys + KeySet(t) :: if k in KeySet(t) then t[LastIndexOf(t, k)].1 else acc[k]
  }

  /** The keys of an entry followed by more entries. */
  lemma KeySetCons<K, O>(k: K, x: O, t: seq<(K, O)>)
    ensures KeySet([(k, x)] + t) == {k} + KeySet(t)
  {
    var c := [(k, x)] + t;
    forall q | q in KeySet(c) ensures q in {k} + KeySet(t) {
      var i :| 0 <= i < |c| && c[i].0 == q;
      if i > 0 { assert t[i - 1].0 == q; }
    }
    forall q | q in KeySet(t) ensures q in KeySet(c) {
      var i :| 0 <= i < |t| && t[i].0 == q;
      assert c[i + 1].0 == q;
    }
    assert c[0].0 == k;
  }

  /** A key of the tail is last entered one place further on once an entry is put in front. */
  lemma LastIndexOfCons<K, O>(k: K, x: O, t: seq<(K, O)>, q: K)
    requires q in KeySet(t)
    ensures q in KeySet([(k, x)] + t)
    ensures LastIndexOf([(k, x)] + t, q) == 1 + LastIndexOf(t, q)
  {
    var c := [(k, x)] + t;
    var i := LastIndexOf(t, q);
    assert c[1 + i].0 == q;
    var i' := LastIndexOf(c, q);
  }

  /** A key that the tail does not mention is last entered at the front. */
  lemma LastIndexOfHead<K, O>(k: K, x: O, t: seq<(K, O)>)
    requires k !in KeySet(t)
    ensures k in KeySet([(k, x)] + t)
    ensures LastIndexOf([(k, x)] + t, k) == 0
  {
    var c := [(k, x)] + t;
    assert c[0].0 == k;
    var i' := LastIndexOf(c, k);
  }

  /** What `Stored` holds under one key. */
  lemma StoredAt<K, O>(acc: KeyMap<K, O>, t: seq<(Nullable<K>, O)>, q: Nullable<K>)
    ensures q in Stored(acc, t) <==> q in acc || q in KeySet(t)
    ensures q in KeySet(t) ==> Stored(acc, t)[q] == t[LastIndexOf(t, q)].1
    ensures q !in KeySet(t) && q in acc ==> Stored(acc, t)[q] == acc[q]
  {
  }

  /** Putting one entry and then the rest is putting all of them. */
  lemma StoredCons<K, O>(acc: KeyMap<K, O>, k: Nullable<K>, x: O, t: seq<(Nullable<K>, O)>)
    ensures Stored(acc[k := x], t) == Stored(acc, [(k, x)] + t)
  {
    var l := Stored(acc[k := x], t);
    var r := Stored(acc, [(k, x)] + t);
    forall q ensures (q in l <==> q in r) && (q in l ==> l[q] == r[q]) {
      StoredConsAt(acc, k, x, t, q);
    }
    MapsAgree(l, r);
  }

  /** Maps with the same keys and the same value under each key are equal. */
  lemma MapsAgree<K, V>(l: map<K, V>, r: map<K, V>)
    requires forall q :: (q in l <==> q in r) && (q in l ==> l[q] == r[q])
    ensures l == r
  {
  }

  /** Under each key, putting one entry and then the rest agrees with putting all of them. */
  lemma StoredConsAt<K, O>(acc: KeyMap<K, O>, k: Nullable<K>, x: O, t: seq<(Nullable<K>, O)>, q: Nullable<K>)
    ensures q in Stored(acc[k := x], t) <==> q in Stored(acc, [(k, x)] + t)
    ensures q in Stored(acc[k := x], t) ==> Stored(acc[k := x], t)[q] == Stored(acc, [(k, x)] + t)[q]
  {
    var c := [(k, x)] + t;
    KeySetCons(k, x, t);
    StoredAt(acc[k := x], t, q);
    StoredAt(acc, c, q);
    if q in KeySet(t) {
      LastIndexOfCons(k, x, t, q);
    } else if q == k {
      LastIndexOfHead(k, x, t);
    }
  }

  /**
   The reference result of a map fill from `acc`: with duplicates forbidden,
   the first surviving key that is already stored (or repeats an earlier one)
   stops the fill after the entries before it; otherwise the first
   non-duplicate failure stops it after all surviving entries; with no
   failure every surviving entry is stored.
   */
  function ExpectedMap<O, K(==)>(items: seq<Nullable<O>>, gen: Evaluator<O, K>, policy: Policy,
                             acc: KeyMap<K, O>): Generated<K, O>
  {
    ExpectedEntries(acc, SurvivingEntries(items, gen, policy), Halt(items, gen, policy), policy.allowDupes)
  }

  /** The reference result from the surviving entries `t` and the failure `halt` that ends the pass, if any. */
  function ExpectedEntries<K(==), O>(acc: KeyMap<K, O>, t: seq<(Nullable<K>, O)>, halt: Nullable<TransformError<K>>,
                                     allowDupes: bool): Generated<K, O>
  {
    var j := FirstRepeat(acc.Keys, KeysOf(t));
    if !allowDupes && j < |t| then Stopped(Stored(acc, t[..j]), DuplicateKey(t[j].0))
    else match halt
      case Null => Done(Stored(acc, t))
      case NonNull(e) => Stopped(Stored(acc, t), e)
  }

  /** A fill that stops at once leaves the accumulator as it is. */
  lemma StoredNothing<K, O>(acc: KeyMap<K, O>)
    ensures Stored(acc, []) == acc
  {
  }

  /** The keys of the surviving entries after a kept element. */
  lemma KeysOfCons<K, O>(k: K, x: O, t: seq<(K, O)>)
    ensures KeysOf([(k, x)] + t) == [k] + KeysOf(t)
  {
  }

  /** Storing a prefix of the entries after a new front entry is storing the front entry first. */
  lemma StoredPrefixCons<K, O>(acc: KeyMap<K, O>, k: Nullable<K>, x: O, t': seq<(Nullable<K>, O)>, n: nat)
    requires n <= |t'|
    ensures Stored(acc, ([(k, x)] + t')[..1 + n]) == Stored(acc[k := x], t'[..n])
  {
    PrefixCons((k, x), t', n);
    StoredCons(acc, k, x, t'[..n]);
  }

  /** Checked against the stored keys, a new key in front moves the first repeat one place on. */
  lemma KeyRepeatCons<K, O>(acc: KeyMap<K, O>, k: Nullable<K>, x: O, t': seq<(Nullable<K>, O)>)
    requires k !in acc
    ensures FirstRepeat(acc.Keys, KeysOf([(k, x)] + t')) == 1 + FirstRepeat(acc[k := x].Keys, KeysOf(t'))
  {
    KeysOfCons(k, x, t');
    assert acc[k := x].Keys == acc.Keys + {k};
    FirstRepeatCons(acc.Keys, k, KeysOf(t'));
  }

  /** A kept first element is the first surviving entry, and the pass halts as the rest does. */
  lemma SurvivingKeep<O, K>(items: seq<Nullable<O>>, gen: Evaluator<O, K>, policy: Policy, k: Nullable<K>)
    requires |items| > 0 && Judge(items[0], gen, policy) == Keep(k)
    ensures SurvivingEntries(items, gen, policy) == [(k, items[0].value)] + SurvivingEntries(items[1..], gen, policy)
    ensures Halt(items, gen, policy) == Halt(items[1..], gen, policy)
  {
  }

  /** A new front entry moves from the entries into the stored map. */
  lemma ExpectedEntriesCons<K, O>(acc: KeyMap<K, O>, k: Nullable<K>, x: O, t': seq<(Nullable<K>, O)>,
                                  halt: Nullable<TransformError<K>>, allowDupes: bool)
    requires allowDupes || k !in acc
    ensures ExpectedEntries(acc, [(k, x)] + t', halt, allowDupes) == ExpectedEntries(acc[k := x], t', halt, allowDupes)
  {
    StoredCons(acc, k, x, t');
    if !allowDupes {
      StrictEntriesCons(acc, k, x, t', halt);
    }
  }

  /** With duplicates forbidden, a new front key shifts the first repeat and the stored prefix by one entry. */
  lemma StrictEntriesCons<K, O>(acc: KeyMap<K, O>, k: Nullable<K>, x: O, t': seq<(Nullable<K>, O)>,
                                halt: Nullable<TransformError<K>>)
    requires k !in acc
    ensures ExpectedEntries(acc, [(k, x)] + t', halt, false) == ExpectedEntries(acc[k := x], t', halt, false)
  {
    var t := [(k, x)] + t';
    var acc' := acc[k := x];
    var j' := FirstRepeat(acc'.Keys, KeysOf(t'));
    KeyRepeatCons(acc, k, x, t');
    assert FirstRepeat(acc.Keys, KeysOf(t)) == 1 + j';
    if j' < |t'| {
      StoredPrefixCons(acc, k, x, t', j');
      assert t[1 + j'] == t'[j'];
    } else {
      StoredCons(acc, k, x, t');
    }
  }

  /** A new key kept by the engine moves the reference one entry on. */
  lemma ExpectedMapKeep<O, K>(items: seq<Nullable<O>>, gen: Evaluator<O, K>, policy: Policy,
                              acc: KeyMap<K, O>, k: Nullable<K>)
    requires |items| > 0 && Judge(items[0], gen, policy) == Keep(k)
    requires policy.allowDupes || k !in acc
    ensures ExpectedMap(items, gen, policy, acc) == ExpectedMap(items[1..], gen, policy, acc[k := items[0].value])
  {
    SurvivingKeep(items, gen, policy, k);
    ExpectedEntriesCons(acc, k, items[0].value, SurvivingEntries(items[1..], gen, policy),
                        Halt(items[1..], gen, policy), policy.allowDupes);
  }

  /** A stored key kept again by the strict engine stops the reference right there. */
  lemma ExpectedMapRepeat<O, K>(items: seq<Nullable<O>>, gen: Evaluator<O, K>, policy: Policy,
                                acc: KeyMap<K, O>, k: Nullable<K>)
    requires |items| > 0 && Judge(items[0], gen, policy) == Keep(k)
    requires !policy.allowDupes && k in acc
    ensures ExpectedMap(items, gen, policy, acc) == Stopped(acc, DuplicateKey(k))
  {
    var t := SurvivingEntries(items, gen, policy);
    assert t[0] == (k, items[0].value);
    assert KeysOf(t)[0] == k;
    assert FirstRepeat(acc.Keys, KeysOf(t)) == 0;
    assert t[..0] == [];
    StoredNothing(acc);
  }

  /** The loop of `generateMap` agrees with the reference, whatever is already stored. */
  lemma {:induction false} FillMapMatchesExpected<O, K>(items: seq<Nullable<O>>, gen: Evaluator<O, K>, policy: Policy,
                                                        acc: KeyMap<K, O>)
    ensures FillMap(items, gen, policy, acc) == ExpectedMap(items, gen, policy, acc)
    decreases |items|
  {
    if |items| == 0 {
      assert SurvivingEntries(items, gen, policy) == [];
      StoredNothing(acc);
    } else {
      if policy.allowDupes {
        DupesAllowedIgnoresChecker(items[0], gen, policy, InKeys(acc));
      } else {
        StrictEvaluateAgainstJudge(items[0], gen, policy, InKeys(acc));
      }
      match Judge(items[0], gen, policy)
      case Skip =>
        FillMapMatchesExpected(items[1..], gen, policy, acc);
      case Reject(e) =>
        var t := SurvivingEntries(items, gen, policy);
        assert t == [];
        StoredNothing(acc);
      case Keep(k) =>
        if !policy.allowDupes && k in acc {
          ExpectedMapRepeat(items, gen, policy, acc, k);
        } else {
          FillMapMatchesExpected(items[1..], gen, policy, acc[k := items[0].value]);
          ExpectedMapKeep(items, gen, policy, acc, k);
        }
    }
  }

  // ---------------------------------------------------------------------------
  // generateMap and its overloads
  // ---------------------------------------------------------------------------

  /**
   `generateMap(items, generator, allowDupes, skipNullObjects, skipNullValues)`:
   a null source gives an empty map; otherwise the result is the reference
   fill from the empty map, so a later element replaces an earlier one with
   the same key (when duplicates are allowed), and every stored value is one
   of the source elements.
   */
  function GenerateMap<O, K(==)>(items: Nullable<seq<Nullable<O>>>, gen: Evaluator<O, K>, policy: Policy): (r: Generated<K, O>)
    ensures items.Null? ==> r == Done(map[])
    ensures r == ExpectedMap(Source(items), gen, policy, map[])
    ensures forall k | k in r.Contents() :: NonNull(r.Contents()[k]) in Source(items)
    ensures policy.allowDupes ==> !(r.Stopped? && r.error.DuplicateKey?)
    ensures policy.skipNullObjects ==> !(r.Stopped? && r.error.NullElement?)
    ensures r.Stopped? && r.error.DuplicateKey? ==> r.error.key in r.partial
  {
    FillMapMatchesExpected(Source(items), gen, policy, map[]);
    FillMap(Source(items), gen, policy, map[])
  }

  /**
   `generateMap(items, generator, allowDupes, skipNullObjects)`: null keys
   are skipped, so every stored key is present.
   */
  function GenerateMapWithNullObjects<O, K(==)>(items: Nullable<seq<Nullable<O>>>, gen: Evaluator<O, K>,
                                            allowDupes: bool, skipNullObjects: bool): (r: Generated<K, O>)
    ensures r == GenerateMap(items, gen, WithNullObjects(allowDupes, skipNullObjects))
    ensures forall k | k in r.Contents() :: k.NonNull?
  {
    var r := GenerateMap(items, gen, WithNullObjects(allowDupes, skipNullObjects));
    SkippingPolicyStoresNoNullKey(Source(items), gen, WithNullObjects(allowDupes, skipNullObjects), map[]);
    r
  }

  /** `generateMap(items, generator, allowDupes)`: null elements and null keys are skipped. */
  function GenerateMapWithDupes<O, K(==)>(items: Nullable<seq<Nullable<O>>>, gen: Evaluator<O, K>, allowDupes: bool): (r: Generated<K, O>)
    ensures r == GenerateMapWithNullObjects(items, gen, allowDupes, true)
    ensures !(r.Stopped? && r.error.NullElement?)
    ensures forall k | k in r.Contents() :: k.NonNull?
  {
    GenerateMapWithNullObjects(items, gen, allowDupes, true)
  }

  /**
   `generateMap(items, generator)`: everything tolerated, so only an
   evaluator failure can stop it, and the result is the surviving entries
   stored in order.
   */
  function GenerateMapLenient<O, K(==)>(items: Nullable<seq<Nullable<O>>>, gen: Evaluator<O, K>): (r: Generated<K, O>)
    ensures r == GenerateMapWithDupes(items, gen, true)
    ensures r.Stopped? ==> r.error.EvaluatorFailed?
    ensures r.Contents() == Stored(map[], SurvivingEntries(Source(items), gen, Lenient))
  {
    LenientHaltIsEvaluatorFailure(Source(items), gen);
    GenerateMapWithDupes(items, gen, true)
  }

  /** With null keys skipped the loop never stores a null key it was not given. */
  lemma {:induction false} SkippingPolicyStoresNoNullKey<O, K>(items: seq<Nullable<O>>, gen: Evaluator<O, K>,
                                                               policy: Policy, acc: KeyMap<K, O>)
    requires policy.skipNullValues
    requires forall k | k in acc :: k.NonNull?
    ensures forall k | k in FillMap(items, gen, policy, acc).Contents() :: k.NonNull?
    decreases |items|
  {
    if |items| > 0 {
      match Evaluate(items[0], gen, policy, InKeys(acc))
      case Skip => SkippingPolicyStoresNoNullKey(items[1..], gen, policy, acc);
      case Keep(k) => SkippingPolicyStoresNoNullKey(items[1..], gen, policy, acc[k := items[0].value]);
      case Reject(_) =>
    }
  }

  // ---------------------------------------------------------------------------
  // Scenarios
  // ---------------------------------------------------------------------------

  /** A key generator: the first character of a string; `charAt(0)` of "" throws. */
  function FirstLetter(s: string): Result<Nullable<char>, Exception>
  {
    if |s| == 0 then Failure(IndexOutOfBounds(0)) else Success(NonNull(s[0]))
  }

  const Fruit: seq<Nullable<string>> := [NonNull("apple"), NonNull("apricot"), NonNull("banana")]

  /** Two fruits with the same first letter: the later one is stored. */
  lemma FirstLetterScenario()
    ensures GenerateMapLenient(NonNull(Fruit), FirstLetter)
              == Done(map[NonNull('a') := "apricot", NonNull('b') := "banana"])
  {
    var m0: KeyMap<char, string> := map[];
    var m1 := m0[NonNull('a') := "apple"];
    var m2 := m1[NonNull('a') := "apricot"];
    var m3 := m2[NonNull('b') := "banana"];
    assert FirstLetter("apple") == Success(NonNull('a'));
    assert FirstLetter("apricot") == Success(NonNull('a'));
    assert FirstLetter("banana") == Success(NonNull('b'));
    assert FillMap(Fruit[3..], FirstLetter, Lenient, m3) == Done(m3);
    assert FillMap(Fruit[2..], FirstLetter, Lenient, m2) == Done(m3);
    assert FillMap(Fruit[1..], FirstLetter, Lenient, m1) == Done(m3);
    assert FillMap(Fruit, FirstLetter, Lenient, m0) == Done(m3);
    assert m3 == map[NonNull('a') := "apricot", NonNull('b') := "banana"];
  }

  /** A generator that gives every element the same key. */
  function SameKey(s: string): Result<Nullable<string>, Exception>
  {
    Success(NonNull("dup"))
  }

  /** With duplicates forbidden the second element with the key stops the fill after the first. */
  lemma SameKeyScenario()
    ensures GenerateMapWithDupes(NonNull([NonNull("x"), NonNull("y")]), SameKey, false)
              == Stopped(map[NonNull("dup") := "x"], DuplicateKey(NonNull("dup")))
  {
    var items := [NonNull("x"), NonNull("y")];
    var m0: KeyMap<string, string> := map[];
    var m1 := m0[NonNull("dup") := "x"];
    assert FillMap(items[1..], SameKey, WithDupes(false), m1) == Stopped(m1, DuplicateKey(NonNull("dup")));
    assert FillMap(items, SameKey, WithDupes(false), m0) == Stopped(m1, DuplicateKey(NonNull("dup")));
  }

  // ---------------------------------------------------------------------------
  // get: look up or initialise
  // ---------------------------------------------------------------------------

  /** The answer of a lookup and the map after it. */
  datatype Lookup<K(==), V> = Lookup(value: V, store: map<K, V>)

  /**
   `get(map, key, initValue, initializer)`: a stored key answers its value
   (null included) and leaves the map alone; a missing key is initialised
   from `initValue`, the result is stored under it and answered; a failing
   initializer propagates and stores nothing.
   */
  function GetOrInit<K(==), I, V>(m: map<K, Nullable<V>>, key: K, init: I, f: Evaluator<I, V>): (r: Result<Lookup<K, Nullable<V>>, Exception>)
    ensures key in m ==> r == Success(Lookup(m[key], m))
    ensures key !in m && f(init).Failure? ==> r == Failure(f(init).error)
    ensures key !in m && f(init).Success? ==> r.Success? && r.value.value == f(init).value
    ensures r.Success? ==> r.value.store.Keys == m.Keys + {key}
    ensures r.Success? ==> r.value.store[key] == r.value.value
    ensures r.Success? ==> forall k | k in m :: r.value.store[k] == m[k]
  {
    if key in m then Success(Lookup(m[key], m))
    else match f(init)
      case Failure(e) => Failure(e)
      case Success(x) => Success(Lookup(x, m[key := x]))
  }

  /** Once a key is stored, the initializer is never consulted again: a second lookup answers the same. */
  lemma GetOrInitTwice<K, I, J, V>(m: map<K, Nullable<V>>, key: K, init: I, f: Evaluator<I, V>,
                                   init': J, g: Evaluator<J, V>)
    requires GetOrInit(m, key, init, f).Success?
    ensures var l := GetOrInit(m, key, init, f).value;
            GetOrInit(l.store, key, init', g) == Success(l)
  {
  }

  /** A stored key's answer does not depend on the initializer at all. */
  lemma StoredKeyIgnoresInitializer<K, I, J, V>(m: map<K, Nullable<V>>, key: K, init: I, f: Evaluator<I, V>,
                                                init': J, g: Evaluator<J, V>)
    requires key in m
    ensures GetOrInit(m, key, init, f) == GetOrInit(m, key, init', g)
  {
  }

  // ---------------------------------------------------------------------------
  // LazyInit and LazyCallable
  // ---------------------------------------------------------------------------

  const ErrorCreating := "Error creating new object"
  const MissingInitializer := "Missing initializer"

  /** `LazyInit`: an evaluator that ignores its argument and calls `call`. */
  datatype LazyInit<V> = LazyInit(call: () -> Result<Nullable<V>, Exception>) {
    /** `evaluate`: the call's value, or its failure wrapped in a runtime exception. */
    function Evaluate<A>(obj: A): (r: Result<Nullable<V>, Exception>)
      ensures call().Success? ==> r == call()
      ensures call().Failure? ==> r == Failure(Runtime(ErrorCreating, NonNull(call().error)))
    {
      match call()
      case Success(v) => Success(v)
      case Failure(e) => Failure(Runtime(ErrorCreating, NonNull(e)))
    }

    /** This initializer as an evaluator on `A`. */
    function AsEvaluator<A>(): Evaluator<A, V>
    {
      a => Evaluate(a)
    }
  }

  /** The argument of a lazy initializer makes no difference. */
  lemma LazyIgnoresArgument<A, V>(lazy: LazyInit<V>, a: A, b: A)
    ensures lazy.Evaluate(a) == lazy.Evaluate(b)
    ensures lazy.Evaluate(a).Success? <==> lazy.call().Success?
  {
  }

  /** `new LazyCallable(callable)`: a null callable is refused. */
  function LazyCallable<V>(callable: Nullable<() -> Result<Nullable<V>, Exception>>): (r: Result<LazyInit<V>, Exception>)
    ensures callable.Null? <==> r == Failure(Runtime(MissingInitializer, Null))
    ensures callable.NonNull? ==> r.Success? && r.value.call == callable.value
  {
    if callable.Null? then Failure(Runtime(MissingInitializer, Null)) else Success(LazyInit(callable.value))
  }

  /** `get(map, key, lazyInit)`: the lookup with a null init value and the lazy initializer. */
  function GetLazy<K(==), V>(m: map<K, Nullable<V>>, key: K, lazy: LazyInit<V>): (r: Result<Lookup<K, Nullable<V>>, Exception>)
    ensures r == GetOrInit(m, key, Null, lazy.AsEvaluator<Nullable<()>>())
    ensures key in m ==> r == Success(Lookup(m[key], m))
    ensures key !in m && lazy.call().Success? ==> r == Success(Lookup(lazy.call().value, m[key := lazy.call().value]))
    ensures key !in m && lazy.call().Failure? ==> r == Failure(Runtime(ErrorCreating, NonNull(lazy.call().error)))
  {
    GetOrInit(m, key, Null, lazy.AsEvaluator<Nullable<()>>())
  }

  /** `unmodifiableMap(initializer)`: the map the initializer fills in starting from an empty one. */
  function UnmodifiableMap<K(==), V>(initMap: map<K, V> -> map<K, V>): map<K, V>
  {
    initMap(map[])
  }
}
