/**
 The never-null maps (`NNMap` and its hash, linked and tree flavours, and
 the `SNN` variants built on a lazy initializer): a map whose `get` of a
 missing key initialises the key from the key itself, stores the result
 and answers it; every other operation is the backing map's.
 */
module NeverNull {
  import opened Lang
  import opened Evaluation
  import MapUtil

  /**
   Which kind of map backs a never-null map. Keys are identified by equality,
   so a tree-backed map stands for one whose comparator agrees with `equals`
   and which never receives a null key.
   */
  datatype Backing = HashBacked | LinkedBacked | TreeBacked

  /** A never-null map: the backing store, the key initializer, and the backing kind. */
  datatype NNMap<!K(==), V(==)> = NNMap(store: map<K, Nullable<V>>, init: Evaluator<K, V>, backing: Backing) {

    /** `size`. */
    function Size(): (n: nat)
      ensures n == 0 <==> store == map[]
    {
      |store|
    }

    /** `isEmpty`: the backing map holds no key. */
    function IsEmpty(): (b: bool)
      ensures b <==> Size() == 0
      ensures b <==> store.Keys == {}
    {
      store == map[]
    }

    /** `containsKey`: the backing map has the key, whatever value (null included) it holds. */
    function ContainsKey(k: K): (b: bool)
      ensures b <==> k in store.Keys
    {
      k in store
    }

    /**
     `containsValue` as written: the argument is looked up among the KEYS,
     so the query is only meaningful at the key type.
     */
    function ContainsValueAsWritten(value: K): (b: bool)
      ensures b <==> ContainsKey(value)
    {
      ContainsKey(value)
    }

    /** `containsValue` as the `Map` contract intends it: some key is mapped to `value`. */
    function ContainsValue(value: Nullable<V>): (b: bool)
      ensures b <==> exists k | k in store :: store[k] == value
    {
      value in store.Values
    }

    /**
     `get`: a stored key answers its value; a missing key is initialised
     from itself, and the answer is stored under it; a failing initializer
     propagates and leaves the map as it was.
     */
    function Get(k: K): (r: Result<(Nullable<V>, NNMap<K, V>), Exception>)
      ensures ContainsKey(k) ==> r.Success? && r.value.0 == store[k] && r.value.1.store == store
      ensures !ContainsKey(k) && init(k).Failure? ==> r == Failure(init(k).error)
      ensures !ContainsKey(k) && init(k).Success? ==>
                r.Success? && r.value.0 == init(k).value && r.value.1.store == store[k := init(k).value]
      ensures r.Success? ==> r.value.1.ContainsKey(k) && r.value.1.store[k] == r.value.0
      ensures r.Success? ==> r.value.1.init == init && r.value.1.backing == backing
    {
      match MapUtil.GetOrInit(store, k, k, init)
      case Failure(e) => Failure(e)
      case Success(l) => Success((l.value, this.(store := l.store)))
    }

    /** `put`: the previous value (null when absent) and the map with `k` bound to `v`. */
    function Put(k: K, v: Nullable<V>): (r: (Nullable<V>, NNMap<K, V>))
      ensures r.0 == (if ContainsKey(k) then store[k] else Null)
      ensures r.1.ContainsKey(k) && r.1.store[k] == v
      ensures r.1.store.Keys == store.Keys + {k}
      ensures forall q | q in store && q != k :: r.1.store[q] == store[q]
      ensures r.1.init == init && r.1.backing == backing
    {
      (if k in store then store[k] else Null, this.(store := store[k := v]))
    }

    /** `remove`: the previous value (null when absent) and the map without `k`. */
    function Remove(k: K): (r: (Nullable<V>, NNMap<K, V>))
      ensures r.0 == (if ContainsKey(k) then store[k] else Null)
      ensures !r.1.ContainsKey(k)
      ensures r.1.store.Keys == store.Keys - {k}
      ensures forall q | q in r.1.store :: r.1.store[q] == store[q]
      ensures r.1.init == init && r.1.backing == backing
    {
      (if k in store then store[k] else Null, this.(store := store - {k}))
    }

    /** `putAll`: every entry of `m` is put, replacing what was stored under its key. */
    function PutAll(m: map<K, Nullable<V>>): (r: NNMap<K, V>)
      ensures r.store.Keys == store.Keys + m.Keys
      ensures forall q | q in m :: r.store[q] == m[q]
      ensures forall q | q in store && q !in m :: r.store[q] == store[q]
      ensures r.init == init && r.backing == backing
    {
      this.(store := store + m)
    }

    /** `clear`: no key remains, the initializer is kept. */
    function Clear(): (r: NNMap<K, V>)
      ensures r.IsEmpty()
      ensures r.init == init && r.backing == backing
    {
      this.(store := map[])
    }
  }

  // ---------------------------------------------------------------------------
  // Constructors
  // ---------------------------------------------------------------------------

  /** `new NNHashMap(initializer)`. */
  function NewNNHashMap<K(==), V(==)>(init: Evaluator<K, V>): (m: NNMap<K, V>)
    ensures m.IsEmpty() && m.init == init && m.backing == HashBacked
  {
    NNMap(map[], init, HashBacked)
  }

  /** `new NNLinkedHashMap(initializer)`. */
  function NewNNLinkedHashMap<K(==), V(==)>(init: Evaluator<K, V>): (m: NNMap<K, V>)
    ensures m.IsEmpty() && m.init == init && m.backing == LinkedBacked
  {
    NNMap(map[], init, LinkedBacked)
  }

  /**
   `new NNTreeMap(initializer, comparator)`, for a comparator consistent with
   `equals` and non-null keys: the comparator is not modelled.
   */
  function NewNNTreeMap<K(==), V(==)>(init: Evaluator<K, V>): (m: NNMap<K, V>)
    ensures m.IsEmpty() && m.init == init && m.backing == TreeBacked
  {
    NNMap(map[], init, TreeBacked)
  }

  /** `new SNNMap(map, lazyInit)`: the key is handed to a lazy initializer, which ignores it. */
  function NewSNNMap<K(==,!new), V(==)>(store: map<K, Nullable<V>>, lazy: MapUtil.LazyInit<V>, backing: Backing): (m: NNMap<K, V>)
    ensures m.store == store && m.backing == backing
    ensures forall k :: m.init(k) == lazy.Evaluate(k)
  {
    NNMap(store, lazy.AsEvaluator<K>(), backing)
  }

  /** `new SNNHashMap(lazyInit)`. */
  function NewSNNHashMap<K(==,!new), V(==)>(lazy: MapUtil.LazyInit<V>): (m: NNMap<K, V>)
    ensures m.IsEmpty() && m.backing == HashBacked
    ensures forall k :: m.init(k) == lazy.Evaluate(k)
  {
    NewSNNMap(map[], lazy, HashBacked)
  }

  /** `new SNNLinkedHashMap(lazyInit)`. */
  function NewSNNLinkedHashMap<K(==,!new), V(==)>(lazy: MapUtil.LazyInit<V>): (m: NNMap<K, V>)
    ensures m.IsEmpty() && m.backing == LinkedBacked
    ensures forall k :: m.init(k) == lazy.Evaluate(k)
  {
    NewSNNMap(map[], lazy, LinkedBacked)
  }

  /** `new SNNTreeMap(lazyInit, comparator)`, under the same restriction as `NewNNTreeMap`. */
  function NewSNNTreeMap<K(==,!new), V(==)>(lazy: MapUtil.LazyInit<V>): (m: NNMap<K, V>)
    ensures m.IsEmpty() && m.backing == TreeBacked
    ensures forall k :: m.init(k) == lazy.Evaluate(k)
  {
    NewSNNMap(map[], lazy, TreeBacked)
  }

  // ---------------------------------------------------------------------------
  // Properties
  // ---------------------------------------------------------------------------

  /** A key read once is never initialised again: the second read answers the same and changes nothing. */
  lemma GetTwice<K, V>(m: NNMap<K, V>, k: K)
    requires m.Get(k).Success?
    ensures var (v, m') := m.Get(k).value;
            m'.Get(k).Success? && m'.Get(k).value.0 == v && m'.Get(k).value.1.store == m'.store
  {
  }

  /** A value put under a key is what `get` answers for it, without consulting the initializer. */
  lemma PutThenGet<K, V>(m: NNMap<K, V>, k: K, v: Nullable<V>)
    ensures var m' := m.Put(k, v).1;
            m'.Get(k).Success? && m'.Get(k).value.0 == v && m'.Get(k).value.1.store == m'.store
  {
  }

  /** Putting a new key and removing it again restores the map and answers the value put. */
  lemma PutRemoveRoundTrip<K, V>(m: NNMap<K, V>, k: K, v: Nullable<V>)
    requires !m.ContainsKey(k)
    ensures var (old', m') := m.Put(k, v);
            old' == Null && m'.Remove(k).0 == v && m'.Remove(k).1.store == m.store
  {
    assert m.Put(k, v).1.Remove(k).1.store == m.store;
  }

  /** After a removal `get` initialises the key afresh. */
  lemma RemoveThenGet<K, V>(m: NNMap<K, V>, k: K)
    ensures var m' := m.Remove(k).1;
            match m.init(k)
            case Failure(e) => m'.Get(k) == Failure(e)
            case Success(x) => m'.Get(k).Success? && m'.Get(k).value.0 == x
  {
  }

  /** A store grows by one exactly when `get` initialises a missing key. */
  lemma GetGrowsByOne<K, V>(m: NNMap<K, V>, k: K)
    requires m.Get(k).Success?
    ensures m.Get(k).value.1.Size() == if m.ContainsKey(k) then m.Size() else m.Size() + 1
  {
  }

  /** The simple maps initialise every missing key with the same call, whatever the key. */
  lemma SimpleMapsIgnoreTheKey<K(!new), V>(lazy: MapUtil.LazyInit<V>, a: K, b: K)
    ensures var m := NewSNNHashMap<K, V>(lazy);
            m.Get(a).Success? <==> lazy.call().Success?
    ensures var m := NewSNNHashMap<K, V>(lazy);
            m.Get(a).Success? ==> m.Get(b).Success? && m.Get(a).value.0 == m.Get(b).value.0
  {
  }

  /** The as-written `containsValue` misses a value that is stored, under a key that differs from it. */
  lemma ContainsValueAsWrittenMissesValues()
    ensures var m := NewNNHashMap<string, string>(k => Success(Null)).Put("key", NonNull("value")).1;
            !m.ContainsValueAsWritten("value") && m.ContainsValue(NonNull("value"))
  {
    var m := NewNNHashMap<string, string>(k => Success(Null)).Put("key", NonNull("value")).1;
    assert m.store["key"] == NonNull("value");
  }
}
