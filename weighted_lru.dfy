/**
 * The observable behaviour of the weighted least-recently-used cache that the
 * glyph cache is built on (`clru::CLruCache` with a weight scale).
 *
 * The entries are kept in a sequence ordered by recency: index 0 holds the
 * least recently used entry, the last index the most recently used one. The
 * weight of an entry is a scale function of its value. Each entry also takes
 * one slot of the cache's fixed-size list, so the cache keeps its load, the
 * number of entries plus the sum of their weights, at or below its capacity.
 */
module WeightedLru {
  import opened Optional

  datatype Entry<K, V> = Entry(key: K, value: V)

  /**
   * What `put_with_weight` reports: the value it replaced under the same key,
   * if any, or the key and value it refused to store.
   */
  datatype PutResult<K, V> = Inserted(previous: Option<V>) | Rejected(key: K, value: V)

  /** Sum of the weights of the entries. */
  function TotalWeight<K, V>(es: seq<Entry<K, V>>, scale: V -> nat): nat
    decreases |es|
  {
    if es == [] then 0 else scale(es[0].value) + TotalWeight(es[1..], scale)
  }

  /**
   * What the entries cost against the capacity: one slot each plus their
   * weights (`len() + weight()` of the cache).
   */
  function Load<K, V>(es: seq<Entry<K, V>>, scale: V -> nat): nat
  {
    |es| + TotalWeight(es, scale)
  }

  ghost predicate KeysDistinct<K, V>(es: seq<Entry<K, V>>)
  {
    forall i, j :: 0 <= i < j < |es| ==> es[i].key != es[j].key
  }

  /** Some entry is stored under key k. */
  ghost predicate Resident<K, V>(es: seq<Entry<K, V>>, k: K)
  {
    exists i :: 0 <= i < |es| && es[i].key == k
  }

  /** The invariant of a cache of the given capacity. */
  ghost predicate Inv<K, V>(es: seq<Entry<K, V>>, capacity: nat, scale: V -> nat)
  {
    KeysDistinct(es) && Load(es, scale) <= capacity
  }

  /** Position of the first entry stored under key k. */
  function IndexOf<K(==), V>(es: seq<Entry<K, V>>, k: K): (r: Option<nat>)
    ensures r.Some? ==> r.value < |es| && es[r.value].key == k
    ensures r.Some? ==> forall j :: 0 <= j < r.value ==> es[j].key != k
    ensures r.None? <==> !Resident(es, k)
    decreases |es|
  {
    if es == [] then None
    else if es[0].key == k then Some(0)
    else match IndexOf(es[1..], k)
      case None => None
      case Some(i) =>
        assert es[i + 1] == es[1..][i];
        Some(i + 1)
  }

  /** The value stored under key k, without touching the recency order (`peek`). */
  function Lookup<K(==), V>(es: seq<Entry<K, V>>, k: K): (r: Option<V>)
    ensures r.Some? <==> Resident(es, k)
    ensures r.Some? ==> Entry(k, r.value) in es
  {
    match IndexOf(es, k)
    case None => None
    case Some(i) => Some(es[i].value)
  }

  /** With distinct keys, the lookup finds the one entry stored under the key. */
  lemma LookupDistinct<K, V>(es: seq<Entry<K, V>>, i: nat)
    requires KeysDistinct(es) && i < |es|
    ensures Lookup(es, es[i].key) == Some(es[i].value)
  {
    var j := IndexOf(es, es[i].key).value;
    assert !(j < i) && !(i < j);
  }

  function RemoveAt<K, V>(es: seq<Entry<K, V>>, i: nat): (r: seq<Entry<K, V>>)
    requires i < |es|
    ensures |r| == |es| - 1
    ensures forall j :: 0 <= j < i ==> r[j] == es[j]
    ensures forall j :: i <= j < |r| ==> r[j] == es[j + 1]
  {
    es[..i] + es[i + 1..]
  }

  /** Moves the entry at position i to the most recently used end. */
  function Promote<K, V>(es: seq<Entry<K, V>>, i: nat): (r: seq<Entry<K, V>>)
    requires i < |es|
    ensures |r| == |es| && r[|r| - 1] == es[i]
    ensures r[..|r| - 1] == RemoveAt(es, i)
    ensures multiset(r) == multiset(es)
  {
    assert es == es[..i] + [es[i]] + es[i + 1..];
    RemoveAt(es, i) + [es[i]]
  }

  /** Drops the entry stored under key k, if any. */
  function RemoveKey<K(==), V>(es: seq<Entry<K, V>>, k: K): (r: seq<Entry<K, V>>)
    ensures forall e :: e in r ==> e in es
  {
    match IndexOf(es, k)
    case None => es
    case Some(i) =>
      RemoveAtKeepsOthers(es, i);
      RemoveAt(es, i)
  }

  /** With distinct keys, removing a key drops exactly the one entry stored under it. */
  lemma RemoveKeyDistinct<K, V>(es: seq<Entry<K, V>>, k: K)
    requires KeysDistinct(es)
    ensures KeysDistinct(RemoveKey(es, k)) && !Resident(RemoveKey(es, k), k)
    ensures forall e :: e in es && e.key != k ==> e in RemoveKey(es, k)
  {
    match IndexOf(es, k)
    case None =>
    case Some(i) =>
      RemoveAtDistinct(es, i);
      RemoveAtKeepsOthers(es, i);
  }

  /**
   * Drops entries from the least recently used end until the load of the
   * rest is at most budget.
   */
  function EvictUntil<K, V>(es: seq<Entry<K, V>>, budget: nat, scale: V -> nat): (r: seq<Entry<K, V>>)
    ensures Load(r, scale) <= budget
    decreases |es|
  {
    if Load(es, scale) <= budget then es else EvictUntil(es[1..], budget, scale)
  }

  /**
   * Eviction keeps the most recently used entries, in order, and evicts no
   * more than it must: keeping one more entry would exceed the budget.
   */
  lemma {:induction false} EvictUntilKeepsNewest<K, V>(es: seq<Entry<K, V>>, budget: nat, scale: V -> nat)
    ensures var r := EvictUntil(es, budget, scale);
      |r| <= |es| && r == es[|es| - |r|..]
    ensures var r := EvictUntil(es, budget, scale);
      |r| < |es| ==> Load(es[|es| - |r| - 1..], scale) > budget
    decreases |es|
  {
    if Load(es, scale) > budget {
      var r := EvictUntil(es[1..], budget, scale);
      EvictUntilKeepsNewest(es[1..], budget, scale);
      assert es[1..][|es| - 1 - |r|..] == es[|es| - |r|..];
      assert |r| < |es| - 1 ==> es[1..][|es| - 1 - |r| - 1..] == es[|es| - |r| - 1..];
      assert es[0..] == es;
    }
  }

  /**
   * `get`: the value stored under key k; a hit makes that entry the most
   * recently used and leaves the others in their order.
   */
  function Access<K(==), V>(es: seq<Entry<K, V>>, k: K): (r: (seq<Entry<K, V>>, Option<V>))
    ensures r.1 == Lookup(es, k)
    ensures r.1.None? ==> r.0 == es
    ensures r.1.Some? ==> |r.0| == |es| && r.0[|es| - 1] == Entry(k, r.1.value)
    ensures r.1.Some? ==> r.0[..|es| - 1] == RemoveAt(es, IndexOf(es, k).value)
    ensures multiset(r.0) == multiset(es)
  {
    match IndexOf(es, k)
    case None => (es, None)
    case Some(i) => (Promote(es, i), Some(es[i].value))
  }

  /**
   * `put_with_weight`: an entry whose weight is at least the capacity is
   * refused and the cache is left as it was; otherwise the entry already
   * stored under the key is dropped, least recently used entries are evicted
   * while the load plus the new weight is at least the capacity, and the new
   * entry becomes the most recently used. In terms of the load, eviction
   * stops at capacity - 1 - weight, which leaves room for the new entry's
   * slot and weight.
   */
  function Insert<K(==), V>(es: seq<Entry<K, V>>, capacity: nat, scale: V -> nat, k: K, v: V)
    : (r: (seq<Entry<K, V>>, PutResult<K, V>))
    ensures r.1.Rejected? <==> scale(v) >= capacity
    ensures r.1.Rejected? ==> r.0 == es && r.1 == Rejected(k, v)
    ensures r.1.Inserted? ==> r.1.previous == Lookup(es, k)
    ensures r.1.Inserted? ==> |r.0| > 0 && r.0[|r.0| - 1] == Entry(k, v)
  {
    if scale(v) >= capacity then (es, Rejected(k, v))
    else
      var kept := EvictUntil(RemoveKey(es, k), capacity - 1 - scale(v), scale);
      (kept + [Entry(k, v)], Inserted(Lookup(es, k)))
  }

  lemma {:induction false} TotalWeightAppend<K, V>(a: seq<Entry<K, V>>, b: seq<Entry<K, V>>, scale: V -> nat)
    ensures TotalWeight(a + b, scale) == TotalWeight(a, scale) + TotalWeight(b, scale)
    decreases |a|
  {
    if a == [] {
      assert a + b == b;
    } else {
      assert (a + b)[1..] == a[1..] + b;
      TotalWeightAppend(a[1..], b, scale);
    }
  }

  lemma {:induction false} TotalWeightRemoveAt<K, V>(es: seq<Entry<K, V>>, i: nat, scale: V -> nat)
    requires i < |es|
    ensures TotalWeight(RemoveAt(es, i), scale) + scale(es[i].value) == TotalWeight(es, scale)
    decreases i
  {
    var r := RemoveAt(es, i);
    if i == 0 {
      assert r == es[1..];
    } else {
      TotalWeightRemoveAt(es[1..], i - 1, scale);
      assert r[0] == es[0];
      assert r[1..] == RemoveAt(es[1..], i - 1);
    }
  }

  lemma RemoveAtDistinct<K, V>(es: seq<Entry<K, V>>, i: nat)
    requires i < |es|
    ensures KeysDistinct(es) ==> KeysDistinct(RemoveAt(es, i)) && !Resident(RemoveAt(es, i), es[i].key)
  {
    if !KeysDistinct(es) {
      return;
    }
    var r := RemoveAt(es, i);
    forall a, b | 0 <= a < b < |r| ensures r[a].key != r[b].key {
      var a' := if a < i then a else a + 1;
      var b' := if b < i then b else b + 1;
      assert r[a] == es[a'] && r[b] == es[b'];
    }
    forall j | 0 <= j < |r| ensures r[j].key != es[i].key {
      var j' := if j < i then j else j + 1;
      assert r[j] == es[j'];
    }
  }

  lemma RemoveAtKeepsOthers<K, V>(es: seq<Entry<K, V>>, i: nat)
    requires i < |es|
    ensures forall e :: e in RemoveAt(es, i) ==> e in es
    ensures forall e :: e in es && e != es[i] ==> e in RemoveAt(es, i)
  {
    assert es == es[..i] + [es[i]] + es[i + 1..];
  }

  lemma AppendDistinct<K, V>(es: seq<Entry<K, V>>, e: Entry<K, V>)
    requires KeysDistinct(es) && !Resident(es, e.key)
    ensures KeysDistinct(es + [e])
  {
    var r := es + [e];
    forall a, b | 0 <= a < b < |r| ensures r[a].key != r[b].key {
      if b == |es| {
        assert r[a] == es[a];
      } else {
        assert r[a] == es[a] && r[b] == es[b];
      }
    }
  }

  lemma SuffixDistinct<K, V>(es: seq<Entry<K, V>>, n: nat)
    requires n <= |es| && KeysDistinct(es)
    ensures KeysDistinct(es[n..])
  {
    var r := es[n..];
    forall a, b | 0 <= a < b < |r| ensures r[a].key != r[b].key {
      assert r[a] == es[n + a] && r[b] == es[n + b];
    }
  }

  /** A hit keeps the set of entries, hence the invariant; only the order changes. */
  lemma {:induction false} AccessKeepsInvariant<K, V>(es: seq<Entry<K, V>>, capacity: nat, scale: V -> nat, k: K)
    ensures Inv(es, capacity, scale) ==> Inv(Access(es, k).0, capacity, scale)
    ensures TotalWeight(Access(es, k).0, scale) == TotalWeight(es, scale)
    ensures Load(Access(es, k).0, scale) == Load(es, scale)
    ensures forall e :: e in Access(es, k).0 <==> e in es
  {
    var r := Access(es, k).0;
    match IndexOf(es, k)
    case None =>
    case Some(i) =>
      var rest := RemoveAt(es, i);
      assert r == rest + [es[i]] by {
        assert r == r[..|r| - 1] + [r[|r| - 1]];
      }
      RemoveAtKeepsOthers(es, i);
      RemoveAtDistinct(es, i);
      if KeysDistinct(es) {
        AppendDistinct(rest, es[i]);
      }
      TotalWeightRemoveAt(es, i, scale);
      TotalWeightAppend(rest, [es[i]], scale);
  }

  /** The older entries a put keeps have distinct keys, none of them the new key. */
  lemma KeptByInsert<K, V>(es: seq<Entry<K, V>>, budget: nat, scale: V -> nat, k: K)
    requires KeysDistinct(es)
    ensures KeysDistinct(EvictUntil(RemoveKey(es, k), budget, scale))
    ensures !Resident(EvictUntil(RemoveKey(es, k), budget, scale), k)
  {
    var rest := RemoveKey(es, k);
    var kept := EvictUntil(rest, budget, scale);
    EvictUntilKeepsNewest(rest, budget, scale);
    RemoveKeyDistinct(es, k);
    SuffixDistinct(rest, |rest| - |kept|);
    forall j | 0 <= j < |kept| ensures kept[j].key != k {
      assert kept[j] == rest[|rest| - |kept| + j];
    }
  }

  /** A put keeps the invariant: distinct keys, load within capacity. */
  lemma InsertKeepsInvariant<K, V>(es: seq<Entry<K, V>>, capacity: nat, scale: V -> nat, k: K, v: V)
    ensures Inv(es, capacity, scale) ==> Inv(Insert(es, capacity, scale, k, v).0, capacity, scale)
  {
    if Inv(es, capacity, scale) && scale(v) < capacity {
      var kept := EvictUntil(RemoveKey(es, k), capacity - 1 - scale(v), scale);
      KeptByInsert(es, capacity - 1 - scale(v), scale, k);
      AppendDistinct(kept, Entry(k, v));
      TotalWeightAppend(kept, [Entry(k, v)], scale);
    }
  }

  /**
   * After a put the key is resident exactly when the put was accepted or the
   * key was resident before; an accepted value is what a lookup then finds;
   * every other resident entry was already resident before; and the older
   * entries that survive are the most recently used part of what was there.
   */
  lemma {:induction false} InsertContents<K, V>(es: seq<Entry<K, V>>, capacity: nat, scale: V -> nat, k: K, v: V)
    requires Inv(es, capacity, scale)
    ensures Resident(Insert(es, capacity, scale, k, v).0, k) <==> scale(v) < capacity || Resident(es, k)
    ensures scale(v) < capacity ==> Lookup(Insert(es, capacity, scale, k, v).0, k) == Some(v)
    ensures forall e :: e in Insert(es, capacity, scale, k, v).0 && e.key != k ==> e in es
    ensures scale(v) < capacity ==>
      var r := Insert(es, capacity, scale, k, v).0;
      var rest := RemoveKey(es, k);
      |r| - 1 <= |rest| && r[..|r| - 1] == rest[|rest| - (|r| - 1)..]
  {
    var r := Insert(es, capacity, scale, k, v).0;
    if scale(v) < capacity {
      var budget: nat := capacity - 1 - scale(v);
      var kept := EvictUntil(RemoveKey(es, k), budget, scale);
      assert r == kept + [Entry(k, v)];
      EvictUntilKeepsNewest(RemoveKey(es, k), budget, scale);
      KeptByInsert(es, budget, scale, k);
      AppendDistinct(kept, Entry(k, v));
      assert r[|r| - 1] == Entry(k, v);
      LookupDistinct(r, |r| - 1);
      assert r[..|r| - 1] == kept;
      forall e | e in r && e.key != k ensures e in es {
        assert e in kept;
        assert e in RemoveKey(es, k);
      }
    } else {
      assert r == es;
    }
  }

  /**
   * A put of a new key whose weight, added to the load, stays below the
   * capacity evicts nothing: the new entry is simply added as the most
   * recently used one.
   */
  lemma InsertWithinBudget<K, V>(es: seq<Entry<K, V>>, capacity: nat, scale: V -> nat, k: K, v: V)
    requires KeysDistinct(es) && !Resident(es, k)
    requires Load(es, scale) + scale(v) < capacity
    ensures Insert(es, capacity, scale, k, v) == (es + [Entry(k, v)], Inserted(None))
  {
    assert IndexOf(es, k).None?;
  }

  /** Weight of a test entry: the entry's value itself. */
  function Bytes(n: nat): nat { n }

  /** Three entries of weight 4 each, and capacity 10. */
  const ScenarioCapacity: nat := 10

  lemma InsertScenarioSecond()
    ensures Insert<char, nat>([Entry('A', 4)], ScenarioCapacity, Bytes, 'B', 4).0 == [Entry('A', 4), Entry('B', 4)]
  {
    var e1: seq<Entry<char, nat>> := [Entry('A', 4)];
    assert TotalWeight(e1, Bytes) == 4;
    assert !Resident(e1, 'B');
    InsertWithinBudget(e1, ScenarioCapacity, Bytes, 'B', 4);
    assert e1 + [Entry('B', 4)] == [Entry('A', 4), Entry('B', 4)];
  }

  lemma {:induction false} InsertScenarioEvicts(x: char, y: char)
    requires x != y && x != 'C' && y != 'C'
    ensures Insert<char, nat>([Entry(x, 4), Entry(y, 4)], ScenarioCapacity, Bytes, 'C', 4).0 == [Entry(y, 4), Entry('C', 4)]
  {
    var es: seq<Entry<char, nat>> := [Entry(x, 4), Entry(y, 4)];
    assert IndexOf(es[1..], 'C') == None;
    assert IndexOf(es, 'C') == None;
    assert RemoveKey(es, 'C') == es;
    assert TotalWeight(es[1..], Bytes) == 4;
    assert TotalWeight(es, Bytes) == 8;
    assert EvictUntil(es[1..], 5, Bytes) == es[1..];
    assert EvictUntil(es, 5, Bytes) == [Entry(y, 4)];
  }

  lemma InsertScenarioFirstTwo()
    ensures Insert(Insert<char, nat>([], ScenarioCapacity, Bytes, 'A', 4).0, ScenarioCapacity, Bytes, 'B', 4).0
      == [Entry('A', 4), Entry('B', 4)]
  {
    var empty: seq<Entry<char, nat>> := [];
    InsertWithinBudget(empty, ScenarioCapacity, Bytes, 'A', 4);
    assert Insert(empty, ScenarioCapacity, Bytes, 'A', 4).0 == [Entry('A', 4)];
    InsertScenarioSecond();
  }

  lemma AccessScenario()
    ensures Access<char, nat>([Entry('A', 4), Entry('B', 4)], 'A') == ([Entry('B', 4), Entry('A', 4)], Some(4))
  {
    var e2: seq<Entry<char, nat>> := [Entry('A', 4), Entry('B', 4)];
    assert IndexOf(e2, 'A') == Some(0);
    assert Promote(e2, 0) == [Entry('B', 4), Entry('A', 4)];
  }

  /**
   * With capacity 10 and three entries of weight 4, the third put evicts the
   * least recently used entry, leaving total weight 8; if the first entry was
   * read back before the third put, the second one is evicted instead.
   */
  lemma EvictsLeastRecentlyUsed()
    ensures
      var e2 := Insert(Insert<char, nat>([], ScenarioCapacity, Bytes, 'A', 4).0, ScenarioCapacity, Bytes, 'B', 4).0;
      var e3 := Insert(e2, ScenarioCapacity, Bytes, 'C', 4).0;
      e3 == [Entry('B', 4), Entry('C', 4)] && TotalWeight(e3, Bytes) == 8
    ensures
      var e2 := Insert(Insert<char, nat>([], ScenarioCapacity, Bytes, 'A', 4).0, ScenarioCapacity, Bytes, 'B', 4).0;
      var e3 := Access(e2, 'A');
      e3.1 == Some(4) && Insert(e3.0, ScenarioCapacity, Bytes, 'C', 4).0 == [Entry('A', 4), Entry('C', 4)]
  {
    InsertScenarioFirstTwo();
    InsertScenarioEvicts('A', 'B');
    var e3: seq<Entry<char, nat>> := [Entry('B', 4), Entry('C', 4)];
    assert TotalWeight(e3[1..], Bytes) == 4;
    AccessScenario();
    InsertScenarioEvicts('B', 'A');
  }

  /**
   * The cache object: its entries in recency order and the running total of
   * their weights (clru's `weight`), which `Valid` ties to the entries.
   */
  class LruCache<K(==), V> {
    const capacity: nat
    const scale: V -> nat
    var entries: seq<Entry<K, V>>
    var weight: nat

    ghost predicate Valid()
      reads this
    {
      0 < capacity && weight == TotalWeight(entries, scale) && Inv(entries, capacity, scale)
    }

    /** `CLruCache::with_config`: an empty cache of the given non-zero capacity. */
    constructor (capacity: nat, scale: V -> nat)
      requires 0 < capacity
      ensures Valid()
      ensures this.capacity == capacity && this.scale == scale && entries == []
    {
      this.capacity := capacity;
      this.scale := scale;
      entries := [];
      weight := 0;
    }

    /** `get`: a hit returns the stored value and makes its entry the most recently used. */
    method Get(k: K) returns (r: Option<V>)
      requires Valid()
      modifies this
      ensures Valid()
      ensures (entries, r) == Access(old(entries), k)
    {
      AccessKeepsInvariant(entries, capacity, scale, k);
      match IndexOf(entries, k)
      case None =>
        r := None;
      case Some(i) =>
        r := Some(entries[i].value);
        entries := Promote(entries, i);
    }

    /** Drops the entry stored under key k, if any, and returns its value. */
    method RemoveEntry(k: K) returns (previous: Option<V>)
      requires weight == TotalWeight(entries, scale)
      modifies this
      ensures previous == Lookup(old(entries), k)
      ensures entries == RemoveKey(old(entries), k)
      ensures weight == TotalWeight(entries, scale)
    {
      var idx := IndexOf(entries, k);
      if idx.Some? {
        var i := idx.value;
        previous := Some(entries[i].value);
        TotalWeightRemoveAt(entries, i, scale);
        weight := weight - scale(entries[i].value);
        entries := RemoveAt(entries, i);
      } else {
        previous := None;
      }
    }

    /** The eviction loop: drops least recently used entries while the load exceeds budget. */
    method EvictTo(budget: nat)
      requires weight == TotalWeight(entries, scale)
      modifies this
      ensures entries == EvictUntil(old(entries), budget, scale)
      ensures weight == TotalWeight(entries, scale)
    {
      while |entries| + weight > budget
        invariant weight == TotalWeight(entries, scale)
        invariant EvictUntil(entries, budget, scale) == EvictUntil(old(entries), budget, scale)
        decreases |entries|
      {
        weight := weight - scale(entries[0].value);
        entries := entries[1..];
      }
    }

    /**
     * `put_with_weight`: refuses an entry whose weight is at least the
     * capacity; otherwise replaces the entry under the same key, evicts while
     * `len + weight + w >= capacity`, and inserts.
     */
    method PutWithWeight(k: K, v: V) returns (r: PutResult<K, V>)
      requires Valid()
      modifies this
      ensures Valid()
      ensures (entries, r) == Insert(old(entries), capacity, scale, k, v)
    {
      var w := scale(v);
      if w >= capacity {
        return Rejected(k, v);
      }
      InsertKeepsInvariant(entries, capacity, scale, k, v);
      var previous := RemoveEntry(k);
      EvictTo(capacity - 1 - w);
      TotalWeightAppend(entries, [Entry(k, v)], scale);
      entries := entries + [Entry(k, v)];
      weight := weight + w;
      r := Inserted(previous);
    }
  }
}
