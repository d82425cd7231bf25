/** The bounded LRU cache with per-entry time to live. */
module TtlLruCache {
  import opened FiniteSets
  import opened Subsequences
  import opened Wrappers

  datatype Entry<K, V> = Entry(key: K, storedAt: real, value: V)

  /** An ordered dictionary: entries with distinct keys, least recently used first. */
  type Store<K, V> = seq<Entry<K, V>>

  function Lookup<K(==), V>(store: Store<K, V>, key: K): (r: Option<Entry<K, V>>)
    ensures r.Some? ==> r.value in store && r.value.key == key
    ensures r.None? ==> forall e :: e in store ==> e.key != key
  {
    if store == [] then None
    else if store[0].key == key then Some(store[0])
    else Lookup(store[1..], key)
  }

  function Remove<K(==), V>(store: Store<K, V>, key: K): (r: Store<K, V>)
    ensures |r| <= |store|
    ensures forall e :: e in r ==> e in store && e.key != key
    ensures forall e :: e in store && e.key != key ==> e in r
  {
    if store == [] then []
    else if store[0].key == key then Remove(store[1..], key)
    else [store[0]] + Remove(store[1..], key)
  }

  /** Drops the oldest entries until `maxsize` are left. */
  function Evict<K, V>(store: Store<K, V>, maxsize: nat): Store<K, V> {
    if |store| > maxsize then store[|store| - maxsize..] else store
  }

  datatype Op<K, V> = Get(key: K, now: real) | Set(key: K, value: V, now: real) | Clear

  /** What a read returns. */
  function Read<K(==), V>(store: Store<K, V>, key: K, now: real, ttl: real): Option<V> {
    match Lookup(store, key)
    case None => None
    case Some(e) => if now - e.storedAt >= ttl then None else Some(e.value)
  }

  function Step<K(==), V>(store: Store<K, V>, op: Op<K, V>, maxsize: nat, ttl: real): Store<K, V> {
    match op
    case Get(key, now) =>
      (match Lookup(store, key)
       case None => store
       case Some(e) =>
         if now - e.storedAt >= ttl then Remove(store, key) else Remove(store, key) + [e])
    case Set(key, value, now) => Evict(Remove(store, key) + [Entry(key, now, value)], maxsize)
    case Clear => []
  }

  class Cache<K(==), V> {
    const maxsize: nat
    const ttl: real
    var store: Store<K, V>

    ghost predicate Valid()
      reads this
    {
      maxsize >= 1 && |store| <= maxsize && Distinct(store)
    }

    constructor (maxsize: int, ttl: real)
      ensures Valid() && store == []
      ensures this.maxsize == (if maxsize < 1 then 1 else maxsize) && this.ttl == ttl
    {
      this.maxsize := if maxsize < 1 then 1 else maxsize;
      this.ttl := ttl;
      store := [];
    }

    method Get(key: K, now: real) returns (r: Option<V>)
      requires Valid()
      modifies this
      ensures Valid()
      ensures r == Read(old(store), key, now, ttl)
      ensures store == Step(old(store), Op.Get(key, now), maxsize, ttl)
    {
      StepKeepsDistinct(store, Op.Get(key, now), maxsize, ttl);
      var entry := Lookup(store, key);
      if entry.None? {
        return None;
      }
      RemoveLength(store, key);
      if now - entry.value.storedAt >= ttl {
        store := Remove(store, key);
        return None;
      }
      store := Remove(store, key) + [entry.value];
      r := Some(entry.value.value);
    }

    method Set(key: K, value: V, now: real)
      requires Valid()
      modifies this
      ensures Valid()
      ensures store == Step(old(store), Op.Set(key, value, now), maxsize, ttl)
    {
      StepKeepsDistinct(store, Op.Set(key, value, now), maxsize, ttl);
      var grown := Remove(store, key) + [Entry(key, now, value)];
      store := grown;
      while |store| > maxsize
        invariant |store| <= |grown| && store == grown[|grown| - |store|..]
        invariant |grown| >= maxsize ==> |store| >= maxsize
        invariant |grown| < maxsize ==> store == grown
      {
        store := store[1..];
      }
    }

    method Clear()
      modifies this
      ensures store == []
    {
      store := [];
    }
  }

  // ---------- Runs ----------

  function Run<K(==), V>(ops: seq<Op<K, V>>, maxsize: nat, ttl: real): Store<K, V> {
    if ops == [] then [] else Step(Run(ops[..|ops| - 1], maxsize, ttl), ops[|ops| - 1], maxsize, ttl)
  }

  ghost predicate Distinct<K, V>(store: Store<K, V>) {
    forall i, j :: 0 <= i < j < |store| ==> store[i].key != store[j].key
  }

  lemma {:induction false} RemoveKeepsDistinct<K, V>(store: Store<K, V>, key: K)
    requires Distinct(store)
    ensures Distinct(Remove(store, key))
  {
    if store != [] {
      RemoveKeepsDistinct(store[1..], key);
    }
  }

  lemma {:induction false} RemoveAbsent<K, V>(store: Store<K, V>, key: K)
    requires forall i :: 0 <= i < |store| ==> store[i].key != key
    ensures Lookup(store, key).None? && Remove(store, key) == store
  {
    if store != [] {
      RemoveAbsent(store[1..], key);
    }
  }

  lemma {:induction false} RemoveLength<K, V>(store: Store<K, V>, key: K)
    requires Distinct(store)
    ensures |Remove(store, key)| == |store| - (if Lookup(store, key).Some? then 1 else 0)
    ensures Lookup(store, key).None? ==> Remove(store, key) == store
  {
    if store != [] {
      if store[0].key == key {
        RemoveAbsent(store[1..], key);
      } else {
        RemoveLength(store[1..], key);
      }
    }
  }

  lemma TouchKeepsDistinct<K, V>(store: Store<K, V>, e: Entry<K, V>)
    requires Distinct(store)
    ensures Distinct(Remove(store, e.key) + [e])
  {
    RemoveKeepsDistinct(store, e.key);
    var rest := Remove(store, e.key);
    assert forall i :: 0 <= i < |rest| ==> rest[i] in rest;
  }

  lemma StepKeepsDistinct<K, V>(store: Store<K, V>, op: Op<K, V>, maxsize: nat, ttl: real)
    requires Distinct(store)
    ensures Distinct(Step(store, op, maxsize, ttl))
  {
    match op
    case Get(key, _) =>
      RemoveKeepsDistinct(store, key);
      if Lookup(store, key).Some? {
        TouchKeepsDistinct(store, Lookup(store, key).value);
      }
    case Set(key, value, now) =>
      TouchKeepsDistinct(store, Entry(key, now, value));
    case Clear =>
  }

  lemma {:induction false} RunIsBounded<K, V>(ops: seq<Op<K, V>>, maxsize: nat, ttl: real)
    ensures Distinct(Run(ops, maxsize, ttl)) && |Run(ops, maxsize, ttl)| <= maxsize
  {
    if ops != [] {
      var before, op := Run(ops[..|ops| - 1], maxsize, ttl), ops[|ops| - 1];
      RunIsBounded(ops[..|ops| - 1], maxsize, ttl);
      StepKeepsDistinct(before, op, maxsize, ttl);
      if !op.Clear? {
        RemoveLength(before, op.key);
      }
    }
  }

  // ---------- Recency ----------

  /** The key an operation uses: the one it sets, or the one it hits. */
  function UsedBy<K(==), V>(store: Store<K, V>, op: Op<K, V>, ttl: real): set<K> {
    match op
    case Get(key, now) => if Read(store, key, now, ttl).Some? then {key} else {}
    case Set(key, _, _) => {key}
    case Clear => {}
  }

  /** The place in the history of the last use of a key, or -1. */
  function LastUse<K(==), V>(ops: seq<Op<K, V>>, key: K, maxsize: nat, ttl: real): (u: int)
    ensures -1 <= u < |ops|
  {
    if ops == [] then -1
    else
      var history, op := ops[..|ops| - 1], ops[|ops| - 1];
      if key in UsedBy(Run(history, maxsize, ttl), op, ttl) then |history| else LastUse(history, key, maxsize, ttl)
  }

  /** The entries stand in the order of some rank of their keys, which is not negative and below `high`. */
  ghost predicate OrderedBy<K, V>(store: Store<K, V>, rank: K -> int, high: int) {
    && (forall i :: 0 <= i < |store| ==> 0 <= rank(store[i].key) < high)
    && (forall i, j :: 0 <= i < j < |store| ==> rank(store[i].key) < rank(store[j].key))
  }

  ghost predicate Above<K, V>(store: Store<K, V>, rank: K -> int, low: int) {
    forall e :: e in store ==> low < rank(e.key)
  }

  lemma TailIsOrdered<K, V>(store: Store<K, V>, rank: K -> int, high: int)
    requires store != [] && OrderedBy(store, rank, high)
    ensures OrderedBy(store[1..], rank, high) && Above(store[1..], rank, rank(store[0].key))
    ensures 0 <= rank(store[0].key) < high
  {
    forall e | e in store[1..]
      ensures rank(store[0].key) < rank(e.key)
    {
      var j :| 0 <= j < |store[1..]| && store[1..][j] == e;
      assert store[j + 1] == e;
    }
  }

  lemma PrependIsOrdered<K, V>(head: Entry<K, V>, rest: Store<K, V>, rank: K -> int, high: int)
    requires OrderedBy(rest, rank, high) && 0 <= rank(head.key) < high && Above(rest, rank, rank(head.key))
    ensures OrderedBy([head] + rest, rank, high)
  {
    var all := [head] + rest;
    assert forall i :: 0 < i < |all| ==> all[i] == rest[i - 1] && all[i] in rest;
  }

  lemma AppendIsOrdered<K, V>(rest: Store<K, V>, e: Entry<K, V>, rank: K -> int, high: int)
    requires OrderedBy(rest, rank, high) && rank(e.key) == high >= 0
    ensures OrderedBy(rest + [e], rank, high + 1)
  {
  }

  lemma {:induction false} RemoveKeepsOrder<K, V>(store: Store<K, V>, key: K, rank: K -> int, high: int)
    requires OrderedBy(store, rank, high)
    ensures OrderedBy(Remove(store, key), rank, high)
  {
    if store != [] {
      var head, rest := store[0], Remove(store[1..], key);
      TailIsOrdered(store, rank, high);
      RemoveKeepsOrder(store[1..], key, rank, high);
      if head.key != key {
        assert Above(rest, rank, rank(head.key));
        PrependIsOrdered(head, rest, rank, high);
      }
    }
  }

  ghost predicate SameRanks<K, V>(store: Store<K, V>, before: K -> int, after: K -> int) {
    forall e :: e in store ==> after(e.key) == before(e.key)
  }

  lemma RanksKeepOrder<K, V>(store: Store<K, V>, before: K -> int, after: K -> int, high: int)
    requires OrderedBy(store, before, high) && SameRanks(store, before, after)
    ensures OrderedBy(store, after, high) && OrderedBy(store, after, high + 1)
  {
    forall i | 0 <= i < |store|
      ensures after(store[i].key) == before(store[i].key)
    {
      assert store[i] in store;
    }
  }

  /** Using a key, which then ranks above all others, keeps the order. */
  lemma TouchKeepsOrder<K, V>(store: Store<K, V>, e: Entry<K, V>, before: K -> int, after: K -> int, high: int)
    requires OrderedBy(store, before, high) && high >= 0 && after(e.key) == high
    requires SameRanks(Remove(store, e.key), before, after)
    ensures OrderedBy(Remove(store, e.key) + [e], after, high + 1)
  {
    RemoveKeepsOrder(store, e.key, before, high);
    RanksKeepOrder(Remove(store, e.key), before, after, high);
    AppendIsOrdered(Remove(store, e.key), e, after, high);
  }

  lemma SuffixIsOrdered<K, V>(store: Store<K, V>, maxsize: nat, rank: K -> int, high: int)
    requires OrderedBy(store, rank, high)
    ensures OrderedBy(Evict(store, maxsize), rank, high)
  {
  }

  lemma StepKeepsOrder<K, V>(store: Store<K, V>, op: Op<K, V>, maxsize: nat, ttl: real,
                              before: K -> int, after: K -> int, high: nat)
    requires OrderedBy(store, before, high)
    requires forall key :: after(key) == if key in UsedBy(store, op, ttl) then high else before(key)
    ensures OrderedBy(Step(store, op, maxsize, ttl), after, high + 1)
  {
    match op
    case Get(key, now) =>
      assert SameRanks(Remove(store, key), before, after);
      if Read(store, key, now, ttl).Some? {
        TouchKeepsOrder(store, Lookup(store, key).value, before, after, high);
      } else if Lookup(store, key).Some? {
        RemoveKeepsOrder(store, key, before, high);
        RanksKeepOrder(Remove(store, key), before, after, high);
      } else {
        RanksKeepOrder(store, before, after, high);
      }
    case Set(key, value, now) =>
      assert SameRanks(Remove(store, key), before, after);
      TouchKeepsOrder(store, Entry(key, now, value), before, after, high);
      SuffixIsOrdered(Remove(store, key) + [Entry(key, now, value)], maxsize, after, high + 1);
    case Clear =>
  }

  /** Over every history the entries stand in the order of the last uses of their keys, least recent first. */
  lemma {:induction false} EntriesAreInOrderOfUse<K, V>(ops: seq<Op<K, V>>, maxsize: nat, ttl: real)
    ensures OrderedBy(Run(ops, maxsize, ttl), key => LastUse(ops, key, maxsize, ttl), |ops|)
  {
    if ops != [] {
      var history := ops[..|ops| - 1];
      EntriesAreInOrderOfUse(history, maxsize, ttl);
      StepKeepsOrder(Run(history, maxsize, ttl), ops[|ops| - 1], maxsize, ttl,
                     key => LastUse(history, key, maxsize, ttl), key => LastUse(ops, key, maxsize, ttl), |history|);
    }
  }

  /** The keys used from operation i on. */
  function UsedSince<K(==), V>(ops: seq<Op<K, V>>, i: nat, maxsize: nat, ttl: real): set<K> {
    if |ops| <= i then {}
    else
      var history, op := ops[..|ops| - 1], ops[|ops| - 1];
      UsedSince(history, i, maxsize, ttl) + UsedBy(Run(history, maxsize, ttl), op, ttl)
  }

  /** An operation that drops the key other than by eviction: a clear, or a read that finds it stale. */
  predicate Drops<K(==), V>(store: Store<K, V>, op: Op<K, V>, key: K, ttl: real) {
    op.Clear? || (op.Get? && op.key == key && Read(store, key, op.now, ttl).None?)
  }

  ghost predicate NeverDropped<K, V>(ops: seq<Op<K, V>>, i: nat, key: K, maxsize: nat, ttl: real) {
    forall j :: i <= j < |ops| ==> !Drops(Run(ops[..j], maxsize, ttl), ops[j], key, ttl)
  }

  /** The key is there, at some place after which only keys from `recent` stand. */
  ghost predicate Held<K, V>(store: Store<K, V>, key: K, recent: set<K>) {
    exists p :: 0 <= p < |store| && HeldAt(store, key, recent, p)
  }

  ghost predicate HeldAt<K, V>(store: Store<K, V>, key: K, recent: set<K>, p: nat)
    requires p < |store|
  {
    store[p].key == key && forall q :: p < q < |store| ==> store[q].key in recent
  }

  /** Removing another key. */
  lemma {:induction false} RemoveOtherHolds<K, V>(store: Store<K, V>, other: K, key: K, recent: set<K>)
    requires Held(store, key, recent) && other != key
    ensures Held(Remove(store, other), key, recent)
  {
    var p :| 0 <= p < |store| && HeldAt(store, key, recent, p);
    var rest := Remove(store[1..], other);
    if p == 0 {
      var all := Remove(store, other);
      assert all == [store[0]] + rest;
      forall q | 0 < q < |all|
        ensures all[q].key in recent
      {
        assert all[q] in rest;
        var j :| 0 <= j < |store[1..]| && store[1..][j] == all[q];
        assert store[j + 1] == all[q];
      }
      assert HeldAt(all, key, recent, 0);
    } else {
      assert HeldAt(store[1..], key, recent, p - 1);
      RemoveOtherHolds(store[1..], other, key, recent);
      if store[0].key != other {
        var j :| 0 <= j < |rest| && HeldAt(rest, key, recent, j);
        assert HeldAt([store[0]] + rest, key, recent, j + 1);
      }
    }
  }

  lemma AppendHolds<K, V>(store: Store<K, V>, e: Entry<K, V>, key: K, recent: set<K>)
    requires e.key == key || (Held(store, key, recent) && e.key in recent)
    ensures Held(store + [e], key, recent)
  {
    var all := store + [e];
    if e.key == key {
      assert HeldAt(all, key, recent, |store|);
    } else {
      var p :| 0 <= p < |store| && HeldAt(store, key, recent, p);
      assert HeldAt(all, key, recent, p);
    }
  }

  /** A held key with fewer than `maxsize` recent others is not evicted. */
  lemma EvictHolds<K, V>(store: Store<K, V>, key: K, recent: set<K>, maxsize: nat)
    requires Distinct(store) && Held(store, key, recent) && |recent - {key}| < maxsize
    ensures Held(Evict(store, maxsize), key, recent)
  {
    var p :| 0 <= p < |store| && HeldAt(store, key, recent, p);
    FewAfter(store, key, recent, p);
    if |store| > maxsize {
      var cut := |store| - maxsize;
      assert HeldAt(store[cut..], key, recent, p - cut);
    }
  }

  lemma KeysFit<K, V>(store: Store<K, V>, allowed: set<K>)
    requires Distinct(store) && forall q :: 0 <= q < |store| ==> store[q].key in allowed
    ensures |store| <= |allowed|
  {
    KeysCount(store);
    forall k | k in Keys(store)
      ensures k in allowed
    {
      var e :| e in store && e.key == k;
    }
    SubsetSize(Keys(store), allowed);
  }

  lemma FewAfter<K, V>(store: Store<K, V>, key: K, recent: set<K>, p: nat)
    requires Distinct(store) && p < |store| && HeldAt(store, key, recent, p)
    ensures |store| - p - 1 <= |recent - {key}|
  {
    var after := store[p + 1..];
    forall q | 0 <= q < |after|
      ensures after[q].key in recent - {key}
    {
      assert after[q] == store[p + 1 + q];
    }
    KeysFit(after, recent - {key});
  }

  lemma StepHolds<K, V>(store: Store<K, V>, op: Op<K, V>, key: K, recent: set<K>, maxsize: nat, ttl: real)
    requires Distinct(store) && !Drops(store, op, key, ttl)
    requires Held(store, key, recent) || key in UsedBy(store, op, ttl)
    requires UsedBy(store, op, ttl) <= recent + {key} && |recent - {key}| < maxsize
    ensures Held(Step(store, op, maxsize, ttl), key, recent)
  {
    if op.Get? {
      var found := Lookup(store, op.key);
      if op.key != key {
        RemoveOtherHolds(store, op.key, key, recent);
      }
      if Read(store, op.key, op.now, ttl).Some? {
        AppendHolds(Remove(store, op.key), found.value, key, recent);
      }
    } else {
      var e := Entry(op.key, op.now, op.value);
      if op.key != key {
        RemoveOtherHolds(store, op.key, key, recent);
      }
      AppendHolds(Remove(store, op.key), e, key, recent);
      TouchKeepsDistinct(store, e);
      EvictHolds(Remove(store, op.key) + [e], key, recent, maxsize);
    }
  }

  lemma {:induction false} UseIsHeld<K, V>(ops: seq<Op<K, V>>, i: nat, key: K, recent: set<K>, maxsize: nat, ttl: real)
    requires i < |ops| && key in UsedBy(Run(ops[..i], maxsize, ttl), ops[i], ttl)
    requires NeverDropped(ops, i + 1, key, maxsize, ttl)
    requires UsedSince(ops, i + 1, maxsize, ttl) <= recent + {key} && |recent - {key}| < maxsize
    ensures Held(Run(ops, maxsize, ttl), key, recent)
    decreases |ops|
  {
    var history, op := ops[..|ops| - 1], ops[|ops| - 1];
    RunIsBounded(history, maxsize, ttl);
    assert ops[..|history|] == history;
    if i < |history| {
      assert history[..i] == ops[..i] && history[i] == ops[i];
      assert forall j :: i < j < |history| ==> history[..j] == ops[..j] && history[j] == ops[j];
      UseIsHeld(history, i, key, recent, maxsize, ttl);
    }
    StepHolds(Run(history, maxsize, ttl), op, key, recent, maxsize, ttl);
  }

  /**
   * A key that was set or hit stays, over every history, as long as nothing drops it and fewer than `maxsize`
   * other keys have been set or hit since.
   */
  lemma RecentlyUsedStays<K, V>(ops: seq<Op<K, V>>, i: nat, key: K, maxsize: nat, ttl: real)
    requires i < |ops| && key in UsedBy(Run(ops[..i], maxsize, ttl), ops[i], ttl)
    requires NeverDropped(ops, i + 1, key, maxsize, ttl)
    requires |UsedSince(ops, i + 1, maxsize, ttl) - {key}| < maxsize
    ensures key in Reference(ops, ttl) && Lookup(Run(ops, maxsize, ttl), key) == Some(Reference(ops, ttl)[key])
  {
    var store := Run(ops, maxsize, ttl);
    UseIsHeld(ops, i, key, UsedSince(ops, i + 1, maxsize, ttl), maxsize, ttl);
    CacheAgreesWithReference(ops, maxsize, ttl);
  }

  // ---------- A larger cache includes a smaller one ----------

  lemma {:induction false} SubsequenceRemove<K, V>(s: Store<K, V>, l: Store<K, V>, key: K)
    requires Subsequence(s, l)
    ensures Subsequence(Remove(s, key), Remove(l, key))
  {
    if s != [] {
      if s[0] == l[0] && Subsequence(s[1..], l[1..]) {
        SubsequenceRemove(s[1..], l[1..], key);
      } else {
        SubsequenceRemove(s, l[1..], key);
        SubsequenceSkip(Remove(s, key), Remove(l[1..], key), l[0]);
      }
    }
  }

  lemma LookupOfMember<K, V>(store: Store<K, V>, e: Entry<K, V>)
    requires Distinct(store) && e in store
    ensures Lookup(store, e.key) == Some(e)
  {
    var found := Lookup(store, e.key).value;
    var i :| 0 <= i < |store| && store[i] == e;
    var j :| 0 <= j < |store| && store[j] == found;
  }

  /** What relates the small store to the large one. */
  ghost predicate Included<K, V>(s: Store<K, V>, l: Store<K, V>, m: nat, n: nat) {
    && Distinct(s) && Distinct(l)
    && |s| <= m <= n && |l| <= n
    && Subsequence(s, l)
    && |l| - |s| <= n - m
  }

  lemma IncludedLookup<K, V>(s: Store<K, V>, l: Store<K, V>, m: nat, n: nat, key: K)
    requires Included(s, l, m, n)
    ensures Lookup(s, key).Some? ==> Lookup(l, key) == Lookup(s, key)
  {
    SubsequenceMembers(s, l);
    if Lookup(s, key).Some? {
      LookupOfMember(l, Lookup(s, key).value);
    }
  }

  lemma EvictKeepsIncluded<K, V>(s: Store<K, V>, l: Store<K, V>, m: nat, n: nat)
    requires Distinct(s) && Distinct(l) && Subsequence(s, l)
    requires 1 <= m <= n && |s| <= m + 1 && |l| <= n + 1 && |l| - |s| <= n - m
    ensures Included(Evict(s, m), Evict(l, n), m, n)
  {
    if |s| > m {
      SubsequenceTail(s, l);
    }
  }

  lemma RemoveKeepsIncluded<K, V>(s: Store<K, V>, l: Store<K, V>, m: nat, n: nat, key: K)
    requires Included(s, l, m, n)
    ensures Subsequence(Remove(s, key), Remove(l, key)) && Distinct(Remove(s, key)) && Distinct(Remove(l, key))
    ensures |Remove(l, key)| - |Remove(s, key)| <= n - m
  {
    IncludedLookup(s, l, m, n, key);
    RemoveLength(s, key);
    RemoveLength(l, key);
    RemoveKeepsDistinct(s, key);
    RemoveKeepsDistinct(l, key);
    SubsequenceRemove(s, l, key);
  }

  lemma SetKeepsIncluded<K, V>(s: Store<K, V>, l: Store<K, V>, e: Entry<K, V>, m: nat, n: nat)
    requires Included(s, l, m, n) && m >= 1
    ensures Included(Evict(Remove(s, e.key) + [e], m), Evict(Remove(l, e.key) + [e], n), m, n)
  {
    RemoveKeepsIncluded(s, l, m, n, e.key);
    SubsequenceAppend(Remove(s, e.key), Remove(l, e.key), e);
    EvictKeepsIncluded(Remove(s, e.key) + [e], Remove(l, e.key) + [e], m, n);
  }

  lemma GetKeepsIncluded<K, V>(s: Store<K, V>, l: Store<K, V>, key: K, now: real, m: nat, n: nat, ttl: real)
    requires Included(s, l, m, n) && m >= 1
    ensures Included(Step(s, Get(key, now), m, ttl), Step(l, Get(key, now), n, ttl), m, n)
  {
    StepKeepsDistinct(s, Op<K, V>.Get(key, now), m, ttl);
    StepKeepsDistinct(l, Op<K, V>.Get(key, now), n, ttl);
    IncludedLookup(s, l, m, n, key);
    RemoveLength(s, key);
    RemoveLength(l, key);
    SubsequenceRemove(s, l, key);
    if Lookup(l, key).Some? {
      SubsequenceAppend(Remove(s, key), Remove(l, key), Lookup(l, key).value);
    }
  }

  lemma StepKeepsIncluded<K, V>(s: Store<K, V>, l: Store<K, V>, op: Op<K, V>, m: nat, n: nat, ttl: real)
    requires Included(s, l, m, n) && m >= 1
    ensures Included(Step(s, op, m, ttl), Step(l, op, n, ttl), m, n)
  {
    match op
    case Get(key, now) => GetKeepsIncluded(s, l, key, now, m, n, ttl);
    case Set(key, value, now) => SetKeepsIncluded(s, l, Entry(key, now, value), m, n);
    case Clear =>
  }

  /**
   * Fed the same history, a cache with at least the capacity holds every entry of the smaller
   * one, in the same order, with the same time stamps and values.
   */
  lemma {:induction false} LargerCacheIncludesSmaller<K, V>(ops: seq<Op<K, V>>, m: nat, n: nat, ttl: real)
    requires 1 <= m <= n
    ensures Included(Run(ops, m, ttl), Run(ops, n, ttl), m, n)
  {
    if ops != [] {
      var history := ops[..|ops| - 1];
      LargerCacheIncludesSmaller(history, m, n, ttl);
      StepKeepsIncluded(Run(history, m, ttl), Run(history, n, ttl), ops[|ops| - 1], m, n, ttl);
    }
  }

  /** Every hit of the smaller cache is the same hit of the larger one. */
  lemma HitsAreMonotone<K, V>(ops: seq<Op<K, V>>, key: K, now: real, m: nat, n: nat, ttl: real)
    requires 1 <= m <= n
    ensures var small := Read(Run(ops, m, ttl), key, now, ttl);
            small.Some? ==> Read(Run(ops, n, ttl), key, now, ttl) == small
  {
    LargerCacheIncludesSmaller(ops, m, n, ttl);
    IncludedLookup(Run(ops, m, ttl), Run(ops, n, ttl), m, n, key);
  }

  // ---------- Against a map that never evicts ----------

  /** The plain reference: a map that forgets a key only when it is read stale or everything is cleared. */
  function Reference<K(==), V>(ops: seq<Op<K, V>>, ttl: real): map<K, Entry<K, V>> {
    if ops == [] then map[]
    else
      var before := Reference(ops[..|ops| - 1], ttl);
      match ops[|ops| - 1]
      case Get(key, now) => if key in before && now - before[key].storedAt >= ttl then before - {key} else before
      case Set(key, value, now) => before[key := Entry(key, now, value)]
      case Clear => map[]
  }

  function ReferenceRead<K(==), V>(m: map<K, Entry<K, V>>, key: K, now: real, ttl: real): Option<V> {
    if key !in m || now - m[key].storedAt >= ttl then None else Some(m[key].value)
  }

  ghost predicate Agrees<K, V>(store: Store<K, V>, m: map<K, Entry<K, V>>) {
    forall e :: e in store ==> e.key in m && m[e.key] == e
  }

  /** An entry of the cache is always what the reference remembers for its key. */
  lemma {:induction false} CacheAgreesWithReference<K, V>(ops: seq<Op<K, V>>, maxsize: nat, ttl: real)
    ensures Agrees(Run(ops, maxsize, ttl), Reference(ops, ttl))
  {
    if ops != [] {
      var history, op := ops[..|ops| - 1], ops[|ops| - 1];
      CacheAgreesWithReference(history, maxsize, ttl);
      RunIsBounded(history, maxsize, ttl);
      var before := Run(history, maxsize, ttl);
      if op.Get? && Lookup(before, op.key).None? {
        assert forall e :: e in before ==> e.key != op.key;
      }
    }
  }

  /** The reference never remembers more than `bound` keys during the run. */
  ghost predicate AtMost<K, V>(ops: seq<Op<K, V>>, ttl: real, bound: nat) {
    forall k :: 0 <= k <= |ops| ==> |Reference(ops[..k], ttl)| <= bound
  }

  function Keys<K, V>(store: Store<K, V>): (keys: set<K>)
    ensures forall e :: e in store ==> e.key in keys
    ensures forall k :: k in keys ==> exists e :: e in store && e.key == k
  {
    if store == [] then {} else
      assert forall e :: e in store ==> e == store[0] || e in store[1..];
      Keys(store[1..]) + {store[0].key}
  }

  lemma {:induction false} KeysCount<K, V>(store: Store<K, V>)
    requires Distinct(store)
    ensures |Keys(store)| == |store|
  {
    if store != [] {
      KeysCount(store[1..]);
      assert store[0].key !in Keys(store[1..]);
    }
  }

  ghost predicate Covers<K, V>(store: Store<K, V>, m: map<K, Entry<K, V>>) {
    forall key :: key in m ==> m[key] in store
  }

  lemma GetKeepsCovering<K, V>(store: Store<K, V>, m: map<K, Entry<K, V>>, key: K, now: real, maxsize: nat, ttl: real)
    requires Distinct(store) && Agrees(store, m) && Covers(store, m)
    requires key in m && forall k :: k in m ==> m[k].key == k
    ensures Covers(Step(store, Get(key, now), maxsize, ttl), if now - m[key].storedAt >= ttl then m - {key} else m)
  {
    LookupOfMember(store, m[key]);
  }

  lemma SetKeepsCovering<K, V>(store: Store<K, V>, m: map<K, Entry<K, V>>, e: Entry<K, V>)
    requires Agrees(store, m) && Covers(store, m)
    requires forall k :: k in m ==> m[k].key == k
    ensures Covers(Remove(store, e.key) + [e], m[e.key := e])
  {
  }

  lemma AgreeingSize<K, V>(store: Store<K, V>, m: map<K, Entry<K, V>>)
    requires Distinct(store) && Agrees(store, m)
    ensures |store| <= |m|
  {
    KeysCount(store);
    assert Keys(store) <= m.Keys;
    SubsetSize(Keys(store), m.Keys);
  }

  /** While at most `maxsize` keys are remembered the cache forgets nothing the reference remembers. */
  lemma {:induction false} NothingIsEvictedBelowCapacity<K, V>(ops: seq<Op<K, V>>, maxsize: nat, ttl: real)
    requires AtMost(ops, ttl, maxsize)
    ensures Covers(Run(ops, maxsize, ttl), Reference(ops, ttl))
  {
    if ops != [] {
      var history, op := ops[..|ops| - 1], ops[|ops| - 1];
      assert AtMost(history, ttl, maxsize) by {
        assert forall k :: 0 <= k <= |history| ==> history[..k] == ops[..k];
      }
      NothingIsEvictedBelowCapacity(history, maxsize, ttl);
      CacheAgreesWithReference(history, maxsize, ttl);
      RunIsBounded(history, maxsize, ttl);
      ReferenceKeys(history, ttl);
      var before, reference := Run(history, maxsize, ttl), Reference(history, ttl);
      if op.Get? {
        if op.key in reference {
          GetKeepsCovering(before, reference, op.key, op.now, maxsize, ttl);
        }
      } else if op.Set? {
        var e := Entry(op.key, op.now, op.value);
        SetKeepsCovering(before, reference, e);
        RemoveKeepsDistinct(before, op.key);
        AgreeingSize(Remove(before, op.key) + [e], Reference(ops, ttl));
        assert ops[..|ops|] == ops;
      }
    }
  }

  lemma {:induction false} ReferenceKeys<K, V>(ops: seq<Op<K, V>>, ttl: real)
    ensures forall key :: key in Reference(ops, ttl) ==> Reference(ops, ttl)[key].key == key
  {
    if ops != [] {
      ReferenceKeys(ops[..|ops| - 1], ttl);
    }
  }

  /**
   * A hit is always a hit of the reference with the same value; below capacity every read agrees.
   */
  lemma ReadsMatchReference<K, V>(ops: seq<Op<K, V>>, key: K, now: real, maxsize: nat, ttl: real)
    ensures var cached, reference := Read(Run(ops, maxsize, ttl), key, now, ttl),
                                     ReferenceRead(Reference(ops, ttl), key, now, ttl);
            && (cached.Some? ==> cached == reference)
            && (AtMost(ops, ttl, maxsize) ==> cached == reference)
  {
    CacheAgreesWithReference(ops, maxsize, ttl);
    if AtMost(ops, ttl, maxsize) {
      NothingIsEvictedBelowCapacity(ops, maxsize, ttl);
      RunIsBounded(ops, maxsize, ttl);
      ReferenceKeys(ops, ttl);
      var reference := Reference(ops, ttl);
      if key in reference {
        LookupOfMember(Run(ops, maxsize, ttl), reference[key]);
      }
    }
  }
}
