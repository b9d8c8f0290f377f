/**
 The client-side cache with its least-recently-used eviction.  The OrderedDict is a
 sequence of entries with distinct keys, least recently touched first.  The sequence
 functions say what each operation does; the class is proved against them.
 */
module LruCache {

  datatype CacheKey = CacheKey(command: string, redisKeys: seq<string>)

  datatype Status = InProgress | Valid

  datatype Entry = Entry(key: CacheKey, value: string, status: Status)

  type Index = seq<Entry>

  function Keys(items: Index): set<CacheKey> {
    if items == [] then {} else {items[0].key} + Keys(items[1..])
  }

  predicate Distinct(items: Index) {
    items == [] || (items[0].key !in Keys(items[1..]) && Distinct(items[1..]))
  }

  predicate Has(items: Index, key: CacheKey) { key in Keys(items) }

  /** The entries whose keys are in `keys`, in order. */
  function Restrict(items: Index, keys: set<CacheKey>): (r: Index) {
    if items == [] then []
    else (if items[0].key in keys then [items[0]] else []) + Restrict(items[1..], keys)
  }

  function Without(items: Index, key: CacheKey): Index {
    Restrict(items, Keys(items) - {key})
  }

  function Lookup(items: Index, key: CacheKey): (e: Entry)
    requires Has(items, key)
    ensures e in items && e.key == key
  {
    if items[0].key == key then items[0] else Lookup(items[1..], key)
  }

  // ---------------------------------------------------------------------------
  // Facts about restriction

  lemma {:induction false} RestrictMembers(items: Index, keys: set<CacheKey>, e: Entry)
    ensures e in Restrict(items, keys) <==> e in items && e.key in keys
  {
    if items != [] {
      RestrictMembers(items[1..], keys, e);
      assert items == [items[0]] + items[1..];
    }
  }

  lemma {:induction false} RestrictKeys(items: Index, keys: set<CacheKey>)
    ensures Keys(Restrict(items, keys)) == Keys(items) * keys
    ensures |Restrict(items, keys)| <= |items|
    ensures Distinct(items) ==> Distinct(Restrict(items, keys))
  {
    if items != [] {
      RestrictKeys(items[1..], keys);
      var rest := Restrict(items[1..], keys);
      if items[0].key in keys {
        assert Restrict(items, keys) == [items[0]] + rest;
        assert ([items[0]] + rest)[1..] == rest;
      } else {
        assert Restrict(items, keys) == [] + rest == rest;
      }
    }
  }

  lemma RestrictFacts(items: Index, keys: set<CacheKey>)
    ensures forall e :: e in Restrict(items, keys) <==> e in items && e.key in keys
    ensures Keys(Restrict(items, keys)) == Keys(items) * keys
    ensures |Restrict(items, keys)| <= |items|
    ensures Distinct(items) ==> Distinct(Restrict(items, keys))
  {
    RestrictKeys(items, keys);
    forall e ensures e in Restrict(items, keys) <==> e in items && e.key in keys {
      RestrictMembers(items, keys, e);
    }
  }

  lemma {:induction false} RestrictAppend(a: Index, b: Index, keys: set<CacheKey>)
    ensures Restrict(a + b, keys) == Restrict(a, keys) + Restrict(b, keys)
  {
    if a == [] {
      assert a + b == b;
    } else {
      RestrictAppend(a[1..], b, keys);
      assert (a + b)[0] == a[0] && (a + b)[1..] == a[1..] + b;
      var head := if a[0].key in keys then [a[0]] else [];
      assert head + (Restrict(a[1..], keys) + Restrict(b, keys)) == (head + Restrict(a[1..], keys)) + Restrict(b, keys);
    }
  }

  lemma {:induction false} RestrictTwice(items: Index, outer: set<CacheKey>, inner: set<CacheKey>)
    ensures Restrict(Restrict(items, outer), inner) == Restrict(items, outer * inner)
  {
    if items != [] {
      RestrictTwice(items[1..], outer, inner);
      var rest := Restrict(items[1..], outer);
      if items[0].key in outer {
        assert ([items[0]] + rest)[1..] == rest;
      } else {
        assert [] + rest == rest;
      }
    }
  }

  /** Only the keys that occur matter. */
  lemma {:induction false} RestrictSame(items: Index, a: set<CacheKey>, b: set<CacheKey>)
    requires forall e | e in items :: e.key in a <==> e.key in b
    ensures Restrict(items, a) == Restrict(items, b)
  {
    if items != [] {
      assert forall e | e in items[1..] :: e in items;
      RestrictSame(items[1..], a, b);
    }
  }

  lemma {:induction false} RestrictAll(items: Index, keys: set<CacheKey>)
    requires forall e | e in items :: e.key in keys
    ensures Restrict(items, keys) == items
  {
    if items != [] {
      assert forall e | e in items[1..] :: e in items;
      RestrictAll(items[1..], keys);
    }
  }

  lemma {:induction false} RestrictNone(items: Index, keys: set<CacheKey>)
    requires forall e | e in items :: e.key !in keys
    ensures Restrict(items, keys) == []
  {
    if items != [] {
      assert forall e | e in items[1..] :: e in items;
      RestrictNone(items[1..], keys);
    }
  }

  lemma {:induction false} EntryKeys(items: Index)
    ensures forall e | e in items :: e.key in Keys(items)
    ensures forall k | k in Keys(items) :: exists e :: e in items && e.key == k
  {
    if items != [] {
      EntryKeys(items[1..]);
      assert items == [items[0]] + items[1..];
      forall k | k in Keys(items) ensures exists e :: e in items && e.key == k {
        if k in Keys(items[1..]) {
          var e :| e in items[1..] && e.key == k;
          assert e in items;
        } else {
          assert items[0] in items;
        }
      }
    }
  }

  lemma WithoutFacts(items: Index, key: CacheKey)
    ensures forall e :: e in Without(items, key) <==> e in items && e.key != key
    ensures Keys(Without(items, key)) == Keys(items) - {key}
    ensures Distinct(items) ==> Distinct(Without(items, key))
    ensures |Without(items, key)| <= |items|
    ensures Distinct(items) ==> |Without(items, key)| == |items| - (if Has(items, key) then 1 else 0)
    ensures !Has(items, key) ==> Without(items, key) == items
  {
    RestrictFacts(items, Keys(items) - {key});
    EntryKeys(items);
    if !Has(items, key) {
      RestrictAll(items, Keys(items) - {key});
    }
    if Distinct(items) && Has(items, key) {
      WithoutCount(items, key);
    }
  }

  lemma {:induction false} WithoutCount(items: Index, key: CacheKey)
    requires Distinct(items) && Has(items, key)
    ensures |Without(items, key)| == |items| - 1
  {
    var rest, keep := items[1..], Keys(items) - {key};
    EntryKeys(rest);
    if items[0].key == key {
      RestrictAll(rest, keep);
    } else {
      RestrictSame(rest, keep, Keys(rest) - {key});
      WithoutCount(rest, key);
    }
  }

  lemma {:induction false} LookupIs(items: Index, e: Entry)
    requires Distinct(items) && e in items
    ensures Has(items, e.key) && Lookup(items, e.key) == e
  {
    EntryKeys(items[1..]);
    if items[0] != e {
      assert items == [items[0]] + items[1..];
      LookupIs(items[1..], e);
    }
  }

  // ---------------------------------------------------------------------------
  // What the operations do to the index

  function Touch(items: Index, key: CacheKey): Index
    requires Has(items, key)
  {
    Without(items, key) + [Lookup(items, key)]
  }

  function Fetched(items: Index, key: CacheKey): Index {
    if Has(items, key) then Touch(items, key) else items
  }

  function Put(items: Index, entry: Entry, max: nat): Index {
    var t := Without(items, entry.key) + [entry];
    if |t| > max then t[1..] else t
  }

  function DeleteAll(items: Index, keys: seq<CacheKey>): Index
    decreases |keys|
  {
    if keys == [] then items else DeleteAll(Without(items, keys[0]), keys[1..])
  }

  predicate Mentions(key: CacheKey, redisKey: string) { redisKey in key.redisKeys }

  /** The cache keys an invalidation of `redisKey` hits, in order. */
  function Matches(items: Index, redisKey: string): seq<CacheKey> {
    if items == [] then []
    else (if Mentions(items[0].key, redisKey) then [items[0].key] else []) + Matches(items[1..], redisKey)
  }

  /** What an invalidation of one redis key leaves. */
  function Invalidate(items: Index, redisKey: string): Index {
    Restrict(items, set k | k in Keys(items) && !Mentions(k, redisKey))
  }

  /**
   A stored entry becomes the newest one. Whatever else was there stays, in its order, unless the key is
   new and the cache was full: then its oldest entry goes, and nothing else.
   */
  lemma PutMeans(items: Index, entry: Entry, max: nat)
    requires Distinct(items) && |items| <= max
    ensures var r, full := Put(items, entry, max), |items| == max && !Has(items, entry.key);
            && (max > 0 ==> r != [] && r[|r| - 1] == entry)
            && (full && max > 0 ==> r == items[1..] + [entry])
            && (!full ==> Without(r, entry.key) == Without(items, entry.key))
            && forall e: Entry | e.key != entry.key :: e in r <==> e in items && !(full && e == items[0])
  {
    hide Without, Keys, Restrict, Distinct;
    WithoutFacts(items, entry.key);
    EntryKeys(items);
    var others := Without(items, entry.key);
    if |items| == max && !Has(items, entry.key) {
      if max > 0 {
        assert (items + [entry])[1..] == items[1..] + [entry];
        FirstIsNowhereElse(items);
        assert items == [items[0]] + items[1..];
      }
    } else {
      assert |others| + 1 <= max;
      PlacedLast(items, entry);
    }
  }

  lemma FirstIsNowhereElse(items: Index)
    requires items != [] && Distinct(items)
    ensures items[0] !in items[1..]
  {
    EntryKeys(items[1..]);
  }

  lemma PlacedLast(items: Index, entry: Entry)
    ensures Without(Without(items, entry.key) + [entry], entry.key) == Without(items, entry.key)
  {
    hide Restrict, Keys;
    var others, all := Without(items, entry.key), Without(items, entry.key) + [entry];
    WithoutFacts(items, entry.key);
    EntryKeys(all);
    var keep := Keys(all) - {entry.key};
    RestrictAppend(others, [entry], keep);
    assert others + [entry] == all && forall e | e in others :: e in all;
    RestrictAll(others, keep);
    RestrictNone([entry], keep);
  }

  /** Deleting several keys leaves the entries of all others, in their order. */
  lemma {:induction false} DeleteAllMeans(items: Index, keys: seq<CacheKey>)
    ensures DeleteAll(items, keys) == Restrict(items, Keys(items) - (set k | k in keys))
    decreases |keys|
  {
    hide Keys, Distinct, Restrict;
    if keys == [] {
      EntryKeys(items);
      RestrictAll(items, Keys(items) - (set k | k in keys));
    } else {
      assert keys == [keys[0]] + keys[1..];
      var rest := Without(items, keys[0]);
      WithoutFacts(items, keys[0]);
      DeleteAllMeans(rest, keys[1..]);
      var inner := Keys(rest) - (set k | k in keys[1..]);
      RestrictTwice(items, Keys(items) - {keys[0]}, inner);
      assert (Keys(items) - {keys[0]}) * inner == Keys(items) - (set k | k in keys);
    }
  }

  // ---------------------------------------------------------------------------
  // Inclusion: a smaller cache is always contained in a larger one

  datatype Op =
    | DoSet(entry: Entry)
    | DoGet(key: CacheKey)
    | DoDelete(keys: seq<CacheKey>)
    | DoInvalidate(redisKey: string)
    | DoFlush

  function Step(items: Index, op: Op, max: nat): Index {
    match op
    case DoSet(entry) => Put(items, entry, max)
    case DoGet(key) => Fetched(items, key)
    case DoDelete(keys) => DeleteAll(items, keys)
    case DoInvalidate(redisKey) => Invalidate(items, redisKey)
    case DoFlush => []
  }

  function Run(ops: seq<Op>, max: nat): Index {
    if ops == [] then [] else Step(Run(ops[..|ops| - 1], max), ops[|ops| - 1], max)
  }

  /** `small` (bound n) is what `large` (bound m) keeps for the keys of `small`, and lags it by at most m - n. */
  predicate Included(small: Index, large: Index, n: nat, m: nat) {
    && Distinct(small) && Distinct(large)
    && |small| <= n && |large| <= m
    && small == Restrict(large, Keys(small))
    && |large| - |small| <= m - n
  }

  lemma DropFirst(items: Index)
    requires items != [] && Distinct(items)
    ensures Keys(items[1..]) == Keys(items) - {items[0].key}
    ensures items[1..] == Restrict(items, Keys(items[1..]))
  {
    EntryKeys(items[1..]);
    RestrictAll(items[1..], Keys(items[1..]));
  }

  lemma {:induction false} AppendFacts(items: Index, e: Entry)
    requires Distinct(items) && !Has(items, e.key)
    ensures Distinct(items + [e])
    ensures Keys(items + [e]) == Keys(items) + {e.key}
  {
    if items == [] {
      assert items + [e] == [e] && [e][1..] == [];
    } else {
      AppendFacts(items[1..], e);
      assert (items + [e])[1..] == items[1..] + [e];
    }
  }

  /** Removing the same key from both. */
  lemma RemovedIncluded(small: Index, large: Index, key: CacheKey)
    requires Distinct(small) && Distinct(large)
    requires small == Restrict(large, Keys(small))
    ensures Without(small, key) == Restrict(Without(large, key), Keys(small) - {key})
    ensures |Without(large, key)| - |Without(small, key)| <= |large| - |small|
  {
    hide Keys, Distinct, Restrict;
    RestrictTwice(large, Keys(small), Keys(small) - {key});
    RestrictTwice(large, Keys(large) - {key}, Keys(small) - {key});
    RestrictFacts(large, Keys(small));
    EntryKeys(large);
    RestrictSame(large, Keys(small) * (Keys(small) - {key}), (Keys(large) - {key}) * (Keys(small) - {key}));
    WithoutFacts(small, key);
    WithoutFacts(large, key);
  }

  lemma SubKeys(small: Index, large: Index)
    requires small == Restrict(large, Keys(small))
    ensures Keys(small) <= Keys(large)
    ensures forall e | e in small :: e in large
  {
    RestrictFacts(large, Keys(small));
  }

  /** The same entry placed last in both. */
  lemma PlacedIncluded(small: Index, large: Index, e: Entry)
    requires Distinct(small) && Distinct(large)
    requires small == Restrict(large, Keys(small))
    ensures var a, b := Without(small, e.key) + [e], Without(large, e.key) + [e];
            && Distinct(a) && Distinct(b) && a == Restrict(b, Keys(a))
            && |b| - |a| <= |large| - |small|
  {
    hide Keys, Distinct, Restrict;
    RemovedIncluded(small, large, e.key);
    WithoutFacts(small, e.key);
    WithoutFacts(large, e.key);
    var a0, b0 := Without(small, e.key), Without(large, e.key);
    AppendFacts(a0, e);
    AppendFacts(b0, e);
    var keys := Keys(a0 + [e]);
    RestrictAppend(b0, [e], keys);
    RestrictAll([e], keys);
    EntryKeys(b0);
    RestrictSame(b0, keys, Keys(small) - {e.key});
  }

  lemma PutIncluded(small: Index, large: Index, e: Entry, n: nat, m: nat)
    requires n <= m && Included(small, large, n, m)
    ensures Included(Put(small, e, n), Put(large, e, m), n, m)
  {
    PlacedIncluded(small, large, e);
    WithoutFacts(small, e.key);
    WithoutFacts(large, e.key);
    var a, b := Without(small, e.key) + [e], Without(large, e.key) + [e];
    DropFirst(a);
    DropFirst(b);
    SubKeys(a, b);
    if |a| > n {
      RestrictTwice(b, Keys(a), Keys(a[1..]));
      RestrictSame(b, Keys(a) * Keys(a[1..]), Keys(a[1..]));
      assert a[1..] == Restrict(b, Keys(a[1..]));
    }
    if |b| > m {
      // then the small cache overflows too, and both lose their oldest entry
      assert |a| > n;
      if b[0].key in Keys(a) {
        assert a == [b[0]] + Restrict(b[1..], Keys(a));
      }
      assert Restrict(b, Keys(a[1..])) == [] + Restrict(b[1..], Keys(a[1..]));
    }
  }

  lemma GetIncluded(small: Index, large: Index, key: CacheKey, n: nat, m: nat)
    requires n <= m && Included(small, large, n, m)
    ensures Included(Fetched(small, key), Fetched(large, key), n, m)
  {
    SubKeys(small, large);
    if Has(small, key) {
      var e := Lookup(small, key);
      LookupIs(large, e);
      PlacedIncluded(small, large, e);
      WithoutFacts(small, key);
      WithoutFacts(large, key);
    } else if Has(large, key) {
      var e := Lookup(large, key);
      WithoutFacts(large, key);
      WithoutFacts(small, key);
      RemovedIncluded(small, large, key);
      AppendFacts(Without(large, key), e);
      RestrictAppend(Without(large, key), [e], Keys(small));
      RestrictNone([e], Keys(small));
    }
  }

  lemma {:induction false} DeleteIncluded(small: Index, large: Index, keys: seq<CacheKey>, n: nat, m: nat)
    requires n <= m && Included(small, large, n, m)
    ensures Included(DeleteAll(small, keys), DeleteAll(large, keys), n, m)
    decreases |keys|
  {
    if keys != [] {
      RemovedIncluded(small, large, keys[0]);
      WithoutFacts(small, keys[0]);
      WithoutFacts(large, keys[0]);
      DeleteIncluded(Without(small, keys[0]), Without(large, keys[0]), keys[1..], n, m);
    }
  }

  lemma {:induction false} RestrictCount(items: Index, keep: set<CacheKey>, drop: set<CacheKey>)
    requires keep !! drop && forall e | e in items :: e.key in keep + drop
    ensures |items| == |Restrict(items, keep)| + |Restrict(items, drop)|
  {
    if items != [] {
      assert forall e | e in items[1..] :: e in items;
      RestrictCount(items[1..], keep, drop);
    }
  }

  lemma InvalidateIncluded(small: Index, large: Index, redisKey: string, n: nat, m: nat)
    requires n <= m && Included(small, large, n, m)
    ensures Included(Invalidate(small, redisKey), Invalidate(large, redisKey), n, m)
  {
    hide Keys, Distinct, Restrict;
    var ka := set k | k in Keys(small) && !Mentions(k, redisKey);
    var kb := set k | k in Keys(large) && !Mentions(k, redisKey);
    SubKeys(small, large);
    EntryKeys(large);
    EntryKeys(small);
    RestrictFacts(small, ka);
    RestrictFacts(large, kb);
    assert Keys(small) * ka == ka && kb * ka == ka;
    // Restrict(large, kb) restricted to ka
    RestrictTwice(large, kb, ka);
    RestrictTwice(large, Keys(small), ka);
    RestrictSame(large, kb * ka, Keys(small) * ka);
    // what the small cache loses, the large one loses too
    RestrictCount(large, kb, Keys(large) - kb);
    RestrictCount(small, ka, Keys(large) - kb);
    RestrictTwice(large, Keys(large) - kb, Keys(small));
    RestrictTwice(large, Keys(small), Keys(large) - kb);
    RestrictSame(large, (Keys(large) - kb) * Keys(small), Keys(small) * (Keys(large) - kb));
    RestrictFacts(Restrict(large, Keys(large) - kb), Keys(small));
  }

  /** After the same operations, the cache of size n is a sub-cache of the one of size m, in the same recency order. */
  lemma {:induction false} LruInclusion(ops: seq<Op>, n: nat, m: nat)
    requires n <= m
    ensures Included(Run(ops, n), Run(ops, m), n, m)
  {
    if ops != [] {
      var before, op := ops[..|ops| - 1], ops[|ops| - 1];
      LruInclusion(before, n, m);
      var a, b := Run(before, n), Run(before, m);
      match op
      case DoSet(entry) => PutIncluded(a, b, entry, n, m);
      case DoGet(key) => GetIncluded(a, b, key, n, m);
      case DoDelete(keys) => DeleteIncluded(a, b, keys, n, m);
      case DoInvalidate(redisKey) => InvalidateIncluded(a, b, redisKey, n, m);
      case DoFlush =>
    }
  }

  /** A hit in the smaller cache is a hit in the larger one, with the same entry. */
  lemma HitsAreIncluded(ops: seq<Op>, n: nat, m: nat, key: CacheKey)
    requires n <= m && Has(Run(ops, n), key)
    ensures Has(Run(ops, m), key)
    ensures Lookup(Run(ops, m), key) == Lookup(Run(ops, n), key)
  {
    LruInclusion(ops, n, m);
    SubKeys(Run(ops, n), Run(ops, m));
    LookupIs(Run(ops, m), Lookup(Run(ops, n), key));
  }

  // ---------------------------------------------------------------------------
  // The order of the index is the order of last use

  predicate Uses(op: Op, key: CacheKey) {
    match op
    case DoSet(entry) => entry.key == key
    case DoGet(k) => k == key
    case _ => false
  }

  /** The number of operations up to and with the last one that used `key`. */
  function LastUse(ops: seq<Op>, key: CacheKey): nat {
    if ops == [] then 0
    else if Uses(ops[|ops| - 1], key) then |ops|
    else LastUse(ops[..|ops| - 1], key)
  }

  /** Ascending last use, along the index. */
  predicate ByRecency(items: Index, ops: seq<Op>) {
    items == []
    || ((forall e | e in items[1..] :: LastUse(ops, items[0].key) < LastUse(ops, e.key)) && ByRecency(items[1..], ops))
  }

  lemma {:induction false} RestrictByRecency(items: Index, keys: set<CacheKey>, ops: seq<Op>)
    requires ByRecency(items, ops)
    ensures ByRecency(Restrict(items, keys), ops)
  {
    if items != [] {
      RestrictByRecency(items[1..], keys, ops);
      RestrictFacts(items[1..], keys);
      var rest := Restrict(items[1..], keys);
      assert ([items[0]] + rest)[1..] == rest;
      assert [] + rest == rest;
    }
  }

  /** An operation that uses none of the keys does not change their order. */
  lemma {:induction false} UnusedByRecency(items: Index, ops: seq<Op>, op: Op)
    requires ByRecency(items, ops) && forall e | e in items :: !Uses(op, e.key)
    ensures ByRecency(items, ops + [op])
  {
    if items != [] {
      assert items == [items[0]] + items[1..];
      UnusedByRecency(items[1..], ops, op);
      assert (ops + [op])[..|ops|] == ops;
      assert items[0] in items;
    }
  }

  lemma {:induction false} PlacedByRecency(items: Index, e: Entry, ops: seq<Op>)
    requires ByRecency(items, ops)
    requires forall f | f in items :: LastUse(ops, f.key) < LastUse(ops, e.key)
    ensures ByRecency(items + [e], ops)
  {
    if items == [] {
      assert items + [e] == [e];
    } else {
      assert items == [items[0]] + items[1..];
      PlacedByRecency(items[1..], e, ops);
      assert (items + [e])[1..] == items[1..] + [e];
    }
  }

  lemma {:induction false} LastUseBound(ops: seq<Op>, key: CacheKey)
    ensures LastUse(ops, key) <= |ops|
  {
    if ops != [] { LastUseBound(ops[..|ops| - 1], key); }
  }

  lemma UsedLast(items: Index, e: Entry, ops: seq<Op>, op: Op)
    requires ByRecency(items, ops) && (forall k :: Uses(op, k) <==> k == e.key)
    ensures ByRecency(Without(items, e.key) + [e], ops + [op])
  {
    var rest := Without(items, e.key);
    RestrictByRecency(items, Keys(items) - {e.key}, ops);
    WithoutFacts(items, e.key);
    UnusedByRecency(rest, ops, op);
    assert (ops + [op])[..|ops|] == ops;
    forall f | f in rest ensures LastUse(ops + [op], f.key) < LastUse(ops + [op], e.key) {
      LastUseBound(ops, f.key);
    }
    PlacedByRecency(rest, e, ops + [op]);
  }

  lemma {:induction false} DeleteByRecency(items: Index, keys: seq<CacheKey>, ops: seq<Op>)
    requires ByRecency(items, ops)
    ensures ByRecency(DeleteAll(items, keys), ops)
    decreases |keys|
  {
    if keys != [] {
      RestrictByRecency(items, Keys(items) - {keys[0]}, ops);
      DeleteByRecency(Without(items, keys[0]), keys[1..], ops);
    }
  }

  /** After any run the index is ordered by last use, so that the entry evicted next is the least recently used one. */
  lemma {:induction false} IndexByRecency(ops: seq<Op>, max: nat)
    ensures ByRecency(Run(ops, max), ops)
  {
    if ops != [] {
      var before, op := ops[..|ops| - 1], ops[|ops| - 1];
      assert ops == before + [op];
      IndexByRecency(before, max);
      var items := Run(before, max);
      match op
      case DoSet(entry) =>
        UsedLast(items, entry, before, op);
      case DoGet(key) =>
        if Has(items, key) {
          UsedLast(items, Lookup(items, key), before, op);
        } else {
          EntryKeys(items);
          UnusedByRecency(items, before, op);
        }
      case DoDelete(keys) =>
        DeleteByRecency(items, keys, before);
        UnusedByRecency(DeleteAll(items, keys), before, op);
      case DoInvalidate(redisKey) =>
        RestrictByRecency(items, (set k | k in Keys(items) && !Mentions(k, redisKey)), before);
        UnusedByRecency(Invalidate(items, redisKey), before, op);
      case DoFlush =>
    }
  }

  // ---------------------------------------------------------------------------
  // Deleting by redis keys

  /** The cache keys collected for a list of redis keys: once per matching redis key. */
  function Collected(items: Index, redisKeys: seq<string>): seq<CacheKey> {
    if redisKeys == [] then [] else Matches(items, redisKeys[0]) + Collected(items, redisKeys[1..])
  }

  datatype Popped = Done(items: Index) | KeyError(items: Index)

  /** dict.pop for each key in turn. */
  function PopAll(items: Index, keys: seq<CacheKey>): Popped
    decreases |keys|
  {
    if keys == [] then Done(items)
    else if !Has(items, keys[0]) then KeyError(items)
    else PopAll(Without(items, keys[0]), keys[1..])
  }

  predicate NoRepeat(keys: seq<CacheKey>) {
    keys == [] || (keys[0] !in keys[1..] && NoRepeat(keys[1..]))
  }

  /** Some entry is hit by two of the listed redis keys. */
  predicate HitTwice(items: Index, redisKeys: seq<string>) {
    exists k, i, j | k in Keys(items) && 0 <= i < j < |redisKeys| ::
      Mentions(k, redisKeys[i]) && Mentions(k, redisKeys[j])
  }

  /** Popping succeeds exactly when the keys are present and each is listed once. */
  lemma {:induction false} PopAllSucceeds(items: Index, keys: seq<CacheKey>)
    requires Distinct(items)
    ensures PopAll(items, keys).Done? <==> NoRepeat(keys) && forall k | k in keys :: k in Keys(items)
    decreases |keys|
  {
    hide Keys, Distinct, Restrict;
    if keys != [] {
      assert keys == [keys[0]] + keys[1..];
      assert keys[0] in keys;
      if Has(items, keys[0]) {
        WithoutFacts(items, keys[0]);
        PopAllSucceeds(Without(items, keys[0]), keys[1..]);
        if PopAll(items, keys).Done? {
          forall k | k in keys ensures k in Keys(items) {
            assert k == keys[0] || k in keys[1..];
          }
          assert keys[0] !in keys[1..];
        }
        if NoRepeat(keys) && forall k | k in keys :: k in Keys(items) {
          forall k | k in keys[1..] ensures k in Keys(Without(items, keys[0])) {
            assert k in keys;
          }
        }
      }
    }
  }

  lemma {:induction false} PopAllRemoves(items: Index, keys: seq<CacheKey>)
    requires Distinct(items) && PopAll(items, keys).Done?
    ensures PopAll(items, keys).items == Restrict(items, Keys(items) - (set k | k in keys))
    decreases |keys|
  {
    hide Keys, Distinct, Restrict;
    if keys == [] {
      EntryKeys(items);
      RestrictAll(items, Keys(items) - (set k | k in keys));
    } else {
      assert keys == [keys[0]] + keys[1..];
      var rest := Without(items, keys[0]);
      WithoutFacts(items, keys[0]);
      PopAllRemoves(rest, keys[1..]);
      var inner := Keys(rest) - (set k | k in keys[1..]);
      RestrictTwice(items, Keys(items) - {keys[0]}, inner);
      assert (Keys(items) - {keys[0]}) * inner == Keys(items) - (set k | k in keys);
    }
  }

  lemma {:induction false} MatchesMeans(items: Index, redisKey: string)
    requires Distinct(items)
    ensures NoRepeat(Matches(items, redisKey))
    ensures forall k :: k in Matches(items, redisKey) <==> k in Keys(items) && Mentions(k, redisKey)
  {
    if items != [] {
      MatchesMeans(items[1..], redisKey);
      var rest := Matches(items[1..], redisKey);
      assert ([items[0].key] + rest)[1..] == rest;
      assert [] + rest == rest;
    }
  }

  lemma {:induction false} NoRepeatAppend(a: seq<CacheKey>, b: seq<CacheKey>)
    ensures NoRepeat(a + b) <==> NoRepeat(a) && NoRepeat(b) && forall k | k in a :: k !in b
  {
    if a == [] {
      assert a + b == b;
    } else {
      NoRepeatAppend(a[1..], b);
      assert (a + b)[1..] == a[1..] + b;
      assert a == [a[0]] + a[1..];
    }
  }

  lemma {:induction false} CollectedMembers(items: Index, redisKeys: seq<string>, k: CacheKey)
    requires Distinct(items)
    ensures k in Collected(items, redisKeys) <==> k in Keys(items) && exists r :: r in redisKeys && Mentions(k, r)
  {
    hide Keys, Distinct, Matches;
    if redisKeys != [] {
      assert redisKeys == [redisKeys[0]] + redisKeys[1..];
      MatchesMeans(items, redisKeys[0]);
      CollectedMembers(items, redisKeys[1..], k);
    }
  }

  lemma HitTwiceCons(items: Index, first: string, others: seq<string>)
    ensures HitTwice(items, [first] + others)
            <==> HitTwice(items, others)
                 || exists k, r :: k in Keys(items) && r in others && Mentions(k, first) && Mentions(k, r)
  {
    hide Mentions, Keys;
    if HitTwice(items, [first] + others) { TwiceBehind(items, first, others); }
    if HitTwice(items, others) { TwiceAmong(items, first, others); }
    forall k, r | k in Keys(items) && r in others && Mentions(k, first) && Mentions(k, r)
        ensures HitTwice(items, [first] + others) {
      TwiceWithFirst(items, first, others, k, r);
    }
  }

  lemma TwiceBehind(items: Index, first: string, others: seq<string>)
    requires HitTwice(items, [first] + others)
    ensures HitTwice(items, others) || exists k, r ::
              k in Keys(items) && r in others && Mentions(k, first) && Mentions(k, r)
  {
    hide Mentions, Keys;
    var all := [first] + others;
    var k, i, j :| k in Keys(items) && 0 <= i < j < |all| && Mentions(k, all[i]) && Mentions(k, all[j]);
    assert all[j] == others[j - 1] && others[j - 1] in others;
    if i > 0 {
      assert all[i] == others[i - 1];
    }
  }

  lemma TwiceAmong(items: Index, first: string, others: seq<string>)
    requires HitTwice(items, others)
    ensures HitTwice(items, [first] + others)
  {
    hide Mentions, Keys;
    var all := [first] + others;
    var k, i, j :| k in Keys(items) && 0 <= i < j < |others| && Mentions(k, others[i]) && Mentions(k, others[j]);
    assert all[i + 1] == others[i] && all[j + 1] == others[j];
  }

  lemma TwiceWithFirst(items: Index, first: string, others: seq<string>, k: CacheKey, r: string)
    requires k in Keys(items) && r in others && Mentions(k, first) && Mentions(k, r)
    ensures HitTwice(items, [first] + others)
  {
    hide Mentions, Keys;
    var all := [first] + others;
    var j :| 0 <= j < |others| && others[j] == r;
    assert all[0] == first && all[j + 1] == r;
  }

  lemma {:induction false} CollectedRepeats(items: Index, redisKeys: seq<string>)
    requires Distinct(items)
    ensures NoRepeat(Collected(items, redisKeys)) <==> !HitTwice(items, redisKeys)
  {
    hide Keys, Distinct, Matches, NoRepeat, HitTwice, Mentions;
    if redisKeys == [] {
      NothingRepeats(items);
    } else {
      var first, others := redisKeys[0], redisKeys[1..];
      assert redisKeys == [first] + others;
      MatchesMeans(items, first);
      CollectedRepeats(items, others);
      NoRepeatAppend(Matches(items, first), Collected(items, others));
      HitTwiceCons(items, first, others);
      forall k ensures k in Collected(items, others) <==> k in Keys(items) && exists r ::
          r in others && Mentions(k, r) {
        CollectedMembers(items, others, k);
      }
    }
  }

  lemma NothingRepeats(items: Index)
    ensures NoRepeat([]) && !HitTwice(items, [])
  {
  }

  /**
   An invalidation for several redis keys fails with a KeyError exactly when some entry
   depends on two of them; otherwise it removes the entries that depend on any of them.
   */
  lemma DeleteByRedisKeysMeans(items: Index, redisKeys: seq<string>)
    requires Distinct(items)
    ensures PopAll(items, Collected(items, redisKeys)).KeyError? <==> HitTwice(items, redisKeys)
    ensures !HitTwice(items, redisKeys) ==>
              PopAll(items, Collected(items, redisKeys)).items
              == Restrict(items, set k | k in Keys(items) && forall r | r in redisKeys :: !Mentions(k, r))
  {
    CollectedRepeats(items, redisKeys);
    forall k ensures k in Collected(items, redisKeys) <==> k in Keys(items) && exists r ::
        r in redisKeys && Mentions(k, r) {
      CollectedMembers(items, redisKeys, k);
    }
    PopAllSucceeds(items, Collected(items, redisKeys));
    if !HitTwice(items, redisKeys) {
      PopAllRemoves(items, Collected(items, redisKeys));
    }
    assert Keys(items) - (set k | k in Collected(items, redisKeys))
        == set k | k in Keys(items) && forall r | r in redisKeys :: !Mentions(k, r);
  }

  /** With one key per message there is never a KeyError. */
  lemma OneKeyIsSafe(items: Index, redisKey: string)
    requires Distinct(items)
    ensures PopAll(items, Collected(items, [redisKey])) == Done(Invalidate(items, redisKey))
  {
    DeleteByRedisKeysMeans(items, [redisKey]);
    assert (set k | k in Keys(items) && forall r | r in [redisKey] :: !Mentions(k, r))
        == set k | k in Keys(items) && !Mentions(k, redisKey) by {
      assert redisKey in [redisKey];
    }
  }

  /** MGET a b cached, then one message that invalidates both a and b. */
  lemma TwoKeysInOneMessageFail()
    ensures var e := Entry(CacheKey("MGET", ["a", "b"]), "v", Valid);
            PopAll([e], Collected([e], ["a", "b"])).KeyError?
  {
    var e := Entry(CacheKey("MGET", ["a", "b"]), "v", Valid);
    DeleteByRedisKeysMeans([e], ["a", "b"]);
    assert e.key in Keys([e]) && Mentions(e.key, ["a", "b"][0]) && Mentions(e.key, ["a", "b"][1]);
  }

  // ---------------------------------------------------------------------------
  // The cache object

  /** DefaultCache with its LRUPolicy, over one ordered collection. */
  class DefaultCache {
    var collection: Index
    const maxSize: nat
    const allowList: set<string>

    constructor (maxSize: nat, allowList: set<string>)
      ensures Valid() && collection == [] && this.maxSize == maxSize && this.allowList == allowList
    {
      collection := [];
      this.maxSize := maxSize;
      this.allowList := allowList;
    }

    predicate Valid()
      reads this
    {
      Distinct(collection) && |collection| <= maxSize
    }

    predicate IsCachable(key: CacheKey) { key.command in allowList }

    /** OrderedDict.__setitem__: a known key keeps its place. */
    method Assign(entry: Entry)
      requires Distinct(collection)
      modifies this
      ensures Distinct(collection) && Has(collection, entry.key) && Lookup(collection, entry.key) == entry
      ensures Without(collection, entry.key) == Without(old(collection), entry.key)
    {
      hide Without, Restrict, Lookup;
      WithoutFacts(collection, entry.key);
      EntryKeys(collection);
      if Has(collection, entry.key) {
        var i := Position(entry.key);
        Replaced(collection, i, entry);
        collection := collection[i := entry];
      } else {
        AppendFacts(collection, entry);
        AppendedLast(collection, entry);
        collection := collection + [entry];
      }
    }

    /** Where the entry of a known key stands. */
    method Position(key: CacheKey) returns (i: nat)
      requires Has(collection, key)
      ensures i < |collection| && collection[i].key == key
    {
      ghost var entry := Lookup(collection, key);
      ghost var at :| 0 <= at < |collection| && collection[at] == entry;
      i := 0;
      while collection[i].key != key
        invariant i <= at
        decreases at - i
      {
        i := i + 1;
      }
    }

    /** LRUPolicy.touch: move_to_end. */
    method MoveToEnd(key: CacheKey)
      requires Distinct(collection) && Has(collection, key)
      modifies this
      ensures Distinct(collection) && collection == Touch(old(collection), key)
      ensures Keys(collection) == Keys(old(collection)) && |collection| == |old(collection)|
    {
      WithoutFacts(collection, key);
      AppendFacts(Without(collection, key), Lookup(collection, key));
      collection := Without(collection, key) + [Lookup(collection, key)];
    }

    /** LRUPolicy.evict_next: popitem(last=False). */
    method EvictNext() returns (key: CacheKey)
      requires collection != [] && Distinct(collection)
      modifies this
      ensures Distinct(collection) && collection == old(collection)[1..] && key == old(collection)[0].key
    {
      DropFirst(collection);
      key := collection[0].key;
      collection := collection[1..];
    }

    /** LRUPolicy.evict_many; None stands for the ValueError. */
    method EvictMany(count: nat) returns (keys: seq<CacheKey>, ok: bool)
      requires Distinct(collection)
      modifies this
      ensures ok <==> count <= |old(collection)|
      ensures !ok ==> collection == old(collection) && keys == []
      ensures ok ==> collection == old(collection)[count..] && |keys| == count
      ensures ok ==> forall i | 0 <= i < count :: keys[i] == old(collection)[i].key
      ensures Distinct(collection)
    {
      keys := [];
      ok := count <= |collection|;
      if !ok { return; }
      for i := 0 to count
        invariant Distinct(collection) && collection == old(collection)[i..] && |keys| == i
        invariant forall j | 0 <= j < i :: keys[j] == old(collection)[j].key
      {
        var key := EvictNext();
        keys := keys + [key];
      }
    }

    method Set(entry: Entry) returns (stored: bool)
      requires Valid()
      modifies this
      ensures Valid()
      ensures stored == (entry.key.command in allowList)
      ensures collection == if stored then Put(old(collection), entry, maxSize) else old(collection)
      // an entry stays, unless its key is stored anew or it is the oldest one of a full cache that gets a new key
      ensures stored ==>
                forall e: Entry | e.key != entry.key ::
                  e in collection <==>
                    e in old(collection)
                    && !(|old(collection)| == maxSize && !Has(old(collection), entry.key) && e == old(collection)[0])
      ensures stored && maxSize > 0 ==> collection != [] && collection[|collection| - 1] == entry
    {
      PutMeans(collection, entry, maxSize);
      if !IsCachable(entry.key) {
        return false;
      }
      WithoutFacts(collection, entry.key);
      Assign(entry);
      WithoutFacts(collection, entry.key);
      MoveToEnd(entry.key);
      if |collection| > maxSize {
        var _ := EvictNext();
      }
      stored := true;
    }

    method Get(key: CacheKey) returns (entry: Entry, found: bool)
      requires Valid()
      modifies this
      ensures Valid() && collection == Fetched(old(collection), key)
      ensures found == Has(old(collection), key)
      ensures found ==> entry == Lookup(old(collection), key)
      // the entry found becomes the newest one, and nothing else moves
      ensures found ==>
                && entry.key == key && entry in old(collection) && collection[|collection| - 1] == entry
                && Without(collection, key) == Without(old(collection), key)
      ensures !found ==> collection == old(collection)
    {
      found := Has(collection, key);
      if !found {
        entry := Entry(key, "", InProgress);
        return;
      }
      entry := Lookup(collection, key);
      PlacedLast(collection, entry);
      MoveToEnd(key);
    }

    lemma DeleteOne(items: Index, key: CacheKey)
      requires Distinct(items)
      ensures Has(items, key) <==> key in Keys(items)
      ensures Has(items, key) ==> Without(Fetched(items, key), key) == Without(items, key)
      ensures !Has(items, key) ==> Fetched(items, key) == items && Without(items, key) == items
      ensures Distinct(Without(items, key)) && |Without(items, key)| <= |items|
                && Keys(Without(items, key)) == Keys(items) - {key}
    {
      hide Distinct, Keys, Without, Restrict;
      WithoutFacts(items, key);
      EntryKeys(items);
      if Has(items, key) { TouchedThenRemoved(items, key); }
    }

    method DeleteByCacheKeys(keys: seq<CacheKey>) returns (response: seq<bool>)
      requires Valid()
      modifies this
      ensures Valid() && collection == DeleteAll(old(collection), keys)
      ensures forall e: Entry :: e in collection <==> e in old(collection) && e.key !in keys
      ensures |response| == |keys|
      ensures forall i | 0 <= i < |keys| :: response[i] == (Has(old(collection), keys[i]) && keys[i] !in keys[..i])
    {
      hide Distinct, Keys, Without, Fetched, Restrict;
      DeleteAllMeans(collection, keys);
      RestrictFacts(collection, Keys(collection) - (set k | k in keys));
      EntryKeys(collection);
      response := [];
      assert keys[0..] == keys && (set k | k in keys[..0]) == {};
      for i := 0 to |keys|
        invariant Valid() && |response| == i
        invariant DeleteAll(collection, keys[i..]) == DeleteAll(old(collection), keys)
        invariant Keys(collection) == Keys(old(collection)) - (set k | k in keys[..i])
        invariant forall j | 0 <= j < i :: response[j] == (Has(old(collection), keys[j]) && keys[j] !in keys[..j])
      {
        ghost var before := collection;
        assert keys[i..][0] == keys[i] && keys[i..][1..] == keys[i + 1..];
        assert keys[..i + 1] == keys[..i] + [keys[i]];
        DeleteOne(before, keys[i]);
        var _, found := Get(keys[i]);
        if found {
          collection := Without(collection, keys[i]);
          response := response + [true];
        } else {
          response := response + [false];
        }
      }
      assert keys[|keys|..] == [];
    }

    /** The first loop of delete_by_redis_keys. */
    method CollectMatches(redisKeys: seq<string>) returns (keysToDelete: seq<CacheKey>)
      ensures keysToDelete == Collected(collection, redisKeys)
    {
      keysToDelete := [];
      for r := 0 to |redisKeys|
        invariant keysToDelete + Collected(collection, redisKeys[r..]) == Collected(collection, redisKeys)
      {
        assert redisKeys[r..][0] == redisKeys[r] && redisKeys[r..][1..] == redisKeys[r + 1..];
        var found := MatchingKeys(redisKeys[r]);
        keysToDelete := keysToDelete + found;
      }
      assert redisKeys[|redisKeys|..] == [];
    }

    /** Its inner loop, over the whole collection. */
    method MatchingKeys(redisKey: string) returns (found: seq<CacheKey>)
      ensures found == Matches(collection, redisKey)
    {
      found := [];
      for i := 0 to |collection|
        invariant found + Matches(collection[i..], redisKey) == Matches(collection, redisKey)
      {
        assert collection[i..][0] == collection[i] && collection[i..][1..] == collection[i + 1..];
        if redisKey in collection[i].key.redisKeys {
          found := found + [collection[i].key];
        }
      }
      assert collection[|collection|..] == [];
    }

    /** True entries, one per collected key; a failure stands for the KeyError of dict.pop. */
    method DeleteByRedisKeys(redisKeys: seq<string>) returns (response: seq<bool>, failed: bool)
      requires Valid()
      modifies this
      ensures Valid()
      ensures failed == PopAll(old(collection), Collected(old(collection), redisKeys)).KeyError?
      ensures collection == PopAll(old(collection), Collected(old(collection), redisKeys)).items
      ensures |response| == |Collected(old(collection), redisKeys)| && forall b | b in response :: b
      ensures failed <==> HitTwice(old(collection), redisKeys)
    {
      hide Keys, Distinct, Matches, Restrict;
      DeleteByRedisKeysMeans(collection, redisKeys);
      var keysToDelete := CollectMatches(redisKeys);
      response := seq(|keysToDelete|, _ => true);
      for k := 0 to |keysToDelete|
        invariant Valid()
        invariant PopAll(collection, keysToDelete[k..]) == PopAll(old(collection), keysToDelete)
      {
        assert keysToDelete[k..][0] == keysToDelete[k] && keysToDelete[k..][1..] == keysToDelete[k + 1..];
        if !Has(collection, keysToDelete[k]) {
          return response, true;
        }
        WithoutFacts(collection, keysToDelete[k]);
        collection := Without(collection, keysToDelete[k]);
      }
      failed := false;
    }

    method Flush() returns (count: nat)
      modifies this
      ensures Valid() && collection == [] && count == |old(collection)|
    {
      count := |collection|;
      collection := [];
    }
  }

  lemma {:induction false} Replaced(items: Index, i: nat, e: Entry)
    requires Distinct(items) && i < |items| && items[i].key == e.key
    ensures Distinct(items[i := e]) && Keys(items[i := e]) == Keys(items)
    ensures Has(items[i := e], e.key) && Lookup(items[i := e], e.key) == e
    ensures Without(items[i := e], e.key) == Without(items, e.key)
  {
    var after := items[i := e];
    EntryKeys(items);
    if i == 0 {
      assert after[1..] == items[1..];
    } else {
      Replaced(items[1..], i - 1, e);
      assert after[1..] == items[1..][i - 1 := e];
      assert items[1..][i - 1] == items[i];
      EntryKeys(items[1..]);
    }
    RestrictReplaced(items, i, e, Keys(items) - {e.key});
  }

  lemma {:induction false} RestrictReplaced(items: Index, i: nat, e: Entry, keys: set<CacheKey>)
    requires i < |items| && items[i].key == e.key && e.key !in keys
    ensures Restrict(items[i := e], keys) == Restrict(items, keys)
  {
    if i == 0 {
      assert items[i := e][1..] == items[1..];
    } else {
      RestrictReplaced(items[1..], i - 1, e, keys);
      assert items[i := e][1..] == items[1..][i - 1 := e];
    }
  }

  lemma AppendedLast(items: Index, e: Entry)
    requires Distinct(items) && !Has(items, e.key)
    ensures Has(items + [e], e.key) && Lookup(items + [e], e.key) == e
    ensures Without(items + [e], e.key) == Without(items, e.key)
  {
    AppendFacts(items, e);
    LookupIs(items + [e], e);
    EntryKeys(items);
    RestrictAppend(items, [e], Keys(items + [e]) - {e.key});
    RestrictSame(items, Keys(items + [e]) - {e.key}, Keys(items) - {e.key});
  }

  lemma TouchedThenRemoved(items: Index, key: CacheKey)
    requires Distinct(items) && Has(items, key)
    ensures Without(Touch(items, key), key) == Without(items, key)
  {
    WithoutFacts(items, key);
    var rest, e := Without(items, key), Lookup(items, key);
    AppendedLast(rest, e);
    WithoutFacts(rest, key);
  }
}
