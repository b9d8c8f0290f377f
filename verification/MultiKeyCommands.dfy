/**
 Multi-key commands in a cluster: the arguments are partitioned by slot, one command is
 issued per slot in the order in which the slots first occur, and the replies are put
 together again.
 */
module MultiKeyCommands {
  import opened Wrappers
  import opened RespGrammar
  import opened Crc

  type Db = map<bytes, bytes>

  function Slot(crc: bytes -> nat, key: bytes): nat { KeySlot(crc, key, REDIS_CLUSTER_HASH_SLOTS) }

  /** The slot of a tagged key is that of its tag, any other key is hashed as a whole. */
  lemma SlotIsHashed(crc: bytes -> nat, key: bytes, before: bytes, tag: bytes, after: bytes)
    ensures Tagged(key, before, tag, after) ==> Slot(crc, key) == crc(tag) % 16384
    ensures (forall b, t, a :: !Tagged(key, b, t, a)) ==> Slot(crc, key) == crc(key) % 16384
  {
    hide Tagged, Hashed;
    if Tagged(key, before, tag, after) { TaggedHashesTag(key, before, tag, after); }
    if forall b, t, a :: !Tagged(key, b, t, a) { UntaggedHashesAll(key); }
  }

  // ---------------------------------------------------------------------------
  // Partitioning

  /** The keys of one slot, in their order. */
  function Filter(keys: seq<bytes>, crc: bytes -> nat, slot: nat): seq<bytes> {
    if keys == [] then []
    else
      var rest, last := Filter(keys[..|keys| - 1], crc, slot), keys[|keys| - 1];
      if Slot(crc, last) == slot then rest + [last] else rest
  }

  /** The slots in order of first occurrence. */
  function SlotOrder(keys: seq<bytes>, crc: bytes -> nat): seq<nat> {
    if keys == [] then []
    else
      var rest, slot := SlotOrder(keys[..|keys| - 1], crc), Slot(crc, keys[|keys| - 1]);
      if slot in rest then rest else rest + [slot]
  }

  predicate NoRepeat(slots: seq<nat>) {
    forall i, j | 0 <= i < j < |slots| :: slots[i] != slots[j]
  }

  function Members(keys: seq<bytes>): set<bytes> { set k | k in keys }

  function Range(slots: seq<nat>): set<nat> { set s | s in slots }

  lemma {:induction false} FilterMeans(keys: seq<bytes>, crc: bytes -> nat, slot: nat)
    ensures forall k :: k in Filter(keys, crc, slot) <==> k in keys && Slot(crc, k) == slot
  {
    hide Slot;
    if keys != [] {
      FilterMeans(keys[..|keys| - 1], crc, slot);
      assert keys == keys[..|keys| - 1] + [keys[|keys| - 1]];
    }
  }

  lemma FilterNone(keys: seq<bytes>, crc: bytes -> nat, slot: nat)
    requires slot !in SlotOrder(keys, crc)
    ensures Filter(keys, crc, slot) == []
  {
    OrderMeans(keys, crc);
    FilterEmpty(keys, crc, slot);
  }

  lemma {:induction false} FilterEmpty(keys: seq<bytes>, crc: bytes -> nat, slot: nat)
    requires forall k | k in keys :: Slot(crc, k) != slot
    ensures Filter(keys, crc, slot) == []
  {
    hide Slot;
    if keys != [] {
      assert keys[|keys| - 1] in keys;
      FilterEmpty(keys[..|keys| - 1], crc, slot);
    }
  }

  lemma {:induction false} OrderMeans(keys: seq<bytes>, crc: bytes -> nat)
    ensures NoRepeat(SlotOrder(keys, crc))
    ensures forall k | k in keys :: Slot(crc, k) in SlotOrder(keys, crc)
    ensures forall s | s in SlotOrder(keys, crc) :: exists k :: k in keys && Slot(crc, k) == s
  {
    hide Slot;
    if keys != [] {
      var last := keys[|keys| - 1];
      OrderMeans(keys[..|keys| - 1], crc);
      assert keys == keys[..|keys| - 1] + [last];
      assert last in keys;
    }
  }

  /** slots_to_keys.setdefault(slot, []).append(key), for each key: a dictionary that remembers its order. */
  method PartitionKeysBySlot(keys: seq<bytes>, crc: bytes -> nat) returns (order: seq<nat>, table: map<nat, seq<bytes>>)
    ensures order == SlotOrder(keys, crc)
    ensures table == map s | s in Range(SlotOrder(keys, crc)) :: Filter(keys, crc, s)
  {
    hide Slot;
    order, table := [], map[];
    for i := 0 to |keys|
      invariant order == SlotOrder(keys[..i], crc)
      invariant table.Keys == Range(order)
      invariant forall s | s in table :: table[s] == Filter(keys[..i], crc, s)
    {
      var slot := Slot(crc, keys[i]);
      assert keys[..i + 1][..i] == keys[..i];
      if slot !in table {
        FilterNone(keys[..i], crc, slot);
        order := order + [slot];
        table := table[slot := []];
      }
      table := table[slot := table[slot] + [keys[i]]];
    }
    assert keys[..|keys|] == keys;
  }

  // ---------------------------------------------------------------------------
  // What the commands mean on a database

  function Value(db: Db, key: bytes): Option<bytes> { if key in db then Some(db[key]) else None }

  function MGet(db: Db, keys: seq<bytes>): (r: seq<Option<bytes>>)
    ensures |r| == |keys|
    ensures forall i | 0 <= i < |keys| :: r[i] == Value(db, keys[i])
  {
    seq(|keys|, i requires 0 <= i < |keys| => Value(db, keys[i]))
  }

  /** EXISTS and TOUCH: how many of the listed keys exist, repetitions counted. */
  function Count(db: Db, keys: seq<bytes>): nat {
    if keys == [] then 0
    else Count(db, keys[..|keys| - 1]) + (if keys[|keys| - 1] in db then 1 else 0)
  }

  /** DEL and UNLINK: the reply and the database that is left, key by key. */
  datatype Deleted = Deleted(count: nat, left: Db)

  function Delete(db: Db, keys: seq<bytes>): Deleted {
    if keys == [] then Deleted(0, db)
    else DeleteOne(Delete(db, keys[..|keys| - 1]), keys[|keys| - 1])
  }

  function DeleteOne(d: Deleted, key: bytes): Deleted {
    Deleted(d.count + (if key in d.left then 1 else 0), d.left - {key})
  }

  /** MSET with alternating keys and values. */
  function MSet(db: Db, args: seq<bytes>): Db
    requires |args| % 2 == 0
  {
    if args == [] then db
    else MSet(db, args[..|args| - 2])[args[|args| - 2] := args[|args| - 1]]
  }

  /** Each issued command has the keys of one slot only. */
  predicate OneSlotEach(crc: bytes -> nat, order: seq<nat>, issued: seq<seq<bytes>>) {
    |issued| == |order| && forall i, k | 0 <= i < |order| && k in issued[i] :: Slot(crc, k) == order[i]
  }

  // ---------------------------------------------------------------------------
  // MGET

  /** One MGET per slot, then the values in the order of the caller's keys. */
  method MGetNonatomic(db: Db, keys: seq<bytes>, crc: bytes -> nat)
    returns (values: seq<Option<bytes>>, issued: seq<seq<bytes>>)
    ensures values == MGet(db, keys)
    ensures OneSlotEach(crc, SlotOrder(keys, crc), issued)
  {
    hide Slot, MGet, SlotOrder, Filter;
    var order, table := PartitionKeysBySlot(keys, crc);
    var responses: seq<seq<Option<bytes>>> := [];
    issued := [];
    for i := 0 to |order|
      invariant |responses| == |issued| == i
      invariant forall j | 0 <= j < i :: issued[j] == table[order[j]] && responses[j] == MGet(db, issued[j])
      invariant OneSlotEach(crc, order[..i], issued)
    {
      assert order[i] in Range(order);
      FilterMeans(keys, crc, order[i]);
      responses := responses + [MGet(db, table[order[i]])];
      issued := issued + [table[order[i]]];
    }
    assert order[..|order|] == order;
    forall k | k in keys ensures exists j :: 0 <= j < |issued| && k in issued[j] {
      OrderMeans(keys, crc);
      FilterMeans(keys, crc, Slot(crc, k));
      var j :| 0 <= j < |order| && order[j] == Slot(crc, k);
      assert order[j] in Range(order);
      assert k in issued[j];
    }
    values := ReorderKeysByCommand(db, keys, issued, responses);
  }

  /** The dictionary of all answers, read in the caller's order. */
  method ReorderKeysByCommand(ghost db: Db, keys: seq<bytes>, slotArgs: seq<seq<bytes>>,
      responses: seq<seq<Option<bytes>>>)
    returns (values: seq<Option<bytes>>)
    requires |responses| == |slotArgs|
    requires forall j | 0 <= j < |responses| :: responses[j] == MGet(db, slotArgs[j])
    requires forall k | k in keys :: exists j :: 0 <= j < |slotArgs| && k in slotArgs[j]
    ensures values == MGet(db, keys)
  {
    var results: map<bytes, Option<bytes>> := map[];
    for i := 0 to |slotArgs|
      invariant forall k | k in results :: results[k] == Value(db, k)
      invariant forall j, k | 0 <= j < i && k in slotArgs[j] :: k in results
    {
      results := AddResponses(db, results, slotArgs[i], responses[i]);
    }
    values := [];
    for i := 0 to |keys|
      invariant |values| == i && forall j | 0 <= j < i :: values[j] == Value(db, keys[j])
    {
      assert keys[i] in keys;
      values := values + [results[keys[i]]];
    }
  }

  /** zip(slot_values, response) into the dictionary. */
  method AddResponses(ghost db: Db, before: map<bytes, Option<bytes>>, slotValues: seq<bytes>,
      response: seq<Option<bytes>>)
    returns (results: map<bytes, Option<bytes>>)
    requires response == MGet(db, slotValues)
    requires forall k | k in before :: before[k] == Value(db, k)
    ensures results.Keys == before.Keys + Members(slotValues)
    ensures forall k | k in results :: results[k] == Value(db, k)
  {
    results := before;
    for j := 0 to |slotValues|
      invariant results.Keys == before.Keys + Members(slotValues[..j])
      invariant forall k | k in results :: results[k] == Value(db, k)
    {
      assert slotValues[..j + 1] == slotValues[..j] + [slotValues[j]];
      results := results[slotValues[j] := response[j]];
    }
    assert slotValues[..|slotValues|] == slotValues;
  }

  // ---------------------------------------------------------------------------
  // Sums over the slots

  function Sum(replies: seq<nat>): nat {
    if replies == [] then 0 else Sum(replies[..|replies| - 1]) + replies[|replies| - 1]
  }

  /** The keys whose slot is among `slots`. */
  function Among(keys: seq<bytes>, crc: bytes -> nat, slots: set<nat>): seq<bytes> {
    if keys == [] then []
    else
      var rest, last := Among(keys[..|keys| - 1], crc, slots), keys[|keys| - 1];
      if Slot(crc, last) in slots then rest + [last] else rest
  }

  lemma {:induction false} AmongAll(keys: seq<bytes>, crc: bytes -> nat, slots: set<nat>)
    requires forall k | k in keys :: Slot(crc, k) in slots
    ensures Among(keys, crc, slots) == keys
  {
    hide Slot;
    if keys != [] {
      assert keys == keys[..|keys| - 1] + [keys[|keys| - 1]];
      AmongAll(keys[..|keys| - 1], crc, slots);
    }
  }

  lemma CountSnoc(db: Db, keys: seq<bytes>, last: bytes)
    ensures Count(db, keys + [last]) == Count(db, keys) + (if last in db then 1 else 0)
  {
    assert (keys + [last])[..|keys|] == keys;
  }

  lemma {:induction false} CountSplits(db: Db, keys: seq<bytes>, crc: bytes -> nat, slots: set<nat>, slot: nat)
    requires slot !in slots
    ensures Count(db, Among(keys, crc, slots + {slot}))
              == Count(db, Among(keys, crc, slots)) + Count(db, Filter(keys, crc, slot))
  {
    hide Slot;
    if keys != [] {
      var init, last := keys[..|keys| - 1], keys[|keys| - 1];
      CountSplits(db, init, crc, slots, slot);
      CountSnoc(db, Among(init, crc, slots + {slot}), last);
      CountSnoc(db, Among(init, crc, slots), last);
      CountSnoc(db, Filter(init, crc, slot), last);
      hide Count;
    }
  }

  /** EXISTS, TOUCH: the sum of the per-slot replies is the reply to the unsplit command. */
  method SplitCount(db: Db, keys: seq<bytes>, crc: bytes -> nat) returns (total: nat, issued: seq<seq<bytes>>)
    ensures total == Count(db, keys)
    ensures OneSlotEach(crc, SlotOrder(keys, crc), issued)
  {
    hide Slot, SlotOrder, Filter, Count, Among;
    var order, table := PartitionKeysBySlot(keys, crc);
    OrderMeans(keys, crc);
    total, issued := 0, [];
    AmongNone(db, keys, crc);
    assert order[..0] == [] && Range([]) == {};
    for i := 0 to |order|
      invariant total == Count(db, Among(keys, crc, Range(order[..i])))
      invariant OneSlotEach(crc, order[..i], issued)
    {
      assert order[i] in Range(order);
      assert order[..i + 1] == order[..i] + [order[i]];
      assert Range(order[..i + 1]) == Range(order[..i]) + {order[i]};
      FilterMeans(keys, crc, order[i]);
      CountSplits(db, keys, crc, Range(order[..i]), order[i]);
      total := total + Count(db, table[order[i]]);
      issued := issued + [table[order[i]]];
    }
    assert order[..|order|] == order;
    AmongAll(keys, crc, Range(order));
  }

  lemma {:induction false} AmongNone(db: Db, keys: seq<bytes>, crc: bytes -> nat)
    ensures Among(keys, crc, {}) == [] && Count(db, []) == 0
  {
    if keys != [] { AmongNone(db, keys[..|keys| - 1], crc); }
  }

  // ---------------------------------------------------------------------------
  // DEL

  /** The reply and the database when the keys `gone` are deleted. */
  function DeletedSoFar(db: Db, gone: set<bytes>): Deleted { Deleted(|db.Keys * gone|, db - gone) }

  lemma MembersSnoc(keys: seq<bytes>, last: bytes)
    ensures Members(keys + [last]) == Members(keys) + {last}
  {
  }

  lemma OneMore(all: set<bytes>, gone: set<bytes>, last: bytes)
    ensures |all * (gone + {last})| == |all * gone| + (if last in all - gone then 1 else 0)
  {
    if last in all - gone {
      assert all * (gone + {last}) == all * gone + {last};
    } else {
      assert all * (gone + {last}) == all * gone;
    }
  }

  lemma Left(db: Db, gone: set<bytes>, more: set<bytes>)
    ensures (db - gone) - more == db - (gone + more)
    ensures (db - gone).Keys == db.Keys - gone
  {
  }

  /** DEL removes the listed keys and counts those that were there. */
  lemma {:induction false} DeleteMeans(db: Db, keys: seq<bytes>)
    ensures Delete(db, keys) == DeletedSoFar(db, Members(keys))
  {
    hide Members, DeleteOne;
    if keys == [] {
      NothingDeleted(db);
    } else {
      var init, last := keys[..|keys| - 1], keys[|keys| - 1];
      DeleteMeans(db, init);
      assert keys == init + [last];
      MembersSnoc(init, last);
      OneDeleted(db, Members(init), last);
    }
  }

  lemma NothingDeleted(db: Db)
    ensures Members([]) == {} && DeletedSoFar(db, {}) == Deleted(0, db)
  {
    assert db.Keys * {} == {};
  }

  lemma OneDeleted(db: Db, gone: set<bytes>, last: bytes)
    ensures DeleteOne(DeletedSoFar(db, gone), last) == DeletedSoFar(db, gone + {last})
  {
    OneMore(db.Keys, gone, last);
    Left(db, gone, {last});
  }

  function Add(before: nat, d: Deleted): Deleted { Deleted(before + d.count, d.left) }

  lemma MoreDeleted(db: Db, gone: set<bytes>, more: set<bytes>)
    requires gone !! more
    ensures Add(|db.Keys * gone|, DeletedSoFar(db - gone, more)) == DeletedSoFar(db, gone + more)
  {
    Left(db, gone, more);
    var a, b := db.Keys * gone, db.Keys * more;
    assert (db.Keys - gone) * more == b;
    assert db.Keys * (gone + more) == a + b;
    assert |a + b| == |a| + |b|;
  }

  lemma DeleteMore(db: Db, gone: set<bytes>, total: nat, left: Db, group: seq<bytes>)
    requires gone !! Members(group) && Deleted(total, left) == DeletedSoFar(db, gone)
    ensures Add(total, Delete(left, group)) == DeletedSoFar(db, gone + Members(group))
  {
    hide Members, Delete;
    DeleteMeans(left, group);
    MoreDeleted(db, gone, Members(group));
  }

  /** DEL, UNLINK per slot: the same total and the same database as the unsplit command. */
  method SplitDelete(db: Db, keys: seq<bytes>, crc: bytes -> nat)
    returns (total: nat, left: Db, issued: seq<seq<bytes>>)
    ensures Deleted(total, left) == Delete(db, keys)
    ensures OneSlotEach(crc, SlotOrder(keys, crc), issued)
  {
    hide Slot, SlotOrder, Filter, Delete, DeletedSoFar, Done, Members;
    var order, table := PartitionKeysBySlot(keys, crc);
    OrderMeans(keys, crc);
    total, left, issued := 0, db, [];
    DoneNone(keys, crc);
    NothingDeleted(db);
    for i := 0 to |order|
      invariant Deleted(total, left) == DeletedSoFar(db, Done(keys, crc, order[..i]))
      invariant OneSlotEach(crc, order[..i], issued)
    {
      assert order[i] in Range(order);
      assert order[..i + 1] == order[..i] + [order[i]];
      FilterMeans(keys, crc, order[i]);
      DoneNext(keys, crc, order[..i], order[i]);
      DeleteMore(db, Done(keys, crc, order[..i]), total, left, table[order[i]]);
      var reply := Delete(left, table[order[i]]);
      total, left := total + reply.count, reply.left;
      issued := issued + [table[order[i]]];
    }
    assert order[..|order|] == order;
    DoneAll(keys, crc, order);
    DeleteMeans(db, keys);
  }

  lemma DoneNone(keys: seq<bytes>, crc: bytes -> nat)
    ensures Done(keys, crc, []) == {} && Members([]) == {}
  {
  }

  lemma DoneAll(keys: seq<bytes>, crc: bytes -> nat, order: seq<nat>)
    requires forall k | k in keys :: Slot(crc, k) in order
    ensures Done(keys, crc, order) == Members(keys)
  {
  }

  /** The keys whose slots have been dealt with. */
  ghost function Done(keys: seq<bytes>, crc: bytes -> nat, slots: seq<nat>): set<bytes> {
    set k | k in keys && Slot(crc, k) in slots
  }

  lemma DoneNext(keys: seq<bytes>, crc: bytes -> nat, slots: seq<nat>, slot: nat)
    requires slot !in slots
    ensures Done(keys, crc, slots) !! Members(Filter(keys, crc, slot))
    ensures Done(keys, crc, slots + [slot]) == Done(keys, crc, slots) + Members(Filter(keys, crc, slot))
  {
    hide Slot;
    FilterMeans(keys, crc, slot);
  }

  // ---------------------------------------------------------------------------
  // MSET

  /** A key-value argument list for the given keys. */
  function Pairs(keys: seq<bytes>, mapping: map<bytes, bytes>): (args: seq<bytes>)
    requires forall k | k in keys :: k in mapping
    ensures |args| == 2 * |keys|
  {
    if keys == [] then []
    else
      var last := keys[|keys| - 1];
      assert keys[..|keys| - 1] <= keys;
      Pairs(keys[..|keys| - 1], mapping) + [last, mapping[last]]
  }

  function Restricted(mapping: map<bytes, bytes>, keys: set<bytes>): map<bytes, bytes> {
    map k | k in mapping && k in keys :: mapping[k]
  }

  lemma {:induction false} MSetPairs(db: Db, keys: seq<bytes>, mapping: map<bytes, bytes>)
    requires forall k | k in keys :: k in mapping
    ensures MSet(db, Pairs(keys, mapping)) == db + Restricted(mapping, Members(keys))
  {
    hide Restricted;
    if keys == [] {
      NothingSet(db, mapping);
      assert Members(keys) == {};
    } else {
      var init, last := keys[..|keys| - 1], keys[|keys| - 1];
      assert keys == init + [last];
      MSetPairs(db, init, mapping);
      var args := Pairs(keys, mapping);
      assert args[..|args| - 2] == Pairs(init, mapping) && args[|args| - 2] == last
             && args[|args| - 1] == mapping[last];
      MembersSnoc(init, last);
      hide Members, Pairs;
      SetOneMore(db, mapping, Members(init), last);
    }
  }

  lemma SetOneMore(db: Db, mapping: map<bytes, bytes>, keys: set<bytes>, last: bytes)
    requires last in mapping
    ensures db + Restricted(mapping, keys + {last}) == (db + Restricted(mapping, keys))[last := mapping[last]]
  {
  }

  /** slots_to_pairs.setdefault(slot, []).extend(pair), in the order of the mapping's keys. */
  method PartitionPairsBySlot(mapping: map<bytes, bytes>, keys: seq<bytes>, crc: bytes -> nat)
    returns (order: seq<nat>, table: map<nat, seq<bytes>>)
    requires Members(keys) == mapping.Keys
    ensures order == SlotOrder(keys, crc) && table.Keys == Range(order)
    ensures forall s | s in table :: Members(Filter(keys, crc, s)) <= mapping.Keys
              && table[s] == Pairs(Filter(keys, crc, s), mapping)
  {
    hide Slot;
    order, table := [], map[];
    InKeys(keys, crc);
    for i := 0 to |keys|
      invariant order == SlotOrder(keys[..i], crc) && table.Keys == Range(order)
      invariant forall s | s in table :: Members(Filter(keys[..i], crc, s)) <= mapping.Keys
                  && table[s] == Pairs(Filter(keys[..i], crc, s), mapping)
    {
      var slot := Slot(crc, keys[i]);
      assert keys[..i + 1][..i] == keys[..i];
      assert keys[i] in Members(keys);
      if slot !in table {
        FilterNone(keys[..i], crc, slot);
        order := order + [slot];
        table := table[slot := []];
      }
      ghost var group := Filter(keys[..i], crc, slot);
      assert (group + [keys[i]])[..|group|] == group;
      table := table[slot := table[slot] + [keys[i], mapping[keys[i]]]];
    }
    assert keys[..|keys|] == keys;
  }

  lemma InKeys(keys: seq<bytes>, crc: bytes -> nat)
    ensures forall s :: Members(Filter(keys, crc, s)) <= Members(keys)
  {
    forall s ensures Members(Filter(keys, crc, s)) <= Members(keys) {
      FilterMeans(keys, crc, s);
    }
  }

  /** MSET per slot leaves the database that setting the whole mapping leaves. */
  method MSetNonatomic(db: Db, mapping: map<bytes, bytes>, keys: seq<bytes>, crc: bytes -> nat)
    returns (after: Db, issued: seq<seq<bytes>>)
    requires Members(keys) == mapping.Keys
    ensures after == db + mapping
    ensures |issued| == |SlotOrder(keys, crc)|
    ensures forall i | 0 <= i < |issued| :: KeysIn(issued[i], crc, SlotOrder(keys, crc)[i])
  {
    hide Slot, SlotOrder, Filter, MSet, Pairs, Done, Members, Restricted, KeysIn;
    var order, table := PartitionPairsBySlot(mapping, keys, crc);
    OrderMeans(keys, crc);
    after, issued := db, [];
    DoneNone(keys, crc);
    NothingSet(db, mapping);
    for i := 0 to |order|
      invariant after == db + Restricted(mapping, Done(keys, crc, order[..i]))
      invariant |issued| == i
      invariant forall h | 0 <= h < i :: KeysIn(issued[h], crc, order[h])
    {
      assert order[i] in Range(order);
      assert order[..i + 1] == order[..i] + [order[i]];
      DoneNext(keys, crc, order[..i], order[i]);
      SetGroup(db, mapping, keys, crc, Done(keys, crc, order[..i]), order[i]);
      after := MSet(after, table[order[i]]);
      issued := issued + [table[order[i]]];
    }
    assert order[..|order|] == order;
    DoneAll(keys, crc, order);
    NothingSet(db, mapping);
  }

  lemma NothingSet(db: Db, mapping: map<bytes, bytes>)
    ensures db + Restricted(mapping, {}) == db
    ensures Restricted(mapping, mapping.Keys) == mapping
  {
    assert Restricted(mapping, {}) == map[];
  }

  /** What the MSET of one slot does to the database, and that its keys have that slot. */
  lemma SetGroup(db: Db, mapping: map<bytes, bytes>, keys: seq<bytes>, crc: bytes -> nat, done: set<bytes>, slot: nat)
    requires Members(Filter(keys, crc, slot)) <= mapping.Keys
    ensures forall k | k in Filter(keys, crc, slot) :: k in mapping
    ensures KeysIn(Pairs(Filter(keys, crc, slot), mapping), crc, slot)
    ensures MSet(db + Restricted(mapping, done), Pairs(Filter(keys, crc, slot), mapping))
            == db + Restricted(mapping, done + Members(Filter(keys, crc, slot)))
  {
    hide Slot, MSet, Pairs, Restricted, Filter;
    var group := Filter(keys, crc, slot);
    forall k | k in group ensures k in mapping { assert k in Members(group); }
    FilterMeans(keys, crc, slot);
    MSetPairs(db + Restricted(mapping, done), group, mapping);
    MoreSet(db, mapping, done, Members(group));
    PairsKeys(group, mapping);
  }

  lemma MoreSet(db: Db, mapping: map<bytes, bytes>, a: set<bytes>, b: set<bytes>)
    ensures db + Restricted(mapping, a) + Restricted(mapping, b) == db + Restricted(mapping, a + b)
  {
  }

  /** The keys of an MSET argument list all have one slot. */
  predicate KeysIn(args: seq<bytes>, crc: bytes -> nat, slot: nat) {
    forall j | 0 <= j < |args| && j % 2 == 0 :: Slot(crc, args[j]) == slot
  }

  lemma {:induction false} PairsKeys(keys: seq<bytes>, mapping: map<bytes, bytes>)
    requires forall k | k in keys :: k in mapping
    ensures forall j | 0 <= j < |Pairs(keys, mapping)| && j % 2 == 0 :: Pairs(keys, mapping)[j] in keys
  {
    if keys != [] {
      var init := keys[..|keys| - 1];
      assert init <= keys;
      PairsKeys(init, mapping);
    }
  }
}
