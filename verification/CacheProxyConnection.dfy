/**
 The caching connection object and the connection it wraps, step by step.  Each method is
 proved to do exactly what the corresponding step of the coherence model says.
 */
module CacheProxyConnection {
  import opened Wrappers
  import opened LruCache
  import opened CacheCoherence

  /** The wrapped connection together with the server at its other end. */
  class TrackedConnection {
    const eval: (string, seq<Option<string>>) -> Answer
    var db: Db
    var tracked: set<string>
    var inbox: Option<Command>
    var channel: seq<Msg>
    /** How many messages of the channel have arrived at the client. */
    var arrived: nat

    predicate Valid()
      reads this
    {
      arrived <= |channel|
    }

    predicate CanRead()
      reads this
    {
      arrived > 0
    }

    method SendCommand(cmd: Command)
      modifies this`inbox
      ensures inbox == Some(cmd)
    {
      inbox := Some(cmd);
    }

    /** The next message, waiting for it if need be; nothing comes when the channel is empty. */
    method Receive() returns (m: Option<Msg>)
      requires Valid()
      modifies this`channel, this`arrived
      ensures Valid()
      ensures old(channel) == [] ==> m == None && channel == []
      ensures old(channel) != [] ==> m == Some(old(channel)[0]) && channel == old(channel)[1..]
      ensures arrived == if old(arrived) > 0 then old(arrived) - 1 else 0
    {
      if channel == [] {
        arrived := 0;
        return None;
      }
      m := Some(channel[0]);
      channel := channel[1..];
      arrived := if arrived > 0 then arrived - 1 else 0;
    }

    method Disconnect()
      modifies this
      ensures Valid() && db == old(db)
      ensures tracked == {} && inbox == None && channel == [] && arrived == 0
    {
      tracked, inbox, channel, arrived := {}, None, [], 0;
    }
  }

  datatype Outcome = Returned(answer: Answer) | ServerError | TimedOut

  datatype Accepted = Accepted | MissingKeys

  class CacheProxyConnection {
    const conn: TrackedConnection
    const cache: DefaultCache
    var currentCommandCacheKey: Option<CacheKey>
    ghost var phase: Phase

    constructor (conn: TrackedConnection, cache: DefaultCache)
      ensures this.conn == conn && this.cache == cache
      ensures currentCommandCacheKey == None && phase == Idle
    {
      this.conn := conn;
      this.cache := cache;
      currentCommandCacheKey := None;
      phase := Idle;
    }

    ghost predicate Valid()
      reads this, conn, cache
    {
      conn.Valid() && cache.Valid()
    }

    ghost function W(): World
    {
      World(conn.eval, cache.allowList, cache.maxSize)
    }

    /** The state of the coherence model. */
    ghost function State(): Sys
      reads this, conn, cache
    {
      Sys(conn.db, conn.tracked, conn.inbox, conn.channel, cache.collection, currentCommandCacheKey, phase)
    }

    /** _on_invalidation_callback */
    method OnInvalidation(m: Msg)
      requires cache.Valid() && !m.Answered?
      modifies cache
      ensures cache.Valid() && cache.collection == Deliver(old(cache.collection), m)
    {
      match m {
        case Flushed =>
          var _ := cache.Flush();
        case Invalidated(k) =>
          OneKeyIsSafe(cache.collection, k);
          var _, _ := cache.DeleteByRedisKeys([k]);
        case Answered(_) =>
      }
    }

    /**
     read_response of the wrapped connection: pushes are handed to the callback on the way;
     with `pushRequest` it stops after the first message, otherwise at the first reply.
     */
    method ReadConnection(pushRequest: bool) returns (answer: Option<Answer>, timedOut: bool)
      requires Valid()
      modifies conn, cache
      ensures Valid()
      ensures pushRequest && old(conn.channel) != [] ==>
                && !timedOut
                && State() == old(State()).(cache := Deliver(old(cache.collection), old(conn.channel)[0]),
                    channel := old(conn.channel)[1..])
                && conn.arrived == (if old(conn.arrived) > 0 then old(conn.arrived) - 1 else 0)
      ensures !pushRequest ==> timedOut == (ReplyAt(old(conn.channel)) == |old(conn.channel)|)
      ensures !pushRequest && !timedOut ==>
                var i := ReplyAt(old(conn.channel));
                && answer == Some(old(conn.channel)[i].answer)
                && State() == old(State()).(cache := DeliverAll(old(cache.collection), old(conn.channel)[..i]),
                                            channel := old(conn.channel)[i + 1..])
      ensures timedOut ==> answer == None
      ensures !pushRequest && timedOut ==>
                State() == Drop(old(State())).(cache := DeliverAll(old(cache.collection), old(conn.channel)),
                    phase := phase)
      ensures currentCommandCacheKey == old(currentCommandCacheKey) && phase == old(phase)
    {
      hide ReplyAt;
      ghost var n := 0;
      ghost var ms := conn.channel;
      assert ms[..0] == [];
      while true
        invariant Valid() && n <= |ms| && conn.channel == ms[n..]
        invariant pushRequest ==> n == 0 && conn.arrived == old(conn.arrived)
        invariant n <= ReplyAt(ms)
        invariant cache.collection == DeliverAll(old(cache.collection), ms[..n])
        invariant State() == old(State()).(cache := cache.collection, channel := conn.channel)
        decreases |conn.channel|
      {
        ReplyFrom(ms, n);
        var m := conn.Receive();
        if m.None? {
          assert ms[..n] == ms;
          conn.Disconnect();
          return None, true;
        }
        assert m.value == ms[n];
        if m.value.Answered? {
          return Some(m.value.answer), false;
        }
        DeliverNext(old(cache.collection), ms, n);
        OnInvalidation(m.value);
        if pushRequest {
          assert ms[..1] == [ms[0]];
          return None, false;
        }
        n := n + 1;
      }
    }

    /** _process_pending_invalidations */
    method ProcessPendingInvalidations()
      requires Valid()
      modifies conn, cache
      ensures Valid()
      ensures State() == old(State()).(cache :=
                DeliverAll(old(cache.collection), old(conn.channel)[..old(conn.arrived)]),
                                       channel := old(conn.channel)[old(conn.arrived)..])
    {
      ghost var n := 0;
      ghost var ms := conn.channel;
      assert ms[..0] == [];
      while conn.CanRead()
        invariant Valid() && n + conn.arrived == old(conn.arrived) && conn.channel == ms[n..]
        invariant cache.collection == DeliverAll(old(cache.collection), ms[..n])
        invariant State() == old(State()).(cache := cache.collection, channel := conn.channel)
        decreases conn.arrived
      {
        DeliverNext(old(cache.collection), ms, n);
        var _, _ := ReadConnection(true);
        n := n + 1;
      }
    }

    /** send_command; `keys` is the keyword argument and may be missing. */
    method SendCommand(name: string, keys: Option<seq<string>>, updates: seq<Update>) returns (r: Accepted)
      requires Valid()
      modifies this, conn, cache
      ensures Valid()
      ensures r.MissingKeys? <==> Cachable(W(), name) && keys.None?
      ensures r.Accepted? ==>
                State() == Send(W(), old(State()), Command(name, if keys.Some? then keys.value else [], updates),
                    old(conn.arrived))
      ensures r.MissingKeys? ==>
                State() == old(State()).(cache := DeliverAll(old(cache.collection),
                    old(conn.channel)[..old(conn.arrived)]),
                                         channel := old(conn.channel)[old(conn.arrived)..])
    {
      ProcessPendingInvalidations();
      var cmd := Command(name, if keys.Some? then keys.value else [], updates);
      if !cache.IsCachable(CacheKey(name, [])) {
        currentCommandCacheKey := None;
        conn.SendCommand(cmd);
        phase := Waiting;
        return Accepted;
      }
      if keys.None? {
        return MissingKeys;
      }
      var key := CacheKey(name, keys.value);
      currentCommandCacheKey := Some(key);
      FetchedTwice(cache.collection, key);
      var _, found := cache.Get(key);
      if found {
        var _, _ := cache.Get(key);
        phase := Waiting;
        return Accepted;
      }
      var _ := cache.Set(Entry(key, DUMMY_CACHE_VALUE, InProgress));
      conn.SendCommand(cmd);
      phase := Waiting;
      r := Accepted;
    }

    /** read_response */
    method ReadResponse() returns (r: Outcome)
      requires Valid() && (currentCommandCacheKey.Some? ==> cache.IsCachable(currentCommandCacheKey.value))
      modifies this, conn, cache
      ensures Valid()
      ensures old(Hit(State())) ==>
                && State() == ReadHit(old(State()))
                && r == Returned(Data(Lookup(old(cache.collection), old(currentCommandCacheKey).value).value))
      ensures !old(Hit(State())) && ReplyAt(old(conn.channel)) < |old(conn.channel)| ==>
                && State() == ReadMiss(W(), old(State()))
                && var answer := old(conn.channel)[ReplyAt(old(conn.channel))].answer;
                   r == if answer.Fault? then ServerError else Returned(answer)
      ensures r.TimedOut? <==> !old(Hit(State())) && ReplyAt(old(conn.channel)) == |old(conn.channel)|
      // on a timeout the wrapped connection is gone, while the cache is kept
      ensures r.TimedOut? ==>
                State() == Drop(old(State())).(cache := DeliverAll(Looked(old(State())), old(conn.channel)))
    {
      ghost var cache0 := cache.collection;
      if currentCommandCacheKey.Some? {
        var key := currentCommandCacheKey.value;
        FetchedTwice(cache0, key);
        var entry, found := cache.Get(key);
        if found {
          entry, found := cache.Get(key);
          if entry.status != InProgress {
            entry, found := cache.Get(key);
            phase := Idle;
            return Returned(Data(entry.value));
          }
        }
      }
      ghost var looked := cache.collection;
      var answer, timedOut := ReadConnection(false);
      phase := Idle;
      if timedOut {
        return TimedOut;
      }
      if answer.value.Fault? {
        return ServerError;
      }
      r := Returned(answer.value);
      if currentCommandCacheKey.None? {
        return;
      }
      var key := currentCommandCacheKey.value;
      if answer.value.Null? {
        var _ := cache.DeleteByCacheKeys([key]);
        return;
      }
      KeepAfterGet(W(), cache.collection, key, answer.value.text);
      var entry, found := cache.Get(key);
      if found {
        var _ := cache.Set(entry.(status := Status.Valid, value := answer.value.text));
      }
    }

    method Disconnect()
      requires Valid()
      modifies this, conn, cache
      ensures Valid()
      ensures State() == Drop(old(State())).(cache := [])
    {
      var _ := cache.Flush();
      conn.Disconnect();
      phase := Idle;
    }
  }

  lemma ReplyFrom(ms: seq<Msg>, n: nat)
    requires n <= ReplyAt(ms)
    ensures n < |ms| ==> (ms[n].Answered? <==> ReplyAt(ms) == n)
  {
  }

  lemma {:induction false} DeliverNext(cache: Index, ms: seq<Msg>, n: nat)
    requires n < |ms|
    ensures DeliverAll(cache, ms[..n + 1]) == Deliver(DeliverAll(cache, ms[..n]), ms[n])
    decreases n
  {
    if n == 0 {
      assert ms[..1][1..] == [] && ms[..0] == [];
    } else {
      DeliverNext(Deliver(cache, ms[0]), ms[1..], n - 1);
      assert ms[..n + 1][1..] == ms[1..][..n];
      assert ms[..n][1..] == ms[1..][..n - 1];
    }
  }

  lemma FetchedTwice(cache: Index, key: CacheKey)
    requires Distinct(cache)
    ensures Fetched(Fetched(cache, key), key) == Fetched(cache, key)
    ensures Has(cache, key) ==> Has(Fetched(cache, key), key) && Lookup(Fetched(cache, key), key) == Lookup(cache, key)
  {
    FetchedFacts(cache, key);
    EntryKeys(cache);
    if Has(cache, key) {
      LookupIs(Fetched(cache, key), Lookup(cache, key));
      TouchedThenRemoved(cache, key);
    }
  }

  lemma KeepAfterGet(w: World, cache: Index, key: CacheKey, text: string)
    requires Distinct(cache)
    ensures Has(cache, key) ==>
              Put(Fetched(cache, key), Entry(key, text, Valid), w.maxSize)
                  == Put(cache, Entry(key, text, Valid), w.maxSize)
    ensures DeleteAll(cache, [key]) == Without(cache, key)
  {
    if Has(cache, key) {
      TouchedThenRemoved(cache, key);
    }
    assert [key][1..] == [];
    assert DeleteAll(Without(cache, key), []) == Without(cache, key);
  }
}
