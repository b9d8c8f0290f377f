/**
 Client-side caching over one tracked connection.  The server keeps a database, the set of
 keys tracked for the connection and a FIFO of outgoing messages in which replies and
 invalidations are interleaved.  The client keeps the LRU index and sends a command, then
 reads its reply.  Any other client may change the database at any time.
 */
module CacheCoherence {
  import opened Wrappers
  import opened LruCache

  datatype Answer = Null | Data(text: string) | Fault

  datatype Msg = Answered(answer: Answer) | Invalidated(redisKey: string) | Flushed

  type Db = map<string, string>

  /** A server-side change of one key. */
  datatype Update = Update(redisKey: string, text: Option<string>)

  datatype Command = Command(name: string, keys: seq<string>, updates: seq<Update>)

  datatype Phase = Idle | Waiting

  datatype Sys = Sys(
    db: Db, tracked: set<string>, inbox: Option<Command>, channel: seq<Msg>,
    cache: Index, current: Option<CacheKey>, phase: Phase)

  /** What is fixed: how read commands are answered, which may be cached, and how many. */
  datatype World = World(eval: (string, seq<Option<string>>) -> Answer, allowList: set<string>, maxSize: nat)

  /** The text that stands in for the value while a command is in flight. */
  const DUMMY_CACHE_VALUE := "foo"

  // ---------------------------------------------------------------------------
  // The server

  function Values(db: Db, keys: seq<string>): seq<Option<string>> {
    seq(|keys|, i requires 0 <= i < |keys| => if keys[i] in db then Some(db[keys[i]]) else None)
  }

  /** The reply the server would give now. */
  function Current(w: World, db: Db, key: CacheKey): Answer {
    w.eval(key.command, Values(db, key.redisKeys))
  }

  function Change(db: Db, u: Update): Db {
    if u.text.Some? then db[u.redisKey := u.text.value] else db - {u.redisKey}
  }

  /** One key changes: a tracked key is invalidated, once, and no longer tracked. */
  function ApplyUpdate(s: Sys, u: Update): Sys {
    var touched := u.redisKey in s.tracked;
    s.(db := Change(s.db, u),
       tracked := s.tracked - {u.redisKey},
       channel := s.channel + (if touched then [Invalidated(u.redisKey)] else []))
  }

  function ApplyUpdates(s: Sys, us: seq<Update>): Sys
    decreases |us|
  {
    if us == [] then s else ApplyUpdates(ApplyUpdate(s, us[0]), us[1..])
  }

  /** The server takes the command from its inbox; its own changes are announced before or after the reply. */
  function Serve(w: World, s: Sys, replyFirst: bool): Sys
    requires s.inbox.Some?
  {
    var cmd := s.inbox.value;
    var answer := w.eval(cmd.name, Values(s.db, cmd.keys));
    var idle := s.(inbox := None);
    if cmd.updates == [] then
      idle.(tracked := s.tracked + (set k | k in cmd.keys), channel := s.channel + [Answered(answer)])
    else if replyFirst then
      ApplyUpdates(idle.(channel := s.channel + [Answered(answer)]), cmd.updates)
    else
      var t := ApplyUpdates(idle, cmd.updates);
      t.(channel := t.channel + [Answered(answer)])
  }

  // ---------------------------------------------------------------------------
  // The client

  /** The invalidation callback. */
  function Deliver(cache: Index, m: Msg): Index {
    match m
    case Invalidated(k) => Invalidate(cache, k)
    case Flushed => []
    case Answered(_) => cache
  }

  function DeliverAll(cache: Index, ms: seq<Msg>): Index
    decreases |ms|
  {
    if ms == [] then cache else DeliverAll(Deliver(cache, ms[0]), ms[1..])
  }

  predicate Cachable(w: World, name: string) { name in w.allowList }

  /** send_command once the first `arrived` messages have been read. */
  function Send(w: World, s: Sys, cmd: Command, arrived: nat): Sys
    requires arrived <= |s.channel|
  {
    var cache := DeliverAll(s.cache, s.channel[..arrived]);
    var t := s.(cache := cache, channel := s.channel[arrived..], phase := Waiting);
    var key := CacheKey(cmd.name, cmd.keys);
    if !Cachable(w, cmd.name) then
      t.(current := None, inbox := Some(cmd))
    else if Has(cache, key) then
      t.(current := Some(key), cache := Fetched(cache, key))
    else
      t.(current := Some(key),
         cache := Put(cache, Entry(key, DUMMY_CACHE_VALUE, InProgress), w.maxSize),
         inbox := Some(cmd))
  }

  /** read_response will be served from the cache. */
  predicate Hit(s: Sys) {
    s.current.Some? && Has(s.cache, s.current.value) && Lookup(s.cache, s.current.value).status.Valid?
  }

  /** The position of the first reply in the channel, or its length. */
  function ReplyAt(ms: seq<Msg>): (i: nat)
    ensures i <= |ms|
    ensures i < |ms| ==> ms[i].Answered?
    ensures forall j | 0 <= j < i :: !ms[j].Answered?
  {
    if ms == [] || ms[0].Answered? then 0 else 1 + ReplyAt(ms[1..])
  }

  /** What read_response does to the cache once the reply has been read. */
  function Keep(w: World, cache: Index, current: Option<CacheKey>, answer: Answer): Index {
    if current.None? || answer.Fault? then cache
    else if answer.Null? then Without(cache, current.value)
    else if Has(cache, current.value) then Put(cache, Entry(current.value, answer.text, Valid), w.maxSize)
    else cache
  }

  /** read_response answered from the cache. */
  function ReadHit(s: Sys): Sys
    requires Hit(s)
  {
    s.(cache := Fetched(s.cache, s.current.value), phase := Idle)
  }

  /** The cache after read_response has looked for the current entry. */
  function Looked(s: Sys): Index {
    if s.current.Some? then Fetched(s.cache, s.current.value) else s.cache
  }

  /** read_response answered from the connection; pushes before the reply are delivered first. */
  function ReadMiss(w: World, s: Sys): Sys
    requires ReplyAt(s.channel) < |s.channel|
  {
    var i := ReplyAt(s.channel);
    var cache := DeliverAll(Looked(s), s.channel[..i]);
    s.(cache := Keep(w, cache, s.current, s.channel[i].answer), channel := s.channel[i + 1..], phase := Idle)
  }

  /** The connection is lost; the server forgets what it tracked. */
  function Drop(s: Sys): Sys {
    s.(tracked := {}, inbox := None, channel := [], phase := Idle)
  }

  // ---------------------------------------------------------------------------
  // Steps and runs

  datatype Step =
    | SendStep(cmd: Command, arrived: nat)
    | ServeStep(replyFirst: bool)
    | ReadStep
    | OthersWrite(u: Update)
    | OthersFlush
    | Untrack(redisKey: string)
    | Disconnect
    | LoseConnection

  predicate Enabled(w: World, s: Sys, step: Step) {
    match step
    case SendStep(cmd, arrived) =>
      && s.phase.Idle? && arrived <= |s.channel|
      && (Cachable(w, cmd.name) ==> cmd.updates == [])
    case ServeStep(_) => s.inbox.Some?
    case ReadStep => s.phase.Waiting? && (Hit(s) || ReplyAt(s.channel) < |s.channel|)
    case _ => true
  }

  function Next(w: World, s: Sys, step: Step): Sys
    requires Enabled(w, s, step)
  {
    match step
    case SendStep(cmd, arrived) => Send(w, s, cmd, arrived)
    case ServeStep(replyFirst) => Serve(w, s, replyFirst)
    case ReadStep => if Hit(s) then ReadHit(s) else ReadMiss(w, s)
    case OthersWrite(u) => ApplyUpdate(s, u)
    case OthersFlush => s.(db := map[], tracked := {}, channel := s.channel + [Flushed])
    // the tracking table is bounded: dropping a key invalidates it
    case Untrack(k) =>
      if k in s.tracked then s.(tracked := s.tracked - {k}, channel := s.channel + [Invalidated(k)]) else s
    // CacheProxyConnection.disconnect flushes the cache
    case Disconnect => Drop(s).(cache := [])
    // the wrapped connection closes itself while reading: the cache is not told
    case LoseConnection => Drop(s)
  }

  // ---------------------------------------------------------------------------
  // Coherence

  predicate Concerns(m: Msg, key: CacheKey) {
    m.Flushed? || (m.Invalidated? && Mentions(key, m.redisKey))
  }

  predicate Pending(ms: seq<Msg>, key: CacheKey) {
    exists m :: m in ms && Concerns(m, key)
  }

  predicate Tracked(s: Sys, key: CacheKey) {
    forall k | k in key.redisKeys :: k in s.tracked
  }

  /** The answer is what the server would say, and the server will tell when that changes. */
  predicate Fresh(w: World, s: Sys, key: CacheKey, answer: Answer) {
    Tracked(s, key) && Current(w, s.db, key) == answer
  }

  predicate EntryOk(w: World, s: Sys, e: Entry) {
    e.status.Valid? ==> Fresh(w, s, e.key, Data(e.value)) || Pending(s.channel, e.key)
  }

  predicate CacheOk(w: World, s: Sys) {
    forall e | e in s.cache :: EntryOk(w, s, e)
  }

  /** A reply on its way is fresh, or an invalidation follows it. */
  predicate AnswerOk(w: World, s: Sys) {
    var i := ReplyAt(s.channel);
    i < |s.channel| && s.current.Some? ==>
      Fresh(w, s, s.current.value, s.channel[i].answer) || Pending(s.channel[i + 1..], s.current.value)
  }

  predicate NoReply(ms: seq<Msg>) {
    forall m | m in ms :: !m.Answered?
  }

  predicate Outstanding(s: Sys) { s.inbox.Some? || ReplyAt(s.channel) < |s.channel| }

  /** At most one command is under way, and it is the current one. */
  predicate OneAtATime(w: World, s: Sys) {
    && (Outstanding(s) ==> s.phase.Waiting?)
    && (s.inbox.Some? ==> NoReply(s.channel))
    && (ReplyAt(s.channel) < |s.channel| ==> NoReply(s.channel[ReplyAt(s.channel) + 1..]))
    && (s.inbox.Some? && s.current.Some? ==>
          && s.inbox.value.updates == []
          && s.current.value == CacheKey(s.inbox.value.name, s.inbox.value.keys))
    && (Outstanding(s) ==> !Hit(s))
  }

  predicate Coherent(w: World, s: Sys) {
    && Distinct(s.cache) && |s.cache| <= w.maxSize
    && CacheOk(w, s) && AnswerOk(w, s) && OneAtATime(w, s)
  }

  function Start(db: Db): Sys {
    Sys(db, {}, None, [], [], None, Idle)
  }

  // ---------------------------------------------------------------------------
  // Lists of messages

  lemma PendingSplit(a: seq<Msg>, b: seq<Msg>, key: CacheKey)
    ensures Pending(a + b, key) <==> Pending(a, key) || Pending(b, key)
  {
    if Pending(a + b, key) {
      var m :| m in a + b && Concerns(m, key);
      assert m in a || m in b;
    }
    forall m | (m in a || m in b) && Concerns(m, key) ensures Pending(a + b, key) {
      assert m in a + b;
    }
  }

  lemma {:induction false} NoReplyMeans(ms: seq<Msg>)
    ensures NoReply(ms) <==> ReplyAt(ms) == |ms|
  {
    if ReplyAt(ms) < |ms| {
      assert ms[ReplyAt(ms)] in ms;
    }
  }

  lemma {:induction false} ReplyAtAppend(a: seq<Msg>, b: seq<Msg>)
    ensures ReplyAt(a + b) == if ReplyAt(a) < |a| then ReplyAt(a) else |a| + ReplyAt(b)
  {
    if a == [] {
      assert a + b == b;
    } else if !a[0].Answered? {
      ReplyAtAppend(a[1..], b);
      assert (a + b)[1..] == a[1..] + b;
    }
  }

  /** Delivering messages removes exactly the entries they concern. */
  lemma DeliverFacts(cache: Index, m: Msg)
    requires Distinct(cache)
    ensures Distinct(Deliver(cache, m)) && |Deliver(cache, m)| <= |cache|
    ensures forall e :: e in Deliver(cache, m) <==> e in cache && !Concerns(m, e.key)
  {
    if m.Invalidated? {
      var keep := set k | k in Keys(cache) && !Mentions(k, m.redisKey);
      RestrictFacts(cache, keep);
      EntryKeys(cache);
    }
  }

  lemma {:induction false} DeliverAllFacts(cache: Index, ms: seq<Msg>)
    requires Distinct(cache)
    ensures Distinct(DeliverAll(cache, ms)) && |DeliverAll(cache, ms)| <= |cache|
    ensures forall e :: e in DeliverAll(cache, ms) <==> e in cache && !Pending(ms, e.key)
    decreases |ms|
  {
    hide Distinct, Keys, Deliver;
    if ms != [] {
      DeliverFacts(cache, ms[0]);
      DeliverAllFacts(Deliver(cache, ms[0]), ms[1..]);
      forall e: Entry ensures Pending(ms, e.key) <==> Concerns(ms[0], e.key) || Pending(ms[1..], e.key) {
        assert ms == [ms[0]] + ms[1..];
        PendingSplit([ms[0]], ms[1..], e.key);
        assert Pending([ms[0]], e.key) <==> Concerns(ms[0], e.key) by {
          assert ms[0] in [ms[0]];
        }
      }
    }
  }

  lemma FetchedFacts(cache: Index, key: CacheKey)
    requires Distinct(cache)
    ensures Distinct(Fetched(cache, key)) && |Fetched(cache, key)| == |cache|
    ensures forall e :: e in Fetched(cache, key) <==> e in cache
  {
    if Has(cache, key) {
      var found := Lookup(cache, key);
      WithoutFacts(cache, key);
      AppendFacts(Without(cache, key), found);
      forall e: Entry | e in cache && e.key == key ensures e == found {
        LookupIs(cache, e);
      }
    }
  }

  lemma PutFacts(cache: Index, e: Entry, max: nat)
    requires Distinct(cache) && |cache| <= max
    ensures Distinct(Put(cache, e, max)) && |Put(cache, e, max)| <= max
    ensures forall f | f in Put(cache, e, max) :: f == e || (f in cache && f.key != e.key)
    ensures Has(cache, e.key) ==> e in Put(cache, e, max)
  {
    WithoutFacts(cache, e.key);
    var t := Without(cache, e.key) + [e];
    AppendFacts(Without(cache, e.key), e);
    if |t| > max {
      DropFirst(t);
      assert t == [t[0]] + t[1..];
    }
  }

  // ---------------------------------------------------------------------------
  // Changes at the server

  /** An answer that is fresh or to be invalidated stays so when a key changes. */
  lemma UpdateKeepsFresh(w: World, s: Sys, u: Update, key: CacheKey, answer: Answer, since: seq<Msg>)
    requires Fresh(w, s, key, answer) || Pending(since, key)
    ensures var t := ApplyUpdate(s, u);
            Fresh(w, t, key, answer) || Pending(since + t.channel[|s.channel|..], key)
  {
    var t := ApplyUpdate(s, u);
    var added := t.channel[|s.channel|..];
    PendingSplit(since, added, key);
    if Fresh(w, s, key, answer) {
      if u.redisKey in key.redisKeys {
        assert added == [Invalidated(u.redisKey)];
        assert Invalidated(u.redisKey) in added && Concerns(Invalidated(u.redisKey), key);
      } else {
        assert Values(t.db, key.redisKeys) == Values(s.db, key.redisKeys);
      }
    }
  }

  lemma UpdateKeepsCoherent(w: World, s: Sys, u: Update)
    requires Coherent(w, s)
    ensures Coherent(w, ApplyUpdate(s, u))
  {
    var t := ApplyUpdate(s, u);
    var added := t.channel[|s.channel|..];
    assert t.channel == s.channel + added;
    NewsKeepOrder(s.channel, added);
    forall e | e in t.cache ensures EntryOk(w, t, e) {
      assert EntryOk(w, s, e);
      if e.status.Valid? {
        UpdateKeepsFresh(w, s, u, e.key, Data(e.value), s.channel);
      }
    }
    var i := ReplyAt(s.channel);
    if i < |s.channel| && s.current.Some? {
      UpdateKeepsFresh(w, s, u, s.current.value, s.channel[i].answer, s.channel[i + 1..]);
    }
  }

  /** Appending news that are not replies. */
  lemma NewsKeepOrder(channel: seq<Msg>, added: seq<Msg>)
    requires NoReply(added)
    ensures ReplyAt(channel) < |channel| ==>
              && ReplyAt(channel + added) == ReplyAt(channel)
              && (channel + added)[ReplyAt(channel) + 1..] == channel[ReplyAt(channel) + 1..] + added
              && (NoReply(channel[ReplyAt(channel) + 1..]) ==> NoReply((channel + added)[ReplyAt(channel) + 1..]))
    ensures ReplyAt(channel) == |channel| ==> ReplyAt(channel + added) == |channel + added|
    ensures NoReply(channel) ==> NoReply(channel + added)
  {
    hide ReplyAt, NoReply;
    ReplyAtAppend(channel, added);
    NoReplyMeans(added);
    NoReplyConcat(channel, added);
    if ReplyAt(channel) < |channel| {
      NoReplyConcat(channel[ReplyAt(channel) + 1..], added);
      TailOfBoth(channel, added, ReplyAt(channel) + 1);
    }
  }

  lemma TailOfBoth(a: seq<Msg>, b: seq<Msg>, k: nat)
    requires k <= |a|
    ensures (a + b)[k..] == a[k..] + b
  {
  }

  lemma NoReplyConcat(a: seq<Msg>, b: seq<Msg>)
    ensures NoReply(a) && NoReply(b) ==> NoReply(a + b)
  {
  }

  lemma {:induction false} UpdatesKeepCoherent(w: World, s: Sys, us: seq<Update>)
    requires Coherent(w, s)
    ensures Coherent(w, ApplyUpdates(s, us))
    ensures ApplyUpdates(s, us).(db := s.db, tracked := s.tracked, channel := s.channel) == s
    ensures NoReply(s.channel) ==> NoReply(ApplyUpdates(s, us).channel)
    decreases |us|
  {
    if us != [] {
      UpdateKeepsCoherent(w, s, us[0]);
      UpdatesKeepCoherent(w, ApplyUpdate(s, us[0]), us[1..]);
    }
  }

  /** Appending the reply to the one command under way. */
  lemma ReplyKeepsCoherent(w: World, s: Sys, answer: Answer)
    requires Coherent(w, s) && NoReply(s.channel) && s.phase.Waiting? && s.inbox.None? && !Hit(s)
    requires s.current.Some? ==> Fresh(w, s, s.current.value, answer)
    ensures Coherent(w, s.(channel := s.channel + [Answered(answer)]))
  {
    var t := s.(channel := s.channel + [Answered(answer)]);
    NoReplyMeans(s.channel);
    ReplyAtAppend(s.channel, [Answered(answer)]);
    forall e | e in t.cache ensures EntryOk(w, t, e) {
      assert EntryOk(w, s, e);
      PendingSplit(s.channel, [Answered(answer)], e.key);
    }
    assert t.channel[|s.channel| + 1..] == [];
  }

  /** Tracking more keys. */
  lemma TrackingKeepsCoherent(w: World, s: Sys, keys: set<string>)
    requires Coherent(w, s)
    ensures Coherent(w, s.(tracked := s.tracked + keys))
  {
    var t := s.(tracked := s.tracked + keys);
    forall e | e in t.cache ensures EntryOk(w, t, e) {
      assert EntryOk(w, s, e);
    }
  }

  lemma TakenKeepsCoherent(w: World, s: Sys)
    requires Coherent(w, s) && s.inbox.Some?
    ensures Coherent(w, s.(inbox := None))
  {
    var t := s.(inbox := None);
    forall e | e in t.cache ensures EntryOk(w, t, e) {
      assert EntryOk(w, s, e);
    }
  }

  lemma ServeKeepsCoherent(w: World, s: Sys, replyFirst: bool)
    requires Coherent(w, s) && s.inbox.Some?
    ensures Coherent(w, Serve(w, s, replyFirst))
  {
    var cmd := s.inbox.value;
    var answer := w.eval(cmd.name, Values(s.db, cmd.keys));
    var idle := s.(inbox := None);
    TakenKeepsCoherent(w, s);
    if cmd.updates == [] {
      TrackingKeepsCoherent(w, idle, set k | k in cmd.keys);
      ReplyKeepsCoherent(w, idle.(tracked := s.tracked + (set k | k in cmd.keys)), answer);
    } else if replyFirst {
      ReplyKeepsCoherent(w, idle, answer);
      UpdatesKeepCoherent(w, idle.(channel := s.channel + [Answered(answer)]), cmd.updates);
    } else {
      UpdatesKeepCoherent(w, idle, cmd.updates);
      ReplyKeepsCoherent(w, ApplyUpdates(idle, cmd.updates), answer);
    }
  }

  lemma FlushKeepsCoherent(w: World, s: Sys)
    requires Coherent(w, s)
    ensures Coherent(w, Next(w, s, OthersFlush))
  {
    var t := Next(w, s, OthersFlush);
    NewsKeepOrder(s.channel, [Flushed]);
    assert Flushed in t.channel;
    forall e | e in t.cache ensures EntryOk(w, t, e) {
      assert Concerns(Flushed, e.key);
    }
    var i := ReplyAt(s.channel);
    if i < |s.channel| && s.current.Some? {
      assert Flushed in t.channel[i + 1..] && Concerns(Flushed, s.current.value);
    }
  }

  lemma UntrackKeepsEntry(w: World, s: Sys, k: string, e: Entry)
    requires k in s.tracked && EntryOk(w, s, e)
    ensures EntryOk(w, Next(w, s, Untrack(k)), e)
  {
    var news := Invalidated(k);
    PendingSplit(s.channel, [news], e.key);
    if k in e.key.redisKeys {
      assert news in s.channel + [news] && Concerns(news, e.key);
    }
  }

  lemma UntrackKeepsCoherent(w: World, s: Sys, k: string)
    requires Coherent(w, s) && k in s.tracked
    ensures Coherent(w, Next(w, s, Untrack(k)))
  {
    var t := Next(w, s, Untrack(k));
    var news := Invalidated(k);
    NewsKeepOrder(s.channel, [news]);
    forall e | e in t.cache ensures EntryOk(w, t, e) {
      UntrackKeepsEntry(w, s, k, e);
    }
    UntrackKeepsAnswer(w, s, k);
    hide EntryOk, AnswerOk;
    assert OneAtATime(w, t);
  }

  lemma UntrackKeepsAnswer(w: World, s: Sys, k: string)
    requires k in s.tracked && AnswerOk(w, s)
    ensures AnswerOk(w, Next(w, s, Untrack(k)))
  {
    var t := Next(w, s, Untrack(k));
    var news := Invalidated(k);
    NewsKeepOrder(s.channel, [news]);
    hide NoReply, ReplyAt;
    var i := ReplyAt(s.channel);
    if i < |s.channel| && s.current.Some? {
      assert t.channel == s.channel + [news] && t.channel[i] == s.channel[i];
      PendingSplit(s.channel[i + 1..], [news], s.current.value);
      if k in s.current.value.redisKeys {
        assert news in [news] && Concerns(news, s.current.value);
      }
      hide Pending;
    }
  }

  // ---------------------------------------------------------------------------
  // Steps of the client

  /** Reading the first messages of the channel, none of them a reply. */
  lemma ReadingNews(w: World, s: Sys, n: nat)
    requires Coherent(w, s) && n <= |s.channel|
    ensures var t := s.(cache := DeliverAll(s.cache, s.channel[..n]), channel := s.channel[n..]);
            Distinct(t.cache) && |t.cache| <= w.maxSize && CacheOk(w, t)
  {
    var t := s.(cache := DeliverAll(s.cache, s.channel[..n]), channel := s.channel[n..]);
    DeliverAllFacts(s.cache, s.channel[..n]);
    assert s.channel == s.channel[..n] + s.channel[n..];
    forall e | e in t.cache ensures EntryOk(w, t, e) {
      assert EntryOk(w, s, e);
      PendingSplit(s.channel[..n], s.channel[n..], e.key);
    }
  }

  lemma SendKeepsCoherent(w: World, s: Sys, cmd: Command, arrived: nat)
    requires Coherent(w, s) && Enabled(w, s, SendStep(cmd, arrived))
    ensures Coherent(w, Send(w, s, cmd, arrived))
  {
    hide Distinct, Keys;
    ReadingNews(w, s, arrived);
    var cache := DeliverAll(s.cache, s.channel[..arrived]);
    var mid := s.(cache := cache, channel := s.channel[arrived..]);
    var t := Send(w, s, cmd, arrived);
    NoReplyMeans(s.channel);
    NoReplyMeans(mid.channel);
    var key := CacheKey(cmd.name, cmd.keys);
    FetchedFacts(cache, key);
    PutFacts(cache, Entry(key, DUMMY_CACHE_VALUE, InProgress), w.maxSize);
    forall e | e in t.cache ensures EntryOk(w, t, e) {
      if e in cache { assert EntryOk(w, mid, e); }
    }
    EntryKeys(cache);
  }

  lemma ReadHitKeepsCoherent(w: World, s: Sys)
    requires Coherent(w, s) && s.phase.Waiting? && Hit(s)
    ensures Coherent(w, ReadHit(s))
  {
    FetchedFacts(s.cache, s.current.value);
    NoReplyMeans(s.channel);
    var t := ReadHit(s);
    forall e | e in t.cache ensures EntryOk(w, t, e) {
      assert EntryOk(w, s, e);
    }
  }

  /** The pushes in front of the reply have been delivered and the reply taken off. */
  lemma ReplyReached(w: World, s: Sys, i: nat)
    requires Coherent(w, s) && i == ReplyAt(s.channel) < |s.channel|
    ensures var t := s.(cache := DeliverAll(s.cache, s.channel[..i]), channel := s.channel[i + 1..]);
            && Distinct(t.cache) && |t.cache| <= w.maxSize && CacheOk(w, t)
            && NoReply(t.channel)
  {
    hide Distinct, Keys;
    ReadingNews(w, s, i);
    var mid := s.(cache := DeliverAll(s.cache, s.channel[..i]), channel := s.channel[i..]);
    var t := mid.(channel := s.channel[i + 1..]);
    assert mid.channel == [s.channel[i]] + t.channel;
    forall e | e in t.cache ensures EntryOk(w, t, e) {
      assert EntryOk(w, mid, e);
      PendingSplit([s.channel[i]], t.channel, e.key);
    }
  }

  lemma ReadMissKeepsCoherent(w: World, s: Sys)
    requires Coherent(w, s) && s.phase.Waiting? && ReplyAt(s.channel) < |s.channel|
    ensures Coherent(w, ReadMiss(w, s))
  {
    hide Distinct, Keys;
    var i, answer := ReplyAt(s.channel), s.channel[ReplyAt(s.channel)].answer;
    var looked := s;
    if s.current.Some? {
      looked := s.(cache := Fetched(s.cache, s.current.value));
      FetchKeepsCoherent(w, s, s.current.value);
    }
    ReplyReached(w, looked, i);
    var mid := looked.(cache := DeliverAll(looked.cache, s.channel[..i]), channel := s.channel[i + 1..]);
    var t := ReadMiss(w, s);
    NoReplyMeans(t.channel);
    KeepFacts(w, mid.cache, s.current, answer);
    hide Keep;
    forall e | e in t.cache ensures EntryOk(w, t, e) {
      if e in mid.cache { assert EntryOk(w, mid, e); }
    }
  }

  lemma KeepFacts(w: World, cache: Index, current: Option<CacheKey>, answer: Answer)
    requires Distinct(cache) && |cache| <= w.maxSize
    ensures var t := Keep(w, cache, current, answer);
            && Distinct(t) && |t| <= w.maxSize
            && forall e | e in t :: e in cache || (current.Some? && answer.Data?
                && e == Entry(current.value, answer.text, Valid))
  {
    if current.Some? {
      WithoutFacts(cache, current.value);
      if answer.Data? { PutFacts(cache, Entry(current.value, answer.text, Valid), w.maxSize); }
    }
  }

  lemma FetchKeepsCoherent(w: World, s: Sys, key: CacheKey)
    requires Coherent(w, s)
    ensures Coherent(w, s.(cache := Fetched(s.cache, key)))
  {
    var t := s.(cache := Fetched(s.cache, key));
    FetchedFacts(s.cache, key);
    forall e | e in t.cache ensures EntryOk(w, t, e) {
      assert EntryOk(w, s, e);
    }
    if Hit(t) {
      var k := s.current.value;
      EntryKeys(t.cache);
      EntryKeys(s.cache);
      LookupIs(s.cache, Lookup(t.cache, k));
    }
  }

  // ---------------------------------------------------------------------------
  // Whole runs

  lemma DisconnectIsCoherent(w: World, s: Sys)
    ensures Coherent(w, Next(w, s, Disconnect))
  {
  }

  /** Every step but the loss of the wrapped connection keeps the cache coherent. */
  lemma StepKeepsCoherent(w: World, s: Sys, step: Step)
    requires Coherent(w, s) && Enabled(w, s, step)
    requires step.LoseConnection? ==> forall e | e in s.cache :: !e.status.Valid?
    ensures Coherent(w, Next(w, s, step))
  {
    match step
    case SendStep(cmd, arrived) => SendKeepsCoherent(w, s, cmd, arrived);
    case ServeStep(replyFirst) => ServeKeepsCoherent(w, s, replyFirst);
    case ReadStep => if Hit(s) { ReadHitKeepsCoherent(w, s); } else { ReadMissKeepsCoherent(w, s); }
    case OthersWrite(u) => UpdateKeepsCoherent(w, s, u);
    case OthersFlush => FlushKeepsCoherent(w, s);
    case Untrack(k) => if k in s.tracked { UntrackKeepsCoherent(w, s, k); }
    case Disconnect => DisconnectIsCoherent(w, s);
    case LoseConnection =>
  }

  /**
   A run: each step is possible where it is taken, and the wrapped connection is lost only over a cache
   without finished entries.
   */
  predicate Run(w: World, s: Sys, steps: seq<Step>)
    decreases |steps|
  {
    steps == []
    || (&& Enabled(w, s, steps[0])
        && (steps[0].LoseConnection? ==> forall e | e in s.cache :: !e.status.Valid?)
        && Run(w, Next(w, s, steps[0]), steps[1..]))
  }

  function After(w: World, s: Sys, steps: seq<Step>): Sys
    requires Run(w, s, steps)
    decreases |steps|
  {
    if steps == [] then s else After(w, Next(w, s, steps[0]), steps[1..])
  }

  lemma {:induction false} RunKeepsCoherent(w: World, s: Sys, steps: seq<Step>)
    requires Coherent(w, s) && Run(w, s, steps)
    ensures Coherent(w, After(w, s, steps))
    decreases |steps|
  {
    if steps != [] {
      StepKeepsCoherent(w, s, steps[0]);
      RunKeepsCoherent(w, Next(w, s, steps[0]), steps[1..]);
    }
  }

  /** Over every run, a finished entry is what the server would answer now, or its invalidation is on the way. */
  lemma CacheIsCoherent(w: World, db: Db, steps: seq<Step>, e: Entry)
    requires Run(w, Start(db), steps)
    requires var s := After(w, Start(db), steps); e in s.cache && e.status.Valid?
    ensures var s := After(w, Start(db), steps);
            || Current(w, s.db, e.key) == Data(e.value)
            || exists m :: m in s.channel && Concerns(m, e.key)
  {
    RunKeepsCoherent(w, Start(db), steps);
    assert EntryOk(w, After(w, Start(db), steps), e);
  }

  /** Over every run, a hit taken when the channel has been drained returns what the server would answer now. */
  lemma DrainedHitIsCurrent(w: World, db: Db, steps: seq<Step>, cmd: Command)
    requires Run(w, Start(db), steps)
    requires var s := After(w, Start(db), steps); Enabled(w, s, SendStep(cmd, |s.channel|))
    ensures var s := After(w, Start(db), steps);
            var t := Send(w, s, cmd, |s.channel|);
            Hit(t) ==> Data(Lookup(t.cache, t.current.value).value) == w.eval(cmd.name, Values(t.db, cmd.keys))
  {
    var s := After(w, Start(db), steps);
    RunKeepsCoherent(w, Start(db), steps);
    SendKeepsCoherent(w, s, cmd, |s.channel|);
    var t := Send(w, s, cmd, |s.channel|);
    if Hit(t) {
      assert t.channel == [];
      assert EntryOk(w, t, Lookup(t.cache, t.current.value));
    }
  }

  /**
   When the wrapped connection closes without the proxy being told, the cache of a
   coherent client stays coherent exactly if it holds no finished entry.
   */
  lemma LostConnectionIsCoherentIff(w: World, s: Sys)
    requires Coherent(w, s) && forall e | e in s.cache :: e.key.redisKeys != []
    ensures Coherent(w, Drop(s)) <==> forall e | e in s.cache :: !e.status.Valid?
  {
    var t := Drop(s);
    forall e | e in s.cache && e.status.Valid? ensures !EntryOk(w, t, e) {
      assert e.key.redisKeys[0] in e.key.redisKeys;
    }
  }

  // ---------------------------------------------------------------------------
  // Commands that are never sent

  /** Every entry in progress belongs to the command that is under way. */
  predicate Settled(s: Sys) {
    forall e | e in s.cache && e.status.InProgress? :: Outstanding(s) && s.current == Some(e.key)
  }

  /** After a send the reply can be read, now or later, unless an entry was found in progress. */
  lemma SentOrCached(w: World, s: Sys, cmd: Command, arrived: nat)
    requires Coherent(w, s) && Enabled(w, s, SendStep(cmd, arrived))
    ensures var t := Send(w, s, cmd, arrived);
            var cache := DeliverAll(s.cache, s.channel[..arrived]);
            var key := CacheKey(cmd.name, cmd.keys);
            (Hit(t) || t.inbox == Some(cmd))
            <==> !(Cachable(w, cmd.name) && Has(cache, key) && Lookup(cache, key).status.InProgress?)
  {
    DeliverAllFacts(s.cache, s.channel[..arrived]);
    var cache := DeliverAll(s.cache, s.channel[..arrived]);
    var key := CacheKey(cmd.name, cmd.keys);
    FetchedFacts(cache, key);
    EntryKeys(cache);
    if Has(cache, key) {
      LookupIs(Fetched(cache, key), Lookup(cache, key));
    }
  }

  /** From a settled client every command is sent or answered from the cache. */
  lemma SettledNeverStalls(w: World, s: Sys, cmd: Command, arrived: nat)
    requires Coherent(w, s) && Settled(s) && Enabled(w, s, SendStep(cmd, arrived))
    ensures var t := Send(w, s, cmd, arrived); Hit(t) || t.inbox == Some(cmd)
    ensures Settled(Send(w, s, cmd, arrived))
  {
    SentOrCached(w, s, cmd, arrived);
    DeliverAllFacts(s.cache, s.channel[..arrived]);
    var cache := DeliverAll(s.cache, s.channel[..arrived]);
    var key := CacheKey(cmd.name, cmd.keys);
    FetchedFacts(cache, key);
    PutFacts(cache, Entry(key, DUMMY_CACHE_VALUE, InProgress), w.maxSize);
    if Has(cache, key) { assert Lookup(cache, key) in s.cache; }
    NoReplyMeans(s.channel);
  }

  /** Reading the reply leaves the client settled exactly if it is not an error for an entry that is still there. */
  lemma ReadSettles(w: World, s: Sys)
    requires Coherent(w, s) && Settled(s) && s.phase.Waiting? && ReplyAt(s.channel) < |s.channel|
    ensures var i := ReplyAt(s.channel);
            Settled(ReadMiss(w, s))
            <==> !(s.channel[i].answer.Fault? && s.current.Some? && Has(s.cache, s.current.value)
                   && !Pending(s.channel[..i], s.current.value))
  {
    hide Distinct, Keys;
    var i, answer := ReplyAt(s.channel), s.channel[ReplyAt(s.channel)].answer;
    var looked := if s.current.Some? then Fetched(s.cache, s.current.value) else s.cache;
    if s.current.Some? { FetchedFacts(s.cache, s.current.value); }
    DeliverAllFacts(looked, s.channel[..i]);
    var cache := DeliverAll(looked, s.channel[..i]);
    var t := ReadMiss(w, s);
    NoReplyMeans(t.channel);
    KeepFacts(w, cache, s.current, answer);
    EntryKeys(s.cache);
    EntryKeys(cache);
    if s.current.Some? {
      WithoutFacts(cache, s.current.value);
      if answer.Data? { PutFacts(cache, Entry(s.current.value, answer.text, Valid), w.maxSize); }
    }
  }

  // ---------------------------------------------------------------------------
  // What is cached, entry by entry

  /**
   Sending a command: it goes out unless an entry for it is held that no arrived message concerns, and
   then, if it may be cached, a placeholder is held for it. Arrived messages remove the entries they
   concern; nothing else goes while there is room.
   */
  lemma SendMeans(w: World, s: Sys, cmd: Command, arrived: nat, e: Entry)
    requires Coherent(w, s) && Enabled(w, s, SendStep(cmd, arrived))
    ensures var t, key := Send(w, s, cmd, arrived), CacheKey(cmd.name, cmd.keys);
            var read := s.channel[..arrived];
            var held := Cachable(w, cmd.name) && Has(s.cache, key) && !Pending(read, key);
            && t.inbox == (if held then s.inbox else Some(cmd)) && t.channel == s.channel[arrived..]
            && t.current == (if Cachable(w, cmd.name) then Some(key) else None)
            && if held || !Cachable(w, cmd.name) then e in t.cache <==> e in s.cache && !Pending(read, e.key)
               else if e.key == key then
                 e in t.cache <==> w.maxSize > 0 && e == Entry(key, DUMMY_CACHE_VALUE, InProgress)
               else
                 && (e in t.cache ==> e in s.cache && !Pending(read, e.key))
                 && (|s.cache| < w.maxSize && e in s.cache && !Pending(read, e.key) ==> e in t.cache)
  {
    hide Pending, Current, Distinct, Keys, Put;
    var key := CacheKey(cmd.name, cmd.keys);
    var cache := DeliverAll(s.cache, s.channel[..arrived]);
    DeliverAllFacts(s.cache, s.channel[..arrived]);
    EntryKeys(s.cache);
    EntryKeys(cache);
    FetchedFacts(cache, key);
    var dummy := Entry(key, DUMMY_CACHE_VALUE, InProgress);
    PutMeans(cache, dummy, w.maxSize);
    PutFacts(cache, dummy, w.maxSize);
  }

  /**
   Reading a reply from the connection: messages ahead of it remove the entries they concern; a value is
   kept if an entry for its command has survived them, null removes that entry, an error leaves it.
   */
  lemma ReadMissMeans(w: World, s: Sys, e: Entry)
    requires Coherent(w, s) && ReplyAt(s.channel) < |s.channel|
    ensures var i := ReplyAt(s.channel);
            var t, answer := ReadMiss(w, s), s.channel[i].answer;
            && t.channel == s.channel[i + 1..] && t.phase.Idle?
            && if s.current != Some(e.key) || answer.Fault? then
                 e in t.cache <==> e in s.cache && !Pending(s.channel[..i], e.key)
               else
                 e in t.cache <==>
                   && answer.Data? && e == Entry(e.key, answer.text, Valid)
                   && Has(s.cache, e.key) && !Pending(s.channel[..i], e.key)
  {
    hide Pending, Distinct, Keys, Put;
    var i, answer := ReplyAt(s.channel), s.channel[ReplyAt(s.channel)].answer;
    if s.current.Some? { FetchedFacts(s.cache, s.current.value); }
    DeliverAllFacts(Looked(s), s.channel[..i]);
    var cache := DeliverAll(Looked(s), s.channel[..i]);
    EntryKeys(s.cache);
    EntryKeys(cache);
    if s.current.Some? {
      WithoutFacts(cache, s.current.value);
      if answer.Data? {
        var entry := Entry(s.current.value, answer.text, Valid);
        PutMeans(cache, entry, w.maxSize);
        PutFacts(cache, entry, w.maxSize);
      }
    }
  }

  // ---------------------------------------------------------------------------
  // Two runs that go wrong

  /** GET k is answered by the value of k; anything that has no value is an error when `strict`. */
  function ValueOrFault(fault: bool): (string, seq<Option<string>>) -> Answer {
    (name: string, values: seq<Option<string>>) =>
      if fault then Fault else if |values| == 1 && values[0].Some? then Data(values[0].value) else Null
  }

  function GetWorld(fault: bool): World { World(ValueOrFault(fault), {"GET"}, 1) }

  const GET_K := Command("GET", ["k"], [])
  const KEY_K := CacheKey("GET", ["k"])

  /** GET k has been sent, served and read once. */
  function ReadOnce(fault: bool): Sys {
    var cached := if fault then Entry(KEY_K, DUMMY_CACHE_VALUE, InProgress) else Entry(KEY_K, "old", Valid);
    Sys(map["k" := "old"], {"k"}, None, [], [cached], Some(KEY_K), Idle)
  }

  lemma ReadOnceIsReached(fault: bool)
    ensures var w := GetWorld(fault);
            var s0 := Start(map["k" := "old"]);
            var s1 := Send(w, s0, GET_K, 0);
            && Enabled(w, s0, SendStep(GET_K, 0)) && s1.inbox.Some?
            && var s2 := Serve(w, s1, true);
               && Enabled(w, s2, ReadStep) && Next(w, s2, ReadStep) == ReadOnce(fault)
  {
    var w := GetWorld(fault);
    var s0 := Start(map["k" := "old"]);
    var dummy := Entry(KEY_K, DUMMY_CACHE_VALUE, InProgress);
    assert DeliverAll([], []) == [];
    assert Without([], KEY_K) == [];
    assert [] + [dummy] == [dummy];
    var s1 := Send(w, s0, GET_K, 0);
    assert s1 == Sys(s0.db, {}, Some(GET_K), [], [dummy], Some(KEY_K), Waiting);
    var s2 := Serve(w, s1, true);
    assert Values(s0.db, ["k"]) == [Some("old")];
    assert (set k | k in ["k"]) == {"k"};
    var answer := if fault then Fault else Data("old");
    assert s2 == Sys(s0.db, {"k"}, None, [Answered(answer)], [dummy], Some(KEY_K), Waiting);
    assert Keys([dummy]) == {KEY_K};
    assert Keys([dummy]) - {KEY_K} == {};
    assert Without([dummy], KEY_K) == [] by { RestrictNone([dummy], {}); }
    assert Fetched([dummy], KEY_K) == [dummy];
    assert s2.channel[..0] == [] && s2.channel[1..] == [];
  }

  /** A connection closed behind the proxy's back, then a write elsewhere: the next GET is a stale hit. */
  lemma StaleHitAfterLostConnection()
    ensures var w := GetWorld(false);
            var s := ApplyUpdate(Drop(ReadOnce(false)), Update("k", Some("new")));
            var t := Send(w, s, GET_K, |s.channel|);
            && Hit(t) && Lookup(t.cache, t.current.value).value == "old"
            && w.eval("GET", Values(t.db, ["k"])) == Data("new")
  {
    var s := ApplyUpdate(Drop(ReadOnce(false)), Update("k", Some("new")));
    var e := Entry(KEY_K, "old", Valid);
    assert s.channel == [] && s.cache == [e];
    assert Keys([e]) == {KEY_K} && Keys([e]) - {KEY_K} == {};
    assert Without([e], KEY_K) == [] by { RestrictNone([e], {}); }
    assert Fetched([e], KEY_K) == [e];
    assert Values(s.db, ["k"]) == [Some("new")];
  }

  /** An error reply to GET k: the next GET k is not sent and there is nothing to read. */
  lemma ErrorReplyStrandsTheCommand()
    ensures var w := GetWorld(true);
            var s := ReadOnce(true);
            Enabled(w, s, SendStep(GET_K, 0)) && !Enabled(w, Send(w, s, GET_K, 0), ReadStep)
    ensures Send(GetWorld(true), ReadOnce(true), GET_K, 0).inbox.None?
  {
    var e := Entry(KEY_K, DUMMY_CACHE_VALUE, InProgress);
    assert Keys([e]) == {KEY_K} && Keys([e]) - {KEY_K} == {};
    assert Without([e], KEY_K) == [] by { RestrictNone([e], {}); }
    assert Fetched([e], KEY_K) == [e];
    assert ReadOnce(true).channel[..0] == [];
  }
}
