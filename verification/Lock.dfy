/**
 The distributed lock: one server key, and clients that set, delete and retime it with the
 token that they chose. Times are milliseconds of the server's clock.
 */
module Lock {
  import opened Wrappers
  import opened RespGrammar

  datatype Key = Key(token: bytes, expires: Option<int>)

  /** The key as a command sees it: an expired key is gone. */
  function Current(key: Option<Key>, now: int): Option<Key> {
    if key.Some? && key.value.expires.Some? && key.value.expires.value <= now then None else key
  }

  /** int(seconds * 1000), which truncates towards zero. */
  function Millis(seconds: real): int {
    if seconds < 0.0 then -((-seconds * 1000.0).Floor) else (seconds * 1000.0).Floor
  }

  /** No more than the time in milliseconds, less than one of them short of it, and with its sign. */
  lemma MillisMeans(seconds: real)
    ensures seconds >= 0.0 ==>
              0 <= Millis(seconds) && Millis(seconds) as real <= seconds * 1000.0 < Millis(seconds) as real + 1.0
    ensures Millis(-seconds) == -Millis(seconds)
  {
  }

  // ---------------------------------------------------------------------------
  // Commands and scripts

  datatype Reply<T> = Reply(key: Option<Key>, value: T)

  /** PEXPIRE with a time that is not positive deletes the key. */
  function PExpire(key: Key, now: int, ms: int): Option<Key> {
    if ms <= 0 then None else Some(key.(expires := Some(now + ms)))
  }

  /** SET NX with an optional PX; None when the server refuses the expire time. */
  function SetNx(key: Option<Key>, now: int, token: bytes, px: Option<int>): Reply<Option<bool>> {
    if px.Some? && px.value <= 0 then Reply(key, None)
    else if Current(key, now).Some? then Reply(key, Some(false))
    else Reply(Some(Key(token, if px.Some? then Some(now + px.value) else None)), Some(true))
  }

  function ReleaseScript(key: Option<Key>, now: int, token: bytes): Reply<bool> {
    match Current(key, now)
    case None => Reply(key, false)
    case Some(k) => if k.token != token then Reply(key, false) else Reply(None, true)
  }

  /** A key without an expiry has a negative PTTL, which the script refuses. */
  function ExtendScript(key: Option<Key>, now: int, token: bytes, ms: int, replace: bool): Reply<bool> {
    match Current(key, now)
    case None => Reply(key, false)
    case Some(k) =>
      if k.token != token || k.expires == None then Reply(key, false)
      else Reply(PExpire(k, now, if replace then ms else ms + (k.expires.value - now)), true)
  }

  function ReacquireScript(key: Option<Key>, now: int, token: bytes, ms: int): Reply<bool> {
    match Current(key, now)
    case None => Reply(key, false)
    case Some(k) => if k.token != token then Reply(key, false) else Reply(PExpire(k, now, ms), true)
  }

  // ---------------------------------------------------------------------------
  // Clients

  /** How long a client may believe that it holds the lock. */
  datatype Lease = NoLease | Until(at: int) | Forever

  predicate Active(lease: Lease, now: int) { lease.Forever? || (lease.Until? && now < lease.at) }

  /** A Lock object: its timeout in seconds, local.token, and what its owner may conclude from the replies. */
  datatype Client = Client(timeout: Option<real>, token: Option<bytes>, lease: Lease)

  datatype Sys = Sys(now: int, key: Option<Key>, clients: map<nat, Client>, issued: map<bytes, nat>)

  /** `lost` says that the server executes the command but the client sees a connection error. */
  datatype Step =
    | Tick(ms: nat)
    | TryAcquire(client: nat, token: bytes, lost: bool)
    | Release(client: nat, lost: bool)
    | Extend(client: nat, seconds: real, replace: bool, lost: bool)
    | Reacquire(client: nat, lost: bool)

  datatype Answer = Nothing | Returns(value: bool) | LockError | LockNotOwnedError | ServerError | ConnectionLost

  /** The PX argument of do_acquire: a timeout of zero counts as none. */
  function Px(timeout: Option<real>): Option<int> {
    if timeout.Some? && timeout.value != 0.0 then Some(Millis(timeout.value)) else None
  }

  function LeaseFrom(px: Option<int>, now: int): Lease { if px.Some? then Until(now + px.value) else Forever }

  function Extended(lease: Lease, now: int, ms: int): Lease {
    if lease.Until? && now < lease.at then Until(lease.at + ms) else Until(now + ms)
  }

  predicate Enabled(s: Sys, step: Step) {
    match step
    case Tick(_) => true
    case TryAcquire(c, token, _) => c in s.clients && (token in s.issued ==> s.issued[token] == c)
    case _ => step.client in s.clients
  }

  datatype Stepped = Stepped(sys: Sys, answer: Answer)

  /** One command of one client, or the passing of time. */
  function Next(s: Sys, step: Step): Stepped
    requires Enabled(s, step)
  {
    match step
    case Tick(ms) => Stepped(s.(now := s.now + ms), Nothing)
    case TryAcquire(c, token, lost) =>
      var me := s.clients[c];
      var px := Px(me.timeout);
      var tried := SetNx(s.key, s.now, token, px);
      var s1 := s.(key := tried.key, issued := s.issued[token := c]);
      if tried.value == None then Stepped(s1, ServerError)
      else if lost then Stepped(s1, ConnectionLost)
      else if tried.value.value then Stepped(s1.(clients :=
          s.clients[c := me.(token := Some(token), lease := LeaseFrom(px, s.now))]), Returns(true))
      else Stepped(s1, Returns(false))
    case Release(c, lost) =>
      var me := s.clients[c];
      if me.token == None then Stepped(s, LockError)
      else
        var r := ReleaseScript(s.key, s.now, me.token.value);
        Stepped(s.(key := r.key, clients := s.clients[c := me.(token := None, lease := NoLease)]),
                if lost then ConnectionLost else if r.value then Nothing else LockNotOwnedError)
    case Extend(c, seconds, replace, lost) =>
      var me := s.clients[c];
      if me.token == None || me.timeout == None then Stepped(s, LockError)
      else
        var ms := Millis(seconds);
        var r := ExtendScript(s.key, s.now, me.token.value, ms, replace);
        var lease := if replace then Until(s.now + ms) else Extended(me.lease, s.now, ms);
        Retimed(s, c, r, lease, lost)
    case Reacquire(c, lost) =>
      var me := s.clients[c];
      if me.token == None || me.timeout == None then Stepped(s, LockError)
      else
        var ms := Millis(me.timeout.value);
        Retimed(s, c, ReacquireScript(s.key, s.now, me.token.value, ms), Until(s.now + ms), lost)
  }

  /** The end of do_extend and do_reacquire; after a lost or a negative reply the client may conclude nothing. */
  function Retimed(s: Sys, c: nat, r: Reply<bool>, lease: Lease, lost: bool): Stepped
    requires c in s.clients
  {
    var good := r.value && !lost;
    Stepped(s.(key := r.key, clients := s.clients[c := s.clients[c].(lease := if good then lease else NoLease)]),
            if lost then ConnectionLost else if r.value then Returns(true) else LockNotOwnedError)
  }

  // ---------------------------------------------------------------------------
  // The invariant

  /** The server's key is the client's and lasts at least as long as its lease. */
  predicate Backed(s: Sys, me: Client) {
    && me.token.Some? && s.key.Some? && s.key.value.token == me.token.value
    && match s.key.value.expires
       case None => true
       case Some(e) => me.lease.Until? && me.lease.at <= e
  }

  predicate Inv(s: Sys) {
    && (forall c | c in s.clients && Active(s.clients[c].lease, s.now) :: Backed(s, s.clients[c]))
    && (forall c | c in s.clients && s.clients[c].token.Some? ::
          s.clients[c].token.value in s.issued && s.issued[s.clients[c].token.value] == c)
  }

  function Run(s: Sys, steps: seq<Step>): Option<Sys> {
    if steps == [] then Some(s)
    else
      match Run(s, steps[..|steps| - 1])
      case None => None
      case Some(t) => if Enabled(t, steps[|steps| - 1]) then Some(Next(t, steps[|steps| - 1]).sys) else None
  }

  /** No key, no tokens, nobody holds anything. */
  predicate Initial(s: Sys) {
    s.key == None && s.issued == map[] && forall c | c in s.clients ::
        s.clients[c].token == None && s.clients[c].lease == NoLease
  }

  lemma StepKeepsInv(s: Sys, step: Step)
    requires Inv(s) && Enabled(s, step)
    ensures Inv(Next(s, step).sys)
  {
    hide Millis, PExpire;
    if !step.Tick? {
      OwnLease(s, step);
      forall c | c in s.clients && c != step.client
          ensures c in Next(s, step).sys.clients && Next(s, step).sys.clients[c] == s.clients[c] {}
      forall c | c in s.clients && c != step.client && Active(s.clients[c].lease, s.now)
          ensures Backed(Next(s, step).sys, s.clients[c]) {
        OthersLease(s, step, c);
      }
    }
  }

  /** A step leaves the key of another client's active lease alone. */
  lemma OthersLease(s: Sys, step: Step, c: nat)
    requires Inv(s) && Enabled(s, step) && !step.Tick? && c != step.client
    requires c in s.clients && Active(s.clients[c].lease, s.now)
    ensures Next(s, step).sys.key == s.key
  {
    hide Millis, PExpire;
  }

  /** What a client concludes from its own step is true. */
  lemma OwnLease(s: Sys, step: Step)
    requires Inv(s) && Enabled(s, step) && !step.Tick?
    ensures var t := Next(s, step).sys;
            var me := t.clients[step.client];
            && (Active(me.lease, t.now) ==> Backed(t, me))
            && (me.token.Some? ==> me.token.value in t.issued && t.issued[me.token.value] == step.client)
            && (forall k | k in s.issued :: k in t.issued && t.issued[k] == s.issued[k])
  {
    hide Millis;
  }

  lemma {:induction false} RunKeepsInv(s: Sys, steps: seq<Step>)
    requires Initial(s) && Run(s, steps).Some?
    ensures Inv(Run(s, steps).value)
  {
    if steps != [] {
      RunKeepsInv(s, steps[..|steps| - 1]);
      StepKeepsInv(Run(s, steps[..|steps| - 1]).value, steps[|steps| - 1]);
    }
  }

  /** At no time do two clients hold the lock, whatever the interleaving. */
  lemma LeasesExclude(s: Sys, steps: seq<Step>, a: nat, b: nat)
    requires Initial(s) && Run(s, steps).Some?
    ensures var t := Run(s, steps).value;
            && a in t.clients && b in t.clients
            && Active(t.clients[a].lease, t.now) && Active(t.clients[b].lease, t.now)
            ==> a == b
  {
    RunKeepsInv(s, steps);
  }

  /** A client whose lease is active owns the server's key, and nobody else can acquire, release or retime it. */
  lemma HolderIsSafe(s: Sys, steps: seq<Step>, holder: nat, step: Step)
    requires Initial(s) && Run(s, steps).Some? && Enabled(Run(s, steps).value, step)
    requires !step.Tick? && step.client != holder
    ensures var t := Run(s, steps).value;
            holder in t.clients && Active(t.clients[holder].lease, t.now) ==>
            && Current(t.key, t.now).Some? && Some(Current(t.key, t.now).value.token) == t.clients[holder].token
            && Next(t, step).sys.key == t.key && Next(t, step).answer != Returns(true)
  {
    RunKeepsInv(s, steps);
  }

  /** A client touches only a key that carries its own token, so never one set by somebody else. */
  lemma OnlyOwnKeyIsTouched(s: Sys, steps: seq<Step>, step: Step)
    requires Initial(s) && Run(s, steps).Some? && Enabled(Run(s, steps).value, step) && !step.Tick?
    ensures var t := Run(s, steps).value;
            var current := Current(t.key, t.now);
            current.Some? && Current(Next(t, step).sys.key, t.now) != current ==>
            && !step.TryAcquire? && current.value.token in t.issued && t.issued[current.value.token] == step.client
            && t.clients[step.client].token == Some(current.value.token)
  {
    RunKeepsInv(s, steps);
  }

  // ---------------------------------------------------------------------------
  // When the calls succeed, and what success means

  predicate Owns(s: Sys, c: nat)
    requires c in s.clients
  {
    Current(s.key, s.now).Some? && s.clients[c].token == Some(Current(s.key, s.now).value.token)
  }

  /** acquire succeeds exactly when no live key is there; release exactly when the key is the client's own. */
  lemma AcquireAndRelease(s: Sys, c: nat, token: bytes)
    requires Enabled(s, TryAcquire(c, token, false))
               && (Px(s.clients[c].timeout).Some? ==> Px(s.clients[c].timeout).value > 0)
    ensures var t := Next(s, TryAcquire(c, token, false));
            && (t.answer == Returns(true) <==> Current(s.key, s.now) == None)
            && (t.answer == Returns(true) ==> Owns(t.sys, c) && Active(t.sys.clients[c].lease, s.now))
            && (t.answer != Returns(true) ==> t.sys.key == s.key && t.sys.clients == s.clients)
    ensures var t := Next(s, Release(c, false));
            && (t.answer == Nothing <==> Owns(s, c))
            && (t.answer == Nothing ==> t.sys.key == None)
            && (t.answer != Nothing ==> t.sys.key == s.key)
            && t.sys.clients[c].token == None
  {
    hide Millis;
  }

  /** The time to live that a successful extend or reacquire asks for. */
  function NewTtl(s: Sys, step: Step): int
    requires (step.Extend? || step.Reacquire?) && step.client in s.clients && s.clients[step.client].timeout.Some?
    requires Owns(s, step.client) && (step.Extend? && !step.replace ==> s.key.value.expires.Some?)
  {
    if step.Reacquire? then Millis(s.clients[step.client].timeout.value)
    else if step.replace then Millis(step.seconds)
    else Millis(step.seconds) + (s.key.value.expires.value - s.now)
  }

  /**
   extend succeeds exactly on an own key with an expiry, reacquire on any own key. The client then
   still owns the key exactly when the new time to live is positive: otherwise the call returns
   True and the key is gone.
   */
  lemma RetimingMeans(s: Sys, step: Step)
    requires (step.Extend? || step.Reacquire?) && Enabled(s, step) && !step.lost
    requires s.clients[step.client].timeout.Some?
    ensures var t := Next(s, step);
            && (t.answer == Returns(true) <==> Owns(s, step.client) && (step.Extend? ==> s.key.value.expires.Some?))
            && (t.answer == Returns(true) ==>
                  && (Owns(t.sys, step.client) <==> NewTtl(s, step) > 0)
                  && (NewTtl(s, step) > 0 ==> t.sys.key == Some(Key(s.key.value.token, Some(s.now + NewTtl(s, step)))))
                  && (NewTtl(s, step) <= 0 ==> t.sys.key == None))
            && (t.answer != Returns(true) ==> t.sys.key == s.key)
  {
    hide Millis;
  }

  /**
   A lock with timeout zero never expires, but reacquire deletes it and returns True, and extend calls
   it not owned.
   */
  lemma ZeroTimeout(token: bytes)
    ensures var s := Sys(0, None, map[0 := Client(Some(0.0), None, NoLease)], map[]);
            var held := Next(s, TryAcquire(0, token, false)).sys;
            && held.clients[0].lease == Forever && Owns(held, 0)
            && Next(held, Reacquire(0, false)).answer == Returns(true)
                && Next(held, Reacquire(0, false)).sys.key == None
            && Next(held, Extend(0, 10.0, false, false)).answer == LockNotOwnedError
                && Next(held, Extend(0, 10.0, false, false)).sys.key == held.key
  {
  }

  /** Once the lease of a holder has run out the next client can have the lock, and the old holder's release fails. */
  lemma LapsedHolder(first: nat, second: nat, t1: bytes, t2: bytes)
    requires first != second && t1 != t2
    ensures var s := Sys(0, None, map[first := Client(Some(1.0), None, NoLease),
              second := Client(Some(1.0), None, NoLease)], map[]);
            var s1 := Next(s, TryAcquire(first, t1, false)).sys;
            var s2 := Next(s1, Tick(1000)).sys;
            Enabled(s2, TryAcquire(second, t2, false)) &&
            var s3 := Next(s2, TryAcquire(second, t2, false)).sys;
            && Owns(s3, second) && s3.clients[first].token == Some(t1)
            && Next(s3, Release(first, false)).answer == LockNotOwnedError
                && Next(s3, Release(first, false)).sys.key == s3.key
  {
    assert Millis(1.0) == 1000;
  }

  // ---------------------------------------------------------------------------
  // The lock object

  class Redis {
    var key: Option<Key>
    var now: int
  }

  /** What the client meets at one try: the server as the others left it, and the local clock after the reply. */
  datatype Moment = Moment(key: Option<Key>, now: int, clock: real)

  class Lock {
    const redis: Redis
    const timeout: Option<real>
    var token: Option<bytes>

    constructor (redis: Redis, timeout: Option<real>)
      ensures this.redis == redis && this.timeout == timeout && token == None
    {
      this.redis := redis;
      this.timeout := timeout;
      token := None;
    }

    /** This object with its lease as a client of the protocol. */
    ghost function AsClient(lease: Lease): Client
      reads this
    {
      Client(timeout, token, lease)
    }

    /** do_acquire: takes a free lock and nothing else; None says that the server refused the expire time. */
    method DoAcquire(tokenValue: bytes) returns (r: Option<bool>)
      modifies redis
      ensures redis.now == old(redis.now)
      ensures r == None <==> timeout.Some? && timeout.value != 0.0 && Millis(timeout.value) <= 0
      ensures r != None ==> (r == Some(true) <==> Current(old(redis.key), redis.now) == None)
      // afterwards the key is the client's own, for as long as its timeout says, and for ever without one
      ensures r == Some(true) ==>
                && Current(redis.key, redis.now).Some? && redis.key.value.token == tokenValue
                && (timeout == None || timeout.value == 0.0 <==> redis.key.value.expires == None)
                && forall later | later >= redis.now ::
                     Current(redis.key, later).Some? <==>
                       redis.key.value.expires == None || later < redis.now + Millis(timeout.value)
      ensures r != Some(true) ==> redis.key == old(redis.key)
      ensures Reply(redis.key, r) == SetNx(old(redis.key), old(redis.now), tokenValue, Px(timeout))
    {
      hide Millis;
      var px := if timeout.Some? && timeout.value != 0.0 then Some(Millis(timeout.value)) else None;
      var reply := SetNx(redis.key, redis.now, tokenValue, px);
      redis.key := reply.key;
      r := reply.value;
    }

    /** Whether another try may follow a failed one. */
    static predicate MayWait(blocking: bool, sleep: real, stop: Option<real>, clock: real) {
      blocking && (stop == None || clock + sleep <= stop.value)
    }

    /**
     acquire: tries until the lock is free or there is no time for another try. `answer` is None when
     the server refused the expire time; `tried` counts the tries and `waiting` says that the script
     of the environment ended first.
     */
    method Acquire(tokenValue: bytes, blocking: bool, sleep: real, blockingTimeout: Option<real>, start: real,
        moments: seq<Moment>)
      returns (answer: Option<bool>, ghost tried: nat, ghost waiting: bool)
      modifies this, redis
      ensures var stop := if blockingTimeout.Some? then Some(start + blockingTimeout.value) else None;
              && tried <= |moments| && (waiting ==> tried == |moments|) && (!waiting ==> tried > 0)
              && (forall i | 0 <= i < tried - (if waiting then 0 else 1) ::
                    Current(moments[i].key, moments[i].now).Some? && MayWait(blocking, sleep, stop, moments[i].clock))
              && (!waiting ==>
                    var last := moments[tried - 1];
                    && (answer == Some(true) ==>
                          Current(last.key, last.now) == None && token == Some(tokenValue)
                          && Reply(redis.key, answer) == SetNx(last.key, last.now, tokenValue, Px(timeout)))
                    && (answer == Some(false) ==>
                          Current(last.key, last.now).Some? && !MayWait(blocking, sleep, stop, last.clock)
                          && token == old(token) && redis.key == last.key)
                    && (answer == None <==> Px(timeout).Some? && Px(timeout).value <= 0)
                    && (answer == None ==> token == old(token) && redis.key == last.key))
    {
      hide Millis;
      var stop := if blockingTimeout.Some? then Some(start + blockingTimeout.value) else None;
      tried, waiting, answer := 0, false, Some(false);
      for i := 0 to |moments|
        invariant tried == i && !waiting && token == old(token) && answer == Some(false)
        invariant i > 0 ==> !(Px(timeout).Some? && Px(timeout).value <= 0)
        invariant forall j | 0 <= j < i :: Current(moments[j].key, moments[j].now).Some?
                    && MayWait(blocking, sleep, stop, moments[j].clock)
      {
        redis.key, redis.now := moments[i].key, moments[i].now;
        tried := tried + 1;
        answer := DoAcquire(tokenValue);
        if answer == None {
          return;
        }
        if answer.value {
          token := Some(tokenValue);
          return;
        }
        if !blocking {
          return;
        }
        var nextTryAt := moments[i].clock + sleep;
        if stop.Some? && nextTryAt > stop.value {
          return;
        }
      }
      waiting := true;
    }

    /** locked: nobody, whatever the token, could acquire the lock now. */
    method Locked() returns (r: bool)
      ensures forall other, px: Option<int> | px == None || px.value > 0 ::
                SetNx(redis.key, redis.now, other, px).value == Some(!r)
    {
      r := Current(redis.key, redis.now).Some?;
    }

    /** owned: a release would succeed now. */
    method Owned() returns (r: bool)
      ensures forall s: Sys, c: nat, lease |
                c in s.clients && s.clients[c] == AsClient(lease) && s.key == redis.key && s.now == redis.now ::
                && (r <==> Owns(s, c)) && (r <==> Next(s, Step.Release(c, false)).answer == Nothing)
    {
      var stored := Current(redis.key, redis.now);
      r := token.Some? && stored.Some? && stored.value.token == token.value;
    }

    /** release: the token is forgotten before the server is asked. */
    method Release() returns (r: Answer)
      modifies this, redis
      ensures forall s: Sys, c: nat, lease |
                c in s.clients && s.clients[c] == old(AsClient(lease)) && s.key == old(redis.key)
                    && s.now == old(redis.now) ::
                var t := Next(s, Step.Release(c, false));
                r == t.answer && redis.key == t.sys.key && token == t.sys.clients[c].token
      ensures redis.now == old(redis.now)
    {
      var expected := token;
      if expected == None {
        return LockError;
      }
      token := None;
      var reply := ReleaseScript(redis.key, redis.now, expected.value);
      redis.key := reply.key;
      r := if reply.value then Nothing else LockNotOwnedError;
    }

    method Extend(seconds: real, replace: bool) returns (r: Answer)
      modifies redis
      ensures forall s: Sys, c: nat, lease |
                c in s.clients && s.clients[c] == old(AsClient(lease)) && s.key == old(redis.key)
                    && s.now == old(redis.now) ::
                var t := Next(s, Step.Extend(c, seconds, replace, false));
                r == t.answer && redis.key == t.sys.key && token == t.sys.clients[c].token
      ensures redis.now == old(redis.now)
    {
      hide Millis;
      if token == None || timeout == None {
        return LockError;
      }
      var reply := ExtendScript(redis.key, redis.now, token.value, Millis(seconds), replace);
      redis.key := reply.key;
      r := if reply.value then Returns(true) else LockNotOwnedError;
    }

    method Reacquire() returns (r: Answer)
      modifies redis
      ensures forall s: Sys, c: nat, lease |
                c in s.clients && s.clients[c] == old(AsClient(lease)) && s.key == old(redis.key)
                    && s.now == old(redis.now) ::
                var t := Next(s, Step.Reacquire(c, false));
                r == t.answer && redis.key == t.sys.key && token == t.sys.clients[c].token
      ensures redis.now == old(redis.now)
    {
      hide Millis;
      if token == None || timeout == None {
        return LockError;
      }
      var reply := ReacquireScript(redis.key, redis.now, token.value, Millis(timeout.value));
      redis.key := reply.key;
      r := if reply.value then Returns(true) else LockNotOwnedError;
    }
  }
}
