/**
 The pool that blocks: a last-in first-out queue of idle connections and of placeholders for
 connections that are yet to be made.
 */
module BlockingPool {
  import opened Wrappers
  import opened ConnectionPool

  datatype Limits = Limits(pid: int, maxConnections: nat)

  /** The queue, every connection ever made, those that are checked out, and those that are connected. */
  datatype Places = Places(queue: seq<Option<Connection>>, made: seq<Connection>, out: set<Connection>,
      up: set<Connection>)

  datatype Settled = Settled(places: Places, got: Got)

  // ---------------------------------------------------------------------------
  // What each operation comes to

  /** In place of a connection of another process comes a placeholder; put_nowait raises Full for it. */
  function Released(l: Limits, s: Places, c: Connection): Places {
    var full := |s.queue| >= l.maxConnections;
    if c.pid != l.pid then
      s.(out := s.out - {c}, up := s.up - {c}, queue := if full then s.queue else s.queue + [None])
    else s.(out := s.out - {c}, queue := if full then s.queue else s.queue + [Some(c)])
  }

  /**
   A get has taken `c`, which connects, connects once more if there is something to read, and is
   released if that fails.
   */
  function Ready(l: Limits, s: Places, c: Connection, a: Attempt): Settled {
    var connects := c in s.up || ComesUp(false, a.looks);
    var reconnects := ComesUp(false, a.again);
    if !connects then Settled(Released(l, s, c), NotConnected)
    else if !a.readable then Settled(s.(up := s.up + {c}), Got(c))
    else
      var t := s.(up := if reconnects then s.up + {c} else s.up - {c});
      if reconnects && !a.readableAgain then Settled(t, Got(c)) else Settled(Released(l, t, c), NotConnected)
  }

  /** The newest entry; a placeholder is replaced by a new connection, unless the constructor raises. */
  function Gotten(l: Limits, s: Places, a: Attempt, made: Option<Connection>): Settled {
    if s.queue == [] then Settled(s, TooMany)
    else
      var n := |s.queue| - 1;
      match s.queue[n]
      case Some(c) => Ready(l, s.(queue := s.queue[..n], out := s.out + {c}), c, a)
      case None =>
        match made
        case None => Settled(s.(queue := s.queue[..n]), NotConstructed)
        case Some(c) => Ready(l, s.(queue := s.queue[..n], made := s.made + [c], out := s.out + {c}), c, a)
  }

  datatype Course = Course(places: Places, held: seq<Connection>, events: seq<Event>)

  function Next(l: Limits, r: Course, step: Step): Course {
    match step.op
    case Get(a) =>
      var done := Gotten(l, r.places, a, step.made);
      Course(done.places, if done.got.Got? then r.held + [done.got.connection] else r.held,
          r.events + [Answer(done.got)])
    case GiveBack(i) =>
      if i < |r.held| then
        Course(Released(l, r.places, r.held[i]), r.held[..i] + r.held[i + 1..], r.events + [Returned])
      else r.(events := r.events + [Ignored])
  }

  function AllPlaceholders(n: nat): seq<Option<Connection>> { seq(n, _ => None) }

  function Start(l: Limits): Course { Course(Places(AllPlaceholders(l.maxConnections), [], {}, {}), [], []) }

  /** A new pool after the steps. */
  function Run(l: Limits, steps: seq<Step>): Course {
    if steps == [] then Start(l) else Next(l, Run(l, steps[..|steps| - 1]), steps[|steps| - 1])
  }

  /** How many connections are checked out while an operation runs: a get that fails to connect has had one, too. */
  function OutDuring(before: Course, event: Event): nat {
    |before.held| + (if event.Answer? && (event.got.Got? || event.got.NotConnected?) then 1 else 0)
  }

  /** The most connections that were ever checked out at once. */
  function Peak(l: Limits, steps: seq<Step>): nat {
    if steps == [] then 0
    else
      var init := steps[..|steps| - 1];
      var during := OutDuring(Run(l, init), Last(Run(l, steps)));
      if during > Peak(l, init) then during else Peak(l, init)
  }

  function Last(r: Course): Event { if r.events == [] then Ignored else r.events[|r.events| - 1] }

  // ---------------------------------------------------------------------------
  // Whole runs

  /** How many entries of the queue are connections. */
  function Idle(queue: seq<Option<Connection>>): nat {
    if queue == [] then 0 else Idle(queue[..|queue| - 1]) + (if queue[|queue| - 1].Some? then 1 else 0)
  }

  /** Placeholders lie below the connections. */
  predicate PlaceholdersBelow(queue: seq<Option<Connection>>) {
    forall i, j | 0 <= i < j < |queue| && queue[i].Some? :: queue[j].Some?
  }

  lemma {:induction false} OnlyPlaceholders(queue: seq<Option<Connection>>)
    requires PlaceholdersBelow(queue) && (queue == [] || queue[|queue| - 1] == None)
    ensures Idle(queue) == 0
  {
    if queue != [] {
      var init := queue[..|queue| - 1];
      assert init != [] ==> init[|init| - 1] == None;
      OnlyPlaceholders(init);
    }
  }

  /** Every connection made is idle or checked out, and not both. */
  predicate Sound(l: Limits, s: Places) {
    && PlaceholdersBelow(s.queue)
    && (forall i, j | 0 <= i < j < |s.queue| && s.queue[i].Some? :: s.queue[i] != s.queue[j])
    && (forall i | 0 <= i < |s.queue| && s.queue[i].Some? :: Mine(l, s, s.queue[i].value) && s.queue[i].value !in s.out)
    && (forall c | c in s.out :: Mine(l, s, c))
    && |s.made| == Idle(s.queue) + |s.out|
  }

  predicate Mine(l: Limits, s: Places, c: Connection) { c in s.made && c.pid == l.pid }

  predicate Fresh(l: Limits, s: Places, made: Option<Connection>) {
    made.Some? ==> made.value !in s.made && made.value.pid == l.pid
  }

  lemma IdlePop(queue: seq<Option<Connection>>)
    requires queue != []
    ensures Idle(queue) == Idle(queue[..|queue| - 1]) + (if queue[|queue| - 1].Some? then 1 else 0)
    ensures PlaceholdersBelow(queue) ==> PlaceholdersBelow(queue[..|queue| - 1])
  {
  }

  lemma IdlePush(queue: seq<Option<Connection>>, entry: Option<Connection>)
    ensures Idle(queue + [entry]) == Idle(queue) + (if entry.Some? then 1 else 0)
    ensures PlaceholdersBelow(queue) && entry.Some? ==> PlaceholdersBelow(queue + [entry])
  {
    assert (queue + [entry])[..|queue|] == queue;
  }

  lemma ReleaseKeepsSound(l: Limits, s: Places, c: Connection)
    requires Sound(l, s) && c in s.out && |s.queue| < l.maxConnections
    ensures var t := Released(l, s, c);
            Sound(l, t) && t.out == s.out - {c} && |t.queue| == |s.queue| + 1 && t.made == s.made
  {
    hide Idle, PlaceholdersBelow;
    var t := Released(l, s, c);
    assert Mine(l, s, c);
    IdlePush(s.queue, Some(c));
    assert |t.out| == |s.out| - 1;
    forall i | 0 <= i < |t.queue| && t.queue[i].Some?
        ensures Mine(l, t, t.queue[i].value) && t.queue[i].value !in t.out {
      if i < |s.queue| { assert s.queue[i] == t.queue[i] && Mine(l, s, s.queue[i].value); }
    }
  }

  /** Whatever happens after a connection was taken: it is checked out, or back in the queue. */
  lemma ReadyKeepsSound(l: Limits, s: Places, c: Connection, a: Attempt)
    requires Sound(l, s) && c in s.out && |s.queue| < l.maxConnections
    ensures var done := Ready(l, s, c, a);
            && Sound(l, done.places) && (done.got == Got(c) || done.got == NotConnected) && done.places.made == s.made
            && done.places.out == (if done.got.Got? then s.out else s.out - {c})
            && |done.places.queue| == |s.queue| + (if done.got.Got? then 0 else 1)
            && (done.got.Got? ==> c in done.places.up)
  {
    hide Idle, PlaceholdersBelow, Released, ComesUp;
    ReleaseKeepsSound(l, s, c);
    ReleaseKeepsSound(l, s.(up := s.up + {c}), c);
    ReleaseKeepsSound(l, s.(up := s.up - {c}), c);
  }

  /** An entry of the queue, or what is made for it, is checked out. */
  lemma TakeKeepsSound(l: Limits, s: Places, made: Option<Connection>)
    requires Sound(l, s) && s.queue != [] && Fresh(l, s, made)
    ensures var rest := s.queue[..|s.queue| - 1];
            match s.queue[|s.queue| - 1]
            case Some(c) => Sound(l, s.(queue := rest, out := s.out + {c})) && c !in s.out && Idle(s.queue) > 0
            case None =>
              && Idle(s.queue) == 0 && |s.made| == |s.out|
              && Sound(l, s.(queue := rest))
              && (made.Some? ==>
                    made.value !in s.out
                        && Sound(l, s.(queue := rest, made := s.made + [made.value], out := s.out + {made.value})))
  {
    var n := |s.queue| - 1;
    IdlePop(s.queue);
    if s.queue[n] == None { OnlyPlaceholders(s.queue); }
    hide Idle, PlaceholdersBelow;
    assert forall c | c in s.out :: Mine(l, s, c);
    match s.queue[n]
    case Some(c) => assert |s.out + {c}| == |s.out| + 1;
    case None => if made.Some? { assert |s.out + {made.value}| == |s.out| + 1; }
  }

  /** Entries lost to constructors that raised apart, queue and checked-out connections are the maximum. */
  predicate Conserving(l: Limits, r: Course) {
    && Sound(l, r.places) && Held(r.places.out, r.held)
    && |r.places.queue| + |r.held| + Raised(r.events) == l.maxConnections
    && |r.held| + GivenBack(r.events) == Handed(r.events)
  }

  /** When a get comes to what. */
  lemma GetMeans(l: Limits, s: Places, a: Attempt, made: Option<Connection>)
    ensures var got := Gotten(l, s, a, made).got;
            var top := if s.queue == [] then None else s.queue[|s.queue| - 1];
            && (got == TooMany <==> s.queue == [])
            && (got == NotConstructed <==> s.queue != [] && top == None && made == None)
            && (got.Got? || got == NotConnected ==>
                  (got.Got? <==>
                     && ((top.Some? && top.value in s.up) || (top == None && made.value in s.up)
                         || ComesUp(false, a.looks))
                     && (a.readable ==> ComesUp(false, a.again) && !a.readableAgain)))
  {
    hide ComesUp, Released;
  }

  lemma GetKeepsSound(l: Limits, s: Places, a: Attempt, made: Option<Connection>)
    requires Sound(l, s) && Fresh(l, s, made) && |s.queue| + |s.out| <= l.maxConnections
    ensures var done := Gotten(l, s, a, made);
            var t := done.places;
            && Sound(l, t) && t.out == (if done.got.Got? then s.out + {done.got.connection} else s.out)
            && (done.got.Got? ==> done.got.connection !in s.out && done.got.connection in t.up)
            && |t.queue| == |s.queue| - (if done.got.Got? || done.got.NotConstructed? then 1 else 0)
            // a connection is made only when all that were made are out
            && (t.made == s.made || (|s.made| == |s.out| && |t.made| == |s.out| + 1
                && (done.got.Got? || done.got == NotConnected)))
            && (done.got.Got? || done.got == NotConnected ==> |s.out| < |t.made|)
  {
    if s.queue != [] {
      var n := |s.queue| - 1;
      TakeKeepsSound(l, s, made);
      hide Sound, Ready, Idle;
      match s.queue[n]
      case Some(c) =>
        var taken := s.(queue := s.queue[..n], out := s.out + {c});
        ReadyKeepsSound(l, taken, c, a);
        assert taken.out - {c} == s.out;
        MadeAre(l, s);
      case None =>
        if made.Some? {
          var c := made.value;
          var taken := s.(queue := s.queue[..n], made := s.made + [c], out := s.out + {c});
          ReadyKeepsSound(l, taken, c, a);
          assert taken.out - {c} == s.out;
        }
    }
  }

  lemma MadeAre(l: Limits, s: Places)
    requires Sound(l, s)
    ensures |s.made| == Idle(s.queue) + |s.out|
  {
  }

  lemma StepConserves(l: Limits, r: Course, step: Step)
    requires Conserving(l, r) && Fresh(l, r.places, step.made)
    ensures var t := Next(l, r, step);
            && Conserving(l, t) && |t.events| == |r.events| + 1
            && |t.places.made| == (if OutDuring(r, Last(t)) > |r.places.made| then OutDuring(r, Last(t))
                else |r.places.made|)
  {
    hide Sound, Gotten, Released, Held, Handed, GivenBack, Raised, Idle;
    HeldSize(r.places.out, r.held);
    MadeAre(l, r.places);
    match step.op
    case Get(a) =>
      var got := Gotten(l, r.places, a, step.made).got;
      CountNext(r.events, Answer(got));
      GetKeepsSound(l, r.places, a, step.made);
      if got.Got? { HeldOneMore(r.places.out, r.held, got.connection); }
    case GiveBack(i) =>
      if i < |r.held| {
        CountNext(r.events, Returned);
        HeldOneLess(r.places.out, r.held, i);
        ReleaseKeepsSound(l, r.places, r.held[i]);
      } else {
        CountNext(r.events, Ignored);
      }
  }

  predicate AllFresh(l: Limits, steps: seq<Step>) {
    steps == []
    || (AllFresh(l, steps[..|steps| - 1]) && Fresh(l, Run(l, steps[..|steps| - 1]).places, steps[|steps| - 1].made))
  }

  lemma {:induction false} StartConserves(l: Limits)
    ensures Conserving(l, Start(l))
  {
    OnlyPlaceholders(AllPlaceholders(l.maxConnections));
  }

  /**
   Any sequence of gets and of releases of connections that are out: the queue and those connections
   are the maximum, less one for each get whose constructor raised; placeholders lie below idle
   connections; and exactly as many connections were made as were out at once at the peak.
   */
  lemma {:induction false} RunConserves(l: Limits, steps: seq<Step>)
    requires AllFresh(l, steps)
    ensures Conserving(l, Run(l, steps)) && |Run(l, steps).places.made| == Peak(l, steps)
  {
    if steps == [] {
      StartConserves(l);
    } else {
      var init := steps[..|steps| - 1];
      RunConserves(l, init);
      StepConserves(l, Run(l, init), steps[|steps| - 1]);
    }
  }

  /** So the blocking pool hands out fewer and fewer connections exactly as often as a constructor raises. */
  lemma QueuePlusOut(l: Limits, steps: seq<Step>)
    requires AllFresh(l, steps)
    ensures var r := Run(l, steps);
            && |r.places.queue| + |r.held| == l.maxConnections - Raised(r.events)
            && |r.places.made| == Idle(r.places.queue) + |r.held| == Peak(l, steps) <= l.maxConnections
  {
    hide Peak, Run;
    var r := Run(l, steps);
    RunConserves(l, steps);
    IdleFits(r.places.queue);
  }

  lemma {:induction false} IdleFits(queue: seq<Option<Connection>>)
    ensures Idle(queue) <= |queue|
  {
    if queue != [] { IdleFits(queue[..|queue| - 1]); }
  }

  /** A pool for one connection that hands out none any more, because a constructor has raised. */
  lemma RaisingConstructorUsesUpTheQueue(pid: int, a: Attempt, made: Connection)
    ensures Run(Limits(pid, 1), [Step(Get(a), None), Step(Get(a), Some(made))]).events
              == [Answer(NotConstructed), Answer(TooMany)]
  {
    var l, steps := Limits(pid, 1), [Step(Get(a), None), Step(Get(a), Some(made))];
    assert steps[..1] == [steps[0]] && steps[..1][..0] == [];
    assert Start(l).places.queue == [None] && Start(l).places.queue[..0] == [];
    assert Run(l, steps[..1]) == Course(Places([], [], {}, {}), [], [Answer(NotConstructed)]);
  }

  // ---------------------------------------------------------------------------
  // The pool

  class BlockingConnectionPool {
    const limits: Limits
    /** None stands for a connection that is yet to be made. */
    var pool: seq<Option<Connection>>
    /** Every connection ever made. */
    var connections: seq<Connection>
    /** The connections that are checked out. */
    ghost var out: set<Connection>

    constructor (limits: Limits)
      ensures this.limits == limits && Now() == Start(limits).places
    {
      this.limits := limits;
      pool, connections, out := [], [], {};
      new;
      while |pool| < limits.maxConnections
        invariant |pool| <= limits.maxConnections && out == {} && connections == []
        invariant forall i | 0 <= i < |pool| :: pool[i] == None
        modifies this`pool
      {
        pool := pool + [None];
      }
      assert pool == AllPlaceholders(limits.maxConnections);
    }

    ghost function Now(): Places
      reads this, connections
    {
      Places(pool, connections, out, set c | c in connections && c.connected)
    }

    /** make_connection appends what was constructed. */
    method MakeConnection(constructs: bool) returns (r: Got)
      modifies this`connections
      ensures r.NotConstructed? <==> !constructs
      ensures !constructs ==> connections == old(connections)
      ensures constructs ==>
                && r.Got? && fresh(r.connection) && r.connection.Now() == NEW && r.connection.pid == limits.pid
                && connections == old(connections) + [r.connection]
    {
      if !constructs {
        return NotConstructed;
      }
      var c := new Connection(limits.pid);
      connections := connections + [c];
      r := Got(c);
    }

    /** release: back into the queue, unless it is full; `full` says that a placeholder did not fit, which raises. */
    method Release(c: Connection) returns (full: bool)
      requires c in connections
      modifies this`pool, this`out, c
      ensures Now() == Released(limits, old(Now()), c)
      ensures full <==> c.pid != limits.pid && |old(pool)| >= limits.maxConnections
      ensures c.pid == limits.pid ==> c.Now() == old(c.Now())
    {
      out := out - {c};
      full := false;
      if c.pid != limits.pid {
        c.connected := false;
        if |pool| >= limits.maxConnections {
          return true;
        }
        pool := pool + [None];
        return;
      }
      if |pool| < limits.maxConnections {
        pool := pool + [Some(c)];
      }
    }

    /** get_connection. `constructs` says whether a constructor would not raise. */
    method GetConnection(constructs: bool, a: Attempt) returns (r: Got, ghost made: Option<Connection>)
      requires Sound(limits, Now()) && |pool| + |out| <= limits.maxConnections
      modifies this, set e | e in pool && e.Some? :: e.value
      ensures Settled(Now(), r) == Gotten(limits, old(Now()), a, made)
      ensures made.Some? ==> constructs && fresh(made.value) && made.value.pid == limits.pid
      ensures r == NotConstructed ==> !constructs
    {
      hide ComesUp, Ready, Idle, PlaceholdersBelow;
      made := None;
      if |pool| == 0 {
        return TooMany, made;
      }
      var entry := pool[|pool| - 1];
      assert entry in pool;
      pool := pool[..|pool| - 1];
      if entry == None {
        r := MakeConnection(constructs);
        if !constructs {
          return;
        }
        made := Some(r.connection);
      } else {
        r := Got(entry.value);
        assert Mine(limits, old(Now()), entry.value);
      }
      out := out + {r.connection};
      assert Now().up == old(Now()).up;
      r := MakeReady(r.connection, a);
    }

    /** The part of get_connection that connects. */
    method MakeReady(c: Connection, a: Attempt) returns (r: Got)
      requires c in connections && c.pid == limits.pid
      modifies this`pool, this`out, c
      ensures Settled(Now(), r) == Ready(limits, old(Now()), c, a)
      ensures r == Got(c) || r == NotConnected
    {
      hide ComesUp, Released;
      ghost var was := Now();
      var ok := c.connected || ComesUp(false, a.looks);
      c.connected := ok;
      assert ok ==> Now().up == was.up + {c};
      assert !ok ==> Now() == was;
      if ok && a.readable {
        c.connected := ComesUp(false, a.again);
        ok := c.connected && !a.readableAgain;
        assert Now().up == if ComesUp(false, a.again) then was.up + {c} else was.up - {c};
      }
      if ok {
        return Got(c);
      }
      var full := Release(c);
      r := NotConnected;
    }
  }

  /** A whole run on a new pool; `constructs` says during which operations a constructor would not raise. */
  method RunPool(limits: Limits, ops: seq<Op>, constructs: seq<bool>)
    returns (pool: BlockingConnectionPool, held: seq<Connection>, events: seq<Event>, ghost steps: seq<Step>)
    requires |constructs| == |ops|
    ensures fresh(pool) && |steps| == |events| == |ops| && forall k | 0 <= k < |ops| :: steps[k].op == ops[k]
    ensures Course(pool.Now(), held, events) == Run(limits, steps) && AllFresh(limits, steps)
    ensures Conserving(limits, Run(limits, steps)) && |pool.connections| == Peak(limits, steps)
    ensures forall k | 0 <= k < |ops| && events[k] == Answer(NotConstructed) :: !constructs[k]
  {
    hide Next, Conserving, AllFresh, Run, Peak;
    pool := new BlockingConnectionPool(limits);
    held, events, steps := [], [], [];
    NothingRun(limits);
    for i := 0 to |ops|
      invariant fresh(pool) && pool.limits == limits
      invariant |steps| == |events| == i && forall k | 0 <= k < i :: steps[k].op == ops[k]
      invariant Course(pool.Now(), held, events) == Run(limits, steps) && AllFresh(limits, steps)
      invariant Conserving(limits, Run(limits, steps))
      invariant forall c | c in pool.connections :: fresh(c)
      invariant forall k | 0 <= k < i && events[k] == Answer(NotConstructed) :: !constructs[k]
    {
      ghost var made, before := None, steps;
      held, events, made := Apply(pool, ops[i], constructs[i], held, events);
      steps := steps + [Step(ops[i], made)];
      OneMoreRun(limits, before, steps[i]);
    }
    RunConserves(limits, steps);
  }

  method Apply(pool: BlockingConnectionPool, op: Op, constructs: bool, held: seq<Connection>, events: seq<Event>)
    returns (nowHeld: seq<Connection>, nowEvents: seq<Event>, ghost made: Option<Connection>)
    requires Conserving(pool.limits, Course(pool.Now(), held, events))
    modifies pool, set c | c in pool.connections
    ensures Course(pool.Now(), nowHeld, nowEvents)
              == Next(pool.limits, old(Course(pool.Now(), held, events)), Step(op, made))
    ensures Conserving(pool.limits, Course(pool.Now(), nowHeld, nowEvents)) && Fresh(pool.limits, old(pool.Now()), made)
    ensures |nowEvents| == |events| + 1 && nowEvents[..|events|] == events
    ensures nowEvents[|events|] == Answer(NotConstructed) ==> !constructs
    ensures forall c | c in pool.connections :: fresh(c) || c in old(pool.connections)
  {
    hide Gotten, Released, Conserving;
    ghost var was := Course(pool.Now(), held, events);
    made := None;
    ConservingMeans(pool.limits, was);
    match op {
      case Get(a) =>
        var got;
        got, made := pool.GetConnection(constructs, a);
        MadeByGet(pool.limits, was.places, a, made);
        nowHeld := if got.Got? then held + [got.connection] else held;
        nowEvents := events + [Answer(got)];
      case GiveBack(index) =>
        if index < |held| {
          var full := pool.Release(held[index]);
          MadeByRelease(pool.limits, was.places, held[index]);
          nowHeld, nowEvents := held[..index] + held[index + 1..], events + [Returned];
        } else {
          nowHeld, nowEvents := held, events + [Ignored];
        }
    }
    StepConserves(pool.limits, was, Step(op, made));
  }

  lemma ConservingMeans(l: Limits, r: Course)
    requires Conserving(l, r)
    ensures Sound(l, r.places) && |r.places.queue| + |r.places.out| <= l.maxConnections
    ensures forall i | 0 <= i < |r.held| :: r.held[i] in r.places.made
    ensures forall e | e in r.places.queue && e.Some? :: e.value in r.places.made
  {
    forall i | 0 <= i < |r.held| ensures r.held[i] in r.places.made {
      assert r.held[i] in r.places.out && Mine(l, r.places, r.held[i]);
    }
  }

  lemma MadeByGet(l: Limits, s: Places, a: Attempt, made: Option<Connection>)
    ensures var t := Gotten(l, s, a, made).places.made;
            t == s.made || (made.Some? && t == s.made + [made.value])
  {
    hide ComesUp;
  }

  lemma MadeByRelease(l: Limits, s: Places, c: Connection)
    ensures Released(l, s, c).made == s.made
  {
  }

  lemma NothingRun(l: Limits)
    ensures Run(l, []) == Start(l) && AllFresh(l, []) && Conserving(l, Start(l))
  {
    StartConserves(l);
  }

  lemma OneMoreRun(l: Limits, steps: seq<Step>, last: Step)
    ensures AllFresh(l, steps + [last]) <==> AllFresh(l, steps) && Fresh(l, Run(l, steps).places, last.made)
    ensures Run(l, steps + [last]) == Next(l, Run(l, steps), last)
  {
    hide Next;
    assert (steps + [last])[..|steps|] == steps;
  }
}
