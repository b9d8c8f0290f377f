/**
 The connection pool: the list of idle connections and the set of those in use, with the
 rules of a Sentinel pool for following its master.
 */
module ConnectionPool {
  import opened Wrappers

  class Connection {
    /** The process that made it. */
    const pid: int
    var connected: bool
    var address: Address

    constructor (pid: int)
      ensures this.pid == pid && Now() == NEW
    {
      this.pid := pid;
      connected, address := false, NEW.address;
    }

    function Now(): Link
      reads this
    {
      Link(connected, address)
    }
  }

  datatype Link = Link(up: bool, address: Address)

  const NEW := Link(false, Address("localhost", 6379))

  /**
   One try to connect: which master Sentinel names, if any, and whether the connection comes up;
   `half` says that it comes up but the PING after it fails.
   */
  datatype Look = Look(master: Option<Address>, works: bool, half: bool)

  datatype Got = Got(connection: Connection) | TooMany | NotConstructed | NotConnected

  // ---------------------------------------------------------------------------
  // What each operation comes to

  /** `follows` says that it is a Sentinel pool for the master. */
  datatype Policy = Policy(pid: int, follows: bool, maxConnections: nat)

  datatype State = State(created: int, available: seq<Connection>, inUse: set<Connection>, master: Option<Address>,
      links: map<Connection, Link>)

  const EMPTY := State(0, [], {}, None, map[])

  /** How connecting ends; `moved` says that Sentinel named another master than before. */
  datatype Reach = Reach(ok: bool, link: Link, master: Option<Address>, moved: bool)

  /** The tries go on until one brings the connection up; a failed PING leaves it up for the next try. */
  function Reached(follows: bool, link: Link, master: Option<Address>, looks: seq<Look>): Reach
    decreases |looks|
  {
    if link.up then Reach(true, link, master, false)
    else if looks == [] then Reach(false, link, master, false)
    else if !follows then
      if looks[0].works then Reach(true, link.(up := true), master, false)
          else Reached(follows, link, master, looks[1..])
    else
      match looks[0].master
      case None => Reached(follows, link, master, looks[1..])
      case Some(address) =>
        var moved := master != Some(address);
        if looks[0].works || looks[0].half then
          Reach(looks[0].works || |looks| > 1, Link(true, address), Some(address), moved)
        else
          var rest := Reached(follows, Link(false, address), Some(address), looks[1..]);
          rest.(moved := moved || rest.moved)
  }

  /** A try that brings the connection up. */
  predicate Answers(follows: bool, look: Look) {
    if follows then look.master.Some? && (look.works || look.half) else look.works
  }

  predicate ComesUp(follows: bool, looks: seq<Look>) {
    exists i :: 0 <= i < |looks| && Answers(follows, looks[i]) && (looks[i].works || i + 1 < |looks|)
  }

  /** Connecting succeeds exactly for a connection that is up, or by a try that works, or that is not the last. */
  lemma {:induction false} ReachedIff(follows: bool, link: Link, master: Option<Address>, looks: seq<Look>)
    ensures Reached(follows, link, master, looks).ok <==> link.up || ComesUp(follows, looks)
    ensures Reached(follows, link, master, looks).ok ==> Reached(follows, link, master, looks).link.up
    decreases |looks|
  {
    if !link.up && looks != [] {
      var look, rest := looks[0], looks[1..];
      var named := if follows && look.master.Some? then Link(false, look.master.value) else link;
      ReachedIff(follows, named, if follows && look.master.Some? then look.master else master, rest);
      if i :| 0 <= i < |rest| && Answers(follows, rest[i]) && (rest[i].works || i + 1 < |rest|) {
        assert rest[i] == looks[i + 1];
      }
      if i :| 0 <= i < |looks| && Answers(follows, looks[i]) && (looks[i].works || i + 1 < |looks|) {
        assert i > 0 ==> looks[i] == rest[i - 1];
      }
    }
  }

  /** A connection that comes up in a Sentinel pool goes to the master known then. */
  lemma {:induction false} ReachedMaster(link: Link, master: Option<Address>, looks: seq<Look>)
    requires link.up ==> master == Some(link.address)
    ensures var r := Reached(true, link, master, looks);
            (r.link.up ==> r.master == Some(r.link.address)) && (!r.moved ==> r.master == master)
    decreases |looks|
  {
    if !link.up && looks != [] {
      match looks[0].master
      case None => ReachedMaster(link, master, looks[1..]);
      case Some(address) => ReachedMaster(Link(false, address), Some(address), looks[1..]);
    }
  }

  function LinkOf(s: State, c: Connection): Link {
    if c in s.links then s.links[c] else NEW
  }

  predicate Owns(p: Policy, c: Connection, link: Link, master: Option<Address>) {
    c.pid == p.pid && (p.follows ==> master == Some(link.address))
  }

  /** A connection that the pool does not own is closed and leaves the count. */
  function AfterRelease(p: Policy, s: State, c: Connection): State {
    if Owns(p, c, LinkOf(s, c), s.master) then s.(inUse := s.inUse - {c}, available := s.available + [c])
    else s.(inUse := s.inUse - {c}, created := s.created - 1, links := s.links - {c})
  }

  /** disconnect(inuse_connections=False). */
  function IdleDown(links: map<Connection, Link>, available: seq<Connection>): map<Connection, Link> {
    map c | c in links :: if c in available then links[c].(up := false) else links[c]
  }

  /** `c` is connected, which may disconnect the idle ones. */
  function AfterConnect(p: Policy, s: State, c: Connection, looks: seq<Look>): State {
    var r := Reached(p.follows, LinkOf(s, c), s.master, looks);
    s.(master := r.master, links := (if r.moved then IdleDown(s.links, s.available) else s.links)[c := r.link])
  }

  predicate Connects(p: Policy, s: State, c: Connection, looks: seq<Look>) {
    Reached(p.follows, LinkOf(s, c), s.master, looks).ok
  }

  /** The idle connection released last, or else the new one. */
  function Picked(s: State, made: Option<Connection>): Connection
    requires s.available != [] || made.Some?
  {
    if s.available == [] then made.value else s.available[|s.available| - 1]
  }

  /** It counts as in use from then on. */
  function AfterTake(s: State, made: Option<Connection>): State
    requires s.available != [] || made.Some?
  {
    var inUse := s.inUse + {Picked(s, made)};
    if s.available == [] then s.(created := s.created + 1, inUse := inUse, links := s.links[made.value := NEW])
    else s.(available := s.available[..|s.available| - 1], inUse := inUse)
  }

  /** What happens during a get; `readable` says that there is data to read on the connection that came up. */
  datatype Attempt = Attempt(looks: seq<Look>, readable: bool, again: seq<Look>, readableAgain: bool)

  datatype Done = Done(state: State, got: Got)

  /**
   `made` is the connection that the constructor makes if it is called, None if it raises. What there is
   to read on a connection makes it connect once more; whatever fails then releases it.
   */
  function AfterGet(p: Policy, s: State, a: Attempt, made: Option<Connection>): Done {
    if s.available == [] && s.created >= p.maxConnections then Done(s, TooMany)
    else if s.available == [] && made == None then Done(s.(created := s.created + 1), NotConstructed)
    else AfterReady(p, AfterTake(s, made), Picked(s, made), a)
  }

  function AfterReady(p: Policy, s: State, c: Connection, a: Attempt): Done {
    var first := AfterConnect(p, s, c, a.looks);
    var down := first.(links := first.links[c := LinkOf(first, c).(up := false)]);
    var second := AfterConnect(p, down, c, a.again);
    if !Connects(p, s, c, a.looks) then Done(AfterRelease(p, first, c), NotConnected)
    else if !a.readable then Done(first, Got(c))
    else if Connects(p, down, c, a.again) && !a.readableAgain then Done(second, Got(c))
    else Done(AfterRelease(p, second, c), NotConnected)
  }

  // ---------------------------------------------------------------------------
  // Whole runs

  /** A get, or giving back one of the connections that are out. */
  datatype Op = Get(a: Attempt) | GiveBack(index: nat)

  datatype Event = Answer(got: Got) | Returned | Ignored

  /** `held` are the connections that are out, in the order in which they were handed out. */
  datatype Ran = Ran(state: State, held: seq<Connection>, events: seq<Event>)

  function AfterOp(p: Policy, r: Ran, op: Op, made: Option<Connection>): Ran {
    match op
    case Get(a) =>
      var done := AfterGet(p, r.state, a, made);
      Ran(done.state, if done.got.Got? then r.held + [done.got.connection] else r.held, r.events + [Answer(done.got)])
    case GiveBack(i) =>
      if i < |r.held| then
        Ran(AfterRelease(p, r.state, r.held[i]), r.held[..i] + r.held[i + 1..], r.events + [Returned])
      else r.(events := r.events + [Ignored])
  }

  /** An operation, and what the constructor does if it is called. */
  datatype Step = Step(op: Op, made: Option<Connection>)

  /** A new pool after the steps. */
  function AfterAll(p: Policy, steps: seq<Step>): Ran {
    if steps == [] then Ran(EMPTY, [], [])
    else
      var last := steps[|steps| - 1];
      AfterOp(p, AfterAll(p, steps[..|steps| - 1]), last.op, last.made)
  }

  /** How many of the events are of a kind. */
  function Times(events: seq<Event>, kind: Event -> bool): nat {
    if events == [] then 0
    else Times(events[..|events| - 1], kind) + (if kind(events[|events| - 1]) then 1 else 0)
  }

  function Handed(events: seq<Event>): nat { Times(events, (e: Event) => e.Answer? && e.got.Got?) }

  function GivenBack(events: seq<Event>): nat { Times(events, (e: Event) => e == Returned) }

  /** Gets that found no idle connection and whose constructor raised. */
  function Raised(events: seq<Event>): nat { Times(events, (e: Event) => e == Answer(NotConstructed)) }

  predicate Distinct(cs: seq<Connection>) { forall i, j | 0 <= i < j < |cs| :: cs[i] != cs[j] }

  /** The idle connections and those in use are different ones, and no idle one is connected past the master. */
  predicate Sane(p: Policy, s: State) {
    && Distinct(s.available) && (forall c | c in s.available :: c !in s.inUse)
    && (forall c | c in s.links :: c in s.available || c in s.inUse)
    && (forall c | c in s.available :: c in s.links) && (forall c | c in s.inUse :: c in s.links)
    && s.created <= p.maxConnections
    && (p.follows ==> forall c | c in s.available && s.links[c].up :: s.master == Some(s.links[c].address))
  }

  /** How many connections are counted but neither idle nor in use. */
  function Balance(s: State): int { s.created - |s.available| - |s.inUse| }

  predicate New(s: State, made: Option<Connection>) { made.Some? ==> made.value !in s.links }

  lemma TakeKeepsSane(p: Policy, s: State, made: Option<Connection>)
    requires Sane(p, s) && Balance(s) >= 0 && New(s, made)
    requires s.available == [] ==> s.created < p.maxConnections && made.Some?
    ensures var t, c := AfterTake(s, made), Picked(s, made);
            && Sane(p, t) && Balance(t) == Balance(s)
            && c !in s.inUse && c !in t.available && t.inUse == s.inUse + {c} && c in t.links
            && (p.follows && t.links[c].up ==> t.master == Some(t.links[c].address))
  {
    if s.available != [] {
      var n := |s.available| - 1;
      assert s.available == s.available[..n] + [Picked(s, made)];
      assert Picked(s, made) in s.available;
      assert Picked(s, made) !in s.available[..n];
    }
  }

  /** Connecting one that is in use keeps the idle ones on the master. */
  lemma ConnectKeepsSane(p: Policy, s: State, c: Connection, looks: seq<Look>)
    requires Sane(p, s) && c in s.inUse && (p.follows && s.links[c].up ==> s.master == Some(s.links[c].address))
    ensures var t := AfterConnect(p, s, c, looks);
            && Sane(p, t) && t.available == s.available && t.inUse == s.inUse && t.created == s.created
            && (p.follows && t.links[c].up ==> t.master == Some(t.links[c].address))
            && (Connects(p, s, c, looks) ==> t.links[c].up)
  {
    hide Reached;
    ReachedIff(p.follows, s.links[c], s.master, looks);
    if p.follows { ReachedMaster(s.links[c], s.master, looks); }
  }

  lemma ReleaseKeepsSane(p: Policy, s: State, c: Connection)
    requires Sane(p, s) && c in s.inUse
    ensures var t := AfterRelease(p, s, c);
            Sane(p, t) && Balance(t) == Balance(s) && t.inUse == s.inUse - {c}
    // one of this process, and in a Sentinel pool on the master, becomes the newest idle one; any other is forgotten
    ensures var t := AfterRelease(p, s, c);
            if c.pid == p.pid && (p.follows ==> s.master == Some(s.links[c].address))
            then t.available == s.available + [c] && t.created == s.created
            else t.available == s.available && t.created == s.created - 1 && c !in t.links
  {
    var t := AfterRelease(p, s, c);
    assert |t.inUse| == |s.inUse| - 1;
  }

  /**
   A get keeps the count right in every outcome but a raising constructor, and hands out a connection
   to the master.
   */
  lemma GetKeepsSane(p: Policy, s: State, a: Attempt, made: Option<Connection>)
    requires Sane(p, s) && Balance(s) >= 0 && New(s, made)
    ensures var done := AfterGet(p, s, a, made);
            var t := done.state;
            && Sane(p, t) && Balance(t) == Balance(s) + (if done.got.NotConstructed? then 1 else 0)
            && t.inUse == (if done.got.Got? then s.inUse + {done.got.connection} else s.inUse)
            && (done.got.Got? ==>
                  var c := done.got.connection;
                  && (s.available != [] || made.Some?) && c == Picked(s, made) && c !in s.inUse && c in t.links
                      && t.links[c].up
                  && (p.follows ==> t.master == Some(t.links[c].address)))
  {
    hide AfterTake, AfterReady, Sane, Picked, New, Balance;
    if s.available == [] && s.created < p.maxConnections { CountedKeepsSane(p, s); }
    if s.available != [] || (s.created < p.maxConnections && made.Some?) {
      var c, taken := Picked(s, made), AfterTake(s, made);
      TakeKeepsSane(p, s, made);
      ReadyKeepsSane(p, taken, c, a);
      assert taken.inUse - {c} == s.inUse;
    }
  }

  lemma CountedKeepsSane(p: Policy, s: State)
    requires Sane(p, s) && s.created < p.maxConnections
    ensures Sane(p, s.(created := s.created + 1)) && Balance(s.(created := s.created + 1)) == Balance(s) + 1
  {
  }

  lemma ReadyKeepsSane(p: Policy, s: State, c: Connection, a: Attempt)
    requires Sane(p, s) && c in s.inUse && c in s.links
               && (p.follows && s.links[c].up ==> s.master == Some(s.links[c].address))
    ensures var done := AfterReady(p, s, c, a);
            var t := done.state;
            && Sane(p, t) && Balance(t) == Balance(s)
            && (done.got == NotConnected || done.got == Got(c))
            && t.inUse == (if done.got.Got? then s.inUse else s.inUse - {c})
            && (done.got.Got? ==> c in t.links && t.links[c].up && (p.follows ==> t.master == Some(t.links[c].address)))
  {
    hide AfterRelease, Reached, IdleDown;
    ConnectKeepsSane(p, s, c, a.looks);
    var first := AfterConnect(p, s, c, a.looks);
    ReleaseKeepsSane(p, first, c);
    var down := first.(links := first.links[c := LinkOf(first, c).(up := false)]);
    assert Sane(p, down);
    ConnectKeepsSane(p, down, c, a.again);
    ReleaseKeepsSane(p, AfterConnect(p, down, c, a.again), c);
  }

  /** When a get comes to what. */
  lemma GetMeans(p: Policy, s: State, a: Attempt, made: Option<Connection>)
    ensures var got := AfterGet(p, s, a, made).got;
            var up := s.available != [] && LinkOf(s, s.available[|s.available| - 1]).up;
            && (got == TooMany <==> s.available == [] && s.created >= p.maxConnections)
            && (got == NotConstructed <==> s.available == [] && s.created < p.maxConnections && made == None)
            && (got.Got? || got == NotConnected ==>
                  (got.Got? <==>
                     && (up || ComesUp(p.follows, a.looks))
                     && (a.readable ==> ComesUp(p.follows, a.again) && !a.readableAgain)))
  {
    if s.available != [] || (s.created < p.maxConnections && made.Some?) {
      var c, taken := Picked(s, made), AfterTake(s, made);
      hide Reached;
      ReachedIff(p.follows, LinkOf(taken, c), taken.master, a.looks);
      var first := AfterConnect(p, taken, c, a.looks);
      ReachedIff(p.follows, LinkOf(first, c).(up := false), first.master, a.again);
    }
  }

  /** The connections that are out, each once. */
  predicate Held(inUse: set<Connection>, held: seq<Connection>) {
    |held| == |inUse| && (forall c | c in held :: c in inUse) && (forall c | c in inUse :: c in held) && Distinct(held)
  }

  lemma HeldOneMore(inUse: set<Connection>, held: seq<Connection>, c: Connection)
    requires Held(inUse, held) && c !in inUse
    ensures Held(inUse + {c}, held + [c])
  {
  }

  lemma HeldOneLess(inUse: set<Connection>, held: seq<Connection>, i: nat)
    requires Held(inUse, held) && i < |held|
    ensures held[i] in inUse && Held(inUse - {held[i]}, held[..i] + held[i + 1..])
  {
    WithoutOne(held, i);
    hide Distinct;
    assert held[i] in held;
    assert |inUse - {held[i]}| == |inUse| - 1;
  }

  lemma WithoutOne(held: seq<Connection>, i: nat)
    requires Distinct(held) && i < |held|
    ensures var rest := held[..i] + held[i + 1..];
            Distinct(rest) && forall c :: c in rest <==> c in held && c != held[i]
  {
    var rest := held[..i] + held[i + 1..];
    assert forall k | 0 <= k < |rest| :: rest[k] == held[if k < i then k else k + 1];
    forall c | c in held && c != held[i] ensures c in rest {
      var j :| 0 <= j < |held| && held[j] == c;
      assert rest[if j < i then j else j - 1] == c;
    }
  }

  /** Each constructed connection is a new one. */
  predicate AllNew(p: Policy, steps: seq<Step>) {
    steps == []
    || (AllNew(p, steps[..|steps| - 1]) && New(AfterAll(p, steps[..|steps| - 1]).state, steps[|steps| - 1].made))
  }

  predicate Conserved(p: Policy, r: Ran) {
    && Sane(p, r.state) && Held(r.state.inUse, r.held)
    && r.state.created == |r.state.available| + |r.held| + Raised(r.events) <= p.maxConnections
    && |r.held| + GivenBack(r.events) == Handed(r.events)
  }

  lemma TimesNext(events: seq<Event>, e: Event, kind: Event -> bool)
    ensures Times(events + [e], kind) == Times(events, kind) + (if kind(e) then 1 else 0)
  {
    assert (events + [e])[..|events|] == events;
  }

  lemma CountNext(events: seq<Event>, e: Event)
    ensures Handed(events + [e]) == Handed(events) + (if e.Answer? && e.got.Got? then 1 else 0)
    ensures GivenBack(events + [e]) == GivenBack(events) + (if e == Returned then 1 else 0)
    ensures Raised(events + [e]) == Raised(events) + (if e == Answer(NotConstructed) then 1 else 0)
  {
    TimesNext(events, e, (e: Event) => e.Answer? && e.got.Got?);
    TimesNext(events, e, (e: Event) => e == Returned);
    TimesNext(events, e, (e: Event) => e == Answer(NotConstructed));
  }

  lemma OpConserves(p: Policy, r: Ran, op: Op, made: Option<Connection>)
    requires Conserved(p, r) && New(r.state, made)
    ensures Conserved(p, AfterOp(p, r, op, made))
  {
    match op
    case Get(a) => GetConserves(p, r, a, made);
    case GiveBack(i) => GiveBackConserves(p, r, i, made);
  }

  lemma GetConserves(p: Policy, r: Ran, a: Attempt, made: Option<Connection>)
    requires Conserved(p, r) && New(r.state, made)
    ensures Conserved(p, AfterOp(p, r, Get(a), made))
  {
    var got := AfterGet(p, r.state, a, made).got;
    hide Sane, AfterGet, Held, Handed, GivenBack, Raised, New;
    CountNext(r.events, Answer(got));
    HeldSize(r.state.inUse, r.held);
    GetKeepsSane(p, r.state, a, made);
    SaneFits(p, AfterGet(p, r.state, a, made).state);
    if got.Got? {
      HeldOneMore(r.state.inUse, r.held, got.connection);
      HeldSize(r.state.inUse + {got.connection}, r.held + [got.connection]);
    }
  }

  lemma GiveBackConserves(p: Policy, r: Ran, i: nat, made: Option<Connection>)
    requires Conserved(p, r)
    ensures Conserved(p, AfterOp(p, r, GiveBack(i), made))
  {
    hide Sane, AfterRelease, Held, Handed, GivenBack, Raised, New;
    HeldSize(r.state.inUse, r.held);
    if i < |r.held| {
      CountNext(r.events, Returned);
      HeldOneLess(r.state.inUse, r.held, i);
      ReleaseKeepsSane(p, r.state, r.held[i]);
    } else {
      CountNext(r.events, Ignored);
    }
  }

  lemma SaneFits(p: Policy, s: State)
    requires Sane(p, s)
    ensures s.created <= p.maxConnections
  {
  }

  lemma HeldSize(inUse: set<Connection>, held: seq<Connection>)
    requires Held(inUse, held)
    ensures |held| == |inUse|
  {
  }

  /**
   Any sequence of gets and of releases of connections that the pool handed out: the count is the
   idle ones plus those that are out plus the gets whose constructor raised, and stays within the
   maximum; and those that are out are the ones handed out and not given back.
   */
  lemma {:induction false} RunConserves(p: Policy, steps: seq<Step>)
    requires AllNew(p, steps)
    ensures Conserved(p, AfterAll(p, steps))
  {
    if steps != [] {
      var init, last := steps[..|steps| - 1], steps[|steps| - 1];
      RunConserves(p, init);
      OpConserves(p, AfterAll(p, init), last.op, last.made);
    }
  }

  /** A pool for one connection that hands out none any more, because a constructor has raised. */
  lemma RaisingConstructorUsesUpThePool(pid: int, a: Attempt, made: Connection)
    ensures var r := AfterAll(Policy(pid, false, 1), [Step(Get(a), None), Step(Get(a), Some(made))]);
            && r.events == [Answer(NotConstructed), Answer(TooMany)]
            && r.state.available == [] && r.held == []
  {
    var p, steps := Policy(pid, false, 1), [Step(Get(a), None), Step(Get(a), Some(made))];
    assert steps[..1] == [steps[0]] && steps[..1][..0] == [];
    assert AfterAll(p, steps[..1]) == Ran(EMPTY.(created := 1), [], [Answer(NotConstructed)]);
  }

  // ---------------------------------------------------------------------------
  // The pool

  class ConnectionPool {
    const policy: Policy
    var created: int
    var available: seq<Connection>
    var inUse: set<Connection>
    var masterAddress: Option<Address>

    constructor (policy: Policy)
      ensures this.policy == policy && Now() == EMPTY
    {
      this.policy := policy;
      created, available, inUse, masterAddress := 0, [], {}, None;
    }

    ghost function Now(): State
      reads this, available, inUse
    {
      State(created, available, inUse, masterAddress, map c | c in (set d | d in available) + inUse :: c.Now())
    }

    predicate OwnsConnection(c: Connection)
      reads this`masterAddress, c
    {
      Owns(policy, c, c.Now(), masterAddress)
    }

    /** disconnect(inuse_connections=False). */
    method DisconnectIdle()
      modifies available
      ensures forall c | c in available :: c.Now() == old(c.Now()).(up := false)
    {
      for i := 0 to |available|
        invariant forall j | 0 <= j < i :: available[j].Now() == old(available[j].Now()).(up := false)
        invariant forall c | c in available :: c.Now() == old(c.Now()) || c.Now() == old(c.Now()).(up := false)
      {
        available[i].connected := false;
      }
    }

    /** get_master_address: a new master makes all idle connections reconnect. */
    method GetMasterAddress(found: Address)
      modifies this`masterAddress, available
      ensures masterAddress == Some(found)
      ensures forall c | c in available ::
                c.Now() == if old(masterAddress) == Some(found) then old(c.Now()) else old(c.Now()).(up := false)
    {
      if masterAddress != Some(found) {
        masterAddress := Some(found);
        DisconnectIdle();
      }
    }

    /** connect with its retries; a connection that is up is left alone. */
    method Connect(c: Connection, looks: seq<Look>) returns (ok: bool)
      requires c !in available
      modifies this`masterAddress, available, c
      ensures var r := Reached(policy.follows, old(c.Now()), old(masterAddress), looks);
              && ok == r.ok && c.Now() == r.link && masterAddress == r.master
              && forall e | e in available :: e.Now() == if r.moved then old(e.Now()).(up := false) else old(e.Now())
    {
      ghost var moved := false;
      if c.connected {
        return true;
      }
      for i := 0 to |looks|
        invariant !c.connected
        invariant var r := Reached(policy.follows, old(c.Now()), old(masterAddress), looks);
                  var left := Reached(policy.follows, c.Now(), masterAddress, looks[i..]);
                  r == left.(moved := moved || left.moved)
        invariant forall e | e in available :: e.Now() == if moved then old(e.Now()).(up := false) else old(e.Now())
      {
        assert looks[i..][1..] == looks[i + 1..];
        var look := looks[i];
        if policy.follows {
          if look.master == None {
            continue;
          }
          moved := moved || masterAddress != look.master;
          GetMasterAddress(look.master.value);
          c.address := look.master.value;
        }
        if look.works {
          c.connected := true;
          return true;
        }
        if policy.follows && look.half {
          // the PING failed; the next try, if there is one, finds the socket open
          c.connected := true;
          return i + 1 < |looks|;
        }
      }
      ok := false;
    }

    /** make_connection counts first and constructs then; a constructor that raises leaves the count too high. */
    method MakeConnection(constructs: bool) returns (r: Got)
      modifies this`created
      ensures r.TooMany? <==> old(created) >= policy.maxConnections
      ensures r.NotConstructed? <==> old(created) < policy.maxConnections && !constructs
      ensures r.Got? ==> fresh(r.connection) && r.connection.Now() == NEW && r.connection.pid == policy.pid
      ensures r != NotConnected
      ensures created == if r.TooMany? then old(created) else old(created) + 1
    {
      if created >= policy.maxConnections {
        return TooMany;
      }
      created := created + 1;
      if !constructs {
        return NotConstructed;
      }
      var c := new Connection(policy.pid);
      r := Got(c);
    }

    /** release; of a connection that is not in use, too. */
    method Release(c: Connection)
      modifies this`created, this`available, this`inUse, c
      ensures inUse == old(inUse) - {c} && masterAddress == old(masterAddress)
      // one of this process, and in a Sentinel pool on the master, becomes idle; any other is closed and not counted
      ensures if c.pid == policy.pid && (policy.follows ==> old(masterAddress) == Some(old(c.address)))
              then available == old(available) + [c] && created == old(created) && c.Now() == old(c.Now())
              else available == old(available) && created == old(created) - 1 && c.Now() == old(c.Now()).(up := false)
      // a release of a connection that is not in use breaks the balance, or makes a connection idle twice
      ensures c in old(inUse) && c !in old(available) ==> Now() == AfterRelease(policy, old(Now()), c)
      ensures created - |available| - |inUse|
                == old(created - |available| - |inUse|) - (if c in old(inUse) then 0 else 1)
      ensures old(Distinct(available)) ==> (Distinct(available) <==> !(old(OwnsConnection(c)) && c in old(available)))
    {
      inUse := inUse - {c};
      if OwnsConnection(c) {
        available := available + [c];
        assert available[|available| - 1] == c;
        if old(Distinct(available)) { TwiceIff(old(available), c); }
      } else {
        created := created - 1;
        c.connected := false;
      }
      if c in old(inUse) && c !in old(available) { ReleasedLinks(c); }
    }

    /** Only the link of the released connection has changed, if any. */
    twostate lemma ReleasedLinks(c: Connection)
      requires c in old(inUse) && c !in old(available) && inUse == old(inUse) - {c}
      requires available == if old(OwnsConnection(c)) then old(available) + [c] else old(available)
      requires old(OwnsConnection(c)) ==> c.Now() == old(c.Now())
      requires forall d: Connection | d in old(Now()).links && d != c :: d.Now() == old(d.Now())
      ensures Now().links == AfterRelease(policy, old(Now()), c).links
    {
      var was, now := old(Now()), Now();
      assert LinkOf(was, c) == old(c.Now());
      assert was.links.Keys == (set d | d in was.available) + was.inUse;
      assert now.links.Keys == (set d | d in now.available) + now.inUse;
      if old(OwnsConnection(c)) {
        assert now.links.Keys == was.links.Keys;
      } else {
        assert now.links.Keys == was.links.Keys - {c};
      }
    }

    /** Takes an idle connection, the one released last, or makes one; it counts as in use from then on. */
    method Take(constructs: bool) returns (r: Got)
      requires Sane(policy, Now())
      modifies this`created, this`available, this`inUse
      ensures r == TooMany <==> old(available) == [] && old(created) >= policy.maxConnections
      ensures r == NotConstructed <==> old(available) == [] && old(created) < policy.maxConnections && !constructs
      ensures r != NotConnected
      ensures r.Got? ==>
                r.connection == Picked(old(Now()), Some(r.connection))
                && Now() == AfterTake(old(Now()), Some(r.connection))
      ensures r.Got? && old(available) == [] ==> fresh(r.connection)
      ensures r.TooMany? ==> Now() == old(Now())
      ensures r.NotConstructed? ==> Now() == old(Now()).(created := old(created) + 1)
    {
      if |available| > 0 {
        r := Got(available[|available| - 1]);
        assert r.connection in available && available == available[..|available| - 1] + [r.connection];
        available := available[..|available| - 1];
      } else {
        r := MakeConnection(constructs);
        if !r.Got? {
          return;
        }
      }
      inUse := inUse + {r.connection};
      TakenState(policy, old(Now()), Now(), r.connection);
    }

    /** Connecting one that is in use, seen in the whole pool. */
    method ConnectTaken(c: Connection, looks: seq<Look>) returns (ok: bool)
      requires c in inUse && c !in available
      modifies this`masterAddress, available, c
      ensures ok == Connects(policy, old(Now()), c, looks)
      ensures Now() == AfterConnect(policy, old(Now()), c, looks)
    {
      hide AfterConnect, Reached;
      ghost var was := Now();
      ok := Connect(c, looks);
      ConnectedState(policy, was, Now(), c, looks);
    }

    /**
     get_connection. `constructs` says whether a constructor would raise; whatever fails after the
     connection was taken releases it.
     */
    method GetConnection(constructs: bool, a: Attempt) returns (r: Got, ghost made: Option<Connection>)
      requires Sane(policy, Now())
      modifies this`created, this`available, this`inUse, this`masterAddress, available
      ensures Done(Now(), r) == AfterGet(policy, old(Now()), a, made)
      ensures made.Some? ==> constructs && old(available) == [] && fresh(made.value)
      ensures r == NotConstructed ==> !constructs
    {
      hide AfterReady, Sane;
      r := Take(constructs);
      made := if r.Got? && old(available) == [] then Some(r.connection) else None;
      if !r.Got? {
        return;
      }
      InUseAfterTake(policy, old(Now()), made);
      r := MakeReady(r.connection, a);
    }

    /** The part of get_connection that connects. */
    method MakeReady(c: Connection, a: Attempt) returns (r: Got)
      requires c in inUse && c !in available
      modifies this`created, this`available, this`inUse, this`masterAddress, available, c
      ensures Done(Now(), r) == AfterReady(policy, old(Now()), c, a)
      ensures r == Got(c) || r == NotConnected
    {
      hide Reached, AfterRelease, Connects, AfterConnect;
      KeepsPlaces(policy, Now(), c, a.looks);
      var ok := ConnectTaken(c, a.looks);
      if ok && a.readable {
        ghost var first := Now();
        c.connected := false;
        DownLinks(first, Now(), c);
        KeepsPlaces(policy, Now(), c, a.again);
        ok := ConnectTaken(c, a.again);
        if a.readableAgain {
          ok := false;
        }
      }
      if ok {
        r := Got(c);
      } else {
        Release(c);
        r := NotConnected;
      }
    }
  }

  lemma KeepsPlaces(p: Policy, s: State, c: Connection, looks: seq<Look>)
    ensures var t := AfterConnect(p, s, c, looks);
            t.available == s.available && t.inUse == s.inUse && t.created == s.created
  {
  }

  lemma DownLinks(was: State, now: State, c: Connection)
    requires c in was.links && now.links.Keys == was.links.Keys && now.links[c] == was.links[c].(up := false)
    requires forall d | d in was.links && d != c :: now.links[d] == was.links[d]
    ensures now.links == was.links[c := LinkOf(was, c).(up := false)]
  {
  }

  lemma InUseAfterTake(p: Policy, s: State, made: Option<Connection>)
    requires Sane(p, s) && New(s, made) && (s.available == [] ==> made.Some?)
    ensures var t, c := AfterTake(s, made), Picked(s, made);
            c in t.inUse && c !in t.available && (s.available != [] ==> c in s.available)
            && forall d | d in t.available :: d in s.available
  {
    if s.available != [] {
      var n := |s.available| - 1;
      assert s.available == s.available[..n] + [s.available[n]];
      assert s.available[n] in s.available;
    }
  }

  lemma TakenState(p: Policy, was: State, now: State, c: Connection)
    requires Sane(p, was) && c == Picked(was, Some(c)) && now.inUse == was.inUse + {c} && now.master == was.master
    requires now.links.Keys == (set d | d in now.available) + now.inUse
    requires forall d | d in was.links && d in now.links && d != c :: now.links[d] == was.links[d]
    requires was.available == [] ==>
               now.created == was.created + 1 && now.available == [] && now.links[c] == NEW
    requires was.available != [] ==>
               && now.created == was.created && now.available == was.available[..|was.available| - 1]
               && now.links[c] == was.links[c]
    ensures now == AfterTake(was, Some(c))
  {
    hide Distinct;
    var t := AfterTake(was, Some(c));
    if was.available != [] { assert was.available == now.available + [c]; }
    assert now.links.Keys == t.links.Keys;
    assert now.links == t.links;
  }

  lemma ConnectedState(p: Policy, was: State, now: State, c: Connection, looks: seq<Look>)
    requires c in was.links && c !in was.available
    requires now.available == was.available && now.inUse == was.inUse && now.created == was.created
    requires now.links.Keys == was.links.Keys
    requires now.links[c] == Reached(p.follows, was.links[c], was.master, looks).link
    requires now.master == Reached(p.follows, was.links[c], was.master, looks).master
    requires Reached(p.follows, was.links[c], was.master, looks).moved ==>
               forall e | e in was.available && e in was.links :: now.links[e] == was.links[e].(up := false)
    requires !Reached(p.follows, was.links[c], was.master, looks).moved ==>
               forall e | e in was.available && e in was.links :: now.links[e] == was.links[e]
    requires forall e | e in was.links && e != c && e !in was.available :: now.links[e] == was.links[e]
    ensures now == AfterConnect(p, was, c, looks)
  {
    hide Reached;
    assert now.links == AfterConnect(p, was, c, looks).links;
  }

  /** A whole run on a new pool; `constructs` says during which operations a constructor would not raise. */
  method RunPool(pool: ConnectionPool, ops: seq<Op>, constructs: seq<bool>)
    returns (held: seq<Connection>, events: seq<Event>, ghost steps: seq<Step>)
    requires pool.Now() == EMPTY && |constructs| == |ops|
    modifies pool
    ensures |steps| == |events| == |ops| && forall k | 0 <= k < |ops| :: steps[k].op == ops[k]
    ensures Ran(pool.Now(), held, events) == AfterAll(pool.policy, steps)
    ensures AllNew(pool.policy, steps) && Conserved(pool.policy, AfterAll(pool.policy, steps))
    ensures forall k | 0 <= k < |ops| && events[k] == Answer(NotConstructed) :: !constructs[k]
  {
    hide AfterOp, Conserved, AfterAll, AllNew;
    held, events, steps := [], [], [];
    NothingYet(pool.policy);
    for i := 0 to |ops|
      invariant |steps| == |events| == i && forall k | 0 <= k < i :: steps[k].op == ops[k]
      invariant Ran(pool.Now(), held, events) == AfterAll(pool.policy, steps)
      invariant AllNew(pool.policy, steps) && Conserved(pool.policy, AfterAll(pool.policy, steps))
      invariant forall c | c in pool.available :: fresh(c)
      invariant forall c | c in held :: fresh(c)
      invariant forall k | 0 <= k < i && events[k] == Answer(NotConstructed) :: !constructs[k]
    {
      ghost var made, before := None, steps;
      held, events, made := Apply(pool, ops[i], constructs[i], held, events);
      steps := steps + [Step(ops[i], made)];
      OneMoreStep(pool.policy, before, steps[i]);
    }
  }

  method Apply(pool: ConnectionPool, op: Op, constructs: bool, held: seq<Connection>, events: seq<Event>)
    returns (nowHeld: seq<Connection>, nowEvents: seq<Event>, ghost made: Option<Connection>)
    requires Conserved(pool.policy, Ran(pool.Now(), held, events))
    modifies pool, set c | c in pool.available, set c | c in held
    ensures Ran(pool.Now(), nowHeld, nowEvents) == AfterOp(pool.policy, old(Ran(pool.Now(), held, events)), op, made)
    ensures Conserved(pool.policy, Ran(pool.Now(), nowHeld, nowEvents))
    ensures New(old(pool.Now()), made) && |nowEvents| == |events| + 1 && nowEvents[..|events|] == events
    ensures nowEvents[|events|] == Answer(NotConstructed) ==> !constructs
    ensures forall c | c in nowHeld :: fresh(c) || c in held || c in old(pool.available)
    ensures forall c | c in pool.available :: fresh(c) || c in held || c in old(pool.available)
  {
    hide AfterGet, AfterRelease, Conserved;
    ghost var was := Ran(pool.Now(), held, events);
    made := None;
    ConservedMeans(pool.policy, was);
    match op {
      case Get(a) =>
        var got;
        got, made := pool.GetConnection(constructs, a);
        GetPlaces(pool.policy, was.state, a, made);
        nowHeld := if got.Got? then held + [got.connection] else held;
        nowEvents := events + [Answer(got)];
      case GiveBack(index) =>
        if index < |held| {
          pool.Release(held[index]);
          nowHeld, nowEvents := held[..index] + held[index + 1..], events + [Returned];
        } else {
          nowHeld, nowEvents := held, events + [Ignored];
        }
    }
    OpConserves(pool.policy, was, op, made);
  }

  lemma ConservedMeans(p: Policy, r: Ran)
    requires Conserved(p, r)
    ensures Sane(p, r.state)
    ensures forall i | 0 <= i < |r.held| :: r.held[i] in r.state.inUse && r.held[i] !in r.state.available
  {
  }

  lemma NothingYet(p: Policy)
    ensures Conserved(p, Ran(EMPTY, [], [])) && AllNew(p, []) && AfterAll(p, []) == Ran(EMPTY, [], [])
  {
  }

  lemma OneMoreStep(p: Policy, steps: seq<Step>, last: Step)
    ensures AllNew(p, steps + [last]) <==> AllNew(p, steps) && New(AfterAll(p, steps).state, last.made)
    ensures AfterAll(p, steps + [last]) == AfterOp(p, AfterAll(p, steps), last.op, last.made)
  {
    hide AfterOp;
    assert (steps + [last])[..|steps|] == steps;
  }

  /** The connection that a get is about is an idle one or the new one. */
  lemma GetPlaces(p: Policy, s: State, a: Attempt, made: Option<Connection>)
    ensures var done := AfterGet(p, s, a, made);
            && (done.got.Got? ==> done.got.connection in s.available || made == Some(done.got.connection))
            && forall c | c in done.state.available :: c in s.available || made == Some(c)
  {
    if s.available != [] || (s.created < p.maxConnections && made.Some?) {
      var c, taken := Picked(s, made), AfterTake(s, made);
      assert s.available != [] ==> s.available == s.available[..|s.available| - 1] + [c];
      KeepsPlaces(p, taken, c, a.looks);
      var first := AfterConnect(p, taken, c, a.looks);
      KeepsPlaces(p, first.(links := first.links[c := LinkOf(first, c).(up := false)]), c, a.again);
      hide AfterConnect, Connects;
    }
  }

  lemma TwiceIff(cs: seq<Connection>, c: Connection)
    requires Distinct(cs)
    ensures Distinct(cs + [c]) <==> c !in cs
  {
    var all := cs + [c];
    if c in cs {
      var i :| 0 <= i < |cs| && cs[i] == c;
      assert all[i] == all[|cs|];
    }
  }
}
