/**
 Sending one keyed command to a cluster: the loop that follows redirections, and the loop
 around it that tries again after connection errors. What the network does is a script: one
 entry for each time the inner loop tries to send.
 */
module RedirectLoop {
  import opened Wrappers
  import opened ClusterSlots
  import opened SlotTable

  const REQUEST_TTL: nat := 16
  const CLUSTER_ERROR_RETRY_ATTEMPTS: nat := 3

  /** Exceptions; `exact` says that it is this class and not one derived from it. */
  datatype Failure =
    | AuthenticationError
    | ConnectionError(exact: bool)
    | TimeoutError(exact: bool)
    | ClusterDownError(exact: bool)
    | ResponseError
    | OtherError

  /** What happens to one attempt: no connection is obtained, or the command is sent and this comes back. */
  datatype Event =
    | NoConnection(error: Failure)
    | Replied
    | MovedTo(moved: Moved)
    | AskAt(target: Address)
    | TryAgain
    | Failed(error: Failure)

  /** An attempt, and what the startup nodes answer should they be asked because of it. */
  datatype Attempt = Attempt(event: Event, answers: map<Address, Answer>)

  datatype Ended =
    | Returned
    | Raised(failure: Failure)
    | Broken(error: SlotTable.Error)
    | UnknownNode
    | TtlExhausted

  /** One command that went out, whether ASKING went before it, and what came back. */
  datatype Sent = Sent(node: Address, asking: bool, event: Event)

  /** A connection taken from, or given back to, the pool of a node. */
  datatype PoolEvent = Took(pool: Address, connection: nat) | Gave(pool: Address, connection: nat)

  /** Each connection is taken from the pool of its node and given back to it once. */
  function TakenAndGiven(trace: seq<Sent>): seq<PoolEvent> {
    if trace == [] then []
    else
      var i := |trace| - 1;
      TakenAndGiven(trace[..i]) + [Took(trace[i].node, i), Gave(trace[i].node, i)]
  }

  predicate GotReply(trace: seq<Sent>) { trace != [] && trace[|trace| - 1].event.Replied? }

  predicate Redirection(event: Event) { event.MovedTo? || event.AskAt? || event.TryAgain? }

  /** The exceptions after which the outer loop tries again. */
  predicate Retryable(e: Ended) {
    && e.Raised?
    && (e.failure == ConnectionError(true) || e.failure == TimeoutError(true) || e.failure == ClusterDownError(true))
  }

  /** The local variables of the inner loop between two attempts. */
  datatype Locals = Locals(target: ClusterNode, redirect: Address, asking: bool, moved: bool)

  /** How an attempt went on: the loop goes around, or it ends; `sent` is the command if one was sent. */
  datatype Outcome = Outcome(ended: Option<Ended>, sent: Option<Sent>, pool: Option<Address>)

  // ---------------------------------------------------------------------------
  // Where the loop ends, told from the table and the script alone

  /** What of the table decides that: the slots it has, the nodes it knows, and a MOVED reply not worked in yet. */
  datatype Table = Table(slots: iset<int>, nodes: seq<Address>, startup: seq<Address>, oneDictionary: bool,
      moved: Option<Moved>, counter: nat)

  datatype Config = Config(reinitializeSteps: nat, requireFullCoverage: bool, dynamicStartupNodes: bool)

  /** A reply that is MOVED once more makes the table be read anew. */
  predicate ReloadDue(c: Config, t: Table) {
    c.reinitializeSteps != 0 && (t.counter + 1) % c.reinitializeSteps == 0
  }

  /** A look-up works a recorded MOVED reply into the table. */
  function Repair(t: Table): Table {
    match t.moved
    case None => t
    case Some(m) =>
      var nodes := t.nodes + if m.target in t.nodes then [] else [m.target];
      t.(nodes := nodes, startup := if t.oneDictionary then nodes else t.startup,
          moved := if m.slot in t.slots then None else t.moved)
  }

  lemma RepairIsNoReload(c: Config, t: Table)
    ensures ReloadDue(c, Repair(t)) <==> ReloadDue(c, t)
  {
  }

  predicate LookupWorks(t: Table, slot: int) {
    slot in t.slots && (t.moved.Some? ==> t.moved.value.slot in t.slots)
  }

  predicate ReloadWorks(c: Config, t: Table, answers: map<Address, Answer>) {
    InitializeResult(Asked(t.startup, answers, []), Reachable(t.startup, answers), c.requireFullCoverage).Ok?
  }

  /** Reading the table anew succeeds, and the first row with the slot names this node. */
  predicate Informs(c: Config, t: Table, slot: int, owner: Address, answers: map<Address, Answer>) {
    var all := Asked(t.startup, answers, []);
    ReloadWorks(c, t, answers) && Covered(all, slot) && all[FirstCover(all, slot)].primary == owner
  }

  ghost function Reload(c: Config, t: Table, answers: map<Address, Answer>): Table {
    var all := Asked(t.startup, answers, []);
    var nodes := Named(Mentions(all));
    Table((iset s | Covered(all, s)), nodes, if c.dynamicStartupNodes then nodes else t.startup, c.dynamicStartupNodes,
        None, 0)
  }

  /** The exceptions after which the whole table is read anew. */
  predicate Rereads(e: Failure) { e.ConnectionError? || e.TimeoutError? || e.ClusterDownError? }

  /** The table from which that is done: a node whose connection failed is no startup node any more. */
  function Suspected(t: Table, e: Failure, node: Address): Table {
    if e.ClusterDownError? then t
    else
      var startup := Dropped(t.startup, node);
      t.(startup := startup, nodes := if t.oneDictionary then startup else t.nodes)
  }

  /** The rows that are read after an exception at this node. */
  function RowsAfter(t: Table, e: Failure, node: Address, answers: map<Address, Answer>): seq<Section> {
    Asked(Suspected(t, e, node).startup, answers, [])
  }

  /** How the loop ends when the table cannot be read anew. */
  function Unread(c: Config, t: Table, answers: map<Address, Answer>): (r: Ended)
    ensures r.Broken? <==> !ReloadWorks(c, t, answers)
  {
    match InitializeResult(Asked(t.startup, answers, []), Reachable(t.startup, answers), c.requireFullCoverage)
    case Err(error) => Broken(error)
    case Ok(_) => TtlExhausted
  }

  /** An exception at this node goes on, unless reading the table anew raises another one. */
  function Failing(c: Config, t: Table, e: Failure, node: Address, answers: map<Address, Answer>): Ended {
    if Rereads(e) && !ReloadWorks(c, Suspected(t, e, node), answers) then Unread(c, Suspected(t, e, node), answers)
    else Raised(e)
  }

  ghost function AfterFailure(c: Config, t: Table, e: Failure, node: Address, answers: map<Address, Answer>): Table {
    if Rereads(e) then Reload(c, Suspected(t, e, node), answers).(counter := t.counter) else t
  }

  lemma ReloadIgnoresCounter(c: Config, t: Table, n: nat, answers: map<Address, Answer>)
    ensures Reload(c, t.(counter := n), answers) == Reload(c, t, answers)
    ensures ReloadWorks(c, t.(counter := n), answers) == ReloadWorks(c, t, answers)
    ensures Unread(c, t.(counter := n), answers) == Unread(c, t, answers)
  {
  }

  lemma ReloadedMoved(c: Config, t: Table, answers: map<Address, Answer>)
    ensures Reload(c, t, answers).moved == None
  {
  }

  /** The loop in front of a turn, or over. */
  datatype Turn = Turn(table: Table, asking: Option<Address>, moved: bool) | Over

  /** The node to send to is found: the one that ASK named, the one of a look-up, or the same as before. */
  predicate Finds(turn: Turn, slot: int)
    requires turn.Turn?
  {
    if turn.asking.Some? then turn.asking.value in turn.table.nodes
    else turn.moved ==> LookupWorks(turn.table, slot)
  }

  /** In this turn the command goes out. */
  predicate Sends(turn: Turn, slot: int, a: Attempt) {
    turn.Turn? && Finds(turn, slot) && !a.event.NoConnection?
  }

  function TableFor(turn: Turn): Table
    requires turn.Turn?
  {
    if turn.asking == None && turn.moved then Repair(turn.table) else turn.table
  }

  /** A redirection leads to another turn, unless it makes the table be read anew and that fails. */
  ghost function NextTurn(c: Config, turn: Turn, slot: int, a: Attempt): Turn {
    if Sends(turn, slot, a) then AfterEvent(c, TableFor(turn), turn.moved && turn.asking.Some?, a) else Over
  }

  ghost function AfterEvent(c: Config, t: Table, moved: bool, a: Attempt): Turn {
    match a.event
    case MovedTo(m) =>
      if !ReloadDue(c, t) then Turn(t.(moved := Some(m), counter := t.counter + 1), None, true)
      else if ReloadWorks(c, t, a.answers) then Turn(Reload(c, t, a.answers), None, true)
      else Over
    case TryAgain => Turn(t, None, moved)
    case AskAt(target) => Turn(t, Some(target), moved)
    case _ => Over
  }

  /** How a turn that is the last one ends: no node is found, or what comes back at this node ends the loop. */
  function EndOfTurn(c: Config, turn: Turn, slot: int, a: Attempt, node: Address): Ended
    requires turn.Turn?
  {
    if Finds(turn, slot) then Handled(c, TableFor(turn), a, node)
    else if turn.asking.Some? then UnknownNode
    else Broken(if LookupLost(turn.table) then KeyError else SlotNotCovered)
  }

  /** A recorded MOVED reply is for a slot that is not in the table. */
  predicate LookupLost(t: Table) { t.moved.Some? && t.moved.value.slot !in t.slots }

  function Handled(c: Config, t: Table, a: Attempt, node: Address): Ended {
    match a.event
    case NoConnection(e) => Failing(c, t, e, node, a.answers)
    case Failed(e) => Failing(c, t, e, node, a.answers)
    case Replied => Returned
    case MovedTo(_) => Unread(c, t, a.answers)
    case _ => TtlExhausted
  }

  ghost function TurnAt(c: Config, t: Table, slot: int, script: seq<Attempt>, k: nat): Turn
    requires k <= |script|
  {
    if k == 0 then Turn(t, None, false) else NextTurn(c, TurnAt(c, t, slot, script, k - 1), slot, script[k - 1])
  }

  /**
   Everything sent so far was redirected, at least once, and then nothing goes out although another
   turn is made: no connection is obtained, or no node is found.
   */
  ghost predicate EndsUnsent(c: Config, t: Table, slot: int, script: seq<Attempt>, k: nat)
    requires k < |script|
  {
    var turn := TurnAt(c, t, slot, script, k);
    turn.Turn? && !Sends(turn, slot, script[k])
  }

  ghost predicate GivesBackTwice(c: Config, t: Table, slot: int, script: seq<Attempt>) {
    exists k :: 0 < k < |script| && EndsUnsent(c, t, slot, script, k)
  }

  lemma {:induction false} SentBefore(c: Config, t: Table, slot: int, script: seq<Attempt>, k: nat, j: nat)
    requires j < k <= |script| && TurnAt(c, t, slot, script, k).Turn?
    ensures Sends(TurnAt(c, t, slot, script, j), slot, script[j]) && Redirection(script[j].event)
  {
    if j < k - 1 { SentBefore(c, t, slot, script, k - 1, j); }
  }

  /**
   A command that goes out up to turn n, and not in turn n, is given back twice exactly if there are
   turns 0 and n.
   */
  lemma UnsentIsLast(c: Config, t: Table, slot: int, script: seq<Attempt>, n: nat)
    requires n <= |script|
    requires forall k | 0 <= k < n :: Sends(TurnAt(c, t, slot, script, k), slot, script[k])
    requires n < |script| ==> !Sends(TurnAt(c, t, slot, script, n), slot, script[n])
    ensures GivesBackTwice(c, t, slot, script) <==> 0 < n < |script| && TurnAt(c, t, slot, script, n).Turn?
  {
    hide Sends, TurnAt;
    if k :| 0 < k < |script| && EndsUnsent(c, t, slot, script, k) {
      if k > n { SentBefore(c, t, slot, script, k, n); }
    }
    if 0 < n < |script| && TurnAt(c, t, slot, script, n).Turn? {
      assert EndsUnsent(c, t, slot, script, n);
    }
  }

  /** The smallest inputs: the node of the slot has changed, and the new one cannot be connected to. */
  lemma AskedThenUnreachable(c: Config, t: Table, slot: int, target: Address, error: Failure, script: seq<Attempt>)
    requires |script| >= 2 && target in t.nodes
    requires script[0].event == AskAt(target) && script[1].event == NoConnection(error)
    ensures EndsUnsent(c, t, slot, script, 1) && GivesBackTwice(c, t, slot, script)
    ensures TurnAt(c, t, slot, script, 1) == Turn(t, Some(target), false)
  {
    assert TurnAt(c, t, slot, script, 0) == Turn(t, None, false);
    assert EndsUnsent(c, t, slot, script, 1);
  }

  lemma MovedThenUnreachable(c: Config, t: Table, slot: int, target: Address, error: Failure, script: seq<Attempt>)
    requires |script| >= 2 && !ReloadDue(c, t) && LookupWorks(t, slot)
    requires script[0].event == MovedTo(Moved(slot, target)) && script[1].event == NoConnection(error)
    ensures EndsUnsent(c, t, slot, script, 1) && GivesBackTwice(c, t, slot, script)
  {
    assert TurnAt(c, t, slot, script, 0) == Turn(t, None, false);
    assert TurnAt(c, t, slot, script, 1).Turn?;
    assert EndsUnsent(c, t, slot, script, 1);
  }

  class RedisCluster {
    const nodesManager: NodesManager
    var reinitializeCounter: nat
    const reinitializeSteps: nat

    constructor (nodesManager: NodesManager, reinitializeSteps: nat)
      ensures this.nodesManager == nodesManager && this.reinitializeSteps == reinitializeSteps
    {
      this.nodesManager := nodesManager;
      this.reinitializeSteps := reinitializeSteps;
      reinitializeCounter := 0;
    }

    function Configured(): Config
      reads nodesManager
    {
      Config(reinitializeSteps, nodesManager.requireFullCoverage, nodesManager.dynamicStartupNodes)
    }

    ghost function TableNow(): Table
      reads this, nodesManager
    {
      var slots := iset s | s in nodesManager.slotsCache;
      Table(slots, nodesManager.nodesCache.order, nodesManager.startupNodes.order, nodesManager.oneDictionary,
            nodesManager.movedException, reinitializeCounter)
    }

    ghost function TurnNow(l: Locals): (r: Turn)
      reads this, nodesManager
      ensures r.Turn?
    {
      Turn(TableNow(), if l.asking then Some(l.redirect) else None, l.moved)
    }

    predicate ShouldReinitialize()
      reads this`reinitializeCounter
    {
      reinitializeSteps != 0 && reinitializeCounter % reinitializeSteps == 0
    }

    lemma TableAdopted(was: Table, answers: map<Address, Answer>)
      requires nodesManager.Adopted(Asked(was.startup, answers, []))
      requires nodesManager.movedException == None
      requires nodesManager.oneDictionary == nodesManager.dynamicStartupNodes
      requires nodesManager.startupNodes.order ==
                 if nodesManager.oneDictionary then nodesManager.nodesCache.order else was.startup
      ensures TableNow().(counter := 0) == Reload(Configured(), was, answers)
    {
      hide Asked, Covered, Mentions, Named, FirstCover, Disagreements, FullyCovered, Names, NodesOf, FirstRole;
      assert TableNow().slots == Reload(Configured(), was, answers).slots;
    }

    /** A MOVED reply is recorded for the next look-up, or every so often the whole table is read anew. */
    method PatchOrReload(m: Moved, answers: map<Address, Answer>) returns (r: Option<Ended>)
      requires nodesManager.Valid()
      modifies this, nodesManager, nodesManager.Objects()
      ensures nodesManager.Valid()
      ensures forall o | o in nodesManager.Objects() :: fresh(o) || o in old(nodesManager.Objects())
      ensures !ReloadDue(Configured(), old(TableNow())) ==>
                && r == None && nodesManager.slotsCache == old(nodesManager.slotsCache)
                && TableNow() == old(TableNow()).(moved := Some(m), counter := old(reinitializeCounter) + 1)
      ensures ReloadDue(Configured(), old(TableNow())) ==>
                if ReloadWorks(Configured(), old(TableNow()), answers) then
                  && r == None && TableNow() == Reload(Configured(), old(TableNow()), answers)
                  && nodesManager.Adopted(Asked(old(nodesManager.startupNodes.order), answers, []))
                else r == Some(Unread(Configured(), old(TableNow()), answers))
    {
      hide Asked, Reachable, NodesManager.Objects, NodesManager.Valid, InitializeResult, FirstCover, Covered,
           Disagreements, FullyCovered, Mentions, Named, NodesOf, Names;
      hide Reload, ReloadWorks, NodesManager.Adopted;
      nodesManager.Known();
      reinitializeCounter := reinitializeCounter + 1;
      ReloadIgnoresCounter(Configured(), old(TableNow()), reinitializeCounter, answers);
      if ShouldReinitialize() {
        r := ReadAnew(answers);
      } else {
        nodesManager.movedException := Some(m);
        r := None;
      }
    }

    /** The table is read anew, which may raise. */
    method ReadAnew(answers: map<Address, Answer>) returns (r: Option<Ended>)
      requires nodesManager.Valid()
      modifies this, nodesManager, nodesManager.Objects()
      ensures nodesManager.Valid()
      ensures forall o | o in nodesManager.Objects() :: fresh(o) || o in old(nodesManager.Objects())
      ensures if ReloadWorks(Configured(), old(TableNow()), answers) then
                && r == None && TableNow() == Reload(Configured(), old(TableNow()), answers)
                && nodesManager.Adopted(Asked(old(nodesManager.startupNodes.order), answers, []))
              else r == Some(Unread(Configured(), old(TableNow()), answers))
    {
      hide Asked, Reachable, NodesManager.Objects, NodesManager.Valid, InitializeResult, FirstCover, Covered,
           Disagreements, FullyCovered, Mentions, Named, NodesOf, Names;
      hide Reload;
      nodesManager.Known();
      ghost var was := TableNow();
      var initialized := nodesManager.Initialize(answers);
      if initialized.Err? {
        return Some(Broken(initialized.error));
      }
      TableAdopted(was, answers);
      reinitializeCounter := 0;
      r := None;
    }

    /** The table after an exception at this node: read anew where that is done, and else as before. */
    ghost predicate Reread(was: Table, e: Failure, node: Address, answers: map<Address, Answer>)
      reads this, nodesManager, nodesManager.nodesCache.node.Values, nodesManager.slotsCache.Values
    {
      && TableNow() == AfterFailure(Configured(), was, e, node, answers)
      && (Rereads(e) ==> nodesManager.Adopted(RowsAfter(was, e, node, answers)))
    }

    /** The handlers of all exceptions that end the loop; reading the table anew may raise another one. */
    method OnFailure(e: Failure, target: ClusterNode, answers: map<Address, Answer>) returns (r: Ended)
      requires nodesManager.Valid()
      modifies this, nodesManager, nodesManager.Objects(), target
      ensures nodesManager.Valid()
      ensures forall o | o in nodesManager.Objects() :: fresh(o) || o in old(nodesManager.Objects())
      ensures r == Failing(Configured(), old(TableNow()), e, target.name, answers)
      ensures r == Raised(e) || r.Broken?
      ensures r.Raised? ==> Reread(old(TableNow()), e, target.name, answers)
      ensures !Rereads(e) ==> unchanged(nodesManager)
      ensures e.ConnectionError? || e.TimeoutError? ==> !target.connected
    {
      hide Asked, Reachable, NodesManager.Objects, InitializeResult, Reload, Covered, NodesManager.Adopted, Names;
      nodesManager.Known();
      r := Raised(e);
      match e
      case ConnectionError(_) | TimeoutError(_) =>
        nodesManager.PopStartupNode(target.name);
        target.connected := false;
        r := AfterReread(e, answers);
      case ClusterDownError(_) =>
        r := AfterReread(e, answers);
      case _ =>
    }

    /** The table is read anew before the exception goes on, unless that raises another one. */
    method AfterReread(e: Failure, answers: map<Address, Answer>) returns (r: Ended)
      requires nodesManager.Valid()
      modifies nodesManager, nodesManager.Objects()
      ensures nodesManager.Valid()
      ensures forall o | o in nodesManager.Objects() :: fresh(o) || o in old(nodesManager.Objects())
      ensures r == if ReloadWorks(Configured(), old(TableNow()), answers) then Raised(e)
                   else Unread(Configured(), old(TableNow()), answers)
      ensures r.Raised? ==>
                && TableNow() == Reload(Configured(), old(TableNow()), answers).(counter := reinitializeCounter)
                && nodesManager.Adopted(Asked(old(nodesManager.startupNodes.order), answers, []))
      ensures forall n | n in old(nodesManager.nodesCache).node.Values && !old(n.connected)
                         && n !in old(nodesManager.startupNodes).node.Values :: !n.connected
      ensures forall n: ClusterNode | old(allocated(n)) && n !in old(nodesManager.nodesCache).node.Values
                                      && n !in old(nodesManager.startupNodes).node.Values ::
                                          n.connected == old(n.connected)
    {
      hide Asked, Reachable, NodesManager.Objects, InitializeResult, Reload, Covered, Named, Mentions, Names;
      nodesManager.Known();
      ghost var was := TableNow();
      var initialized := nodesManager.Initialize(answers);
      if initialized.Err? {
        return Broken(initialized.error);
      }
      TableAdopted(was, answers);
      r := Raised(e);
    }

    /** The next look-up of the slot, which works in a recorded MOVED reply first, gives this node. */
    ghost predicate Pointed(slot: int, owner: Address)
      reads nodesManager, nodesManager.slotsCache.Values
    {
      && slot in nodesManager.slotsCache
      && (nodesManager.movedException.Some? ==> nodesManager.movedException.value.slot in nodesManager.slotsCache)
      && nodesManager.Repaired(slot) != [] && nodesManager.Repaired(slot)[0] == owner
    }

    lemma RecordedPoints(slot: int, owner: Address)
      requires nodesManager.Valid() && slot in nodesManager.slotsCache
      requires nodesManager.movedException == Some(Moved(slot, owner))
      ensures Pointed(slot, owner)
    {
    }

    lemma AdoptedPoints(slot: int, owner: Address, all: seq<Section>)
      requires nodesManager.Adopted(all) && nodesManager.movedException == None
      requires Covered(all, slot) && all[FirstCover(all, slot)].primary == owner
      ensures Pointed(slot, owner)
    {
      hide Mentions, NodesRead, Disagreements, FullyCovered, Names;
    }

    /** The handler of MovedError. */
    method OnMoved(m: Moved, answers: map<Address, Answer>) returns (r: Option<Ended>)
      requires nodesManager.Valid()
      modifies this, nodesManager, nodesManager.Objects()
      ensures nodesManager.Valid()
      ensures forall o | o in nodesManager.Objects() :: fresh(o) || o in old(nodesManager.Objects())
      ensures r.Some? ==> r.value.Broken? && r.value == Unread(Configured(), old(TableNow()), answers)
      ensures var next := AfterEvent(Configured(), old(TableNow()), false, Attempt(MovedTo(m), answers));
              (r == None <==> next.Turn?) && (r == None ==> next == Turn(TableNow(), None, true))
      ensures m.slot in old(nodesManager.slotsCache)
              && (ReloadDue(Configured(), old(TableNow())) ==>
                  Informs(Configured(), old(TableNow()), m.slot, m.target, answers))
              ==> r == None && Pointed(m.slot, m.target)
    {
      hide Asked, Reachable, NodesManager.Objects, NodesManager.Valid, NodesManager.Adopted, InitializeResult, Pointed,
           FirstCover, Covered, Reload, ReloadDue, ReloadWorks;
      ghost var was := TableNow();
      r := PatchOrReload(m, answers);
      if ReloadDue(Configured(), was) {
        if Informs(Configured(), was, m.slot, m.target, answers) {
          ReloadedMoved(Configured(), was, answers);
          AdoptedPoints(m.slot, m.target, Asked(was.startup, answers, []));
        }
      } else if m.slot in nodesManager.slotsCache {
        RecordedPoints(m.slot, m.target);
      }
    }

    /** The primary of the slot, after a recorded MOVED reply has been worked in. */
    method LookUp(slot: int) returns (r: SlotTable.Result<ClusterNode>)
      requires nodesManager.Valid()
      modifies nodesManager, nodesManager.Touched()
      ensures nodesManager.Valid() && nodesManager.slotsCache.Keys == old(nodesManager.slotsCache).Keys
      ensures forall x | x in nodesManager.Objects() :: fresh(x) || x in old(nodesManager.Objects())
      ensures r.Ok? <==> LookupWorks(old(TableNow()), slot)
      ensures r.Err? ==> r.error == if LookupLost(old(TableNow())) then KeyError else SlotNotCovered
      ensures r.Ok? ==> TableNow() == Repair(old(TableNow()))
      ensures r.Ok? ==>
                && slot in nodesManager.slotsCache && nodesManager.Row(slot) == old(nodesManager.Repaired(slot)) != []
                && r.value.name == nodesManager.Row(slot)[0] && r.value in nodesManager.Objects()
    {
      hide NodesManager.Objects, NodesManager.PatchedRow, NodesManager.Touched, Names;
      nodesManager.Known();
      r := nodesManager.GetNodeFromSlot(slot, false, 0);
      if r.Ok? {
        nodesManager.Known();
        nodesManager.HeadIs(slot);
      }
    }

    /** Where to send: the node an ASK reply named, the node a fresh look-up gives, or the same node again. */
    method ChooseTarget(l: Locals, slot: int) returns (next: Locals, ended: Option<Ended>)
      requires nodesManager.Valid()
      modifies nodesManager, nodesManager.Touched()
      ensures nodesManager.Valid()
      ensures forall x | x in nodesManager.Objects() :: fresh(x) || x in old(nodesManager.Objects())
      ensures next.target == l.target || fresh(next.target) || next.target in old(nodesManager.Objects())
      ensures next.redirect == l.redirect && next.asking == l.asking
                && (next.moved <==> l.moved && (l.asking || ended.Some?))
      ensures ended.Some? ==> ended.value.UnknownNode? || ended.value.Broken?
      ensures ended == None <==> Finds(old(TurnNow(l)), slot)
      ensures ended.Some? ==> forall c, a, node :: ended.value == EndOfTurn(c, old(TurnNow(l)), slot, a, node)
      ensures ended == None ==> TableNow() == TableFor(old(TurnNow(l)))
      ensures l.asking ==>
                && (ended == None <==> l.redirect in nodesManager.nodesCache.node)
                && (ended == None ==>
                     next.target == nodesManager.nodesCache.node[l.redirect] && next.target.name == l.redirect)
                && (ended.Some? ==> ended.value.UnknownNode?)
      ensures !l.asking && l.moved ==>
                && (ended.Some? ==> ended.value.Broken?)
                && forall owner :: old(Pointed(slot, owner)) ==>
                     ended == None && next.target.name == owner && Heads(slot, owner)
      ensures !l.asking && !l.moved ==> ended == None && next == l
      ensures l.asking || !l.moved ==> unchanged(nodesManager) && unchanged(old(nodesManager.Touched()))
      ensures nodesManager.slotsCache.Keys == old(nodesManager.slotsCache).Keys
    {
      hide NodesManager.Objects, NodesManager.PatchedRow, NodesManager.Touched, Names;
      next, ended := l, None;
      ghost var was := TableNow();
      nodesManager.Known();
      if l.asking {
        if l.redirect in nodesManager.nodesCache.node {
          next := next.(target := nodesManager.nodesCache.node[l.redirect]);
        } else {
          ended := Some(UnknownNode);
        }
      } else if l.moved {
        var looked := LookUp(slot);
        if looked.Err? {
          ended := Some(Broken(looked.error));
        } else {
          next := next.(target := looked.value, moved := false);
        }
      }
    }

    /** Sends the command, with ASKING before it if an ASK reply came last, and handles what comes back. */
    method Send(l: Locals, attempt: Attempt) returns (next: Locals, ended: Option<Ended>)
      requires nodesManager.Valid()
      modifies this, nodesManager, nodesManager.Objects(), l.target
      ensures nodesManager.Valid()
      ensures forall x | x in nodesManager.Objects() :: fresh(x) || x in old(nodesManager.Objects())
      ensures next.target == l.target
      ensures ended == None ==> Redirection(attempt.event) && (next.asking <==> attempt.event.AskAt?)
      ensures ended == Some(Returned) <==> attempt.event.Replied?
      ensures ended.Some? ==> !ended.value.TtlExhausted? && !ended.value.UnknownNode?
      ensures ended.Some? && ended.value.Raised? ==>
                (attempt.event.Failed? && attempt.event.error == ended.value.failure)
                    || (attempt.event.NoConnection? && attempt.event.error == ended.value.failure)
      ensures ended.Some? ==> ended.value == Handled(Configured(), old(TableNow()), attempt, l.target.name)
      ensures ended.Some? && ended.value.Raised? ==>
                Reread(old(TableNow()), ended.value.failure, l.target.name, attempt.answers)
      ensures attempt.event.AskAt? ==>
                ended == None && next.asking && next.redirect == attempt.event.target && next.moved == l.moved
      ensures attempt.event.TryAgain? ==> ended == None && next == l.(asking := false)
      ensures attempt.event.Replied? ==> unchanged(nodesManager) && forall s | s in nodesManager.slotsCache ::
                nodesManager.Row(s) == old(nodesManager.Row(s))
      ensures attempt.event.MovedTo? ==> next.moved && !next.asking
      ensures var turn := AfterEvent(Configured(), old(TableNow()), l.moved, attempt);
              (ended == None <==> turn.Turn?) && (ended == None ==> TurnNow(next) == turn)
      ensures attempt.event.MovedTo? ==>
                var m := attempt.event.moved;
                m.slot in old(nodesManager.slotsCache)
                && (ReloadDue(Configured(), old(TableNow())) ==>
                    Informs(Configured(), old(TableNow()), m.slot, m.target, attempt.answers))
                ==> ended == None && Pointed(m.slot, m.target)
    {
      hide NodesManager.Objects, NodesManager.Valid, InitializeResult, Asked, Reachable, Covered, FirstCover, Pointed,
           ReloadDue, ReloadWorks, Reload, Informs, Names, Reread, Failing, Unread;
      next, ended := l, None;
      next.target.connected := true;
      match attempt.event
      case NoConnection(e) =>
        var failed := OnFailure(e, next.target, attempt.answers);
        ended := Some(failed);
      case Replied =>
        next := next.(asking := false);
        ended := Some(Returned);
      case MovedTo(m) =>
        ended := OnMoved(m, attempt.answers);
        next := next.(asking := false, moved := true);
      case TryAgain =>
        next := next.(asking := false);
      case AskAt(target) =>
        next := next.(redirect := target, asking := true);
      case Failed(e) =>
        var failed := OnFailure(e, next.target, attempt.answers);
        ended := Some(failed);
    }

    /** One turn of the loop. */
    method TryOnce(l: Locals, slot: int, attempt: Attempt) returns (next: Locals, o: Outcome)
      requires nodesManager.Valid()
      modifies this, nodesManager, nodesManager.Objects(), l.target
      ensures nodesManager.Valid()
      ensures forall x | x in nodesManager.Objects() :: fresh(x) || x in old(nodesManager.Objects())
      ensures next.target == l.target || fresh(next.target) || next.target in old(nodesManager.Objects())
      // a command that went out met the event of the script, with ASKING and at the named node after an ASK reply
      ensures o.sent.Some? ==>
                o.sent.value.event == attempt.event && o.pool == Some(o.sent.value.node)
                && o.sent.value.asking == l.asking
      ensures o.sent.Some? && l.asking ==> o.sent.value.node == l.redirect
      ensures attempt.event.NoConnection? ==> o.sent == None
      ensures o.sent == None ==> o.ended.Some? && (o.pool.Some? ==> attempt.event.NoConnection?)
      // where it ends, told from the table and the script
      ensures o.sent.Some? <==> Sends(old(TurnNow(l)), slot, attempt)
      ensures o.pool.Some? <==> Finds(old(TurnNow(l)), slot)
      ensures o.pool.Some? && l.asking ==> o.pool.value == l.redirect
      ensures var turn := NextTurn(Configured(), old(TurnNow(l)), slot, attempt);
              (o.ended == None <==> turn.Turn?) && (o.ended == None ==> TurnNow(next) == turn)
      ensures attempt.event.AskAt? && o.ended == None ==> next.asking && next.redirect == attempt.event.target
      // redirections go around again, a reply ends the loop
      ensures o.ended == None ==> Redirection(attempt.event) && (next.asking <==> attempt.event.AskAt?)
      ensures o.ended == Some(Returned) <==> o.sent.Some? && attempt.event.Replied?
      ensures o.ended.Some? ==> !o.ended.value.TtlExhausted? && (o.ended.value.UnknownNode? ==> o.sent == None)
      ensures o.ended.Some? && o.ended.value.Raised? ==>
                o.pool.Some? && (attempt.event.Failed? || attempt.event.NoConnection?)
                    && attempt.event.error == o.ended.value.failure
      ensures o.ended.Some? && o.ended.value.Raised? ==>
                Reread(TableFor(old(TurnNow(l))), o.ended.value.failure, o.pool.value, attempt.answers)
      ensures !l.asking && !l.moved ==> o.pool == Some(l.target.name)
      ensures o.ended.Some? ==>
                forall node | o.pool == None || o.pool == Some(node) ::
                  o.ended.value == EndOfTurn(Configured(), old(TurnNow(l)), slot, attempt, node)
      // the table: followed, and left pointing at the node that a MOVED reply named
      ensures !l.asking && !l.moved && !attempt.event.NoConnection? ==>
                o.sent.Some? && o.sent.value.node == l.target.name
      ensures !l.asking && !l.moved && attempt.event.Replied? ==>
                unchanged(nodesManager) && forall s | s in nodesManager.slotsCache ::
                    nodesManager.Row(s) == old(nodesManager.Row(s))
      ensures forall owner | old(Pointed(slot, owner)) && !l.asking && l.moved && !attempt.event.NoConnection? ::
                && o.sent.Some? && o.sent.value.node == owner
                && (attempt.event.Replied? ==> Heads(slot, owner))
      ensures !l.asking && !l.moved && attempt.event.MovedTo? ==>
                var m := attempt.event.moved;
                m.slot in old(nodesManager.slotsCache)
                && (ReloadDue(Configured(), old(TableNow())) ==>
                    Informs(Configured(), old(TableNow()), m.slot, m.target, attempt.answers))
                ==> o.ended == None && next.moved && !next.asking && Pointed(m.slot, m.target)
    {
      hide NodesManager.Objects, NodesManager.Valid, InitializeResult, Asked, Reachable, Covered, FirstCover, Pointed,
           ReloadDue, ReloadWorks, Reload, Informs, AfterEvent, Names, NodesManager.Touched, Reread, Handled;
      nodesManager.Known();
      var ended;
      next, ended := ChooseTarget(l, slot);
      if ended.Some? {
        return next, Outcome(ended, None, None);
      }
      var node := next.target.name;
      assert !l.asking && !l.moved ==> forall s | s in nodesManager.slotsCache ::
             nodesManager.Row(s) == old(nodesManager.Row(s));
      next, ended := Send(next, attempt);
      o := Outcome(ended, if attempt.event.NoConnection? then None else Some(Sent(node, l.asking, attempt.event)),
          Some(node));
    }

    /** The table has the slot, the command goes to the node it names, and reloading would tell the truth. */
    ghost predicate Ready(target: Address, slot: int, owner: Address, script: seq<Attempt>)
      reads this, nodesManager, nodesManager.slotsCache.Values
    {
      && Heads(slot, target)
      && |script| >= 2 && !script[0].event.NoConnection? && !script[1].event.NoConnection?
      && (ReloadDue(Configured(), TableNow()) ==> Informs(Configured(), TableNow(), slot, owner, script[0].answers))
    }

    /** The slot is in the table, and this node heads its list. */
    ghost predicate Heads(slot: int, node: Address)
      reads nodesManager, nodesManager.slotsCache.Values
    {
      slot in nodesManager.slotsCache && nodesManager.Row(slot) != [] && nodesManager.Row(slot)[0] == node
    }

    /**
     _execute_command for a command with keys in one slot. `stray` is the release of a connection
     that was given back before.
     */
    method ExecuteCommand(target: ClusterNode, slot: int, script: seq<Attempt>, ghost owner: Address)
      returns (r: Ended, trace: seq<Sent>, log: seq<PoolEvent>, ghost stray: seq<PoolEvent>, ghost last: Address)
      requires nodesManager.Valid() && |script| == REQUEST_TTL
      modifies this, nodesManager, nodesManager.Objects(), target
      ensures nodesManager.Valid()
      ensures forall x | x in nodesManager.Objects() :: fresh(x) || x in old(nodesManager.Objects())
      // at most sixteen sends, and where it ends
      ensures Ends(Configured(), old(TableNow()), slot, script, r, trace, stray)
      ensures trace != [] ==> trace[0].node == target.name
      // after an exception at the node `last` the table has been read anew, where that is done
      ensures r.Raised? ==> RaisedAndReread(old(TableNow()), slot, script, trace, r.failure, last)
      ensures trace == [] ==> last == target.name
      ensures ResultIs(Configured(), old(TableNow()), slot, script, r, trace, last)
      // every connection goes back once to where it came from, but for `stray`
      ensures log == TakenAndGiven(trace) + stray
      // with truthful nodes the owner is found in two sends
      ensures old(Ready(target.name, slot, owner, script)) && Truthful(trace, slot, owner) ==>
                r == Returned && |trace| <= 2 && Heads(slot, owner)
    {
      hide NodesManager.Objects, NodesManager.Valid, Looping, Following, TakenAndGiven, FollowsScript, AsksOnce,
           Truthful;
      hide NextTurn, TurnAt, Sends, Ends, EndedIn, ResultIs, EndOfTurn;
      var l := Locals(target, target.name, false, false);
      var connection: Option<nat>, redisNode := None, target.name;
      var ttl := REQUEST_TTL;
      trace, log, stray, last := [], [], [], target.name;
      ghost var table := TableNow();
      ghost var safe := Ready(target.name, slot, owner, script);
      StartsLooping(l, script, target, slot, owner);
      ghost var config := Configured();
      GetsStarted(config, table, slot, script);
      assert TurnNow(l) == Turn(table, None, false);
      hide TurnNow, TableNow, Ready, GotTo, Heads, PoolOf, Reread, RaisedAndReread;
      while ttl > 0
        invariant nodesManager.Valid()
        invariant forall x | x in nodesManager.Objects() :: fresh(x) || x in old(nodesManager.Objects())
        invariant l.target == target || fresh(l.target) || l.target in old(nodesManager.Objects())
        invariant 0 <= ttl <= REQUEST_TTL && |trace| == REQUEST_TTL - ttl
        invariant Looping(l, trace, script, target) && (safe ==> Following(l, trace, script, slot, owner))
        invariant connection == (if trace == [] then None else Some(|trace| - 1)) && log == TakenAndGiven(trace)
                    && stray == []
        invariant trace != [] ==> redisNode == trace[|trace| - 1].node && trace[0].node == target.name
        invariant GotTo(config, table, slot, script, |trace|, TurnNow(l))
      {
        ghost var before, turn := trace, TurnNow(l);
        var o;
        l, o := NextTry(l, slot, script, trace, target, owner, safe);
        ttl := ttl - 1;
        trace, log, connection, redisNode, stray := GiveBack(o, trace, log, connection, redisNode);
        if o.ended.Some? {
          r := o.ended.value;
          EndsAt(config, table, slot, script, r, before, turn, o, stray);
          last := redisNode;
          ResultAt(config, table, slot, script, r, before, turn, o, last);
          RaisesAt(table, slot, script, r, before, turn, o);
          return;
        }
        GetsFurther(config, table, slot, script, |before|, turn);
      }
      r := TtlExhausted;
      LoopingEnds(l, trace, script, target, slot, owner);
      ExhaustedEnds(config, table, slot, script, trace, TurnNow(l));
      last := redisNode;
    }

    /** The exception was met at this node, and the table has been read anew since, where that is done. */
    ghost predicate RaisedAndReread(t: Table, slot: int, script: seq<Attempt>, trace: seq<Sent>, e: Failure,
        node: Address)
      reads this, nodesManager, nodesManager.nodesCache.node.Values, nodesManager.slotsCache.Values
    {
      && RaisedIn(Configured(), t, slot, script, trace, e, node)
      && Reread(TableFor(TurnAt(Configured(), t, slot, script, TurnOf(trace))), e, node, script[TurnOf(trace)].answers)
    }

    lemma RaisesAt(t: Table, slot: int, script: seq<Attempt>, r: Ended, before: seq<Sent>, turn: Turn, o: Outcome)
      requires |before| < |script| && GotTo(Configured(), t, slot, script, |before|, turn)
      requires EndedIn(script, r, before, o) && PoolOf(turn, slot, o.pool)
      requires o.sent.Some? ==> o.pool == Some(o.sent.value.node)
      requires r.Raised? ==> o.pool.Some? && Reread(TableFor(turn), r.failure, o.pool.value, script[|before|].answers)
      ensures r.Raised? ==>
                RaisedAndReread(t, slot, script, if o.sent.Some? then before + [o.sent.value] else before, r.failure,
                    o.pool.value)
    {
      hide EndedIn, PoolOf, TurnAt, Reread;
      RaisedAt(Configured(), t, slot, script, r, before, turn, o);
    }

    lemma StartsLooping(l: Locals, script: seq<Attempt>, target: ClusterNode, slot: int, owner: Address)
      requires l == Locals(target, target.name, false, false) && script != []
      ensures Looping(l, [], script, target) && TakenAndGiven([]) == []
      ensures Ready(target.name, slot, owner, script) ==> Following(l, [], script, slot, owner)
    {
      NothingSent(script);
    }

    lemma LoopingEnds(l: Locals, trace: seq<Sent>, script: seq<Attempt>, target: ClusterNode, slot: int, owner: Address)
      requires Looping(l, trace, script, target) && trace != []
      ensures FollowsScript(trace, script) && AsksOnce(trace) && Redirection(trace[|trace| - 1].event)
                && !GotReply(trace)
      ensures Following(l, trace, script, slot, owner) && |trace| >= 2 ==> !Truthful(trace, slot, owner)
    {
    }

    /** Truthful nodes have sent the loop to the owner by the second turn. */
    ghost predicate Following(l: Locals, trace: seq<Sent>, script: seq<Attempt>, slot: int, owner: Address)
      reads this, nodesManager, nodesManager.slotsCache.Values
    {
      && (trace == [] ==> Ready(l.target.name, slot, owner, script))
      && |script| >= 2 && !script[0].event.NoConnection? && !script[1].event.NoConnection?
      && (|trace| == 1 && Truthful(trace, slot, owner) ==> l.moved && !l.asking && Pointed(slot, owner))
      && (|trace| >= 2 ==> !Truthful(trace, slot, owner))
    }

    /** The next turn of the loop, with what has been sent so far. */
    method NextTry(l: Locals, slot: int, script: seq<Attempt>, trace: seq<Sent>, ghost first: ClusterNode,
        ghost owner: Address, ghost safe: bool)
      returns (next: Locals, o: Outcome)
      requires nodesManager.Valid() && |trace| < |script| && 2 <= |script|
      requires Looping(l, trace, script, first) && (safe ==> Following(l, trace, script, slot, owner))
      modifies this, nodesManager, nodesManager.Objects(), l.target
      ensures nodesManager.Valid()
      ensures forall x | x in nodesManager.Objects() :: fresh(x) || x in old(nodesManager.Objects())
      ensures next.target == l.target || fresh(next.target) || next.target in old(nodesManager.Objects())
      ensures o.sent.Some? ==> o.pool == Some(o.sent.value.node)
      ensures o.sent.Some? <==> Sends(old(TurnNow(l)), slot, script[|trace|])
      ensures PoolOf(old(TurnNow(l)), slot, o.pool)
      ensures trace == [] ==> o.pool == Some(first.name)
      ensures o.ended.Some? ==>
                forall node | o.pool == None || o.pool == Some(node) ::
                  o.ended.value == EndOfTurn(Configured(), old(TurnNow(l)), slot, script[|trace|], node)
      ensures o.ended.Some? && o.ended.value.Raised? ==>
                && o.pool.Some?
                && Reread(TableFor(old(TurnNow(l))), o.ended.value.failure, o.pool.value, script[|trace|].answers)
      ensures var turn := NextTurn(Configured(), old(TurnNow(l)), slot, script[|trace|]);
              (o.ended == None <==> turn.Turn?) && (o.ended == None ==> TurnNow(next) == turn)
      ensures var more := if o.sent.Some? then trace + [o.sent.value] else trace;
              && (o.ended == None ==>
                    o.sent.Some? && Looping(next, more, script, first)
                        && (safe ==> Following(next, more, script, slot, owner)))
              && (o.ended.Some? ==>
                    && EndedIn(script, o.ended.value, trace, o)
                    && (safe && Truthful(more, slot, owner) ==>
                          o.ended.value == Returned && |more| <= 2 && Heads(slot, owner)))
    {
      hide NodesManager.Objects, NodesManager.Valid, Informs, Pointed, ReloadDue, Names, FollowsScript, AsksOnce,
           Truthful;
      hide NextTurn, TableNow, Looping, EndedIn, Reread, EndOfTurn;
      LoopingStarts(l, trace, script, first);
      next, o := TryOnce(l, slot, script[|trace|]);
      LoopsOn(l, next, trace, script, first, o);
      if o.sent.Some? { TruthfulSnoc(trace, o.sent.value, slot, owner); }
      TruthfulNone(slot, owner);
    }

    /**
     _internal_execute_command for a command with keys in one slot and no target nodes given:
     up to four runs of the inner loop. None would mean that the loop ends without a result.
     */
    method InternalExecuteCommand(slot: int, scripts: seq<seq<Attempt>>, ghost owner: Address)
      returns (r: Option<Ended>, traces: seq<seq<Sent>>, ghost tables: seq<Table>, ghost last: seq<Address>)
      requires nodesManager.Valid()
      requires |scripts| == 1 + CLUSTER_ERROR_RETRY_ATTEMPTS
      requires forall i | 0 <= i < |scripts| :: |scripts[i]| == REQUEST_TTL
      modifies this, nodesManager, nodesManager.Objects()
      ensures nodesManager.Valid()
      // it returns or raises, after at most four runs of at most sixteen sends
      ensures r.Some? && |traces| <= 1 + CLUSTER_ERROR_RETRY_ATTEMPTS
      ensures forall i | 0 <= i < |traces| :: IsRun(traces[i], scripts[i])
      // no run is made exactly when the first look-up fails
      ensures traces == [] <==> !LookupWorks(old(TableNow()), slot)
      ensures traces == [] ==> r == Some(Broken(if LookupLost(old(TableNow())) then KeyError else SlotNotCovered))
      ensures traces != [] && traces[0] != [] ==> old(PrimaryOf(slot)) == Some(traces[0][0].node)
      // another run starts from the table that the exception before it made the client read anew, at the primary of
      // the first row with the slot
      ensures Chained(Configured(), Repair(old(TableNow())), slot, scripts, traces, tables, last)
      // each run but the last one ended as its table and script say, with an exception that allows another
      ensures forall i | 0 <= i < |traces| - 1 ::
                RetriedRun(Configured(), tables[i], slot, scripts[i], traces[i], last[i])
      // and the end is that of the last one, or that the slot is in no row that was read after it
      ensures traces != [] ==>
                var n := |traces| - 1;
                || EndsRun(Configured(), tables[n], slot, scripts[n], r.value, traces[n], last[n])
                || (n + 1 < |scripts| && RetriedRun(Configured(), tables[n], slot, scripts[n], traces[n], last[n])
                    && r == Some(Broken(SlotNotCovered))
                    && Uncovered(Configured(), slot, tables[n], scripts[n], traces[n], last[n]))
      // an exception that allows another try is raised by the last one only
      ensures r.value in AllowRetry() ==> |traces| == 1 + CLUSTER_ERROR_RETRY_ATTEMPTS
      // a reply is returned at once, and only a reply is
      ensures r.value == Returned <==> traces != [] && GotReply(traces[|traces| - 1])
      ensures forall i | 0 <= i < |traces| - 1 :: !GotReply(traces[i])
      // truthful nodes: from any table that has the slot, two sends are enough and the owner is at the head
      ensures old(CanFollow(slot, owner, scripts[0])) && (traces != [] ==> Truthful(traces[0], slot, owner))
              ==> r == Some(Returned) && |traces| == 1 && |traces[0]| <= 2 && Heads(slot, owner)
    {
      hide NodesManager.Objects, NodesManager.Valid, FirstCover, Covered, TurnAt, Sends, FollowsScript,
           AsksOnce, Truthful, GotReply, Ends, IsRun, EndsRun, RetriedRun, Uncovered, LookupWorks, LookupLost,
           CanFollow, Heads, PrimaryOf, RaisedIn, Reread, Pending, Chained, Link, Repair, AfterFailure,
           RowsAfter, Retryable, AllowRetry;
      r, traces, tables, last := None, [], [], [];
      ghost var config, first := Configured(), TableNow();
      ghost var able, primary := CanFollow(slot, owner, scripts[0]), PrimaryOf(slot);
      NothingChained(config, Repair(first), slot, scripts);
      assert able ==> LookupWorks(first, slot) by { if able { CanFollowFinds(slot, owner, scripts[0]); } }
      hide TableNow;
      var retryAttempts := CLUSTER_ERROR_RETRY_ATTEMPTS;
      for i := 0 to 1 + CLUSTER_ERROR_RETRY_ATTEMPTS
        invariant nodesManager.Valid() && r == None && Configured() == config
        invariant forall x | x in nodesManager.Objects() :: fresh(x) || x in old(nodesManager.Objects())
        invariant |traces| == |tables| == |last| == i == CLUSTER_ERROR_RETRY_ATTEMPTS - retryAttempts
        invariant retryAttempts >= 0
        invariant forall j | 0 <= j < i ::
                    && !GotReply(traces[j]) && IsRun(traces[j], scripts[j])
                    && RetriedRun(config, tables[j], slot, scripts[j], traces[j], last[j])
        invariant i == 0 ==> TableNow() == first && CanFollow(slot, owner, scripts[0]) == able
        invariant i == 0 ==> PrimaryOf(slot) == primary
        invariant i > 0 ==> LookupWorks(first, slot) && (traces[0] != [] ==> primary == Some(traces[0][0].node))
        invariant i > 0 && able ==> !Truthful(traces[0], slot, owner)
        invariant Chained(config, Repair(first), slot, scripts, traces, tables, last)
        invariant i > 0 ==> Pending(slot, tables[i - 1], scripts[i - 1], traces[i - 1], last[i - 1])
      {
        ghost var now, ahead := TableNow(), PrimaryOf(slot);
        if i > 0 { PendingLinks(slot, tables[i - 1], scripts[i - 1], traces[i - 1], last[i - 1]); }
        var ended, trace;
        ghost var stray, node;
        ended, trace, stray, node := OneRun(slot, scripts[i], owner);
        assert Configured() == config;
        if trace == None {
          BrokenIsFinal(ended);
          return Some(ended), traces, tables, last;
        }
        EndsMeans(config, Repair(now), slot, scripts[i], ended, trace.value, stray);
        Retried(config, Repair(now), slot, scripts[i], ended, trace.value, node);
        OneMoreLink(config, Repair(first), slot, scripts, traces, tables, last, trace.value, Repair(now), node);
        traces, tables, last := traces + [trace.value], tables + [Repair(now)], last + [node];
        if retryAttempts > 0 && Retryable(ended) {
          retryAttempts := retryAttempts - 1;
        } else {
          return Some(ended), traces, tables, last;
        }
      }
    }

    lemma CanFollowFinds(slot: int, owner: Address, script: seq<Attempt>)
      requires |script| == REQUEST_TTL && CanFollow(slot, owner, script)
      ensures LookupWorks(TableNow(), slot)
    {
    }

    /** The node that a look-up of the slot gives. */
    ghost function PrimaryOf(slot: int): Option<Address>
      reads nodesManager, nodesManager.slotsCache.Values
    {
      if slot in nodesManager.slotsCache && nodesManager.Repaired(slot) != [] then Some(nodesManager.Repaired(slot)[0])
          else None
    }

    /** One run of the inner loop, at the primary of the slot; none when the look-up fails. */
    method OneRun(slot: int, script: seq<Attempt>, ghost owner: Address)
      returns (ended: Ended, trace: Option<seq<Sent>>, ghost stray: seq<PoolEvent>, ghost last: Address)
      requires nodesManager.Valid() && |script| == REQUEST_TTL
      modifies this, nodesManager, nodesManager.Objects()
      ensures nodesManager.Valid()
      ensures forall x | x in nodesManager.Objects() :: fresh(x) || x in old(nodesManager.Objects())
      ensures trace.Some? <==> LookupWorks(old(TableNow()), slot)
      ensures trace == None ==> ended == Broken(if LookupLost(old(TableNow())) then KeyError else SlotNotCovered)
      ensures trace.Some? ==> Ends(Configured(), Repair(old(TableNow())), slot, script, ended, trace.value, stray)
      ensures trace.Some? ==> EndsRun(Configured(), Repair(old(TableNow())), slot, script, ended, trace.value, last)
      ensures trace.Some? && trace.value != [] ==> old(PrimaryOf(slot)) == Some(trace.value[0].node)
      ensures trace.Some? && ended.Raised? && Rereads(ended.failure) ==>
                Pending(slot, Repair(old(TableNow())), script, trace.value, last)
      ensures old(CanFollow(slot, owner, script)) && trace.Some? && Truthful(trace.value, slot, owner) ==>
                ended == Returned && |trace.value| <= 2 && Heads(slot, owner)
    {
      hide NodesManager.Objects, NodesManager.Valid, ReloadDue, Informs, TurnAt, Sends, Truthful, TakenAndGiven,
           NodesManager.PatchedRow, NodesManager.Touched, Ends, EndsRun, ResultIs, LookupWorks, Reread;
      stray, last, trace := [], owner, None;
      nodesManager.Known();
      ghost var was := TableNow();
      var looked := LookUp(slot);
      if looked.Err? {
        ended := Broken(looked.error);
        return;
      }
      RepairIsNoReload(Configured(), was);
      assert old(CanFollow(slot, owner, script)) ==> Ready(looked.value.name, slot, owner, script);
      hide TableNow;
      var sent, log;
      ended, sent, log, stray, last := ExecuteCommand(looked.value, slot, script, owner);
      trace := Some(sent);
      EndsIsRun(Configured(), Repair(was), slot, script, ended, sent, stray, last);
    }

    /**
     The run before ended in an exception that made the client read the table anew, and nothing has
     happened since.
     */
    ghost predicate Pending(slot: int, t: Table, script: seq<Attempt>, trace: seq<Sent>, node: Address)
      reads this, nodesManager, nodesManager.nodesCache.node.Values, nodesManager.slotsCache.Values
    {
      && TurnOf(trace) < |script| && TurnAt(Configured(), t, slot, script, TurnOf(trace)).Turn?
      && Rereads(ErrorOf(script[TurnOf(trace)].event))
      && Reread(TableFor(TurnAt(Configured(), t, slot, script, TurnOf(trace))), ErrorOf(script[TurnOf(trace)].event),
                node, script[TurnOf(trace)].answers)
    }

    lemma PendingLinks(slot: int, t: Table, script: seq<Attempt>, trace: seq<Sent>, node: Address)
      requires Pending(slot, t, script, trace, node)
      ensures Repair(TableNow()) == TableNow() && (LookupWorks(TableNow(), slot) <==> slot in nodesManager.slotsCache)
      ensures forall more: seq<Sent> | slot in nodesManager.slotsCache
                && (more != [] ==> PrimaryOf(slot) == Some(more[0].node)) ::
                Link(Configured(), slot, t, script, trace, node, TableNow(), more)
      ensures !LookupLost(TableNow())
      ensures slot !in nodesManager.slotsCache ==> Uncovered(Configured(), slot, t, script, trace, node)
    {
      hide TurnAt, Asked, Reload, NodesManager.Adopted, FirstCover;
      var turn := TurnAt(Configured(), t, slot, script, TurnOf(trace));
      var e, answers := ErrorOf(script[TurnOf(trace)].event), script[TurnOf(trace)].answers;
      ReloadedMoved(Configured(), Suspected(TableFor(turn), e, node), answers);
      nodesManager.AdoptedRow(RowsAfter(TableFor(turn), e, node, answers), slot);
    }

    /** What the two-send bound needs: the slot is in the table, connections are obtained, reloading tells the truth. */
    ghost predicate CanFollow(slot: int, owner: Address, script: seq<Attempt>)
      requires |script| == REQUEST_TTL
      reads this, nodesManager
    {
      && LookupWorks(TableNow(), slot)
      && (ReloadDue(Configured(), TableNow()) ==>
          Informs(Configured(), Repair(TableNow()), slot, owner, script[0].answers))
      && !script[0].event.NoConnection? && !script[1].event.NoConnection?
    }
  }

  /**
   What a turn does with connections: one that was taken is given back by the finally clause, and so is,
   once more, the one of the turn before when this turn took none.
   */
  method GiveBack(o: Outcome, trace: seq<Sent>, log: seq<PoolEvent>, connection: Option<nat>, redisNode: Address)
    returns (more: seq<Sent>, moreLog: seq<PoolEvent>, last: Option<nat>, node: Address, ghost stray: seq<PoolEvent>)
    requires log == TakenAndGiven(trace) && connection == (if trace == [] then None else Some(|trace| - 1))
    requires o.sent.Some? ==> o.pool == Some(o.sent.value.node)
    ensures more == if o.sent.Some? then trace + [o.sent.value] else trace
    ensures moreLog == TakenAndGiven(more) + stray && (stray == [] ==> moreLog == TakenAndGiven(more))
    ensures last == (if more == [] then None else Some(|more| - 1))
              && node == (if o.pool.Some? then o.pool.value else redisNode)
    ensures stray == if o.sent == None && trace != [] then [Gave(node, |trace| - 1)] else []
  {
    hide TakenAndGiven;
    more, moreLog, last, node, stray := trace, log, connection, redisNode, [];
    if o.pool.Some? {
      node := o.pool.value;
    }
    if o.sent.Some? {
      last := Some(|trace|);
      moreLog := moreLog + [Took(node, |trace|)];
      more := trace + [o.sent.value];
      TakenAndGivenSnoc(trace, o.sent.value);
    } else {
      stray := if last.Some? then [Gave(node, last.value)] else [];
    }
    if last.Some? {
      moreLog := moreLog + [Gave(node, last.value)];
    }
  }

  /** A connection of one node is given to the pool of another, which cannot be connected to. */
  method StrayRelease(cluster: RedisCluster, target: ClusterNode, slot: int, other: Address, error: Failure,
      script: seq<Attempt>)
    returns (trace: seq<Sent>, log: seq<PoolEvent>)
    requires cluster.nodesManager.Valid() && other in cluster.nodesManager.nodesCache.node
    requires |script| == REQUEST_TTL && script[0].event == AskAt(other) && script[1].event == NoConnection(error)
    modifies cluster, cluster.nodesManager, cluster.nodesManager.Objects(), target
    ensures |trace| == 1 && log == [Took(trace[0].node, 0), Gave(trace[0].node, 0), Gave(other, 0)]
  {
    ghost var c, t := cluster.Configured(), cluster.TableNow();
    ghost var stray, last;
    var r;
    r, trace, log, stray, last := cluster.ExecuteCommand(target, slot, script, other);
    OneSent(c, t, slot, script, r, trace, stray, other, error);
    assert TakenAndGiven(trace[..0]) == [];
  }

  lemma OneSent(c: Config, t: Table, slot: int, script: seq<Attempt>, r: Ended, trace: seq<Sent>, stray: seq<PoolEvent>,
      other: Address, error: Failure)
    requires |script| == REQUEST_TTL && Ends(c, t, slot, script, r, trace, stray) && other in t.nodes
    requires script[0].event == AskAt(other) && script[1].event == NoConnection(error)
    ensures |trace| == 1 && stray == [Gave(other, 0)]
  {
    AskedThenUnreachable(c, t, slot, other, error, script);
    hide GivesBackTwice, FollowsScript, AsksOnce;
    assert Sends(TurnAt(c, t, slot, script, 0), slot, script[0]);
    assert !Sends(TurnAt(c, t, slot, script, 1), slot, script[1]);
    assert stray[0] in stray;
  }

  /** A primary that has died: the table is read from another startup node, and the second run goes to the new owner. */
  method DeadPrimaryIsLeft(cluster: RedisCluster, slot: int, dead: Address, other: Address, owner: Address,
                           scripts: seq<seq<Attempt>>)
    returns (r: Option<Ended>, traces: seq<seq<Sent>>)
    requires cluster.nodesManager.Valid() && cluster.nodesManager.movedException == None
    requires cluster.PrimaryOf(slot) == Some(dead) && 0 <= slot < 16384
    requires cluster.nodesManager.startupNodes.order == [dead, other] && dead != other && owner.host != ""
    requires |scripts| == 4 && forall i | 0 <= i < |scripts| :: |scripts[i]| == REQUEST_TTL
    requires scripts[0][0].event == Failed(ConnectionError(true))
    requires scripts[0][0].answers == map[other := Sections([Section(0, 16383, owner, [])])]
    requires scripts[1][0].event == Replied
    modifies cluster, cluster.nodesManager, cluster.nodesManager.Objects()
    ensures r == Some(Returned) && |traces| == 2
    ensures |traces[0]| == 1 && traces[0][0].node == dead && |traces[1]| == 1 && traces[1][0].node == owner
  {
    hide NodesManager.Valid, NodesManager.Objects, NodesManager.Repaired, Chained, RetriedRun, EndsRun, Uncovered,
         IsRun, GotReply, Truthful, RedisCluster.Heads, RedisCluster.CanFollow;
    ghost var t := cluster.TableNow();
    assert t.moved == None && slot in t.slots && t.startup == [dead, other];
    ghost var tables, last;
    r, traces, tables, last := cluster.InternalExecuteCommand(slot, scripts, owner);
    ghost var c := cluster.Configured();
    assert LookupWorks(t, slot) && Repair(t) == t;
    FirstRunFails(c, t, slot, dead, other, owner, scripts, traces, tables, last, r);
    SecondRunReplies(c, t, slot, scripts, traces, tables, last, r);
  }

  /** A run whose first connection fails ends there, and so does one that is answered. */
  lemma OneTurn(c: Config, t: Table, slot: int, script: seq<Attempt>, r: Ended, trace: seq<Sent>, last: Address)
    requires EndsRun(c, t, slot, script, r, trace, last) && (script[0].event.Failed? || script[0].event.Replied?)
    ensures |trace| == 1 && trace[0].event == script[0].event && last == trace[0].node
    ensures r == Handled(c, t, script[0], last)
  {
    hide Handled, AsksOnce, GotReply, GivesBackTwice;
    var turn := Turn(t, None, false);
    assert TurnAt(c, t, slot, script, 0) == turn && Sends(turn, slot, script[0]);
    assert TurnAt(c, t, slot, script, 1) == Over;
    SendsNever(slot);
  }

  lemma FirstRunFails(c: Config, t: Table, slot: int, dead: Address, other: Address, owner: Address,
      scripts: seq<seq<Attempt>>, traces: seq<seq<Sent>>, tables: seq<Table>, last: seq<Address>, r: Option<Ended>)
    requires 0 <= slot < 16384 && t.startup == [dead, other] && dead != other && owner.host != ""
    requires |scripts| == 4 && forall i | 0 <= i < |scripts| :: |scripts[i]| == REQUEST_TTL
    requires scripts[0][0] == Attempt(Failed(ConnectionError(true)),
               map[other := Sections([Section(0, 16383, owner, [])])])
    requires traces != [] && |traces| <= 4 && Chained(c, t, slot, scripts, traces, tables, last)
    requires traces[0] != [] ==> traces[0][0].node == dead
    requires |traces| > 1 ==> RetriedRun(c, tables[0], slot, scripts[0], traces[0], last[0])
    requires |traces| == 1 ==>
               || (r.Some? && EndsRun(c, tables[0], slot, scripts[0], r.value, traces[0], last[0])
                   && !Retryable(r.value))
               || (RetriedRun(c, tables[0], slot, scripts[0], traces[0], last[0])
                   && Uncovered(c, slot, tables[0], scripts[0], traces[0], last[0]))
    ensures |traces| > 1 && |traces[0]| == 1 && traces[0][0].node == dead
    ensures traces[1] != [] ==> traces[1][0].node == owner
  {
    hide EndsRun, RowsAfter, FirstCover, Failing, AfterFailure;
    var e: Failure, answers := ConnectionError(true), scripts[0][0].answers;
    var ended :| EndsRun(c, t, slot, scripts[0], ended, traces[0], last[0])
                 && (Retryable(ended) ==> |traces| > 1 || Uncovered(c, slot, t, scripts[0], traces[0], last[0]));
    OneTurn(c, t, slot, scripts[0], ended, traces[0], last[0]);
    OneRowRead(c, t, dead, other, owner, slot, answers);
    assert TurnOf(traces[0]) == 0;
    assert ended == Raised(e) && Retryable(ended);
    assert !Uncovered(c, slot, t, scripts[0], traces[0], last[0]);
  }

  lemma SecondRunReplies(c: Config, t: Table, slot: int, scripts: seq<seq<Attempt>>, traces: seq<seq<Sent>>,
      tables: seq<Table>, last: seq<Address>, r: Option<Ended>)
    requires 2 <= |traces| <= |scripts| && Chained(c, t, slot, scripts, traces, tables, last)
    requires |scripts[1]| == REQUEST_TTL && scripts[1][0].event == Replied
    requires |traces| > 2 ==> RetriedRun(c, tables[1], slot, scripts[1], traces[1], last[1])
    requires |traces| == 2 ==>
               || (r.Some? && EndsRun(c, tables[1], slot, scripts[1], r.value, traces[1], last[1]))
               || RetriedRun(c, tables[1], slot, scripts[1], traces[1], last[1])
    ensures |traces| == 2 && r == Some(Returned) && |traces[1]| == 1
  {
    hide EndsRun, Link;
    var ended :| EndsRun(c, tables[1], slot, scripts[1], ended, traces[1], last[1])
                 && (ended == Returned ==> |traces| == 2 && r == Some(ended));
    OneTurn(c, tables[1], slot, scripts[1], ended, traces[1], last[1]);
  }

  /** With one startup node besides the dead one that names an owner of all slots, the table becomes that. */
  lemma OneRowRead(c: Config, t: Table, dead: Address, other: Address, owner: Address, slot: int,
      answers: map<Address, Answer>)
    requires t.startup == [dead, other] && dead != other && owner.host != "" && 0 <= slot < 16384
    requires answers == map[other := Sections([Section(0, 16383, owner, [])])]
    ensures var rows := RowsAfter(t, ConnectionError(true), dead, answers);
            rows == [Section(0, 16383, owner, [])] && FirstCover(rows, slot) == 0
    ensures Failing(c, t, ConnectionError(true), dead, answers) == Raised(ConnectionError(true))
  {
    hide Disagreements, FullyCovered;
    var row := Section(0, 16383, owner, []);
    AllSlots(row);
    AgreeingReplies([row]);
    OneAnswer(other, answers, row);
    assert Dropped([dead, other], dead) == [other] by {
      assert [dead, other][..1] == [dead] && [dead][..0] == [] && Dropped([], dead) == [];
      assert Dropped([dead], dead) == [];
    }
    FirstCoverIs([row], slot, 0);
  }

  lemma AllSlots(row: Section)
    requires row.from == 0 && row.to == 16383
    ensures FullyCovered([row])
  {
    forall s | 0 <= s < 16384 ensures Covered([row], s) { FirstCoverIs([row], s, 0); }
  }

  lemma OneAnswer(node: Address, answers: map<Address, Answer>, row: Section)
    requires answers == map[node := Sections([row])] && row.primary.host != "" && FullyCovered([row])
    ensures Asked([node], answers, []) == [row] && Reachable([node], answers)
  {
    hide FullyCovered;
    assert [row][..0] == [] && Resolved([], node.host) == [] && [] + [row] == [row];
    assert Resolved([row], node.host) == [row];
    assert AnswerOf(answers, [node][0]).Sections?;
  }

  /** The loop has got in front of turn n, sending in each turn. */
  ghost predicate GotTo(c: Config, t: Table, slot: int, script: seq<Attempt>, n: nat, turn: Turn) {
    && n <= |script| && turn.Turn? && turn == TurnAt(c, t, slot, script, n)
    && forall k | 0 <= k < n :: Sends(TurnAt(c, t, slot, script, k), slot, script[k])
  }

  lemma GetsStarted(c: Config, t: Table, slot: int, script: seq<Attempt>)
    ensures GotTo(c, t, slot, script, 0, Turn(t, None, false))
  {
  }

  lemma GetsFurther(c: Config, t: Table, slot: int, script: seq<Attempt>, n: nat, turn: Turn)
    requires GotTo(c, t, slot, script, n, turn) && n < |script| && NextTurn(c, turn, slot, script[n]).Turn?
    ensures GotTo(c, t, slot, script, n + 1, NextTurn(c, turn, slot, script[n]))
  {
    hide AfterEvent;
  }

  /**
   How the loop ends: the command goes out in the first turns, as long as the table and the script say
   so, and all but the last reply were redirections; and a connection is given back a second time
   exactly if the table and the script say so.
   */
  ghost predicate Ends(c: Config, t: Table, slot: int, script: seq<Attempt>, r: Ended, trace: seq<Sent>,
      stray: seq<PoolEvent>)
    requires |script| == REQUEST_TTL
  {
    && |trace| <= REQUEST_TTL && FollowsScript(trace, script) && AsksOnce(trace)
    && (forall k | 0 <= k < |trace| :: Sends(TurnAt(c, t, slot, script, k), slot, script[k]))
    && (|trace| < REQUEST_TTL ==> !Sends(TurnAt(c, t, slot, script, |trace|), slot, script[|trace|]))
    && (r == Returned <==> GotReply(trace))
    && (r == TtlExhausted <==> |trace| == REQUEST_TTL && Redirection(trace[|trace| - 1].event) && !r.Broken?)
    && (r.Raised? ==>
          || (|trace| < REQUEST_TTL && script[|trace|].event == NoConnection(r.failure))
          || (trace != [] && trace[|trace| - 1].event == Failed(r.failure)))
    && (r == UnknownNode ==> |trace| < REQUEST_TTL && EndsUnsent(c, t, slot, script, |trace|))
    && (stray != [] <==> GivesBackTwice(c, t, slot, script))
    && |stray| <= 1
    && forall e | e in stray :: e.Gave? && StrayAt(TurnAt(c, t, slot, script, |trace|), slot, trace, e.pool)
        && e.connection == |trace| - 1
  }

  /** All that was sent met the script and was redirected, and the local variables say how. */
  predicate Looping(l: Locals, trace: seq<Sent>, script: seq<Attempt>, first: ClusterNode) {
    && |trace| <= |script| && FollowsScript(trace, script) && AsksOnce(trace)
    && (forall i | 0 <= i < |trace| :: Redirection(trace[i].event))
    && (trace == [] ==> l == Locals(first, first.name, false, false))
    && (trace != [] ==> (l.asking <==> trace[|trace| - 1].event.AskAt?))
    && (l.asking ==> l.redirect == trace[|trace| - 1].event.target)
  }

  lemma LoopingStarts(l: Locals, trace: seq<Sent>, script: seq<Attempt>, first: ClusterNode)
    requires Looping(l, trace, script, first)
    ensures trace == [] ==> l == Locals(first, first.name, false, false)
  {
  }

  lemma TruthfulNone(slot: int, owner: Address)
    ensures Truthful([], slot, owner)
  {
  }

  /** One more turn: the loop goes on in the same way, or ends. */
  lemma LoopsOn(l: Locals, next: Locals, trace: seq<Sent>, script: seq<Attempt>, first: ClusterNode, o: Outcome)
    requires |trace| < |script| && Looping(l, trace, script, first)
    requires o.sent.Some? ==>
               && o.sent.value.event == script[|trace|].event && o.sent.value.asking == l.asking
               && (l.asking ==> o.sent.value.node == l.redirect)
    requires o.ended == None ==>
               && o.sent.Some? && Redirection(script[|trace|].event) && (next.asking <==> script[|trace|].event.AskAt?)
               && (next.asking ==> next.redirect == script[|trace|].event.target)
    requires o.ended == Some(Returned) <==> o.sent.Some? && script[|trace|].event.Replied?
    requires o.ended.Some? ==>
               && !o.ended.value.TtlExhausted? && (o.ended.value.UnknownNode? ==> o.sent == None)
               && (o.sent.Some? && Redirection(script[|trace|].event) ==> o.ended.value.Broken?)
               && (o.ended.value.Raised? ==>
                     && script[|trace|].event == (if o.sent == None then NoConnection(o.ended.value.failure)
                         else Failed(o.ended.value.failure)))
    ensures o.ended == None ==> Looping(next, trace + [o.sent.value], script, first)
    ensures o.ended.Some? ==> EndedIn(script, o.ended.value, trace, o)
  {
    hide FollowsScript, AsksOnce;
    if o.sent.Some? { ShapeSnoc(trace, o.sent.value, script); }
  }

  /** The pool of the node that this turn found; a node that ASK named is that node. */
  predicate PoolOf(turn: Turn, slot: int, pool: Option<Address>) {
    && turn.Turn? && (pool.Some? <==> Finds(turn, slot))
    && (pool.Some? && turn.asking.Some? ==> pool == turn.asking)
  }

  /** The second release goes to the pool of the node that was to be used next, if one was found. */
  predicate StrayAt(turn: Turn, slot: int, trace: seq<Sent>, pool: Address) {
    && turn.Turn? && trace != []
    && (!Finds(turn, slot) ==> pool == trace[|trace| - 1].node)
    && (Finds(turn, slot) && turn.asking.Some? ==> pool == turn.asking.value)
  }

  predicate IsRun(trace: seq<Sent>, script: seq<Attempt>) {
    |trace| <= REQUEST_TTL && |trace| <= |script| && FollowsScript(trace, script) && AsksOnce(trace)
  }

  function ErrorOf(event: Event): Failure {
    match event
    case NoConnection(e) => e
    case Failed(e) => e
    case _ => OtherError
  }

  /**
   From one run to the next: the exception that ended the one made the client read the table anew, without the
   failing node among the startup nodes, and the next begins with that table, at the primary of the first row
   with the slot.
   */
  ghost predicate Link(c: Config, slot: int, t: Table, script: seq<Attempt>, trace: seq<Sent>, node: Address,
                       next: Table, more: seq<Sent>)
  {
    && TurnOf(trace) < |script| && TurnAt(c, t, slot, script, TurnOf(trace)).Turn?
    && var before := TableFor(TurnAt(c, t, slot, script, TurnOf(trace)));
       var e, answers := ErrorOf(script[TurnOf(trace)].event), script[TurnOf(trace)].answers;
       var rows := RowsAfter(before, e, node, answers);
       && Rereads(e) && next == AfterFailure(c, before, e, node, answers)
       && Covered(rows, slot) && (more != [] ==> more[0].node == rows[FirstCover(rows, slot)].primary)
  }

  /** The slot is in none of the rows that were read after the exception that ended the run. */
  ghost predicate Uncovered(c: Config, slot: int, t: Table, script: seq<Attempt>, trace: seq<Sent>, node: Address) {
    && TurnOf(trace) < |script| && TurnAt(c, t, slot, script, TurnOf(trace)).Turn?
    && !Covered(RowsAfter(TableFor(TurnAt(c, t, slot, script, TurnOf(trace))), ErrorOf(script[TurnOf(trace)].event),
                          node, script[TurnOf(trace)].answers), slot)
  }

  /** A run of the inner loop ends as table and script say. */
  ghost predicate EndsRun(c: Config, t: Table, slot: int, script: seq<Attempt>, r: Ended, trace: seq<Sent>,
      last: Address) {
    && |script| == REQUEST_TTL && |trace| <= REQUEST_TTL && ResultIs(c, t, slot, script, r, trace, last)
    && exists stray :: Ends(c, t, slot, script, r, trace, stray)
  }

  /** The exceptions themselves, and none derived from them. */
  function AllowRetry(): set<Ended> {
    {Raised(ConnectionError(true)), Raised(TimeoutError(true)), Raised(ClusterDownError(true))}
  }

  ghost predicate RetriedRun(c: Config, t: Table, slot: int, script: seq<Attempt>, trace: seq<Sent>, last: Address) {
    exists r :: r in AllowRetry() && EndsRun(c, t, slot, script, r, trace, last)
  }

  lemma EndsIsRun(c: Config, t: Table, slot: int, script: seq<Attempt>, r: Ended, trace: seq<Sent>,
      stray: seq<PoolEvent>, last: Address)
    requires |script| == REQUEST_TTL && Ends(c, t, slot, script, r, trace, stray)
    requires |trace| <= |script| ==> ResultIs(c, t, slot, script, r, trace, last)
    ensures EndsRun(c, t, slot, script, r, trace, last)
  {
    hide ResultIs, FollowsScript, AsksOnce, GotReply, TurnAt, Sends, GivesBackTwice;
  }

  lemma BrokenIsFinal(r: Ended)
    requires r.Broken?
    ensures r !in AllowRetry()
  {
  }

  lemma Retried(c: Config, t: Table, slot: int, script: seq<Attempt>, r: Ended, trace: seq<Sent>, last: Address)
    requires EndsRun(c, t, slot, script, r, trace, last)
    ensures Retryable(r) ==> RetriedRun(c, t, slot, script, trace, last)
    ensures Retryable(r) <==> r in AllowRetry()
    ensures Retryable(r) ==> r.Raised? && Rereads(r.failure)
  {
    hide EndsRun;
  }

  /** The tables with which the runs begin, and the nodes at which they end. */
  ghost predicate Chained(c: Config, first: Table, slot: int, scripts: seq<seq<Attempt>>, traces: seq<seq<Sent>>,
                          tables: seq<Table>, last: seq<Address>)
  {
    && |traces| == |tables| == |last| <= |scripts| && (tables != [] ==> tables[0] == first)
    && forall i | 0 < i < |traces| ::
         Link(c, slot, tables[i - 1], scripts[i - 1], traces[i - 1], last[i - 1], tables[i], traces[i])
  }

  lemma NothingChained(c: Config, first: Table, slot: int, scripts: seq<seq<Attempt>>)
    ensures Chained(c, first, slot, scripts, [], [], [])
  {
  }

  lemma OneMoreLink(c: Config, first: Table, slot: int, scripts: seq<seq<Attempt>>, traces: seq<seq<Sent>>,
                    tables: seq<Table>, last: seq<Address>, trace: seq<Sent>, table: Table, node: Address)
    requires Chained(c, first, slot, scripts, traces, tables, last) && |traces| < |scripts|
    requires traces == [] ==> table == first
    requires traces != [] ==>
               var i := |traces| - 1; Link(c, slot, tables[i], scripts[i], traces[i], last[i], table, trace)
    ensures Chained(c, first, slot, scripts, traces + [trace], tables + [table], last + [node])
  {
    hide Link;
  }

  /** What the loop ends with: told from its last turn, and the node `last` that this turn used, if any. */
  ghost predicate ResultIs(c: Config, t: Table, slot: int, script: seq<Attempt>, r: Ended, trace: seq<Sent>,
      last: Address)
    requires |trace| <= |script|
  {
    var n := |trace|;
    if n < |script| && TurnAt(c, t, slot, script, n).Turn? then
      r == EndOfTurn(c, TurnAt(c, t, slot, script, n), slot, script[n], last)
    else
      && n > 0 && last == trace[n - 1].node
      && if TurnAt(c, t, slot, script, n).Turn? then r == TtlExhausted
         else
           && TurnAt(c, t, slot, script, n - 1).Turn?
           && r == EndOfTurn(c, TurnAt(c, t, slot, script, n - 1), slot, script[n - 1], last)
  }

  lemma ResultAt(c: Config, t: Table, slot: int, script: seq<Attempt>, r: Ended, before: seq<Sent>, turn: Turn,
      o: Outcome, last: Address)
    requires |before| < |script| && GotTo(c, t, slot, script, |before|, turn)
    requires o.sent.Some? <==> Sends(turn, slot, script[|before|])
    requires o.sent.Some? ==> NextTurn(c, turn, slot, script[|before|]) == Over && last == o.sent.value.node
    requires r == EndOfTurn(c, turn, slot, script[|before|], last)
    ensures ResultIs(c, t, slot, script, r, if o.sent.Some? then before + [o.sent.value] else before, last)
  {
    hide NextTurn, EndOfTurn, Sends;
  }

  /** The turn in which a loop ended that raised an exception of its own. */
  function TurnOf(trace: seq<Sent>): nat {
    if trace != [] && trace[|trace| - 1].event.Failed? then |trace| - 1 else |trace|
  }

  /** The loop got as far as that turn, where it used this node and met this exception. */
  ghost predicate RaisedIn(c: Config, t: Table, slot: int, script: seq<Attempt>, trace: seq<Sent>, e: Failure,
      node: Address) {
    && TurnOf(trace) < |script| && TurnAt(c, t, slot, script, TurnOf(trace)).Turn?
    && ErrorOf(script[TurnOf(trace)].event) == e
    && (trace != [] && trace[|trace| - 1].event.Failed? ==>
        node == trace[|trace| - 1].node && trace[|trace| - 1].event.error == e)
    && (TurnOf(trace) == |trace| ==> script[|trace|].event == NoConnection(e))
  }

  lemma RaisedAt(c: Config, t: Table, slot: int, script: seq<Attempt>, r: Ended, before: seq<Sent>, turn: Turn,
      o: Outcome)
    requires |before| < |script| && GotTo(c, t, slot, script, |before|, turn)
    requires EndedIn(script, r, before, o) && PoolOf(turn, slot, o.pool)
    requires o.sent.Some? ==> o.pool == Some(o.sent.value.node)
    ensures var trace := if o.sent.Some? then before + [o.sent.value] else before;
            r.Raised? && o.pool.Some? ==>
              && TurnOf(trace) == |before| && turn == TurnAt(c, t, slot, script, |before|)
              && RaisedIn(c, t, slot, script, trace, r.failure, o.pool.value)
  {
    hide FollowsScript, AsksOnce, TurnAt, Sends, Finds;
  }

  lemma EndsMeans(c: Config, t: Table, slot: int, script: seq<Attempt>, r: Ended, trace: seq<Sent>,
      stray: seq<PoolEvent>)
    requires |script| == REQUEST_TTL && Ends(c, t, slot, script, r, trace, stray)
    ensures IsRun(trace, script)
    ensures r == Returned <==> GotReply(trace)
  {
    hide FollowsScript, AsksOnce, GotReply, TurnAt, Sends, GivesBackTwice;
  }

  /** What is known when the loop ends in a turn. */
  predicate EndedIn(script: seq<Attempt>, r: Ended, before: seq<Sent>, o: Outcome)
    requires |before| < |script|
  {
    var more := if o.sent.Some? then before + [o.sent.value] else before;
    && FollowsScript(more, script) && AsksOnce(more) && (r == Returned <==> GotReply(more)) && r != TtlExhausted
    && (o.sent == None || !Redirection(o.sent.value.event) || r.Broken?)
    && (o.sent.Some? ==> o.sent.value.event == script[|before|].event)
    && (before != [] ==> Redirection(before[|before| - 1].event))
    && (r == UnknownNode ==> o.sent == None)
    && (r.Raised? ==>
          || (o.sent == None && script[|before|].event == NoConnection(r.failure))
          || (more != [] && more[|more| - 1].event == Failed(r.failure)))
  }

  lemma EndsAt(c: Config, t: Table, slot: int, script: seq<Attempt>, r: Ended, before: seq<Sent>, turn: Turn,
      o: Outcome, stray: seq<PoolEvent>)
    requires |before| < |script| == REQUEST_TTL && GotTo(c, t, slot, script, |before|, turn)
    requires o.sent.Some? <==> Sends(turn, slot, script[|before|])
    requires o.sent.Some? ==> NextTurn(c, turn, slot, script[|before|]) == Over
    requires EndedIn(script, r, before, o)
    requires PoolOf(turn, slot, o.pool)
    requires stray == [] <==> o.sent.Some? || before == []
    requires stray != [] ==>
               stray == [Gave(if o.pool.Some? then o.pool.value else before[|before| - 1].node, |before| - 1)]
    ensures Ends(c, t, slot, script, r, if o.sent.Some? then before + [o.sent.value] else before, stray)
  {
    hide GivesBackTwice, AsksOnce, FollowsScript, NextTurn, Sends;
    var k := if o.sent.Some? then |before| + 1 else |before|;
    SendsNever(slot);
    UnsentIsLast(c, t, slot, script, k);
  }

  lemma SendsNever(slot: int)
    ensures forall a :: !Sends(Over, slot, a)
  {
  }

  lemma ExhaustedEnds(c: Config, t: Table, slot: int, script: seq<Attempt>, trace: seq<Sent>, turn: Turn)
    requires |trace| == |script| == REQUEST_TTL && FollowsScript(trace, script) && AsksOnce(trace)
    requires Redirection(trace[REQUEST_TTL - 1].event) && GotTo(c, t, slot, script, |trace|, turn)
    ensures Ends(c, t, slot, script, TtlExhausted, trace, [])
    ensures forall node | node == trace[REQUEST_TTL - 1].node :: ResultIs(c, t, slot, script, TtlExhausted, trace, node)
  {
    hide TurnAt, GivesBackTwice, AsksOnce, FollowsScript;
    UnsentIsLast(c, t, slot, script, REQUEST_TTL);
  }

  lemma NothingSent(script: seq<Attempt>)
    ensures TakenAndGiven([]) == [] && FollowsScript([], script) && AsksOnce([])
  {
  }

  lemma TakenAndGivenSnoc(trace: seq<Sent>, sent: Sent)
    ensures TakenAndGiven(trace + [sent]) == TakenAndGiven(trace) + [Took(sent.node, |trace|), Gave(sent.node, |trace|)]
  {
    assert (trace + [sent])[..|trace|] == trace;
  }

  lemma TruthfulSnoc(trace: seq<Sent>, sent: Sent, slot: int, owner: Address)
    ensures Truthful(trace + [sent], slot, owner) ==>
              Truthful(trace, slot, owner) && sent.event ==
                  if sent.node == owner then Replied else MovedTo(Moved(slot, owner))
  {
    var more := trace + [sent];
    assert more[|trace|] == sent && forall i | 0 <= i < |trace| :: more[i] == trace[i];
  }

  lemma ShapeSnoc(trace: seq<Sent>, sent: Sent, script: seq<Attempt>)
    requires |trace| < |script| && sent.event == script[|trace|].event && FollowsScript(trace, script)
               && AsksOnce(trace)
    requires forall i | 0 <= i < |trace| :: Redirection(trace[i].event)
    requires if trace == [] then !sent.asking else sent.asking <==> trace[|trace| - 1].event.AskAt?
    requires sent.asking ==>
               trace != [] && trace[|trace| - 1].event.AskAt? && sent.node == trace[|trace| - 1].event.target
    ensures FollowsScript(trace + [sent], script) && AsksOnce(trace + [sent])
  {
    hide Redirection;
    var more := trace + [sent];
    assert more[|trace|] == sent && forall i | 0 <= i < |trace| :: more[i] == trace[i];
  }

  /** Every send met the event of its turn, and all but the last one were redirected. */
  predicate FollowsScript(trace: seq<Sent>, script: seq<Attempt>)
    requires |trace| <= |script|
  {
    && (forall i | 0 <= i < |trace| :: trace[i].event == script[i].event)
    && (forall i | 0 <= i < |trace| - 1 :: Redirection(trace[i].event))
  }

  /** ASKING goes before exactly those sends that follow an ASK reply, to the node that it named. */
  predicate AsksOnce(trace: seq<Sent>) {
    && (trace != [] ==> !trace[0].asking)
    && (forall i | 0 <= i < |trace| - 1 :: trace[i + 1].asking <==> trace[i].event.AskAt?)
    && (forall i | 0 <= i < |trace| - 1 :: trace[i].event.AskAt? ==> trace[i + 1].node == trace[i].event.target)
  }

  /** The owner of the slot replies, every other node names the owner. */
  predicate Truthful(trace: seq<Sent>, slot: int, owner: Address) {
    forall i | 0 <= i < |trace| :: trace[i].event ==
        if trace[i].node == owner then Replied else MovedTo(Moved(slot, owner))
  }
}
