/**
 A pipeline on a cluster: the queued commands are scattered over the connections of their
 nodes, the replies are gathered, and commands that met a redirection or a lost connection
 are sent once more on their own.
 */
module ClusterPipeline {
  import opened Wrappers
  import opened ClusterSlots

  const CLUSTER_ERROR_RETRY_ATTEMPTS: nat := 3

  /** Classes of exceptions, derived classes included. */
  datatype Failure = ConnectionError | TimeoutError | MovedError | AskError | TryAgainError | ClusterDownError
      | OtherError

  /** The result field of a command: None (also for a nil reply), a reply, an exception. */
  datatype Result = Nothing | Reply(value: string) | Error(error: Failure)

  /** Sending one command by itself through the cluster client: a result, or an exception that is no RedisError. */
  datatype Single = Got(result: Result) | Aborts

  /**
   What the cluster does in one round: the node of each command, the nodes that can be connected
   to, the connections that break while writing, what reading each reply would give, and what
   sending each command by itself would give.
   */
  datatype Round = Round(node: seq<Address>, connects: set<Address>, breaks: map<Address, Failure>,
      replies: seq<Result>, singles: seq<Single>)
  {
    predicate Fits(n: nat) {
      && |node| == |replies| == |singles| == n
      && forall a | a in breaks :: breaks[a] == ConnectionError || breaks[a] == TimeoutError
    }
  }

  /** What executing the pipeline comes to. */
  datatype Outcome = Responses(results: seq<Result>) | Raises(error: Failure) | Aborted

  /** An exception that ends the use of the connection. */
  predicate Broken(r: Result) { r == Error(ConnectionError) || r == Error(TimeoutError) }

  /** ERRORS_ALLOW_RETRY of the pipeline. */
  predicate Retryable(r: Result) {
    Broken(r) || r == Error(MovedError) || r == Error(AskError) || r == Error(TryAgainError)
  }

  // ---------------------------------------------------------------------------
  // What each command gets

  /** The positions of the commands of a node, in order. */
  function Positions(node: seq<Address>, a: Address): (r: seq<nat>)
    ensures forall k | 0 <= k < |r| :: r[k] < |node| && node[r[k]] == a
    ensures forall p | 0 <= p < |node| && node[p] == a :: p in r
    ensures forall i, j | 0 <= i < j < |r| :: r[i] < r[j]
  {
    if node == [] then []
    else
      var rest := Positions(node[..|node| - 1], a);
      assert forall k | 0 <= k < |rest| :: rest[k] < |node| - 1;
      if node[|node| - 1] == a then rest + [|node| - 1] else rest
  }

  function At(replies: seq<Result>, positions: seq<nat>): (r: seq<Result>)
    requires forall k | 0 <= k < |positions| :: positions[k] < |replies|
    ensures |r| == |positions| && forall k | 0 <= k < |r| :: r[k] == replies[positions[k]]
  {
    if positions == [] then []
    else At(replies, positions[..|positions| - 1]) + [replies[positions[|positions| - 1]]]
  }

  /** The first exception that breaks the connection while the replies are read. */
  function FirstBroken(replies: seq<Result>): (r: Option<Failure>)
    ensures r.Some? ==> Broken(Error(r.value)) && Error(r.value) in replies
    ensures r == None <==> forall x | x in replies :: !Broken(x)
  {
    if replies == [] then None
    else
      var rest := FirstBroken(replies[..|replies| - 1]);
      if rest.Some? then rest
      else if Broken(replies[|replies| - 1]) then Some(replies[|replies| - 1].error)
      else None
  }

  /** What the connection of a node does to all of its commands, if it breaks. */
  function NodeFailure(round: Round, a: Address): Option<Failure>
    requires round.Fits(|round.node|)
  {
    if a in round.breaks then Some(round.breaks[a])
    else FirstBroken(At(round.replies, Positions(round.node, a)))
  }

  /** The result of the command at a position when all connections have been read. */
  function First(round: Round, p: nat): Result
    requires round.Fits(|round.node|) && p < |round.node|
  {
    match NodeFailure(round, round.node[p])
    case Some(e) => Error(e)
    case None => round.replies[p]
  }

  /** The result that counts. */
  function Final(round: Round, p: nat): Result
    requires round.Fits(|round.node|) && p < |round.node|
  {
    if Retryable(First(round, p)) && round.singles[p].Got? then round.singles[p].result else First(round, p)
  }

  function Finals(round: Round, n: nat): (r: seq<Result>)
    requires round.Fits(|round.node|) && n <= |round.node|
    ensures |r| == n && forall p | 0 <= p < n :: r[p] == Final(round, p)
  {
    if n == 0 then [] else Finals(round, n - 1) + [Final(round, n - 1)]
  }

  function Firsts(round: Round, n: nat): (r: seq<Result>)
    requires round.Fits(|round.node|) && n <= |round.node|
    ensures |r| == n && forall p | 0 <= p < n :: r[p] == First(round, p)
  {
    if n == 0 then [] else Firsts(round, n - 1) + [First(round, n - 1)]
  }

  /** The positions of the commands that are sent once more, given the results so far. */
  function RetryPositions(results: seq<Result>): (r: seq<nat>)
    ensures forall k | 0 <= k < |r| :: r[k] < |results| && Retryable(results[r[k]])
    ensures forall p | 0 <= p < |results| && Retryable(results[p]) :: p in r
    ensures forall i, j | 0 <= i < j < |r| :: r[i] < r[j]
  {
    if results == [] then []
    else
      var rest := RetryPositions(results[..|results| - 1]);
      assert forall k | 0 <= k < |rest| :: rest[k] < |results| - 1;
      if Retryable(results[|results| - 1]) then rest + [|results| - 1] else rest
  }

  function Again(round: Round): seq<nat>
    requires round.Fits(|round.node|)
  {
    RetryPositions(Firsts(round, |round.node|))
  }

  /** Up to the first single send that aborts, those positions have been sent again. */
  predicate SentAgain(round: Round, resent: seq<nat>, aborted: bool)
    requires round.Fits(|round.node|)
  {
    var again := Again(round);
    && resent <= again && (forall p | p in resent :: p < |round.singles| && round.singles[p].Got?)
    && if aborted then |resent| < |again| && round.singles[again[|resent|]].Aborts? else resent == again
  }

  function FirstError(results: seq<Result>): (r: Option<Failure>)
    ensures r == None <==> forall x | x in results :: !x.Error?
    ensures r.Some? ==> Error(r.value) in results
  {
    if results == [] then None
    else if results[0].Error? then Some(results[0].error)
    else FirstError(results[1..])
  }

  /** What one round comes to. */
  function OutcomeOf(round: Round, raiseOnError: bool): Outcome
    requires round.Fits(|round.node|)
  {
    var n := |round.node|;
    if exists p :: 0 <= p < n && round.node[p] !in round.connects then Raises(ConnectionError)
    else if exists p :: p in Again(round) && round.singles[p].Aborts? then Aborted
    else
      var results := Finals(round, n);
      if raiseOnError && FirstError(results).Some? then Raises(FirstError(results).value) else Responses(results)
  }

  /** Each round is for a pipeline of `n` commands. */
  predicate AllFit(rounds: seq<Round>, n: nat) {
    |rounds| == 1 + CLUSTER_ERROR_RETRY_ATTEMPTS && forall i | 0 <= i < |rounds| :: rounds[i].Fits(n)
  }

  function OutcomeAt(rounds: seq<Round>, n: nat, i: nat, raiseOnError: bool): Outcome
    requires AllFit(rounds, n) && i < |rounds|
  {
    OutcomeOf(rounds[i], raiseOnError)
  }

  /** The exceptions after which the whole pipeline is sent again. */
  predicate StartsOver(o: Outcome) { o == Raises(ClusterDownError) || o == Raises(ConnectionError) }

  // ---------------------------------------------------------------------------
  // What follows for the caller

  /**
   At each index stands the reply to the command queued there, or, if the command is sent again, what
   that gives.
   */
  lemma ResponsesAreAligned(round: Round, raiseOnError: bool)
    requires round.Fits(|round.node|)
    ensures var o := OutcomeOf(round, raiseOnError);
            o.Responses? ==>
            && |o.results| == |round.node|
            && forall p | 0 <= p < |round.node| ::
                 if p in Again(round) then round.singles[p].Got? && o.results[p] == round.singles[p].result
                 else o.results[p] == round.replies[p]
  {
    hide Positions, At, FirstBroken, Finals, Firsts, RetryPositions, FirstError;
    var n := |round.node|;
    forall p | 0 <= p < n && Retryable(First(round, p)) ensures p in Again(round) {}
  }

  /**
   A command is sent a second time exactly when its reply is a redirection or TRYAGAIN, or its connection
   broke for any command on it.
   */
  lemma SentAgainIff(round: Round, p: nat)
    requires round.Fits(|round.node|) && p < |round.node|
    ensures p in Again(round) <==>
            || round.node[p] in round.breaks
            || round.replies[p] in {Error(MovedError), Error(AskError), Error(TryAgainError)}
            || exists q :: 0 <= q < |round.node| && round.node[q] == round.node[p]
                && (round.replies[q] == Error(ConnectionError) || round.replies[q] == Error(TimeoutError))
  {
    hide Positions, At, FirstBroken, Firsts, RetryPositions;
    NodeFailureIff(round, round.node[p]);
  }

  lemma NodeFailureIff(round: Round, a: Address)
    requires round.Fits(|round.node|)
    ensures NodeFailure(round, a).Some? <==>
              a in round.breaks || exists q :: 0 <= q < |round.node| && round.node[q] == a && Broken(round.replies[q])
    ensures NodeFailure(round, a).Some? ==> Broken(Error(NodeFailure(round, a).value))
  {
    hide Positions, At, FirstBroken;
    var positions := Positions(round.node, a);
    var own := At(round.replies, positions);
    if a !in round.breaks {
      if FirstBroken(own).Some? {
        var k :| 0 <= k < |own| && own[k] == Error(FirstBroken(own).value);
        assert round.node[positions[k]] == a && Broken(round.replies[positions[k]]);
      }
      forall q | 0 <= q < |round.node| && round.node[q] == a && Broken(round.replies[q])
          ensures FirstBroken(own).Some? {
        var k :| 0 <= k < |positions| && positions[k] == q;
        assert own[k] == round.replies[q];
      }
    }
  }

  /** So a command that was answered can be executed twice: it shares its connection with one that breaks it. */
  lemma AnsweredAndSentAgain(a: Address)
    ensures var round := Round([a, a], {a}, map[], [Reply("OK"), Error(ConnectionError)],
              [Got(Reply("OK")), Got(Reply("OK"))]);
            round.Fits(2) && 0 in Again(round)
  {
    var round := Round([a, a], {a}, map[], [Reply("OK"), Error(ConnectionError)], [Got(Reply("OK")), Got(Reply("OK"))]);
    assert Broken(round.replies[1]) && round.node[1] == round.node[0];
    SentAgainIff(round, 0);
  }

  /**
   The whole pipeline is sent over again exactly when a node cannot be reached, or errors are raised
   and the first error left is one of the two classes.
   */
  lemma StartsOverIff(round: Round, raiseOnError: bool)
    requires round.Fits(|round.node|)
    ensures StartsOver(OutcomeOf(round, raiseOnError)) <==>
            || (exists p :: 0 <= p < |round.node| && round.node[p] !in round.connects)
            || (raiseOnError && OutcomeOf(round, false).Responses?
                && exists p :: 0 <= p < |round.node|
                    && (Final(round, p) == Error(ClusterDownError) || Final(round, p) == Error(ConnectionError))
                               && forall q | 0 <= q < p :: !Final(round, q).Error?)
  {
    hide Positions, At, FirstBroken, First, Final, Finals, Again, FirstError;
    var results := Finals(round, |round.node|);
    FirstErrorAt(results);
    assert forall p | 0 <= p < |results| :: results[p] == Final(round, p);
  }

  lemma {:induction false} FirstErrorAt(results: seq<Result>)
    ensures forall e :: FirstError(results) == Some(e) <==>
              exists p :: 0 <= p < |results| && results[p] == Error(e) && forall q | 0 <= q < p :: !results[q].Error?
  {
    if results != [] {
      var rest := results[1..];
      FirstErrorAt(rest);
      assert forall p | 1 <= p < |results| :: results[p] == rest[p - 1];
      forall e ensures FirstError(results) == Some(e) <==>
                         exists p :: 0 <= p < |results| && results[p] == Error(e) && forall q | 0 <= q < p ::
                             !results[q].Error?
      {
        if FirstError(results) == Some(e) && !results[0].Error? {
          var p :| 0 <= p < |rest| && rest[p] == Error(e) && forall q | 0 <= q < p :: !rest[q].Error?;
          assert results[p + 1] == Error(e);
        }
        if p :| 0 <= p < |results| && results[p] == Error(e) && forall q | 0 <= q < p :: !results[q].Error? {
          if p > 0 {
            assert rest[p - 1] == Error(e);
            assert forall q | 0 <= q < p - 1 :: rest[q] == results[q + 1];
          }
        }
      }
    }
  }

  /** The first exception in the list stands there. */
  predicate FirstErrorIs(results: seq<Result>, p: int) {
    0 <= p < |results| && results[p].Error? && forall q | 0 <= q < p :: !results[q].Error?
  }

  /**
   How a round ends: with ConnectionError when a node cannot be reached; aborted when a command sent again
   is; else with the results, or with the first error among them if errors are to be raised.
   */
  lemma OutcomeMeans(round: Round, raiseOnError: bool)
    requires round.Fits(|round.node|)
    ensures var o, quiet := OutcomeOf(round, raiseOnError), OutcomeOf(round, false);
            if exists p :: 0 <= p < |round.node| && round.node[p] !in round.connects then o == Raises(ConnectionError)
            else if exists p :: p in Again(round) && round.singles[p].Aborts? then o == Aborted
            else
              && quiet.Responses?
              && if raiseOnError && exists p :: FirstErrorIs(quiet.results, p)
                 then exists p :: FirstErrorIs(quiet.results, p) && o == Raises(quiet.results[p].error)
                 else o == quiet
  {
    hide Positions, At, FirstBroken, First, Final, Again;
    var results := Finals(round, |round.node|);
    FirstErrorAt(results);
    if FirstError(results).Some? {
      var p :| 0 <= p < |results| && results[p] == Error(FirstError(results).value)
          && forall q | 0 <= q < p :: !results[q].Error?;
      assert FirstErrorIs(results, p);
    }
  }

  /** So a command that has its reply is sent again because a later one got CLUSTERDOWN. */
  lemma AnsweredAndStartedOver(a: Address)
    ensures var round := Round([a, a], {a}, map[], [Reply("OK"), Error(ClusterDownError)], [Aborts, Aborts]);
            round.Fits(2) && Again(round) == [] && StartsOver(OutcomeOf(round, true))
  {
    var round := Round([a, a], {a}, map[], [Reply("OK"), Error(ClusterDownError)], [Aborts, Aborts]);
    hide Positions, At, FirstBroken, First, Finals, Again, FirstError, OutcomeOf;
    NoneBroken(round);
    assert Final(round, 1) == Error(ClusterDownError) && Final(round, 0) == Reply("OK");
    NotAgain(round);
    StartsOverIff(round, true);
  }

  /** Without a broken connection every command has the reply that was read for it. */
  lemma NoneBroken(round: Round)
    requires round.Fits(|round.node|) && round.breaks == map[] && forall x | x in round.replies :: !Broken(x)
    ensures forall p | 0 <= p < |round.node| :: First(round, p) == round.replies[p]
  {
    hide Positions, At, FirstBroken;
    forall p | 0 <= p < |round.node| ensures First(round, p) == round.replies[p] {
      NodeFailureIff(round, round.node[p]);
    }
  }

  lemma NotAgain(round: Round)
    requires round.Fits(|round.node|) && forall p | 0 <= p < |round.node| :: !Retryable(First(round, p))
    ensures Again(round) == []
    ensures (forall p | 0 <= p < |round.node| :: round.node[p] in round.connects) ==>
              OutcomeOf(round, false) == Responses(Finals(round, |round.node|))
  {
    hide First, Finals, Firsts, RetryPositions;
    NoRetry(Firsts(round, |round.node|));
  }

  lemma {:induction false} NoRetry(results: seq<Result>)
    requires forall x | x in results :: !Retryable(x)
    ensures RetryPositions(results) == []
  {
    if results != [] { NoRetry(results[..|results| - 1]); }
  }

  // ---------------------------------------------------------------------------
  // One connection

  class Connection {
    /** The replies that are on their way. */
    var incoming: seq<Result>

    constructor ()
      ensures incoming == []
    {
      incoming := [];
    }

    /** Reading one reply; an exception that breaks the connection closes it. */
    method ParseResponse() returns (r: Result)
      requires incoming != []
      modifies this
      ensures r == old(incoming)[0]
      ensures incoming == if Broken(r) then [] else old(incoming)[1..]
    {
      r := incoming[0];
      incoming := if Broken(r) then [] else incoming[1..];
    }
  }

  class PipelineCommand {
    const position: nat
    var result: Result

    constructor (position: nat)
      ensures this.position == position && result == Nothing
    {
      this.position := position;
      result := Nothing;
    }
  }

  predicate DistinctCommands(commands: seq<PipelineCommand>) {
    forall i, j | 0 <= i < j < |commands| :: commands[i] != commands[j]
  }

  /** The results that reading gives to the commands of one connection. */
  function Read(replies: seq<Result>, k: nat): Result
    requires k < |replies|
  {
    match FirstBroken(replies)
    case Some(e) => Error(e)
    case None => replies[k]
  }

  class NodeCommands {
    const connection: Connection
    var commands: seq<PipelineCommand>

    constructor (connection: Connection)
      ensures this.connection == connection && commands == []
    {
      this.connection := connection;
      commands := [];
    }

    /** Sends all commands; an exception becomes the result of each. */
    method Write(replies: seq<Result>, breaks: Option<Failure>)
      requires DistinctCommands(commands) && |replies| == |commands| && connection.incoming == []
      modifies connection, commands
      ensures forall k | 0 <= k < |commands| ::
                commands[k].result == if breaks.Some? then Error(breaks.value) else Nothing
      ensures connection.incoming == if breaks.Some? then [] else replies
    {
      for i := 0 to |commands|
        invariant connection.incoming == [] && forall k | 0 <= k < i :: commands[k].result == Nothing
      {
        commands[i].result := Nothing;
      }
      if breaks.Some? {
        SetAll(Error(breaks.value));
      } else {
        connection.incoming := replies;
      }
    }

    method SetAll(r: Result)
      requires DistinctCommands(commands)
      modifies commands
      ensures forall k | 0 <= k < |commands| :: commands[k].result == r
    {
      for i := 0 to |commands|
        invariant forall k | 0 <= k < i :: commands[k].result == r
      {
        commands[i].result := r;
      }
    }

    /**
     Reads one reply for each command that has no result yet. When the connection breaks, every
     command of the node gets the exception, also those that had got their reply.
     */
    method ReadReplies(ghost replies: seq<Result>, ghost broke: Option<Failure>)
      requires DistinctCommands(commands) && |replies| == |commands|
      requires connection.incoming == if broke.Some? then [] else replies
      requires forall k | 0 <= k < |commands| ::
                 commands[k].result == if broke.Some? then Error(broke.value) else Nothing
      modifies connection, commands
      ensures forall k | 0 <= k < |commands| ::
                commands[k].result == if broke.Some? then Error(broke.value) else Read(replies, k)
      ensures connection.incoming == []
    {
      hide FirstBroken;
      FirstBrokenStep(replies, 0);
      for i := 0 to |commands|
        invariant connection.incoming == if broke.Some? then [] else replies[i..]
        invariant FirstBroken(replies[..i]) == None || broke.Some?
        invariant forall k | 0 <= k < i :: commands[k].result == if broke.Some? then Error(broke.value) else replies[k]
        invariant forall k | i <= k < |commands| ::
                    commands[k].result == if broke.Some? then Error(broke.value) else Nothing
      {
        var stop := ReadNext(replies, broke, i);
        if stop {
          return;
        }
      }
      assert replies[..|replies|] == replies;
    }

    /** One turn of the loop. */
    method ReadNext(ghost replies: seq<Result>, ghost broke: Option<Failure>, i: nat) returns (stop: bool)
      requires DistinctCommands(commands) && i < |replies| == |commands|
      requires connection.incoming == if broke.Some? then [] else replies[i..]
      requires FirstBroken(replies[..i]) == None || broke.Some?
      requires commands[i].result == if broke.Some? then Error(broke.value) else Nothing
      modifies connection, commands
      ensures stop ==> broke == None && connection.incoming == [] && forall k | 0 <= k < |commands| ::
                commands[k].result == Read(replies, k)
      ensures !stop ==>
                && connection.incoming == (if broke.Some? then [] else replies[i + 1..])
                && (FirstBroken(replies[..i + 1]) == None || broke.Some?)
                && commands[i].result == (if broke.Some? then Error(broke.value) else replies[i])
                && forall k | 0 <= k < |commands| && k != i :: commands[k].result == old(commands[k].result)
    {
      hide FirstBroken;
      FirstBrokenStep(replies, i);
      stop := false;
      if commands[i].result == Nothing {
        var r := connection.ParseResponse();
        if Broken(r) {
          FirstBrokenStays(replies, i + 1);
          SetAll(r);
          return true;
        }
        commands[i].result := r;
      }
    }
  }

  lemma FirstBrokenStep(replies: seq<Result>, i: nat)
    requires i <= |replies|
    ensures FirstBroken(replies[..0]) == None
    ensures i < |replies| && FirstBroken(replies[..i]) == None ==>
              FirstBroken(replies[..i + 1]) == if Broken(replies[i]) then Some(replies[i].error) else None
  {
    if i < |replies| { assert replies[..i + 1][..i] == replies[..i]; }
  }

  lemma {:induction false} FirstBrokenStays(replies: seq<Result>, i: nat)
    requires i <= |replies| && FirstBroken(replies[..i]).Some?
    ensures FirstBroken(replies) == FirstBroken(replies[..i])
  {
    if i < |replies| {
      assert replies[..|replies| - 1][..i] == replies[..i];
      FirstBrokenStays(replies[..|replies| - 1], i);
    } else {
      assert replies[..i] == replies;
    }
  }

  // ---------------------------------------------------------------------------
  // The pipeline

  /** The commands at the given positions. */
  function Select(stack: seq<PipelineCommand>, positions: seq<nat>): (r: seq<PipelineCommand>)
    requires forall k | 0 <= k < |positions| :: positions[k] < |stack|
    ensures |r| == |positions| && forall k | 0 <= k < |r| :: r[k] == stack[positions[k]]
  {
    if positions == [] then []
    else Select(stack, positions[..|positions| - 1]) + [stack[positions[|positions| - 1]]]
  }

  /** Commands are numbered in the order in which they were queued. */
  predicate Numbered(stack: seq<PipelineCommand>) {
    forall i | 0 <= i < |stack| :: stack[i].position == i
  }

  /** Each node that occurs has the commands assigned to it, on a connection of its own. */
  ghost predicate Built(stack: seq<PipelineCommand>, node: seq<Address>, order: seq<Address>,
      nodes: map<Address, NodeCommands>)
    requires |node| <= |stack|
    reads nodes.Values
  {
    && (forall i, j | 0 <= i < j < |order| :: order[i] != order[j])
    && (forall a :: a in order <==> a in nodes)
    && (forall i | 0 <= i < |node| :: node[i] in nodes)
    && (forall a | a in nodes :: nodes[a].commands == Select(stack, Positions(node, a)))
    && (forall a, b | a in nodes && b in nodes && a != b ::
        nodes[a] != nodes[b] && nodes[a].connection != nodes[b].connection)
  }

  class ClusterPipeline {
    var commandStack: seq<PipelineCommand>

    constructor ()
      ensures commandStack == []
    {
      commandStack := [];
    }

    /** execute_command only queues. */
    method ExecuteCommand()
      requires Numbered(commandStack)
      modifies this
      ensures Numbered(commandStack) && |commandStack| == |old(commandStack)| + 1 && old(commandStack) <= commandStack
      ensures fresh(commandStack[|old(commandStack)|])
    {
      var c := new PipelineCommand(|commandStack|);
      commandStack := commandStack + [c];
    }

    /** _send_cluster_commands: one round. The connections are empty when they are given back. */
    method SendOnce(stack: seq<PipelineCommand>, raiseOnError: bool, round: Round)
      returns (o: Outcome, resent: seq<nat>, nodes: map<Address, NodeCommands>)
      requires Numbered(stack) && round.Fits(|stack|)
      modifies stack
      ensures o == OutcomeOf(round, raiseOnError)
      // whatever it ends with: the commands sent again, none when some node cannot be connected to
      ensures if exists p :: 0 <= p < |stack| && round.node[p] !in round.connects then resent == []
              else SentAgain(round, resent, o == Aborted)
      ensures forall a | a in nodes :: fresh(nodes[a].connection) && nodes[a].connection.incoming == []
    {
      hide Built, First, Final, At, Positions, Select, OnTheWay, AfterWrite, Again, SentAgain;
      resent := [];
      var order, connected;
      order, nodes, connected := BuildNodes(stack, round);
      if !connected {
        return Raises(ConnectionError), resent, nodes;
      }
      WriteAll(stack, round, order, nodes);
      ReadAll(stack, round, order, nodes);
      var aborted;
      resent, aborted := SendSingly(stack, round);
      SentAgainAborts(round, resent, aborted);
      if aborted {
        return Aborted, resent, nodes;
      }
      var results := Collect(stack);
      assert results == Finals(round, |stack|);
      if raiseOnError && FirstError(results).Some? {
        return Raises(FirstError(results).value), resent, nodes;
      }
      o := Responses(results);
    }

    method RunRound(stack: seq<PipelineCommand>, raiseOnError: bool, rounds: seq<Round>, i: nat) returns (o: Outcome)
      requires Numbered(stack) && AllFit(rounds, |stack|) && i < |rounds|
      modifies stack
      ensures o == OutcomeAt(rounds, |stack|, i, raiseOnError)
    {
      hide OutcomeOf;
      var resent, nodes;
      o, resent, nodes := SendOnce(stack, raiseOnError, rounds[i]);
    }

    /** send_cluster_commands: up to four rounds over the whole stack. */
    method SendClusterCommands(stack: seq<PipelineCommand>, raiseOnError: bool, rounds: seq<Round>)
        returns (o: Outcome, ran: nat)
      requires Numbered(stack) && AllFit(rounds, |stack|)
      modifies stack
      ensures stack == [] ==> o == Responses([]) && ran == 0
      ensures stack != [] ==>
                && 1 <= ran <= |rounds| && o == OutcomeAt(rounds, |stack|, ran - 1, raiseOnError)
                && (forall i | 0 <= i < ran - 1 :: StartsOver(OutcomeAt(rounds, |stack|, i, raiseOnError)))
                && (StartsOver(o) ==> ran == |rounds|)
    {
      hide OutcomeAt, Numbered;
      o, ran := Responses([]), 0;
      if |stack| == 0 {
        return;
      }
      var retryAttempts := CLUSTER_ERROR_RETRY_ATTEMPTS;
      while true
        invariant ran + retryAttempts == CLUSTER_ERROR_RETRY_ATTEMPTS && retryAttempts >= 0
        invariant forall i | 0 <= i < ran :: StartsOver(OutcomeAt(rounds, |stack|, i, raiseOnError))
        decreases retryAttempts
      {
        o := RunRound(stack, raiseOnError, rounds, ran);
        ran := ran + 1;
        if StartsOver(o) && retryAttempts > 0 {
          retryAttempts := retryAttempts - 1;
        } else {
          return;
        }
      }
    }

    /** execute: the queue is empty afterwards, whatever happens. */
    method Execute(raiseOnError: bool, rounds: seq<Round>) returns (o: Outcome, ran: nat)
      requires Numbered(commandStack) && AllFit(rounds, |commandStack|)
      modifies this, commandStack
      ensures commandStack == []
      ensures old(commandStack) == [] ==> o == Responses([])
      ensures old(commandStack) != [] ==>
                1 <= ran <= |rounds| && o == OutcomeAt(rounds, |old(commandStack)|, ran - 1, raiseOnError)
    {
      hide OutcomeAt;
      o, ran := SendClusterCommands(commandStack, raiseOnError, rounds);
      commandStack := [];
    }
  }

  /** The response list. */
  method Collect(stack: seq<PipelineCommand>) returns (results: seq<Result>)
    ensures |results| == |stack| && forall p | 0 <= p < |stack| :: results[p] == stack[p].result
  {
    results := [];
    for i := 0 to |stack|
      invariant |results| == i && forall p | 0 <= p < i :: results[p] == stack[p].result
    {
      results := results + [stack[i].result];
    }
  }

  lemma RetrySteps(round: Round, i: nat)
    requires round.Fits(|round.node|) && i <= |round.node|
    ensures RetryPositions(Firsts(round, 0)) == []
    ensures i < |round.node| ==>
              RetryPositions(Firsts(round, i + 1))
              == if Retryable(First(round, i)) then RetryPositions(Firsts(round, i)) + [i]
                  else RetryPositions(Firsts(round, i))
    ensures i < |round.node| && Retryable(First(round, i)) ==> i in Again(round)
  {
    hide First, Retryable;
    if i < |round.node| {
      assert Firsts(round, i + 1)[..i] == Firsts(round, i);
      assert Firsts(round, |round.node|)[i] == First(round, i);
    }
  }

  lemma {:induction false} RetryPrefix(round: Round, i: nat, n: nat)
    requires round.Fits(|round.node|) && i <= n <= |round.node|
    ensures RetryPositions(Firsts(round, i)) <= RetryPositions(Firsts(round, n))
  {
    hide First, Firsts, RetryPositions, Retryable, Again;
    if i < n {
      RetryPrefix(round, i, n - 1);
      RetrySteps(round, n - 1);
    }
  }

  lemma AbortsAt(round: Round, i: nat)
    requires round.Fits(|round.node|) && i < |round.node| && Retryable(First(round, i)) && round.singles[i].Aborts?
    requires forall p | p in RetryPositions(Firsts(round, i)) :: round.singles[p].Got?
    ensures SentAgain(round, RetryPositions(Firsts(round, i)), true)
  {
    hide First, Firsts, RetryPositions, Retryable;
    var done, again := RetryPositions(Firsts(round, i)), Again(round);
    RetrySteps(round, i);
    RetryPrefix(round, i + 1, |round.node|);
    hide Again;
    NextInPrefix(done, i, again);
  }

  lemma NextInPrefix(done: seq<nat>, next: nat, all: seq<nat>)
    requires done + [next] <= all
    ensures done <= all && |done| < |all| && all[|done|] == next
  {
    assert (done + [next])[|done|] == next;
  }

  lemma NoneAborts(round: Round, resent: seq<nat>)
    requires round.Fits(|round.node|) && resent == Again(round) && forall p | p in resent :: round.singles[p].Got?
    ensures SentAgain(round, resent, false)
  {
  }

  lemma SentAgainAborts(round: Round, resent: seq<nat>, aborted: bool)
    requires round.Fits(|round.node|) && SentAgain(round, resent, aborted)
    ensures aborted <==> exists p :: p in Again(round) && round.singles[p].Aborts?
  {
    hide First, Firsts, RetryPositions, Retryable;
    var again := Again(round);
    if aborted { assert again[|resent|] in again; }
  }

  /** The commands left are sent one at a time by the client itself. */
  method SendSingly(stack: seq<PipelineCommand>, round: Round) returns (resent: seq<nat>, aborted: bool)
    requires Numbered(stack) && round.Fits(|stack|)
    requires forall p | 0 <= p < |stack| :: stack[p].result == First(round, p)
    modifies stack
    ensures SentAgain(round, resent, aborted)
    ensures !aborted ==> forall p | 0 <= p < |stack| :: stack[p].result == Final(round, p)
  {
    hide First, Firsts, RetryPositions, Retryable, SentAgain;
    resent, aborted := [], false;
    RetrySteps(round, 0);
    for i := 0 to |stack|
      invariant resent == RetryPositions(Firsts(round, i))
      invariant forall p | p in resent :: round.singles[p].Got?
      invariant forall p | 0 <= p < |stack| :: stack[p].result == if p < i then Final(round, p) else First(round, p)
    {
      var c := stack[i];
      RetrySteps(round, i);
      if Retryable(c.result) {
        match round.singles[i] {
          case Aborts =>
            AbortsAt(round, i);
            aborted := true;
            return;
          case Got(r) => c.result := r;
        }
        resent := resent + [i];
      }
    }
    NoneAborts(round, resent);
  }

  /** Assigns the commands to nodes, connecting to each node when it first occurs. */
  method BuildNodes(stack: seq<PipelineCommand>, round: Round)
    returns (order: seq<Address>, nodes: map<Address, NodeCommands>, connected: bool)
    requires Numbered(stack) && round.Fits(|stack|)
    ensures connected <==> forall i | 0 <= i < |stack| :: round.node[i] in round.connects
    ensures connected ==> Built(stack, round.node, order, nodes)
    ensures forall a | a in nodes :: fresh(nodes[a]) && fresh(nodes[a].connection) && nodes[a].connection.incoming == []
  {
    hide Built;
    order, nodes, connected := [], map[], true;
    NothingBuilt(stack, round.node);
    for i := 0 to |stack|
      invariant connected && Built(stack, round.node[..i], order, nodes)
      invariant nodes.Keys <= round.connects && forall j | 0 <= j < i :: round.node[j] in round.connects
      invariant forall a | a in nodes :: fresh(nodes[a]) && fresh(nodes[a].connection)
                  && nodes[a].connection.incoming == []
    {
      var a := round.node[i];
      if a !in nodes {
        if a !in round.connects {
          connected := false;
          return;
        }
        order, nodes := NewNode(stack, round.node[..i], order, nodes, a);
      }
      Append(stack, round.node[..i], stack[i], a, order, nodes);
      assert round.node[..i + 1] == round.node[..i] + [a];
    }
    assert round.node[..|stack|] == round.node;
  }

  lemma NothingBuilt(stack: seq<PipelineCommand>, node: seq<Address>)
    ensures Built(stack, node[..0], [], map[])
  {
  }

  /** A node that occurs for the first time gets a connection. */
  method NewNode(stack: seq<PipelineCommand>, ghost node: seq<Address>, order: seq<Address>,
      nodes: map<Address, NodeCommands>, a: Address)
    returns (moreOrder: seq<Address>, moreNodes: map<Address, NodeCommands>)
    requires |node| <= |stack| && Built(stack, node, order, nodes) && a !in nodes
    ensures Built(stack, node, moreOrder, moreNodes) && a in moreNodes && moreNodes == nodes[a := moreNodes[a]]
    ensures fresh(moreNodes[a]) && fresh(moreNodes[a].connection) && moreNodes[a].connection.incoming == []
  {
    hide Positions, Select;
    NoPositions(node, a);
    var connection := new Connection();
    var n := new NodeCommands(connection);
    moreOrder := order + [a];
    moreNodes := nodes[a := n];
    assert Select(stack, []) == [] by { assert |Select(stack, [])| == 0; }
  }

  /** The next command joins those of its node. */
  method Append(stack: seq<PipelineCommand>, ghost node: seq<Address>, c: PipelineCommand, a: Address,
      order: seq<Address>, nodes: map<Address, NodeCommands>)
    requires |node| < |stack| && c == stack[|node|] && Built(stack, node, order, nodes) && a in nodes
    modifies nodes.Values
    ensures Built(stack, node + [a], order, nodes)
  {
    hide Positions, Select;
    SelectMore(stack, node, a);
    nodes[a].commands := nodes[a].commands + [c];
  }

  lemma NoPositions(node: seq<Address>, a: Address)
    requires a !in node
    ensures Positions(node, a) == []
  {
  }

  lemma SelectMore(stack: seq<PipelineCommand>, node: seq<Address>, last: Address)
    requires |node| < |stack|
    ensures forall a :: Positions(node + [last], a) ==
              if a == last then Positions(node, a) + [|node|] else Positions(node, a)
    ensures Select(stack, Positions(node, last) + [|node|]) == Select(stack, Positions(node, last)) + [stack[|node|]]
  {
    assert (node + [last])[..|node|] == node;
    var ps := Positions(node, last);
    assert (ps + [|node|])[..|ps|] == ps;
  }

  lemma OwnCommands(stack: seq<PipelineCommand>, node: seq<Address>, a: Address)
    requires Numbered(stack) && |node| == |stack|
    ensures var own := Select(stack, Positions(node, a));
            && DistinctCommands(own)
            && (forall p | 0 <= p < |stack| :: stack[p] in own <==> node[p] == a)
  {
    hide Positions, Select;
    var positions := Positions(node, a);
    var own := Select(stack, positions);
    forall i, j | 0 <= i < j < |own| ensures own[i] != own[j] {
      assert own[i].position == positions[i] && own[j].position == positions[j];
    }
    forall p | 0 <= p < |stack| ensures stack[p] in own <==> node[p] == a {
      if node[p] == a {
        var k :| 0 <= k < |positions| && positions[k] == p;
        assert own[k] == stack[p];
      }
      if stack[p] in own {
        var k :| 0 <= k < |own| && own[k] == stack[p];
        assert own[k].position == positions[k] && stack[p].position == p;
      }
    }
  }

  /** What a command has after its node has been written to. */
  function AfterWrite(round: Round, a: Address): Result {
    if a in round.breaks then Error(round.breaks[a]) else Nothing
  }

  function OnTheWay(round: Round, a: Address): seq<Result>
    requires round.Fits(|round.node|)
  {
    if a in round.breaks then [] else At(round.replies, Positions(round.node, a))
  }

  function BreakOf(round: Round, a: Address): Option<Failure> {
    if a in round.breaks then Some(round.breaks[a]) else None
  }

  method WriteNode(stack: seq<PipelineCommand>, round: Round, a: Address, n: NodeCommands)
    requires Numbered(stack) && round.Fits(|stack|) && n.commands == Select(stack, Positions(round.node, a))
    requires n.connection.incoming == []
    modifies stack, n.connection
    ensures forall p | 0 <= p < |stack| ::
              stack[p].result == if round.node[p] == a then AfterWrite(round, a) else old(stack[p].result)
    ensures n.connection.incoming == OnTheWay(round, a)
  {
    hide Positions, Select, At;
    OwnCommands(stack, round.node, a);
    forall c | c in n.commands ensures c in stack { InStack(stack, round, a, c); }
    n.Write(At(round.replies, Positions(round.node, a)), BreakOf(round, a));
    forall p | 0 <= p < |stack| && round.node[p] == a ensures stack[p].result == AfterWrite(round, a) {
      assert stack[p] in n.commands;
    }
  }

  method ReadNode(stack: seq<PipelineCommand>, round: Round, a: Address, n: NodeCommands)
    requires Numbered(stack) && round.Fits(|stack|) && n.commands == Select(stack, Positions(round.node, a))
    requires forall p | 0 <= p < |stack| && round.node[p] == a :: stack[p].result == AfterWrite(round, a)
    requires n.connection.incoming == OnTheWay(round, a)
    modifies stack, n.connection
    ensures forall p | 0 <= p < |stack| ::
              stack[p].result == if round.node[p] == a then First(round, p) else old(stack[p].result)
    ensures n.connection.incoming == []
  {
    hide Positions, Select, At, FirstBroken;
    OwnCommands(stack, round.node, a);
    forall k | 0 <= k < |n.commands| ensures n.commands[k].result == AfterWrite(round, a) && n.commands[k] in stack {
      CommandAt(stack, round, a, k);
    }
    n.ReadReplies(At(round.replies, Positions(round.node, a)), BreakOf(round, a));
    forall p | 0 <= p < |stack| && round.node[p] == a ensures stack[p].result == First(round, p) {
      assert stack[p] in n.commands;
      var k :| 0 <= k < |n.commands| && n.commands[k] == stack[p];
      CommandAt(stack, round, a, k);
    }
  }

  lemma InStack(stack: seq<PipelineCommand>, round: Round, a: Address, c: PipelineCommand)
    requires |round.node| == |stack| && c in Select(stack, Positions(round.node, a))
    ensures c in stack
  {
  }

  /** All nodes are written to before any reply is read. */
  method WriteAll(stack: seq<PipelineCommand>, round: Round, order: seq<Address>, nodes: map<Address, NodeCommands>)
    requires Numbered(stack) && round.Fits(|stack|) && Built(stack, round.node, order, nodes)
    requires forall a | a in nodes :: nodes[a].connection.incoming == []
    modifies stack, set a | a in nodes :: nodes[a].connection
    ensures forall p | 0 <= p < |stack| :: stack[p].result == AfterWrite(round, round.node[p])
    ensures forall a | a in nodes :: nodes[a].connection.incoming == OnTheWay(round, a)
  {
    hide Positions, Select, At, OnTheWay;
    for i := 0 to |order|
      invariant forall p | 0 <= p < |stack| && round.node[p] in order[..i] ::
                  stack[p].result == AfterWrite(round, round.node[p])
      invariant forall a | a in nodes :: nodes[a].connection.incoming ==
                  if a in order[..i] then OnTheWay(round, a) else []
    {
      assert order[..i + 1] == order[..i] + [order[i]];
      WriteNode(stack, round, order[i], nodes[order[i]]);
    }
    assert order[..|order|] == order;
  }

  /** The replies of one node after the other. */
  method ReadAll(stack: seq<PipelineCommand>, round: Round, order: seq<Address>, nodes: map<Address, NodeCommands>)
    requires Numbered(stack) && round.Fits(|stack|) && Built(stack, round.node, order, nodes)
    requires forall p | 0 <= p < |stack| :: stack[p].result == AfterWrite(round, round.node[p])
    requires forall a | a in nodes :: nodes[a].connection.incoming == OnTheWay(round, a)
    modifies stack, set a | a in nodes :: nodes[a].connection
    ensures forall p | 0 <= p < |stack| :: stack[p].result == First(round, p)
    ensures forall a | a in nodes :: nodes[a].connection.incoming == []
  {
    hide Positions, Select, At, OnTheWay, First, AfterWrite;
    for i := 0 to |order|
      invariant forall p | 0 <= p < |stack| ::
                  stack[p].result == if round.node[p] in order[..i] then First(round, p)
                    else AfterWrite(round, round.node[p])
      invariant forall a | a in nodes :: nodes[a].connection.incoming ==
                  if a in order[..i] then [] else OnTheWay(round, a)
    {
      assert order[..i + 1] == order[..i] + [order[i]];
      ReadNode(stack, round, order[i], nodes[order[i]]);
    }
    assert order[..|order|] == order;
  }

  /** The k-th command of a node: where it stands in the pipeline, and which reply is its own. */
  lemma CommandAt(stack: seq<PipelineCommand>, round: Round, a: Address, k: nat)
    requires Numbered(stack) && round.Fits(|stack|) && k < |Positions(round.node, a)|
    ensures var p := Positions(round.node, a)[k];
            && p < |stack| && round.node[p] == a
            && Select(stack, Positions(round.node, a))[k] == stack[p]
            && At(round.replies, Positions(round.node, a))[k] == round.replies[p]
  {
  }
}
