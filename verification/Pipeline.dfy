/**
 The pipeline object over its life: which commands go out at once, which are queued, how a
 lost connection is handled, and in which state the connection is given back to its pool.
 */
module Pipeline {
  import opened Wrappers
  import opened Transaction

  datatype ServedAll = ServedAll(conn: Conn, replies: seq<Reply>)

  /** The server's state and replies after several commands. */
  function ServeAll(c: Conn, cmds: seq<Command>, exec: Reply): (r: ServedAll)
    ensures |r.replies| == |cmds|
  {
    if cmds == [] then ServedAll(c, [])
    else
      var before := ServeAll(c, cmds[..|cmds| - 1], exec);
      var last := Serve(before.conn, cmds[|cmds| - 1], exec);
      ServedAll(last.conn, before.replies + [last.reply])
  }

  /** The commands that are packed and sent. */
  function SentOf(commands: seq<Command>): (r: seq<Command>)
    ensures |r| == SentCount(commands)
    ensures forall c | c in r :: c in commands
  {
    if commands == [] then []
    else
      var last := commands[|commands| - 1];
      SentOf(commands[..|commands| - 1]) + (if last.empty.Some? then [] else [last])
  }

  /** What EXEC can answer. */
  type ExecReply = r: Reply | r.Items? || r.Nil? || r.Abort? witness Nil

  /** How one exchange goes: what EXEC would answer, and at which reply the connection breaks. */
  datatype Try = Try(exec: ExecReply, lostAt: Option<nat>) {
    predicate Breaks(replies: nat) { lostAt.Some? && lostAt.value < replies }
  }

  /** Behind the end of a script the server cannot be reached. */
  function TryAt(tries: seq<Try>, i: nat): Try {
    if i < |tries| then tries[i] else Try(Nil, Some(0))
  }

  /** How the UNWATCH of reset goes. */
  datatype Fault = Fine | Refused | Lost | TimedOut

  datatype Result = Queued | Answered(reply: Reply) | Executed(ended: Ended) | RedisError | WatchErrorRaised
      | GaveUp(retried: bool) | ResetFailed

  function Arriving(replies: seq<Reply>, lostAt: Option<nat>): (r: seq<Reply>)
    ensures |r| == |replies|
  {
    if lostAt.Some? && lostAt.value < |replies| then replies[lostAt.value := Reply.Lost] else replies
  }

  /** What parse_response does to the watching flag when a reply is no error. */
  function Flag(watching: bool, cmd: Command, reply: Reply): bool {
    if reply.Error? || reply.Abort? || !cmd.upper then watching
    else match cmd.kind
         case Watch => true
         case Unwatch => false
         case Exec => false
         case Discard => false
         case _ => watching
  }

  /** The flag after all replies of a pipeline without MULTI have been read. */
  function FlagAll(watching: bool, cmds: seq<Command>, replies: seq<Reply>): bool
    requires |cmds| == |replies|
  {
    if cmds == [] then watching
    else
      var n := |cmds| - 1;
      Flag(FlagAll(watching, cmds[..n], replies[..n]), cmds[n], replies[n])
  }

  /** A WATCH in capitals that is not refused. */
  predicate Raises(cmd: Command, reply: Reply) { cmd.upper && cmd.kind == Watch && !Refusal(reply) }

  /** An UNWATCH, EXEC or DISCARD in capitals that is not refused. */
  predicate Lowers(cmd: Command, reply: Reply) {
    cmd.upper && (cmd.kind == Unwatch || cmd.kind == Exec || cmd.kind == Discard) && !Refusal(reply)
  }

  lemma FlagIs(watching: bool, cmd: Command, reply: Reply)
    ensures Flag(watching, cmd, reply) <==> Raises(cmd, reply) || (watching && !Lowers(cmd, reply))
  {
  }

  /** No command from `from` on lowers the flag. */
  predicate StaysUp(cmds: seq<Command>, replies: seq<Reply>, from: nat)
    requires |cmds| == |replies|
  {
    forall j | from <= j < |cmds| :: !Lowers(cmds[j], replies[j])
  }

  predicate RaisedAt(cmds: seq<Command>, replies: seq<Reply>, i: nat)
    requires |cmds| == |replies| && i < |cmds|
  {
    Raises(cmds[i], replies[i]) && StaysUp(cmds, replies, i + 1)
  }

  /** The flag is up exactly when it was raised, or was up before, and no command has lowered it since. */
  lemma {:induction false} FlagAllIff(watching: bool, cmds: seq<Command>, replies: seq<Reply>)
    requires |cmds| == |replies|
    ensures FlagAll(watching, cmds, replies)
            <==> (watching && StaysUp(cmds, replies, 0)) || exists i: nat :: i < |cmds| && RaisedAt(cmds, replies, i)
  {
    if cmds != [] {
      var n := |cmds| - 1;
      FlagAllIff(watching, cmds[..n], replies[..n]);
      forall i: nat | i <= n
        ensures StaysUp(cmds, replies, i) <==> StaysUp(cmds[..n], replies[..n], i) && !Lowers(cmds[n], replies[n])
      {
        StaysUpNext(cmds, replies, i);
      }
      forall i: nat | i < n
        ensures RaisedAt(cmds, replies, i) <==> RaisedAt(cmds[..n], replies[..n], i) && !Lowers(cmds[n], replies[n])
      {
        StaysUpNext(cmds, replies, i + 1);
      }
      assert RaisedAt(cmds, replies, n) <==> Raises(cmds[n], replies[n]);
      hide StaysUp, RaisedAt;
    }
  }

  lemma StaysUpNext(cmds: seq<Command>, replies: seq<Reply>, i: nat)
    requires |cmds| == |replies| && i < |cmds|
    ensures var n := |cmds| - 1;
            StaysUp(cmds, replies, i) <==> StaysUp(cmds[..n], replies[..n], i) && !Lowers(cmds[n], replies[n])
  {
    hide Lowers;
    var n := |cmds| - 1;
    assert forall j | i <= j < n :: Lowers(cmds[j], replies[j]) == Lowers(cmds[..n][j], replies[..n][j]);
  }

  /** Sending on a closed connection opens it again. */
  function Open(c: Conn): Conn { if c.alive then c else FRESH }

  predicate Plain(cmds: seq<Command>) { forall c | c in cmds :: c.kind != Watch && c.kind != Multi }

  /** Whatever the server watches, the flag knows; and no MULTI is left open. */
  predicate Known(c: Conn, watching: bool) { !c.multi && (c.watches ==> watching) }

  lemma {:induction false} PlainServe(c: Conn, cmds: seq<Command>, exec: Reply)
    requires Plain(cmds)
    ensures var r := ServeAll(c, cmds, exec).conn;
            (r.watches ==> c.watches) && (r.multi ==> c.multi) && r.alive == c.alive
  {
    if cmds != [] { PlainServe(c, cmds[..|cmds| - 1], exec); }
  }

  /** A pipeline of plain commands keeps the flag right. */
  lemma {:induction false} PlainPipelineKnown(c: Conn, watching: bool, cmds: seq<Command>, exec: Reply)
    requires Plain(cmds) && Known(c, watching)
    ensures var r := ServeAll(c, cmds, exec);
            Known(r.conn, FlagAll(watching, cmds, r.replies))
  {
    if cmds != [] {
      var n := |cmds| - 1;
      PlainPipelineKnown(c, watching, cmds[..n], exec);
      var r := ServeAll(c, cmds, exec);
      assert r.replies[..n] == ServeAll(c, cmds[..n], exec).replies;
    }
  }

  /** A transaction of plain commands does, too: EXEC is read without an error only when it ended the transaction. */
  lemma PlainTransactionKnown(c: Conn, watching: bool, cmds: seq<Command>, exec: ExecReply)
    requires Plain(cmds) && Known(c, watching)
    ensures var r := ServeAll(c, [MULTI] + cmds + [EXEC], exec);
            && Known(r.conn, if ExecRead(r.replies) then false else watching)
            && !r.replies[|r.replies| - 1].Status?
  {
    var first := Serve(c, MULTI, exec).conn;
    ServeFrom(c, MULTI, cmds, exec);
    PlainServe(first, cmds, exec);
    var all := [MULTI] + cmds + [EXEC];
    assert all[..|all| - 1] == [MULTI] + cmds;
    var r := ServeAll(c, all, exec);
    assert r.replies[|r.replies| - 1] == Serve(ServeAll(first, cmds, exec).conn, EXEC, exec).reply;
  }

  lemma {:induction false} ServeFrom(c: Conn, head: Command, cmds: seq<Command>, exec: Reply)
    ensures ServeAll(c, [head] + cmds, exec).conn == ServeAll(Serve(c, head, exec).conn, cmds, exec).conn
  {
    var all := [head] + cmds;
    if cmds == [] {
      assert all[..0] == [] && all == [head];
    } else {
      var n := |cmds| - 1;
      assert all[..|all| - 1] == [head] + cmds[..n];
      ServeFrom(c, head, cmds[..n], exec);
    }
  }

  predicate Accepted(cmd: Command, kind: Kind) { cmd.kind == kind && cmd.refusal == None }

  /** Ends a transaction; a refused EXEC does, too. */
  predicate Closes(cmd: Command) { cmd.kind == Exec || Accepted(cmd, Discard) }

  /** Some MULTI is not followed by an end of its transaction. */
  predicate LeavesMulti(multi: bool, cmds: seq<Command>) {
    || (multi && forall j | 0 <= j < |cmds| :: !Closes(cmds[j]))
    || exists i :: 0 <= i < |cmds| && Accepted(cmds[i], Multi) && forall j | i < j < |cmds| :: !Closes(cmds[j])
  }

  /** Makes the server forget the watched keys: an UNWATCH that is not just queued, or the end of a transaction. */
  predicate Forgets(cmd: Command, multi: bool) { if multi then Closes(cmd) else Accepted(cmd, Unwatch) }

  predicate ForgetsAt(multi: bool, cmds: seq<Command>, j: nat)
    requires j < |cmds|
  {
    Forgets(cmds[j], LeavesMulti(multi, cmds[..j]))
  }

  predicate WatchesAt(multi: bool, cmds: seq<Command>, i: nat)
    requires i < |cmds|
  {
    Accepted(cmds[i], Watch) && !LeavesMulti(multi, cmds[..i])
  }

  /** Some WATCH outside of transactions is not followed by a command that makes the server forget it. */
  predicate LeavesWatch(c: Conn, cmds: seq<Command>) {
    || (c.watches && forall j | 0 <= j < |cmds| :: !ForgetsAt(c.multi, cmds, j))
    || exists i :: 0 <= i < |cmds| && WatchesAt(c.multi, cmds, i) && forall j | i < j < |cmds| ::
        !ForgetsAt(c.multi, cmds, j)
  }

  lemma LeavesMultiNext(multi: bool, init: seq<Command>, last: Command)
    ensures LeavesMulti(multi, init + [last]) <==> Accepted(last, Multi) || (LeavesMulti(multi, init) && !Closes(last))
  {
    var cmds, n := init + [last], |init|;
    assert cmds[n] == last && forall j | 0 <= j < n :: cmds[j] == init[j];
    if multi && forall j | 0 <= j < |cmds| :: !Closes(cmds[j]) {
      assert !Closes(cmds[n]);
      assert forall j | 0 <= j < n :: init[j] == cmds[j];
    }
    if i :| 0 <= i < |cmds| && Accepted(cmds[i], Multi) && forall j | i < j < |cmds| :: !Closes(cmds[j]) {
      if i < n {
        assert Accepted(init[i], Multi) && !Closes(cmds[n]);
        assert forall j | i < j < n :: init[j] == cmds[j];
      }
    }
    if Accepted(last, Multi) { assert Accepted(cmds[n], Multi); }
    if i :| 0 <= i < n && Accepted(init[i], Multi) && forall j | i < j < n :: !Closes(init[j]) {
      assert Accepted(cmds[i], Multi);
    }
  }

  lemma SameBefore(c: Conn, init: seq<Command>, last: Command, j: nat)
    requires j < |init|
    ensures WatchesAt(c.multi, init + [last], j) == WatchesAt(c.multi, init, j)
    ensures ForgetsAt(c.multi, init + [last], j) == ForgetsAt(c.multi, init, j)
  {
    hide LeavesMulti;
    assert (init + [last])[..j] == init[..j];
  }

  lemma LeavesWatchNext(c: Conn, init: seq<Command>, last: Command)
    ensures var multi := LeavesMulti(c.multi, init);
            LeavesWatch(c, init + [last])
            <==> (Accepted(last, Watch) && !multi) || (LeavesWatch(c, init) && !Forgets(last, multi))
  {
    hide LeavesMulti, Forgets, Accepted;
    var cmds, n := init + [last], |init|;
    assert cmds[..n] == init && cmds[n] == last;
    forall j: nat | j < n
      ensures WatchesAt(c.multi, cmds, j) == WatchesAt(c.multi, init, j)
      ensures ForgetsAt(c.multi, cmds, j) == ForgetsAt(c.multi, init, j)
    {
      SameBefore(c, init, last, j);
    }
    assert ForgetsAt(c.multi, cmds, n) == Forgets(last, LeavesMulti(c.multi, init));
    assert WatchesAt(c.multi, cmds, n) == (Accepted(last, Watch) && !LeavesMulti(c.multi, init));
    hide WatchesAt, ForgetsAt;
    LeavesWatchSplit(c, init, last);
  }

  lemma LeavesWatchSplit(c: Conn, init: seq<Command>, last: Command)
    requires forall j: nat | j < |init| :: WatchesAt(c.multi, init + [last], j) == WatchesAt(c.multi, init, j)
    requires forall j: nat | j < |init| :: ForgetsAt(c.multi, init + [last], j) == ForgetsAt(c.multi, init, j)
    ensures LeavesWatch(c, init + [last])
            <==> WatchesAt(c.multi, init + [last], |init|)
                 || (LeavesWatch(c, init) && !ForgetsAt(c.multi, init + [last], |init|))
  {
    hide WatchesAt, ForgetsAt;
    var cmds, n := init + [last], |init|;
    if i :| 0 <= i < |cmds| && WatchesAt(c.multi, cmds, i) && forall j | i < j < |cmds| ::
        !ForgetsAt(c.multi, cmds, j) {
      if i < n {
        assert WatchesAt(c.multi, init, i) && !ForgetsAt(c.multi, cmds, n);
      }
    }
    if i :| 0 <= i < n && WatchesAt(c.multi, init, i) && forall j | i < j < n :: !ForgetsAt(c.multi, init, j) {
      assert WatchesAt(c.multi, cmds, i);
    }
  }

  lemma ServedOne(c: Conn, cmd: Command, exec: Reply)
    ensures var left := Serve(c, cmd, exec).conn;
            && (left.multi <==> Accepted(cmd, Multi) || (c.multi && !Closes(cmd)))
            && (left.watches <==> (Accepted(cmd, Watch) && !c.multi) || (c.watches && !Forgets(cmd, c.multi)))
  {
  }

  lemma NothingServed(c: Conn)
    ensures LeavesMulti(c.multi, []) == c.multi && LeavesWatch(c, []) == c.watches
  {
  }

  /** After any commands at all: when the server is left inside a transaction, and when it is left watching. */
  lemma {:induction false} LeftBehindIff(c: Conn, cmds: seq<Command>, exec: Reply)
    ensures var left := ServeAll(c, cmds, exec).conn;
            (left.multi <==> LeavesMulti(c.multi, cmds)) && (left.watches <==> LeavesWatch(c, cmds))
  {
    hide LeavesMulti, LeavesWatch, Serve, Accepted, Closes, Forgets;
    if cmds == [] {
      NothingServed(c);
    } else {
      var init, last := cmds[..|cmds| - 1], cmds[|cmds| - 1];
      LeftBehindIff(c, init, exec);
      ServedOne(ServeAll(c, init, exec).conn, last, exec);
      assert cmds == init + [last];
      LeavesMultiNext(c.multi, init, last);
      LeavesWatchNext(c, init, last);
    }
  }

  /**
   Queued commands on a clean connection, none of them WATCH in capitals (that one is never queued):
   the flag stays down, so it is wrong exactly when the commands leave a watch or a transaction behind.
   */
  lemma {:induction false} FlagMissesWatchIff(c: Conn, cmds: seq<Command>, exec: Reply)
    requires !c.multi && !c.watches
    requires forall x | x in cmds :: !(x.kind == Watch && x.upper)
    ensures var r := ServeAll(c, cmds, exec);
            && !FlagAll(false, cmds, r.replies)
            && (Known(r.conn, false) <==> !LeavesWatch(c, cmds) && !LeavesMulti(false, cmds))
  {
    LeftBehindIff(c, cmds, exec);
    if cmds != [] {
      var n := |cmds| - 1;
      FlagMissesWatchIff(c, cmds[..n], exec);
      var r := ServeAll(c, cmds, exec);
      assert r.replies[..n] == ServeAll(c, cmds[..n], exec).replies;
      hide LeavesWatch, LeavesMulti;
    }
  }

  // ---------------------------------------------------------------------------
  // What each call comes to

  /** The fields of a pipeline; `released` holds the connections given back to the pool, as the server sees them. */
  datatype State = State(connection: Option<Conn>, watching: bool, explicit: bool, stack: seq<Command>,
      released: seq<Conn>)

  datatype Policy = Policy(transaction: bool, retries: nat, retryOnError: bool)

  datatype Done = Done(state: State, result: Result)

  /** A lost connection is fatal while watching, and otherwise tried again as the retry policy says. */
  function Attempts(p: Policy, watching: bool): nat {
    if watching || !p.retryOnError then 1 else p.retries + 1
  }

  /** The first try from `i` on whose replies all arrive, or `limit`. */
  function FirstKept(tries: seq<Try>, replies: nat, i: nat, limit: nat): (at: nat)
    requires i <= limit
    ensures i <= at <= limit && (at < limit ==> !TryAt(tries, at).Breaks(replies))
    ensures forall k | i <= k < at :: TryAt(tries, k).Breaks(replies)
    decreases limit - i
  {
    if i == limit || !TryAt(tries, i).Breaks(replies) then i else FirstKept(tries, replies, i + 1, limit)
  }

  /** The connection on which try `at` is made: each failed try closed the one before. */
  function Opened(s: State, at: nat): Conn {
    if at == 0 && s.connection.Some? then Open(s.connection.value) else FRESH
  }

  predicate ResetFails(s: State, fault: Fault) {
    s.watching && s.connection.Some? && (fault == Refused || fault == TimedOut)
  }

  /** In which state reset gives a connection back. */
  function GivenBack(c: Conn, watching: bool, fault: Fault): Conn {
    if !watching then c
    else if fault == Fine then Serve(Open(c), UNWATCH, Nil).conn
    else DEAD
  }

  /** When UNWATCH fails with anything but a lost connection, reset stops there and keeps the connection. */
  function AfterReset(s: State, fault: Fault): State {
    if ResetFails(s, fault) then
      s.(stack := [], connection := Some(if fault == Refused then Open(s.connection.value) else DEAD))
    else
      State(None, false, false, [],
            s.released + if s.connection.Some? then [GivenBack(s.connection.value, s.watching, fault)] else [])
  }

  function AfterImmediate(p: Policy, s: State, cmd: Command, tries: seq<Try>, fault: Fault): Done {
    var at := FirstKept(tries, 1, 0, Attempts(p, s.watching));
    var broken := s.(connection := Some(DEAD));
    if at < Attempts(p, s.watching) then
      var served := Serve(Opened(s, at), cmd, TryAt(tries, at).exec);
      Done(s.(connection := Some(served.conn), watching := Flag(s.watching, cmd, served.reply)), Answered(served.reply))
    else if ResetFails(broken, fault) then Done(AfterReset(broken, fault), ResetFailed)
    else if s.watching then Done(AfterReset(broken, fault), WatchErrorRaised)
    else if !p.retryOnError then Done(AfterReset(broken, fault), GaveUp(false))
    else Done(broken, GaveUp(true))
  }

  function AfterCommand(p: Policy, s: State, cmd: Command, tries: seq<Try>, fault: Fault): Done {
    if (s.watching || (cmd.kind == Watch && cmd.upper)) && !s.explicit then AfterImmediate(p, s, cmd, tries, fault)
    else Done(s.(stack := s.stack + [cmd]), Queued)
  }

  /** The connection and the flag once all replies to the stack have been read. */
  function LeftConn(c: Conn, stack: seq<Command>, transactional: bool, exec: ExecReply): Conn {
    if Outcome(c, stack, transactional, exec, false) == WrongNumber then DEAD
    else ServeAll(c, OnTheWire(stack, transactional), exec).conn
  }

  function LeftFlag(c: Conn, watching: bool, stack: seq<Command>, transactional: bool, exec: ExecReply): bool {
    var replies := ServeAll(c, OnTheWire(stack, transactional), exec).replies;
    if transactional then watching && !ExecRead(replies) else FlagAll(watching, stack, replies)
  }

  /** The stack is sent until the replies arrive or the policy gives up. */
  function AfterTries(p: Policy, s: State, raiseOnError: bool, tries: seq<Try>): Done {
    var transactional := p.transaction || s.explicit;
    var at := FirstKept(tries, |OnTheWire(s.stack, transactional)|, 0, Attempts(p, s.watching));
    var c, exec := Opened(s, at), TryAt(tries, at).exec;
    if at == Attempts(p, s.watching) then
      Done(s.(connection := Some(DEAD)), if s.watching then WatchErrorRaised else GaveUp(p.retryOnError))
    else
      Done(s.(connection := Some(LeftConn(c, s.stack, transactional, exec)),
              watching := LeftFlag(c, s.watching, s.stack, transactional, exec)),
           Executed(Outcome(c, s.stack, transactional, exec, raiseOnError)))
  }

  function AfterExecute(p: Policy, s: State, raiseOnError: bool, tries: seq<Try>, fault: Fault): Done {
    if s.stack == [] && !s.watching then Done(s, Executed(Response([])))
    else
      var tried := AfterTries(p, s, raiseOnError, tries);
      Done(AfterReset(tried.state, fault), if ResetFails(tried.state, fault) then ResetFailed else tried.result)
  }

  /** One call of the pipeline's user, and how the network behaves during it. */
  datatype Call = Call(what: What, tries: seq<Try>, fault: Fault)

  datatype What =
    | DoWatch(refusal: Option<string>)
    | DoUnwatch(refusal: Option<string>)
    | DoMulti
    | DoCommand(cmd: Command)
    | DoExecute(raiseOnError: bool)
    | DoReset

  function After(p: Policy, s: State, call: Call): Done {
    match call.what
    case DoWatch(refusal) =>
      if s.explicit then Done(s, RedisError)
      else AfterCommand(p, s, Command(Watch, true, refusal, None), call.tries, call.fault)
    case DoUnwatch(refusal) =>
      if !s.watching then Done(s, Queued)
      else AfterCommand(p, s, Command(Unwatch, true, refusal, None), call.tries, call.fault)
    case DoMulti =>
      if s.explicit || s.stack != [] then Done(s, RedisError) else Done(s.(explicit := true), Queued)
    case DoCommand(cmd) => AfterCommand(p, s, cmd, call.tries, call.fault)
    case DoExecute(raiseOnError) => AfterExecute(p, s, raiseOnError, call.tries, call.fault)
    case DoReset => Done(AfterReset(s, call.fault), if ResetFails(s, call.fault) then ResetFailed else Queued)
  }

  datatype Ran = Ran(state: State, results: seq<Result>)

  function AfterAll(p: Policy, s: State, calls: seq<Call>): (r: Ran)
    ensures |r.results| == |calls|
  {
    if calls == [] then Ran(s, [])
    else
      var before := AfterAll(p, s, calls[..|calls| - 1]);
      var done := After(p, before.state, calls[|calls| - 1]);
      Ran(done.state, before.results + [done.result])
  }

  // ---------------------------------------------------------------------------
  // Watch hygiene

  /** Nothing that was given back is watched, and the flag knows about the live connection. */
  predicate Tidy(s: State) {
    && Plain(s.stack)
    && (s.connection.Some? ==> Sound(s.connection.value) && Known(s.connection.value, s.watching))
    && (forall c | c in s.released :: !c.watches && !c.multi)
  }

  /** The server has forgotten a closed connection. */
  predicate Sound(c: Conn) { !c.alive ==> c == DEAD }

  /** WATCH and MULTI are only sent by their own methods, or as WATCH is meant to be sent. */
  predicate Proper(s: State, call: Call) {
    call.what.DoCommand? ==>
      var cmd := call.what.cmd;
      cmd.kind != Multi && (cmd.kind == Watch ==> (s.watching || cmd.upper) && !s.explicit)
  }

  /**
   When the connection that reset gives back is watched, and when it is inside a transaction: reset
   sends UNWATCH only with the flag up, and inside a transaction the server only queues it.
   */
  lemma ResetGivesBackIff(s: State, fault: Fault)
    requires s.connection.Some? && Sound(s.connection.value) && !ResetFails(s, fault)
    ensures var c, given := s.connection.value, AfterReset(s, fault).released;
            && |given| == |s.released| + 1 && given[..|s.released|] == s.released
            && var back := given[|s.released|];
            && (back.watches <==> c.watches && (!s.watching || (fault == Fine && c.multi)))
            && (back.multi <==> c.multi && (!s.watching || fault == Fine))
  {
  }

  lemma ResetKeepsTidy(s: State, fault: Fault)
    requires Tidy(s)
    ensures Tidy(AfterReset(s, fault))
  {
    if s.connection.Some? && !ResetFails(s, fault) { ResetGivesBackIff(s, fault); }
  }

  lemma ImmediateKeepsTidy(p: Policy, s: State, cmd: Command, tries: seq<Try>, fault: Fault)
    requires Tidy(s) && cmd.kind != Multi && (cmd.kind == Watch ==> cmd.upper || s.watching)
    ensures Tidy(AfterImmediate(p, s, cmd, tries, fault).state)
  {
    hide FirstKept;
    ResetKeepsTidy(s.(connection := Some(DEAD)), fault);
  }

  lemma ExecuteKeepsTidy(p: Policy, s: State, raiseOnError: bool, tries: seq<Try>, fault: Fault)
    requires Tidy(s)
    ensures Tidy(AfterExecute(p, s, raiseOnError, tries, fault).state)
  {
    hide FirstKept, Outcome, ServeAll, OnTheWire, FlagAll, ExecRead, AfterReset;
    if s.stack != [] || s.watching {
      var transactional := p.transaction || s.explicit;
      var at := FirstKept(tries, |OnTheWire(s.stack, transactional)|, 0, Attempts(p, s.watching));
      var c, exec := Opened(s, at), TryAt(tries, at).exec;
      WireKnown(c, s.watching, s.stack, transactional, exec);
      ResetKeepsTidy(s.(connection := Some(LeftConn(c, s.stack, transactional, exec)),
                        watching := LeftFlag(c, s.watching, s.stack, transactional, exec)), fault);
      ResetKeepsTidy(s.(connection := Some(DEAD)), fault);
    }
  }

  lemma CallKeepsTidy(p: Policy, s: State, call: Call)
    requires Tidy(s) && Proper(s, call)
    ensures Tidy(After(p, s, call).state)
  {
    hide AfterImmediate, AfterExecute, AfterReset;
    match call.what
    case DoWatch(refusal) => ImmediateKeepsTidy(p, s, Command(Watch, true, refusal, None), call.tries, call.fault);
    case DoUnwatch(refusal) => ImmediateKeepsTidy(p, s, Command(Unwatch, true, refusal, None), call.tries, call.fault);
    case DoMulti =>
    case DoCommand(cmd) =>
      if s.watching || cmd.upper || cmd.kind != Watch { ImmediateKeepsTidy(p, s, cmd, call.tries, call.fault); }
    case DoExecute(raiseOnError) => ExecuteKeepsTidy(p, s, raiseOnError, call.tries, call.fault);
    case DoReset => ResetKeepsTidy(s, call.fault);
  }

  /**
   Any sequence of calls: as long as each of them is proper when it is made, no connection goes
   back to the pool with a WATCH or a MULTI on it.
   */
  lemma {:induction false} RunKeepsTidy(p: Policy, s: State, calls: seq<Call>)
    requires Tidy(s) && forall i | 0 <= i < |calls| :: Proper(AfterAll(p, s, calls[..i]).state, calls[i])
    ensures Tidy(AfterAll(p, s, calls).state)
  {
    if calls != [] {
      var n := |calls| - 1;
      forall i | 0 <= i < n ensures Proper(AfterAll(p, s, calls[..n][..i]).state, calls[..n][i]) {
        assert calls[..n][..i] == calls[..i];
      }
      RunKeepsTidy(p, s, calls[..n]);
      CallKeepsTidy(p, AfterAll(p, s, calls[..n]).state, calls[n]);
    }
  }

  /**
   Whatever is queued, MULTI, EXEC, DISCARD and WATCH in any spelling included: execute gives the
   connection back watched, or inside a transaction, exactly when the commands it sent leave it so
   and the UNWATCH of reset is not sent or, inside a transaction, is only queued.
   */
  lemma ExecuteGivesBackIff(p: Policy, s: State, raiseOnError: bool, tries: seq<Try>, fault: Fault)
    requires s.stack != [] || s.watching
    ensures var done := AfterExecute(p, s, raiseOnError, tries, fault);
            var transactional := p.transaction || s.explicit;
            var wire := OnTheWire(s.stack, transactional);
            var at := FirstKept(tries, |wire|, 0, Attempts(p, s.watching));
            var c := Opened(s, at);
            var known := LeftFlag(c, s.watching, s.stack, transactional, TryAt(tries, at).exec);
            done.result.Executed? ==>
              && at < Attempts(p, s.watching) && |done.state.released| == |s.released| + 1
              && var back, closed := done.state.released[|s.released|], done.result.ended == WrongNumber;
              && (back.watches <==>
                   !closed && LeavesWatch(c, wire) && (!known || (fault == Fine && LeavesMulti(c.multi, wire))))
              && (back.multi <==> !closed && LeavesMulti(c.multi, wire) && (!known || fault == Fine))
  {
    var transactional := p.transaction || s.explicit;
    var wire := OnTheWire(s.stack, transactional);
    var at := FirstKept(tries, |wire|, 0, Attempts(p, s.watching));
    var c, exec := Opened(s, at), TryAt(tries, at).exec;
    LeftConnIff(c, s.stack, transactional, exec);
    EndsWrong(c, s.stack, transactional, exec, raiseOnError);
    hide FirstKept, Outcome, OnTheWire, LeavesWatch, LeavesMulti, LeftFlag, LeftConn, AfterReset;
    var left := AfterTries(p, s, raiseOnError, tries).state;
    if !ResetFails(left, fault) && at < Attempts(p, s.watching) { ResetGivesBackIff(left, fault); }
  }

  lemma LeftConnIff(c: Conn, stack: seq<Command>, transactional: bool, exec: ExecReply)
    requires c.alive
    ensures var left, wire := LeftConn(c, stack, transactional, exec), OnTheWire(stack, transactional);
            var closed := Outcome(c, stack, transactional, exec, false) == WrongNumber;
            && Sound(left)
            && (left.watches <==> !closed && LeavesWatch(c, wire))
            && (left.multi <==> !closed && LeavesMulti(c.multi, wire))
  {
    hide Outcome, ServeAll, OnTheWire, LeavesWatch, LeavesMulti;
    LeftBehindIff(c, OnTheWire(stack, transactional), exec);
    StaysAlive(c, OnTheWire(stack, transactional), exec);
  }

  /** When a transaction lowers the flag: its EXEC is read without an error. */
  lemma TransactionFlagIff(c: Conn, watching: bool, stack: seq<Command>, exec: ExecReply)
    ensures LeftFlag(c, watching, stack, true, exec)
            <==> watching && (exec.Abort? || !LeavesMulti(c.multi, [MULTI] + SentOf(stack)))
  {
    var cmds := [MULTI] + SentOf(stack);
    var all := cmds + [EXEC];
    assert all[..|all| - 1] == cmds;
    LeftBehindIff(c, cmds, exec);
    NeverLost(c, all, exec);
    hide LeavesMulti, LeavesWatch;
  }

  /** Any other end of execute gives the connection back closed or just opened. */
  lemma FailedExecuteGivesBackClean(p: Policy, s: State, raiseOnError: bool, tries: seq<Try>, fault: Fault)
    requires s.stack != [] || s.watching
    ensures var done := AfterExecute(p, s, raiseOnError, tries, fault);
            && (done.result == ResetFailed ==> done.state.released == s.released)
            && (done.result == WatchErrorRaised || done.result.GaveUp? ==>
                  done.state.released == s.released + [DEAD] || done.state.released == s.released + [FRESH])
  {
    hide FirstKept, Outcome, ServeAll, OnTheWire, FlagAll, ExecRead, LeftFlag;
  }

  lemma EndsWrong(c: Conn, stack: seq<Command>, transactional: bool, exec: ExecReply, raiseOnError: bool)
    ensures Outcome(c, stack, transactional, exec, raiseOnError) == WrongNumber
            <==> Outcome(c, stack, transactional, exec, false) == WrongNumber
  {
    hide ServeAll, OnTheWire, ItemsOf, InsertAll, FirstFailed;
  }

  /** Execute sends a transaction, and the replies to it arrive in this exchange and not before. */
  predicate TransactionAt(p: Policy, s: State, tries: seq<Try>, at: nat) {
    && (p.transaction || s.explicit) && (s.stack != [] || s.watching) && at < Attempts(p, s.watching)
    && !TryAt(tries, at).Breaks(SentCount(s.stack) + 2)
    && forall k | 0 <= k < at :: TryAt(tries, k).Breaks(SentCount(s.stack) + 2)
  }

  /**
   A watched key has changed: execute raises WatchError exactly if, in the first exchange that is not
   lost, EXEC ends a transaction and answers nil.
   */
  lemma ChangedKeyIsNoticed(p: Policy, s: State, raiseOnError: bool, tries: seq<Try>, fault: Fault, at: nat)
    requires TransactionAt(p, s, tries, at)
    ensures AfterExecute(p, s, raiseOnError, tries, fault).result == Executed(WatchError)
            <==> TryAt(tries, at).exec.Nil? && LeavesMulti(Opened(s, at).multi, [MULTI] + SentOf(s.stack))
  {
    var c, exec := Opened(s, at), TryAt(tries, at).exec;
    assert FirstKept(tries, |OnTheWire(s.stack, true)|, 0, Attempts(p, s.watching)) == at;
    LastAnswer(c, s.stack, exec);
    TransactionFlagIff(c, s.watching, s.stack, exec);
    ExecDecides(s.stack, ServeAll(c, OnTheWire(s.stack, true), exec).replies, raiseOnError);
    hide FirstKept, LeftFlag, LeftConn, LeavesMulti, ServeAll, OnTheWire, EndOf, Opened;
  }

  /** In any other pipeline execute never raises WatchError by itself. */
  lemma OnlyTransactionsNotice(p: Policy, s: State, raiseOnError: bool, tries: seq<Try>, fault: Fault)
    requires !p.transaction && !s.explicit
    ensures AfterExecute(p, s, raiseOnError, tries, fault).result != Executed(WatchError)
  {
    hide FirstKept, LeftFlag, LeftConn, ServeAll, OnTheWire, ItemsOf, AfterReset;
  }

  /** What is answered last: by EXEC itself, if there is a transaction for it to end. */
  lemma LastAnswer(c: Conn, stack: seq<Command>, exec: ExecReply)
    ensures var replies := ServeAll(c, OnTheWire(stack, true), exec).replies;
            replies[|replies| - 1]
            == if LeavesMulti(c.multi, [MULTI] + SentOf(stack)) then exec else Error("ERR EXEC without MULTI")
  {
    var cmds := [MULTI] + SentOf(stack);
    assert (cmds + [EXEC])[..|cmds|] == cmds;
    LeftBehindIff(c, cmds, exec);
    hide LeavesMulti, LeavesWatch;
  }

  /** The reply that is read for a queued command is the server's answer to that command. */
  lemma EachIsAnswered(c: Conn, stack: seq<Command>, exec: ExecReply, i: nat)
    requires i < |stack| && stack[i].empty == None
    ensures var replies := ServeAll(c, OnTheWire(stack, true), exec).replies;
            ReplyTo(stack, replies[1..], i)
            == Serve(ServeAll(c, [MULTI] + SentOf(stack[..i]), exec).conn, stack[i], exec).reply
  {
    var k := SentCount(stack[..i]);
    var wire := OnTheWire(stack, true);
    SentAt(stack, i);
    assert wire[..k + 1] == [MULTI] + SentOf(stack[..i]);
    assert wire[k + 1] == stack[i];
    AnswerAt(c, wire, exec, k + 1);
    hide Serve, ServeAll, SentOf, SentCount;
  }

  lemma {:induction false} SentAt(stack: seq<Command>, i: nat)
    requires i < |stack| && stack[i].empty == None
    ensures var k := SentCount(stack[..i]);
            k < |SentOf(stack)| && SentOf(stack)[k] == stack[i] && SentOf(stack)[..k] == SentOf(stack[..i])
  {
    var n := |stack| - 1;
    if i < n {
      assert stack[..n][..i] == stack[..i];
      SentAt(stack[..n], i);
    }
  }

  lemma {:induction false} AnswerAt(c: Conn, cmds: seq<Command>, exec: Reply, k: nat)
    requires k < |cmds|
    ensures ServeAll(c, cmds, exec).replies[k] == Serve(ServeAll(c, cmds[..k], exec).conn, cmds[k], exec).reply
  {
    var n := |cmds| - 1;
    if k < n {
      assert cmds[..n][..k] == cmds[..k];
      AnswerAt(c, cmds[..n], exec, k);
    }
  }

  /** What a pipeline without MULTI answers: for each command its value, its error, or its placeholder. */
  predicate AnswersEach(stack: seq<Command>, replies: seq<Reply>, items: seq<Item>)
    requires |stack| == |replies|
  {
    && |items| == |stack|
    && forall i | 0 <= i < |stack| ::
         if !Refusal(replies[i]) then items[i].Value?
         else if stack[i].empty.Some? then items[i] == Value(stack[i].empty.value)
         else items[i] == Item.Failed(replies[i].error)
  }

  /** It ends with those answers, or with the first error among them if it is to raise one. */
  ghost predicate EndsPlain(stack: seq<Command>, replies: seq<Reply>, raiseOnError: bool, ended: Ended)
    requires |stack| == |replies|
  {
    exists items | AnswersEach(stack, replies, items) ::
      if raiseOnError && exists x: Item :: x in items && x.Failed?
      then ended.Raised? && exists i: nat :: FirstFailedAt(items, ended.error, i)
      else ended == Response(items)
  }

  lemma PlainOutcome(c: Conn, stack: seq<Command>, exec: Reply, raiseOnError: bool)
    ensures EndsPlain(stack, ServeAll(c, stack, exec).replies, raiseOnError,
                      Outcome(c, stack, false, exec, raiseOnError))
  {
    var replies := ServeAll(c, stack, exec).replies;
    assert AnswersEach(stack, replies, ItemsOf(stack, replies));
    hide AnswersEach, ServeAll, FirstFailedAt;
  }

  const LOWER_WATCH := Command(Watch, false, None, None)
  const RAW_MULTI := Command(Multi, true, None, None)

  // ---------------------------------------------------------------------------
  // The pipeline

  class Pipeline {
    const policy: Policy
    /** The server's view of the connection that the pipeline has taken from the pool. */
    var connection: Option<Conn>
    var watching: bool
    var explicitTransaction: bool
    var commandStack: seq<Command>
    var released: seq<Conn>

    constructor (policy: Policy)
      ensures this.policy == policy && Now() == State(None, false, false, [], [])
    {
      this.policy := policy;
      connection, watching, explicitTransaction, commandStack, released := None, false, false, [], [];
    }

    function Now(): State
      reads this
    {
      State(connection, watching, explicitTransaction, commandStack, released)
    }

    /** reset: undoes WATCH if there is one, and gives the connection back unless that fails with another error. */
    method Reset(fault: Fault) returns (ok: bool)
      modifies this
      ensures Now() == AfterReset(old(Now()), fault) && ok == !ResetFails(old(Now()), fault)
    {
      commandStack := [];
      if watching && connection.Some? {
        var c := Open(connection.value);
        match fault {
          case Fine => connection := Some(Serve(c, UNWATCH, Nil).conn);
          case Refused =>
            connection := Some(c);
            return false;
          case Lost => connection := Some(DEAD);
          case TimedOut =>
            connection := Some(DEAD);
            return false;
        }
      }
      watching, explicitTransaction := false, false;
      if connection.Some? {
        released := released + [connection.value];
        connection := None;
      }
      ok := true;
    }

    /** multi. */
    method StartTransaction() returns (r: Result)
      modifies this`explicitTransaction
      ensures r == if old(explicitTransaction) || commandStack != [] then RedisError else Queued
      ensures explicitTransaction == (old(explicitTransaction) || r == Queued)
    {
      if explicitTransaction || |commandStack| != 0 {
        return RedisError;
      }
      explicitTransaction := true;
      r := Queued;
    }

    /** execute_command: at once while watching, queued otherwise. */
    method ExecuteCommand(cmd: Command, tries: seq<Try>, fault: Fault) returns (r: Result)
      modifies this
      ensures Done(Now(), r) == AfterCommand(policy, old(Now()), cmd, tries, fault)
    {
      if (watching || (cmd.kind == Watch && cmd.upper)) && !explicitTransaction {
        r := Immediate(cmd, tries, fault);
      } else {
        commandStack := commandStack + [cmd];
        r := Queued;
      }
    }

    /** watch. */
    method WatchKeys(refusal: Option<string>, tries: seq<Try>, fault: Fault) returns (r: Result)
      modifies this
      ensures Done(Now(), r) == After(policy, old(Now()), Call(DoWatch(refusal), tries, fault))
    {
      if explicitTransaction {
        return RedisError;
      }
      r := ExecuteCommand(Command(Watch, true, refusal, None), tries, fault);
    }

    /** unwatch: only sent while watching. */
    method UnwatchKeys(refusal: Option<string>, tries: seq<Try>, fault: Fault) returns (r: Result)
      modifies this
      ensures Done(Now(), r) == After(policy, old(Now()), Call(DoUnwatch(refusal), tries, fault))
    {
      r := Queued;
      if watching {
        r := ExecuteCommand(Command(Unwatch, true, refusal, None), tries, fault);
      }
    }

    /**
     immediate_execute_command. A lost connection is fatal while watching, and tried again otherwise
     as far as the retry policy allows; GaveUp(true) says that the policy gave up, which leaves the
     closed connection with the pipeline.
     */
    method Immediate(cmd: Command, tries: seq<Try>, fault: Fault) returns (r: Result)
      modifies this
      ensures Done(Now(), r) == AfterImmediate(policy, old(Now()), cmd, tries, fault)
      // spelt out: what the command comes to depends on the first try that is not lost
      ensures var was, limit := old(Now()), Attempts(policy, old(watching));
              && (r.Answered? <==> exists i: nat :: i < limit && !TryAt(tries, i).Breaks(1))
              && (r == WatchErrorRaised ==> was.watching && TryAt(tries, 0).Breaks(1))
              && (was.watching && TryAt(tries, 0).Breaks(1) ==>
                    r == if fault == Refused || fault == TimedOut then ResetFailed else WatchErrorRaised)
              && (r.GaveUp? ==> !was.watching && r.retried == policy.retryOnError)
              && (r.Answered? ==> watching == (Raises(cmd, r.reply) || (was.watching && !Lowers(cmd, r.reply))))
    {
      hide FirstKept, Serve, Flag, Raises, Lowers;
      if connection == None {
        connection := Some(FRESH);
      }
      ghost var limit := Attempts(policy, watching);
      var failures := 0;
      while true
        invariant failures < limit && connection.Some?
        invariant Now() == old(Now()).(connection := connection)
        invariant Open(connection.value) == Opened(old(Now()), failures)
                    && (failures > 0 ==> connection == Some(DEAD) && !watching)
        invariant FirstKept(tries, 1, 0, limit) == FirstKept(tries, 1, failures, limit)
        decreases limit - failures
      {
        FirstKeptStep(tries, 1, failures, limit);
        var t := TryAt(tries, failures);
        if !t.Breaks(1) {
          var served := Serve(Open(connection.value), cmd, t.exec);
          connection := Some(served.conn);
          FlagIs(watching, cmd, served.reply);
          watching := Flag(watching, cmd, served.reply);
          return Answered(served.reply);
        }
        // _disconnect_reset_raise
        failures := failures + 1;
        connection := Some(DEAD);
        if watching {
          var ok := Reset(fault);
          return if ok then WatchErrorRaised else ResetFailed;
        }
        if !policy.retryOnError {
          var ok := Reset(fault);
          return GaveUp(false);
        }
        if failures > policy.retries {
          return GaveUp(true);
        }
      }
    }

    /** _execute_transaction. */
    method ExecuteTransaction(stack: seq<Command>, t: Try, raiseOnError: bool) returns (ended: Ended)
      requires connection.Some?
      modifies this`connection, this`watching
      ensures ended == ConnectionError <==> t.Breaks(|OnTheWire(stack, true)|)
      ensures ended == ConnectionError ==> connection == Some(DEAD) && watching == old(watching)
      ensures ended != ConnectionError ==>
                var c := old(Open(connection.value));
                && ended == Outcome(c, stack, true, t.exec, raiseOnError)
                && connection == Some(LeftConn(c, stack, true, t.exec))
                && watching == (old(watching) && !ExecRead(ServeAll(c, OnTheWire(stack, true), t.exec).replies))
                && (ended == WatchError <==> t.exec.Nil? && LeavesMulti(c.multi, [MULTI] + SentOf(stack)))
    {
      hide Serve, ServeAll, EndOf, SentOf, SentCount, ExecRead, Arriving, LeavesMulti;
      var c := Open(connection.value);
      LastAnswer(c, stack, t.exec);
      var served := ServeAll(c, OnTheWire(stack, true), t.exec);
      var incoming := Arriving(served.replies, t.lostAt);
      NeverLost(c, OnTheWire(stack, true), t.exec);
      LostIsLost(served.replies, t.lostAt);
      LastIsNoStatus(c, [MULTI] + SentOf(stack), t.exec);
      EndIsNoLoss(stack, served.replies, raiseOnError);
      EndsWrong(c, stack, true, t.exec, raiseOnError);
      ArrivingLast(served.replies, t.lostAt);
      var consumed;
      ended, consumed := ReadTransaction(stack, incoming, raiseOnError);
      if ended == ConnectionError {
        connection := Some(DEAD);
        return;
      }
      connection := Some(if ended == WrongNumber then DEAD else served.conn);
      if ExecRead(incoming) {
        watching := false;
      }
    }

    /** _execute_pipeline. */
    method ExecutePipeline(stack: seq<Command>, t: Try, raiseOnError: bool) returns (ended: Ended)
      requires connection.Some?
      modifies this`connection, this`watching
      ensures ended == ConnectionError <==> t.Breaks(|stack|)
      ensures ended == ConnectionError ==> connection == Some(DEAD) && watching == old(watching)
      ensures ended != ConnectionError ==>
                var served := ServeAll(old(Open(connection.value)), stack, t.exec);
                && ended == Outcome(old(Open(connection.value)), stack, false, t.exec, raiseOnError)
                && connection == Some(served.conn) && watching == FlagAll(old(watching), stack, served.replies)
                && EndsPlain(stack, served.replies, raiseOnError, ended)
    {
      hide Serve, ServeAll, FlagAll, FirstFailed, ItemsOf, EndsPlain;
      var c := Open(connection.value);
      var served := ServeAll(c, stack, t.exec);
      var incoming := Arriving(served.replies, t.lostAt);
      if t.Breaks(|stack|) {
        connection := Some(DEAD);
        return ConnectionError;
      }
      connection := Some(served.conn);
      watching := FlagAll(watching, stack, incoming);
      var response := ItemsOf(stack, incoming);
      var failed := FirstFailed(response);
      PlainOutcome(c, stack, t.exec, raiseOnError);
      ended := if raiseOnError && failed.Some? then Raised(failed.value) else Response(response);
    }

    /** execute: an empty pipeline answers at once; any other is sent, and reset in any case. */
    method Execute(raiseOnError: bool, tries: seq<Try>, fault: Fault) returns (r: Result)
      modifies this
      ensures Done(Now(), r) == AfterExecute(policy, old(Now()), raiseOnError, tries, fault)
      // a watched key has changed exactly if EXEC ends a transaction and answers nil
      ensures forall at: nat | TransactionAt(policy, old(Now()), tries, at) ::
                r == Executed(WatchError) <==>
                  && TryAt(tries, at).exec.Nil?
                  && LeavesMulti(Opened(old(Now()), at).multi, [MULTI] + SentOf(old(commandStack)))
    {
      hide AfterTries, AfterReset, TransactionAt, LeavesMulti, Opened;
      forall at: nat | TransactionAt(policy, Now(), tries, at)
        ensures AfterExecute(policy, Now(), raiseOnError, tries, fault).result == Executed(WatchError)
                <==> TryAt(tries, at).exec.Nil? && LeavesMulti(Opened(Now(), at).multi, [MULTI] + SentOf(commandStack))
      {
        ChangedKeyIsNoticed(policy, Now(), raiseOnError, tries, fault, at);
      }
      if |commandStack| == 0 && !watching {
        return Executed(Response([]));
      }
      r := TryStack(raiseOnError, tries);
      var ok := Reset(fault);
      if !ok {
        r := ResetFailed;
      }
    }

    /** The part of execute that tries again after a lost connection. */
    method TryStack(raiseOnError: bool, tries: seq<Try>) returns (r: Result)
      modifies this`connection, this`watching
      ensures Done(Now(), r) == AfterTries(policy, old(Now()), raiseOnError, tries)
    {
      hide FirstKept, Outcome, ServeAll, OnTheWire, FlagAll, ExecRead, LeftConn, LeftFlag;
      if connection == None {
        connection := Some(FRESH);
      }
      var transactional := policy.transaction || explicitTransaction;
      ghost var limit, replies := Attempts(policy, watching), |OnTheWire(commandStack, transactional)|;
      var failures := 0;
      while true
        invariant failures < limit && connection.Some?
        invariant Now() == old(Now()).(connection := connection)
        invariant Open(connection.value) == Opened(old(Now()), failures)
        invariant failures > 0 ==> connection == Some(DEAD) && !watching
        invariant FirstKept(tries, replies, 0, limit) == FirstKept(tries, replies, failures, limit)
        decreases limit - failures
      {
        FirstKeptStep(tries, replies, failures, limit);
        var ended := ExecuteStack(commandStack, transactional, TryAt(tries, failures), raiseOnError);
        if ended != ConnectionError {
          return Executed(ended);
        }
        // _disconnect_raise_reset
        failures := failures + 1;
        if watching {
          return WatchErrorRaised;
        }
        if !policy.retryOnError {
          return GaveUp(false);
        }
        if failures > policy.retries {
          return GaveUp(true);
        }
      }
    }

    method ExecuteStack(stack: seq<Command>, transactional: bool, t: Try, raiseOnError: bool) returns (ended: Ended)
      requires connection.Some?
      modifies this`connection, this`watching
      ensures ended == ConnectionError <==> t.Breaks(|OnTheWire(stack, transactional)|)
      ensures ended == ConnectionError ==> connection == Some(DEAD) && watching == old(watching)
      ensures ended != ConnectionError ==>
                var c := old(Open(connection.value));
                && ended == Outcome(c, stack, transactional, t.exec, raiseOnError)
                && connection == Some(LeftConn(c, stack, transactional, t.exec))
                && watching == LeftFlag(c, old(watching), stack, transactional, t.exec)
    {
      hide ServeAll, EndOf, ExecRead, FlagAll;
      if transactional {
        ended := ExecuteTransaction(stack, t, raiseOnError);
      } else {
        WireIsStack(stack);
        ended := ExecutePipeline(stack, t, raiseOnError);
      }
    }

    /** Any sequence of calls. */
    method Run(calls: seq<Call>) returns (results: seq<Result>)
      modifies this
      ensures Ran(Now(), results) == AfterAll(policy, old(Now()), calls)
      ensures old(Tidy(Now())) && (forall i | 0 <= i < |calls| ::
                Proper(AfterAll(policy, old(Now()), calls[..i]).state, calls[i])) ==>
                Tidy(Now()) && forall conn | conn in released :: !conn.watches && !conn.multi
    {
      hide After;
      results := [];
      assert calls[..0] == [];
      for i := 0 to |calls|
        invariant Ran(Now(), results) == AfterAll(policy, old(Now()), calls[..i])
      {
        var r := Perform(calls[i]);
        results := results + [r];
        assert calls[..i + 1][..i] == calls[..i];
      }
      assert calls[..|calls|] == calls;
      if old(Tidy(Now())) && forall i | 0 <= i < |calls| ::
          Proper(AfterAll(policy, old(Now()), calls[..i]).state, calls[i]) {
        RunKeepsTidy(policy, old(Now()), calls);
      }
    }

    method Perform(call: Call) returns (r: Result)
      modifies this
      ensures Done(Now(), r) == After(policy, old(Now()), call)
    {
      hide AfterCommand, AfterExecute, AfterReset;
      match call.what {
        case DoWatch(refusal) => r := WatchKeys(refusal, call.tries, call.fault);
        case DoUnwatch(refusal) => r := UnwatchKeys(refusal, call.tries, call.fault);
        case DoMulti => r := StartTransaction();
        case DoCommand(cmd) => r := ExecuteCommand(cmd, call.tries, call.fault);
        case DoExecute(raiseOnError) => r := Execute(raiseOnError, call.tries, call.fault);
        case DoReset =>
          var ok := Reset(call.fault);
          r := if ok then Queued else ResetFailed;
      }
    }
  }

  lemma ServeAllOne(c: Conn, cmd: Command, exec: Reply)
    ensures var served := Serve(c, cmd, exec);
            && ServeAll(c, [cmd], exec) == ServedAll(served.conn, [served.reply])
            && FlagAll(false, [cmd], [served.reply]) == Flag(false, cmd, served.reply)
  {
    assert [cmd][..0] == [] && [Serve(c, cmd, exec).reply][..0] == [];
  }

  /** A WATCH that is not spelt in capitals, queued: the connection goes back watched. */
  method LowerCaseWatchSurvives() returns (p: Pipeline)
    ensures fresh(p) && p.released == [Conn(true, true, false)]
  {
    ServeAllOne(FRESH, LOWER_WATCH, Nil);
    p := new Pipeline(Policy(false, 0, false));
    var queued := p.ExecuteCommand(LOWER_WATCH, [], Fine);
    var done := p.Execute(true, [Try(Nil, None)], Fine);
  }

  /** A MULTI that is not sent by its own method, queued: the connection goes back inside a transaction. */
  method QueuedMultiSurvives() returns (p: Pipeline)
    ensures fresh(p) && p.released == [Conn(true, false, true)]
  {
    ServeAllOne(FRESH, RAW_MULTI, Nil);
    p := new Pipeline(Policy(false, 0, false));
    var queued := p.ExecuteCommand(RAW_MULTI, [], Fine);
    var done := p.Execute(true, [Try(Nil, None)], Fine);
  }

  /** The same while watching: the UNWATCH of reset is only queued, and both survive. */
  method RawMultiKeepsWatch() returns (p: Pipeline)
    ensures fresh(p) && p.released == [Conn(true, true, true)]
  {
    p := new Pipeline(Policy(true, 0, false));
    var answered := p.WatchKeys(None, [Try(Nil, None)], Fine);
    answered := p.ExecuteCommand(RAW_MULTI, [Try(Nil, None)], Fine);
    var ok := p.Reset(Fine);
  }

  lemma FirstKeptStep(tries: seq<Try>, replies: nat, i: nat, limit: nat)
    requires i < limit
    ensures FirstKept(tries, replies, i, limit)
            == if TryAt(tries, i).Breaks(replies) then FirstKept(tries, replies, i + 1, limit) else i
    ensures FirstKept(tries, replies, limit, limit) == limit
  {
  }

  lemma WireIsStack(stack: seq<Command>)
    ensures OnTheWire(stack, false) == stack
  {
  }

  /** The end of a transaction whose replies all arrive is no connection error. */
  lemma EndIsNoLoss(stack: seq<Command>, replies: seq<Reply>, raiseOnError: bool)
    requires |replies| == SentCount(stack) + 2 && replies[|replies| - 1] != Reply.Lost
               && !replies[|replies| - 1].Status?
    ensures EndOf(stack, replies, raiseOnError) != ConnectionError
  {
  }

  lemma ArrivingLast(replies: seq<Reply>, lostAt: Option<nat>)
    requires replies != [] && !replies[|replies| - 1].Status?
    ensures var r := Arriving(replies, lostAt); !r[|r| - 1].Status?
  {
  }

  /** What is packed and sent. */
  function OnTheWire(stack: seq<Command>, transactional: bool): seq<Command> {
    if transactional then [MULTI] + SentOf(stack) + [EXEC] else stack
  }

  /** The responses of a pipeline without MULTI; an error of a command with a placeholder yields the placeholder. */
  function ItemsOf(stack: seq<Command>, replies: seq<Reply>): (r: seq<Item>)
    requires |stack| == |replies|
    ensures |r| == |stack|
    ensures forall i | 0 <= i < |r| :: r[i] == ItemOf(stack[i], replies[i])
  {
    if stack == [] then []
    else
      var n := |stack| - 1;
      ItemsOf(stack[..n], replies[..n]) + [ItemOf(stack[n], replies[n])]
  }

  function ItemOf(cmd: Command, reply: Reply): Item {
    match reply
    case Error(e) => if cmd.empty.Some? then Value(cmd.empty.value) else Item.Failed(e)
    case Abort(e) => if cmd.empty.Some? then Value(cmd.empty.value) else Item.Failed(e)
    case _ => Value("")
  }

  /** How execute ends when every reply arrives. */
  function Outcome(c: Conn, stack: seq<Command>, transactional: bool, exec: Reply, raiseOnError: bool): Ended {
    var replies := ServeAll(c, OnTheWire(stack, transactional), exec).replies;
    if transactional then EndOf(stack, replies, raiseOnError)
    else
      var items := ItemsOf(stack, replies);
      if raiseOnError && FirstFailed(items).Some? then Raised(FirstFailed(items).value) else Response(items)
  }

  lemma WireKnown(c: Conn, watching: bool, stack: seq<Command>, transactional: bool, exec: ExecReply)
    requires Plain(stack) && Known(c, watching)
    ensures var r := ServeAll(c, OnTheWire(stack, transactional), exec);
            && (transactional ==> Known(r.conn, if ExecRead(r.replies) then false else watching))
            && (!transactional ==> Known(r.conn, FlagAll(watching, stack, r.replies)))
            && (c.alive ==> r.conn.alive)
  {
    if transactional {
      PlainTransactionKnown(c, watching, SentOf(stack), exec);
    } else {
      PlainPipelineKnown(c, watching, stack, exec);
    }
    StaysAlive(c, OnTheWire(stack, transactional), exec);
  }

  lemma {:induction false} StaysAlive(c: Conn, cmds: seq<Command>, exec: Reply)
    ensures ServeAll(c, cmds, exec).conn.alive == c.alive
  {
    if cmds != [] { StaysAlive(c, cmds[..|cmds| - 1], exec); }
  }

  lemma {:induction false} NeverLost(c: Conn, cmds: seq<Command>, exec: Reply)
    requires exec != Reply.Lost
    ensures Reply.Lost !in ServeAll(c, cmds, exec).replies
  {
    if cmds != [] { NeverLost(c, cmds[..|cmds| - 1], exec); }
  }

  lemma LastIsNoStatus(c: Conn, cmds: seq<Command>, exec: ExecReply)
    ensures var replies := ServeAll(c, cmds + [EXEC], exec).replies;
            !replies[|replies| - 1].Status?
  {
    assert (cmds + [EXEC])[..|cmds|] == cmds;
  }

  lemma LostIsLost(replies: seq<Reply>, lostAt: Option<nat>)
    requires Reply.Lost !in replies
    ensures Reply.Lost in Arriving(replies, lostAt) <==> lostAt.Some? && lostAt.value < |replies|
    ensures Reply.Lost !in Arriving(replies, lostAt) ==> Arriving(replies, lostAt) == replies
  {
    if lostAt.Some? && lostAt.value < |replies| { assert Arriving(replies, lostAt)[lostAt.value] == Reply.Lost; }
  }
}
