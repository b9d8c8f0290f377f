/**
 Subscribing and unsubscribing on one connection: calls of the client, the server that
 carries them out in order, and the acknowledgements on their way back.
 */
module PubSub {
  import opened Wrappers

  datatype Kind = Channel | Pattern | Shard

  datatype Topic = Topic(kind: Kind, name: string)

  /** Commands; unsubscribing without names means all names of the kind. */
  datatype Cmd = Subscribe(kind: Kind, names: seq<string>) | Unsubscribe(kind: Kind, names: seq<string>)

  datatype Msg =
    | Subscribed(topic: Topic)
    | Unsubscribed(topic: Topic)
    | NothingToUnsubscribe(kind: Kind)
    | Message(topic: Topic)
    | ErrorReply

  /** The topics of the given names. */
  function TopicsOf(kind: Kind, names: seq<string>): (r: set<Topic>)
    ensures forall t :: t in r <==> t.kind == kind && t.name in names
  {
    if names == [] then {}
    else
      assert names == names[..|names| - 1] + [names[|names| - 1]];
      TopicsOf(kind, names[..|names| - 1]) + {Topic(kind, names[|names| - 1])}
  }

  function OfKind(topics: set<Topic>, kind: Kind): set<Topic> { set t | t in topics && t.kind == kind }

  // ---------------------------------------------------------------------------
  // The server

  /** The subscriptions after one command. */
  function After(subs: set<Topic>, cmd: Cmd): set<Topic> {
    match cmd
    case Subscribe(kind, names) => subs + TopicsOf(kind, names)
    case Unsubscribe(kind, names) => if names == [] then subs - OfKind(subs, kind) else subs - TopicsOf(kind, names)
  }

  /** The topics whose unsubscription a command acknowledges: all that were named, or all that there were. */
  function Acknowledged(subs: set<Topic>, cmd: Cmd): set<Topic> {
    match cmd
    case Subscribe(_, _) => {}
    case Unsubscribe(kind, names) => if names == [] then OfKind(subs, kind) else TopicsOf(kind, names)
  }

  /** The subscriptions once the commands on their way have arrived. */
  function Settled(subs: set<Topic>, cmds: seq<Cmd>): set<Topic>
    decreases |cmds|
  {
    if cmds == [] then subs else Settled(After(subs, cmds[0]), cmds[1..])
  }

  /** The acknowledgements that the commands on their way will cause. */
  function Coming(subs: set<Topic>, cmds: seq<Cmd>): set<Topic>
    decreases |cmds|
  {
    if cmds == [] then {} else Acknowledged(subs, cmds[0]) + Coming(After(subs, cmds[0]), cmds[1..])
  }

  /** The unsubscriptions acknowledged by messages. */
  function AckedBy(msgs: seq<Msg>): (r: set<Topic>)
    ensures forall t :: t in r <==> Unsubscribed(t) in msgs
  {
    if msgs == [] then {}
    else
      assert msgs == [msgs[0]] + msgs[1..];
      (if msgs[0].Unsubscribed? then {msgs[0].topic} else {}) + AckedBy(msgs[1..])
  }

  // ---------------------------------------------------------------------------
  // The protocol

  /**
   The client's dictionary of topics with their handlers, the pending set and the flag; the server's
   subscriptions; both directions of the connection. `wanted` records for which topics the last call
   was a subscription.
   */
  datatype Sys = Sys(topics: map<Topic, nat>, pending: set<Topic>, subscribed: bool, subs: set<Topic>,
                     toServer: seq<Cmd>, toClient: seq<Msg>, wanted: set<Topic>)

  /**
   Calls with names, unsubscribe() without arguments, and the arrival of a command at the server or of
   a message at the client. `acks` is what the server answers, in an order of its choice.
   */
  datatype Step =
    | CallSubscribe(kind: Kind, names: seq<string>, handler: nat)
    | CallUnsubscribe(kind: Kind, names: seq<string>)
    | CallUnsubscribeAll(kind: Kind)
    | ServerReceives(acks: seq<Msg>)
    | ServerPublishes(topic: Topic)
    | ClientHandles

  predicate Enabled(s: Sys, step: Step) {
    match step
    case ServerReceives(acks) =>
      s.toServer != [] && AckedBy(acks) == Acknowledged(s.subs, s.toServer[0])
    case ServerPublishes(topic) => topic in s.subs
    case ClientHandles => s.toClient != []
    case _ => true
  }

  function Handlers(kind: Kind, names: seq<string>, handler: nat): map<Topic, nat> {
    map t | t in TopicsOf(kind, names) :: handler
  }

  /** handle_message: an acknowledgement only counts for a topic that is pending. */
  function Handle(s: Sys, msg: Msg): Sys {
    match msg
    case Unsubscribed(t) =>
      var u := if t in s.pending then s.(pending := s.pending - {t}, topics := s.topics - {t}) else s;
      u.(subscribed := s.subscribed && u.topics != map[])
    case NothingToUnsubscribe(_) => s.(subscribed := s.subscribed && s.topics != map[])
    case _ => s
  }

  function Next(s: Sys, step: Step): Sys
    requires Enabled(s, step)
  {
    match step
    case CallSubscribe(kind, names, handler) =>
      s.(topics := s.topics + Handlers(kind, names, handler), pending := s.pending - TopicsOf(kind, names),
          subscribed := true,
         toServer := s.toServer + [Subscribe(kind, names)], wanted := s.wanted + TopicsOf(kind, names))
    case CallUnsubscribe(kind, names) =>
      s.(pending := s.pending + TopicsOf(kind, names),
         toServer := s.toServer + [Unsubscribe(kind, names)], wanted := s.wanted - TopicsOf(kind, names))
    case CallUnsubscribeAll(kind) =>
      s.(pending := s.pending + OfKind(s.topics.Keys, kind),
         toServer := s.toServer + [Unsubscribe(kind, [])], wanted := s.wanted - OfKind(s.wanted, kind))
    case ServerReceives(acks) =>
      s.(subs := After(s.subs, s.toServer[0]), toServer := s.toServer[1..], toClient := s.toClient + acks)
    case ServerPublishes(topic) => s.(toClient := s.toClient + [Message(topic)])
    case ClientHandles => Handle(s.(toClient := s.toClient[1..]), s.toClient[0])
  }

  /** The topics that the client counts as subscribed. */
  function Live(s: Sys): set<Topic> { s.topics.Keys - s.pending }

  /**
   The client's view is what was last asked for, the server will agree, and every pending topic has an
   acknowledgement coming.
   */
  predicate Inv(s: Sys) {
    && Live(s) == s.wanted
    && Settled(s.subs, s.toServer) == s.wanted
    && s.pending <= AckedBy(s.toClient) + Coming(s.subs, s.toServer)
    && (s.topics != map[] ==> s.subscribed)
  }

  lemma {:induction false} SettledSnoc(subs: set<Topic>, cmds: seq<Cmd>, last: Cmd)
    ensures Settled(subs, cmds + [last]) == After(Settled(subs, cmds), last)
    ensures Coming(subs, cmds + [last]) == Coming(subs, cmds) + Acknowledged(Settled(subs, cmds), last)
    decreases |cmds|
  {
    if cmds == [] {
      assert [] + [last] == [last];
    } else {
      assert (cmds + [last])[1..] == cmds[1..] + [last];
      SettledSnoc(After(subs, cmds[0]), cmds[1..], last);
    }
  }

  lemma {:induction false} AckedByConcat(a: seq<Msg>, b: seq<Msg>)
    ensures AckedBy(a + b) == AckedBy(a) + AckedBy(b)
  {
  }

  /** unsubscribe with an empty list is the one call that the invariant does not survive. */
  lemma StepKeepsInv(s: Sys, step: Step)
    requires Inv(s) && Enabled(s, step)
    requires step.CallUnsubscribe? ==> step.names != []
    ensures Inv(Next(s, step))
  {
    var t := Next(s, step);
    match step
    case CallSubscribe(kind, names, _) => SettledSnoc(s.subs, s.toServer, Subscribe(kind, names));
    case CallUnsubscribe(kind, names) => SettledSnoc(s.subs, s.toServer, Unsubscribe(kind, names));
    case CallUnsubscribeAll(kind) =>
      SettledSnoc(s.subs, s.toServer, Unsubscribe(kind, []));
      AllArePending(s, kind);
    case ServerReceives(acks) => AckedByConcat(s.toClient, acks);
    case ServerPublishes(topic) => AckedByConcat(s.toClient, [Message(topic)]);
    case ClientHandles =>
      assert s.toClient == [s.toClient[0]] + s.toClient[1..];
      HandleKeepsInv(s);
  }

  lemma AllArePending(s: Sys, kind: Kind)
    requires Inv(s)
    ensures OfKind(s.topics.Keys, kind) <= s.pending + OfKind(Settled(s.subs, s.toServer), kind)
    ensures s.topics.Keys - (s.pending + OfKind(s.topics.Keys, kind)) == s.wanted - OfKind(s.wanted, kind)
  {
  }

  lemma HandleKeepsInv(s: Sys)
    requires Inv(s) && s.toClient != []
    ensures Inv(Next(s, ClientHandles))
  {
    hide Settled, Coming, AckedBy;
    var msg, rest := s.toClient[0], s.toClient[1..];
    FirstAck(s.toClient);
    if msg.Unsubscribed? && msg.topic in s.pending {
      assert (s.topics - {msg.topic}).Keys - (s.pending - {msg.topic}) == s.topics.Keys - s.pending;
    }
  }

  lemma FirstAck(msgs: seq<Msg>)
    requires msgs != []
    ensures AckedBy(msgs) == (if msgs[0].Unsubscribed? then {msgs[0].topic} else {}) + AckedBy(msgs[1..])
  {
  }

  // ---------------------------------------------------------------------------
  // Whole runs

  predicate Initial(s: Sys) {
    s.topics == map[] && s.pending == {} && !s.subscribed && s.subs == {} && s.toServer == [] && s.toClient == []
        && s.wanted == {}
  }

  function Run(s: Sys, steps: seq<Step>): Option<Sys> {
    if steps == [] then Some(s)
    else
      match Run(s, steps[..|steps| - 1])
      case None => None
      case Some(t) => if Enabled(t, steps[|steps| - 1]) then Some(Next(t, steps[|steps| - 1])) else None
  }

  lemma {:induction false} RunKeepsInv(s: Sys, steps: seq<Step>)
    requires Initial(s) && Run(s, steps).Some?
    requires forall step | step in steps && step.CallUnsubscribe? :: step.names != []
    ensures Inv(Run(s, steps).value)
  {
    if steps != [] {
      RunKeepsInv(s, steps[..|steps| - 1]);
      StepKeepsInv(Run(s, steps[..|steps| - 1]).value, steps[|steps| - 1]);
    } else {
      assert Live(s) == {};
    }
  }

  predicate Subscribes(step: Step, topic: Topic) {
    step.CallSubscribe? && step.kind == topic.kind && topic.name in step.names
  }

  predicate Unsubscribes(step: Step, topic: Topic) {
    (step.CallUnsubscribe? && step.kind == topic.kind && topic.name in step.names)
    || (step.CallUnsubscribeAll? && step.kind == topic.kind)
  }

  predicate SubscribedAt(steps: seq<Step>, topic: Topic, i: nat)
    requires i < |steps|
  {
    Subscribes(steps[i], topic) && forall j | i < j < |steps| :: !Unsubscribes(steps[j], topic)
  }

  /** The last call about the topic was a subscription. */
  predicate LastSubscribes(steps: seq<Step>, topic: Topic) {
    exists i: nat :: i < |steps| && SubscribedAt(steps, topic, i)
  }

  lemma LastSubscribesNext(steps: seq<Step>, topic: Topic)
    requires steps != []
    ensures var n := |steps| - 1;
            LastSubscribes(steps, topic)
            <==> Subscribes(steps[n], topic) || (LastSubscribes(steps[..n], topic) && !Unsubscribes(steps[n], topic))
  {
    hide Subscribes, Unsubscribes;
    var n := |steps| - 1;
    assert SubscribedAt(steps, topic, n) <==> Subscribes(steps[n], topic);
    forall i: nat | i < n
      ensures SubscribedAt(steps, topic, i) <==> SubscribedAt(steps[..n], topic, i) && !Unsubscribes(steps[n], topic)
    {
      assert forall j | i < j < n :: Unsubscribes(steps[j], topic) == Unsubscribes(steps[..n][j], topic);
    }
    hide SubscribedAt;
  }

  lemma WantedNext(s: Sys, step: Step, topic: Topic)
    requires Enabled(s, step)
    ensures topic in Next(s, step).wanted
            <==> Subscribes(step, topic) || (topic in s.wanted && !Unsubscribes(step, topic))
  {
    hide After, Acknowledged, AckedBy;
  }

  lemma {:induction false} WantedIff(s: Sys, steps: seq<Step>, topic: Topic)
    requires Initial(s) && Run(s, steps).Some?
    ensures topic in Run(s, steps).value.wanted <==> LastSubscribes(steps, topic)
  {
    if steps != [] {
      WantedIff(s, steps[..|steps| - 1], topic);
      LastSubscribesNext(steps, topic);
      WantedNext(Run(s, steps[..|steps| - 1]).value, steps[|steps| - 1], topic);
      hide LastSubscribes, Next, Enabled, Subscribes, Unsubscribes;
    }
  }

  /** At any time a topic's last call was a subscription exactly when it is in the dictionary and not pending. */
  lemma AgreesWithCalls(s: Sys, steps: seq<Step>, topic: Topic)
    requires Initial(s) && Run(s, steps).Some?
    requires forall step | step in steps && step.CallUnsubscribe? :: step.names != []
    ensures var t := Run(s, steps).value;
            LastSubscribes(steps, topic) <==> topic in t.topics && topic !in t.pending
  {
    WantedIff(s, steps, topic);
    hide LastSubscribes;
    RunKeepsInv(s, steps);
    assert topic in Live(Run(s, steps).value) <==> topic in Run(s, steps).value.wanted;
  }

  /** When everything has arrived, the dictionary holds the server's subscriptions and nothing is pending. */
  lemma DrainedAgreesWithServer(s: Sys, steps: seq<Step>)
    requires Initial(s) && Run(s, steps).Some?
    requires forall step | step in steps && step.CallUnsubscribe? :: step.names != []
    ensures var t := Run(s, steps).value;
            t.toServer == [] && t.toClient == [] ==>
            && t.topics.Keys == t.subs && t.pending == {} && (t.subs != {} ==> t.subscribed)
            && forall topic :: topic in t.subs <==> LastSubscribes(steps, topic)
  {
    forall topic ensures topic in Run(s, steps).value.wanted <==> LastSubscribes(steps, topic) {
      WantedIff(s, steps, topic);
    }
    hide LastSubscribes;
    RunKeepsInv(s, steps);
    var t := Run(s, steps).value;
    if t.toServer == [] && t.toClient == [] {
      assert Settled(t.subs, []) == t.subs && Coming(t.subs, []) == {} && AckedBy([]) == {};
      assert t.pending == {};
      assert Live(t) == t.topics.Keys;
    }
  }

  /** The flag says that there are topics; only a subscription without names can make it wrong. */
  lemma StepKeepsFlagIff(s: Sys, step: Step)
    requires Enabled(s, step) && (s.subscribed <==> s.topics != map[])
    ensures var t := Next(s, step);
            (t.subscribed <==> t.topics != map[]) <==>
              !(step.CallSubscribe? && step.names == [] && s.topics == map[])
  {
    if step.CallSubscribe? {
      var added := Handlers(step.kind, step.names, step.handler);
      assert (s.topics + added).Keys == s.topics.Keys + TopicsOf(step.kind, step.names);
      if step.names != [] { assert Topic(step.kind, step.names[0]) in (s.topics + added).Keys; }
      if s.topics != map[] {
        var k :| k in s.topics;
        assert k in s.topics + added;
      }
    }
  }

  /** In a run whose subscriptions all have names the flag goes down exactly with the last topic. */
  lemma {:induction false} FlagIsExact(s: Sys, steps: seq<Step>)
    requires Initial(s) && Run(s, steps).Some?
    requires forall step | step in steps && step.CallSubscribe? :: step.names != []
    ensures Run(s, steps).value.subscribed <==> Run(s, steps).value.topics != map[]
  {
    if steps != [] {
      FlagIsExact(s, steps[..|steps| - 1]);
      StepKeepsFlagIff(Run(s, steps[..|steps| - 1]).value, steps[|steps| - 1]);
    }
  }

  /**
   unsubscribe([]) sends a command without names, which the server takes for all of them, but marks
   nothing as pending: the agreement survives exactly when there was no live topic of the kind.
   */
  lemma EmptyListIsHarmlessIff(s: Sys, kind: Kind)
    requires Inv(s)
    ensures var t := Next(s, CallUnsubscribe(kind, []));
            && Live(t) == s.wanted
            && Settled(t.subs, t.toServer) == s.wanted - OfKind(s.wanted, kind)
            && (Inv(t) <==> OfKind(Live(s), kind) == {})
  {
    var t := Next(s, CallUnsubscribe(kind, []));
    SettledSnoc(s.subs, s.toServer, Unsubscribe(kind, []));
    assert TopicsOf(kind, []) == {};
    assert t.pending == s.pending && t.wanted == s.wanted;
    if OfKind(Live(s), kind) != {} {
      var x :| x in OfKind(Live(s), kind);
      assert x in s.wanted && x !in Settled(t.subs, t.toServer);
    } else {
      assert OfKind(s.wanted, kind) == {};
    }
  }

  /** From a quiet state with one topic: the client still counts the topic when all is quiet again. */
  lemma EmptyListLosesAgreement(topic: Topic)
    ensures var s := Sys(map[topic := 0], {}, true, {topic}, [], [], {topic});
            var s1 := Next(s, CallUnsubscribe(topic.kind, []));
            && Inv(s) && Enabled(s1, ServerReceives([Unsubscribed(topic)]))
            && var s2 := Next(s1, ServerReceives([Unsubscribed(topic)]));
               Enabled(s2, ClientHandles)
               && var t := Next(s2, ClientHandles);
                  t.toServer == [] && t.toClient == [] && topic in t.topics && topic !in t.pending && t.subscribed
                      && t.subs == {}
  {
    var s := Sys(map[topic := 0], {}, true, {topic}, [], [], {topic});
    assert Live(s) == {topic} && Settled({topic}, []) == {topic};
    var s1 := Next(s, CallUnsubscribe(topic.kind, []));
    assert s1.toServer == [Unsubscribe(topic.kind, [])] && OfKind({topic}, topic.kind) == {topic};
    assert AckedBy([Unsubscribed(topic)]) == {topic};
    var s2 := Next(s1, ServerReceives([Unsubscribed(topic)]));
    assert s2.toClient == [Unsubscribed(topic)] && s2.toServer == [] && s2.subs == {};
    assert s1.pending == {};
  }

  // ---------------------------------------------------------------------------
  // The PubSub object

  class PubSub {
    var topics: map<Topic, nat>
    var pendingUnsubscribe: set<Topic>
    var subscribed: bool
    /** What has been written to the connection. */
    var sent: seq<Cmd>

    constructor ()
      ensures topics == map[] && pendingUnsubscribe == {} && !subscribed && sent == []
    {
      topics, pendingUnsubscribe, subscribed, sent := map[], {}, false, [];
    }

    /** This object as the client of a protocol state, with the commands that the server has not received yet. */
    ghost predicate Is(s: Sys, received: nat)
      reads this
    {
      s.topics == topics && s.pending == pendingUnsubscribe && s.subscribed == subscribed && received <= |sent|
          && s.toServer == sent[received..]
    }

    /** subscribe, psubscribe, ssubscribe. */
    method Subscribe(kind: Kind, names: seq<string>, handler: nat)
      modifies this
      ensures forall s, received | old(Is(s, received)) :: Is(Next(s, CallSubscribe(kind, names, handler)), received)
      // the topics named have the handler, and no other one changes
      ensures forall name | name in names ::
                var t := Topic(kind, name);
                t in topics && topics[t] == handler && t !in pendingUnsubscribe
      ensures forall t: Topic | !(t.kind == kind && t.name in names) ::
                && (t in topics <==> t in old(topics)) && (t in topics ==> topics[t] == old(topics)[t])
                && (t in pendingUnsubscribe <==> t in old(pendingUnsubscribe))
      ensures subscribed
    {
      var newTopics := Handlers(kind, names, handler);
      sent := sent + [Cmd.Subscribe(kind, names)];
      topics := topics + newTopics;
      if !subscribed {
        subscribed := true;
      }
      pendingUnsubscribe := pendingUnsubscribe - newTopics.Keys;
    }

    /** unsubscribe, punsubscribe, sunsubscribe; without arguments all topics of the kind become pending. */
    method Unsubscribe(kind: Kind, names: Option<seq<string>>)
      modifies this
      ensures forall s, received | old(Is(s, received)) ::
                Is(Next(s, if names.Some? then CallUnsubscribe(kind, names.value) else CallUnsubscribeAll(kind)),
                    received)
      // the topics named, or all of the kind that there are, become pending, and no other one
      ensures forall t: Topic :: t in pendingUnsubscribe <==>
                || t in old(pendingUnsubscribe)
                || (t.kind == kind && if names.Some? then t.name in names.value else t in topics)
      ensures topics == old(topics)
    {
      if names.Some? {
        pendingUnsubscribe := pendingUnsubscribe + TopicsOf(kind, names.value);
        sent := sent + [Cmd.Unsubscribe(kind, names.value)];
      } else {
        pendingUnsubscribe := pendingUnsubscribe + OfKind(topics.Keys, kind);
        sent := sent + [Cmd.Unsubscribe(kind, [])];
      }
    }

    /** The part of handle_message that changes the object. */
    method HandleMessage(msg: Msg)
      modifies this
      ensures forall s, received | old(Is(s, received)) :: Is(Handle(s, msg), received)
      ensures sent == old(sent)
      // the flag goes down when an acknowledgement finds no topic left, and stays otherwise
      ensures subscribed == (old(subscribed) && !(topics == map[] && (msg.Unsubscribed? || msg.NothingToUnsubscribe?)))
      ensures forall t :: t in topics <==>
                t in old(topics) && !(msg == Unsubscribed(t) && t in old(pendingUnsubscribe))
    {
      match msg {
        case Unsubscribed(t) =>
          if t in pendingUnsubscribe {
            pendingUnsubscribe := pendingUnsubscribe - {t};
            topics := topics - {t};
          }
          if |topics| == 0 {
            subscribed := false;
          }
        case NothingToUnsubscribe(_) =>
          if |topics| == 0 {
            subscribed := false;
          }
        case _ =>
      }
    }
  }
}
