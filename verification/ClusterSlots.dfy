/** What the CLUSTER SLOTS replies of the startup nodes say, read in the order in which they are asked. */
module ClusterSlots {
  import opened Wrappers
  import opened Crc

  datatype Role = Primary | Replica

  /** One row of a reply: a range of slots (both ends belong to it) and its nodes. */
  datatype Section = Section(from: int, to: int, primary: Address, replicas: seq<Address>)

  datatype Answer = Unreachable | Sections(sections: seq<Section>)

  /** How often a node is named, and in which role. */
  datatype Mention = Mention(name: Address, role: Role)

  // ---------------------------------------------------------------------------
  // Which rows are read

  /** A primary without a host is the node that was asked. */
  function Resolved(sections: seq<Section>, host: string): (r: seq<Section>)
    ensures |r| == |sections|
    ensures forall i | 0 <= i < |r| :: r[i] == ResolvedOne(sections[i], host)
  {
    if sections == [] then []
    else Resolved(sections[..|sections| - 1], host) + [ResolvedOne(sections[|sections| - 1], host)]
  }

  function ResolvedOne(section: Section, host: string): Section {
    if section.primary.host == "" then section.(primary := Address(host, section.primary.port)) else section
  }

  function AnswerOf(answers: map<Address, Answer>, node: Address): Answer {
    if node in answers then answers[node] else Unreachable
  }

  /** Startup nodes are asked in turn until the rows seen so far cover every slot. */
  function Asked(order: seq<Address>, answers: map<Address, Answer>, seen: seq<Section>): (r: seq<Section>)
    ensures seen <= r
  {
    if order == [] then seen
    else
      match AnswerOf(answers, order[0])
      case Unreachable => Asked(order[1..], answers, seen)
      case Sections(sections) =>
        var all := seen + Resolved(sections, order[0].host);
        if FullyCovered(all) then all else Asked(order[1..], answers, all)
  }

  predicate Reachable(order: seq<Address>, answers: map<Address, Answer>) {
    exists i :: 0 <= i < |order| && AnswerOf(answers, order[i]).Sections?
  }

  /** The first startup node that answers. */
  predicate FirstToAnswer(order: seq<Address>, answers: map<Address, Answer>, k: nat) {
    && k < |order| && order[k] in answers && answers[order[k]].Sections?
    && forall j | 0 <= j < k :: order[j] in answers ==> answers[order[j]].Unreachable?
  }

  /** A row as it is meant by the node that sent it: no host of the primary stands for that node's own. */
  predicate Means(read: Section, sent: Section, sender: Address) {
    && read.from == sent.from && read.to == sent.to && read.replicas == sent.replicas
    && read.primary.port == sent.primary.port
    && read.primary.host == if sent.primary.host == "" then sender.host else sent.primary.host
  }

  /** The rows of the first node that answers are read first, all of them and in order. */
  lemma {:induction false} FirstRowsRead(order: seq<Address>, answers: map<Address, Answer>, k: nat)
    requires FirstToAnswer(order, answers, k)
    ensures var sent, read := answers[order[k]].sections, Asked(order, answers, []);
            |sent| <= |read| && forall i | 0 <= i < |sent| :: Means(read[i], sent[i], order[k])
  {
    if k > 0 {
      assert order[1..][k - 1] == order[k];
      FirstRowsRead(order[1..], answers, k - 1);
    } else {
      var sent := answers[order[0]].sections;
      var all := Resolved(sent, order[0].host);
      assert [] + all == all;
      assert all <= Asked(order, answers, []);
    }
  }

  /** Every row that is read was sent by a startup node. */
  lemma {:induction false} RowsWereSent(order: seq<Address>, answers: map<Address, Answer>, seen: seq<Section>)
    ensures forall x | x in Asked(order, answers, seen) ::
              || x in seen
              || exists a, sent :: a in order && a in answers && answers[a].Sections? && sent in answers[a].sections
                  && Means(x, sent, a)
  {
    if order != [] {
      var a, rest := order[0], order[1..];
      assert forall b | b in rest :: b in order;
      match AnswerOf(answers, a)
      case Unreachable => RowsWereSent(rest, answers, seen);
      case Sections(sections) =>
        var resolved := Resolved(sections, a.host);
        RowsWereSent(rest, answers, seen + resolved);
        forall x | x in resolved ensures exists sent :: sent in sections && Means(x, sent, a) {
          var i :| 0 <= i < |resolved| && resolved[i] == x;
          assert sections[i] in sections && Means(x, sections[i], a);
        }
    }
  }

  /** So no primary is without a host, when no startup node is. */
  lemma PrimariesHaveHosts(order: seq<Address>, answers: map<Address, Answer>)
    requires forall a | a in order :: a.host != ""
    ensures forall x | x in Asked(order, answers, []) :: x.primary.host != ""
  {
    RowsWereSent(order, answers, []);
  }

  // ---------------------------------------------------------------------------
  // What the rows mean

  predicate Covers(section: Section, slot: int) { section.from <= slot <= section.to }

  /** The first row with the slot; the number of rows when there is none. */
  function FirstCover(sections: seq<Section>, slot: int): (k: nat)
    ensures k <= |sections|
    ensures k < |sections| ==> Covers(sections[k], slot)
    ensures forall j | 0 <= j < k :: !Covers(sections[j], slot)
  {
    if sections == [] then 0
    else
      var k := FirstCover(sections[..|sections| - 1], slot);
      if k < |sections| - 1 || Covers(sections[k], slot) then k else |sections|
  }

  predicate Covered(sections: seq<Section>, slot: int) { FirstCover(sections, slot) < |sections| }

  predicate FullyCovered(sections: seq<Section>) {
    forall slot | 0 <= slot < REDIS_CLUSTER_HASH_SLOTS :: Covered(sections, slot)
  }

  function NodesOf(section: Section): seq<Address> { [section.primary] + section.replicas }

  /** The slots below `upTo` of a row that an earlier row gives to another primary. */
  function Against(earlier: seq<Section>, section: Section, upTo: int): nat
    decreases upTo - section.from
  {
    if upTo <= section.from then 0
    else
      var k := FirstCover(earlier, upTo - 1);
      Against(earlier, section, upTo - 1)
      + (if k < |earlier| && earlier[k].primary != section.primary then 1 else 0)
  }

  function Disagreements(sections: seq<Section>): nat {
    if sections == [] then 0
    else
      var init, last := sections[..|sections| - 1], sections[|sections| - 1];
      Disagreements(init) + Against(init, last, last.to + 1)
  }

  /** The nodes of a row, the primary first. */
  function MentionsIn(section: Section): seq<Mention> {
    [Mention(section.primary, Primary)] + ReplicaMentions(section.replicas)
  }

  function ReplicaMentions(replicas: seq<Address>): (r: seq<Mention>)
    ensures |r| == |replicas| && forall i | 0 <= i < |r| :: r[i] == Mention(replicas[i], Replica)
  {
    if replicas == [] then []
    else ReplicaMentions(replicas[..|replicas| - 1]) + [Mention(replicas[|replicas| - 1], Replica)]
  }

  function Mentions(sections: seq<Section>): seq<Mention> {
    if sections == [] then [] else Mentions(sections[..|sections| - 1]) + MentionsIn(sections[|sections| - 1])
  }

  /** The nodes named, in order of their first mention. */
  function Named(mentions: seq<Mention>): seq<Address> {
    if mentions == [] then []
    else
      var rest, last := Named(mentions[..|mentions| - 1]), mentions[|mentions| - 1].name;
      if last in rest then rest else rest + [last]
  }

  /** The role of a node is that of its first mention. */
  function FirstRole(mentions: seq<Mention>, name: Address): Role
    requires name in Named(mentions)
  {
    var init := mentions[..|mentions| - 1];
    if name in Named(init) then FirstRole(init, name) else mentions[|mentions| - 1].role
  }

  /** Row i is the first of these with the slot. */
  predicate FirstWithSlot(sections: seq<Section>, i: nat, slot: int) {
    && i < |sections| && sections[i].from <= slot <= sections[i].to
    && forall j | 0 <= j < i :: !(sections[j].from <= slot <= sections[j].to)
  }

  lemma FirstCoverIs(sections: seq<Section>, slot: int, i: nat)
    requires i < |sections| && sections[i].from <= slot <= sections[i].to
    requires forall j | 0 <= j < i :: !(sections[j].from <= slot <= sections[j].to)
    ensures FirstCover(sections, slot) == i
  {
    hide FirstCover;
    var k := FirstCover(sections, slot);
    assert Covers(sections[i], slot) && forall j | 0 <= j < i :: !Covers(sections[j], slot);
  }

  // ---------------------------------------------------------------------------
  // Facts about them

  lemma FirstCoverSnoc(sections: seq<Section>, last: Section, slot: int)
    ensures FirstCover(sections + [last], slot)
            == if Covered(sections, slot) then FirstCover(sections, slot)
               else if Covers(last, slot) then |sections| else |sections| + 1
  {
    assert (sections + [last])[..|sections|] == sections;
  }

  /** Reading on never changes the row that a slot got. */
  lemma {:induction false} FirstCoverStays(sections: seq<Section>, more: seq<Section>, slot: int)
    requires Covered(sections, slot)
    ensures FirstCover(sections + more, slot) == FirstCover(sections, slot)
  {
    if more == [] {
      assert sections + more == sections;
    } else {
      var init, last := more[..|more| - 1], more[|more| - 1];
      FirstCoverStays(sections, init, slot);
      assert sections + more == sections + init + [last];
      FirstCoverSnoc(sections + init, last, slot);
    }
  }

  /** Reading on can only find more disagreements. */
  lemma {:induction false} DisagreementsGrow(sections: seq<Section>, more: seq<Section>)
    ensures Disagreements(sections) <= Disagreements(sections + more)
  {
    if more == [] {
      assert sections + more == sections;
    } else {
      var init, last := more[..|more| - 1], more[|more| - 1];
      DisagreementsGrow(sections, init);
      assert (sections + more)[..|sections + more| - 1] == sections + init;
    }
  }

  lemma {:induction false} AgainstGrows(earlier: seq<Section>, section: Section, i: int, j: int)
    requires i <= j
    ensures Against(earlier, section, i) <= Against(earlier, section, j)
    decreases j - i
  {
    if i < j { AgainstGrows(earlier, section, i, j - 1); }
  }

  /** Rows that are read stay read, so a sixth disagreement cannot be taken back. */
  lemma AskedGrows(order: seq<Address>, answers: map<Address, Answer>, seen: seq<Section>)
    requires order != [] && AnswerOf(answers, order[0]).Sections?
    ensures var all := seen + Resolved(AnswerOf(answers, order[0]).sections, order[0].host);
            Disagreements(all) <= Disagreements(Asked(order, answers, seen))
  {
    var all := seen + Resolved(AnswerOf(answers, order[0]).sections, order[0].host);
    var asked := Asked(order, answers, seen);
    assert all <= asked;
    assert asked == all + asked[|all|..];
    DisagreementsGrow(all, asked[|all|..]);
  }

  lemma ReachableNext(order: seq<Address>, i: nat, answers: map<Address, Answer>)
    requires i < |order|
    ensures Reachable(order[..i + 1], answers) <==>
              Reachable(order[..i], answers) || AnswerOf(answers, order[i]).Sections?
  {
    var more := order[..i + 1];
    if Reachable(order[..i], answers) {
      var j :| 0 <= j < i && AnswerOf(answers, order[..i][j]).Sections?;
      assert more[j] == order[..i][j];
    }
    if AnswerOf(answers, order[i]).Sections? { assert more[i] == order[i]; }
    if Reachable(more, answers) && !AnswerOf(answers, order[i]).Sections? {
      var j :| 0 <= j < i + 1 && AnswerOf(answers, more[j]).Sections?;
      assert order[..i][j] == more[j];
    }
  }

  lemma ReachableMore(order: seq<Address>, i: nat, answers: map<Address, Answer>)
    requires i <= |order| && Reachable(order[..i], answers)
    ensures Reachable(order, answers)
  {
    var j :| 0 <= j < i && AnswerOf(answers, order[..i][j]).Sections?;
    assert AnswerOf(answers, order[j]).Sections?;
  }

  lemma AgainstNone(earlier: seq<Section>, section: Section, upTo: int)
    requires upTo <= section.from
    ensures Against(earlier, section, upTo) == 0
  {
  }

  lemma AgainstNext(earlier: seq<Section>, section: Section, slot: int)
    requires section.from <= slot
    ensures var k := FirstCover(earlier, slot);
            Against(earlier, section, slot + 1)
            == Against(earlier, section, slot) + (if k < |earlier|
                && earlier[k].primary != section.primary then 1 else 0)
  {
  }

  /** Appending the replica at `i` to the mentions made so far. */
  lemma ReplicaMentionsSnoc(replicas: seq<Address>, i: nat, seen: seq<Mention>)
    requires i <= |replicas|
    ensures i == 0 ==> seen + ReplicaMentions(replicas[..i]) == seen
    ensures i < |replicas| ==>
              seen + ReplicaMentions(replicas[..i]) + [Mention(replicas[i], Replica)]
              == seen + ReplicaMentions(replicas[..i + 1])
  {
  }

  /** Replies that agree on the primary of every slot show no disagreement. */
  lemma {:induction false} AgreeingReplies(sections: seq<Section>)
    requires forall i, j, slot | 0 <= i < j < |sections| && Covers(sections[i], slot) && Covers(sections[j], slot) ::
               sections[i].primary == sections[j].primary
    ensures Disagreements(sections) == 0
  {
    if sections != [] {
      var init, last := sections[..|sections| - 1], sections[|sections| - 1];
      AgreeingReplies(init);
      NoneAgainst(init, last, last.to + 1);
    }
  }

  lemma {:induction false} NoneAgainst(earlier: seq<Section>, section: Section, upTo: int)
    requires upTo <= section.to + 1
    requires forall i, slot | 0 <= i < |earlier| && Covers(earlier[i], slot) && Covers(section, slot) ::
               earlier[i].primary == section.primary
    ensures Against(earlier, section, upTo) == 0
    decreases upTo - section.from
  {
    if section.from < upTo {
      NoneAgainst(earlier, section, upTo - 1);
      assert Covers(section, upTo - 1);
    }
  }

  /** The first node named at all is the primary of the first row, and keeps that role. */
  lemma FirstNamed(sections: seq<Section>)
    requires sections != []
    ensures var m := Mentions(sections);
            m != [] && Named(m) != [] && Named(m)[0] == sections[0].primary && FirstRole(m, Named(m)[0]) == Primary
  {
    hide Mentions, Named, FirstRole;
    FirstMention(sections);
    HeadNamed(Mentions(sections));
  }

  lemma {:induction false} FirstMention(sections: seq<Section>)
    requires sections != []
    ensures Mentions(sections) != [] && Mentions(sections)[0] == Mention(sections[0].primary, Primary)
  {
    if |sections| > 1 { FirstMention(sections[..|sections| - 1]); }
  }

  lemma {:induction false} HeadNamed(mentions: seq<Mention>)
    requires mentions != []
    ensures Named(mentions) != [] && Named(mentions)[0] == mentions[0].name
    ensures FirstRole(mentions, mentions[0].name) == mentions[0].role
  {
    if |mentions| > 1 { HeadNamed(mentions[..|mentions| - 1]); }
  }

  /** A node that is listed as a replica before it is listed as a primary is filed as a replica. */
  lemma {:induction false} LaterPrimaryStaysReplica(a: Address, b: Address)
    requires a != b
    ensures var sections := [Section(0, 1, a, [b]), Section(2, 3, b, [])];
            && sections[FirstCover(sections, 2)].primary == b
            && b in Named(Mentions(sections)) && FirstRole(Mentions(sections), b) == Replica
  {
    var first, second := Section(0, 1, a, [b]), Section(2, 3, b, []);
    assert [first, second][..1] == [first] && [first][..0] == [];
    assert MentionsIn(first) == [Mention(a, Primary), Mention(b, Replica)];
    assert Mentions([first]) == MentionsIn(first);
    var m := [Mention(a, Primary), Mention(b, Replica), Mention(b, Primary)];
    assert Mentions([first, second]) == m;
    var two, one := m[..2], m[..1];
    assert two[..1] == one && one[..0] == [] && one[0] == Mention(a, Primary) && two[1] == Mention(b, Replica);
    assert Named(one) == [a] && Named(two) == [a, b] && Named(m) == [a, b];
    assert FirstRole(two, b) == Replica;
  }
}
