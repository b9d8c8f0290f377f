/**
 The client's picture of a cluster: which nodes serve which slot, the repair after a MOVED
 reply, and the node a command for a slot is sent to.
 */
module SlotTable {
  import opened Wrappers
  import opened ClusterSlots
  import Crc

  class ClusterNode {
    const name: Address
    var serverType: Role
    var connected: bool

    constructor (name: Address, serverType: Role)
      ensures this.name == name && this.serverType == serverType && !connected
    {
      this.name := name;
      this.serverType := serverType;
      connected := false;
    }
  }

  /** The list object of one CLUSTER SLOTS row: every slot of the row holds the same object. */
  class SlotList {
    var nodes: seq<ClusterNode>

    constructor (nodes: seq<ClusterNode>)
      ensures this.nodes == nodes
    {
      this.nodes := nodes;
    }
  }

  // ---------------------------------------------------------------------------
  // The list edit of a failover

  function Names(nodes: seq<ClusterNode>): (r: seq<Address>)
    ensures |r| == |nodes|
    ensures forall i | 0 <= i < |nodes| :: r[i] == nodes[i].name
  {
    if nodes == [] then [] else Names(nodes[..|nodes| - 1]) + [nodes[|nodes| - 1].name]
  }

  predicate Distinct(names: seq<Address>) {
    forall i, j | 0 <= i < j < |names| :: names[i] != names[j]
  }

  /** list.index: the first position. */
  function First(names: seq<Address>, name: Address): (i: nat)
    requires name in names
    ensures i < |names| && names[i] == name && name !in names[..i]
  {
    if names[0] == name then 0 else 1 + First(names[1..], name)
  }

  /** list.remove: the first occurrence goes. */
  function Removed(names: seq<Address>, name: Address): seq<Address>
    requires name in names
  {
    var i := First(names, name);
    names[..i] + names[i + 1..]
  }

  /** Append the head, remove the promoted node, put the promoted node at the head. */
  function Promoted(names: seq<Address>, name: Address): seq<Address>
    requires name in names
  {
    Removed(names + [names[0]], name)[0 := name]
  }

  lemma FirstIs(names: seq<Address>, name: Address, i: nat)
    requires i < |names| && names[i] == name && name !in names[..i]
    ensures First(names, name) == i
  {
    var j := First(names, name);
    assert forall k | 0 <= k < i :: names[k] == names[..i][k];
    assert forall k | 0 <= k < j :: names[k] == names[..j][k];
  }

  /** A replica takes the head, the old head goes to the end, the others keep their order. */
  lemma PromotedReplica(head: Address, before: seq<Address>, name: Address, after: seq<Address>)
    requires name != head && name !in before
    ensures Promoted([head] + before + [name] + after, name) == [name] + before + after + [head]
  {
    var names := [head] + before + [name] + after;
    var longer := names + [head];
    assert longer[..1 + |before|] == [head] + before;
    FirstIs(longer, name, 1 + |before|);
    assert longer[1 + |before| + 1..] == after + [head];
    assert Removed(longer, name) == [head] + before + (after + [head]);
  }

  /** Promoting the head itself: the second node is overwritten and the head is listed twice. */
  lemma PromotedHead(head: Address, rest: seq<Address>)
    ensures Promoted([head] + rest, head) == if rest == [] then [head] else [head] + rest[1..] + [head]
  {
    var longer := [head] + rest + [head];
    FirstIs(longer, head, 0);
    assert Removed(longer, head) == rest + [head];
  }

  lemma Around(names: seq<Address>, name: Address) returns (before: seq<Address>, after: seq<Address>)
    requires name in names && names[0] != name
    ensures names == [names[0]] + before + [name] + after && name !in before
  {
    var i := First(names, name);
    before, after := names[1..i], names[i + 1..];
    assert forall x | x in before :: x in names[..i];
  }

  lemma DistinctParts(a: seq<Address>, b: seq<Address>)
    ensures Distinct(a + b) <==> Distinct(a) && Distinct(b) && forall x | x in a :: x !in b
  {
    var ab := a + b;
    assert forall i | 0 <= i < |a| :: a[i] == ab[i];
    assert forall i | 0 <= i < |b| :: b[i] == ab[|a| + i];
    if Distinct(ab) {
      assert Distinct(a);
      assert Distinct(b) by {
        forall i, j | 0 <= i < j < |b| ensures b[i] != b[j] { assert ab[|a| + i] != ab[|a| + j]; }
      }
      forall i, j | 0 <= i < |a| && 0 <= j < |b| ensures a[i] != b[j] { assert ab[i] != ab[|a| + j]; }
    }
    if Distinct(a) && Distinct(b) && forall x | x in a :: x !in b {
      forall i, j | 0 <= i < j < |ab| ensures ab[i] != ab[j] {
        assert i < |a| ==> ab[i] in a;
        assert |a| <= j ==> ab[j] in b;
        assert |a| <= i ==> b[i - |a|] != b[j - |a|];
      }
    }
  }

  /**
   The edit keeps the nodes of the list, each once, exactly when the target is not already the
   head of a longer list; the target always ends up at the head.
   */
  lemma PromotionPermutes(names: seq<Address>, name: Address)
    requires name in names && Distinct(names)
    ensures Promoted(names, name)[0] == name && |Promoted(names, name)| == |names|
    ensures multiset(Promoted(names, name)) == multiset(names) <==> name != names[0] || |names| == 1
    ensures Distinct(Promoted(names, name)) <==> name != names[0] || |names| == 1
  {
    if names[0] == name {
      var rest := names[1..];
      assert names == [name] + rest;
      PromotedHead(name, rest);
      if rest != [] {
        HeadTwice(name, rest);
      }
    } else {
      var head, before, after := names[0], [], [];
      before, after := Around(names, name);
      PromotedReplica(head, before, name, after);
      assert multiset(names) == multiset(Promoted(names, name)) by {
        assert names == [head] + before + [name] + after;
      }
      SwapDistinct(head, before, name, after);
    }
  }

  lemma HeadTwice(name: Address, rest: seq<Address>)
    requires rest != [] && Distinct([name] + rest)
    ensures var r := [name] + rest[1..] + [name]; !Distinct(r) && multiset(r) != multiset([name] + rest)
  {
    var r := [name] + rest[1..] + [name];
    assert r[0] == r[|r| - 1];
    assert rest == [rest[0]] + rest[1..];
    DistinctParts([name], rest);
    assert name in [name];
    assert multiset(r)[name] >= 2;
    assert multiset([name] + rest)[name] == 1;
  }

  lemma SwapDistinct(head: Address, before: seq<Address>, name: Address, after: seq<Address>)
    requires Distinct([head] + before + [name] + after)
    ensures Distinct([name] + before + after + [head])
  {
    DistinctParts([head] + before + [name], after);
    DistinctParts([head] + before, [name]);
    DistinctParts([head], before);
    assert head in [head] && name in [name];
    assert forall x | x in before :: x in [head] + before && x in [head] + before + [name];
    assert head in [head] + before && head in [head] + before + [name] && name in [head] + before + [name];
    DistinctParts(before, after);
    DistinctParts([name], before + after);
    DistinctParts([name] + (before + after), [head]);
    assert [name] + before + after == [name] + (before + after);
  }

  // ---------------------------------------------------------------------------
  // The table

  /** The names without the given one. */
  function Dropped(order: seq<Address>, name: Address): (r: seq<Address>)
    ensures forall a :: a in r <==> a in order && a != name
  {
    if order == [] then []
    else
      var rest, last := Dropped(order[..|order| - 1], name), order[|order| - 1];
      if last == name then rest else rest + [last]
  }

  lemma {:induction false} DropKeepsDistinct(order: seq<Address>, name: Address)
    requires Distinct(order)
    ensures Distinct(Dropped(order, name))
  {
    if order != [] {
      var init, last := order[..|order| - 1], order[|order| - 1];
      DropKeepsDistinct(init, name);
      assert last !in init;
      assert last !in Dropped(init, name);
    }
  }

  /** A dictionary by node name that remembers the order of insertion. */
  datatype NodeDict = NodeDict(order: seq<Address>, node: map<Address, ClusterNode>) {
    ghost predicate Valid() {
      && Distinct(order)
      && (forall a :: a in order <==> a in node)
      && (forall a | a in node :: node[a].name == a)
    }

    function Without(name: Address): (r: NodeDict)
      requires Valid()
      ensures r.Valid()
    {
      DropKeepsDistinct(order, name);
      NodeDict(Dropped(order, name), node - {name})
    }

    function Set(n: ClusterNode): (r: NodeDict)
      requires Valid()
      ensures r.Valid()
    {
      NodeDict(if n.name in node then order else order + [n.name], node[n.name := n])
    }
  }

  /** The slot and the new address that a MOVED reply names. */
  datatype Moved = Moved(slot: int, target: Address)

  datatype Error = KeyError | SlotNotCovered | CannotConnect | Disagreement | NotFullyCovered | IndexError

  datatype Result<T> = Ok(value: T) | Err(error: Error)

  // ---------------------------------------------------------------------------
  // What has been read of the CLUSTER SLOTS replies so far

  /** The dictionary of the nodes mentioned so far. */
  ghost predicate NodesRead(tmp: NodeDict, mentions: seq<Mention>)
    reads tmp.node.Values`serverType
  {
    && tmp.Valid() && tmp.order == Named(mentions)
    && forall a | a in tmp.node :: tmp.node[a].serverType == FirstRole(mentions, a)
  }

  /** The list objects of the rows read so far, and the list that each slot got. */
  ghost predicate RowsRead(slots: map<int, SlotList>, sections: seq<Section>, lists: seq<SlotList>, tmp: NodeDict)
    reads lists
  {
    && |lists| == |sections| && ListsRead(sections, lists, tmp)
    && (forall i :: i in slots <==> Covered(sections, i))
    && (forall i | i in slots :: slots[i] == lists[FirstCover(sections, i)])
  }

  ghost predicate ListsRead(sections: seq<Section>, lists: seq<SlotList>, tmp: NodeDict)
    reads lists
  {
    && |lists| == |sections|
    && (forall i, j | 0 <= i < j < |lists| :: lists[i] != lists[j])
    && (forall k | 0 <= k < |lists| :: Names(lists[k].nodes) == NodesOf(sections[k]))
    && (forall k, n | 0 <= k < |lists| && n in lists[k].nodes :: n.name in tmp.node && tmp.node[n.name] == n)
  }

  /** The local variables of the scan. */
  datatype Scan = Scan(tmp: NodeDict, slots: map<int, SlotList>, disagreements: nat)

  ghost predicate Scanned(scan: Scan, sections: seq<Section>, lists: seq<SlotList>)
    reads lists, scan.tmp.node.Values`serverType
  {
    && NodesRead(scan.tmp, Mentions(sections)) && RowsRead(scan.slots, sections, lists, scan.tmp)
    && scan.disagreements == Disagreements(sections) <= 5
  }

  class NodesManager {
    var nodesCache: NodeDict
    var slotsCache: map<int, SlotList>
    var startupNodes: NodeDict
    var defaultNode: ClusterNode?
    var movedException: Option<Moved>
    /** startup_nodes and nodes_cache are one dictionary object. */
    var oneDictionary: bool
    const requireFullCoverage: bool
    const dynamicStartupNodes: bool

    ghost predicate Valid()
      reads this`nodesCache, this`startupNodes, this`oneDictionary, this`slotsCache, slotsCache.Values
    {
      && nodesCache.Valid() && startupNodes.Valid() && (oneDictionary ==> startupNodes == nodesCache)
      && (forall s | s in slotsCache :: slotsCache[s].nodes != [])
    }

    /** The names of the nodes of a slot, the primary first. */
    ghost function Row(slot: int): (r: seq<Address>)
      requires slot in slotsCache
      reads this`slotsCache, slotsCache.Values
    {
      Names(slotsCache[slot].nodes)
    }

    /**
     What one MOVED reply does to the row of a slot: a failover changes all the slots that hold
     the same list object, another redirection only the slot of the reply.
     */
    ghost function PatchedRow(m: Moved, s: int): seq<Address>
      requires s in slotsCache
      reads this`slotsCache, slotsCache.Values
    {
      if m.slot in slotsCache && m.target in Row(m.slot) then
        if slotsCache[s] == slotsCache[m.slot] then Promoted(Row(s), m.target) else Row(s)
      else if s == m.slot then [m.target]
      else Row(s)
    }

    lemma HeadIs(slot: int)
      requires Valid() && slot in slotsCache
      ensures slotsCache[slot].nodes != [] && Row(slot) != [] && slotsCache[slot].nodes[0].name == Row(slot)[0]
      ensures Listed() ==> Row(slot)[0] in nodesCache.node && nodesCache.node[Row(slot)[0]] == slotsCache[slot].nodes[0]
    {
    }

    /** Every listed node is the node that the dictionary has under its name. */
    ghost predicate Listed()
      reads this`nodesCache, this`slotsCache, slotsCache.Values
    {
      forall s, n | s in slotsCache && n in slotsCache[s].nodes ::
          n.name in nodesCache.node && nodesCache.node[n.name] == n
    }

    /** The nodes and lists that the table knows. */
    ghost function Objects(): set<object>
      reads this`nodesCache, this`startupNodes, this`slotsCache, slotsCache.Values
    {
      nodesCache.node.Values + startupNodes.node.Values + slotsCache.Values
      + (set s, n | s in slotsCache && n in slotsCache[s].nodes :: n)
    }

    /** No list has a node twice. */
    ghost predicate NoDuplicates()
      reads this`slotsCache, slotsCache.Values
    {
      forall s | s in slotsCache :: Distinct(Row(s))
    }

    /** The objects that the repair may write besides the table itself. */
    ghost function Touched(): set<object>
      reads this, slotsCache.Values
    {
      match movedException
      case None => {}
      case Some(m) =>
        (if m.target in nodesCache.node then {nodesCache.node[m.target]} else {})
        + (if m.slot in slotsCache then {slotsCache[m.slot]} else {})
        + (if m.slot in slotsCache && slotsCache[m.slot].nodes != [] then {slotsCache[m.slot].nodes[0]} else {})
    }

    /** nodes_cache.get for the address of the reply; a node that is not there yet is added as a primary. */
    method RedirectedNode(target: Address) returns (node: ClusterNode)
      requires Valid()
      modifies this`nodesCache, this`startupNodes, if target in nodesCache.node then {nodesCache.node[target]} else {}
      ensures Valid() && nodesCache == old(nodesCache).Set(node)
      ensures startupNodes == if oneDictionary then nodesCache else old(startupNodes)
      ensures target in nodesCache.node && nodesCache.node[target] == node
      ensures node.name == target && node.serverType == Primary
      ensures nodesCache.order == old(nodesCache).order + if target in old(nodesCache).node then [] else [target]
      ensures if target in old(nodesCache).node then node == old(nodesCache).node[target]
                && nodesCache == old(nodesCache) else fresh(node)
      ensures old(Listed()) ==> Listed()
      ensures node in Objects()
      ensures forall o | o in Objects() :: fresh(o) || o in old(Objects())
    {
      hide Objects, Listed;
      if target in nodesCache.node {
        node := nodesCache.node[target];
        if node.serverType != Primary {
          node.serverType := Primary;
        }
      } else {
        node := new ClusterNode(target, Primary);
        nodesCache := nodesCache.Set(node);
        if oneDictionary {
          startupNodes := nodesCache;
        }
      }
      FiledWithin(node);
    }

    twostate lemma FiledWithin(new node: ClusterNode)
      requires node.name in nodesCache.node && nodesCache.node[node.name] == node
      requires nodesCache == old(nodesCache)
                 || (fresh(node) && node.name !in old(nodesCache).node
                   && nodesCache.node == old(nodesCache).node[node.name := node])
      requires startupNodes == old(startupNodes) || startupNodes == nodesCache
      requires slotsCache == old(slotsCache) && forall s | s in slotsCache ::
                 slotsCache[s].nodes == old(slotsCache[s].nodes)
      ensures node in Objects() && forall o | o in Objects() :: fresh(o) || o in old(Objects())
      ensures old(Listed()) ==> Listed()
    {
    }

    /** A repair lists and files no node but those known before and the redirected one. */
    twostate lemma Within(redirected: ClusterNode)
      requires old(allocated(redirected)) && redirected in old(Objects())
      requires nodesCache == old(nodesCache) && startupNodes == old(startupNodes)
      requires slotsCache.Keys == old(slotsCache).Keys
      requires forall s | s in slotsCache :: slotsCache[s] == old(slotsCache)[s] || fresh(slotsCache[s])
      requires forall s, n | s in slotsCache && n in slotsCache[s].nodes ::
                 n == redirected || n in old(slotsCache[s].nodes)
      ensures forall o | o in Objects() :: fresh(o) || o in old(Objects())
    {
      forall s | s in slotsCache ensures fresh(slotsCache[s]) || slotsCache[s] in old(slotsCache).Values {
        assert old(slotsCache)[s] in old(slotsCache).Values;
      }
      forall s, n | s in slotsCache && n in slotsCache[s].nodes ensures n in old(Objects()) {
        assert n == redirected || n in old(slotsCache[s].nodes);
      }
    }

    /** The branch of a failover: the old primary becomes a replica at the end of the list. */
    method PromoteReplica(slot: int, redirected: ClusterNode)
      requires Valid() && slot in slotsCache && redirected.name in Row(slot)
      modifies this`defaultNode, slotsCache[slot], slotsCache[slot].nodes[0]
      ensures Valid()
      ensures Row(slot)[0] == redirected.name && slotsCache[slot].nodes[0] == redirected
      ensures forall s | s in slotsCache ::
                Row(s) == if slotsCache[s] == slotsCache[slot] then Promoted(old(Row(s)), redirected.name)
                    else old(Row(s))
      ensures old(slotsCache[slot].nodes[0]).serverType == Replica
      ensures redirected != old(slotsCache[slot].nodes[0]) ==> redirected.serverType == old(redirected.serverType)
      ensures defaultNode == if old(defaultNode) != null
                && old(defaultNode).name == old(Row(slot))[0] then redirected else old(defaultNode)
      ensures old(Listed()) && redirected.name in nodesCache.node && nodesCache.node[redirected.name] == redirected ==>
                Listed()
      ensures redirected in old(Objects()) ==> forall o | o in Objects() :: fresh(o) || o in old(Objects())
    {
      hide Promoted, Names, NodeDict.Valid, Objects;
      var list := slotsCache[slot];
      var oldPrimary := list.nodes[0];
      oldPrimary.serverType := Replica;
      PromoteIn(list, redirected);
      if defaultNode != null && defaultNode.name == oldPrimary.name {
        defaultNode := redirected;
      }
      if redirected in old(Objects()) { Within(redirected); }
    }

    /** The other branch: the slot gets a list of its own. */
    method ReplaceRow(slot: int, redirected: ClusterNode)
      requires Valid() && slot in slotsCache
      modifies this`slotsCache
      ensures Valid() && slotsCache.Keys == old(slotsCache).Keys
      ensures forall s | s in slotsCache :: Row(s) == if s == slot then [redirected.name] else old(Row(s))
      ensures slotsCache[slot].nodes == [redirected]
      ensures forall s | s in slotsCache && s != slot :: slotsCache[s] == old(slotsCache)[s]
      ensures old(Listed()) && redirected.name in nodesCache.node && nodesCache.node[redirected.name] == redirected ==>
                Listed()
      ensures redirected in old(Objects()) ==> forall o | o in Objects() :: fresh(o) || o in old(Objects())
    {
      hide NodeDict.Valid, Names, Objects;
      var single := new SlotList([redirected]);
      slotsCache := slotsCache[slot := single];
      NamesSnoc([], redirected);
      assert [] + [redirected] == [redirected];
      if redirected in old(Objects()) { Within(redirected); }
    }

    /** What happens to the row of the slot, depending on whether it lists the redirected node. */
    method UpdateRow(m: Moved, redirected: ClusterNode)
      requires Valid() && m.slot in slotsCache && redirected.name == m.target
      requires m.target in nodesCache.node && nodesCache.node[m.target] == redirected
      modifies this`defaultNode, this`slotsCache, slotsCache[m.slot], slotsCache[m.slot].nodes[0]
      ensures Valid() && slotsCache.Keys == old(slotsCache).Keys
      ensures Row(m.slot)[0] == m.target
      ensures forall s | s in slotsCache :: Row(s) == old(PatchedRow(m, s))
      ensures old(Listed()) ==> Listed()
      ensures m.target in old(Row(m.slot)) ==> old(slotsCache[m.slot].nodes[0]).serverType == Replica
      ensures old(slotsCache[m.slot].nodes[0]) == redirected ==> redirected.serverType == Replica
      ensures old(slotsCache[m.slot].nodes[0]) != redirected ==> redirected.serverType == old(redirected.serverType)
      ensures defaultNode == if m.target in old(Row(m.slot)) && old(defaultNode) != null
                && old(defaultNode).name == old(Row(m.slot))[0] then redirected else old(defaultNode)
      ensures forall o | o in Objects() :: fresh(o) || o in old(Objects())
    {
      hide Promoted, Names, NodeDict.Valid, Listed, Objects;
      assert redirected in Objects() by { Filed(m.target); }
      HeadIs(m.slot);
      if m.target in Names(slotsCache[m.slot].nodes) {
        PromoteReplica(m.slot, redirected);
      } else {
        ReplaceRow(m.slot, redirected);
      }
    }

    lemma Known()
      requires Valid()
      ensures nodesCache.node.Values <= Objects() && startupNodes.node.Values <= Objects() && Touched() <= Objects()
      ensures forall s, n | s in slotsCache && n in slotsCache[s].nodes :: n in Objects()
      ensures forall o | o in Objects() :: o is ClusterNode || o is SlotList
    {
      if movedException.Some? && movedException.value.slot in slotsCache {
        assert slotsCache[movedException.value.slot] in slotsCache.Values;
        assert slotsCache[movedException.value.slot].nodes[0] in slotsCache[movedException.value.slot].nodes;
      }
    }

    lemma Filed(name: Address)
      requires name in nodesCache.node
      ensures nodesCache.node[name] in Objects()
    {
    }

    /**
     _update_moved_slots. When the slot of the reply is not in the table the call fails after the
     node was added, and the reply stays recorded.
     */
    method UpdateMovedSlots() returns (r: Result<()>)
      requires Valid() && movedException.Some?
      modifies this, Touched()
      ensures Valid()
      ensures r == if old(movedException).value.slot in old(slotsCache) then Ok(()) else Err(KeyError)
      ensures movedException == if r.Ok? then None else old(movedException)
      ensures slotsCache.Keys == old(slotsCache).Keys
      ensures r.Ok? ==> var m := old(movedException).value; Row(m.slot)[0] == m.target
      ensures forall s | s in slotsCache :: Row(s) == old(PatchedRow(movedException.value, s))
      // the redirected node is filed under its name, and nothing else changes in the dictionary
      ensures var m := old(movedException).value;
              && m.target in nodesCache.node && nodesCache == old(nodesCache).Set(nodesCache.node[m.target])
              && (m.target in old(nodesCache).node ==> nodesCache == old(nodesCache))
      ensures startupNodes == (if oneDictionary then nodesCache else old(startupNodes))
                && oneDictionary == old(oneDictionary)
      ensures old(Listed()) ==> Listed()
      ensures var m := old(movedException).value;
              nodesCache.order == old(nodesCache).order + if m.target in old(nodesCache).node then [] else [m.target]
      // the target is a primary, unless it headed the list already
      ensures var m := old(movedException).value;
              old(Listed()) ==>
              (nodesCache.node[m.target].serverType == Primary <==> !(r.Ok? && old(Row(m.slot))[0] == m.target))
      // the old head is a replica from then on, unless the slot got a list of its own
      ensures var m := old(movedException).value;
              r.Ok? && m.target in old(Row(m.slot)) ==> old(slotsCache[m.slot].nodes[0]).serverType == Replica
      ensures var m := old(movedException).value;
              defaultNode == if r.Ok? && m.target in old(Row(m.slot)) && old(defaultNode) != null
                  && old(defaultNode).name == old(Row(m.slot))[0]
                             then nodesCache.node[m.target] else old(defaultNode)
      ensures forall o | o in Objects() :: fresh(o) || o in old(Objects())
    {
      hide Promoted, Names, NodeDict.Valid, NodeDict.Set, Valid, Listed, Objects;
      var m := movedException.value;
      var redirected := RedirectedNode(m.target);
      if m.slot !in slotsCache {
        return Err(KeyError);
      }
      r := Ok(());
      HeadIs(m.slot);
      ghost var head := slotsCache[m.slot].nodes[0];
      UpdateRow(m, redirected);
      assert m.target in old(Row(m.slot)) ==> head.serverType == Replica;
      movedException := None;
    }

    /** The row of a slot once a recorded MOVED reply has been dealt with. */
    ghost function Repaired(s: int): seq<Address>
      requires s in slotsCache
      reads this`movedException, this`slotsCache, slotsCache.Values
    {
      match movedException
      case None => Row(s)
      case Some(m) => PatchedRow(m, s)
    }

    /**
     get_node_from_slot, after a recorded MOVED reply has been worked into the table; `choice`
     stands for the random replica.
     */
    method GetNodeFromSlot(slot: int, replica: bool, choice: nat) returns (r: Result<ClusterNode>)
      requires Valid()
      modifies this, Touched()
      ensures Valid() && slotsCache.Keys == old(slotsCache).Keys
      ensures startupNodes == (if oneDictionary then nodesCache else old(startupNodes))
                && oneDictionary == old(oneDictionary)
      ensures old(movedException) == None ==> unchanged(this)
      ensures old(movedException).Some? ==>
                var target, before := old(movedException).value.target, old(nodesCache);
                nodesCache.order == before.order + if target in before.node then [] else [target]
      ensures var lost := old(movedException).Some? && old(movedException).value.slot !in slotsCache;
              && (lost ==> r == Err(KeyError) && movedException == old(movedException))
              && (!lost ==>
                   movedException == None && (r.Ok? <==> slot in slotsCache) && (r.Err? ==> r == Err(SlotNotCovered)))
      ensures forall s | s in slotsCache :: Row(s) == old(Repaired(s))
      ensures r.Ok? && (!replica || |Row(slot)| == 1) ==>
                r.value == slotsCache[slot].nodes[0] && r.value.name == Row(slot)[0]
      ensures r.Ok? && replica && |Row(slot)| > 1 ==> r.value in slotsCache[slot].nodes[1..]
      ensures r.Ok? && old(movedException).Some? && old(movedException).value.slot == slot ==>
                Row(slot)[0] == old(movedException).value.target
      ensures old(Listed()) ==> Listed()
      ensures forall o | o in Objects() :: fresh(o) || o in old(Objects())
    {
      hide Promoted, Names, NodeDict.Valid, NodeDict.Set, Listed, Objects;
      if movedException.Some? {
        var repair := UpdateMovedSlots();
        if repair.Err? {
          return Err(repair.error);
        }
      }
      if slot !in slotsCache || |slotsCache[slot].nodes| == 0 {
        return Err(SlotNotCovered);
      }
      var nodes := slotsCache[slot].nodes;
      if !replica || |nodes| == 1 {
        return Ok(nodes[0]);
      }
      return Ok(nodes[1..][choice % (|nodes| - 1)]);
    }

    /** The present dictionary has a connected node of this name. */
    ghost predicate Kept(name: Address)
      reads this`nodesCache, nodesCache.node.Values`connected
    {
      name in nodesCache.node && nodesCache.node[name].connected
    }

    /**
     _get_or_create_cluster_node: a connected node is used again, and the role is written when the
     node is first mentioned.
     */
    method GetOrCreateNode(name: Address, role: Role, tmp: NodeDict, ghost mentions: seq<Mention>)
      returns (node: ClusterNode, r: NodeDict)
      requires nodesCache.Valid() && NodesRead(tmp, mentions)
      modifies nodesCache.node.Values`serverType
      ensures NodesRead(r, mentions + [Mention(name, role)])
      ensures name in r.node && node == r.node[name] && node.name == name
      ensures r == if name in tmp.node then tmp else tmp.Set(node)
      ensures Extends(tmp, r) && forall a | a in r.node && a !in tmp.node :: a == name
      ensures name !in tmp.node ==> if Kept(name) then node == nodesCache.node[name] else fresh(node)
    {
      ghost var all := mentions + [Mention(name, role)];
      assert all[..|all| - 1] == mentions;
      if name in tmp.node {
        return tmp.node[name], tmp;
      }
      if name in nodesCache.node && nodesCache.node[name].connected {
        node := nodesCache.node[name];
      } else {
        node := new ClusterNode(name, role);
      }
      if node.serverType != role {
        node.serverType := role;
      }
      r := tmp.Set(node);
    }

    /** The node list of one row: the primary, then the replicas. */
    method NodesForSection(section: Section, tmp: NodeDict, ghost mentions: seq<Mention>)
      returns (nodes: seq<ClusterNode>, r: NodeDict)
      requires nodesCache.Valid() && NodesRead(tmp, mentions)
      modifies nodesCache.node.Values`serverType
      ensures NodesRead(r, mentions + MentionsIn(section))
      ensures Names(nodes) == NodesOf(section)
      ensures forall n | n in nodes :: n.name in r.node && r.node[n.name] == n
      ensures Extends(tmp, r)
      ensures forall a | a in r.node && a !in tmp.node ::
                if Kept(a) then r.node[a] == nodesCache.node[a] else fresh(r.node[a])
    {
      hide NodesRead, NodeDict.Valid, NodeDict.Set, Names, ReplicaMentions, Extends;
      ghost var seen := mentions + [Mention(section.primary, Primary)];
      var node;
      node, r := GetOrCreateNode(section.primary, Primary, tmp, mentions);
      nodes := [node];
      NamesSnoc([], node);
      ReplicaMentionsSnoc(section.replicas, 0, seen);
      assert [] + nodes == nodes && section.replicas[..0] == [] && [section.primary] + [] == [section.primary];
      ghost var done := seen;
      for i := 0 to |section.replicas|
        invariant NodesRead(r, done)
        invariant done == seen + ReplicaMentions(section.replicas[..i])
        invariant Names(nodes) == [section.primary] + section.replicas[..i]
        invariant forall n | n in nodes :: n.name in r.node && r.node[n.name] == n
        invariant Extends(tmp, r)
        invariant forall a | a in r.node && a !in tmp.node ::
                    if Kept(a) then r.node[a] == nodesCache.node[a] else fresh(r.node[a])
      {
        ghost var before, more := r, done + [Mention(section.replicas[i], Replica)];
        assert more == seen + ReplicaMentions(section.replicas[..i + 1]) by { ReplicaMentionsSnoc(section.replicas, i,
               seen); }
        node, r := GetOrCreateNode(section.replicas[i], Replica, r, done);
        done := more;
        NextName(section, i, nodes, node);
        ExtendsMore(tmp, before, r, nodes);
        nodes := nodes + [node];
      }
      WholeSection(section, mentions);
    }

    /** The slots of one row: a slot that has a list keeps it, and a different primary is a disagreement. */
    method FillSlots(section: Section, list: SlotList, slots: map<int, SlotList>, disagreements: nat,
                     ghost sections: seq<Section>, ghost lists: seq<SlotList>, ghost tmp: NodeDict)
      returns (r: map<int, SlotList>, count: nat, agreed: bool)
      requires RowsRead(slots, sections, lists, tmp) && ListsRead(sections + [section], lists + [list], tmp)
      requires disagreements <= 5
      ensures agreed ==> RowsRead(r, sections + [section], lists + [list], tmp)
      ensures agreed ==> count == disagreements + Against(sections, section, section.to + 1) <= 5
      ensures !agreed ==> disagreements + Against(sections, section, section.to + 1) > 5
    {
      hide ListsRead, Names, FirstCover, Against, Covered, RowsRead;
      RowsAre(slots, sections, lists, tmp);
      r, count, agreed := slots, disagreements, true;
      AgainstNone(sections, section, section.from);
      var i := section.from;
      while i <= section.to
        invariant section.from <= i && (i <= section.to + 1 || i == section.from)
        invariant count == disagreements + Against(sections, section, i) <= 5
        invariant forall j :: j in r <==> j in slots || section.from <= j < i
        invariant forall j | j in r :: r[j] == if j in slots then slots[j] else list
        decreases section.to + 1 - i
      {
        AgainstNext(sections, section, i);
        if i !in r {
          r := r[i := list];
        } else {
          HeadOfList(sections, lists, tmp, FirstCover(sections, i));
          if r[i].nodes[0].name != section.primary {
            count := count + 1;
            if count > 5 {
              AgainstGrows(sections, section, i + 1, section.to + 1);
              agreed := false;
              return;
            }
          }
        }
        i := i + 1;
      }
      if section.to < section.from { AgainstNone(sections, section, section.to + 1); }
      RowsExtended(section, list, r, sections, lists, tmp);
    }

    /** One row of a reply: its nodes, a list object for them, its slots. */
    method ReadSection(section: Section, scan: Scan, ghost sections: seq<Section>, ghost lists: seq<SlotList>)
      returns (r: Scan, list: SlotList, agreed: bool)
      requires nodesCache.Valid() && Scanned(scan, sections, lists)
      modifies nodesCache.node.Values`serverType
      ensures fresh(list)
      ensures agreed ==> Scanned(r, sections + [section], lists + [list])
      ensures !agreed ==> Disagreements(sections + [section]) > 5
      ensures Extends(scan.tmp, r.tmp)
      ensures forall a | a in r.tmp.node && a !in scan.tmp.node ::
                if Kept(a) then r.tmp.node[a] == nodesCache.node[a] else fresh(r.tmp.node[a])
    {
      hide NodesRead, NodeDict.Valid, RowsRead, ListsRead, Mentions, Disagreements, Against, Extends;
      var nodes, tmp := NodesForSection(section, scan.tmp, Mentions(sections));
      list := new SlotList(nodes);
      SectionSnoc(sections, section);
      NewList(scan, sections, lists, section, list, tmp);
      var slots, disagreements;
      slots, disagreements, agreed := FillSlots(section, list, scan.slots, scan.disagreements, sections, lists, tmp);
      r := Scan(tmp, slots, disagreements);
    }

    /** The rows of one reply. */
    method ReadReply(host: string, reply: seq<Section>, scan: Scan, ghost sections: seq<Section>,
        ghost lists: seq<SlotList>)
      returns (r: Scan, ghost after: seq<SlotList>, agreed: bool)
      requires nodesCache.Valid() && Scanned(scan, sections, lists)
      modifies nodesCache.node.Values`serverType
      ensures forall l | l in after :: l in lists || fresh(l)
      ensures agreed ==> Scanned(r, sections + Resolved(reply, host), after)
      ensures !agreed ==> Disagreements(sections + Resolved(reply, host)) > 5
      ensures Extends(scan.tmp, r.tmp)
      ensures forall a | a in r.tmp.node && a !in scan.tmp.node ::
                if Kept(a) then r.tmp.node[a] == nodesCache.node[a] else fresh(r.tmp.node[a])
    {
      hide NodeDict.Valid, Scanned, Extends, Resolved, ResolvedOne, Disagreements;
      r, after, agreed := scan, lists, true;
      ResolvedSteps(reply, host, 0, sections);
      ExtendsAll(scan.tmp, scan.tmp, scan.tmp);
      for i := 0 to |reply|
        invariant agreed && Scanned(r, sections + Resolved(reply[..i], host), after)
        invariant forall l | l in after :: l in lists || fresh(l)
        invariant Extends(scan.tmp, r.tmp)
        invariant forall a | a in r.tmp.node && a !in scan.tmp.node ::
                    if Kept(a) then r.tmp.node[a] == nodesCache.node[a] else fresh(r.tmp.node[a])
      {
        ghost var before := r;
        ResolvedSteps(reply, host, i, sections);
        var list;
        r, list, agreed := ReadSection(ResolvedOne(reply[i], host), r, sections + Resolved(reply[..i], host), after);
        ExtendsAll(scan.tmp, before.tmp, r.tmp);
        after := after + [list];
        if !agreed {
          ResolvedRest(reply, host, i + 1, sections);
          return;
        }
      }
      assert reply[..|reply|] == reply;
    }

    /** check_slots_coverage. */
    method CheckSlotsCoverage(slots: map<int, SlotList>) returns (r: bool)
      ensures r <==> forall i | 0 <= i < Crc.REDIS_CLUSTER_HASH_SLOTS :: i in slots
    {
      for i := 0 to Crc.REDIS_CLUSTER_HASH_SLOTS
        invariant forall j | 0 <= j < i :: j in slots
      {
        if i !in slots { return false; }
      }
      return true;
    }

    /** create_redis_connections for the nodes of a dictionary. */
    method CreateRedisConnections(dict: NodeDict)
      requires dict.Valid()
      modifies dict.node.Values`connected
      ensures forall a | a in dict.node :: dict.node[a].connected
      ensures forall n: ClusterNode | old(allocated(n)) && old(n.connected) :: n.connected
      ensures forall n: ClusterNode | old(allocated(n)) && n !in dict.node.Values :: n.connected == old(n.connected)
    {
      for i := 0 to |dict.order|
        invariant forall j | 0 <= j < i :: dict.node[dict.order[j]].connected
        invariant forall n: ClusterNode | old(allocated(n)) && old(n.connected) :: n.connected
        invariant forall n: ClusterNode | old(allocated(n)) && n !in dict.node.Values :: n.connected == old(n.connected)
      {
        dict.node[dict.order[i]].connected := true;
      }
    }

    /** The nodes found so far are nodes of the present dictionary or new ones; connected nodes are used again. */
    twostate predicate Sourced(new tmp: NodeDict)
      reads this`nodesCache, this`startupNodes
    {
      forall a | a in tmp.node ::
        && (fresh(tmp.node[a])
            || (a in nodesCache.node && tmp.node[a] == nodesCache.node[a]
                && (old(Kept(a)) || tmp.node[a] in startupNodes.node.Values)))
        && (old(Kept(a)) ==> a in nodesCache.node && tmp.node[a] == nodesCache.node[a])
    }

    /** Reads the reply of one startup node and looks whether all slots are covered now. */
    method ReadAndCheck(host: string, reply: seq<Section>, scan: Scan, ghost sections: seq<Section>,
        ghost lists: seq<SlotList>)
      returns (r: Scan, ghost after: seq<SlotList>, covered: bool, agreed: bool)
      requires nodesCache.Valid() && Scanned(scan, sections, lists)
      modifies nodesCache.node.Values`serverType
      ensures forall l | l in after :: l in lists || fresh(l)
      ensures agreed ==> Scanned(r, sections + Resolved(reply, host), after)
      ensures agreed ==> (covered <==> FullyCovered(sections + Resolved(reply, host)))
      ensures !agreed ==> Disagreements(sections + Resolved(reply, host)) > 5
      ensures Extends(scan.tmp, r.tmp)
      ensures forall a | a in r.tmp.node && a !in scan.tmp.node ::
                if Kept(a) then r.tmp.node[a] == nodesCache.node[a] else fresh(r.tmp.node[a])
    {
      hide NodeDict.Valid, Extends, Resolved, Disagreements, FullyCovered, Disagreements, Mentions, Named, FirstRole,
           FirstCover, Names;
      r, after, agreed := ReadReply(host, reply, scan, sections, lists);
      if agreed { SlotsCovered(r, sections + Resolved(reply, host), after); }
      covered := CheckSlotsCoverage(r.slots);
    }

    /** Asks the startup nodes in turn and reads their replies. */
    method ReadAll(answers: map<Address, Answer>)
      returns (scan: Scan, ghost sections: seq<Section>, ghost lists: seq<SlotList>, reached: bool, covered: bool,
          agreed: bool)
      requires Valid()
      modifies nodesCache.node.Values`serverType, startupNodes.node.Values`connected
      ensures forall l | l in lists :: fresh(l)
      ensures agreed ==> Scanned(scan, sections, lists) && sections == Asked(startupNodes.order, answers, [])
      ensures agreed ==> (reached <==> Reachable(startupNodes.order, answers)) && (covered <==> FullyCovered(sections))
      ensures !agreed ==> Disagreements(Asked(startupNodes.order, answers, [])) > 5
      ensures Sourced(scan.tmp)
      ensures forall n | n in nodesCache.node.Values :: old(n.connected) ==> n.connected
      ensures OnlyStartupNodesCameUp()
    {
      hide NodeDict.Valid, Scanned, Extends, Resolved, Disagreements, FullyCovered, Sourced, Reachable;
      scan, sections, lists := Scan(NodeDict([], map[]), map[], 0), [], [];
      reached, covered, agreed := false, false, true;
      ghost var order := startupNodes.order;
      NothingRead(answers);
      NothingSourced();
      assert order[..0] == [] && order[0..] == order;
      for i := 0 to |startupNodes.order|
        invariant agreed && Scanned(scan, sections, lists) && forall l | l in lists :: fresh(l)
        invariant Asked(order[i..], answers, sections) == Asked(order, answers, [])
        invariant !FullyCovered(sections)
        invariant reached <==> Reachable(order[..i], answers)
        invariant !covered
        invariant Sourced(scan.tmp)
        invariant forall n | n in nodesCache.node.Values :: old(n.connected) ==> n.connected
        invariant OnlyStartupNodesCameUp()
      {
        StartupNode(i);
        var startupNode := startupNodes.node[startupNodes.order[i]];
        startupNode.connected := true;
        assert order[i..][1..] == order[i + 1..];
        ReachableNext(order, i, answers);
        match AnswerOf(answers, startupNode.name) {
          case Unreachable =>
          case Sections(reply) =>
            reached := true;
            ghost var before, seen := scan, sections;
            scan, lists, covered, agreed := ReadAndCheck(startupNode.name.host, reply, scan, sections, lists);
            sections := sections + Resolved(reply, startupNode.name.host);
            MoreSourced(before.tmp, scan.tmp);
            if !agreed {
              AskedGrows(order[i..], answers, seen);
              return;
            }
            if covered {
              ReachableMore(order, i + 1, answers);
              return;
            }
        }
      }
      assert order[..|order|] == order;
    }

    lemma NothingSourced()
      ensures Sourced(NodeDict([], map[]))
    {
    }

    /** A node of the old dictionary that was not connected and is not asked still is not. */
    twostate predicate OnlyStartupNodesCameUp()
      reads this`nodesCache, this`startupNodes, nodesCache.node.Values
    {
      forall n | n in nodesCache.node.Values && n.connected ::
        (old(allocated(n)) && old(n.connected)) || n in startupNodes.node.Values
    }

    twostate lemma MoreSourced(new before: NodeDict, new tmp: NodeDict)
      requires nodesCache == old(nodesCache) && startupNodes == old(startupNodes)
      requires OnlyStartupNodesCameUp() && nodesCache.Valid()
      requires Sourced(before) && Extends(before, tmp)
      requires forall n | n in nodesCache.node.Values :: old(n.connected) ==> n.connected
      requires forall a | a in tmp.node && a !in before.node ::
                 if Kept(a) then tmp.node[a] == nodesCache.node[a] else fresh(tmp.node[a])
      ensures Sourced(tmp)
    {
    }

    lemma StartupNode(i: nat)
      requires Valid() && i < |startupNodes.order|
      ensures startupNodes.order[i] in startupNodes.node
      ensures startupNodes.node[startupNodes.order[i]].name == startupNodes.order[i]
    {
    }

    /**
     initialize. Every slot gets the nodes of the first row that covers it; the maps stay as they
     are when the call fails, except that an index error comes too late for that: it happens
     exactly when no row was read although full coverage is not required.
     */
    method Initialize(answers: map<Address, Answer>) returns (r: Result<()>)
      requires Valid()
      modifies this, nodesCache.node.Values, startupNodes.node.Values`connected
      ensures Valid()
      ensures r == InitializeResult(Asked(old(startupNodes.order), answers, []),
                Reachable(old(startupNodes.order), answers), requireFullCoverage)
      ensures r.Err? ==>
                defaultNode == old(defaultNode) && startupNodes == old(startupNodes)
                && movedException == old(movedException)
      ensures r.Err? && r.error != IndexError ==> nodesCache == old(nodesCache) && slotsCache == old(slotsCache)
      ensures r == Err(IndexError) ==> nodesCache == NodeDict([], map[]) && slotsCache == map[]
      ensures r.Ok? ==> Adopted(Asked(old(startupNodes.order), answers, [])) && Serves(old(startupNodes.order), answers)
      ensures r.Ok? ==>
                startupNodes == (if dynamicStartupNodes then nodesCache else old(startupNodes))
                && movedException == None
      ensures r.Ok? ==> oneDictionary == dynamicStartupNodes
      ensures r.Ok? ==> forall a | a in nodesCache.node ::
                if old(Kept(a)) then nodesCache.node[a] == old(nodesCache).node[a]
                else
                  || fresh(nodesCache.node[a])
                  || (a in old(nodesCache).node && nodesCache.node[a] == old(nodesCache).node[a])
      ensures forall n | n in old(nodesCache).node.Values && !old(n.connected) && n !in old(startupNodes).node.Values ::
                !n.connected
      ensures forall o | o in Objects() :: fresh(o) || o in old(Objects())
    {
      hide NodeDict.Valid, Disagreements, FullyCovered, Reachable, Asked, Scanned, Adopted, Serves, Objects;
      ghost var lists, sections;
      var scan, error;
      scan, sections, lists, error := ReadConnected(answers);
      if error.Some? {
        return Err(error.value);
      }
      ScannedNodes(scan, sections, lists);
      ScannedLists(scan, sections, lists);
      r := Adopt(scan, sections, lists);
      if r.Ok? { AdoptedServes(old(startupNodes.order), answers); }
      AdoptedWithin(scan, lists);
    }

    /** The part of initialize that raises before anything is replaced. */
    method ReadConnected(answers: map<Address, Answer>)
      returns (scan: Scan, ghost sections: seq<Section>, ghost lists: seq<SlotList>, error: Option<Error>)
      requires Valid()
      modifies nodesCache.node.Values, startupNodes.node.Values`connected
      ensures Valid() && forall l | l in lists :: fresh(l)
      ensures error.Some? ==>
                && error.value != IndexError
                && InitializeResult(Asked(startupNodes.order, answers, []), Reachable(startupNodes.order, answers),
                                    requireFullCoverage) == Err(error.value)
      ensures error == None ==>
                && Scanned(scan, sections, lists) && sections == Asked(startupNodes.order, answers, [])
                && Reachable(startupNodes.order, answers) && (requireFullCoverage ==> FullyCovered(sections))
                && forall a | a in scan.tmp.node :: scan.tmp.node[a].connected
      ensures Sourced(scan.tmp)
      ensures forall n | n in nodesCache.node.Values && !old(n.connected) && n !in startupNodes.node.Values ::
                !n.connected
    {
      hide NodeDict.Valid, Extends, Disagreements, FullyCovered, Reachable, Asked, Scanned;
      var reached, covered, agreed;
      error := None;
      scan, sections, lists, reached, covered, agreed := ReadAll(answers);
      if !agreed {
        error := Some(Disagreement);
        return;
      }
      ScannedNodes(scan, sections, lists);
      if !reached {
        error := Some(CannotConnect);
        return;
      }
      CreateRedisConnections(scan.tmp);
      if !covered && requireFullCoverage {
        error := Some(NotFullyCovered);
      }
    }

    twostate lemma AdoptedWithin(new scan: Scan, new lists: seq<SlotList>)
      requires nodesCache == scan.tmp && slotsCache == scan.slots
      requires startupNodes == old(startupNodes) || startupNodes == nodesCache
      requires forall a | a in nodesCache.node ::
                 fresh(nodesCache.node[a]) || (a in old(nodesCache).node
                   && nodesCache.node[a] == old(nodesCache).node[a])
      requires forall l | l in lists :: fresh(l)
      requires forall s | s in slotsCache :: slotsCache[s] in lists
      requires forall s, n | s in slotsCache && n in slotsCache[s].nodes ::
                 n.name in nodesCache.node && nodesCache.node[n.name] == n
      ensures forall o | o in Objects() :: fresh(o) || o in old(Objects())
    {
      forall a | a in nodesCache.node ensures fresh(nodesCache.node[a]) || nodesCache.node[a] in old(Objects()) {
        if !fresh(nodesCache.node[a]) { assert old(nodesCache).node[a] in old(nodesCache).node.Values; }
      }
      forall n | n in nodesCache.node.Values ensures fresh(n) || n in old(Objects()) {
        var a :| a in nodesCache.node && nodesCache.node[a] == n;
      }
      forall s | s in slotsCache ensures fresh(slotsCache[s]) {
        assert slotsCache[s] in lists;
      }
      forall s, n | s in slotsCache && n in slotsCache[s].nodes ensures n in nodesCache.node.Values {
        assert nodesCache.node[n.name] == n;
      }
      assert startupNodes == old(startupNodes) ==> forall n | n in startupNodes.node.Values :: n in old(Objects());
    }

    /** The last part of initialize: the new maps take the place of the old ones. */
    method Adopt(scan: Scan, ghost sections: seq<Section>, ghost lists: seq<SlotList>) returns (r: Result<()>)
      requires Valid() && Scanned(scan, sections, lists)
      requires requireFullCoverage ==> FullyCovered(sections)
      requires forall a | a in scan.tmp.node :: scan.tmp.node[a].connected
      modifies this
      ensures Valid() && nodesCache == scan.tmp && slotsCache == scan.slots
      ensures r == if sections == [] then Err(IndexError) else Ok(())
      ensures r.Err? ==>
                defaultNode == old(defaultNode) && startupNodes == old(startupNodes)
                && movedException == old(movedException)
      ensures r.Err? ==> nodesCache == NodeDict([], map[]) && slotsCache == map[]
      ensures r.Ok? ==> Adopted(sections)
      ensures r.Ok? ==>
                startupNodes == (if dynamicStartupNodes then nodesCache else old(startupNodes))
                && movedException == None
      ensures r.Ok? ==> oneDictionary == dynamicStartupNodes
    {
      hide NodeDict.Valid, Disagreements, FullyCovered, Scanned, Adopted;
      ScannedNodes(scan, sections, lists);
      ScannedRows(scan, sections, lists);
      nodesCache := scan.tmp;
      slotsCache := scan.slots;
      oneDictionary := false;
      var primaries := ByRole(nodesCache.order, nodesCache.node, Primary);
      if |primaries| == 0 {
        return Err(IndexError);
      }
      defaultNode := primaries[0];
      if dynamicStartupNodes {
        startupNodes := nodesCache;
        oneDictionary := true;
      }
      movedException := None;
      r := Ok(());
      AdoptedScan(scan, sections, lists);
    }

    /** dict.pop on the startup nodes, which may be the dictionary of all nodes. */
    method PopStartupNode(name: Address)
      requires Valid()
      modifies this`startupNodes, this`nodesCache
      ensures Valid()
      ensures startupNodes.node == old(startupNodes).node - {name}
      ensures startupNodes.order == Dropped(old(startupNodes).order, name)
      ensures nodesCache == if oneDictionary then startupNodes else old(nodesCache)
      ensures forall o | o in Objects() :: o in old(Objects())
    {
      startupNodes := startupNodes.Without(name);
      if oneDictionary {
        nodesCache := startupNodes;
      }
    }

    lemma AdoptedScan(scan: Scan, sections: seq<Section>, lists: seq<SlotList>)
      requires Scanned(scan, sections, lists) && sections != []
      requires requireFullCoverage ==> FullyCovered(sections)
      requires nodesCache == scan.tmp && slotsCache == scan.slots
      requires forall a | a in scan.tmp.node :: scan.tmp.node[a].connected
      requires sections[0].primary in nodesCache.node && defaultNode == nodesCache.node[sections[0].primary]
      ensures Adopted(sections)
    {
      hide Disagreements, FullyCovered, FirstCover, NodesOf, Names, Mentions, NodesRead;
    }

    /** The table is the one that the rows describe. */
    ghost predicate Adopted(sections: seq<Section>)
      reads this, nodesCache.node.Values, slotsCache.Values
    {
      && sections != [] && Disagreements(sections) <= 5
      && (requireFullCoverage ==> FullyCovered(sections))
      && (forall s :: s in slotsCache <==> Covered(sections, s))
      && (forall s | s in slotsCache :: Row(s) == NodesOf(sections[FirstCover(sections, s)]))
      && (forall s, t | s in slotsCache && t in slotsCache ::
            slotsCache[s] == slotsCache[t] <==> FirstCover(sections, s) == FirstCover(sections, t))
      && Listed()
      && NodesRead(nodesCache, Mentions(sections))
      && (forall a | a in nodesCache.node :: nodesCache.node[a].connected)
      && sections[0].primary in nodesCache.node && defaultNode == nodesCache.node[sections[0].primary]
    }

    /**
     The slots of the rows that the first answering startup node sent have the primary of the first such
     row at the head, the replicas behind it; a primary without a host is the node that sent the row.
     And if all startup nodes have a host, so has every primary.
     */
    ghost predicate Serves(order: seq<Address>, answers: map<Address, Answer>)
      reads this`slotsCache, slotsCache.Values
    {
      && (forall k: nat, i: nat, s | FirstToAnswer(order, answers, k)
          && FirstWithSlot(answers[order[k]].sections, i, s) ::
            var sent := answers[order[k]].sections[i];
            && s in slotsCache && Row(s) != [] && Row(s)[1..] == sent.replicas
            && Row(s)[0] == Address(if sent.primary.host == "" then order[k].host else sent.primary.host,
                sent.primary.port))
      && ((forall a | a in order :: a.host != "") ==> forall s | s in slotsCache ::
          Row(s) != [] && Row(s)[0].host != "")
    }

    lemma AdoptedServes(order: seq<Address>, answers: map<Address, Answer>)
      requires Adopted(Asked(order, answers, []))
      ensures Serves(order, answers)
    {
      hide Asked, Adopted;
      forall k: nat, i: nat, s | FirstToAnswer(order, answers, k) && FirstWithSlot(answers[order[k]].sections, i, s)
        ensures var sent := answers[order[k]].sections[i];
                && s in slotsCache && Row(s) != [] && Row(s)[1..] == sent.replicas
                && Row(s)[0] == Address(if sent.primary.host == "" then order[k].host else sent.primary.host,
                                        sent.primary.port)
      {
        RowServed(order, answers, k, i, s);
      }
      forall s | (forall a | a in order :: a.host != "") && s in slotsCache
          ensures Row(s) != [] && Row(s)[0].host != "" {
        PrimariesHaveHosts(order, answers);
        AdoptedRow(Asked(order, answers, []), s);
      }
    }

    lemma AdoptedRow(all: seq<Section>, s: int)
      requires Adopted(all)
      ensures s in slotsCache <==> Covered(all, s)
      ensures s in slotsCache ==>
                && FirstCover(all, s) < |all| && all[FirstCover(all, s)] in all
                && Row(s) == [all[FirstCover(all, s)].primary] + all[FirstCover(all, s)].replicas
    {
      hide FirstCover, Names, Mentions, NodesRead, Disagreements, FullyCovered;
    }

    lemma RowServed(order: seq<Address>, answers: map<Address, Answer>, k: nat, i: nat, s: int)
      requires Adopted(Asked(order, answers, []))
      requires FirstToAnswer(order, answers, k) && FirstWithSlot(answers[order[k]].sections, i, s)
      ensures var sent := answers[order[k]].sections[i];
              && s in slotsCache && Row(s) != [] && Row(s)[1..] == sent.replicas
              && Row(s)[0] == Address(if sent.primary.host == "" then order[k].host else sent.primary.host,
                  sent.primary.port)
    {
      hide Asked, Adopted;
      var all := Asked(order, answers, []);
      FirstRowsRead(order, answers, k);
      FirstCoverIs(all, s, i);
      AdoptedRow(all, s);
    }

    /** Rows that name each of their nodes once give lists without repetition. */
    lemma AdoptedDistinct(sections: seq<Section>)
      requires Adopted(sections) && forall k | 0 <= k < |sections| :: Distinct(NodesOf(sections[k]))
      ensures NoDuplicates()
    {
      hide Distinct, NodesOf, Names, Mentions, NodesRead, Disagreements, FullyCovered;
      assert forall s | s in slotsCache :: 0 <= FirstCover(sections, s) < |sections|;
    }

    /** After a repair no list has a node twice exactly when the target was not the head of a longer list. */
    twostate lemma RepairedDistinct(m: Moved)
      requires old(NoDuplicates()) && slotsCache.Keys == old(slotsCache).Keys && m.slot in slotsCache
      requires forall s | s in slotsCache :: Row(s) == old(PatchedRow(m, s))
      requires old(Row(m.slot)) != []
      ensures NoDuplicates() <==> !(old(Row(m.slot))[0] == m.target && |old(Row(m.slot))| > 1)
    {
      hide Promoted, Distinct, Names;
      ghost var row := old(Row(m.slot));
      assert Distinct(row);
      assert Distinct([m.target]) by { DistinctSingle(m.target); }
      if m.target in row { PromotionPermutes(row, m.target); }
      assert Distinct(Row(m.slot)) <==> !(row[0] == m.target && |row| > 1);
    }
  }

  /** Two MOVED replies for slots of one shard, both naming the promoted replica: the old primary is forgotten. */
  lemma SecondMovedForgetsReplica(primary: Address, replica: Address)
    requires primary != replica
    ensures Promoted([primary, replica], replica) == [replica, primary]
    ensures Promoted(Promoted([primary, replica], replica), replica) == [replica, replica]
  {
    PromotedReplica(primary, [], replica, []);
    assert [primary] + [] + [replica] + [] == [primary, replica];
    PromotedHead(replica, [primary]);
    assert [replica] + [primary] == [replica, primary];
  }

  /**
   The maps are replaced although the call fails exactly when some node answers, no row is read and
   full coverage is not required.
   */
  lemma MapsLostIff(sections: seq<Section>, reached: bool, requireFullCoverage: bool)
    ensures InitializeResult(sections, reached, requireFullCoverage) == Err(IndexError)
            <==> reached && !requireFullCoverage && sections == []
  {
    assert !Covered([], 0);
  }

  /** One node with an empty reply is such a case. */
  lemma EmptyReplyLosesTheMaps(node: Address)
    ensures var answers := map[node := Sections([])];
            InitializeResult(Asked([node], answers, []), Reachable([node], answers), false) == Err(IndexError)
  {
    var answers := map[node := Sections([])];
    assert !Covered([], 0);
    assert AnswerOf(answers, [node][0]).Sections?;
  }

  function InitializeResult(sections: seq<Section>, reached: bool, requireFullCoverage: bool): Result<()> {
    if Disagreements(sections) > 5 then Err(Disagreement)
    else if !reached then Err(CannotConnect)
    else if requireFullCoverage && !FullyCovered(sections) then Err(NotFullyCovered)
    else if sections == [] then Err(IndexError)
    else Ok(())
  }

  /** get_nodes_by_server_type. */
  function ByRole(order: seq<Address>, node: map<Address, ClusterNode>, role: Role): (r: seq<ClusterNode>)
    requires forall a | a in order :: a in node
    reads node.Values
    ensures order != [] && node[order[0]].serverType == role ==> r != [] && r[0] == node[order[0]]
    ensures order == [] ==> r == []
  {
    if order == [] then []
    else
      var rest := ByRole(order[1..], node, role);
      if node[order[0]].serverType == role then [node[order[0]]] + rest else rest
  }

  lemma ScannedNodes(scan: Scan, sections: seq<Section>, lists: seq<SlotList>)
    requires Scanned(scan, sections, lists)
    ensures scan.tmp.Valid() && Disagreements(sections) <= 5
    ensures forall a | a in scan.tmp.order :: a in scan.tmp.node
    ensures sections == [] ==> scan.tmp == NodeDict([], map[]) && scan.slots == map[]
    ensures sections != [] ==>
              scan.tmp.order != [] && scan.tmp.order[0] == sections[0].primary
              && sections[0].primary in scan.tmp.node
              && scan.tmp.node[sections[0].primary].serverType == Primary
  {
    if sections == [] {
      assert scan.tmp.node == map[];
      assert scan.slots == map[] by {
        forall i ensures i !in scan.slots { assert !Covered(sections, i); }
      }
    } else {
      FirstNamed(sections);
    }
  }

  lemma ScannedLists(scan: Scan, sections: seq<Section>, lists: seq<SlotList>)
    requires Scanned(scan, sections, lists)
    ensures forall s | s in scan.slots :: scan.slots[s] in lists
    ensures forall s, n | s in scan.slots && n in scan.slots[s].nodes ::
              n.name in scan.tmp.node && scan.tmp.node[n.name] == n
  {
  }

  lemma ScannedRows(scan: Scan, sections: seq<Section>, lists: seq<SlotList>)
    requires Scanned(scan, sections, lists)
    ensures forall s | s in scan.slots :: scan.slots[s].nodes != []
  {
    forall s | s in scan.slots ensures scan.slots[s].nodes != [] {
      HeadOfList(sections, lists, scan.tmp, FirstCover(sections, s));
    }
  }

  lemma NothingRead(answers: map<Address, Answer>)
    ensures Scanned(Scan(NodeDict([], map[]), map[], 0), [], [])
    ensures !FullyCovered([]) && !Reachable([], answers)
  {
    assert !Covered([], 0);
  }

  lemma SlotsCovered(scan: Scan, sections: seq<Section>, lists: seq<SlotList>)
    requires Scanned(scan, sections, lists)
    ensures (forall i | 0 <= i < Crc.REDIS_CLUSTER_HASH_SLOTS :: i in scan.slots) <==> FullyCovered(sections)
  {
  }

  lemma ExtendsAll(a: NodeDict, b: NodeDict, c: NodeDict)
    ensures Extends(a, a)
    ensures Extends(a, b) && Extends(b, c) ==> Extends(a, c)
    ensures Extends(b, c) ==> forall x | x in b.node :: x in c.node && c.node[x] == b.node[x]
  {
  }

  lemma ResolvedSteps(reply: seq<Section>, host: string, i: nat, sections: seq<Section>)
    requires i <= |reply|
    ensures i == 0 ==> sections + Resolved(reply[..i], host) == sections
    ensures i < |reply| ==>
              sections + Resolved(reply[..i], host) + [ResolvedOne(reply[i], host)]
              == sections + Resolved(reply[..i + 1], host)
  {
  }

  /** What is found out early still holds of the whole reply. */
  lemma ResolvedRest(reply: seq<Section>, host: string, i: nat, sections: seq<Section>)
    requires i <= |reply|
    ensures Disagreements(sections + Resolved(reply[..i], host)) <= Disagreements(sections + Resolved(reply, host))
  {
    hide Disagreements;
    var all := Resolved(reply, host);
    assert sections + all == sections + Resolved(reply[..i], host) + all[i..];
    DisagreementsGrow(sections + Resolved(reply[..i], host), all[i..]);
  }

  lemma SectionSnoc(sections: seq<Section>, section: Section)
    ensures Mentions(sections + [section]) == Mentions(sections) + MentionsIn(section)
    ensures Disagreements(sections + [section]) == Disagreements(sections) + Against(sections, section, section.to + 1)
  {
    assert (sections + [section])[..|sections|] == sections;
  }

  lemma NewList(scan: Scan, sections: seq<Section>, lists: seq<SlotList>, section: Section, list: SlotList,
      tmp: NodeDict)
    requires RowsRead(scan.slots, sections, lists, scan.tmp) && Extends(scan.tmp, tmp)
    requires list !in lists && Names(list.nodes) == NodesOf(section)
    requires forall n | n in list.nodes :: n.name in tmp.node && tmp.node[n.name] == n
    ensures RowsRead(scan.slots, sections, lists, tmp)
    ensures ListsRead(sections + [section], lists + [list], tmp)
  {
    hide Names, NodesOf, FirstCover;
  }

  lemma RowsAre(slots: map<int, SlotList>, sections: seq<Section>, lists: seq<SlotList>, tmp: NodeDict)
    requires RowsRead(slots, sections, lists, tmp)
    ensures |lists| == |sections| && ListsRead(sections, lists, tmp)
    ensures forall i :: i in slots <==> Covered(sections, i)
    ensures forall i :: Covered(sections, i) <==> FirstCover(sections, i) < |sections|
    ensures forall i | i in slots :: slots[i] == lists[FirstCover(sections, i)]
  {
  }

  lemma RowsExtended(section: Section, list: SlotList, slots: map<int, SlotList>, sections: seq<Section>,
      lists: seq<SlotList>, tmp: NodeDict)
    requires |lists| == |sections| && ListsRead(sections + [section], lists + [list], tmp)
    requires forall j :: j in slots <==> Covered(sections, j) || Covers(section, j)
    requires forall j | j in slots :: slots[j] == if Covered(sections, j) then lists[FirstCover(sections, j)] else list
    ensures RowsRead(slots, sections + [section], lists + [list], tmp)
  {
    hide ListsRead, FirstCover, Covers;
    var more, moreLists := sections + [section], lists + [list];
    forall j ensures j in slots <==> Covered(more, j) { CoveredSnoc(sections, section, j); }
    forall j | j in slots ensures slots[j] == moreLists[FirstCover(more, j)] {
      ListOfSlot(sections, section, lists, list, j);
    }
  }

  lemma CoveredSnoc(sections: seq<Section>, section: Section, j: int)
    ensures Covered(sections + [section], j) <==> Covered(sections, j) || Covers(section, j)
  {
    FirstCoverSnoc(sections, section, j);
  }

  lemma ListOfSlot(sections: seq<Section>, section: Section, lists: seq<SlotList>, list: SlotList, j: int)
    requires |lists| == |sections| && (Covered(sections, j) || Covers(section, j))
    ensures FirstCover(sections + [section], j) < |lists + [list]|
    ensures (lists + [list])[FirstCover(sections + [section], j)]
            == if Covered(sections, j) then lists[FirstCover(sections, j)] else list
  {
    hide FirstCover, Covers;
    FirstCoverSnoc(sections, section, j);
  }

  /** The later dictionary has the nodes of the earlier one. */
  predicate Extends(earlier: NodeDict, later: NodeDict) {
    forall a | a in earlier.node :: a in later.node && later.node[a] == earlier.node[a]
  }

  lemma ExtendsMore(a: NodeDict, b: NodeDict, c: NodeDict, nodes: seq<ClusterNode>)
    requires Extends(a, b) && Extends(b, c)
    requires forall n | n in nodes :: n.name in b.node && b.node[n.name] == n
    ensures Extends(a, c)
    ensures forall n | n in nodes :: n.name in c.node && c.node[n.name] == n
    ensures forall x | x in b.node :: x in c.node && c.node[x] == b.node[x]
  {
  }

  lemma NextName(section: Section, i: nat, nodes: seq<ClusterNode>, node: ClusterNode)
    requires i < |section.replicas| && node.name == section.replicas[i]
    requires Names(nodes) == [section.primary] + section.replicas[..i]
    ensures Names(nodes + [node]) == [section.primary] + section.replicas[..i + 1]
  {
    NamesSnoc(nodes, node);
    hide Names;
    assert section.replicas[..i + 1] == section.replicas[..i] + [section.replicas[i]];
    assert [section.primary] + (section.replicas[..i] + [section.replicas[i]])
           == ([section.primary] + section.replicas[..i]) + [section.replicas[i]];
  }

  lemma WholeSection(section: Section, mentions: seq<Mention>)
    ensures var all := section.replicas[..|section.replicas|];
            && mentions + [Mention(section.primary, Primary)] + ReplicaMentions(all) == mentions + MentionsIn(section)
            && [section.primary] + all == NodesOf(section)
  {
    hide ReplicaMentions;
    assert section.replicas[..|section.replicas|] == section.replicas;
    assert mentions + [Mention(section.primary, Primary)] + ReplicaMentions(section.replicas)
        == mentions + ([Mention(section.primary, Primary)] + ReplicaMentions(section.replicas));
  }

  lemma NamesSnoc(nodes: seq<ClusterNode>, last: ClusterNode)
    ensures Names(nodes + [last]) == Names(nodes) + [last.name] && Names([]) == []
  {
    assert (nodes + [last])[..|nodes|] == nodes;
  }

  lemma HeadOfList(sections: seq<Section>, lists: seq<SlotList>, tmp: NodeDict, k: nat)
    requires ListsRead(sections, lists, tmp) && k < |sections|
    ensures |lists| == |sections| && lists[k].nodes != [] && lists[k].nodes[0].name == sections[k].primary
  {
    assert Names(lists[k].nodes)[0] == sections[k].primary;
  }

  lemma DistinctSingle(name: Address)
    ensures Distinct([name])
  {
  }

  /** The three edits of the list object. */
  method PromoteIn(list: SlotList, redirected: ClusterNode)
    requires redirected.name in Names(list.nodes)
    modifies list
    ensures Names(list.nodes) == Promoted(Names(old(list.nodes)), redirected.name)
    ensures list.nodes != [] && list.nodes[0] == redirected
    ensures forall n | n in list.nodes :: n == redirected || n in old(list.nodes)
  {
    hide First, Names, Removed;
    ghost var names := Names(list.nodes);
    NamesSnoc(list.nodes, list.nodes[0]);
    list.nodes := list.nodes + [list.nodes[0]];
    assert Names(list.nodes) == names + [names[0]];
    StaysLong(names + [names[0]], redirected.name);
    list.nodes := RemovedNode(list.nodes, redirected.name);
    NamesWithHead(list.nodes, redirected);
    list.nodes := list.nodes[0 := redirected];
  }

  lemma StaysLong(names: seq<Address>, name: Address)
    requires name in names
    ensures |Removed(names, name)| == |names| - 1
  {
  }

  lemma NamesWithHead(nodes: seq<ClusterNode>, head: ClusterNode)
    requires nodes != []
    ensures Names(nodes[0 := head]) == Names(nodes)[0 := head.name]
  {
    hide Names;
  }

  /** list.remove on nodes, which are equal when their names are. */
  function RemovedNode(nodes: seq<ClusterNode>, name: Address): (r: seq<ClusterNode>)
    requires name in Names(nodes)
    ensures Names(r) == Removed(Names(nodes), name)
    ensures forall n | n in r :: n in nodes
  {
    hide First;
    var i := First(Names(nodes), name);
    NamesWithout(nodes, i);
    nodes[..i] + nodes[i + 1..]
  }

  lemma NamesWithout(nodes: seq<ClusterNode>, i: nat)
    requires i < |nodes|
    ensures Names(nodes[..i] + nodes[i + 1..]) == Names(nodes)[..i] + Names(nodes)[i + 1..]
    ensures forall n | n in nodes[..i] + nodes[i + 1..] :: n in nodes
  {
    hide Names;
    var rest := nodes[..i] + nodes[i + 1..];
    var names := Names(nodes);
    var left := names[..i] + names[i + 1..];
    forall k | 0 <= k < |rest| ensures Names(rest)[k] == left[k] {
      assert rest[k] == nodes[if k < i then k else k + 1];
    }
  }
}
