/** The walk that counts drawing nodes and collapses chains of single children. */
module PerfTree {
  import opened NodeIds

  // --- data ---------------------------------------------------------------------------------

  /** `content`: the node has render content; `draws`: it has drawing commands of its own; `full`:
      its full list of children, sorted, disappearing ones included; `leaving`: the disappearing ones. */
  datatype Node = Node(id: NodeId, content: bool, draws: bool, full: Nodes, leaving: Nodes)

  /** A list with null entries. */
  datatype Nodes = End | More(node: Node, rest: Nodes) | Null(rest: Nodes)

  datatype Found = Found(nodeSet: set<NodeId>, counts: map<NodeId, nat>)

  function Length(l: Nodes): nat {
    match l
    case End => 0
    case More(_, rest) => 1 + Length(rest)
    case Null(rest) => Length(rest)
  }

  /** Children as the walk counts them: disappearing ones are met in both lists. */
  function Children(n: Node): nat {
    Length(n.full) + Length(n.leaving)
  }

  predicate Splits(n: Node) {
    Children(n) != 1 || n.draws
  }

  /** The entries of a list that are not null. */
  function Entries(l: Nodes): seq<Node> {
    match l
    case End => []
    case More(node, rest) => [node] + Entries(rest)
    case Null(rest) => Entries(rest)
  }

  /** A node is set apart when it draws, or when full list and disappearing children together hold
      other than one entry. */
  lemma SplitsIs(n: Node)
    ensures Splits(n) <==> n.draws || |Entries(n.full) + Entries(n.leaving)| != 1
  {
    LengthCounts(n.full);
    LengthCounts(n.leaving);
  }

  lemma {:induction false} LengthCounts(l: Nodes)
    ensures Length(l) == |Entries(l)|
  {
    match l
    case End =>
    case More(_, rest) => LengthCounts(rest);
    case Null(rest) => LengthCounts(rest);
  }

  // --- the walk ---------------------------------------------------------------------------------

  function Own(n: Node): nat {
    if n.draws then 1 else 0
  }

  /** `PerfTreeFlatten`. */
  function Flatten(n: Node, found: Found): (nat, Found)
    decreases n
  {
    if !n.content then (0, found)
    else
      var (a, found1) := FlattenAll(n.full, found);
      var (b, found2) := FlattenAll(n.leaving, found1);
      (Own(n) + a + b, Record(n, Own(n) + a + b, found2))
  }

  function FlattenAll(l: Nodes, found: Found): (nat, Found)
    decreases l
  {
    match l
    case End => (0, found)
    case More(node, rest) =>
      var (a, found1) := Flatten(node, found);
      var (b, found2) := FlattenAll(rest, found1);
      (a + b, found2)
    case Null(rest) => FlattenAll(rest, found)
  }

  function Record(n: Node, count: nat, found: Found): Found {
    if count == 0 then found
    else Found(if Splits(n) then found.nodeSet + {n.id} else found.nodeSet, found.counts[n.id := count])
  }

  // --- what is counted ----------------------------------------------------------------------------

  /** Drawing nodes below, as often as the walk meets them. */
  function Weight(n: Node): nat
    decreases n
  {
    if !n.content then 0 else Own(n) + WeightAll(n.full) + WeightAll(n.leaving)
  }

  function WeightAll(l: Nodes): nat
    decreases l
  {
    match l
    case End => 0
    case More(node, rest) => Weight(node) + WeightAll(rest)
    case Null(rest) => WeightAll(rest)
  }

  /** The drawing nodes that can be reached through nodes with content. */
  ghost function Drawing(n: Node): set<NodeId>
    decreases n
  {
    if !n.content then {} else (if n.draws then {n.id} else {}) + DrawingAll(n.full) + DrawingAll(n.leaving)
  }

  ghost function DrawingAll(l: Nodes): set<NodeId>
    decreases l
  {
    match l
    case End => {}
    case More(node, rest) => Drawing(node) + DrawingAll(rest)
    case Null(rest) => DrawingAll(rest)
  }

  lemma {:induction false} FlattenCounts(n: Node, found: Found)
    ensures Flatten(n, found).0 == Weight(n)
    decreases n
  {
    if n.content {
      FlattenAllCounts(n.full, found);
      FlattenAllCounts(n.leaving, FlattenAll(n.full, found).1);
    }
  }

  lemma {:induction false} FlattenAllCounts(l: Nodes, found: Found)
    ensures FlattenAll(l, found).0 == WeightAll(l)
    decreases l
  {
    match l
    case End =>
    case More(node, rest) =>
      FlattenCounts(node, found);
      FlattenAllCounts(rest, Flatten(node, found).1);
    case Null(rest) => FlattenAllCounts(rest, found);
  }

  // --- each drawing node once -------------------------------------------------------------------------

  ghost function Ids(n: Node): set<NodeId>
    decreases n
  {
    {n.id} + IdsAll(n.full)
  }

  ghost function IdsAll(l: Nodes): set<NodeId>
    decreases l
  {
    match l
    case End => {}
    case More(node, rest) => Ids(node) + IdsAll(rest)
    case Null(rest) => IdsAll(rest)
  }

  predicate Has(l: Nodes, n: Node) {
    match l
    case End => false
    case More(node, rest) => node == n || Has(rest, n)
    case Null(rest) => Has(rest, n)
  }

  predicate Within(l: Nodes, k: Nodes) {
    match l
    case End => true
    case More(node, rest) => Has(k, node) && Within(rest, k)
    case Null(rest) => Within(rest, k)
  }

  /** A tree whose full lists are up to date: no node is met twice in full lists, and every
      disappearing child is in its parent's full list. */
  ghost predicate Proper(n: Node)
    decreases n
  {
    n.id !in IdsAll(n.full) && ProperAll(n.full) && Within(n.leaving, n.full)
  }

  ghost predicate ProperAll(l: Nodes)
    decreases l
  {
    match l
    case End => true
    case More(node, rest) => Proper(node) && ProperAll(rest) && Ids(node) !! IdsAll(rest)
    case Null(rest) => ProperAll(rest)
  }

  /** Nothing that is disappearing has anything to draw. */
  ghost predicate Settled(n: Node)
    decreases n
  {
    !n.content || (DrawingAll(n.leaving) == {} && SettledAll(n.full))
  }

  ghost predicate SettledAll(l: Nodes)
    decreases l
  {
    match l
    case End => true
    case More(node, rest) => Settled(node) && SettledAll(rest)
    case Null(rest) => SettledAll(rest)
  }

  /** The walk counts nothing exactly where nothing draws. */
  lemma {:induction false} WeightNone(n: Node)
    ensures Weight(n) == 0 <==> Drawing(n) == {}
    decreases n
  {
    if n.content {
      WeightAllNone(n.full);
      WeightAllNone(n.leaving);
      if n.draws {
        assert n.id in Drawing(n);
      }
    }
  }

  lemma {:induction false} WeightAllNone(l: Nodes)
    ensures WeightAll(l) == 0 <==> DrawingAll(l) == {}
    decreases l
  {
    match l
    case End =>
    case More(node, rest) =>
      WeightNone(node);
      WeightAllNone(rest);
    case Null(rest) => WeightAllNone(rest);
  }

  lemma {:induction false} DrawingHas(l: Nodes, n: Node)
    requires Has(l, n)
    ensures Drawing(n) <= DrawingAll(l)
  {
    match l
    case End =>
    case More(node, rest) =>
      if node != n {
        DrawingHas(rest, n);
      }
    case Null(rest) => DrawingHas(rest, n);
  }

  lemma {:induction false} DrawingWithin(l: Nodes, k: Nodes)
    requires Within(l, k)
    ensures DrawingAll(l) <= DrawingAll(k)
  {
    match l
    case End =>
    case More(node, rest) =>
      DrawingHas(k, node);
      DrawingWithin(rest, k);
    case Null(rest) => DrawingWithin(rest, k);
  }

  lemma {:induction false} DrawingIds(n: Node)
    requires Proper(n)
    ensures Drawing(n) <= Ids(n)
    decreases n
  {
    if n.content {
      DrawingAllIds(n.full);
      DrawingWithin(n.leaving, n.full);
    }
  }

  lemma {:induction false} DrawingAllIds(l: Nodes)
    requires ProperAll(l)
    ensures DrawingAll(l) <= IdsAll(l)
    decreases l
  {
    match l
    case End =>
    case More(node, rest) =>
      DrawingIds(node);
      DrawingAllIds(rest);
    case Null(rest) => DrawingAllIds(rest);
  }

  lemma Cardinality(a: set<NodeId>, b: set<NodeId>)
    requires a !! b
    ensures |a + b| == |a| + |b|
  {
  }

  /** The result is the number of drawing nodes exactly when no disappearing child draws anything;
      otherwise it is larger, for such children are counted in both lists. */
  lemma {:induction false} CountsOnceIff(n: Node)
    requires Proper(n)
    ensures Weight(n) >= |Drawing(n)|
    ensures Weight(n) == |Drawing(n)| <==> Settled(n)
    decreases n
  {
    hide Ids;
    if n.content {
      AllCountOnceIff(n.full);
      WeightAllNone(n.leaving);
      DrawingWithin(n.leaving, n.full);
      DrawingAllIds(n.full);
      var own := if n.draws then {n.id} else {};
      assert Drawing(n) == own + DrawingAll(n.full);
      Cardinality(own, DrawingAll(n.full));
    }
  }

  lemma {:induction false} AllCountOnceIff(l: Nodes)
    requires ProperAll(l)
    ensures WeightAll(l) >= |DrawingAll(l)|
    ensures WeightAll(l) == |DrawingAll(l)| <==> SettledAll(l)
    decreases l
  {
    hide Ids, Proper;
    match l
    case End =>
    case More(node, rest) =>
      CountsOnceIff(node);
      AllCountOnceIff(rest);
      DrawingIds(node);
      DrawingAllIds(rest);
      Cardinality(Drawing(node), DrawingAll(rest));
    case Null(rest) => AllCountOnceIff(rest);
  }

  /** One drawing child that is disappearing is counted twice. */
  lemma LeavingCountedTwice()
    ensures var leaf := Node(2, true, true, End, End);
      var n := Node(1, true, false, More(leaf, End), More(leaf, End));
      && Proper(n) && !Settled(n) && Drawing(n) == {2} && Weight(n) == 2
      && Flatten(n, Found({}, map[])).0 == 2
  {
    hide Flatten;
    var leaf := Node(2, true, true, End, End);
    var n := Node(1, true, false, More(leaf, End), More(leaf, End));
    assert Weight(leaf) == 1 && Drawing(leaf) == {2} && Ids(leaf) == {2};
    assert WeightAll(More(leaf, End)) == 1 && DrawingAll(More(leaf, End)) == {2} && IdsAll(More(leaf, End)) == {2};
    assert Proper(leaf) && ProperAll(More(leaf, End));
    assert Has(More(leaf, End), leaf) && Within(More(leaf, End), More(leaf, End));
    FlattenCounts(n, Found({}, map[]));
  }

  // --- what is found ------------------------------------------------------------------------------------

  /** The nodes with content that the walk visits. */
  ghost function Visited(n: Node): set<Node>
    decreases n
  {
    if !n.content then {} else {n} + VisitedAll(n.full) + VisitedAll(n.leaving)
  }

  ghost function VisitedAll(l: Nodes): set<Node>
    decreases l
  {
    match l
    case End => {}
    case More(node, rest) => Visited(node) + VisitedAll(rest)
    case Null(rest) => VisitedAll(rest)
  }

  /** An id names one node, however often that node is listed. */
  ghost predicate Named(nodes: set<Node>) {
    forall a, b :: a in nodes && b in nodes && a.id == b.id ==> a == b
  }

  /** What is found about a node: its count, if it has any, and whether it splits. */
  ghost predicate Tells(found: Found, a: Node) {
    && (a.id in found.counts <==> Weight(a) > 0)
    && (a.id in found.counts ==> found.counts[a.id] == Weight(a))
    && (a.id in found.nodeSet <==> Weight(a) > 0 && Splits(a))
  }

  /** This is found about every node of a set, and nothing about others. */
  ghost predicate Describes(found: Found, nodes: set<Node>) {
    && (forall a :: a in nodes ==> Tells(found, a))
    && (forall x :: x in found.counts || x in found.nodeSet ==> IdIn(x, nodes))
  }

  ghost predicate IdIn(x: NodeId, nodes: set<Node>) {
    exists a :: a in nodes && a.id == x
  }

  lemma RecordTells(n: Node, found: Found, nodes: set<Node>)
    requires Describes(found, nodes) && Named(nodes + {n})
    ensures Tells(Record(n, Weight(n), found), n)
  {
    hide Weight, Splits, Named;
    if n !in nodes {
      if IdIn(n.id, nodes) {
        var a :| a in nodes && a.id == n.id;
        SameName(nodes + {n}, a, n);
      }
    } else {
      assert Tells(found, n);
    }
  }

  lemma SameName(nodes: set<Node>, a: Node, b: Node)
    requires Named(nodes) && a in nodes && b in nodes && a.id == b.id
    ensures a == b
  {
  }

  lemma RecordDescribes(n: Node, found: Found, nodes: set<Node>)
    requires Describes(found, nodes) && Named(nodes + {n})
    ensures Describes(Record(n, Weight(n), found), nodes + {n})
  {
    hide Weight, Splits, Named;
    var after := Record(n, Weight(n), found);
    var all := nodes + {n};
    RecordTells(n, found, nodes);
    forall a | a in all
      ensures Tells(after, a)
    {
      if a.id == n.id {
        SameName(all, a, n);
      } else {
        assert Tells(found, a);
      }
    }
    forall x | x in after.counts || x in after.nodeSet
      ensures IdIn(x, all)
    {
      if x == n.id {
        assert n in all;
      } else {
        var a :| a in nodes && a.id == x;
        assert a in all;
      }
    }
  }

  lemma NamedPart(all: set<Node>, part: set<Node>)
    requires Named(all) && part <= all
    ensures Named(part)
  {
  }

  lemma {:induction false} FlattenDescribes(n: Node, found: Found, nodes: set<Node>)
    requires Describes(found, nodes) && Named(nodes + Visited(n))
    ensures Describes(Flatten(n, found).1, nodes + Visited(n))
    decreases n
  {
    hide Describes, Named, Weight, Record;
    if n.content {
      var a, b := VisitedAll(n.full), VisitedAll(n.leaving);
      NamedPart(nodes + Visited(n), nodes + a);
      FlattenAllDescribes(n.full, found, nodes);
      NamedPart(nodes + Visited(n), nodes + a + b);
      FlattenAllDescribes(n.leaving, FlattenAll(n.full, found).1, nodes + a);
      FlattenCounts(n, found);
      assert nodes + a + b + {n} == nodes + Visited(n);
      RecordDescribes(n, FlattenAll(n.leaving, FlattenAll(n.full, found).1).1, nodes + a + b);
    } else {
      assert nodes + Visited(n) == nodes;
    }
  }

  lemma {:induction false} FlattenAllDescribes(l: Nodes, found: Found, nodes: set<Node>)
    requires Describes(found, nodes) && Named(nodes + VisitedAll(l))
    ensures Describes(FlattenAll(l, found).1, nodes + VisitedAll(l))
    decreases l
  {
    hide Describes, Named, Flatten, Visited;
    match l
    case End => assert nodes + VisitedAll(l) == nodes;
    case More(node, rest) =>
      NamedPart(nodes + VisitedAll(l), nodes + Visited(node));
      FlattenDescribes(node, found, nodes);
      assert nodes + Visited(node) + VisitedAll(rest) == nodes + VisitedAll(l);
      FlattenAllDescribes(rest, Flatten(node, found).1, nodes + Visited(node));
    case Null(rest) => FlattenAllDescribes(rest, found, nodes);
  }

  /** A walk from nothing finds the counts of the visited nodes and the ones that split. */
  lemma WalkDescribes(n: Node)
    requires Named(Visited(n))
    ensures Describes(Flatten(n, Found({}, map[])).1, Visited(n))
  {
    hide Named, Weight, Visited;
    assert {} + Visited(n) == Visited(n);
    FlattenDescribes(n, Found({}, map[]), {});
  }

  // --- chains of single children -----------------------------------------------------------------------------

  function First(l: Nodes): Node
    requires Length(l) > 0
  {
    match l
    case More(node, _) => node
    case Null(rest) => First(rest)
  }

  function OnlyChild(n: Node): Node
    requires Children(n) == 1
  {
    if Length(n.full) == 1 then First(n.full) else First(n.leaving)
  }

  lemma {:induction false} FirstSmaller(l: Nodes)
    requires Length(l) > 0
    ensures First(l) < l
    ensures Length(l) == 1 ==> WeightAll(l) == Weight(First(l)) && VisitedAll(l) == Visited(First(l))
  {
    match l
    case More(node, rest) =>
      if Length(l) == 1 {
        EmptyList(rest);
      }
    case Null(rest) => FirstSmaller(rest);
  }

  lemma {:induction false} EmptyList(l: Nodes)
    requires Length(l) == 0
    ensures WeightAll(l) == 0 && VisitedAll(l) == {}
  {
    match l
    case End =>
    case Null(rest) => EmptyList(rest);
  }

  lemma OnlyChildCarries(n: Node)
    requires n.content && Children(n) == 1
    ensures OnlyChild(n) < n && Visited(OnlyChild(n)) <= Visited(n)
    ensures !n.draws ==> Weight(OnlyChild(n)) == Weight(n)
  {
    if Length(n.full) == 1 {
      FirstSmaller(n.full);
      EmptyList(n.leaving);
    } else {
      FirstSmaller(n.leaving);
      EmptyList(n.full);
    }
  }

  /** Following only children from a node that has a count leads down to a node in the set with the
      same count, so that the set is enough to know every count. */
  lemma {:induction false} ChainLeadsToSet(n: Node, found: Found, nodes: set<Node>) returns (end: Node)
    requires n.content && Weight(n) > 0 && Visited(n) <= nodes && Describes(found, nodes)
    ensures OnChain(n, end)
    ensures end.id in found.nodeSet && end.id in found.counts
    ensures n.id in found.counts && found.counts[end.id] == found.counts[n.id] == Weight(n)
    decreases n
  {
    hide Visited;
    SelfVisited(n);
    assert Tells(found, n);
    if Splits(n) {
      end := n;
    } else {
      OnlyChildCarries(n);
      end := ChainLeadsToSet(OnlyChild(n), found, nodes);
    }
  }

  lemma SelfVisited(n: Node)
    requires n.content
    ensures n in Visited(n)
  {
  }

  /** `end` is reached from `n` through only children of nodes that draw nothing themselves. */
  ghost predicate OnChain(n: Node, end: Node)
    decreases n
  {
    n == end || (!Splits(n) && OnlyChild(n) < n && OnChain(OnlyChild(n), end))
  }

  // --- the walk in place ---------------------------------------------------------------------------------------

  class Walk {
    var nodeSet: set<NodeId>
    var mapNode2Count: map<NodeId, nat>

    function View(): Found
      reads this
    {
      Found(nodeSet, mapNode2Count)
    }

    constructor ()
      ensures View() == Found({}, map[])
    {
      nodeSet, mapNode2Count := {}, map[];
    }

    method PerfTreeFlatten(n: Node) returns (drawCmdListCount: nat)
      modifies this
      ensures (drawCmdListCount, View()) == Flatten(n, old(View()))
      decreases n, 1
    {
      if !n.content {
        return 0;
      }
      var nodeCmdListCount := if n.draws then 1 else 0;
      drawCmdListCount := nodeCmdListCount;
      var valuableChildrenCount := 0;
      var count, children := FlattenChildren(n.full);
      drawCmdListCount, valuableChildrenCount := drawCmdListCount + count, valuableChildrenCount + children;
      count, children := FlattenChildren(n.leaving);
      drawCmdListCount, valuableChildrenCount := drawCmdListCount + count, valuableChildrenCount + children;
      if drawCmdListCount > 0 {
        mapNode2Count := mapNode2Count[n.id := drawCmdListCount];
        if valuableChildrenCount != 1 || nodeCmdListCount != 0 {
          nodeSet := nodeSet + {n.id};
        }
      }
    }

    method FlattenChildren(l: Nodes) returns (count: nat, children: nat)
      modifies this
      ensures (count, View()) == FlattenAll(l, old(View())) && children == Length(l)
      decreases l, 0
    {
      hide Flatten;
      count, children := 0, 0;
      var k := l;
      while !k.End?
        invariant k == l || k < l
        invariant children + Length(k) == Length(l)
        invariant FlattenAll(l, old(View())) == (count + FlattenAll(k, View()).0, FlattenAll(k, View()).1)
        decreases k
      {
        if k.More? {
          var c := PerfTreeFlatten(k.node);
          count, children := count + c, children + 1;
        }
        k := k.rest;
      }
    }
  }
}
