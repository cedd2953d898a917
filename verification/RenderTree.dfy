/** The registered render nodes with their links, and the calls that move and remove nodes. A node
    that comes under an on-tree parent, or leaves one, passes that on to its own children. */
module RenderTree {
  import opened NodeIds
  import opened NodeRecord

  // --- data ---------------------------------------------------------------------------------

  /** Registered nodes, their lists of children and their parents. */
  datatype Context = Context(nodes: map<NodeId, Node>, children: map<NodeId, seq<NodeId>>, parent: map<NodeId, NodeId>) {
    function Kids(p: NodeId): seq<NodeId> {
      if p in children then children[p] else []
    }
  }

  const INVALID_NODEID: NodeId := 0

  const APP_WINDOW: int := 1
  const LEASH_WINDOW: int := 4

  // --- being on the tree ------------------------------------------------------------------------

  /** What a node makes of the instance root and first-level node that are passed to it: displays,
      main and leash windows are roots of their own; leash windows are first-level nodes, and so
      are application windows unless a parent surface has one. */
  function Inherit(ctx: Context, x: NodeId, root: NodeId, level: NodeId): (NodeId, NodeId)
    requires x in ctx.nodes
  {
    var n := ctx.nodes[x];
    if n.nodeType == DISPLAY_NODE then (x, level)
    else if n.nodeType != SURFACE_NODE then (root, level)
    else (if n.surface.surfaceType <= LEASH_WINDOW then x else root, FirstLevel(ctx, x, level))
  }

  function FirstLevel(ctx: Context, x: NodeId, level: NodeId): NodeId
    requires x in ctx.nodes
  {
    var kind := ctx.nodes[x].surface.surfaceType;
    if kind == LEASH_WINDOW then x
    else if kind != APP_WINDOW then level
    else if x in ctx.parent && ctx.parent[x] in ctx.nodes && ctx.nodes[ctx.parent[x]].nodeType == SURFACE_NODE
            && ctx.nodes[ctx.parent[x]].firstLevel != INVALID_NODEID
    then ctx.nodes[ctx.parent[x]].firstLevel
    else x
  }

  ghost function Unlike(nodes: map<NodeId, Node>, flag: bool): set<NodeId> {
    set x | x in nodes && nodes[x].onTree != flag
  }

  function Mark(ctx: Context, x: NodeId, flag: bool, root: NodeId, level: NodeId): (r: Context)
    requires x in ctx.nodes
    ensures r.nodes.Keys == ctx.nodes.Keys && r.children == ctx.children && r.parent == ctx.parent
    ensures ctx.nodes[x].onTree != flag ==> Unlike(r.nodes, flag) < Unlike(ctx.nodes, flag)
  {
    var r := ctx.(nodes := ctx.nodes[x := ctx.nodes[x].(onTree := flag, instanceRoot := root, firstLevel := level)]);
    assert ctx.nodes[x].onTree != flag ==> x in Unlike(ctx.nodes, flag) && x !in Unlike(r.nodes, flag);
    r
  }

  /** `SetIsOnTheTree`: nothing for a node that is so already, nor for what is below it. */
  function SetTree(ctx: Context, x: NodeId, flag: bool, root: NodeId, level: NodeId): (r: Context)
    ensures r.children == ctx.children && r.parent == ctx.parent && r.nodes.Keys == ctx.nodes.Keys
    ensures Unlike(r.nodes, flag) <= Unlike(ctx.nodes, flag)
    decreases Unlike(ctx.nodes, flag), 0
  {
    if x !in ctx.nodes || ctx.nodes[x].onTree == flag then ctx
    else
      var (r, l) := Inherit(ctx, x, root, level);
      var marked := Mark(ctx, x, flag, r, l);
      SetTrees(marked, marked.Kids(x), flag, r, l)
  }

  function SetTrees(ctx: Context, ids: seq<NodeId>, flag: bool, root: NodeId, level: NodeId): (r: Context)
    ensures r.children == ctx.children && r.parent == ctx.parent && r.nodes.Keys == ctx.nodes.Keys
    ensures Unlike(r.nodes, flag) <= Unlike(ctx.nodes, flag)
    decreases Unlike(ctx.nodes, flag), 1 + |ids|
  {
    if ids == [] then ctx else SetTrees(SetTree(ctx, ids[0], flag, root, level), ids[1..], flag, root, level)
  }

  /** The same nodes, but for the flag and the two ids that go with it. */
  ghost predicate Flagged(nodes: map<NodeId, Node>, nodes': map<NodeId, Node>) {
    && nodes'.Keys == nodes.Keys
    && forall x :: x in nodes ==>
         nodes'[x] == nodes[x].(onTree := nodes'[x].onTree, instanceRoot := nodes'[x].instanceRoot,
                                firstLevel := nodes'[x].firstLevel)
  }

  /** Only nodes that were unlike are changed, and they become like the flag. */
  ghost predicate Turned(nodes: map<NodeId, Node>, nodes': map<NodeId, Node>, flag: bool) {
    && Flagged(nodes, nodes')
    && forall x :: x in nodes ==> nodes'[x] == nodes[x] || (nodes[x].onTree != flag && nodes'[x].onTree == flag)
  }

  lemma TurnedTwice(a: map<NodeId, Node>, b: map<NodeId, Node>, c: map<NodeId, Node>, flag: bool)
    requires Turned(a, b, flag) && Turned(b, c, flag)
    ensures Turned(a, c, flag)
  {
  }

  lemma {:induction false} SetTreeTurns(ctx: Context, x: NodeId, flag: bool, root: NodeId, level: NodeId)
    ensures Turned(ctx.nodes, SetTree(ctx, x, flag, root, level).nodes, flag)
    ensures x in ctx.nodes ==> SetTree(ctx, x, flag, root, level).nodes[x].onTree == flag
    decreases Unlike(ctx.nodes, flag), 0
  {
    hide Inherit, SetTrees, Turned, Mark;
    if x in ctx.nodes && ctx.nodes[x].onTree != flag {
      var (r, l) := Inherit(ctx, x, root, level);
      var marked := Mark(ctx, x, flag, r, l);
      MarkTurns(ctx, x, flag, r, l);
      SetTreesTurn(marked, marked.Kids(x), flag, r, l);
      TurnedTwice(ctx.nodes, marked.nodes, SetTrees(marked, marked.Kids(x), flag, r, l).nodes, flag);
      TurnedStays(marked.nodes, SetTrees(marked, marked.Kids(x), flag, r, l).nodes, flag, x);
    } else {
      NothingTurned(ctx.nodes, flag);
    }
  }

  lemma MarkTurns(ctx: Context, x: NodeId, flag: bool, root: NodeId, level: NodeId)
    requires x in ctx.nodes && ctx.nodes[x].onTree != flag
    ensures Turned(ctx.nodes, Mark(ctx, x, flag, root, level).nodes, flag)
    ensures Mark(ctx, x, flag, root, level).nodes[x].onTree == flag
  {
  }

  lemma TurnedStays(nodes: map<NodeId, Node>, nodes': map<NodeId, Node>, flag: bool, x: NodeId)
    requires Turned(nodes, nodes', flag) && x in nodes && nodes[x].onTree == flag
    ensures x in nodes' && nodes'[x] == nodes[x]
  {
  }

  lemma {:induction false} SetTreesTurn(ctx: Context, ids: seq<NodeId>, flag: bool, root: NodeId, level: NodeId)
    ensures Turned(ctx.nodes, SetTrees(ctx, ids, flag, root, level).nodes, flag)
    decreases Unlike(ctx.nodes, flag), 1 + |ids|
  {
    hide SetTree, Turned;
    if ids == [] {
      NothingTurned(ctx.nodes, flag);
    } else {
      SetTreeTurns(ctx, ids[0], flag, root, level);
      var first := SetTree(ctx, ids[0], flag, root, level);
      SetTreesTurn(first, ids[1..], flag, root, level);
      TurnedTwice(ctx.nodes, first.nodes, SetTrees(first, ids[1..], flag, root, level).nodes, flag);
    }
  }

  lemma NothingTurned(nodes: map<NodeId, Node>, flag: bool)
    ensures Turned(nodes, nodes, flag)
  {
  }

  // --- adding a child -------------------------------------------------------------------------------

  function Remove(ids: seq<NodeId>, c: NodeId): seq<NodeId> {
    if ids == [] then []
    else if ids[0] == c then ids[1..]
    else [ids[0]] + Remove(ids[1..], c)
  }

  /** `RemoveChild` from the parent; a child that its parent does not list stays as it is. */
  function Detach(ctx: Context, c: NodeId): (r: Context)
    ensures r.nodes.Keys == ctx.nodes.Keys
  {
    if c !in ctx.parent || c !in ctx.Kids(ctx.parent[c]) then ctx
    else
      var p := ctx.parent[c];
      var off := SetTree(ctx, c, false, INVALID_NODEID, INVALID_NODEID);
      off.(children := off.children[p := Remove(off.Kids(p), c)], parent := off.parent - {c})
  }

  function Insert(ids: seq<NodeId>, c: NodeId, index: nat): seq<NodeId> {
    if index >= |ids| then ids + [c] else ids[..index] + [c] + ids[index..]
  }

  function Link(ctx: Context, p: NodeId, c: NodeId, index: nat): Context {
    ctx.(children := ctx.children[p := Insert(ctx.Kids(p), c, index)], parent := ctx.parent[c := p])
  }

  /** A child is on the tree when its parent is. */
  function PassOn(ctx: Context, p: NodeId, c: NodeId): (r: Context)
    ensures r.children == ctx.children && r.parent == ctx.parent && r.nodes.Keys == ctx.nodes.Keys
  {
    if p in ctx.nodes && ctx.nodes[p].onTree then
      SetTree(ctx, c, true, ctx.nodes[p].instanceRoot, ctx.nodes[p].firstLevel)
    else ctx
  }

  /** `AddChild`: nothing for a missing node or the node itself; an index at or past the end appends. */
  function AddChild(ctx: Context, p: NodeId, c: NodeId, index: nat): (r: Context)
    ensures r.nodes.Keys == ctx.nodes.Keys
  {
    if c !in ctx.nodes || c == p then ctx else PassOn(Link(Detach(ctx, c), p, c, index), p, c)
  }

  lemma {:induction false} RemoveCounts(ids: seq<NodeId>, c: NodeId)
    requires c in ids
    ensures multiset(ids) == multiset(Remove(ids, c)) + multiset{c}
  {
    assert ids == [ids[0]] + ids[1..];
    if ids[0] != c {
      RemoveCounts(ids[1..], c);
    }
  }

  /** `after` is `before` with `c` at the index, or at the end. */
  predicate Placed(before: seq<NodeId>, after: seq<NodeId>, c: NodeId, index: nat) {
    var at := if index < |before| then index else |before|;
    |after| == |before| + 1 && after[at] == c && after[..at] + after[at + 1..] == before
  }

  lemma InsertPlaces(ids: seq<NodeId>, c: NodeId, index: nat)
    ensures Placed(ids, Insert(ids, c, index), c, index)
  {
  }

  /** A child ends up at the index of its new parent's list, and has left the old one's. */
  lemma AddChildMoves(ctx: Context, p: NodeId, c: NodeId, index: nat)
    requires c in ctx.nodes && c != p && (c in ctx.parent ==> c in ctx.Kids(ctx.parent[c]))
    ensures var t := AddChild(ctx, p, c, index);
      && t.parent == ctx.parent[c := p]
      && Placed(Detach(ctx, c).Kids(p), t.Kids(p), c, index)
      && (c in ctx.parent && ctx.parent[c] != p ==>
            multiset(ctx.Kids(ctx.parent[c])) == multiset(t.Kids(ctx.parent[c])) + multiset{c})
  {
    hide Remove, Insert, Placed, SetTree;
    if c in ctx.parent {
      RemoveCounts(ctx.Kids(ctx.parent[c]), c);
    }
    InsertPlaces(Detach(ctx, c).Kids(p), c, index);
  }

  /** No other list changes. */
  lemma AddChildElsewhere(ctx: Context, p: NodeId, c: NodeId, index: nat, q: NodeId)
    requires q != p && (c in ctx.parent ==> q != ctx.parent[c])
    ensures AddChild(ctx, p, c, index).Kids(q) == ctx.Kids(q)
  {
    hide Remove, Insert, SetTree;
  }

  /** Behind the call the child is on the tree exactly when its parent is or, for a child that came
      from nowhere, when it was already. */
  lemma AddChildFlag(ctx: Context, p: NodeId, c: NodeId, index: nat)
    requires c in ctx.nodes && p in ctx.nodes && c != p && c !in ctx.parent
    ensures var t := AddChild(ctx, p, c, index);
      && Turned(ctx.nodes, t.nodes, true)
      && (t.nodes[c].onTree <==> ctx.nodes[c].onTree || ctx.nodes[p].onTree)
      && ((ctx.nodes[p].onTree ==> ctx.nodes[c].onTree) ==> t.nodes == ctx.nodes)
  {
    hide SetTree, Insert;
    var linked := Link(ctx, p, c, index);
    NothingTurned(ctx.nodes, true);
    if ctx.nodes[p].onTree {
      SetTreeTurns(linked, c, true, ctx.nodes[p].instanceRoot, ctx.nodes[p].firstLevel);
      SetTreeAlike(linked, c, true, ctx.nodes[p].instanceRoot, ctx.nodes[p].firstLevel);
    }
  }

  /** The ids of a node `x` that came onto the tree under parent `p`: displays and surfaces up to leash
      windows are their own instance root; a leash window is its own first-level node, and so is an
      application window unless its parent is a surface that has one; all else is the parent's. */
  predicate TakesIds(n: Node, x: NodeId, p: Node) {
    && n.instanceRoot == (if n.nodeType == 0x0011 || (n.nodeType == 0x0021 && n.surface.surfaceType <= 4) then x
                          else p.instanceRoot)
    && n.firstLevel == (if n.nodeType == 0x0021 && n.surface.surfaceType == 4 then x
                        else if n.nodeType == 0x0021 && n.surface.surfaceType == 1 && (p.nodeType != 0x0021 || p.firstLevel == 0)
                        then x
                        else p.firstLevel)
  }

  /** An off-tree node without children that is added under an on-tree parent comes onto the tree with
      those ids; nothing else of it changes, and no other node. */
  lemma AddChildTakes(ctx: Context, p: NodeId, c: NodeId, index: nat)
    requires p in ctx.nodes && c in ctx.nodes && c != p && c !in ctx.parent && ctx.Kids(c) == []
    requires ctx.nodes[p].onTree && !ctx.nodes[c].onTree
    ensures var after := AddChild(ctx, p, c, index).nodes;
      && after == ctx.nodes[c := after[c]]
      && after[c].onTree && TakesIds(after[c], c, ctx.nodes[p])
      && after[c] == ctx.nodes[c].(onTree := true, instanceRoot := after[c].instanceRoot, firstLevel := after[c].firstLevel)
  {
    hide Insert, SetTree;
    var linked := Link(ctx, p, c, index);
    assert linked.Kids(c) == [];
    SetTreeAlike(linked, c, true, ctx.nodes[p].instanceRoot, ctx.nodes[p].firstLevel);
  }

  /** A node without children that leaves its parent is off the tree: without ids, but for those that
      are its own. */
  lemma DetachTakes(ctx: Context, c: NodeId)
    requires c in ctx.nodes && ctx.nodes[c].onTree && ctx.Kids(c) == []
    requires c in ctx.parent && c in ctx.Kids(ctx.parent[c])
    ensures var after := Detach(ctx, c);
      && c !in after.parent && after.nodes == ctx.nodes[c := after.nodes[c]] && !after.nodes[c].onTree
      && after.nodes[c].instanceRoot
         == (if ctx.nodes[c].nodeType == 0x0011 || (ctx.nodes[c].nodeType == 0x0021 && ctx.nodes[c].surface.surfaceType <= 4)
             then c else 0)
      && (ctx.nodes[c].nodeType != 0x0021 || ctx.nodes[c].surface.surfaceType !in {1, 4} ==> after.nodes[c].firstLevel == 0)
      && (ctx.nodes[c].nodeType == 0x0021 && ctx.nodes[c].surface.surfaceType == 4 ==> after.nodes[c].firstLevel == c)
  {
    hide Remove, SetTree;
    SetTreeAlike(ctx, c, false, INVALID_NODEID, INVALID_NODEID);
  }

  /** A child that moves is on the tree behind the call exactly when its new parent is. */
  lemma MovedChildFlag(ctx: Context, p: NodeId, c: NodeId, index: nat)
    requires c in ctx.nodes && p in ctx.nodes && c != p && c in ctx.parent && c in ctx.Kids(ctx.parent[c])
    ensures AddChild(ctx, p, c, index).nodes[c].onTree <==> Detach(ctx, c).nodes[p].onTree
    ensures !Detach(ctx, c).nodes[c].onTree && Turned(ctx.nodes, Detach(ctx, c).nodes, false)
  {
    hide Remove, Insert, SetTree, Turned;
    SetTreeTurns(ctx, c, false, INVALID_NODEID, INVALID_NODEID);
    var linked := Link(Detach(ctx, c), p, c, index);
    SetTreeTurns(linked, c, true, linked.nodes[p].instanceRoot, linked.nodes[p].firstLevel);
  }

  lemma SetTreeAlike(ctx: Context, x: NodeId, flag: bool, root: NodeId, level: NodeId)
    requires x in ctx.nodes
    ensures ctx.nodes[x].onTree == flag ==> SetTree(ctx, x, flag, root, level) == ctx
    ensures ctx.nodes[x].onTree != flag && ctx.Kids(x) == [] ==>
      var (r, l) := Inherit(ctx, x, root, level);
      SetTree(ctx, x, flag, root, level) == Mark(ctx, x, flag, r, l)
  {
    hide Inherit;
    var (r, l) := Inherit(ctx, x, root, level);
    var marked := Mark(ctx, x, flag, r, l);
    assert marked.Kids(x) == ctx.Kids(x);
  }

  /** A childless off-tree canvas under an on-tree parent takes the parent's ids over its own. */
  lemma OffTreeChildOverwritten(ctx: Context, p: NodeId, c: NodeId)
    requires p in ctx.nodes && c in ctx.nodes && c != p && c !in ctx.parent && ctx.Kids(c) == []
    requires ctx.nodes[p].onTree && !ctx.nodes[c].onTree && ctx.nodes[c].nodeType == CANVAS_NODE
    ensures AddChild(ctx, p, c, 0).nodes
         == ctx.nodes[c := ctx.nodes[c].(onTree := true, instanceRoot := ctx.nodes[p].instanceRoot,
                                         firstLevel := ctx.nodes[p].firstLevel)]
  {
    hide Insert, SetTree;
    var linked := Link(ctx, p, c, 0);
    assert linked.Kids(c) == [];
    SetTreeAlike(linked, c, true, ctx.nodes[p].instanceRoot, ctx.nodes[p].firstLevel);
  }

  // --- removing a node ---------------------------------------------------------------------------------

  function Drop(ids: seq<NodeId>, x: NodeId): seq<NodeId> {
    if ids == [] then []
    else (if ids[0] == x then [] else [ids[0]]) + Drop(ids[1..], x)
  }

  /** A node leaves its parent and the map. No list yields a node that is gone, and its children
      have no parent then. */
  function Erase(ctx: Context, x: NodeId): Context {
    var off := if x in ctx.parent then SetTree(ctx, x, false, INVALID_NODEID, INVALID_NODEID) else ctx;
    Context(map y | y in off.nodes && y != x :: off.nodes[y],
            map p | p in off.children && p != x :: Drop(off.children[p], x),
            map c | c in off.parent && c != x && off.parent[c] != x :: off.parent[c])
  }

  function EraseAll(ctx: Context, ids: seq<NodeId>): Context
    decreases |ids|
  {
    if ids == [] then ctx else Erase(EraseAll(ctx, ids[..|ids| - 1]), ids[|ids| - 1])
  }

  lemma {:induction false} ErasedKeys(ctx: Context, ids: seq<NodeId>, x: NodeId)
    ensures x in EraseAll(ctx, ids).nodes <==> x in ctx.nodes && x !in ids
  {
    hide SetTree;
    if ids != [] {
      var n := |ids| - 1;
      ErasedKeys(ctx, ids[..n], x);
      assert ids == ids[..n] + [ids[n]];
    }
  }

  lemma {:induction false} DropNone(ids: seq<NodeId>, x: NodeId)
    requires x !in ids
    ensures Drop(ids, x) == ids
  {
    if ids != [] {
      DropNone(ids[1..], x);
    }
  }

  lemma {:induction false} DropLeaves(ids: seq<NodeId>, x: NodeId, y: NodeId)
    ensures y in Drop(ids, x) <==> y in ids && y != x
  {
    if ids != [] {
      DropLeaves(ids[1..], x, y);
    }
  }
}
