/** A snapshot of the render nodes: every registered node, then the trees under the global root and
    under every node without parent. Reading it adds mock nodes, with patched ids, to a node map. */
module Snapshot {
  import opened Bytes
  import opened NodeIds
  import opened NodeRecord
  import opened RenderTree
  import opened Forest
  import opened OnTree

  // --- what is written ----------------------------------------------------------------------

  /** A registered node with the tree under it. */
  datatype Item = Item(node: Node, tree: Tree, hasParent: bool)

  /** The node map in iteration order, and the global root, which is not in the map. */
  datatype Scene = Scene(items: seq<Item>, root: Tree)

  /** The parentless ones, in order. */
  function Orphans(items: seq<Item>): seq<Tree> {
    if items == [] then []
    else (if items[0].hasParent then [] else [items[0].tree]) + Orphans(items[1..])
  }

  function Trees(s: Scene): seq<Tree> {
    [s.root] + Orphans(s.items)
  }

  function EncItems(items: seq<Item>, version: u32): bytes {
    if items == [] then []
    else EncNode(items[0].tree.id, items[0].node, version) + EncItems(items[1..], version)
  }

  function EncTrees(ts: seq<Tree>): bytes {
    if ts == [] then [] else EncTree(ts[0]) + EncTrees(ts[1..])
  }

  /** `MarshalNodes`. */
  function EncScene(s: Scene, version: u32): bytes {
    EncU32(Trunc32(|s.items|)) + (EncItems(s.items, version) + (EncU32(Trunc32(|Trees(s)|)) + EncTrees(Trees(s))))
  }

  // --- reading ----------------------------------------------------------------------------------

  /** Registration keeps a node that is there. */
  function Register(nodes: map<NodeId, Node>, id: NodeId, n: Node): map<NodeId, Node> {
    var key := PatchNodeId(id);
    nodes[key := Onto(if key in nodes then nodes[key] else Created(n), n)]
  }

  function ReadNodes(nodes: map<NodeId, Node>, b: bytes, off: nat, count: nat, version: u32): Parsed<map<NodeId, Node>>
    decreases count
  {
    if count == 0 then Parsed(nodes, off)
    else
      var (record, o) :- DecNode(b, off, version);
      ReadNodes(Register(nodes, record.0, record.1), b, o, count - 1, version)
  }

  function ReadTrees(ctx: Context, b: bytes, off: nat, count: nat): Parsed<Context>
    decreases count
  {
    if count == 0 then Parsed(ctx, off)
    else
      var (ctx, o) :- ReadTree(ctx, b, off);
      ReadTrees(ctx, b, o, count - 1)
  }

  /** `UnmarshalNodes`. */
  function ReadScene(ctx: Context, b: bytes, off: nat, version: u32): Parsed<Context> {
    var (count, o) :- DecU32(b, off);
    var (nodes, o) :- ReadNodes(ctx.nodes, b, o, count, version);
    var (count, o) :- DecU32(b, o);
    ReadTrees(ctx.(nodes := nodes), b, o, count)
  }

  // --- records into the map ------------------------------------------------------------------------

  function RegisterAll(nodes: map<NodeId, Node>, items: seq<Item>, version: u32): map<NodeId, Node>
    decreases |items|
  {
    if items == [] then nodes
    else RegisterAll(Register(nodes, items[0].tree.id, Written(items[0].node, version)), items[1..], version)
  }

  lemma {:induction false} NodesRead(nodes: map<NodeId, Node>, b: bytes, off: nat, items: seq<Item>, version: u32)
    requires At(b, off, EncItems(items, version)) && forall i :: 0 <= i < |items| ==> items[i].node.Fits()
    ensures ReadNodes(nodes, b, off, |items|, version)
         == Parsed(RegisterAll(nodes, items, version), off + |EncItems(items, version)|)
    decreases |items|
  {
    hide At, EncNode, DecNode, Register, Node.Fits, Written;
    if items != [] {
      var id, node := items[0].tree.id, items[0].node;
      AtConcat(b, off, EncNode(id, node, version), EncItems(items[1..], version));
      NodeRoundTrip(b, off, id, node, version);
      NodesRead(Register(nodes, id, Written(node, version)), b, off + |EncNode(id, node, version)|, items[1..], version);
    }
  }

  ghost predicate Distinct(items: seq<Item>) {
    forall i, j :: 0 <= i < j < |items| ==> items[i].tree.id != items[j].tree.id
  }

  ghost predicate ItemsUnpatched(items: seq<Item>) {
    forall i :: 0 <= i < |items| ==> !IsNodeIdPatched(items[i].tree.id)
  }

  lemma {:induction false} RegisterKeeps(nodes: map<NodeId, Node>, items: seq<Item>, version: u32, x: NodeId)
    requires forall i :: 0 <= i < |items| ==> PatchNodeId(items[i].tree.id) != x
    ensures var after := RegisterAll(nodes, items, version);
      (x in after <==> x in nodes) && (x in nodes ==> after[x] == nodes[x])
    decreases |items|
  {
    hide PatchNodeId, Onto, Created, Written;
    if items != [] {
      RegisterKeeps(Register(nodes, items[0].tree.id, Written(items[0].node, version)), items[1..], version, x);
    }
  }

  /** Every record becomes one new node. */
  lemma {:induction false} RegisterRestores(nodes: map<NodeId, Node>, items: seq<Item>, version: u32, i: nat)
    requires i < |items| && Distinct(items) && ItemsUnpatched(items) && PatchNodeId(items[i].tree.id) !in nodes
    ensures var key := PatchNodeId(items[i].tree.id);
      var after := RegisterAll(nodes, items, version);
      key in after && after[key] == Restored(Written(items[i].node, version))
    decreases |items|
  {
    hide PatchNodeId, Onto, Created, Written;
    var id := items[0].tree.id;
    var first := Register(nodes, id, Written(items[0].node, version));
    if i == 0 {
      forall j | 0 <= j < |items[1..]|
        ensures PatchNodeId(items[1..][j].tree.id) != PatchNodeId(id)
      {
        PatchInjective(items[j + 1].tree.id, id);
      }
      RegisterKeeps(first, items[1..], version, PatchNodeId(id));
    } else {
      PatchInjective(items[i].tree.id, id);
      RegisterRestores(first, items[1..], version, i - 1);
    }
  }

  lemma PatchInjective(a: NodeId, b: NodeId)
    requires !IsNodeIdPatched(a) && !IsNodeIdPatched(b) && a != b
    ensures PatchNodeId(a) != PatchNodeId(b)
  {
    if a < b {
      PatchMeets(a, b);
    } else {
      PatchMeets(b, a);
    }
  }

  // --- trees ----------------------------------------------------------------------------------------------

  function PatchAll(ts: seq<Tree>): (r: seq<Tree>)
    ensures |r| == |ts|
  {
    if ts == [] then [] else [PatchTree(ts[0])] + PatchAll(ts[1..])
  }

  function AttachAll(ctx: Context, ts: seq<Tree>): Context
    decreases |ts|
  {
    if ts == [] then ctx else AttachAll(Attach(ctx, ts[0]), ts[1..])
  }

  /** Nodes that the trees link; a tree without children links none. */
  ghost function Linked(ts: seq<Tree>): set<NodeId> {
    if ts == [] then {} else (if ts[0].kids.Nil? then {} else Ids(ts[0])) + Linked(ts[1..])
  }

  ghost function Listed(ts: seq<Tree>): set<NodeId> {
    if ts == [] then {} else Below(ts[0].kids) + Listed(ts[1..])
  }

  /** No node is linked twice. */
  ghost predicate ForestUnique(ts: seq<Tree>) {
    ts == [] ||
    (&& (ts[0].kids.Nil? || (Unique(ts[0]) && Ids(ts[0]) !! Linked(ts[1..])))
     && ForestUnique(ts[1..]))
  }

  ghost predicate ForestAlive(ts: seq<Tree>) {
    forall i :: 0 <= i < |ts| ==> AllAlive(ts[i])
  }

  ghost predicate ForestNarrow(ts: seq<Tree>) {
    forall i :: 0 <= i < |ts| ==> Narrow(ts[i])
  }

  lemma {:induction false} TreesRead(ctx: Context, b: bytes, off: nat, ts: seq<Tree>)
    requires At(b, off, EncTrees(ts)) && ForestAlive(ts) && ForestNarrow(ts)
    requires forall i :: 0 <= i < |ts| ==> Resolves(ctx.nodes.Keys, ts[i])
    ensures ReadTrees(ctx, b, off, |ts|) == Parsed(AttachAll(ctx, PatchAll(ts)), off + |EncTrees(ts)|)
    decreases |ts|
  {
    hide At, EncTree, ReadTree, Attach, PatchTree, AllAlive, Narrow, Resolves;
    if ts != [] {
      AtConcat(b, off, EncTree(ts[0]), EncTrees(ts[1..]));
      TreeRead(ctx, b, off, ts[0]);
      AttachKeepsKeys(ctx, PatchTree(ts[0]));
      TreesRead(Attach(ctx, PatchTree(ts[0])), b, off + |EncTree(ts[0])|, ts[1..]);
      assert PatchAll(ts)[1..] == PatchAll(ts[1..]);
    }
  }

  lemma {:induction false} ListedLinked(ts: seq<Tree>)
    ensures Listed(ts) <= Linked(ts)
  {
    if ts != [] {
      ListedLinked(ts[1..]);
    }
  }

  /** Attaching a forest of unlinked nodes gives every tree its shape and touches nothing else. */
  lemma {:induction false} ForestShapes(ctx: Context, ts: seq<Tree>)
    requires ForestAlive(ts) && ForestUnique(ts) && Fresh(ctx, Linked(ts), Linked(ts))
    ensures var after := AttachAll(ctx, ts);
      && Elsewhere(ctx, after, Linked(ts), Listed(ts))
      && forall i :: 0 <= i < |ts| && !ts[i].kids.Nil? ==> Shape(after, ts[i])
    decreases |ts|
  {
    hide Attach, Unique, AllAlive, Ids, Shape, Fresh, Elsewhere, SameLinks;
    if ts == [] {
      NothingElsewhere(ctx, {});
    } else {
      var rest := ts[1..];
      var mid := Attach(ctx, ts[0]);
      var after := AttachAll(mid, rest);
      ListedLinked(rest);
      if ts[0].kids.Nil? {
        ChildlessAttaches(ctx, ts[0]);
        assert Linked(ts) == Linked(rest) && Listed(ts) == Listed(rest);
        ForestShapes(ctx, rest);
      } else {
        IdsOf(ts[0]);
        NothingElsewhere(ctx, {});
        StillFresh(ctx, ctx, {}, {}, Linked(ts), Ids(ts[0]), Below(ts[0].kids));
        AttachShapes(ctx, ts[0]);
        StillFresh(ctx, mid, Ids(ts[0]), Below(ts[0].kids), Linked(ts), Linked(rest), Linked(rest));
        ForestShapes(mid, rest);
        ElsewhereSame(mid, after, Linked(rest), Listed(rest), Ids(ts[0]), Below(ts[0].kids));
        ShapeFrame(mid, after, ts[0]);
        Together(ctx, mid, after, Ids(ts[0]), Below(ts[0].kids), Linked(rest), Listed(rest));
      }
      forall i | 0 <= i < |ts| && !ts[i].kids.Nil?
        ensures Shape(after, ts[i])
      {
        if i > 0 {
          assert ts[i] == rest[i - 1];
        }
      }
    }
  }

  ghost predicate ForestHarmonious(on: set<NodeId>, ts: seq<Tree>) {
    forall i :: 0 <= i < |ts| && !ts[i].kids.Nil? ==> Harmonious(on, ts[i])
  }

  /** What is listed anywhere below a node that is on the tree. */
  ghost function ForestBeneath(on: set<NodeId>, ts: seq<Tree>): set<NodeId> {
    if ts == [] then {} else Beneath(on, ts[0]) + ForestBeneath(on, ts[1..])
  }

  lemma {:induction false} ForestBeneathAgrees(on: set<NodeId>, on': set<NodeId>, ts: seq<Tree>)
    requires forall x :: x in Linked(ts) ==> (x in on <==> x in on')
    ensures ForestBeneath(on, ts) == ForestBeneath(on', ts)
  {
    hide Beneath, Ids;
    if ts != [] {
      if ts[0].kids.Nil? {
        ChildlessBeneath(on, ts[0]);
        ChildlessBeneath(on', ts[0]);
      } else {
        BeneathAgrees(on, on', ts[0]);
      }
      ForestBeneathAgrees(on, on', ts[1..]);
    }
  }

  lemma ChildlessBeneath(on: set<NodeId>, t: Tree)
    requires t.kids.Nil?
    ensures Beneath(on, t) == {}
  {
  }

  lemma {:induction false} ForestHarmoniousBeneath(on: set<NodeId>, ts: seq<Tree>)
    ensures ForestHarmonious(on, ts) <==> ForestBeneath(on, ts) <= on
  {
    hide Beneath, Harmonious, ForestHarmonious;
    if ts == [] {
      assert ForestHarmonious(on, ts) by { NoneHarmonious(on); }
    } else {
      HarmoniousSplits(on, ts);
      HarmoniousBeneath(on, ts[0]);
      if ts[0].kids.Nil? {
        ChildlessBeneath(on, ts[0]);
      }
      ForestHarmoniousBeneath(on, ts[1..]);
    }
  }

  lemma NoneHarmonious(on: set<NodeId>)
    ensures ForestHarmonious(on, [])
  {
  }

  /** Attaching a forest brings onto the tree what is listed below the nodes that are on it, with
      what it takes from its parents, and nothing else. */
  lemma {:induction false} ForestGrows(ctx: Context, ts: seq<Tree>)
    requires ForestAlive(ts) && ForestUnique(ts) && Fresh(ctx, Linked(ts), Linked(ts)) && Linked(ts) <= ctx.nodes.Keys
    ensures Grown(ctx, AttachAll(ctx, ts))
    ensures On(AttachAll(ctx, ts).nodes) == On(ctx.nodes) + ForestBeneath(On(ctx.nodes), ts)
    decreases |ts|
  {
    hide Attach, Unique, AllAlive, Ids, Fresh, Elsewhere, On, Grown, Beneath, Shape;
    if ts == [] {
      GrownSelf(ctx);
    } else {
      var rest := ts[1..];
      var mid := Attach(ctx, ts[0]);
      if ts[0].kids.Nil? {
        ChildlessAttaches(ctx, ts[0]);
        ChildlessBeneath(On(ctx.nodes), ts[0]);
        assert Linked(ts) == Linked(rest);
        ForestGrows(ctx, rest);
      } else {
        IdsOf(ts[0]);
        NothingElsewhere(ctx, {});
        StillFresh(ctx, ctx, {}, {}, Linked(ts), Ids(ts[0]), Below(ts[0].kids));
        AttachShapes(ctx, ts[0]);
        AttachGrows(ctx, ts[0]);
        BeneathBelow(On(ctx.nodes), ts[0]);
        GrownSame(ctx, mid);
        StillFresh(ctx, mid, Ids(ts[0]), Below(ts[0].kids), Linked(ts), Linked(rest), Linked(rest));
        ForestGrows(mid, rest);
        GrownTwice(ctx, mid, AttachAll(mid, rest));
        ForestBeneathAgrees(On(ctx.nodes), On(mid.nodes), rest);
      }
    }
  }

  /** So it leaves the nodes as they are exactly when no off-tree node is listed under an on-tree
      one. */
  lemma ForestKeepsIff(ctx: Context, ts: seq<Tree>)
    requires ForestAlive(ts) && ForestUnique(ts) && Fresh(ctx, Linked(ts), Linked(ts)) && Linked(ts) <= ctx.nodes.Keys
    ensures AttachAll(ctx, ts).nodes == ctx.nodes <==> ForestHarmonious(On(ctx.nodes), ts)
  {
    hide AttachAll, ForestUnique, ForestAlive, Fresh, Linked, On, Grown, ForestBeneath, ForestHarmonious;
    ForestGrows(ctx, ts);
    GrownSame(ctx, AttachAll(ctx, ts));
    ForestHarmoniousBeneath(On(ctx.nodes), ts);
  }

  lemma HarmoniousSplits(on: set<NodeId>, ts: seq<Tree>)
    requires ts != []
    ensures ForestHarmonious(on, ts) <==> (ts[0].kids.Nil? || Harmonious(on, ts[0])) && ForestHarmonious(on, ts[1..])
  {
    hide Harmonious;
    var rest := ts[1..];
    if ForestHarmonious(on, ts) {
      forall i | 0 <= i < |rest| && !rest[i].kids.Nil?
        ensures Harmonious(on, rest[i])
      {
        assert rest[i] == ts[i + 1];
      }
    }
    if (ts[0].kids.Nil? || Harmonious(on, ts[0])) && ForestHarmonious(on, rest) {
      forall i | 0 <= i < |ts| && !ts[i].kids.Nil?
        ensures Harmonious(on, ts[i])
      {
        if i > 0 {
          assert ts[i] == rest[i - 1];
        }
      }
    }
  }

  lemma ChildlessAttaches(ctx: Context, t: Tree)
    requires t.kids.Nil?
    ensures Attach(ctx, t) == ctx && Below(t.kids) == {}
  {
  }

  // --- patched trees ----------------------------------------------------------------------------------------

  ghost predicate Unpatched(ids: set<NodeId>) {
    forall x :: x in ids ==> !IsNodeIdPatched(x)
  }

  /** Every id of one set is a patched id of the other. */
  ghost predicate Mirrors(ids: set<NodeId>, original: set<NodeId>) {
    forall y :: y in ids ==> y >= BIT_62 && y - BIT_62 in original && IsNodeIdPatched(y)
  }

  lemma MirrorsDisjoint(a: set<NodeId>, a0: set<NodeId>, b: set<NodeId>, b0: set<NodeId>)
    requires Mirrors(a, a0) && Mirrors(b, b0) && a0 !! b0
    ensures a !! b
  {
    forall y | y in a
      ensures y !in b
    {
      assert y - BIT_62 in a0;
    }
  }

  lemma {:induction false} PatchedTree(t: Tree)
    requires Unpatched(Ids(t))
    ensures Mirrors(Ids(PatchTree(t)), Ids(t)) && Mirrors(Below(PatchTree(t).kids), Below(t.kids))
    ensures AllAlive(PatchTree(t)) == AllAlive(t) && PatchTree(t).kids.Nil? == t.kids.Nil?
    ensures Unique(t) ==> Unique(PatchTree(t))
    decreases t
  {
    PatchedKids(t.kids);
    PatchMirrors(t.id);
    if Unique(t) && PatchNodeId(t.id) in Below(PatchKids(t.kids)) {
      assert false;
    }
  }

  lemma PatchMirrors(x: NodeId)
    requires !IsNodeIdPatched(x)
    ensures PatchNodeId(x) == x + BIT_62 && IsNodeIdPatched(PatchNodeId(x))
  {
  }

  lemma {:induction false} PatchedKids(k: Kids)
    requires Unpatched(Below(k))
    ensures Mirrors(Below(PatchKids(k)), Below(k)) && KidsAlive(PatchKids(k)) == KidsAlive(k)
    ensures KidsUnique(k) ==> KidsUnique(PatchKids(k))
    decreases k
  {
    match k
    case Nil =>
    case Alive(child, rest) =>
      hide Unique, Ids, AllAlive, PatchTree;
      PatchedTree(child);
      PatchedKids(rest);
      if KidsUnique(k) {
        MirrorsDisjoint(Ids(PatchTree(child)), Ids(child), Below(PatchKids(rest)), Below(rest));
      }
    case Expired(rest) => PatchedKids(rest);
  }

  lemma {:induction false} PatchedForest(ts: seq<Tree>)
    requires Unpatched(Linked(ts)) && ForestUnique(ts) && ForestAlive(ts)
    ensures Mirrors(Linked(PatchAll(ts)), Linked(ts)) && Mirrors(Listed(PatchAll(ts)), Listed(ts))
    ensures ForestUnique(PatchAll(ts)) && ForestAlive(PatchAll(ts))
    ensures forall i :: 0 <= i < |ts| ==> PatchAll(ts)[i] == PatchTree(ts[i]) && PatchTree(ts[i]).kids.Nil? == ts[i].kids.Nil?
    decreases |ts|
  {
    hide Unique, Ids, AllAlive, PatchTree, Below;
    if ts != [] {
      var rest := ts[1..];
      PatchedForest(rest);
      assert PatchAll(ts)[1..] == PatchAll(rest);
      if ts[0].kids.Nil? {
        PatchedLeaf(ts[0]);
      } else {
        PatchedTree(ts[0]);
        MirrorsDisjoint(Ids(PatchTree(ts[0])), Ids(ts[0]), Linked(PatchAll(rest)), Linked(rest));
      }
    }
  }

  lemma PatchedLeaf(t: Tree)
    requires t.kids.Nil?
    ensures PatchTree(t).kids.Nil? && AllAlive(PatchTree(t)) && Below(t.kids) == {} && Below(PatchTree(t).kids) == {}
  {
  }

  lemma {:induction false} TreeResolves(known: set<NodeId>, t: Tree)
    requires t.kids.Nil? || forall x :: x in Ids(t) ==> PatchNodeId(x) in known
    ensures Resolves(known, t)
  {
    hide PatchNodeId;
    if !t.kids.Nil? {
      KidsAllResolve(known, t.kids);
      assert t.id in Ids(t);
    }
  }

  lemma {:induction false} KidsAllResolve(known: set<NodeId>, k: Kids)
    requires forall x :: x in Below(k) ==> PatchNodeId(x) in known
    ensures KidsResolve(known, k)
    decreases k
  {
    hide PatchNodeId;
    match k
    case Nil =>
    case Alive(child, rest) =>
      assert child.id in Ids(child) && Below(child.kids) <= Ids(child);
      KidsAllResolve(known, child.kids);
      KidsAllResolve(known, rest);
    case Expired(rest) => KidsAllResolve(known, rest);
  }

  lemma {:induction false} LinkedHas(ts: seq<Tree>, i: nat)
    requires i < |ts| && !ts[i].kids.Nil?
    ensures Ids(ts[i]) <= Linked(ts)
  {
    hide Ids;
    if i > 0 {
      LinkedHas(ts[1..], i - 1);
    }
  }

  // --- the round trip -------------------------------------------------------------------------------------------

  /** Sizes fit their fields, no id is patched, no registered id occurs twice, every node that is
      linked is registered and linked once, and no reference has expired. */
  ghost predicate Regular(s: Scene) {
    && |s.items| < TWO_32 - 1 && Distinct(s.items) && ItemsUnpatched(s.items)
    && (forall i :: 0 <= i < |s.items| ==> s.items[i].node.Fits())
    && ForestAlive(Trees(s)) && ForestNarrow(Trees(s)) && ForestUnique(Trees(s))
    && (forall x :: x in Linked(Trees(s)) ==> Registered(s.items, x))
  }

  ghost predicate Registered(items: seq<Item>, x: NodeId) {
    exists i :: 0 <= i < |items| && items[i].tree.id == x
  }

  /** A node map into which no snapshot has been read. */
  ghost predicate Plain(ctx: Context) {
    && (forall x :: x in ctx.nodes ==> !IsNodeIdPatched(x))
    && (forall x :: x in ctx.children ==> !IsNodeIdPatched(x) && forall c :: c in ctx.children[x] ==> !IsNodeIdPatched(c))
    && (forall x :: x in ctx.parent ==> !IsNodeIdPatched(x) && !IsNodeIdPatched(ctx.parent[x]))
  }

  lemma {:induction false} OrphansFit(items: seq<Item>)
    ensures |Orphans(items)| <= |items|
  {
    if items != [] {
      OrphansFit(items[1..]);
    }
  }

  lemma ItemsRegister(ctx: Context, s: Scene, version: u32)
    requires Regular(s) && Plain(ctx)
    ensures forall x :: x in Linked(Trees(s)) ==> PatchNodeId(x) in RegisterAll(ctx.nodes, s.items, version)
    ensures Unpatched(Linked(Trees(s)))
  {
    hide PatchNodeId, RegisterAll, Linked, Trees, ForestAlive, ForestNarrow, ForestUnique;
    forall x | x in Linked(Trees(s))
      ensures PatchNodeId(x) in RegisterAll(ctx.nodes, s.items, version) && !IsNodeIdPatched(x)
    {
      assert Registered(s.items, x);
      var i :| 0 <= i < |s.items| && s.items[i].tree.id == x;
      PatchIsMockPid(x);
      RegisterRestores(ctx.nodes, s.items, version, i);
    }
  }

  /** A snapshot of a regular scene is read to its end, at either version. */
  lemma SceneRead(ctx: Context, b: bytes, off: nat, s: Scene, version: u32)
    requires At(b, off, EncScene(s, version)) && Regular(s) && Plain(ctx)
    ensures ReadScene(ctx, b, off, version)
         == Parsed(AttachAll(ctx.(nodes := RegisterAll(ctx.nodes, s.items, version)), PatchAll(Trees(s))),
                   off + |EncScene(s, version)|)
  {
    hide At, EncU32, DecU32, EncItems, EncTrees, ReadNodes, ReadTrees, RegisterAll, PatchNodeId, Trees, Node.Fits;
    var nodes := RegisterAll(ctx.nodes, s.items, version);
    var ts := Trees(s);
    var head := EncU32(Trunc32(|ts|));
    var o := off + 4 + |EncItems(s.items, version)|;
    assert |ts| < TWO_32 by { TreesFit(s); }
    AtConcat(b, off, EncU32(|s.items|), EncItems(s.items, version) + (head + EncTrees(ts)));
    AtConcat(b, off + 4, EncItems(s.items, version), head + EncTrees(ts));
    AtConcat(b, o, head, EncTrees(ts));
    U32RoundTrip(b, off, |s.items|);
    NodesRead(ctx.nodes, b, off + 4, s.items, version);
    U32RoundTrip(b, o, |ts|);
    ItemsRegister(ctx, s, version);
    forall i | 0 <= i < |ts|
      ensures Resolves(nodes.Keys, ts[i])
    {
      if !ts[i].kids.Nil? {
        LinkedHas(ts, i);
      }
      TreeResolves(nodes.Keys, ts[i]);
    }
    TreesRead(ctx.(nodes := nodes), b, o + 4, ts);
  }

  lemma TreesFit(s: Scene)
    requires |s.items| < TWO_32 - 1
    ensures |Trees(s)| < TWO_32
  {
    OrphansFit(s.items);
  }

  ghost predicate NodeMade(nodes: map<NodeId, Node>, item: Item, version: u32) {
    var key := PatchNodeId(item.tree.id);
    key in nodes && nodes[key] == Restored(Written(item.node, version))
  }

  /** Every node is made from its record, and the nodes that were there are as they were. */
  ghost predicate NodesRebuilt(before: map<NodeId, Node>, after: map<NodeId, Node>, items: seq<Item>, version: u32) {
    && (forall i :: 0 <= i < |items| ==> NodeMade(after, items[i], version))
    && (forall x :: !IsNodeIdPatched(x) ==> (x in after <==> x in before))
    && (forall x :: x in before ==> x in after && after[x] == before[x])
  }

  /** The same trees under patched ids, child order and all, and all other links as they were. */
  ghost predicate LinksRebuilt(before: Context, after: Context, ts: seq<Tree>) {
    && (forall i :: 0 <= i < |ts| && !ts[i].kids.Nil? ==> Shape(after, PatchTree(ts[i])))
    && (forall x :: x !in Linked(PatchAll(ts)) ==> after.Kids(x) == before.Kids(x))
    && (forall x :: x !in Listed(PatchAll(ts)) ==> (x in after.parent <==> x in before.parent))
    && (forall x :: x in before.parent ==> x in after.parent && after.parent[x] == before.parent[x])
  }

  lemma MapRebuilt(nodes: map<NodeId, Node>, items: seq<Item>, version: u32)
    requires Distinct(items) && ItemsUnpatched(items) && forall x :: x in nodes ==> !IsNodeIdPatched(x)
    ensures NodesRebuilt(nodes, RegisterAll(nodes, items, version), items, version)
  {
    hide RegisterAll, PatchNodeId, Restored, Written, IsNodeIdPatched;
    var after := RegisterAll(nodes, items, version);
    forall i | 0 <= i < |items|
      ensures NodeMade(after, items[i], version)
    {
      PatchIsMockPid(items[i].tree.id);
      RegisterRestores(nodes, items, version, i);
    }
    forall x: NodeId | !IsNodeIdPatched(x)
      ensures (x in after <==> x in nodes) && (x in nodes ==> after[x] == nodes[x])
    {
      forall i | 0 <= i < |items|
        ensures PatchNodeId(items[i].tree.id) != x
      {
        PatchIsMockPid(items[i].tree.id);
      }
      RegisterKeeps(nodes, items, version, x);
    }
  }

  /** Every node is made from its record; one that was off the tree and is listed below one that
      was on it has come onto the tree as its parent's child. Nodes that were there stay. */
  ghost predicate NodesReturned(before: map<NodeId, Node>, after: Context, items: seq<Item>, version: u32,
                                beneath: set<NodeId>) {
    && (forall i :: 0 <= i < |items| ==> NodeReturned(after, items[i], version, beneath))
    && (forall x :: !IsNodeIdPatched(x) ==> (x in after.nodes <==> x in before))
    && (forall x :: x in before ==> x in after.nodes && after.nodes[x] == before[x])
  }

  ghost predicate NodeReturned(ctx: Context, item: Item, version: u32, beneath: set<NodeId>) {
    var key := PatchNodeId(item.tree.id);
    var made := Restored(Written(item.node, version));
    key in ctx.nodes
    && if item.node.onTree || item.tree.id !in beneath then ctx.nodes[key] == made else Joined(made, ctx, key)
  }

  lemma ForestRebuilt(ctx: Context, nodes: map<NodeId, Node>, ts: seq<Tree>)
    requires Plain(ctx) && ForestAlive(ts) && ForestUnique(ts) && Unpatched(Linked(ts))
    requires forall x :: x in Linked(ts) ==> PatchNodeId(x) in nodes
    ensures LinksRebuilt(ctx, AttachAll(ctx.(nodes := nodes), PatchAll(ts)), ts)
  {
    hide AttachAll, PatchNodeId, Shape, ForestUnique, ForestAlive, Linked, Listed, PatchTree, PatchAll, IsNodeIdPatched;
    hide Raised;
    PatchedForest(ts);
    ListedLinked(PatchAll(ts));
    MirroredFresh(ctx, nodes, Linked(PatchAll(ts)), Linked(ts));
    ForestShapes(ctx.(nodes := nodes), PatchAll(ts));
  }

  /** The ids whose records say that they are on the tree. */
  ghost function OnIds(items: seq<Item>): set<NodeId> {
    set i | 0 <= i < |items| && items[i].node.onTree :: items[i].tree.id
  }

  lemma OnIdsRestored(nodes: map<NodeId, Node>, items: seq<Item>, version: u32, x: NodeId)
    requires Distinct(items) && ItemsUnpatched(items) && Registered(items, x)
    requires forall y :: y in nodes ==> !IsNodeIdPatched(y)
    ensures x in OnIds(items) <==> PatchNodeId(x) in On(RegisterAll(nodes, items, version))
  {
    hide RegisterAll, PatchNodeId, IsNodeIdPatched;
    var i :| 0 <= i < |items| && items[i].tree.id == x;
    PatchIsMockPid(x);
    RegisterRestores(nodes, items, version, i);
    if x in OnIds(items) {
      var j :| 0 <= j < |items| && items[j].node.onTree && items[j].tree.id == x;
      OneItem(items, i, j);
    }
  }

  lemma OneItem(items: seq<Item>, i: nat, j: nat)
    requires Distinct(items) && i < |items| && j < |items| && items[i].tree.id == items[j].tree.id
    ensures i == j
  {
    if i != j {
      ItemsDiffer(items, i, j);
    }
  }

  lemma ItemsDiffer(items: seq<Item>, i: nat, j: nat)
    requires Distinct(items) && i < |items| && j < |items| && i != j
    ensures items[i].tree.id != items[j].tree.id
  {
    var lo, hi := if i < j then i else j, if i < j then j else i;
    assert items[lo].tree.id != items[hi].tree.id;
  }

  /** Harmony among the recorded flags is harmony among the restored ones. */
  lemma SceneHarmony(ctx: Context, s: Scene, version: u32)
    requires Regular(s) && Plain(ctx)
    ensures ForestHarmonious(OnIds(s.items), Trees(s))
       <==> ForestHarmonious(On(RegisterAll(ctx.nodes, s.items, version)), PatchAll(Trees(s)))
  {
    hide RegisterAll, PatchNodeId, Harmonious, ForestNarrow, ForestUnique, Trees, On, OnIds, Ids, Linked, PatchTree, Node.Fits;
    var ts := Trees(s);
    var on := On(RegisterAll(ctx.nodes, s.items, version));
    ItemsRegister(ctx, s, version);
    PatchedForest(ts);
    forall i | 0 <= i < |ts| && !ts[i].kids.Nil?
      ensures Harmonious(OnIds(s.items), ts[i]) <==> Harmonious(on, PatchAll(ts)[i])
    {
      LinkedHas(ts, i);
      forall x | x in Ids(ts[i])
        ensures x in OnIds(s.items) <==> PatchNodeId(x) in on
      {
        OnIdsRestored(ctx.nodes, s.items, version, x);
      }
      HarmoniousPatched(OnIds(s.items), on, ts[i]);
    }
  }

  // --- which nodes come onto the tree ---------------------------------------------------------------------------

  lemma {:induction false} BelowPatched(k: Kids, x: NodeId)
    requires Unpatched(Below(k)) && !IsNodeIdPatched(x)
    ensures x in Below(k) <==> PatchNodeId(x) in Below(PatchKids(k))
    decreases k
  {
    hide PatchNodeId, IsNodeIdPatched;
    match k
    case Nil =>
    case Alive(child, rest) =>
      IdsOf(child);
      PatchedId(child);
      if x != child.id {
        PatchInjective(x, child.id);
      }
      BelowPatched(child.kids, x);
      BelowPatched(rest, x);
    case Expired(rest) => BelowPatched(rest, x);
  }

  lemma {:induction false} BeneathPatched(on: set<NodeId>, on': set<NodeId>, t: Tree, x: NodeId)
    requires Unpatched(Ids(t)) && !IsNodeIdPatched(x)
    requires forall y :: y in Ids(t) ==> (y in on <==> PatchNodeId(y) in on')
    ensures x in Beneath(on, t) <==> PatchNodeId(x) in Beneath(on', PatchTree(t))
    decreases t
  {
    hide PatchNodeId, IsNodeIdPatched;
    IdsOf(t);
    PatchedId(t);
    BelowPatched(t.kids, x);
    KidsBeneathPatched(on, on', t.kids, x);
  }

  lemma {:induction false} KidsBeneathPatched(on: set<NodeId>, on': set<NodeId>, k: Kids, x: NodeId)
    requires Unpatched(Below(k)) && !IsNodeIdPatched(x)
    requires forall y :: y in Below(k) ==> (y in on <==> PatchNodeId(y) in on')
    ensures x in KidsBeneath(on, k) <==> PatchNodeId(x) in KidsBeneath(on', PatchKids(k))
    decreases k
  {
    hide PatchNodeId, IsNodeIdPatched;
    match k
    case Nil =>
    case Alive(child, rest) =>
      IdsOf(child);
      BeneathPatched(on, on', child, x);
      KidsBeneathPatched(on, on', rest, x);
    case Expired(rest) => KidsBeneathPatched(on, on', rest, x);
  }

  lemma {:induction false} ForestBeneathPatched(on: set<NodeId>, on': set<NodeId>, ts: seq<Tree>, x: NodeId)
    requires Unpatched(Linked(ts)) && !IsNodeIdPatched(x)
    requires forall y :: y in Linked(ts) ==> (y in on <==> PatchNodeId(y) in on')
    ensures x in ForestBeneath(on, ts) <==> PatchNodeId(x) in ForestBeneath(on', PatchAll(ts))
    decreases |ts|
  {
    hide PatchNodeId, IsNodeIdPatched, Ids, Beneath, PatchTree;
    if ts != [] {
      assert PatchAll(ts)[1..] == PatchAll(ts[1..]);
      ForestBeneathPatched(on, on', ts[1..], x);
      if ts[0].kids.Nil? {
        PatchedLeaf(ts[0]);
        ChildlessBeneath(on, ts[0]);
        ChildlessBeneath(on', PatchTree(ts[0]));
      } else {
        BeneathPatched(on, on', ts[0], x);
      }
    }
  }

  /** A restored node comes onto the tree exactly when it is listed below one recorded as on it. */
  lemma SceneBeneath(ctx: Context, s: Scene, version: u32, x: NodeId)
    requires Regular(s) && Plain(ctx) && !IsNodeIdPatched(x)
    ensures x in ForestBeneath(OnIds(s.items), Trees(s))
       <==> PatchNodeId(x) in ForestBeneath(On(RegisterAll(ctx.nodes, s.items, version)), PatchAll(Trees(s)))
  {
    hide RegisterAll, PatchNodeId, IsNodeIdPatched, ForestNarrow, ForestUnique, ForestAlive, Trees, On, OnIds, Linked,
      Node.Fits, ForestBeneath, PatchAll;
    var on := On(RegisterAll(ctx.nodes, s.items, version));
    ItemsRegister(ctx, s, version);
    forall y | y in Linked(Trees(s))
      ensures y in OnIds(s.items) <==> PatchNodeId(y) in on
    {
      OnIdsRestored(ctx.nodes, s.items, version, y);
    }
    ForestBeneathPatched(OnIds(s.items), on, Trees(s), x);
  }

  /** Nodes that were there, and nodes of which nothing is known, stay off the forest. */
  lemma GrownReturns(ctx: Context, base: Context, after: Context, items: seq<Item>, version: u32,
                     beneath: set<NodeId>, lit: set<NodeId>)
    requires NodesRebuilt(ctx.nodes, base.nodes, items, version) && Grown(base, after)
    requires On(after.nodes) == On(base.nodes) + lit
    requires forall x :: x in lit ==> IsNodeIdPatched(x)
    requires forall x :: x in ctx.nodes ==> !IsNodeIdPatched(x)
    requires forall i :: 0 <= i < |items| ==> (items[i].tree.id in beneath <==> PatchNodeId(items[i].tree.id) in lit)
    ensures NodesReturned(ctx.nodes, after, items, version, beneath)
  {
    hide IsNodeIdPatched, PatchNodeId, Restored, Written, On, Joined;
    forall i | 0 <= i < |items|
      ensures NodeReturned(after, items[i], version, beneath)
    {
      var key := PatchNodeId(items[i].tree.id);
      assert NodeMade(base.nodes, items[i], version);
      RestoredFlag(items[i].node, version);
      OnIs(base.nodes, key);
      OnIs(after.nodes, key);
    }
    forall x | x in ctx.nodes
      ensures x in after.nodes && after.nodes[x] == ctx.nodes[x]
    {
      OnIs(base.nodes, x);
      OnIs(after.nodes, x);
    }
  }

  lemma RestoredFlag(n: Node, version: u32)
    ensures Restored(Written(n, version)).onTree == n.onTree
  {
  }

  lemma RebuiltIs(before: map<NodeId, Node>, after: map<NodeId, Node>, items: seq<Item>, version: u32)
    requires Distinct(items) && ItemsUnpatched(items) && forall x :: x in before ==> !IsNodeIdPatched(x)
    requires after.Keys == RegisterAll(before, items, version).Keys
    ensures NodesRebuilt(before, after, items, version) <==> after == RegisterAll(before, items, version)
  {
    hide RegisterAll, PatchNodeId, Restored, Written, IsNodeIdPatched;
    var nodes := RegisterAll(before, items, version);
    MapRebuilt(before, items, version);
    if NodesRebuilt(before, after, items, version) {
      forall x | x in nodes
        ensures after[x] == nodes[x]
      {
        if forall i :: 0 <= i < |items| ==> PatchNodeId(items[i].tree.id) != x {
          RegisterKeeps(before, items, version, x);
        } else {
          var i :| 0 <= i < |items| && PatchNodeId(items[i].tree.id) == x;
          assert NodeMade(after, items[i], version) && NodeMade(nodes, items[i], version);
        }
      }
    }
  }

  /** Reading a snapshot stops at its end and rebuilds the forest that was written. Every node is
      made from its record: a node recorded as on the tree, or listed below none that was, stays as
      its record says; every other one comes onto the tree and takes its instance root and its
      first-level node from its parent, as `Inherit` has it for its kind. So all nodes are as
      recorded exactly when no node recorded as off the tree is listed under one recorded as on it. */
  lemma SceneRoundTrip(ctx: Context, b: bytes, off: nat, s: Scene, version: u32)
    requires At(b, off, EncScene(s, version)) && Regular(s) && Plain(ctx)
    ensures var r := ReadScene(ctx, b, off, version);
      && r.Parsed? && r.next == off + |EncScene(s, version)|
      && LinksRebuilt(ctx, r.value, Trees(s))
      && NodesReturned(ctx.nodes, r.value, s.items, version, ForestBeneath(OnIds(s.items), Trees(s)))
      && (NodesRebuilt(ctx.nodes, r.value.nodes, s.items, version) <==> ForestHarmonious(OnIds(s.items), Trees(s)))
  {
    hide At, EncScene, ReadScene, RegisterAll, AttachAll, Trees, NodesRebuilt, NodesReturned, LinksRebuilt, Node.Fits;
    hide ForestUnique, ForestAlive, ForestNarrow, Linked, PatchNodeId, IsNodeIdPatched, PatchAll, Grown, On;
    hide ForestHarmonious, ForestBeneath, Fresh, OnIds;
    var ts := Trees(s);
    var nodes := RegisterAll(ctx.nodes, s.items, version);
    var base := ctx.(nodes := nodes);
    SceneRead(ctx, b, off, s, version);
    ItemsRegister(ctx, s, version);
    ForestRebuilt(ctx, nodes, ts);
    SceneReturns(ctx, s, version);
    PatchedForest(ts);
    MirroredFresh(ctx, nodes, Linked(PatchAll(ts)), Linked(ts));
    MirroredKnown(nodes, Linked(PatchAll(ts)), Linked(ts));
    ForestGrows(base, PatchAll(ts));
    GrownSame(base, AttachAll(base, PatchAll(ts)));
    ForestKeepsIff(base, PatchAll(ts));
    SceneHarmony(ctx, s, version);
    RebuiltIs(ctx.nodes, AttachAll(base, PatchAll(ts)).nodes, s.items, version);
  }

  lemma SceneReturns(ctx: Context, s: Scene, version: u32)
    requires Regular(s) && Plain(ctx)
    ensures var after := AttachAll(ctx.(nodes := RegisterAll(ctx.nodes, s.items, version)), PatchAll(Trees(s)));
      NodesReturned(ctx.nodes, after, s.items, version, ForestBeneath(OnIds(s.items), Trees(s)))
  {
    hide RegisterAll, AttachAll, Trees, NodesRebuilt, NodesReturned, Node.Fits, ForestUnique, ForestAlive, ForestNarrow;
    hide Linked, PatchNodeId, IsNodeIdPatched, PatchAll, Grown, On, ForestBeneath, Fresh, OnIds;
    var ts := Trees(s);
    var nodes := RegisterAll(ctx.nodes, s.items, version);
    var base := ctx.(nodes := nodes);
    ItemsRegister(ctx, s, version);
    MapRebuilt(ctx.nodes, s.items, version);
    PatchedForest(ts);
    MirroredFresh(ctx, nodes, Linked(PatchAll(ts)), Linked(ts));
    MirroredKnown(nodes, Linked(PatchAll(ts)), Linked(ts));
    ForestGrows(base, PatchAll(ts));
    ForestBeneathLinked(On(nodes), PatchAll(ts));
    forall i | 0 <= i < |s.items|
      ensures s.items[i].tree.id in ForestBeneath(OnIds(s.items), ts)
         <==> PatchNodeId(s.items[i].tree.id) in ForestBeneath(On(nodes), PatchAll(ts))
    {
      SceneBeneath(ctx, s, version, s.items[i].tree.id);
    }
    GrownReturns(ctx, base, AttachAll(base, PatchAll(ts)), s.items, version,
                 ForestBeneath(OnIds(s.items), ts), ForestBeneath(On(nodes), PatchAll(ts)));
  }

  lemma {:induction false} ForestBeneathLinked(on: set<NodeId>, ts: seq<Tree>)
    ensures ForestBeneath(on, ts) <= Linked(ts)
  {
    hide Beneath, Ids;
    if ts != [] {
      BeneathBelow(on, ts[0]);
      IdsOf(ts[0]);
      if ts[0].kids.Nil? {
        ChildlessBeneath(on, ts[0]);
      }
      ForestBeneathLinked(on, ts[1..]);
    }
  }

  lemma MirroredKnown(nodes: map<NodeId, Node>, ids: set<NodeId>, original: set<NodeId>)
    requires Mirrors(ids, original) && Unpatched(original)
    requires forall x :: x in original ==> PatchNodeId(x) in nodes
    ensures ids <= nodes.Keys
  {
    hide PatchNodeId;
    forall y | y in ids
      ensures y in nodes
    {
      PatchMirrors(y - BIT_62);
    }
  }

  /** The smallest scene with a link: a canvas under the global root, beside the fallback node that
      shares the root's id. */
  function SmallScene(fallback: Node, canvas: Node): Scene {
    Scene([Item(fallback, Tree(0, Nil), false), Item(canvas, LEAF, true)], Tree(0, Alive(LEAF, Nil)))
  }

  const LEAF := Tree(0x1_0000_0005, Nil)

  /** It is regular for any two nodes that fit. */
  lemma RegularSceneExists(fallback: Node, canvas: Node)
    requires fallback.Fits() && canvas.Fits()
    ensures var s := SmallScene(fallback, canvas);
      Regular(s) && (ForestHarmonious(OnIds(s.items), Trees(s)) <==> (fallback.onTree ==> canvas.onTree))
  {
    hide Node.Fits, OnIds;
    var s := SmallScene(fallback, canvas);
    var items, ts, root := s.items, Trees(s), s.root;
    assert items[0].tree.id == 0 && items[1].tree.id == LEAF.id;
    assert Registered(items, 0) && Registered(items, LEAF.id);
    SmallTrees(fallback, canvas);
    assert ts[1..] == [Tree(0, Nil)] && ts[1..][1..] == [];
    assert Linked(ts[1..]) == {} && Linked(ts) == {0, LEAF.id};
    assert ForestUnique(ts[1..]);
    assert Unique(root);
    TwoFlags(items);
    assert ts[0] == root && ts[1].kids.Nil?;
    assert Harmonious(OnIds(items), root) <==> (0 in OnIds(items) ==> LEAF.id in OnIds(items));
    assert ForestHarmonious(OnIds(items), ts) ==> Harmonious(OnIds(items), ts[0]);
  }

  lemma SmallTrees(fallback: Node, canvas: Node)
    ensures Trees(SmallScene(fallback, canvas)) == [SmallScene(fallback, canvas).root, Tree(0, Nil)]
  {
    var items := SmallScene(fallback, canvas).items;
    assert Orphans(items[1..]) == [] by {
      assert items[1..][1..] == [];
    }
    assert Orphans(items) == [Tree(0, Nil)];
  }

  /** An off-tree canvas under an on-tree fallback node does not come back as recorded: it is on the
      tree, with the patched ids of the fallback node. */
  lemma OffTreeCanvasJoins(fallback: Node, canvas: Node, version: u32)
    requires fallback.Fits() && canvas.Fits() && fallback.onTree && !canvas.onTree && canvas.nodeType == CANVAS_NODE
    ensures var s := SmallScene(fallback, canvas);
      var r := ReadScene(Context(map[], map[], map[]), EncScene(s, version), 0, version);
      var key := PatchNodeId(LEAF.id);
      && Regular(s) && r.Parsed? && !NodesRebuilt(map[], r.value.nodes, s.items, version)
      && key in r.value.nodes && r.value.nodes[key].onTree
      && r.value.nodes[key].instanceRoot == PatchNodeId(fallback.instanceRoot)
      && r.value.nodes[key].firstLevel == PatchNodeId(fallback.firstLevel)
  {
    hide Node.Fits, EncScene, ReadScene, NodesRebuilt, OnIds, ForestHarmonious, Regular, PatchNodeId, SmallScene,
      LinksRebuilt, NodesReturned, ForestBeneath;
    var s := SmallScene(fallback, canvas);
    var empty := Context(map[], map[], map[]);
    RegularSceneExists(fallback, canvas);
    SceneRoundTrip(empty, EncScene(s, version), 0, s, version);
    CanvasJoins(fallback, canvas, version, ReadScene(empty, EncScene(s, version), 0, version).value);
  }

  lemma CanvasJoins(fallback: Node, canvas: Node, version: u32, after: Context)
    requires fallback.onTree && !canvas.onTree && canvas.nodeType == CANVAS_NODE
    requires var s := SmallScene(fallback, canvas);
      && LinksRebuilt(Context(map[], map[], map[]), after, Trees(s))
      && NodesReturned(map[], after, s.items, version, ForestBeneath(OnIds(s.items), Trees(s)))
    ensures var key := PatchNodeId(LEAF.id);
      && key in after.nodes && after.nodes[key].onTree
      && after.nodes[key].instanceRoot == PatchNodeId(fallback.instanceRoot)
      && after.nodes[key].firstLevel == PatchNodeId(fallback.firstLevel)
  {
    hide PatchNodeId, OnIds;
    var s := SmallScene(fallback, canvas);
    var ts := Trees(s);
    SmallTrees(fallback, canvas);
    TwoFlags(s.items);
    assert ts[0] == s.root;
    assert LEAF.id in Beneath(OnIds(s.items), ts[0]);
    assert Shape(after, PatchTree(ts[0]));
    assert NodeReturned(after, s.items[0], version, ForestBeneath(OnIds(s.items), ts));
    assert NodeReturned(after, s.items[1], version, ForestBeneath(OnIds(s.items), ts));
  }

  lemma TwoFlags(items: seq<Item>)
    requires |items| == 2 && items[0].tree.id == 0 && items[1].tree.id == LEAF.id
    ensures 0 in OnIds(items) <==> items[0].node.onTree
    ensures LEAF.id in OnIds(items) <==> items[1].node.onTree
  {
    if items[0].node.onTree {
      assert items[0].tree.id in OnIds(items);
    }
    if items[1].node.onTree {
      assert items[1].tree.id in OnIds(items);
    }
  }

  lemma MirroredFresh(ctx: Context, nodes: map<NodeId, Node>, ids: set<NodeId>, original: set<NodeId>)
    requires Plain(ctx) && Mirrors(ids, original) && Unpatched(original)
    requires forall x :: x in original ==> PatchNodeId(x) in nodes
    ensures Fresh(ctx.(nodes := nodes), ids, ids)
  {
    hide PatchNodeId;
    forall y | y in ids
      ensures y in nodes
    {
      PatchMirrors(y - BIT_62);
    }
  }

  // --- mock nodes vanish ---------------------------------------------------------------------------------------

  function OfPids(nodes: map<NodeId, Node>, pids: set<Pid>): set<NodeId> {
    set x | x in nodes && ExtractPid(x) in pids
  }

  /** The process ids of patched nodes. */
  function MockPids(nodes: map<NodeId, Node>): set<Pid> {
    set x | x in nodes && IsNodeIdPatched(x) :: ExtractPid(x)
  }

  /** An order in which `FilterMockNode` may remove nodes: all nodes of those processes. */
  ghost predicate MockOrder(nodes: map<NodeId, Node>, order: seq<NodeId>) {
    forall x :: x in order <==> x in OfPids(nodes, MockPids(nodes))
  }

  /** Filtering by process meets the patched nodes and no others. */
  lemma MockOrderIsPatched(nodes: map<NodeId, Node>, x: NodeId)
    ensures x in OfPids(nodes, MockPids(nodes)) <==> x in nodes && IsNodeIdPatched(x)
  {
    var pids := MockPids(nodes);
    if x in nodes && ExtractPid(x) in pids {
      var y :| y in nodes && IsNodeIdPatched(y) && ExtractPid(y) == ExtractPid(x);
      PatchedByPid(x);
      PatchedByPid(y);
    }
  }

  /** Whatever the map holds, and in whatever order, the patched nodes are removed and no others. */
  lemma FilterRemovesPatched(ctx: Context, order: seq<NodeId>, x: NodeId)
    requires MockOrder(ctx.nodes, order)
    ensures x in EraseAll(ctx, order).nodes <==> x in ctx.nodes && !IsNodeIdPatched(x)
  {
    hide EraseAll, IsNodeIdPatched, OfPids, MockPids;
    ErasedKeys(ctx, order, x);
    MockOrderIsPatched(ctx.nodes, x);
  }

  /** A context that differs from a plain one by mock nodes, which are linked among themselves. */
  ghost predicate Mocked(base: Context, ctx: Context) {
    && SamePlain(base, ctx)
    && (forall x :: IsNodeIdPatched(x) && x in ctx.children ==> x in ctx.nodes && AllPatched(ctx.children[x]))
    && (forall x :: IsNodeIdPatched(x) && x in ctx.parent ==>
          x in ctx.nodes && IsNodeIdPatched(ctx.parent[x]) && ctx.parent[x] in ctx.nodes)
  }

  ghost predicate SamePlain(base: Context, ctx: Context) {
    forall x :: !IsNodeIdPatched(x) ==>
      && (x in ctx.nodes <==> x in base.nodes) && (x in base.nodes ==> ctx.nodes[x] == base.nodes[x])
      && (x in ctx.children <==> x in base.children) && (x in base.children ==> ctx.children[x] == base.children[x])
      && (x in ctx.parent <==> x in base.parent) && (x in base.parent ==> ctx.parent[x] == base.parent[x])
  }

  ghost predicate AllPatched(ids: seq<NodeId>) {
    forall c :: c in ids ==> IsNodeIdPatched(c)
  }

  lemma {:induction false} NodesMocked(base: Context, ctx: Context, b: bytes, off: nat, count: nat, version: u32)
    requires Mocked(base, ctx) && ReadNodes(ctx.nodes, b, off, count, version).Parsed?
    ensures Mocked(base, ctx.(nodes := ReadNodes(ctx.nodes, b, off, count, version).value))
    decreases count
  {
    hide DecNode, Onto, Created, PatchNodeId, IsNodeIdPatched, Mocked;
    if count > 0 {
      var record := DecNode(b, off, version);
      PatchIsMockPid(record.value.0);
      var nodes := Register(ctx.nodes, record.value.0, record.value.1);
      NodeMocked(base, ctx, PatchNodeId(record.value.0), nodes[PatchNodeId(record.value.0)]);
      NodesMocked(base, ctx.(nodes := nodes), b, record.next, count - 1, version);
    }
  }

  lemma NodeMocked(base: Context, ctx: Context, x: NodeId, n: Node)
    requires Mocked(base, ctx) && IsNodeIdPatched(x)
    ensures Mocked(base, ctx.(nodes := ctx.nodes[x := n]))
  {
    hide IsNodeIdPatched, AllPatched;
  }

  lemma KidsPatched(base: Context, ctx: Context, x: NodeId)
    requires Mocked(base, ctx) && IsNodeIdPatched(x)
    ensures AllPatched(ctx.Kids(x))
  {
  }

  lemma {:induction false} SetTreeMocked(base: Context, ctx: Context, x: NodeId, flag: bool, root: NodeId, level: NodeId)
    requires Mocked(base, ctx) && IsNodeIdPatched(x)
    ensures Mocked(base, SetTree(ctx, x, flag, root, level))
    decreases Unlike(ctx.nodes, flag), 0
  {
    hide Mocked, Inherit, SetTrees, IsNodeIdPatched;
    if x in ctx.nodes && ctx.nodes[x].onTree != flag {
      var (r, l) := Inherit(ctx, x, root, level);
      var marked := Mark(ctx, x, flag, r, l);
      NodeMocked(base, ctx, x, marked.nodes[x]);
      KidsPatched(base, marked, x);
      SetTreesMocked(base, marked, marked.Kids(x), flag, r, l);
    }
  }

  lemma {:induction false} SetTreesMocked(base: Context, ctx: Context, ids: seq<NodeId>, flag: bool, root: NodeId, level: NodeId)
    requires Mocked(base, ctx) && AllPatched(ids)
    ensures Mocked(base, SetTrees(ctx, ids, flag, root, level))
    decreases Unlike(ctx.nodes, flag), 1 + |ids|
  {
    hide Mocked, SetTree, IsNodeIdPatched;
    if ids != [] {
      SetTreeMocked(base, ctx, ids[0], flag, root, level);
      SetTreesMocked(base, SetTree(ctx, ids[0], flag, root, level), ids[1..], flag, root, level);
    }
  }

  lemma {:induction false} RemoveLeaves(ids: seq<NodeId>, c: NodeId)
    ensures forall x :: x in Remove(ids, c) ==> x in ids
  {
    if ids != [] && ids[0] != c {
      RemoveLeaves(ids[1..], c);
    }
  }

  lemma ListMocked(base: Context, ctx: Context, p: NodeId, kids: seq<NodeId>)
    requires Mocked(base, ctx) && IsNodeIdPatched(p) && p in ctx.nodes && AllPatched(kids)
    ensures Mocked(base, ctx.(children := ctx.children[p := kids]))
  {
    hide IsNodeIdPatched, AllPatched;
  }

  lemma ParentMocked(base: Context, ctx: Context, p: NodeId, c: NodeId)
    requires Mocked(base, ctx) && IsNodeIdPatched(p) && IsNodeIdPatched(c) && p in ctx.nodes && c in ctx.nodes
    ensures Mocked(base, ctx.(parent := ctx.parent[c := p]))
  {
    hide IsNodeIdPatched, AllPatched;
  }

  lemma OrphanMocked(base: Context, ctx: Context, c: NodeId)
    requires Mocked(base, ctx) && IsNodeIdPatched(c)
    ensures Mocked(base, ctx.(parent := ctx.parent - {c}))
  {
    hide IsNodeIdPatched, AllPatched;
  }

  lemma ParentPatched(base: Context, ctx: Context, c: NodeId)
    requires Mocked(base, ctx) && IsNodeIdPatched(c) && c in ctx.parent
    ensures IsNodeIdPatched(ctx.parent[c]) && ctx.parent[c] in ctx.nodes && AllPatched(ctx.Kids(ctx.parent[c]))
  {
  }

  lemma UnlinkMocked(base: Context, ctx: Context, c: NodeId)
    requires Mocked(base, ctx) && IsNodeIdPatched(c) && c in ctx.parent
    ensures Mocked(base, ctx.(children := ctx.children[ctx.parent[c] := Remove(ctx.Kids(ctx.parent[c]), c)],
                              parent := ctx.parent - {c}))
  {
    hide Remove, IsNodeIdPatched, Mocked;
    var p := ctx.parent[c];
    ParentPatched(base, ctx, c);
    RemoveLeaves(ctx.Kids(p), c);
    ListMocked(base, ctx, p, Remove(ctx.Kids(p), c));
    OrphanMocked(base, ctx.(children := ctx.children[p := Remove(ctx.Kids(p), c)]), c);
  }

  lemma DetachMocked(base: Context, ctx: Context, c: NodeId)
    requires Mocked(base, ctx) && IsNodeIdPatched(c)
    ensures Mocked(base, Detach(ctx, c))
  {
    hide Remove, IsNodeIdPatched, SetTree, Mocked;
    if c in ctx.parent && c in ctx.Kids(ctx.parent[c]) {
      SetTreeMocked(base, ctx, c, false, INVALID_NODEID, INVALID_NODEID);
      UnlinkMocked(base, SetTree(ctx, c, false, INVALID_NODEID, INVALID_NODEID), c);
    }
  }

  lemma InsertAdds(ids: seq<NodeId>, c: NodeId, index: nat)
    ensures forall x :: x in Insert(ids, c, index) ==> x in ids || x == c
  {
  }

  lemma LinkMocked(base: Context, ctx: Context, p: NodeId, c: NodeId, index: nat)
    requires Mocked(base, ctx) && IsNodeIdPatched(p) && IsNodeIdPatched(c) && p in ctx.nodes && c in ctx.nodes
    ensures Mocked(base, Link(ctx, p, c, index))
  {
    hide IsNodeIdPatched, Insert, Mocked;
    KidsPatched(base, ctx, p);
    InsertAdds(ctx.Kids(p), c, index);
    ListMocked(base, ctx, p, Insert(ctx.Kids(p), c, index));
    ParentMocked(base, ctx.(children := ctx.children[p := Insert(ctx.Kids(p), c, index)]), p, c);
  }

  lemma AddMocked(base: Context, ctx: Context, p: NodeId, c: NodeId, i: nat)
    requires Mocked(base, ctx) && IsNodeIdPatched(p) && IsNodeIdPatched(c) && p in ctx.nodes
    ensures Mocked(base, AddChild(ctx, p, c, i))
  {
    hide Detach, Link, SetTree, IsNodeIdPatched, Mocked;
    if c in ctx.nodes && c != p {
      DetachMocked(base, ctx, c);
      LinkMocked(base, Detach(ctx, c), p, c, i);
      var linked := Link(Detach(ctx, c), p, c, i);
      if p in linked.nodes {
        SetTreeMocked(base, linked, c, true, linked.nodes[p].instanceRoot, linked.nodes[p].firstLevel);
      }
    }
  }

  lemma {:induction false} TreeMocked(base: Context, ctx: Context, b: bytes, off: nat)
    requires Mocked(base, ctx) && ReadTree(ctx, b, off).Parsed?
    ensures Mocked(base, ReadTree(ctx, b, off).value)
    decreases |b| - off, 1, 0
  {
    hide Mocked, DecU64, DecU32, ReadKids, PatchNodeId;
    PatchIsMockPid(DecU64(b, off).value);
    KidsMocked(base, ctx, b, off + 12, PatchNodeId(DecU64(b, off).value), 0, DecU32(b, off + 8).value);
  }

  lemma {:induction false} KidsMocked(base: Context, ctx: Context, b: bytes, off: nat, p: NodeId, i: nat, count: nat)
    requires Mocked(base, ctx) && IsNodeIdPatched(p)
    requires i <= count && off <= |b| && ReadKids(ctx, b, off, p, i, count).Parsed?
    ensures Mocked(base, ReadKids(ctx, b, off, p, i, count).value)
    decreases |b| - off, 2, count - i
  {
    hide Mocked, DecU64, ReadTree, PatchNodeId, AddChild, IsNodeIdPatched;
    if i < count {
      var c := PatchNodeId(DecU64(b, off).value);
      PatchIsMockPid(DecU64(b, off).value);
      AddMocked(base, ctx, p, c, i);
      var added := AddChild(ctx, p, c, i);
      TreeMocked(base, added, b, off + 8);
      var r := ReadTree(added, b, off + 8);
      KidsMocked(base, r.value, b, r.next, p, i + 1, count);
    }
  }

  lemma {:induction false} TreesMocked(base: Context, ctx: Context, b: bytes, off: nat, count: nat)
    requires Mocked(base, ctx) && ReadTrees(ctx, b, off, count).Parsed?
    ensures Mocked(base, ReadTrees(ctx, b, off, count).value)
    decreases count
  {
    hide Mocked, ReadTree;
    if count > 0 {
      TreeMocked(base, ctx, b, off);
      var r := ReadTree(ctx, b, off);
      TreesMocked(base, r.value, b, r.next, count - 1);
    }
  }

  /** Whatever bytes are read, mock nodes are linked among themselves only, and plain ones are as
      they were. */
  lemma SceneMocked(ctx: Context, b: bytes, off: nat, version: u32)
    requires Plain(ctx) && ReadScene(ctx, b, off, version).Parsed?
    ensures Mocked(ctx, ReadScene(ctx, b, off, version).value)
  {
    hide IsNodeIdPatched, DecU32, ReadNodes, ReadTrees;
    var count := DecU32(b, off);
    NodesMocked(ctx, ctx, b, count.next, count.value, version);
    var nodes := ReadNodes(ctx.nodes, b, count.next, count.value, version);
    var trees := DecU32(b, nodes.next);
    TreesMocked(ctx, ctx.(nodes := nodes.value), b, trees.next, trees.value);
  }

  /** The parts of `Erase` that follow the flags. */
  function Cut(ctx: Context, x: NodeId): Context {
    Context(map y | y in ctx.nodes && y != x :: ctx.nodes[y],
            map p | p in ctx.children && p != x :: Drop(ctx.children[p], x),
            map c | c in ctx.parent && c != x && ctx.parent[c] != x :: ctx.parent[c])
  }

  lemma CutKeepsPlain(base: Context, ctx: Context, x: NodeId)
    requires Plain(base) && SamePlain(base, ctx) && IsNodeIdPatched(x)
    ensures SamePlain(base, Cut(ctx, x))
  {
    hide IsNodeIdPatched, Drop;
    forall p | p in base.children
      ensures Drop(base.children[p], x) == base.children[p]
    {
      DropNone(base.children[p], x);
    }
  }

  lemma DropPatched(ids: seq<NodeId>, x: NodeId)
    requires AllPatched(ids)
    ensures AllPatched(Drop(ids, x))
  {
    hide IsNodeIdPatched;
    forall c | c in Drop(ids, x)
      ensures IsNodeIdPatched(c)
    {
      DropLeaves(ids, x, c);
    }
  }

  lemma CutMocked(base: Context, ctx: Context, x: NodeId)
    requires Plain(base) && Mocked(base, ctx) && IsNodeIdPatched(x)
    ensures Mocked(base, Cut(ctx, x))
  {
    hide IsNodeIdPatched, Drop, SamePlain, AllPatched, Plain;
    CutKeepsPlain(base, ctx, x);
    forall p | p in ctx.children && IsNodeIdPatched(p)
      ensures AllPatched(Drop(ctx.children[p], x))
    {
      DropPatched(ctx.children[p], x);
    }
  }

  lemma EraseMocked(base: Context, ctx: Context, x: NodeId)
    requires Plain(base) && Mocked(base, ctx) && IsNodeIdPatched(x)
    ensures Mocked(base, Erase(ctx, x))
  {
    hide IsNodeIdPatched, SetTree, Mocked, Drop, Plain;
    if x in ctx.parent {
      SetTreeMocked(base, ctx, x, false, INVALID_NODEID, INVALID_NODEID);
      CutMocked(base, SetTree(ctx, x, false, INVALID_NODEID, INVALID_NODEID), x);
    } else {
      CutMocked(base, ctx, x);
    }
  }

  lemma {:induction false} EraseAllMocked(base: Context, ctx: Context, order: seq<NodeId>)
    requires Plain(base) && Mocked(base, ctx) && AllPatched(order)
    ensures Mocked(base, EraseAll(ctx, order))
    decreases |order|
  {
    hide Mocked, Erase, Plain, IsNodeIdPatched;
    if order != [] {
      var n := |order| - 1;
      EraseAllMocked(base, ctx, order[..n]);
      EraseMocked(base, EraseAll(ctx, order[..n]), order[n]);
    }
  }

  lemma NothingMocked(base: Context, ctx: Context)
    requires Plain(base) && Mocked(base, ctx) && forall x :: x in ctx.nodes ==> !IsNodeIdPatched(x)
    ensures ctx == base
  {
    hide IsNodeIdPatched, AllPatched;
    assert ctx.nodes == base.nodes;
    assert ctx.children == base.children;
    assert ctx.parent == base.parent;
  }

  /** Whatever is read, from any bytes, removing the mock nodes afterwards, in any order, restores
      nodes, children and parents exactly. */
  lemma MockNodesVanish(ctx: Context, b: bytes, off: nat, version: u32, order: seq<NodeId>)
    requires Plain(ctx) && ReadScene(ctx, b, off, version).Parsed?
    requires MockOrder(ReadScene(ctx, b, off, version).value.nodes, order)
    ensures EraseAll(ReadScene(ctx, b, off, version).value, order) == ctx
  {
    hide IsNodeIdPatched, ReadScene, Mocked, EraseAll, OfPids, MockPids, Plain;
    var r := ReadScene(ctx, b, off, version).value;
    SceneMocked(ctx, b, off, version);
    forall x | x in order
      ensures IsNodeIdPatched(x)
    {
      MockOrderIsPatched(r.nodes, x);
    }
    EraseAllMocked(ctx, r, order);
    forall x: NodeId
      ensures x in EraseAll(r, order).nodes ==> !IsNodeIdPatched(x)
    {
      FilterRemovesPatched(r, order, x);
    }
    NothingMocked(ctx, EraseAll(r, order));
  }
}
