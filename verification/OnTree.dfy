/** Being on the tree, through a whole reading: which nodes come onto it, what they take from their
    parents, and when every node stays as its record says. */
module OnTree {
  import opened NodeIds
  import opened NodeRecord
  import opened RenderTree
  import opened Forest

  /** The nodes that are on the tree. */
  ghost function On(nodes: map<NodeId, Node>): set<NodeId> {
    set x | x in nodes && nodes[x].onTree
  }

  /** No node that is off the tree is listed under one that is on it. */
  ghost predicate Harmonious(on: set<NodeId>, t: Tree)
    decreases t
  {
    KidsHarmonious(on, t.id, t.kids)
  }

  ghost predicate KidsHarmonious(on: set<NodeId>, p: NodeId, k: Kids)
    decreases k
  {
    match k
    case Nil => true
    case Alive(child, rest) => (p in on ==> child.id in on) && Harmonious(on, child) && KidsHarmonious(on, p, rest)
    case Expired(rest) => KidsHarmonious(on, p, rest)
  }

  /** What is listed anywhere below a node that is on the tree. */
  ghost function Beneath(on: set<NodeId>, t: Tree): set<NodeId>
    decreases t
  {
    if t.id in on then Below(t.kids) else KidsBeneath(on, t.kids)
  }

  ghost function KidsBeneath(on: set<NodeId>, k: Kids): set<NodeId>
    decreases k
  {
    match k
    case Nil => {}
    case Alive(child, rest) => Beneath(on, child) + KidsBeneath(on, rest)
    case Expired(rest) => KidsBeneath(on, rest)
  }

  lemma {:induction false} BeneathBelow(on: set<NodeId>, t: Tree)
    ensures Beneath(on, t) <= Below(t.kids)
    decreases t
  {
    KidsBeneathBelow(on, t.kids);
  }

  lemma {:induction false} KidsBeneathBelow(on: set<NodeId>, k: Kids)
    ensures KidsBeneath(on, k) <= Below(k)
    decreases k
  {
    match k
    case Nil =>
    case Alive(child, rest) =>
      IdsOf(child);
      BeneathBelow(on, child);
      KidsBeneathBelow(on, rest);
    case Expired(rest) => KidsBeneathBelow(on, rest);
  }

  /** All of that is on the tree already exactly when every child of an on-tree node is. */
  lemma {:induction false} HarmoniousBeneath(on: set<NodeId>, t: Tree)
    ensures Harmonious(on, t) <==> Beneath(on, t) <= on
    decreases t
  {
    KidsHarmoniousBeneath(on, t.id, t.kids);
  }

  lemma {:induction false} KidsHarmoniousBeneath(on: set<NodeId>, p: NodeId, k: Kids)
    ensures KidsHarmonious(on, p, k) <==> (if p in on then Below(k) else KidsBeneath(on, k)) <= on
    decreases k
  {
    match k
    case Nil =>
    case Alive(child, rest) =>
      IdsOf(child);
      BeneathBelow(on, child);
      HarmoniousBeneath(on, child);
      KidsHarmoniousBeneath(on, p, rest);
    case Expired(rest) => KidsHarmoniousBeneath(on, p, rest);
  }

  /** Only the flags of its own nodes matter to a tree. */
  lemma {:induction false} BeneathAgrees(on: set<NodeId>, on': set<NodeId>, t: Tree)
    requires forall x :: x in Ids(t) ==> (x in on <==> x in on')
    ensures Beneath(on, t) == Beneath(on', t)
    decreases t
  {
    IdsOf(t);
    KidsBeneathAgree(on, on', t.kids);
  }

  lemma {:induction false} KidsBeneathAgree(on: set<NodeId>, on': set<NodeId>, k: Kids)
    requires forall x :: x in Below(k) ==> (x in on <==> x in on')
    ensures KidsBeneath(on, k) == KidsBeneath(on', k)
    decreases k
  {
    match k
    case Nil =>
    case Alive(child, rest) =>
      IdsOf(child);
      BeneathAgrees(on, on', child);
      KidsBeneathAgree(on, on', rest);
    case Expired(rest) => KidsBeneathAgree(on, on', rest);
  }

  // --- how nodes come onto the tree -------------------------------------------------------------------

  /** A node that came onto the tree has a parent that is on it and takes its ids from that; nothing
      else of it changed. */
  ghost predicate Joined(n: Node, ctx: Context, x: NodeId) {
    && x in ctx.nodes && x in ctx.parent && ctx.parent[x] in ctx.nodes
    && ctx.nodes[ctx.parent[x]].onTree && TakesIds(ctx.nodes[x], x, ctx.nodes[ctx.parent[x]])
    && ctx.nodes[x] == n.(onTree := true, instanceRoot := ctx.nodes[x].instanceRoot, firstLevel := ctx.nodes[x].firstLevel)
  }

  /** Every node is as it was, or came onto the tree; nothing lost its parent. */
  ghost predicate Grown(ctx: Context, ctx': Context) {
    && ctx'.nodes.Keys == ctx.nodes.Keys
    && (forall x :: x in ctx.parent ==> x in ctx'.parent && ctx'.parent[x] == ctx.parent[x])
    && (forall x :: x in ctx.nodes ==>
          if !ctx.nodes[x].onTree && ctx'.nodes[x].onTree then Joined(ctx.nodes[x], ctx', x)
          else ctx'.nodes[x] == ctx.nodes[x])
  }

  lemma GrownTwice(a: Context, b: Context, c: Context)
    requires Grown(a, b) && Grown(b, c)
    ensures Grown(a, c)
  {
    forall x | x in a.nodes
      ensures if !a.nodes[x].onTree && c.nodes[x].onTree then Joined(a.nodes[x], c, x) else c.nodes[x] == a.nodes[x]
    {
      if !a.nodes[x].onTree && b.nodes[x].onTree {
        assert Joined(a.nodes[x], b, x);
        assert c.nodes[b.parent[x]] == b.nodes[b.parent[x]];
        assert c.nodes[x] == b.nodes[x];
      }
    }
  }

  lemma GrownSelf(ctx: Context)
    ensures Grown(ctx, ctx)
  {
  }

  lemma GrownSame(ctx: Context, ctx': Context)
    requires Grown(ctx, ctx')
    ensures On(ctx.nodes) <= On(ctx'.nodes) && ctx'.nodes.Keys == ctx.nodes.Keys
    ensures ctx'.nodes == ctx.nodes <==> On(ctx'.nodes) == On(ctx.nodes)
  {
    if On(ctx'.nodes) == On(ctx.nodes) {
      forall x | x in ctx.nodes
        ensures ctx'.nodes[x] == ctx.nodes[x]
      {
        assert x in On(ctx'.nodes) <==> x in On(ctx.nodes);
      }
    }
  }

  lemma OnIs(nodes: map<NodeId, Node>, x: NodeId)
    ensures x in On(nodes) <==> x in nodes && nodes[x].onTree
  {
  }

  lemma LinkGrows(ctx: Context, linked: Context)
    requires linked.nodes == ctx.nodes
    requires forall x :: x in ctx.parent ==> x in linked.parent && linked.parent[x] == ctx.parent[x]
    ensures Grown(ctx, linked)
  {
  }

  lemma MarkGrows(ctx: Context, p: NodeId, c: NodeId)
    requires p in ctx.nodes && c in ctx.nodes && c != p && c in ctx.parent && ctx.parent[c] == p
    requires ctx.nodes[p].onTree && !ctx.nodes[c].onTree
    ensures var (root, level) := Inherit(ctx, c, ctx.nodes[p].instanceRoot, ctx.nodes[p].firstLevel);
      var marked := Mark(ctx, c, true, root, level);
      Grown(ctx, marked) && On(marked.nodes) == On(ctx.nodes) + {c}
  {
    hide Unlike;
  }

  /** A child without links of its own comes onto the tree exactly when its parent is on it. */
  lemma AddGrows(ctx: Context, p: NodeId, c: NodeId, i: nat)
    requires p in ctx.nodes && c in ctx.nodes && c != p && c !in ctx.parent && ctx.Kids(c) == []
    ensures Grown(ctx, AddChild(ctx, p, c, i))
    ensures On(AddChild(ctx, p, c, i).nodes) == On(ctx.nodes) + (if p in On(ctx.nodes) then {c} else {})
  {
    hide SetTree, Insert, Grown, On;
    var linked := Link(ctx, p, c, i);
    assert linked.Kids(c) == [] && linked.nodes == ctx.nodes;
    LinkGrows(ctx, linked);
    var root, level := ctx.nodes[p].instanceRoot, ctx.nodes[p].firstLevel;
    assert p in On(ctx.nodes) <==> ctx.nodes[p].onTree by { OnIs(ctx.nodes, p); }
    if ctx.nodes[p].onTree {
      SetTreeAlike(linked, c, true, root, level);
      OnIs(ctx.nodes, c);
      if !ctx.nodes[c].onTree {
        MarkGrows(linked, p, c);
        GrownTwice(ctx, linked, AddChild(ctx, p, c, i));
      }
    }
  }

  // --- whole subtrees -----------------------------------------------------------------------------------

  lemma SameShape(ctx: Context, ctx': Context, t: Tree)
    requires Shape(ctx, t) && ctx'.children == ctx.children && ctx'.parent == ctx.parent
    ensures Shape(ctx', t)
  {
    ShapeFrame(ctx, ctx', t);
  }

  /** The state is passed down to a whole subtree, every node of it taking its ids from its own parent
      in turn. */
  lemma {:induction false} SetTreeGrows(ctx: Context, t: Tree, p: NodeId)
    requires Shape(ctx, t) && t.id in ctx.parent && ctx.parent[t.id] == p && p in ctx.nodes && ctx.nodes[p].onTree
    ensures Grown(ctx, SetTree(ctx, t.id, true, ctx.nodes[p].instanceRoot, ctx.nodes[p].firstLevel))
    decreases t, 1
  {
    hide Inherit, SetTrees, Grown;
    GrownSelf(ctx);
    if t.id in ctx.nodes && !ctx.nodes[t.id].onTree {
      var (root, level) := Inherit(ctx, t.id, ctx.nodes[p].instanceRoot, ctx.nodes[p].firstLevel);
      var marked := Mark(ctx, t.id, true, root, level);
      MarkGrows(ctx, p, t.id);
      SameShape(ctx, marked, t);
      SetTreesGrow(marked, t.id, t.kids);
      GrownTwice(ctx, marked, SetTrees(marked, KidIds(t.kids), true, root, level));
    }
  }

  lemma {:induction false} SetTreesGrow(ctx: Context, p: NodeId, k: Kids)
    requires KidsShape(ctx, p, k) && p in ctx.nodes && ctx.nodes[p].onTree
    ensures Grown(ctx, SetTrees(ctx, KidIds(k), true, ctx.nodes[p].instanceRoot, ctx.nodes[p].firstLevel))
    decreases k, 0
  {
    hide SetTree, Grown, Shape;
    var root, level := ctx.nodes[p].instanceRoot, ctx.nodes[p].firstLevel;
    match k
    case Nil => GrownSelf(ctx);
    case Alive(child, rest) =>
      var first := SetTree(ctx, child.id, true, root, level);
      SetTreeGrows(ctx, child, p);
      KidsShapeFrame(ctx, first, p, rest);
      assert first.nodes[p] == ctx.nodes[p] by { GrownKeeps(ctx, first, p); }
      assert KidIds(k)[1..] == KidIds(rest);
      SetTreesGrow(first, p, rest);
      GrownTwice(ctx, first, SetTrees(first, KidIds(rest), true, root, level));
    case Expired(rest) => SetTreesGrow(ctx, p, rest);
  }

  lemma GrownKeeps(ctx: Context, ctx': Context, x: NodeId)
    requires Grown(ctx, ctx') && x in ctx.nodes && ctx.nodes[x].onTree
    ensures x in ctx'.nodes && ctx'.nodes[x] == ctx.nodes[x]
  {
  }

  /** Adding a node with everything below it, under whatever parent. */
  lemma AddTreeGrows(ctx: Context, p: NodeId, t: Tree, i: nat)
    requires p in ctx.nodes && t.id in ctx.nodes && t.id != p && t.id !in ctx.parent && Shape(Link(ctx, p, t.id, i), t)
    ensures Grown(ctx, AddChild(ctx, p, t.id, i))
    ensures ctx.nodes[p].onTree ==> AddChild(ctx, p, t.id, i).nodes[t.id].onTree
  {
    hide SetTree, Insert, Grown;
    var linked := Link(ctx, p, t.id, i);
    LinkGrows(ctx, linked);
    AddChildFlag(ctx, p, t.id, i);
    if ctx.nodes[p].onTree {
      SetTreeGrows(linked, t, p);
      GrownTwice(ctx, linked, AddChild(ctx, p, t.id, i));
    }
  }

  /** A subtree that is off the tree comes onto it as a whole. */
  lemma {:induction false} SetTreeReaches(ctx: Context, t: Tree, root: NodeId, level: NodeId)
    requires Shape(ctx, t) && Unique(t) && forall x :: x in Ids(t) ==> x in ctx.nodes && !ctx.nodes[x].onTree
    ensures forall x :: x in Ids(t) ==> SetTree(ctx, t.id, true, root, level).nodes[x].onTree
    ensures forall x :: x in ctx.nodes && x !in Ids(t) ==> SetTree(ctx, t.id, true, root, level).nodes[x] == ctx.nodes[x]
    decreases t, 1
  {
    hide Inherit, SetTrees;
    IdsOf(t);
    var (r, l) := Inherit(ctx, t.id, root, level);
    var marked := Mark(ctx, t.id, true, r, l);
    SameShape(ctx, marked, t);
    SetTreesReach(marked, t.id, t.kids, r, l);
  }

  lemma {:induction false} SetTreesReach(ctx: Context, p: NodeId, k: Kids, root: NodeId, level: NodeId)
    requires KidsShape(ctx, p, k) && KidsUnique(k) && forall x :: x in Below(k) ==> x in ctx.nodes && !ctx.nodes[x].onTree
    ensures forall x :: x in Below(k) ==> SetTrees(ctx, KidIds(k), true, root, level).nodes[x].onTree
    ensures forall x :: x in ctx.nodes && x !in Below(k) ==> SetTrees(ctx, KidIds(k), true, root, level).nodes[x] == ctx.nodes[x]
    decreases k, 0
  {
    hide SetTree, Shape, Unique, Ids;
    match k
    case Nil =>
    case Alive(child, rest) =>
      var first := SetTree(ctx, child.id, true, root, level);
      SetTreeReaches(ctx, child, root, level);
      KidsShapeFrame(ctx, first, p, rest);
      assert KidIds(k)[1..] == KidIds(rest);
      SetTreesReach(first, p, rest, root, level);
    case Expired(rest) => SetTreesReach(ctx, p, rest, root, level);
  }

  // --- attaching ------------------------------------------------------------------------------------

  /** Attaching a tree of unlinked nodes brings onto the tree what is listed below the nodes that
      are on it, and nothing else. */
  lemma {:induction false} AttachGrows(ctx: Context, t: Tree)
    requires AllAlive(t) && Unique(t) && Fresh(ctx, Ids(t), Below(t.kids)) && t.id in ctx.nodes
    ensures Grown(ctx, Attach(ctx, t))
    ensures On(Attach(ctx, t).nodes) == On(ctx.nodes) + Beneath(On(ctx.nodes), t)
    decreases t
  {
    hide AttachKids, On, Grown;
    IdsOf(t);
    KidsAttachGrow(ctx, t.id, t.kids, 0);
  }

  lemma {:induction false} KidsAttachGrow(ctx: Context, p: NodeId, k: Kids, i: nat)
    requires KidsAlive(k) && KidsUnique(k) && p !in Below(k) && p in ctx.nodes
    requires Fresh(ctx, Below(k), Below(k)) && |ctx.Kids(p)| == i
    ensures var after := AttachKids(ctx, p, k, i);
      && Grown(ctx, after)
      && On(after.nodes) == On(ctx.nodes) + (if p in On(ctx.nodes) then Below(k) else KidsBeneath(On(ctx.nodes), k))
    decreases k
  {
    hide AddChild, Attach, Ids, Unique, Fresh, Elsewhere, On, Shape, KidsShape, Grown, Beneath;
    if k.Nil? {
      GrownSelf(ctx);
    } else {
      var child, rest := k.child, k.rest;
      IdsOf(child);
      var added := AddChild(ctx, p, child.id, i);
      FreshAt(ctx, Below(k), Below(k), child.id);
      AddFresh(ctx, p, child.id, i);
      AddGrows(ctx, p, child.id, i);
      UniqueRoot(child);
      StillFresh(ctx, added, {p}, {child.id}, Below(k), Ids(child), Below(child.kids));
      GrownSame(ctx, added);
      AttachShapes(added, child);
      AttachGrows(added, child);
      var mid := Attach(added, child);
      Together(ctx, added, mid, {p}, {child.id}, Ids(child), Below(child.kids));
      StillFresh(ctx, mid, {p} + Ids(child), {child.id} + Below(child.kids), Below(k), Below(rest), Below(rest));
      ElsewhereKids(added, mid, Ids(child), Below(child.kids), p);
      GrownSame(added, mid);
      KidsAttachGrow(mid, p, rest, i + 1);
      GrownTwice(ctx, added, mid);
      GrownTwice(ctx, mid, AttachKids(mid, p, rest, i + 1));
      ChildBeneath(On(ctx.nodes), p, child, rest, On(added.nodes), On(mid.nodes));
    }
  }

  /** One round: the child, what is below it, and the rest of the list. */
  lemma ChildBeneath(on: set<NodeId>, p: NodeId, child: Tree, rest: Kids, added: set<NodeId>, mid: set<NodeId>)
    requires added == on + (if p in on then {child.id} else {})
    requires mid == added + Beneath(added, child)
    requires Ids(child) !! Below(rest) && p !in Ids(child)
    ensures p in mid <==> p in on
    ensures mid + (if p in mid then Below(rest) else KidsBeneath(mid, rest))
         == on + (if p in on then Below(Alive(child, rest)) else KidsBeneath(on, Alive(child, rest)))
  {
    IdsOf(child);
    BeneathBelow(added, child);
    KidsBeneathAgree(on, mid, rest);
    if p in on {
      assert Beneath(added, child) == Below(child.kids);
      assert mid == on + Ids(child);
    } else {
      assert added == on;
    }
  }

  /** So nodes stay as they are exactly when no off-tree node is listed under an on-tree one. */
  lemma AttachKeepsIff(ctx: Context, t: Tree)
    requires AllAlive(t) && Unique(t) && Fresh(ctx, Ids(t), Below(t.kids)) && t.id in ctx.nodes
    ensures Attach(ctx, t).nodes == ctx.nodes <==> Harmonious(On(ctx.nodes), t)
  {
    hide Attach, On, Grown;
    AttachGrows(ctx, t);
    GrownSame(ctx, Attach(ctx, t));
    HarmoniousBeneath(On(ctx.nodes), t);
  }

  // --- patched trees -----------------------------------------------------------------------------------

  lemma {:induction false} HarmoniousPatched(on: set<NodeId>, on': set<NodeId>, t: Tree)
    requires forall x :: x in Ids(t) ==> (x in on <==> PatchNodeId(x) in on')
    ensures Harmonious(on, t) <==> Harmonious(on', PatchTree(t))
    decreases t
  {
    hide PatchNodeId;
    IdsOf(t);
    KidsHarmoniousPatched(on, on', t.id, t.kids);
  }

  lemma {:induction false} KidsHarmoniousPatched(on: set<NodeId>, on': set<NodeId>, p: NodeId, k: Kids)
    requires p in on <==> PatchNodeId(p) in on'
    requires forall x :: x in Below(k) ==> (x in on <==> PatchNodeId(x) in on')
    ensures KidsHarmonious(on, p, k) <==> KidsHarmonious(on', PatchNodeId(p), PatchKids(k))
    decreases k
  {
    hide PatchNodeId;
    match k
    case Nil =>
    case Alive(child, rest) =>
      IdsOf(child);
      PatchedId(child);
      HarmoniousPatched(on, on', child);
      KidsHarmoniousPatched(on, on', p, rest);
    case Expired(rest) => KidsHarmoniousPatched(on, on', p, rest);
  }
}
