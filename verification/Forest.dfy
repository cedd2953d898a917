/** The shape of the render forest: how it is written, and what reading it back attaches. */
module Forest {
  import opened Bytes
  import opened NodeIds
  import opened NodeRecord
  import opened RenderTree

  // --- data ---------------------------------------------------------------------------------

  /** A node and what its list of weak references to children yields. */
  datatype Tree = Tree(id: NodeId, kids: Kids)

  datatype Kids = Nil | Alive(child: Tree, rest: Kids) | Expired(rest: Kids)

  /** The size of the list, expired references included. */
  function Size(k: Kids): nat {
    match k
    case Nil => 0
    case Alive(_, rest) => 1 + Size(rest)
    case Expired(rest) => 1 + Size(rest)
  }

  predicate AllAlive(t: Tree) {
    KidsAlive(t.kids)
  }

  predicate KidsAlive(k: Kids) {
    match k
    case Nil => true
    case Alive(child, rest) => AllAlive(child) && KidsAlive(rest)
    case Expired(_) => false
  }

  /** Lists of children fit the count they are written with. */
  predicate Narrow(t: Tree) {
    Size(t.kids) < TWO_32 && KidsNarrow(t.kids)
  }

  predicate KidsNarrow(k: Kids) {
    match k
    case Nil => true
    case Alive(child, rest) => Narrow(child) && KidsNarrow(rest)
    case Expired(rest) => KidsNarrow(rest)
  }

  /** All ids below and including a node. */
  ghost function Ids(t: Tree): set<NodeId> {
    {t.id} + Below(t.kids)
  }

  ghost function Below(k: Kids): set<NodeId> {
    match k
    case Nil => {}
    case Alive(child, rest) => Ids(child) + Below(rest)
    case Expired(rest) => Below(rest)
  }

  /** No node is listed twice. */
  ghost predicate Unique(t: Tree) {
    t.id !in Below(t.kids) && KidsUnique(t.kids)
  }

  ghost predicate KidsUnique(k: Kids) {
    match k
    case Nil => true
    case Alive(child, rest) => Unique(child) && KidsUnique(rest) && Ids(child) !! Below(rest)
    case Expired(rest) => KidsUnique(rest)
  }

  function PatchTree(t: Tree): Tree {
    Tree(PatchNodeId(t.id), PatchKids(t.kids))
  }

  function PatchKids(k: Kids): Kids {
    match k
    case Nil => Nil
    case Alive(child, rest) => Alive(PatchTree(child), PatchKids(rest))
    case Expired(rest) => Expired(PatchKids(rest))
  }

  function KidIds(k: Kids): seq<NodeId> {
    match k
    case Nil => []
    case Alive(child, rest) => [child.id] + KidIds(rest)
    case Expired(rest) => KidIds(rest)
  }

  // --- writing -------------------------------------------------------------------------------------

  /** `MarshalTree`: the count covers expired children, the list does not. */
  function EncTree(t: Tree): (e: bytes)
    ensures |e| >= 12
  {
    EncU64(t.id) + (EncU32(Trunc32(Size(t.kids))) + EncKids(t.kids))
  }

  function EncKids(k: Kids): bytes {
    match k
    case Nil => []
    case Alive(child, rest) => EncU64(child.id) + (EncTree(child) + EncKids(rest))
    case Expired(rest) => EncKids(rest)
  }

  // --- reading -----------------------------------------------------------------------------------------

  /** `UnmarshalTree`; a listed child of a node that does not exist has no reading. */
  function ReadTree(ctx: Context, b: bytes, off: nat): (r: Parsed<Context>)
    ensures r.Parsed? ==> off + 12 <= r.next <= |b|
    decreases |b| - off, 1, 0
  {
    var (id, o) :- DecU64(b, off);
    var (count, o) :- DecU32(b, o);
    ReadKids(ctx, b, o, PatchNodeId(id), 0, count)
  }

  function ReadKids(ctx: Context, b: bytes, off: nat, p: NodeId, i: nat, count: nat): (r: Parsed<Context>)
    requires i <= count && off <= |b|
    ensures r.Parsed? ==> off <= r.next <= |b|
    decreases |b| - off, 2, count - i
  {
    if i == count then Parsed(ctx, off)
    else if p !in ctx.nodes then NoParse
    else
      var (c, o) :- DecU64(b, off);
      var (ctx, o) :- ReadTree(AddChild(ctx, p, PatchNodeId(c), i), b, o);
      ReadKids(ctx, b, o, p, i + 1, count)
  }

  // --- what is attached ------------------------------------------------------------------------------------

  /** The calls of `AddChild` for a tree, in order. */
  function Attach(ctx: Context, t: Tree): Context
    decreases t
  {
    AttachKids(ctx, t.id, t.kids, 0)
  }

  function AttachKids(ctx: Context, p: NodeId, k: Kids, i: nat): Context
    decreases k
  {
    match k
    case Nil => ctx
    case Alive(child, rest) => AttachKids(Attach(AddChild(ctx, p, child.id, i), child), p, rest, i + 1)
    case Expired(rest) => AttachKids(ctx, p, rest, i + 1)
  }

  /** Reading needs every node that has children, restored. */
  ghost predicate Resolves(known: set<NodeId>, t: Tree) {
    (t.kids.Nil? || PatchNodeId(t.id) in known) && KidsResolve(known, t.kids)
  }

  ghost predicate KidsResolve(known: set<NodeId>, k: Kids) {
    match k
    case Nil => true
    case Alive(child, rest) => Resolves(known, child) && KidsResolve(known, rest)
    case Expired(rest) => KidsResolve(known, rest)
  }

  lemma {:induction false} AttachKeepsKeys(ctx: Context, t: Tree)
    ensures Attach(ctx, t).nodes.Keys == ctx.nodes.Keys
    decreases t
  {
    hide AddChild;
    KidsKeepKeys(ctx, t.id, t.kids, 0);
  }

  lemma {:induction false} KidsKeepKeys(ctx: Context, p: NodeId, k: Kids, i: nat)
    ensures AttachKids(ctx, p, k, i).nodes.Keys == ctx.nodes.Keys
    decreases k
  {
    hide AddChild;
    match k
    case Nil =>
    case Alive(child, rest) =>
      AttachKeepsKeys(AddChild(ctx, p, child.id, i), child);
      KidsKeepKeys(Attach(AddChild(ctx, p, child.id, i), child), p, rest, i + 1);
    case Expired(rest) => KidsKeepKeys(ctx, p, rest, i + 1);
  }

  /** A tree whose children are all alive is read to its end, and reading it attaches the patched
      tree. */
  lemma {:induction false} TreeRead(ctx: Context, b: bytes, off: nat, t: Tree)
    requires At(b, off, EncTree(t)) && AllAlive(t) && Narrow(t) && Resolves(ctx.nodes.Keys, t)
    ensures ReadTree(ctx, b, off) == Parsed(Attach(ctx, PatchTree(t)), off + |EncTree(t)|)
    decreases t
  {
    hide At, EncU64, DecU64, EncU32, DecU32, PatchNodeId, AddChild, ReadKids, AttachKids;
    AtConcat(b, off, EncU64(t.id), EncU32(Size(t.kids)) + EncKids(t.kids));
    AtConcat(b, off + 8, EncU32(Size(t.kids)), EncKids(t.kids));
    U64RoundTrip(b, off, t.id);
    U32RoundTrip(b, off + 8, Size(t.kids));
    AtWithin(b, off + 12, EncKids(t.kids));
    KidsRead(ctx, b, off + 12, PatchNodeId(t.id), t.kids, 0, Size(t.kids));
  }

  lemma {:induction false} KidsRead(ctx: Context, b: bytes, off: nat, p: NodeId, k: Kids, i: nat, count: nat)
    requires At(b, off, EncKids(k)) && off <= |b| && count == i + Size(k)
    requires KidsAlive(k) && KidsNarrow(k) && KidsResolve(ctx.nodes.Keys, k) && (k.Nil? || p in ctx.nodes)
    ensures ReadKids(ctx, b, off, p, i, count) == Parsed(AttachKids(ctx, p, PatchKids(k), i), off + |EncKids(k)|)
    decreases k
  {
    hide At, EncU64, DecU64, PatchNodeId, AddChild, ReadTree, Attach, EncTree;
    if k.Alive? {
      var child, rest := k.child, k.rest;
      AtConcat(b, off, EncU64(child.id), EncTree(child) + EncKids(rest));
      AtConcat(b, off + 8, EncTree(child), EncKids(rest));
      U64RoundTrip(b, off, child.id);
      var added := AddChild(ctx, p, PatchNodeId(child.id), i);
      TreeRead(added, b, off + 8, child);
      AttachKeepsKeys(added, PatchTree(child));
      PatchedId(child);
      AtWithin(b, off + 8 + |EncTree(child)|, EncKids(rest));
      KidsRead(Attach(added, PatchTree(child)), b, off + 8 + |EncTree(child)|, p, rest, i + 1, count);
    }
  }

  lemma PatchedId(t: Tree)
    ensures PatchTree(t).id == PatchNodeId(t.id)
  {
  }

  // --- the shape that results --------------------------------------------------------------------------------

  /** The context links its nodes exactly as the tree does: every child list in order, every parent. */
  ghost predicate Shape(ctx: Context, t: Tree)
    decreases t
  {
    ctx.Kids(t.id) == KidIds(t.kids) && KidsShape(ctx, t.id, t.kids)
  }

  ghost predicate KidsShape(ctx: Context, p: NodeId, k: Kids)
    decreases k
  {
    match k
    case Nil => true
    case Alive(child, rest) =>
      child.id in ctx.parent && ctx.parent[child.id] == p && Shape(ctx, child) && KidsShape(ctx, p, rest)
    case Expired(rest) => KidsShape(ctx, p, rest)
  }

  /** Two contexts agree on the lists of `heads` and on the parents of `listed`. */
  ghost predicate SameLinks(ctx: Context, ctx': Context, heads: set<NodeId>, listed: set<NodeId>) {
    && (forall x :: x in heads ==> ctx.Kids(x) == ctx'.Kids(x))
    && (forall x :: x in listed ==> (x in ctx.parent <==> x in ctx'.parent)
                                    && (x in ctx.parent ==> ctx.parent[x] == ctx'.parent[x]))
  }

  lemma {:induction false} ShapeFrame(ctx: Context, ctx': Context, t: Tree)
    requires Shape(ctx, t) && SameLinks(ctx, ctx', Ids(t), Below(t.kids))
    ensures Shape(ctx', t)
    decreases t
  {
    hide Ids;
    assert t.id in Ids(t) && Below(t.kids) <= Ids(t) by { IdsOf(t); }
    KidsShapeFrame(ctx, ctx', t.id, t.kids);
  }

  lemma IdsOf(t: Tree)
    ensures t.id in Ids(t) && Below(t.kids) <= Ids(t)
  {
  }

  lemma {:induction false} KidsShapeFrame(ctx: Context, ctx': Context, p: NodeId, k: Kids)
    requires KidsShape(ctx, p, k) && SameLinks(ctx, ctx', Below(k), Below(k))
    ensures KidsShape(ctx', p, k)
    decreases k
  {
    match k
    case Nil =>
    case Alive(child, rest) =>
      IdsOf(child);
      ShapeFrame(ctx, ctx', child);
      KidsShapeFrame(ctx, ctx', p, rest);
    case Expired(rest) => KidsShapeFrame(ctx, ctx', p, rest);
  }

  /** Nothing is linked yet among `heads` and `listed`. */
  ghost predicate Fresh(ctx: Context, heads: set<NodeId>, listed: set<NodeId>) {
    && (forall x :: x in heads ==> ctx.Kids(x) == [])
    && (forall x :: x in listed ==> x in ctx.nodes && x !in ctx.parent)
  }

  /** Only nodes of `listed` came onto the tree, and none left it. */
  ghost predicate Raised(nodes: map<NodeId, Node>, nodes': map<NodeId, Node>, listed: set<NodeId>) {
    && Turned(nodes, nodes', true)
    && forall x :: x in nodes && x !in listed ==> nodes'[x] == nodes[x]
  }

  /** Links outside `heads` and `listed` are as before, and so are nodes outside `listed`. */
  ghost predicate Elsewhere(ctx: Context, ctx': Context, heads: set<NodeId>, listed: set<NodeId>) {
    && Raised(ctx.nodes, ctx'.nodes, listed)
    && (forall x :: x !in heads ==> ctx.Kids(x) == ctx'.Kids(x))
    && (forall x :: x !in listed ==> (x in ctx.parent <==> x in ctx'.parent)
                                     && (x in ctx.parent ==> ctx.parent[x] == ctx'.parent[x]))
  }

  lemma AddRaises(ctx: Context, p: NodeId, c: NodeId, i: nat)
    requires c in ctx.nodes && c !in ctx.parent && c != p && ctx.Kids(c) == []
    ensures Raised(ctx.nodes, AddChild(ctx, p, c, i).nodes, {c})
  {
    hide SetTree, Inherit, Insert;
    var linked := Link(ctx, p, c, i);
    assert linked.Kids(c) == [];
    NothingTurned(ctx.nodes, true);
    if p in ctx.nodes && ctx.nodes[p].onTree {
      SetTreeAlike(linked, c, true, ctx.nodes[p].instanceRoot, ctx.nodes[p].firstLevel);
    }
  }

  lemma AddFresh(ctx: Context, p: NodeId, c: NodeId, i: nat)
    requires c in ctx.nodes && c !in ctx.parent && c != p && i == |ctx.Kids(p)| && ctx.Kids(c) == []
    ensures var t := AddChild(ctx, p, c, i);
      t.Kids(p) == ctx.Kids(p) + [c] && c in t.parent && t.parent[c] == p && Elsewhere(ctx, t, {p}, {c})
  {
    hide SetTree, Raised;
    AddRaises(ctx, p, c, i);
  }

  /** Attaching a tree of unlinked nodes gives it its shape and touches nothing else. */
  lemma {:induction false} AttachShapes(ctx: Context, t: Tree)
    requires AllAlive(t) && Unique(t) && Fresh(ctx, Ids(t), Below(t.kids))
    ensures Shape(Attach(ctx, t), t) && Elsewhere(ctx, Attach(ctx, t), Ids(t), Below(t.kids))
    decreases t
  {
    hide AttachKids;
    IdsOf(t);
    KidsAttach(ctx, t.id, t.kids, 0);
  }

  lemma {:induction false} KidsAttach(ctx: Context, p: NodeId, k: Kids, i: nat)
    requires KidsAlive(k) && KidsUnique(k) && p !in Below(k)
    requires Fresh(ctx, Below(k), Below(k)) && |ctx.Kids(p)| == i
    ensures var after := AttachKids(ctx, p, k, i);
      && after.Kids(p) == ctx.Kids(p) + KidIds(k) && KidsShape(after, p, k)
      && Elsewhere(ctx, after, {p} + Below(k), Below(k))
    decreases k
  {
    hide AddChild, Attach, Ids, Shape, Unique, Fresh, Elsewhere, SameLinks;
    match k
    case Nil => NothingElsewhere(ctx, {p} + Below(k));
    case Alive(child, rest) =>
      IdsOf(child);
      var added := AddChild(ctx, p, child.id, i);
      FreshAt(ctx, Below(k), Below(k), child.id);
      AddFresh(ctx, p, child.id, i);
      UniqueRoot(child);
      StillFresh(ctx, added, {p}, {child.id}, Below(k), Ids(child), Below(child.kids));
      AttachShapes(added, child);
      var mid := Attach(added, child);
      Together(ctx, added, mid, {p}, {child.id}, Ids(child), Below(child.kids));
      StillFresh(ctx, mid, {p} + Ids(child), {child.id} + Below(child.kids), Below(k), Below(rest), Below(rest));
      ElsewhereKids(added, mid, Ids(child), Below(child.kids), p);
      KidsAttach(mid, p, rest, i + 1);
      var after := AttachKids(mid, p, rest, i + 1);
      assert ctx.Kids(p) + [child.id] + KidIds(rest) == ctx.Kids(p) + KidIds(k);
      ElsewhereSame(mid, after, {p} + Below(rest), Below(rest), Ids(child), Below(child.kids));
      ShapeFrame(mid, after, child);
      ElsewhereParent(added, mid, Ids(child), Below(child.kids), child.id);
      ElsewhereParent(mid, after, {p} + Below(rest), Below(rest), child.id);
      Together(ctx, mid, after, {p} + Ids(child), {child.id} + Below(child.kids), {p} + Below(rest), Below(rest));
      BelowAre(p, child, rest);
  }

  lemma BelowAre(p: NodeId, child: Tree, rest: Kids)
    ensures {p} + Ids(child) + ({p} + Below(rest)) == {p} + Below(Alive(child, rest))
    ensures {child.id} + Below(child.kids) + Below(rest) == Below(Alive(child, rest))
  {
  }

  lemma NothingElsewhere(ctx: Context, heads: set<NodeId>)
    ensures Elsewhere(ctx, ctx, heads, {})
  {
  }

  lemma FreshAt(ctx: Context, heads: set<NodeId>, listed: set<NodeId>, x: NodeId)
    requires Fresh(ctx, heads, listed) && x in listed && x in heads
    ensures x in ctx.nodes && x !in ctx.parent && ctx.Kids(x) == []
  {
  }

  /** Nodes that a change did not reach are as unlinked as before. */
  lemma StillFresh(ctx: Context, ctx': Context, heads: set<NodeId>, listed: set<NodeId>,
                   all: set<NodeId>, heads': set<NodeId>, listed': set<NodeId>)
    requires Fresh(ctx, all, all) && Elsewhere(ctx, ctx', heads, listed)
    requires heads' <= all && listed' <= all && heads' !! heads && listed' !! listed
    ensures Fresh(ctx', heads', listed')
  {
  }

  lemma ElsewhereKids(ctx: Context, ctx': Context, heads: set<NodeId>, listed: set<NodeId>, p: NodeId)
    requires Elsewhere(ctx, ctx', heads, listed) && p !in heads
    ensures ctx'.Kids(p) == ctx.Kids(p)
  {
  }

  lemma ElsewhereParent(ctx: Context, ctx': Context, heads: set<NodeId>, listed: set<NodeId>, c: NodeId)
    requires Elsewhere(ctx, ctx', heads, listed) && c !in listed && c in ctx.parent
    ensures c in ctx'.parent && ctx'.parent[c] == ctx.parent[c]
  {
  }

  lemma ElsewhereSame(ctx: Context, ctx': Context, heads: set<NodeId>, listed: set<NodeId>,
                      heads': set<NodeId>, listed': set<NodeId>)
    requires Elsewhere(ctx, ctx', heads, listed) && heads' !! heads && listed' !! listed
    ensures SameLinks(ctx, ctx', heads', listed')
  {
  }

  lemma Together(a: Context, b: Context, c: Context, heads: set<NodeId>, listed: set<NodeId>,
                 heads': set<NodeId>, listed': set<NodeId>)
    requires Elsewhere(a, b, heads, listed) && Elsewhere(b, c, heads', listed')
    ensures Elsewhere(a, c, heads + heads', listed + listed')
  {
  }

  lemma UniqueRoot(t: Tree)
    requires Unique(t)
    ensures t.id !in Below(t.kids)
  {
  }

  // --- where reading stops -------------------------------------------------------------------------------------

  /** References that are counted and not written, anywhere below. */
  function Missing(k: Kids): nat {
    match k
    case Nil => 0
    case Alive(child, rest) => Missing(child.kids) + Missing(rest)
    case Expired(rest) => 1 + Missing(rest)
  }

  /** The reader's position does not depend on who gets a child: `due` children are to be read, and
      each may announce more. */
  function Consume(b: bytes, off: nat, due: nat): (r: Parsed<()>)
    requires off <= |b|
    ensures r.Parsed? ==> off <= r.next <= |b| && (due > 0 ==> off < r.next)
    decreases |b| - off
  {
    if due == 0 then Parsed((), off)
    else
      var (_, o) :- DecU64(b, off);
      var (_, o) :- DecU64(b, o);
      var (count, o) :- DecU32(b, o);
      Consume(b, o, due - 1 + count)
  }

  lemma ConsumeOne(b: bytes, off: nat, due: nat, count: u32)
    requires off + 20 <= |b| && due > 0 && DecU32(b, off + 16) == Parsed(count, off + 20)
    ensures Consume(b, off, due) == Consume(b, off + 20, due - 1 + count)
  {
    assert DecU64(b, off).Parsed? && DecU64(b, off + 8).Parsed?;
  }

  lemma {:induction false} TreeConsumes(ctx: Context, b: bytes, off: nat, due: nat)
    requires off + 12 <= |b| && ReadTree(ctx, b, off).Parsed?
    ensures Consume(b, off + 12, DecU32(b, off + 8).value + due) == Consume(b, ReadTree(ctx, b, off).next, due)
    decreases |b| - off, 1, 0
  {
    hide DecU64, DecU32, PatchNodeId, ReadKids, Consume;
    var id := DecU64(b, off);
    KidsConsume(ctx, b, off + 12, PatchNodeId(id.value), 0, DecU32(b, off + 8).value, due);
  }

  lemma {:induction false} KidsConsume(ctx: Context, b: bytes, off: nat, p: NodeId, i: nat, count: nat, due: nat)
    requires i <= count && off <= |b| && ReadKids(ctx, b, off, p, i, count).Parsed?
    ensures Consume(b, off, count - i + due) == Consume(b, ReadKids(ctx, b, off, p, i, count).next, due)
    decreases |b| - off, 2, count - i
  {
    hide PatchNodeId, AddChild, DecU32, DecU64, Consume, ReadTree;
    if i < count {
      var added := AddChild(ctx, p, PatchNodeId(DecU64(b, off).value), i);
      var r := ReadTree(added, b, off + 8);
      TreeHead(added, b, off + 8);
      TreeConsumes(added, b, off + 8, count - i - 1 + due);
      ConsumeOne(b, off, count - i + due, DecU32(b, off + 16).value);
      KidsConsume(r.value, b, r.next, p, i + 1, count, due);
    }
  }

  lemma TreeHead(ctx: Context, b: bytes, off: nat)
    requires ReadTree(ctx, b, off).Parsed?
    ensures DecU32(b, off + 8).Parsed?
  {
    hide DecU32, DecU64, ReadKids;
  }

  lemma {:induction false} WrittenConsumes(b: bytes, off: nat, k: Kids, due: nat)
    requires At(b, off, EncKids(k)) && off <= |b| && KidsNarrow(k)
    ensures off + |EncKids(k)| <= |b|
    ensures Consume(b, off, Size(k) + due) == Consume(b, off + |EncKids(k)|, Missing(k) + due)
    decreases k
  {
    hide At, EncTree, EncKids, DecU32, Consume;
    AtWithin(b, off, EncKids(k));
    match k
    case Nil => NoneWritten(Nil);
    case Alive(child, rest) =>
      var kids := EncKids(child.kids);
      ChildWritten(b, off, child, rest);
      ConsumeOne(b, off, Size(k) + due, Size(child.kids));
      WrittenConsumes(b, off + 20, child.kids, Size(rest) + due);
      WrittenConsumes(b, off + 20 + |kids|, rest, Missing(child.kids) + due);
    case Expired(rest) =>
      NoneWritten(rest);
      WrittenConsumes(b, off, rest, 1 + due);
  }

  lemma NoneWritten(rest: Kids)
    ensures EncKids(Nil) == [] && EncKids(Expired(rest)) == EncKids(rest)
  {
  }

  /** The parts of an entry for a child that is alive. */
  lemma ChildWritten(b: bytes, off: nat, child: Tree, rest: Kids)
    requires At(b, off, EncKids(Alive(child, rest))) && Narrow(child)
    ensures var kids := EncKids(child.kids);
      && off + 20 + |kids| <= |b| && DecU32(b, off + 16) == Parsed(Size(child.kids), off + 20)
      && At(b, off + 20, kids) && At(b, off + 20 + |kids|, EncKids(rest))
      && |EncKids(Alive(child, rest))| == 20 + |kids| + |EncKids(rest)|
  {
    hide At, EncU64, EncU32, DecU64, DecU32;
    var n := Size(child.kids);
    var kids := EncKids(child.kids);
    AtConcat(b, off, EncU64(child.id), EncTree(child) + EncKids(rest));
    AtConcat(b, off + 8, EncTree(child), EncKids(rest));
    AtConcat(b, off + 8, EncU64(child.id), EncU32(n) + kids);
    AtConcat(b, off + 16, EncU32(n), kids);
    U32RoundTrip(b, off + 16, n);
    AtWithin(b, off + 20 + |kids|, EncKids(rest));
  }

  lemma {:induction false} AliveMissing(k: Kids)
    ensures KidsAlive(k) <==> Missing(k) == 0
    decreases k
  {
    match k
    case Nil =>
    case Alive(child, rest) =>
      AliveMissing(child.kids);
      AliveMissing(rest);
    case Expired(_) =>
  }

  /** A reader of a written tree stops at its end exactly when no reference had expired; otherwise
      it takes what follows for the missing children. */
  lemma TreeStopsIff(ctx: Context, b: bytes, off: nat, t: Tree)
    requires At(b, off, EncTree(t)) && Narrow(t) && ReadTree(ctx, b, off).Parsed?
    ensures off + |EncTree(t)| <= ReadTree(ctx, b, off).next
    ensures ReadTree(ctx, b, off).next == off + |EncTree(t)| <==> AllAlive(t)
  {
    hide At, EncU64, EncU32, DecU64, DecU32, ReadTree;
    var n := Size(t.kids);
    AtConcat(b, off, EncU64(t.id), EncU32(n) + EncKids(t.kids));
    AtConcat(b, off + 8, EncU32(n), EncKids(t.kids));
    U32RoundTrip(b, off + 8, n);
    AtWithin(b, off + 12, EncKids(t.kids));
    TreeConsumes(ctx, b, off, 0);
    WrittenConsumes(b, off + 12, t.kids, 0);
    AliveMissing(t.kids);
  }

  /** One expired child: the reader of a node that is followed by another tree takes that tree's
      first node for the missing child. */
  lemma ExpiredChildOverruns(ctx: Context)
    requires PatchNodeId(7) in ctx.nodes
    ensures var t := Tree(7, Expired(Nil));
      var b := EncTree(t) + (EncU64(9) + (EncU64(9) + EncU32(0)));
      && !AllAlive(t) && At(b, 0, EncTree(t)) && |EncTree(t)| == 12
      && ReadTree(ctx, b, 0) == Parsed(AddChild(ctx, PatchNodeId(7), PatchNodeId(9), 0), 32)
  {
    hide At, EncU64, DecU64, EncU32, DecU32, PatchNodeId, AddChild;
    var t := Tree(7, Expired(Nil));
    var follows := EncU64(9) + (EncU64(9) + EncU32(0));
    var b := EncTree(t) + follows;
    assert EncKids(t.kids) == [] && Size(t.kids) == 1;
    assert EncTree(t) == EncU64(7) + EncU32(1);
    WholeAt(b);
    AtConcat(b, 0, EncTree(t), follows);
    AtConcat(b, 0, EncU64(7), EncU32(1));
    AtConcat(b, 12, EncU64(9), EncU64(9) + EncU32(0));
    AtConcat(b, 20, EncU64(9), EncU32(0));
    U64RoundTrip(b, 0, 7);
    U32RoundTrip(b, 8, 1);
    U64RoundTrip(b, 12, 9);
    U64RoundTrip(b, 20, 9);
    U32RoundTrip(b, 28, 0);
    var added := AddChild(ctx, PatchNodeId(7), PatchNodeId(9), 0);
    assert ReadTree(added, b, 20) == Parsed(added, 32);
    assert ReadKids(added, b, 32, PatchNodeId(7), 1, 1) == Parsed(added, 32);
  }

  lemma WholeAt(b: bytes)
    ensures At(b, 0, b)
  {
  }
}
