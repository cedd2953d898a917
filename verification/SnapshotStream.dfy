/** The snapshot calls as they run: loops that append to a stream, and loops that read it while
    they change the node map, against the functions of modules `Forest` and `Snapshot`. */
module SnapshotStream {
  import opened Bytes
  import opened Codec
  import opened NodeIds
  import opened NodeRecord
  import opened RenderTree
  import opened Forest
  import opened Snapshot

  lemma {:induction false} EncItemsSnoc(items: seq<Item>, item: Item, version: u32)
    ensures EncItems(items + [item], version) == EncItems(items, version) + EncNode(item.tree.id, item.node, version)
  {
    hide EncNode;
    if items == [] {
      var one := items + [item];
      assert one[0] == item && one[1..] == [];
    } else {
      assert (items + [item])[1..] == items[1..] + [item];
      EncItemsSnoc(items[1..], item, version);
    }
  }

  lemma {:induction false} EncTreesSnoc(ts: seq<Tree>, t: Tree)
    ensures EncTrees(ts + [t]) == EncTrees(ts) + EncTree(t)
  {
    hide EncTree;
    if ts == [] {
      var one := ts + [t];
      assert one[0] == t && one[1..] == [];
    } else {
      assert (ts + [t])[1..] == ts[1..] + [t];
      EncTreesSnoc(ts[1..], t);
    }
  }

  lemma {:induction false} OrphansSnoc(items: seq<Item>, item: Item)
    ensures Orphans(items + [item]) == Orphans(items) + (if item.hasParent then [] else [item.tree])
  {
    if items == [] {
      var one := items + [item];
      assert one[0] == item && one[1..] == [];
    } else {
      var head := if items[0].hasParent then [] else [items[0].tree];
      var last := if item.hasParent then [] else [item.tree];
      assert (items + [item])[1..] == items[1..] + [item];
      OrphansSnoc(items[1..], item);
      assert Orphans(items + [item]) == head + Orphans(items[1..] + [item]);
      assert head + (Orphans(items[1..]) + last) == (head + Orphans(items[1..])) + last;
    }
  }

  lemma {:induction false} FlatSnoc(ls: seq<seq<blob>>, i: nat)
    requires i < |ls|
    ensures Flat(ls[..i + 1]) == Flat(ls[..i]) + ls[i]
  {
    if i == 0 {
      assert ls[..1][1..] == [];
    } else {
      assert ls[..i + 1][1..] == ls[1..][..i] && ls[..i][1..] == ls[1..][..i - 1];
      FlatSnoc(ls[1..], i - 1);
    }
  }

  lemma NoneDecoded<T>(dec: (bytes, nat) -> Parsed<T>, b: bytes, off: nat)
    ensures DecAll(dec, b, off, 0) == Parsed([], off)
  {
  }

  lemma {:induction false} EraseAllConcat(ctx: Context, a: seq<NodeId>, b: seq<NodeId>)
    ensures EraseAll(ctx, a + b) == EraseAll(EraseAll(ctx, a), b)
    decreases |b|
  {
    hide Erase;
    if b == [] {
      assert a + b == a;
    } else {
      var n := |b| - 1;
      assert (a + b)[..|a + b| - 1] == a + b[..n];
      EraseAllConcat(ctx, a, b[..n]);
    }
  }

  class Stream {
    var data: bytes
    var readPos: nat
    var nodes: map<NodeId, Node>
    var children: map<NodeId, seq<NodeId>>
    var parent: map<NodeId, NodeId>

    function View(): Context
      reads this
    {
      Context(nodes, children, parent)
    }

    constructor (ctx: Context, data: bytes)
      ensures View() == ctx && this.data == data && readPos == 0
    {
      this.data, readPos, nodes, children, parent := data, 0, ctx.nodes, ctx.children, ctx.parent;
    }

    // --- writing -----------------------------------------------------------------------------

    method Write(x: bytes)
      modifies this`data
      ensures data == old(data) + x
    {
      data := data + x;
    }

    method MarshalTree(t: Tree)
      modifies this`data
      ensures data == old(data) + EncTree(t)
      decreases t
    {
      hide EncU64, EncU32;
      Write(EncU64(t.id));
      Write(EncU32(Trunc32(Size(t.kids))));
      ghost var before := data;
      var k := t.kids;
      while !k.Nil?
        invariant k == t.kids || k < t.kids
        invariant data + EncKids(k) == before + EncKids(t.kids)
        decreases k
      {
        if k.Alive? {
          ghost var mid := data;
          Write(EncU64(k.child.id));
          MarshalTree(k.child);
          assert mid + (EncU64(k.child.id) + (EncTree(k.child) + EncKids(k.rest))) == data + EncKids(k.rest);
        }
        k := k.rest;
      }
      assert data == before + EncKids(t.kids);
      assert before == old(data) + EncU64(t.id) + EncU32(Trunc32(Size(t.kids)));
    }

    method MarshalNodes(s: Scene, version: u32)
      modifies this`data
      ensures data == old(data) + EncScene(s, version)
    {
      hide EncNode, EncTree, EncU32, Orphans, EncItems, EncTrees;
      Write(EncU32(Trunc32(|s.items|)));
      ghost var before := data;
      var trees := [s.root];
      NothingWritten(version);
      var i := 0;
      while i < |s.items|
        invariant i <= |s.items| && data == before + EncItems(s.items[..i], version)
        invariant trees == [s.root] + Orphans(s.items[..i])
      {
        var item := s.items[i];
        assert s.items[..i + 1] == s.items[..i] + [item];
        EncItemsSnoc(s.items[..i], item, version);
        OrphansSnoc(s.items[..i], item);
        Write(EncNode(item.tree.id, item.node, version));
        if !item.hasParent {
          trees := trees + [item.tree];
        }
        i := i + 1;
      }
      assert s.items[..i] == s.items && trees == Trees(s);
      Write(EncU32(Trunc32(|trees|)));
      WriteTrees(trees);
      assert data == old(data) + EncScene(s, version);
    }

    lemma NothingWritten(version: u32)
      ensures EncItems([], version) == [] && EncTrees([]) == [] && Orphans([]) == []
    {
    }

    method WriteTrees(trees: seq<Tree>)
      modifies this`data
      ensures data == old(data) + EncTrees(trees)
    {
      hide EncTree, EncTrees;
      NothingWritten(0);
      var i := 0;
      while i < |trees|
        invariant i <= |trees| && data == old(data) + EncTrees(trees[..i])
      {
        assert trees[..i + 1] == trees[..i] + [trees[i]];
        EncTreesSnoc(trees[..i], trees[i]);
        MarshalTree(trees[i]);
        i := i + 1;
      }
      assert trees[..i] == trees;
    }

    // --- reading -------------------------------------------------------------------------------

    method ReadU32() returns (ok: bool, x: u32)
      requires readPos <= |data|
      modifies this`readPos
      ensures var r := DecU32(data, old(readPos));
        && ok == r.Parsed? && readPos <= |data| && (ok ==> x == r.value && readPos == r.next)
    {
      var r := DecU32(data, readPos);
      if r.NoParse? {
        return false, 0;
      }
      readPos := r.next;
      return true, r.value;
    }

    method ReadU64() returns (ok: bool, x: u64)
      requires readPos <= |data|
      modifies this`readPos
      ensures var r := DecU64(data, old(readPos));
        && ok == r.Parsed? && readPos <= |data| && (ok ==> x == r.value && readPos == r.next)
    {
      var r := DecU64(data, readPos);
      if r.NoParse? {
        return false, 0;
      }
      readPos := r.next;
      return true, r.value;
    }

    method ReadByte() returns (ok: bool, x: byte)
      modifies this`readPos
      ensures var r := DecByte(data, old(readPos));
        ok == r.Parsed? && (ok ==> x == r.value && readPos == r.next <= |data|)
    {
      if readPos >= |data| {
        return false, 0;
      }
      ok, x := true, data[readPos];
      readPos := readPos + 1;
    }

    method ReadBytes(n: nat) returns (ok: bool, x: bytes)
      modifies this`readPos
      ensures var r := Take(data, old(readPos), n);
        ok == r.Parsed? && (ok ==> x == r.value && readPos == r.next <= |data|)
    {
      if readPos + n > |data| {
        return false, [];
      }
      ok, x := true, data[readPos..readPos + n];
      readPos := readPos + n;
    }

    /** A length and that many bytes. */
    method ReadString() returns (ok: bool, x: bytes)
      requires readPos <= |data|
      modifies this`readPos
      ensures var r := DecBlob32(data, old(readPos));
        ok == r.Parsed? && (ok ==> x == r.value && readPos == r.next <= |data|)
    {
      hide DecU32;
      var n;
      ok, n := ReadU32();
      x := [];
      if ok {
        ok, x := ReadBytes(n);
      }
    }

    /** `UnmarshalRenderModifier`. */
    method ReadModifier() returns (ok: bool, x: blob)
      requires readPos <= |data|
      modifies this`readPos
      ensures var r := DecBlob(data, old(readPos));
        ok == r.Parsed? && (ok ==> x == r.value && readPos == r.next <= |data|)
    {
      hide DecU64;
      var n;
      ok, n := ReadU64();
      x := [];
      if ok {
        var s;
        ok, s := ReadBytes(n);
        if ok {
          x := s;
        }
      }
    }

    method ReadModifiers(count: nat) returns (ok: bool, ms: seq<blob>)
      requires readPos <= |data|
      modifies this`readPos
      ensures var r := DecAll(DecBlob, data, old(readPos), count);
        ok == r.Parsed? && (ok ==> ms == r.value && readPos == r.next <= |data|)
    {
      hide DecBlob, DecAll;
      ok, ms := true, [];
      NoneDecoded(DecBlob, data, readPos);
      ghost var start := readPos;
      var i := 0;
      while i < count
        invariant i <= count && readPos <= |data|
        invariant DecAll(DecBlob, data, start, i) == Parsed(ms, readPos)
      {
        var x;
        DecAllSnoc(DecBlob, data, start, i, ms, readPos);
        ok, x := ReadModifier();
        if !ok {
          if DecAll(DecBlob, data, start, count).Parsed? {
            DecAllPrefix(DecBlob, data, start, i + 1, count);
          }
          return false, [];
        }
        ms := ms + [x];
        i := i + 1;
      }
      ok := true;
    }

    method ReadModifierLists(count: nat) returns (ok: bool, ls: seq<seq<blob>>)
      requires readPos <= |data|
      modifies this`readPos
      ensures var r := DecAll(DecList, data, old(readPos), count);
        ok == r.Parsed? && (ok ==> ls == r.value && readPos == r.next <= |data|)
    {
      hide DecBlob, DecAll, DecU32;
      ok, ls := true, [];
      NoneDecoded(DecList, data, readPos);
      ghost var start := readPos;
      var i := 0;
      while i < count
        invariant i <= count && readPos <= |data|
        invariant DecAll(DecList, data, start, i) == Parsed(ls, readPos)
      {
        DecAllSnoc(DecList, data, start, i, ls, readPos);
        if DecAll(DecList, data, start, count).Parsed? {
          DecAllPrefix(DecList, data, start, i + 1, count);
        }
        var n, ms;
        ok, n := ReadU32();
        if !ok {
          return false, [];
        }
        ok, ms := ReadModifiers(n);
        if !ok {
          return false, [];
        }
        ls := ls + [ms];
        i := i + 1;
      }
      ok := true;
    }

    /** The surface part of `CreateRenderSurfaceNode`. */
    method ReadSurface() returns (ok: bool, surface: Surface)
      requires readPos <= |data|
      modifies this`readPos
      ensures var r := DecSurface(data, old(readPos));
        ok == r.Parsed? && (ok ==> surface == r.value && readPos == r.next <= |data|)
    {
      hide DecBlob32, DecByte;
      surface := NO_SURFACE;
      var name, bundleName, surfaceType, bgAlpha, globalAlpha;
      ok, name := ReadString();
      if !ok { return; }
      ok, bundleName := ReadString();
      if !ok { return; }
      ok, surfaceType := ReadByte();
      if !ok { return; }
      ok, bgAlpha := ReadByte();
      if !ok { return; }
      ok, globalAlpha := ReadByte();
      if !ok { return; }
      surface := Surface(name, bundleName, surfaceType, bgAlpha, globalAlpha);
    }

    /** `UnmarshalNodeModifiers`; a negative count means none. */
    method ReadTail() returns (ok: bool, tail: Tail)
      requires readPos <= |data|
      modifies this`readPos
      ensures var r := DecModifiers(data, old(readPos));
        ok == r.Parsed? && (ok ==> tail == r.value && readPos == r.next <= |data|)
    {
      hide DecU64, DecU32, DecAll;
      tail := Tail(0, 0, [], []);
      var instanceRoot, firstLevel, count, modifiers, drawCount, drawn;
      ok, instanceRoot := ReadU64();
      if !ok { return; }
      ok, firstLevel := ReadU64();
      if !ok { return; }
      ok, count := ReadU32();
      if !ok { return; }
      ok, modifiers := ReadModifiers(if count < 0x8000_0000 then count else 0);
      if !ok { return; }
      ok, drawCount := ReadU32();
      if !ok { return; }
      ok, drawn := ReadModifierLists(drawCount);
      if !ok { return; }
      tail := Tail(instanceRoot, firstLevel, modifiers, drawn);
    }

    /** Field by field, in the order in which they were written. */
    method ReadRecord(version: u32) returns (ok: bool, id: NodeId, n: Node)
      requires readPos <= |data|
      modifies this`readPos
      ensures var r := DecNode(data, old(readPos), version);
        ok == r.Parsed? && (ok ==> (id, n) == r.value && readPos == r.next <= |data|)
    {
      hide DecU64, DecU32, DecByte, DecSurface, DecModifiers;
      var nodeType, textureExport, positionZ, pivotZ, priority, onTree, group, tail;
      var surface := NO_SURFACE;
      id := 0;
      n := Node(0, false, NO_SURFACE, 0, 0, 0, 0, false, 0, 0, 0, [], []);
      ok, nodeType := ReadU32();
      if !ok { return; }
      ok, id := ReadU64();
      if !ok { return; }
      ok, textureExport := ReadByte();
      if !ok { return; }
      if nodeType == SURFACE_NODE {
        ok, surface := ReadSurface();
        if !ok { return; }
      }
      ok, positionZ := ReadU32();
      if !ok { return; }
      ok, pivotZ := ReadU32();
      if !ok { return; }
      ok, priority := ReadByte();
      if !ok { return; }
      ok, onTree := ReadByte();
      if !ok { return; }
      group := 0;
      if HasGroup(version) {
        ok, group := ReadByte();
        if !ok { return; }
      }
      ok, tail := ReadTail();
      if !ok { return; }
      n := Node(nodeType, textureExport != 0, surface, 0, positionZ, pivotZ, priority, onTree != 0, group,
                tail.instanceRoot, tail.firstLevel, tail.modifiers, tail.drawn);
    }

    /** A node that is not there is created and registered; then the record's values are set. */
    method UnmarshalNode(version: u32) returns (ok: bool)
      requires readPos <= |data|
      modifies this`readPos, this`nodes
      ensures var r := DecNode(data, old(readPos), version);
        && ok == r.Parsed?
        && (ok ==> readPos == r.next <= |data| && nodes == Register(old(nodes), r.value.0, r.value.1))
    {
      hide DecNode;
      var rawId, n;
      ok, rawId, n := ReadRecord(version);
      if !ok {
        return;
      }
      SetRecord(PatchNodeId(rawId), n);
    }

    /** A node that is not there is created and registered; then the record's values are set. */
    method SetRecord(id: NodeId, n: Node)
      modifies this`nodes
      ensures nodes == old(nodes)[id := Onto(if id in old(nodes) then old(nodes)[id] else Created(n), n)]
    {
      hide PatchNodeId, Created;
      if id !in nodes {
        nodes := nodes[id := Created(n)];
      }
      var node := nodes[id];
      ghost var prior := node;
      node := node.(positionZ := n.positionZ);
      node := node.(pivotZ := n.pivotZ);
      node := node.(priority := n.priority);
      node := node.(onTree := n.onTree);
      node := node.(group := n.group);
      node := node.(instanceRoot := PatchNodeId(n.instanceRoot));
      node := node.(firstLevel := PatchNodeId(n.firstLevel));
      var modifiers := AppendAll(node.modifiers + n.modifiers, n.drawn);
      assert modifiers == prior.modifiers + Added(n);
      nodes := nodes[id := node.(modifiers := modifiers)];
    }

    /** Draw modifiers are added list by list. */
    static method AppendAll(own: seq<blob>, ls: seq<seq<blob>>) returns (modifiers: seq<blob>)
      ensures modifiers == own + Flat(ls)
    {
      modifiers := own;
      var i := 0;
      while i < |ls|
        invariant i <= |ls| && modifiers == own + Flat(ls[..i])
      {
        FlatSnoc(ls, i);
        modifiers := modifiers + ls[i];
        i := i + 1;
      }
      assert ls[..i] == ls;
    }

    /** Stops at nodes that are so already. */
    method SetIsOnTheTree(x: NodeId, flag: bool, instanceRoot: NodeId, firstLevel: NodeId)
      modifies this`nodes
      ensures View() == SetTree(old(View()), x, flag, instanceRoot, firstLevel)
      decreases Unlike(nodes, flag)
    {
      hide Inherit, Unlike;
      if x !in nodes || nodes[x].onTree == flag {
        return;
      }
      var (root, level) := Inherit(View(), x, instanceRoot, firstLevel);
      ghost var marked := Mark(View(), x, flag, root, level);
      nodes := nodes[x := nodes[x].(onTree := flag, instanceRoot := root, firstLevel := level)];
      var ids := View().Kids(x);
      var i := 0;
      while i < |ids|
        invariant i <= |ids| && Unlike(nodes, flag) <= Unlike(marked.nodes, flag)
        invariant SetTrees(View(), ids[i..], flag, root, level) == SetTrees(marked, ids, flag, root, level)
      {
        assert ids[i..][1..] == ids[i + 1..];
        SetIsOnTheTree(ids[i], flag, root, level);
        i := i + 1;
      }
    }

    method AppendChild(p: NodeId, c: NodeId, index: nat)
      modifies this`nodes, this`children, this`parent
      ensures View() == AddChild(old(View()), p, c, index)
    {
      hide SetTree, Remove, Insert;
      if c !in nodes || c == p {
        return;
      }
      if c in parent && c in View().Kids(parent[c]) {
        SetIsOnTheTree(c, false, INVALID_NODEID, INVALID_NODEID);
        children := children[parent[c] := Remove(View().Kids(parent[c]), c)];
        parent := parent - {c};
      }
      var kids := View().Kids(p);
      parent := parent[c := p];
      children := children[p := Insert(kids, c, index)];
      if p in nodes && nodes[p].onTree {
        SetIsOnTheTree(c, true, nodes[p].instanceRoot, nodes[p].firstLevel);
      }
    }

    /** One entry of a list of children. */
    method UnmarshalChild(p: NodeId, i: nat) returns (ok: bool)
      requires readPos <= |data|
      modifies this`readPos, this`nodes, this`children, this`parent
      ensures var c := DecU64(data, old(readPos));
        if c.NoParse? then !ok
        else
          var r := ReadTree(AddChild(old(View()), p, PatchNodeId(c.value), i), data, c.next);
          ok == r.Parsed? && (ok ==> View() == r.value && readPos == r.next)
      decreases |data| - readPos, 0
    {
      hide DecU64, PatchNodeId, AddChild, ReadTree;
      var c;
      ok, c := ReadU64();
      if !ok {
        return;
      }
      AppendChild(p, PatchNodeId(c), i);
      ok := UnmarshalTree();
    }

    /** Fails where a child is listed for a node that does not exist, and at the end of the stream. */
    method UnmarshalTree() returns (ok: bool)
      requires readPos <= |data|
      modifies this`readPos, this`nodes, this`children, this`parent
      ensures var r := ReadTree(old(View()), data, old(readPos));
        ok == r.Parsed? && (ok ==> View() == r.value && readPos == r.next)
      decreases |data| - readPos, 1
    {
      hide DecU64, DecU32, PatchNodeId, AddChild;
      var id, count;
      ok, id := ReadU64();
      if !ok {
        return;
      }
      ok, count := ReadU32();
      if !ok {
        return;
      }
      var p := PatchNodeId(id);
      ghost var start := readPos;
      var i := 0;
      while i < count
        invariant i <= count && start <= readPos <= |data|
        invariant ReadKids(View(), data, readPos, p, i, count) == ReadKids(old(View()), data, start, p, 0, count)
      {
        if p !in nodes {
          return false;
        }
        ok := UnmarshalChild(p, i);
        if !ok {
          return;
        }
        i := i + 1;
      }
      ok := true;
    }

    method UnmarshalNodes(version: u32) returns (ok: bool)
      requires readPos <= |data|
      modifies this`readPos, this`nodes, this`children, this`parent
      ensures var r := ReadScene(old(View()), data, old(readPos), version);
        ok == r.Parsed? && (ok ==> View() == r.value && readPos == r.next)
    {
      hide DecU32, DecNode, ReadTree, Register;
      var count;
      ok, count := ReadU32();
      if !ok {
        return;
      }
      ghost var start := readPos;
      var i := 0;
      while i < count
        invariant i <= count && readPos <= |data| && children == old(children) && parent == old(parent)
        invariant ReadNodes(nodes, data, readPos, count - i, version) == ReadNodes(old(nodes), data, start, count, version)
      {
        ok := UnmarshalNode(version);
        if !ok {
          return;
        }
        i := i + 1;
      }
      ok, count := ReadU32();
      if !ok {
        return;
      }
      start := readPos;
      ghost var ctx := View();
      i := 0;
      while i < count
        invariant i <= count && readPos <= |data|
        invariant ReadTrees(View(), data, readPos, count - i) == ReadTrees(ctx, data, start, count)
      {
        ok := UnmarshalTree();
        if !ok {
          return;
        }
        i := i + 1;
      }
      ok := true;
    }

    // --- mock nodes ------------------------------------------------------------------------------

    /** One node: off the tree, out of its parent's list, out of the map. */
    method EraseNode(x: NodeId)
      modifies this`nodes, this`children, this`parent
      ensures View() == Erase(old(View()), x)
    {
      hide SetTree, Drop;
      if x in parent {
        SetIsOnTheTree(x, false, INVALID_NODEID, INVALID_NODEID);
      }
      children := map p | p in children && p != x :: Drop(children[p], x);
      parent := map c | c in parent && c != x && parent[c] != x :: parent[c];
      nodes := map y | y in nodes && y != x :: nodes[y];
    }

    /** Visits the nodes of the map in any order and erases those of one process, as `order` lists
        them; exactly the others stay. */
    method FilterNodeByPid(pid: Pid) returns (ghost order: seq<NodeId>)
      modifies this`nodes, this`children, this`parent
      ensures View() == EraseAll(old(View()), order)
      ensures forall x :: x in order <==> x in OfPids(old(nodes), {pid})
      ensures forall x :: x in nodes <==> x in old(nodes) && ExtractPid(x) != pid
    {
      hide Erase;
      order := [];
      var rest := nodes.Keys;
      while rest != {}
        invariant rest <= old(nodes.Keys)
        invariant View() == EraseAll(old(View()), order)
        invariant forall x :: x in order <==> x in old(nodes) && x !in rest && ExtractPid(x) == pid
        decreases rest
      {
        var x :| x in rest;
        if ExtractPid(x) == pid {
          assert (order + [x])[..|order|] == order;
          EraseNode(x);
          order := order + [x];
        }
        rest := rest - {x};
      }
      forall x: NodeId
        ensures x in nodes <==> x in old(nodes) && ExtractPid(x) != pid
      {
        ErasedKeys(old(View()), order, x);
      }
    }

    /** Visits the nodes, and then the process ids of the patched ones, in any order; exactly the
        nodes that are not patched stay. */
    method FilterMockNode() returns (ghost order: seq<NodeId>)
      modifies this`nodes, this`children, this`parent
      ensures View() == EraseAll(old(View()), order) && MockOrder(old(nodes), order)
      ensures forall x :: x in nodes <==> x in old(nodes) && !IsNodeIdPatched(x)
    {
      hide EraseAll, IsNodeIdPatched;
      var pids: set<Pid> := {};
      var rest := nodes.Keys;
      while rest != {}
        invariant rest <= nodes.Keys
        invariant pids == set x | x in nodes && x !in rest && IsNodeIdPatched(x) :: ExtractPid(x)
        decreases rest
      {
        var x :| x in rest;
        if IsNodeIdPatched(x) {
          pids := pids + {ExtractPid(x)};
        }
        rest := rest - {x};
      }
      assert pids == MockPids(nodes);
      order := [];
      NothingErased(View());
      var todo := pids;
      while todo != {}
        invariant todo <= pids && View() == EraseAll(old(View()), order)
        invariant forall x :: x in order <==> x in old(nodes) && ExtractPid(x) in pids - todo
        invariant forall x :: x in nodes <==> x in old(nodes) && ExtractPid(x) !in pids - todo
        decreases todo
      {
        var pid :| pid in todo;
        ghost var more := FilterNodeByPid(pid);
        EraseAllConcat(old(View()), order, more);
        order := order + more;
        todo := todo - {pid};
      }
      forall x: NodeId
        ensures x in nodes <==> x in old(nodes) && !IsNodeIdPatched(x)
      {
        FilterRemovesPatched(old(View()), order, x);
      }
    }

    lemma NothingErased(ctx: Context)
      ensures EraseAll(ctx, []) == ctx
    {
    }
  }
}
