/** The sweep that measures the cost of nodes: each is taken out of the tree for a number of frames
    and put back, and the median of the frame lengths is reported. */
module Sweep {
  import opened Bytes
  import opened OrderedMap
  import opened NodeIds

  const SAMPLES: nat := 64
  const ENTIRE_FRAME: NodeId := 1

  // --- the tree ----------------------------------------------------------------------------

  /** The global root is not in the node map, although another node with its id 0 is. */
  datatype Owner = GlobalRoot | Of(id: NodeId)

  datatype Links = Links(registered: set<NodeId>, children: map<Owner, seq<NodeId>>, parent: map<NodeId, Owner>) {
    function Kids(p: Owner): seq<NodeId> {
      if p in children then children[p] else []
    }

    /** The node map finds a registered node. */
    function Lookup(id: NodeId): Option<Owner> {
      if id in registered then Some(Of(id)) else None
    }
  }

  function IdOf(p: Owner): NodeId {
    match p
    case GlobalRoot => 0
    case Of(id) => id
  }

  function Without(ids: seq<NodeId>, c: NodeId): seq<NodeId> {
    if ids == [] then []
    else if ids[0] == c then ids[1..]
    else [ids[0]] + Without(ids[1..], c)
  }

  /** `RemoveChild` of a node from its parent. */
  function TakeOut(l: Links, c: NodeId): Links
    requires c in l.parent
  {
    var p := l.parent[c];
    l.(children := l.children[p := Without(l.Kids(p), c)], parent := l.parent - {c})
  }

  /** `AddChild` of a registered node at index 0; a node is never its own child. */
  function PutFront(l: Links, p: Owner, c: NodeId): Links {
    if p == Of(c) then l
    else
      var free := if c in l.parent then TakeOut(l, c) else l;
      free.(children := free.children[p := [c] + free.Kids(p)], parent := free.parent[c := p])
  }

  /** Lists and parents say the same: a list holds exactly the nodes with that parent, once. */
  ghost predicate Linked(l: Links) {
    forall p, c :: multiset(l.Kids(p))[c] == if c in l.parent && l.parent[c] == p then 1 else 0
  }

  /** The same tree, except for the order of children. */
  ghost predicate Same(l: Links, k: Links) {
    && l.registered == k.registered && l.parent == k.parent
    && forall p :: multiset(l.Kids(p)) == multiset(k.Kids(p))
  }

  /** A child that is put in front leaves the list it was in, and no list but those two changes. */
  lemma PutFrontMoves(l: Links, p: Owner, c: NodeId, q: Owner)
    requires p != Of(c) && (c in l.parent ==> c in l.Kids(l.parent[c]))
    ensures var t := PutFront(l, p, c);
      && t.registered == l.registered && t.parent == l.parent[c := p]
      && t.Kids(p) != [] && t.Kids(p)[0] == c
      && (c !in l.parent || l.parent[c] != p ==> t.Kids(p)[1..] == l.Kids(p))
      && (c in l.parent && l.parent[c] == p ==> multiset(t.Kids(p)) == multiset(l.Kids(p)))
      && (q != p && (c !in l.parent || l.parent[c] != q) ==> t.Kids(q) == l.Kids(q))
      && (q != p && c in l.parent && l.parent[c] == q ==> multiset(l.Kids(q)) == multiset(t.Kids(q)) + multiset{c})
  {
    hide Without, PutFront, TakeOut;
    if c in l.parent {
      var owner := l.parent[c];
      var free := TakeOut(l, c);
      WithoutCounts(l.Kids(owner), c);
      FreedKids(l, c);
      FrontOf(free, p, c);
      assert PutFront(l, p, c) == PutFront(free, p, c) by { FreedFirst(l, p, c); }
    } else {
      FrontOf(l, p, c);
    }
  }

  lemma FreedFirst(l: Links, p: Owner, c: NodeId)
    requires c in l.parent
    ensures PutFront(l, p, c) == if p == Of(c) then l else PutFront(TakeOut(l, c), p, c)
  {
  }

  lemma FreedKids(l: Links, c: NodeId)
    requires c in l.parent
    ensures var free := TakeOut(l, c);
      && free.registered == l.registered && free.parent == l.parent - {c}
      && free.Kids(l.parent[c]) == Without(l.Kids(l.parent[c]), c)
      && forall q :: q != l.parent[c] ==> free.Kids(q) == l.Kids(q)
  {
  }

  lemma FrontOf(l: Links, p: Owner, c: NodeId)
    requires p != Of(c) && c !in l.parent
    ensures var t := PutFront(l, p, c);
      && t.registered == l.registered && t.parent == l.parent[c := p]
      && t.Kids(p) == [c] + l.Kids(p) && t.Kids(p)[1..] == l.Kids(p)
      && multiset(t.Kids(p)) == multiset{c} + multiset(l.Kids(p))
      && forall o :: o != p ==> t.Kids(o) == l.Kids(o)
  {
  }

  lemma {:induction false} WithoutCounts(ids: seq<NodeId>, c: NodeId)
    requires c in ids
    ensures multiset(ids) == multiset(Without(ids, c)) + multiset{c}
  {
    assert ids == [ids[0]] + ids[1..];
    if ids[0] != c {
      WithoutCounts(ids[1..], c);
    }
  }

  lemma TakeOutPutBack(l: Links, c: NodeId, p: Owner)
    requires Linked(l) && c in l.parent && l.parent[c] == p && p != Of(c)
    ensures Same(l, PutFront(TakeOut(l, c), p, c))
  {
    hide Without;
    assert multiset(l.Kids(p))[c] == 1;
    WithoutCounts(l.Kids(p), c);
    var free := TakeOut(l, c);
    assert free.Kids(p) == Without(l.Kids(p), c) && forall q :: q != p ==> free.Kids(q) == l.Kids(q);
    FrontOf(free, p, c);
    assert PutFront(free, p, c).parent == l.parent;
  }

  lemma SameLinked(l: Links, k: Links)
    requires Linked(l) && Same(l, k)
    ensures Linked(k)
  {
  }

  // --- samples -------------------------------------------------------------------------------

  predicate Ordered(xs: seq<u64>) {
    forall i, j :: 0 <= i < j < |xs| ==> xs[i] <= xs[j]
  }

  function Insert(x: u64, xs: seq<u64>): (r: seq<u64>)
    ensures |r| == |xs| + 1
  {
    if xs == [] || x <= xs[0] then [x] + xs else [xs[0]] + Insert(x, xs[1..])
  }

  function SortedOf(xs: seq<u64>): (r: seq<u64>)
    ensures |r| == |xs|
  {
    if xs == [] then [] else Insert(xs[0], SortedOf(xs[1..]))
  }

  lemma {:induction false} InsertBounded(x: u64, xs: seq<u64>, y: u64)
    requires y <= x && forall i :: 0 <= i < |xs| ==> y <= xs[i]
    ensures forall i :: 0 <= i < |Insert(x, xs)| ==> y <= Insert(x, xs)[i]
  {
    if xs != [] && x > xs[0] {
      InsertBounded(x, xs[1..], y);
    }
  }

  lemma {:induction false} InsertOrders(x: u64, xs: seq<u64>)
    requires Ordered(xs)
    ensures Ordered(Insert(x, xs))
  {
    if xs != [] && x > xs[0] {
      InsertOrders(x, xs[1..]);
      InsertBounded(x, xs[1..], xs[0]);
    }
  }

  lemma {:induction false} InsertPermutes(x: u64, xs: seq<u64>)
    ensures multiset(Insert(x, xs)) == multiset{x} + multiset(xs)
  {
    if xs != [] && x > xs[0] {
      InsertPermutes(x, xs[1..]);
      assert xs == [xs[0]] + xs[1..];
    }
  }

  /** Sorting is what it says: an ordered permutation. */
  lemma {:induction false} SortedIsPermutation(xs: seq<u64>)
    ensures Ordered(SortedOf(xs)) && multiset(SortedOf(xs)) == multiset(xs)
  {
    if xs != [] {
      SortedIsPermutation(xs[1..]);
      InsertOrders(xs[0], SortedOf(xs[1..]));
      InsertPermutes(xs[0], SortedOf(xs[1..]));
      assert xs == [xs[0]] + xs[1..];
    }
  }

  /** How many samples are at most, or at least, a bound. */
  function AtMost(xs: seq<u64>, m: u64): nat {
    if xs == [] then 0 else (if xs[0] <= m then 1 else 0) + AtMost(xs[1..], m)
  }

  function AtLeast(xs: seq<u64>, m: u64): nat {
    if xs == [] then 0 else (if xs[0] >= m then 1 else 0) + AtLeast(xs[1..], m)
  }

  lemma {:induction false} InsertCounts(x: u64, xs: seq<u64>, m: u64)
    ensures AtMost(Insert(x, xs), m) == AtMost(xs, m) + (if x <= m then 1 else 0)
    ensures AtLeast(Insert(x, xs), m) == AtLeast(xs, m) + (if x >= m then 1 else 0)
  {
    if xs != [] && x > xs[0] {
      InsertCounts(x, xs[1..], m);
    }
  }

  lemma {:induction false} SortingCounts(xs: seq<u64>, m: u64)
    ensures AtMost(SortedOf(xs), m) == AtMost(xs, m) && AtLeast(SortedOf(xs), m) == AtLeast(xs, m)
  {
    if xs != [] {
      SortingCounts(xs[1..], m);
      InsertCounts(xs[0], SortedOf(xs[1..]), m);
    }
  }

  lemma {:induction false} CountsConcat(xs: seq<u64>, ys: seq<u64>, m: u64)
    ensures AtMost(xs + ys, m) == AtMost(xs, m) + AtMost(ys, m)
    ensures AtLeast(xs + ys, m) == AtLeast(xs, m) + AtLeast(ys, m)
    decreases |xs|
  {
    if xs == [] {
      assert xs + ys == ys;
    } else {
      assert (xs + ys)[1..] == xs[1..] + ys;
      CountsConcat(xs[1..], ys, m);
    }
  }

  lemma {:induction false} AllCounted(xs: seq<u64>, m: u64)
    ensures (forall i :: 0 <= i < |xs| ==> xs[i] <= m) ==> AtMost(xs, m) == |xs|
    ensures (forall i :: 0 <= i < |xs| ==> xs[i] >= m) ==> AtLeast(xs, m) == |xs|
  {
    if xs != [] {
      AllCounted(xs[1..], m);
    }
  }

  function Median(xs: seq<u64>): u64
    requires |xs| == SAMPLES
  {
    SortedOf(xs)[SAMPLES / 2]
  }

  lemma OrderedSplits(ys: seq<u64>, h: nat)
    requires Ordered(ys) && h < |ys|
    ensures AtMost(ys, ys[h]) >= h + 1 && AtLeast(ys, ys[h]) >= |ys| - h
  {
    hide AtMost, AtLeast;
    assert ys == ys[..h + 1] + ys[h + 1..];
    CountsConcat(ys[..h + 1], ys[h + 1..], ys[h]);
    AllCounted(ys[..h + 1], ys[h]);
    assert ys == ys[..h] + ys[h..];
    CountsConcat(ys[..h], ys[h..], ys[h]);
    AllCounted(ys[h..], ys[h]);
  }

  /** The reported length is one of the samples, with at least half of them on each side. */
  lemma MedianSplits(xs: seq<u64>)
    requires |xs| == SAMPLES
    ensures Median(xs) in xs
    ensures AtMost(xs, Median(xs)) >= SAMPLES / 2 + 1 && AtLeast(xs, Median(xs)) >= SAMPLES / 2
  {
    hide SortedOf, AtMost, AtLeast, Ordered;
    SortedIsPermutation(xs);
    assert Median(xs) in multiset(SortedOf(xs));
    assert Median(xs) in multiset(xs);
    SortingCounts(xs, Median(xs));
    OrderedSplits(SortedOf(xs), SAMPLES / 2);
  }

  // --- the state machine -----------------------------------------------------------------------

  /** `nodes` is the set to measure in its iteration order; `node` 0 means that nothing is being
      measured; `index` -1 that no sweep is going on. */
  datatype State = State(
    nodes: seq<NodeId>, node: NodeId, tries: nat, times: seq<u64>, parent: NodeId, index: int, links: Links,
    reports: seq<(NodeId, u64)>)
  {
    predicate Valid() {
      |times| == SAMPLES && tries < SAMPLES && index >= -1
    }
  }

  /** `CalcPerfNodeAllStep`. */
  function Step(s: State): State {
    if s.index < 0 then s
    else if s.index == 0 then s.(node := ENTIRE_FRAME)
    else if s.index - 1 >= |s.nodes| then s.(index := -1)
    else
      var c := s.nodes[s.index - 1];
      if c !in s.links.registered || c !in s.links.parent then s.(node := c, index := -1)
      else s.(node := c, parent := IdOf(s.links.parent[c]), links := TakeOut(s.links, c))
  }

  /** `CalcPerfNodeAll`. */
  function Begin(s: State): State {
    if s.nodes == [] then s else Step(s.(index := 0))
  }

  function PutBack(s: State): Links {
    if s.node == ENTIRE_FRAME then s.links
    else
      match s.links.Lookup(s.parent)
      case None => s.links
      case Some(p) => if s.node in s.links.registered then PutFront(s.links, p, s.node) else s.links
  }

  /** After the frames of a node, and of no node for the whole frame, it goes in front of the children of
      the node that the map finds for its parent, if that finds one and the node is still registered. */
  lemma PutBackIs(s: State)
    ensures s.node == 1 || s.links.Lookup(s.parent).None? || s.node !in s.links.registered ==> PutBack(s) == s.links
    ensures s.node != 1 && s.links.Lookup(s.parent).Some? && s.node in s.links.registered ==>
      PutBack(s) == PutFront(s.links, s.links.Lookup(s.parent).value, s.node)
  {
  }

  /** The last frame of a measurement: the samples are sorted in place and the middle one reported. */
  function Finish(s: State): State
    requires |s.times| == SAMPLES
  {
    var t := s.(times := SortedOf(s.times), reports := s.reports + [(s.node, Median(s.times))], links := PutBack(s),
                node := 0, parent := 0, tries := 0);
    if t.index >= 0 then Step(t.(index := t.index + 1)) else t
  }

  /** `CalcNodeWeigthOnFrameEnd`. */
  function FrameEnd(s: State, length: u64): (t: State)
    requires s.Valid()
    ensures t.Valid() && t.nodes == s.nodes
  {
    if s.node == 0 then s
    else
      var t := s.(times := s.times[s.tries := length], tries := s.tries + 1);
      if t.tries < SAMPLES then t else Finish(t)
  }

  /** The state after some frames. */
  function Run(s: State, lengths: seq<u64>): (t: State)
    requires s.Valid()
    ensures t.Valid() && t.nodes == s.nodes
  {
    if lengths == [] then s else FrameEnd(Run(s, lengths[..|lengths| - 1]), lengths[|lengths| - 1])
  }

  // --- one measurement -----------------------------------------------------------------------------

  lemma {:induction false} RunAppends(s: State, a: seq<u64>, b: seq<u64>)
    requires s.Valid()
    ensures Run(s, a + b) == Run(Run(s, a), b)
    decreases |b|
  {
    hide FrameEnd;
    if b == [] {
      assert a + b == a;
    } else {
      var n := |b| - 1;
      assert (a + b)[..|a + b| - 1] == a + b[..n];
      RunAppends(s, a, b[..n]);
    }
  }

  /** Up to the last of its frames a measurement only collects samples. */
  lemma {:induction false} Collects(s: State, lengths: seq<u64>)
    requires s.Valid() && s.node != 0 && s.tries == 0 && |lengths| < SAMPLES
    ensures var t := Run(s, lengths);
      && t == s.(times := t.times, tries := |lengths|) && t.times[..|lengths|] == lengths
  {
    if lengths != [] {
      var n := |lengths| - 1;
      Collects(s, lengths[..n]);
      assert lengths == lengths[..n] + [lengths[n]];
      var before := Run(s, lengths[..n]);
      assert before.times[n := lengths[n]][..n] == before.times[..n];
    }
  }

  lemma Measures(s: State, lengths: seq<u64>)
    requires s.Valid() && s.node != 0 && s.tries == 0 && |lengths| == SAMPLES
    ensures Run(s, lengths) == Finish(s.(times := lengths, tries := SAMPLES))
  {
    hide Finish, SortedOf;
    var n := SAMPLES - 1;
    Collects(s, lengths[..n]);
    var before := Run(s, lengths[..n]);
    assert before.times[n := lengths[n]] == lengths by {
      assert forall i :: 0 <= i < n ==> before.times[i] == before.times[..n][i] == lengths[..n][i];
    }
  }

  /** Taking a node out and putting it back restores the tree, up to order, exactly when the node
      is not numbered 1 and the node map finds its parent: a child of the global root goes to the
      registered node that shares the root's id, or nowhere. */
  lemma MeasureRestoresIff(s: State, c: NodeId)
    requires Linked(s.links) && c in s.links.registered && c in s.links.parent && s.links.parent[c] != Of(c)
    requires s.index > 0 && s.index - 1 < |s.nodes| && s.nodes[s.index - 1] == c
    ensures Same(s.links, PutBack(Step(s))) <==>
      c != ENTIRE_FRAME && s.links.parent[c].Of? && s.links.parent[c].id in s.links.registered
  {
    hide Linked;
    var p := s.links.parent[c];
    var t := Step(s);
    if c != ENTIRE_FRAME && p.Of? && p.id in s.links.registered {
      TakeOutPutBack(s.links, c, p);
    } else {
      assert PutBack(t).parent != s.links.parent;
    }
  }

  /** A child of the global root moves under the registered node that shares the root's id. */
  lemma RootChildMoves(times: seq<u64>)
    requires |times| == SAMPLES
    ensures var l := Links({0, 5}, map[GlobalRoot := [5]], map[5 := GlobalRoot]);
      var s := State([5], 0, 0, times, 0, 1, l, []);
      var after := PutBack(Step(s));
      && Linked(l) && s.Valid() && !Same(l, after)
      && after.parent[5] == Of(0) && after.Kids(Of(0)) == [5] && after.Kids(GlobalRoot) == []
  {
    var l := Links({0, 5}, map[GlobalRoot := [5]], map[5 := GlobalRoot]);
    var s := State([5], 0, 0, times, 0, 1, l, []);
    assert forall p, c :: multiset(l.Kids(p))[c] == if c in l.parent && l.parent[c] == p then 1 else 0;
    MeasureRestoresIff(s, 5);
    assert Without([5], 5) == [];
  }

  /** A node without parent stops the sweep, but stays marked, and after its frames it is made a
      child of the node with id 0. */
  lemma OrphanAdopted(s: State, c: NodeId, lengths: seq<u64>)
    requires s.Valid() && s.tries == 0 && s.parent == 0 && s.node == 0 && |lengths| == SAMPLES
    requires s.index > 0 && s.index - 1 < |s.nodes| && s.nodes[s.index - 1] == c
    requires c in s.links.registered && c !in s.links.parent && c > ENTIRE_FRAME && 0 in s.links.registered
    ensures var t := Run(Step(s), lengths);
      && t.index == -1 && t.node == 0 && |t.reports| == |s.reports| + 1
      && t.links.parent == s.links.parent[c := Of(0)] && t.links.Kids(Of(0)) == [c] + s.links.Kids(Of(0))
  {
    hide SortedOf, Run, FrameEnd;
    Measures(Step(s), lengths);
  }

  // --- the sweep -------------------------------------------------------------------------------------

  /** Nodes that a sweep can measure: registered, with a parent that the node map finds. */
  ghost predicate Steady(l: Links, nodes: seq<NodeId>) {
    forall i :: 0 <= i < |nodes| ==>
      && nodes[i] > ENTIRE_FRAME && nodes[i] in l.registered && nodes[i] in l.parent
      && l.parent[nodes[i]].Of? && l.parent[nodes[i]].id in l.registered && l.parent[nodes[i]].id != nodes[i]
  }

  function Subject(nodes: seq<NodeId>, j: nat): NodeId
    requires j <= |nodes|
  {
    if j == 0 then ENTIRE_FRAME else nodes[j - 1]
  }

  /** The sweep is at subject `j`: the tree is the original one but for the order of children, and
      but for the subject, which is out of it. */
  ghost predicate Measuring(s: State, original: Links, j: nat) {
    && j <= |s.nodes| && s.Valid() && s.index == j && s.node == Subject(s.nodes, j)
    && Steady(original, s.nodes)
    && exists l :: Same(original, l) && OutOfTree(s, l, j)
  }

  ghost predicate OutOfTree(s: State, l: Links, j: nat) {
    if j == 0 || j > |s.nodes| then s.links == l
    else s.nodes[j - 1] in l.parent && s.links == TakeOut(l, s.nodes[j - 1]) && s.parent == IdOf(l.parent[s.nodes[j - 1]])
  }

  lemma StartMeasures(s: State)
    requires s.Valid() && s.nodes != [] && Linked(s.links) && Steady(s.links, s.nodes) && s.node == 0 && s.tries == 0
    ensures Measuring(Begin(s), s.links, 0) && Begin(s).tries == 0
  {
    assert Same(s.links, s.links) && OutOfTree(Begin(s), s.links, 0);
  }

  lemma SubjectNotZero(s: State, original: Links, j: nat)
    requires Measuring(s, original, j)
    ensures s.node != 0
  {
  }

  /** Putting the subject back leaves the original tree. */
  lemma SubjectReturns(s: State, original: Links, j: nat)
    requires Linked(original) && Measuring(s, original, j)
    ensures Same(original, PutBack(s))
  {
    hide TakeOut, PutFront, Linked;
    var l :| Same(original, l) && OutOfTree(s, l, j);
    if j > 0 {
      var c := s.nodes[j - 1];
      SameLinked(original, l);
      TakeOutPutBack(l, c, l.parent[c]);
      TakeKeeps(l, c);
    }
  }

  lemma TakeKeeps(l: Links, c: NodeId)
    requires c in l.parent
    ensures TakeOut(l, c).registered == l.registered
  {
  }

  /** The step after a subject: the tree is `l` again, and the next subject, if any, is taken out. */
  lemma NextSubject(s: State, l: Links, original: Links, j: nat)
    requires s.Valid() && s.index == j + 1 && s.links == l && s.node == 0 && j <= |s.nodes|
    requires Steady(original, s.nodes) && Same(original, l)
    ensures var t := Step(s);
      && t == s.(node := t.node, parent := t.parent, index := t.index, links := t.links)
      && (if j < |s.nodes| then Measuring(t, original, j + 1)
          else t.node == 0 && t.index == -1 && Same(original, t.links))
  {
    hide Same, TakeOut, Steady;
    var t := Step(s);
    if j < |s.nodes| {
      SteadyAt(original, l, s.nodes, j);
      assert OutOfTree(t, l, j + 1);
    }
  }

  /** The frames of one subject: it is reported and put back, and the next one, if any, is out. */
  lemma SubjectDone(s: State, original: Links, j: nat, lengths: seq<u64>)
    requires Linked(original) && Measuring(s, original, j) && s.tries == 0 && |lengths| == SAMPLES
    ensures var t := Run(s, lengths);
      && t.tries == 0 && t.reports == s.reports + [(Subject(s.nodes, j), Median(lengths))]
      && (if j < |s.nodes| then Measuring(t, original, j + 1)
          else t.node == 0 && t.index == -1 && Same(original, t.links))
  {
    hide PutBack, SortedOf, Same, TakeOut, Run, FrameEnd, Linked, Steady, Step, OutOfTree, Median;
    SubjectNotZero(s, original, j);
    Measures(s, lengths);
    SubjectReturns(s, original, j);
    PutBackIgnores(s, lengths);
    var l := PutBack(s);
    var done := s.(times := SortedOf(lengths), reports := s.reports + [(s.node, Median(lengths))], links := l,
                   node := 0, parent := 0, tries := 0, index := j + 1);
    NextSubject(done, l, original, j);
    assert Finish(s.(times := lengths, tries := SAMPLES)) == Step(done);
  }

  lemma PutBackIgnores(s: State, times: seq<u64>)
    ensures PutBack(s.(times := times, tries := SAMPLES)) == PutBack(s)
  {
  }

  lemma SteadyAt(original: Links, l: Links, nodes: seq<NodeId>, j: nat)
    requires Steady(original, nodes) && Same(original, l) && j < |nodes|
    ensures nodes[j] in l.registered && nodes[j] in l.parent && nodes[j] != 0
  {
  }

  /** After the frames of `j` subjects. */
  lemma {:induction false} SweepAt(s: State, lengths: seq<u64>, j: nat)
    requires s.Valid() && s.nodes != [] && Linked(s.links) && Steady(s.links, s.nodes) && s.node == 0 && s.tries == 0
    requires |lengths| == SAMPLES * j && j <= |s.nodes| + 1
    ensures var t := Run(Begin(s), lengths);
      && t.tries == 0 && |t.reports| == |s.reports| + j
      && (forall i :: 0 <= i < j ==>
            t.reports[|s.reports| + i] == (Subject(s.nodes, i), Median(lengths[SAMPLES * i..SAMPLES * (i + 1)])))
      && (if j <= |s.nodes| then Measuring(t, s.links, j)
          else t.node == 0 && t.index == -1 && Same(s.links, t.links))
    decreases j
  {
    hide Measuring, Linked, Steady, Same, Median, FrameEnd, State.Valid;
    StartMeasures(s);
    if j > 0 {
      var n := SAMPLES * (j - 1);
      SweepAt(s, lengths[..n], j - 1);
      assert lengths == lengths[..n] + lengths[n..];
      RunAppends(Begin(s), lengths[..n], lengths[n..]);
      SubjectDone(Run(Begin(s), lengths[..n]), s.links, j - 1, lengths[n..]);
      var t := Run(Begin(s), lengths);
      forall i | 0 <= i < j
        ensures t.reports[|s.reports| + i] == (Subject(s.nodes, i), Median(lengths[SAMPLES * i..SAMPLES * (i + 1)]))
      {
        if i < j - 1 {
          assert lengths[..n][SAMPLES * i..SAMPLES * (i + 1)] == lengths[SAMPLES * i..SAMPLES * (i + 1)];
        } else {
          assert lengths[n..] == lengths[SAMPLES * i..SAMPLES * (i + 1)];
        }
      }
    } else {
      assert lengths == [];
    }
  }

  /** A sweep over n steady nodes takes exactly 64 * (n + 1) frames; it is busy after any smaller
      number of them, with at most one node out of the tree; at the end every parent has its
      children back, and the median of each subject's own frames has been reported. */
  lemma SweepTakes(s: State, lengths: seq<u64>)
    requires s.Valid() && s.nodes != [] && Linked(s.links) && Steady(s.links, s.nodes) && s.node == 0 && s.tries == 0
    requires |lengths| <= SAMPLES * (|s.nodes| + 1)
    ensures var t := Run(Begin(s), lengths);
      && (t.node != 0 <==> |lengths| < SAMPLES * (|s.nodes| + 1))
      && (t.node != 0 ==> Measuring(t, s.links, |lengths| / SAMPLES) && t.tries == |lengths| % SAMPLES)
      && (t.node == 0 ==> t.index == -1 && Same(s.links, t.links))
      && |t.reports| == |s.reports| + |lengths| / SAMPLES
  {
    hide Linked, Steady, Same, Median, FrameEnd, Run, Begin, OutOfTree;
    var j := |lengths| / SAMPLES;
    var n := SAMPLES * j;
    StartMeasures(s);
    SweepAt(s, lengths[..n], j);
    if j <= |s.nodes| {
      assert lengths == lengths[..n] + lengths[n..];
      RunAppends(Begin(s), lengths[..n], lengths[n..]);
      var u := Run(Begin(s), lengths[..n]);
      SubjectNotZero(u, s.links, j);
      Collects(u, lengths[n..]);
      var l :| Same(s.links, l) && OutOfTree(u, l, j);
      var t := Run(Begin(s), lengths);
      assert OutOfTree(t, l, j) by { OutAnyTimes(u, t, l, j); }
    } else {
      assert lengths[..n] == lengths;
    }
  }

  lemma OutAnyTimes(s: State, t: State, l: Links, j: nat)
    requires OutOfTree(s, l, j) && t == s.(times := t.times, tries := t.tries)
    ensures OutOfTree(t, l, j)
  {
  }

  // --- the globals ------------------------------------------------------------------------------------

  /** The profiler's globals for a measurement, changed by the calls in place. */
  class Measurement {
    var nodeSetPerf: seq<NodeId>
    var calcPerfNode: NodeId
    var calcPerfNodeTry: nat
    var calcPerfNodeTime: seq<u64>
    var calcPerfNodeParent: NodeId
    var calcPerfNodeIndex: nat
    var nodeSetPerfCalcIndex: int
    var links: Links
    var reports: seq<(NodeId, u64)>

    function View(): State
      reads this
    {
      State(nodeSetPerf, calcPerfNode, calcPerfNodeTry, calcPerfNodeTime, calcPerfNodeParent, nodeSetPerfCalcIndex,
            links, reports)
    }

    /** The remembered position among the siblings is never anything but the first one. */
    ghost predicate Valid()
      reads this
    {
      View().Valid() && calcPerfNodeIndex == 0
    }

    constructor (nodes: seq<NodeId>, links: Links, times: seq<u64>)
      requires |times| == SAMPLES
      ensures Valid() && View() == State(nodes, 0, 0, times, 0, -1, links, [])
    {
      nodeSetPerf, calcPerfNode, calcPerfNodeTry, calcPerfNodeTime := nodes, 0, 0, times;
      calcPerfNodeParent, calcPerfNodeIndex, nodeSetPerfCalcIndex := 0, 0, -1;
      this.links, reports := links, [];
    }

    method CalcPerfNodeAllStep()
      requires Valid()
      modifies this
      ensures Valid() && View() == Step(old(View()))
    {
      if nodeSetPerfCalcIndex < 0 {
        return;
      }
      if nodeSetPerfCalcIndex == 0 {
        calcPerfNode := ENTIRE_FRAME;
        return;
      }
      if nodeSetPerfCalcIndex - 1 < |nodeSetPerf| {
        calcPerfNode := nodeSetPerf[nodeSetPerfCalcIndex - 1];
      } else {
        nodeSetPerfCalcIndex := -1;
        return;
      }
      if calcPerfNode !in links.registered || calcPerfNode !in links.parent {
        nodeSetPerfCalcIndex := -1;
        return;
      }
      var parent := links.parent[calcPerfNode];
      var index := 0;
      calcPerfNodeParent := IdOf(parent);
      var siblings := links.Kids(parent);
      ghost var marked := View();
      for i := 0 to |siblings|
        invariant calcPerfNodeIndex == 0 && View() == marked
        invariant links == marked.links && calcPerfNode == marked.node
      {
        if siblings[i] == calcPerfNode {
          calcPerfNodeIndex := index;
        }
      }
      links := TakeOut(links, calcPerfNode);
    }

    method CalcPerfNodeAll()
      requires Valid()
      modifies this
      ensures Valid() && View() == Begin(old(View()))
    {
      if nodeSetPerf == [] {
        return;
      }
      nodeSetPerfCalcIndex := 0;
      CalcPerfNodeAllStep();
    }

    method CalcNodeWeightOnFrameEnd(frameLength: u64)
      requires Valid()
      modifies this
      ensures Valid() && View() == FrameEnd(old(View()), frameLength)
    {
      hide Finish;
      if calcPerfNode == 0 {
        return;
      }
      calcPerfNodeTime := calcPerfNodeTime[calcPerfNodeTry := frameLength];
      calcPerfNodeTry := calcPerfNodeTry + 1;
      if calcPerfNodeTry < SAMPLES {
        return;
      }
      Report();
    }

    method Report()
      requires |calcPerfNodeTime| == SAMPLES && calcPerfNodeIndex == 0 && nodeSetPerfCalcIndex >= -1
      modifies this
      ensures Valid() && View() == Finish(old(View()))
    {
      hide SortedOf, TakeOut, PutFront, Step;
      calcPerfNodeTime := SortedOf(calcPerfNodeTime);
      reports := reports + [(calcPerfNode, calcPerfNodeTime[SAMPLES / 2])];
      if calcPerfNode != ENTIRE_FRAME {
        var parent := links.Lookup(calcPerfNodeParent);
        if parent.Some? && calcPerfNode in links.registered {
          links := PutFront(links, parent.value, calcPerfNode);
        }
      }
      calcPerfNode := 0;
      calcPerfNodeParent := 0;
      calcPerfNodeIndex := 0;
      calcPerfNodeTry := 0;
      if nodeSetPerfCalcIndex >= 0 {
        nodeSetPerfCalcIndex := nodeSetPerfCalcIndex + 1;
        CalcPerfNodeAllStep();
      }
    }
  }
}
