/** Render nodes as they are written into a snapshot, one record a node. A modifier is the byte
    string that its parcel holds. */
module NodeRecord {
  import opened Bytes
  import opened Codec
  import opened NodeIds

  // --- data ---------------------------------------------------------------------------------

  const RS_NODE: u32 := 0x0001
  const DISPLAY_NODE: u32 := 0x0011
  const SURFACE_NODE: u32 := 0x0021
  const PROXY_NODE: u32 := 0x0041
  const CANVAS_NODE: u32 := 0x0081
  const EFFECT_NODE: u32 := 0x0101
  const ROOT_NODE: u32 := 0x1081
  const CANVAS_DRAWING_NODE: u32 := 0x2081

  const RENDER_METRICS_ADDED: u32 := 0x240701

  /** What only surface nodes have. */
  datatype Surface = Surface(name: bytes, bundleName: bytes, surfaceType: byte, bgAlpha: byte, globalAlpha: byte)

  const NO_SURFACE := Surface([], [], 0, 0, 0)

  /** Floats are their bits. `drawn` groups draw modifiers by type; `target` is what only proxy
      nodes have. */
  datatype Node = Node(
    nodeType: u32, textureExport: bool, surface: Surface, target: NodeId,
    positionZ: u32, pivotZ: u32, priority: byte, onTree: bool, group: byte,
    instanceRoot: NodeId, firstLevel: NodeId, modifiers: seq<blob>, drawn: seq<seq<blob>>)
  {
    /** Counts and lengths fit the fields they are written to; the count of modifiers is read
        back as a signed number. */
    predicate Fits() {
      && |surface.name| < TWO_32 && |surface.bundleName| < TWO_32
      && |modifiers| < 0x8000_0000 && |drawn| < TWO_32
      && forall i :: 0 <= i < |drawn| ==> |drawn[i]| < TWO_32
    }
  }

  /** The name gains a character when a surface is created again. */
  const MARK: byte := 0x5F

  // --- bytes and flags ------------------------------------------------------------------------

  function EncByte(x: byte): (e: bytes)
    ensures |e| == 1
  {
    [x]
  }

  function DecByte(b: bytes, off: nat): (r: Parsed<byte>)
    ensures r.Parsed? ==> r.next == off + 1 <= |b|
  {
    if off < |b| then Parsed(b[off], off + 1) else NoParse
  }

  lemma ByteRoundTrip(b: bytes, off: nat, x: byte)
    requires At(b, off, EncByte(x))
    ensures DecByte(b, off) == Parsed(x, off + 1)
  {
    ByteAt(b, off, EncByte(x), 0);
  }

  function EncBool(x: bool): (e: bytes)
    ensures |e| == 1
  {
    EncByte(if x then 1 else 0)
  }

  function DecBool(b: bytes, off: nat): (r: Parsed<bool>)
    ensures r.Parsed? ==> r.next == off + 1 <= |b|
  {
    var (x, o) :- DecByte(b, off);
    Parsed(x != 0, o)
  }

  lemma BoolRoundTrip(b: bytes, off: nat, x: bool)
    requires At(b, off, EncBool(x))
    ensures DecBool(b, off) == Parsed(x, off + 1)
  {
    ByteRoundTrip(b, off, if x then 1 else 0);
  }

  // --- modifiers ----------------------------------------------------------------------------------

  function EncList(ms: seq<blob>): (e: bytes)
    ensures |e| >= 4
  {
    EncU32(Trunc32(|ms|)) + EncAll(EncBlob, ms)
  }

  function DecList(b: bytes, off: nat): Parsed<seq<blob>> {
    var (n, o) :- DecU32(b, off);
    DecAll(DecBlob, b, o, n)
  }

  /** The reader of a node's own modifiers counts with a signed number. */
  function DecSignedList(b: bytes, off: nat): Parsed<seq<blob>> {
    var (n, o) :- DecI32(b, off);
    DecAll(DecBlob, b, o, if n < 0 then 0 else n)
  }

  lemma BlobsUndone(ms: seq<blob>)
    ensures Undoes(EncBlob, DecBlob, ms)
  {
    forall b: bytes, off: nat, i: nat | i < |ms| && At(b, off, EncBlob(ms[i]))
      ensures DecBlob(b, off) == Parsed(ms[i], off + |EncBlob(ms[i])|)
    {
      BlobRoundTrip(b, off, ms[i]);
    }
  }

  lemma ListRoundTrip(b: bytes, off: nat, ms: seq<blob>)
    requires At(b, off, EncList(ms)) && |ms| < TWO_32
    ensures DecList(b, off) == Parsed(ms, off + |EncList(ms)|)
  {
    hide At, EncU32, DecU32, EncAll, DecAll;
    AtConcat(b, off, EncU32(|ms|), EncAll(EncBlob, ms));
    U32RoundTrip(b, off, |ms|);
    BlobsUndone(ms);
    AllRoundTrip(EncBlob, DecBlob, b, off + 4, ms);
  }

  /** A list of 2^31 modifiers or more is counted as a negative number, and none of it is read. */
  lemma LongListLost(b: bytes, off: nat, ms: seq<blob>)
    requires At(b, off, EncList(ms)) && 0x8000_0000 <= |ms| < TWO_32
    ensures DecSignedList(b, off) == Parsed([], off + 4)
  {
    hide At, EncU32, DecU32, EncAll, EncBlob;
    AtConcat(b, off, EncU32(Trunc32(|ms|)), EncAll(EncBlob, ms));
    U32RoundTrip(b, off, |ms|);
    NoItems(b, off + 4);
  }

  lemma NoItems(b: bytes, off: nat)
    ensures DecAll(DecBlob, b, off, 0) == Parsed([], off)
  {
  }

  lemma SignedListRoundTrip(b: bytes, off: nat, ms: seq<blob>)
    requires At(b, off, EncList(ms)) && |ms| < 0x8000_0000
    ensures DecSignedList(b, off) == Parsed(ms, off + |EncList(ms)|)
  {
    hide At, EncU32, DecU32, EncAll, DecAll;
    AtConcat(b, off, EncU32(|ms|), EncAll(EncBlob, ms));
    I32RoundTrip(b, off, |ms|);
    BlobsUndone(ms);
    AllRoundTrip(EncBlob, DecBlob, b, off + 4, ms);
  }

  function EncLists(ls: seq<seq<blob>>): bytes {
    EncU32(Trunc32(|ls|)) + EncAll(EncList, ls)
  }

  function DecLists(b: bytes, off: nat): Parsed<seq<seq<blob>>> {
    var (n, o) :- DecU32(b, off);
    DecAll(DecList, b, o, n)
  }

  lemma ListsRoundTrip(b: bytes, off: nat, ls: seq<seq<blob>>)
    requires At(b, off, EncLists(ls)) && |ls| < TWO_32
    requires forall i :: 0 <= i < |ls| ==> |ls[i]| < TWO_32
    ensures DecLists(b, off) == Parsed(ls, off + |EncLists(ls)|)
  {
    hide At, EncU32, DecU32, EncAll, DecAll, EncList, DecList;
    AtConcat(b, off, EncU32(|ls|), EncAll(EncList, ls));
    U32RoundTrip(b, off, |ls|);
    forall a: bytes, o: nat, i: nat | i < |ls| && At(a, o, EncList(ls[i]))
      ensures DecList(a, o) == Parsed(ls[i], o + |EncList(ls[i])|)
    {
      ListRoundTrip(a, o, ls[i]);
    }
    AllRoundTrip(EncList, DecList, b, off + 4, ls);
  }

  // --- records ----------------------------------------------------------------------------------------

  function EncSurface(s: Surface): bytes {
    EncBlob32(s.name) + (EncBlob32(s.bundleName) + (EncByte(s.surfaceType) + (EncByte(s.bgAlpha) + EncByte(s.globalAlpha))))
  }

  function DecSurface(b: bytes, off: nat): Parsed<Surface> {
    var (name, o) :- DecBlob32(b, off);
    var (bundleName, o) :- DecBlob32(b, o);
    var (surfaceType, o) :- DecByte(b, o);
    var (bgAlpha, o) :- DecByte(b, o);
    var (globalAlpha, o) :- DecByte(b, o);
    Parsed(Surface(name, bundleName, surfaceType, bgAlpha, globalAlpha), o)
  }

  lemma SurfaceRoundTrip(b: bytes, off: nat, s: Surface)
    requires At(b, off, EncSurface(s)) && |s.name| < TWO_32 && |s.bundleName| < TWO_32
    ensures DecSurface(b, off) == Parsed(s, off + |EncSurface(s)|)
  {
    hide At, EncBlob32, DecBlob32, EncByte, DecByte;
    var bg := EncByte(s.bgAlpha) + EncByte(s.globalAlpha);
    var kind := EncByte(s.surfaceType) + bg;
    var o1 := off + |EncBlob32(s.name)|;
    var o2 := o1 + |EncBlob32(s.bundleName)|;
    AtConcat(b, off, EncBlob32(s.name), EncBlob32(s.bundleName) + kind);
    AtConcat(b, o1, EncBlob32(s.bundleName), kind);
    AtConcat(b, o2, EncByte(s.surfaceType), bg);
    AtConcat(b, o2 + 1, EncByte(s.bgAlpha), EncByte(s.globalAlpha));
    Blob32RoundTrip(b, off, s.name);
    Blob32RoundTrip(b, o1, s.bundleName);
    ByteRoundTrip(b, o2, s.surfaceType);
    ByteRoundTrip(b, o2 + 1, s.bgAlpha);
    ByteRoundTrip(b, o2 + 2, s.globalAlpha);
  }

  predicate HasGroup(version: u32) {
    version >= RENDER_METRICS_ADDED
  }

  /** `MarshalNodeModifiers`. */
  function EncModifiers(n: Node): bytes {
    EncU64(n.instanceRoot) + (EncU64(n.firstLevel) + (EncList(n.modifiers) + EncLists(n.drawn)))
  }

  function EncGroup(n: Node, version: u32): bytes {
    if HasGroup(version) then EncByte(n.group) else []
  }

  /** The common part of a record. */
  function EncProperties(n: Node, version: u32): bytes {
    EncU32(n.positionZ) + (EncU32(n.pivotZ) + (EncByte(n.priority) + (EncBool(n.onTree)
    + (EncGroup(n, version) + EncModifiers(n)))))
  }

  /** `MarshalNode`. */
  function EncNode(id: NodeId, n: Node, version: u32): bytes {
    EncU32(n.nodeType) + (EncU64(id) + (EncBool(n.textureExport)
    + ((if n.nodeType == SURFACE_NODE then EncSurface(n.surface) else []) + EncProperties(n, version))))
  }

  datatype Tail = Tail(instanceRoot: NodeId, firstLevel: NodeId, modifiers: seq<blob>, drawn: seq<seq<blob>>)

  function DecModifiers(b: bytes, off: nat): Parsed<Tail> {
    var (instanceRoot, o) :- DecU64(b, off);
    var (firstLevel, o) :- DecU64(b, o);
    var (modifiers, o) :- DecSignedList(b, o);
    var (drawn, o) :- DecLists(b, o);
    Parsed(Tail(instanceRoot, firstLevel, modifiers, drawn), o)
  }

  function DecGroup(b: bytes, off: nat, version: u32): Parsed<byte> {
    if HasGroup(version) then DecByte(b, off) else Parsed(0, off)
  }

  /** A record without interpretation: what each read delivers. */
  function DecNode(b: bytes, off: nat, version: u32): Parsed<(NodeId, Node)> {
    var (nodeType, o) :- DecU32(b, off);
    var (id, o) :- DecU64(b, o);
    var (textureExport, o) :- DecBool(b, o);
    var (surface, o) :- if nodeType == SURFACE_NODE then DecSurface(b, o) else Parsed(NO_SURFACE, o);
    var (positionZ, o) :- DecU32(b, o);
    var (pivotZ, o) :- DecU32(b, o);
    var (priority, o) :- DecByte(b, o);
    var (onTree, o) :- DecBool(b, o);
    var (group, o) :- DecGroup(b, o, version);
    var (tail, o) :- DecModifiers(b, o);
    Parsed((id, Node(nodeType, textureExport, surface, 0, positionZ, pivotZ, priority, onTree, group,
                     tail.instanceRoot, tail.firstLevel, tail.modifiers, tail.drawn)), o)
  }

  /** A node without the parts that a snapshot leaves out. */
  function Written(n: Node, version: u32): Node {
    n.(surface := if n.nodeType == SURFACE_NODE then n.surface else NO_SURFACE, target := 0,
       group := if HasGroup(version) then n.group else 0)
  }

  /** The group is one byte of the record from file version 0x240701 on, and lost below. */
  lemma GroupWritten(n: Node, version: u32)
    ensures |EncGroup(n, version)| == (if version >= 0x240701 then 1 else 0)
    ensures Written(n, version).group == (if version >= 0x240701 then n.group else 0)
    ensures n.nodeType != 0x0021 ==> Written(n, version).surface == Surface([], [], 0, 0, 0)
    ensures n.nodeType == 0x0021 ==> Written(n, version).surface == n.surface
  {
  }

  lemma ModifiersRoundTrip(b: bytes, off: nat, n: Node)
    requires At(b, off, EncModifiers(n)) && n.Fits()
    ensures DecModifiers(b, off)
         == Parsed(Tail(n.instanceRoot, n.firstLevel, n.modifiers, n.drawn), off + |EncModifiers(n)|)
  {
    hide At, EncU64, DecU64, EncList, DecSignedList, EncLists, DecLists;
    var lists := EncList(n.modifiers) + EncLists(n.drawn);
    AtConcat(b, off, EncU64(n.instanceRoot), EncU64(n.firstLevel) + lists);
    AtConcat(b, off + 8, EncU64(n.firstLevel), lists);
    AtConcat(b, off + 16, EncList(n.modifiers), EncLists(n.drawn));
    U64RoundTrip(b, off, n.instanceRoot);
    U64RoundTrip(b, off + 8, n.firstLevel);
    SignedListRoundTrip(b, off + 16, n.modifiers);
    ListsRoundTrip(b, off + 16 + |EncList(n.modifiers)|, n.drawn);
  }

  /** At either version a record, wherever it stands, reads back as what it was written from, and
      reading stops at its end. */
  lemma NodeRoundTrip(b: bytes, off: nat, id: NodeId, n: Node, version: u32)
    requires At(b, off, EncNode(id, n, version)) && n.Fits()
    ensures DecNode(b, off, version) == Parsed((id, Written(n, version)), off + |EncNode(id, n, version)|)
  {
    hide At, EncU64, DecU64, EncU32, DecU32, EncByte, DecByte, EncBool, DecBool, EncSurface, DecSurface;
    hide EncModifiers, DecModifiers;
    var surface := if n.nodeType == SURFACE_NODE then EncSurface(n.surface) else [];
    var flag := EncBool(n.textureExport) + (surface + EncProperties(n, version));
    AtConcat(b, off, EncU32(n.nodeType), EncU64(id) + flag);
    AtConcat(b, off + 4, EncU64(id), flag);
    AtConcat(b, off + 12, EncBool(n.textureExport), surface + EncProperties(n, version));
    AtConcat(b, off + 13, surface, EncProperties(n, version));
    U32RoundTrip(b, off, n.nodeType);
    U64RoundTrip(b, off + 4, id);
    BoolRoundTrip(b, off + 12, n.textureExport);
    if n.nodeType == SURFACE_NODE {
      SurfaceRoundTrip(b, off + 13, n.surface);
    }
    var o := off + 13 + |surface|;
    var group := EncGroup(n, version);
    var tree := EncBool(n.onTree) + (group + EncModifiers(n));
    AtConcat(b, o, EncU32(n.positionZ), EncU32(n.pivotZ) + (EncByte(n.priority) + tree));
    AtConcat(b, o + 4, EncU32(n.pivotZ), EncByte(n.priority) + tree);
    AtConcat(b, o + 8, EncByte(n.priority), tree);
    AtConcat(b, o + 9, EncBool(n.onTree), group + EncModifiers(n));
    AtConcat(b, o + 10, group, EncModifiers(n));
    U32RoundTrip(b, o, n.positionZ);
    U32RoundTrip(b, o + 4, n.pivotZ);
    ByteRoundTrip(b, o + 8, n.priority);
    BoolRoundTrip(b, o + 9, n.onTree);
    if HasGroup(version) {
      ByteRoundTrip(b, o + 10, n.group);
    }
    ModifiersRoundTrip(b, o + 10 + |group|, n);
  }

  const ZERO_3: bytes := [0, 0, 0]
  const ZERO_7: bytes := [0, 0, 0, 0, 0, 0, 0]

  /** One canvas with one modifier, byte by byte: type, id, texture flag; depth, pivot, priority, on-tree
      flag, group; instance root, first-level node, modifiers, and no draw modifiers. */
  lemma GoldenNode()
    ensures var n := Node(0x0081, true, NO_SURFACE, 0, 10, 11, 12, true, 13, 14, 15, [[16]], []);
      var tail := ([14] + ZERO_7) + (([15] + ZERO_7) + (([1] + ZERO_3 + ([1] + ZERO_7 + [16])) + ([0] + ZERO_3)));
      EncNode(9, n, 0x240701)
      == ([0x81] + ZERO_3) + (([9] + ZERO_7) + ([1] + ([] +
           (([10] + ZERO_3) + (([11] + ZERO_3) + ([12] + ([1] + ([13] + tail))))))))
  {
    NodeWords();
    hide EncU32, EncU64, EncList, EncLists, EncBlob;
    GoldenLists();
  }

  lemma GoldenLists()
    ensures EncList([[16]]) == [1] + ZERO_3 + ([1] + ZERO_7 + [16]) && EncLists([]) == [0] + ZERO_3
  {
    NodeWords();
    hide EncU32, EncU64;
    var one: seq<blob> := [[16]];
    assert one[1..] == [];
    assert EncAll(EncBlob, one) == EncBlob([16]) + [];
    assert EncBlob([16]) == [1] + ZERO_7 + [16];
  }

  lemma NodeWords()
    ensures EncU32(0x0081) == [0x81] + ZERO_3 && EncU64(9) == [9] + ZERO_7 && EncU32(10) == [10] + ZERO_3
    ensures EncU32(11) == [11] + ZERO_3 && EncU64(14) == [14] + ZERO_7 && EncU64(15) == [15] + ZERO_7
    ensures EncU32(1) == [1] + ZERO_3 && EncU64(1) == [1] + ZERO_7 && EncU32(0) == [0] + ZERO_3
  {
  }

  // --- what becomes of a record ---------------------------------------------------------------------------

  /** Types that are created as themselves; all others become root nodes. */
  predicate KeepsType(nodeType: u32) {
    nodeType in {SURFACE_NODE, PROXY_NODE, CANVAS_NODE, EFFECT_NODE, CANVAS_DRAWING_NODE}
  }

  function Flat(ls: seq<seq<blob>>): seq<blob> {
    if ls == [] then [] else ls[0] + Flat(ls[1..])
  }

  /** The modifiers a record adds to a node, in order. */
  function Added(n: Node): seq<blob> {
    n.modifiers + Flat(n.drawn)
  }

  /** The node that is created for a record, before its values are set. A proxy is created with the
      texture flag in the place of its target and is never a texture export node itself. */
  function Created(n: Node): Node {
    Node(if KeepsType(n.nodeType) then n.nodeType else ROOT_NODE,
         n.textureExport && n.nodeType != PROXY_NODE,
         if n.nodeType == SURFACE_NODE then n.surface.(name := n.surface.name + [MARK]) else NO_SURFACE,
         if n.nodeType == PROXY_NODE && n.textureExport then 1 else 0,
         0, 0, 0, false, 0, 0, 0, [], [])
  }

  /** The effect of a record's values on a node. */
  function Onto(prior: Node, n: Node): Node {
    prior.(positionZ := n.positionZ, pivotZ := n.pivotZ, priority := n.priority, onTree := n.onTree, group := n.group,
           instanceRoot := PatchNodeId(n.instanceRoot), firstLevel := PatchNodeId(n.firstLevel),
           modifiers := prior.modifiers + Added(n))
  }

  function Restored(n: Node): Node {
    Onto(Created(n), n)
  }

  /** What a snapshot keeps of a node and what it changes. Surface, proxy, canvas, effect, root and
      canvas drawing nodes come back as what they were, and all others as root nodes. A proxy loses
      its texture flag to its target. */
  lemma RestoredFields(n: Node)
    ensures var r := Restored(n);
      && (r.positionZ, r.pivotZ, r.priority, r.onTree, r.group) == (n.positionZ, n.pivotZ, n.priority, n.onTree, n.group)
      && (n.nodeType in {0x0021, 0x0041, 0x0081, 0x0101, 0x1081, 0x2081} ==> r.nodeType == n.nodeType)
      && (n.nodeType !in {0x0021, 0x0041, 0x0081, 0x0101, 0x1081, 0x2081} ==> r.nodeType == 0x1081)
      && (n.nodeType != 0x0041 ==> r.textureExport == n.textureExport && r.target == 0)
      && (n.nodeType == 0x0041 ==> !r.textureExport && r.target == if n.textureExport then 1 else 0)
      && (n.nodeType == 0x0021 ==>
            r.surface.name == n.surface.name + ['_' as byte] && r.surface == n.surface.(name := r.surface.name))
      && (n.nodeType != 0x0021 ==> r.surface == Surface([], [], 0, 0, 0))
      && IsNodeIdPatched(r.instanceRoot) && IsNodeIdPatched(r.firstLevel)
      && ExtractNodeId(r.instanceRoot) == ExtractNodeId(n.instanceRoot)
      && ExtractNodeId(r.firstLevel) == ExtractNodeId(n.firstLevel)
      && n.modifiers <= r.modifiers && |r.modifiers| == |n.modifiers| + Total(n.drawn) && r.drawn == []
  {
    PatchIsMockPid(n.instanceRoot);
    PatchIsMockPid(n.firstLevel);
    FlatLength(n.drawn);
  }

  function Total(ls: seq<seq<blob>>): nat {
    if ls == [] then 0 else |ls[0]| + Total(ls[1..])
  }

  lemma {:induction false} FlatLength(ls: seq<seq<blob>>)
    ensures |Flat(ls)| == Total(ls)
  {
    if ls != [] {
      FlatLength(ls[1..]);
    }
  }

  /** Every draw modifier is added, in the order of the lists. */
  lemma {:induction false} FlatHolds(ls: seq<seq<blob>>, i: nat, j: nat)
    requires i < |ls| && j < |ls[i]|
    ensures Total(ls[..i]) + j < |Flat(ls)| && Flat(ls)[Total(ls[..i]) + j] == ls[i][j]
    decreases |ls|
  {
    FlatLength(ls);
    if i > 0 {
      FlatHolds(ls[1..], i - 1, j);
      assert ls[..i][1..] == ls[1..][..i - 1];
    }
  }

  /** Taking a snapshot of a restored node changes neither its type nor its ids again. */
  lemma RestoredTwice(n: Node)
    ensures var r, t := Restored(n), Restored(Restored(n));
      && t.nodeType == r.nodeType && t.instanceRoot == r.instanceRoot && t.firstLevel == r.firstLevel
      && t.modifiers == r.modifiers
  {
    PatchIsMockPid(n.instanceRoot);
    PatchIsMockPid(n.firstLevel);
  }
}
