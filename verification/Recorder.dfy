/** `RSFile` as a state machine on values: what each call does to the file and the tables, and
    the ideal recorder it is compared with, which just remembers what it was given. */
module Recorder {
  import opened Bytes
  import opened Codec
  import opened OrderedMap
  import opened RecordingFormat
  import CD = CaptureData
  import IC = ImageCache

  // --- the state and its steps --------------------------------------------------------

  /** `RSFileLayer`; `index` holds the read positions. */
  datatype Layer = Layer(header: Extent, property: CD.CaptureData, markup: Tracks<Markup>, index: Tracks<u32>) {
    function Doc(): LayerDoc {
      LayerDoc(property, markup)
    }
  }

  const NO_INDEX: Tracks<u32> := Tracks(0, 0, 0, 0, 0, 0)
  const NEW_LAYER := Layer(Extent(0, 0), CD.EMPTY, NO_MARKUP, NO_INDEX)

  /** The fields of an open `RSFile`, the bytes of its file and the image cache. */
  datatype State = State(
    data: bytes, version: u32, start: u64, headerOff: u32, pids: seq<i32>, firstFrame: bytes, layers: seq<Layer>,
    off: u32, changed: bool, prepared: bytes, preparedMode: bool, images: IC.Images)
  {
    function Header(): SubHeader {
      SubHeader(start, pids, firstFrame, images)
    }

    /** In prepared mode the header is copied as it was handed over. */
    function HeaderBytes(): bytes {
      if preparedMode then prepared else EncSubHeader(Header())
    }

    function Extents(): (r: seq<Extent>)
      ensures |r| == |layers|
    {
      seq(|layers|, l requires 0 <= l < |layers| => layers[l].header)
    }

    function Docs(): (r: seq<LayerDoc>)
      ensures |r| == |layers|
    {
      seq(|layers|, l requires 0 <= l < |layers| => layers[l].Doc())
    }
  }

  /** `Create`: twelve bytes of preamble, but data starts at offset 8. */
  function Create(s: State): State {
    s.(data := EncU32(MAGIC) + EncU32(s.version) + EncU32(0), headerOff := 0, off := MARKUP_SIZE, changed := true)
  }

  /** `LayerWriteHeader`: appends the table of layer `l` and remembers where it is. */
  function WriteTable(s: State, l: nat): State
    requires l < |s.layers|
  {
    var table := EncLayer(s.version, s.layers[l].Doc());
    s.(data := Overwrite(s.data, s.off, table),
       layers := s.layers[l := s.layers[l].(header := Extent(s.off, Trunc32(|table|)))],
       off := Trunc32(s.off + |table|))
  }

  function WriteTables(s: State, n: nat): (r: State)
    requires n <= |s.layers|
    ensures |r.layers| == |s.layers|
    ensures r.version == s.version && r.Header() == s.Header() && r.changed == s.changed
    ensures r.prepared == s.prepared && r.preparedMode == s.preparedMode && |r.data| >= |s.data|
  {
    if n == 0 then s else WriteTable(WriteTables(s, n - 1), n - 1)
  }

  /** `WriteHeader`: the global header goes behind all data without advancing the write offset,
      and its position is patched into the preamble. */
  function WriteHeader(s: State): State {
    var body := s.HeaderBytes() + EncTrack(s.Extents());
    s.(data := Overwrite(Overwrite(s.data, s.off, body), PREAMBLE_SIZE, EncU32(s.off)),
       headerOff := s.off,
       prepared := if s.preparedMode then [] else s.prepared)
  }

  function WriteHeaders(s: State): State {
    if s.changed then WriteHeader(WriteTables(s, |s.layers|)) else s
  }

  /** A header write changes header offset and file alone, but that prepared bytes are used up in prepared
      mode; all header writes, tables included, wait for a change. */
  lemma HeaderFields(s: State)
    ensures WriteHeader(s) == s.(data := WriteHeader(s).data, headerOff := s.off,
                                 prepared := if s.preparedMode then [] else s.prepared)
    ensures !s.changed ==> WriteHeaders(s) == s
    ensures s.changed ==> WriteHeaders(s).headerOff == WriteTables(s, |s.layers|).off
  {
  }

  /** `WriteTrackData`: time and payload go to the write offset; without layers nothing happens. */
  function WriteTrack(s: State, k: TrackKind, l: nat, time: u64, payload: bytes): State
    requires s.layers == [] || l < |s.layers|
  {
    if s.layers == [] then s
    else
      var layer := s.layers[l];
      var entry := Extent(s.off, Trunc32(|payload| + 8));
      s.(data := Overwrite(s.data, s.off, EncU64(time) + payload),
         layers := s.layers[l := layer.(markup := layer.markup.Set(k, layer.markup.Get(k) + [entry]))],
         off := Trunc32(s.off + 8 + |payload|))
  }

  function AddLayer(s: State): State {
    s.(layers := s.layers + [NEW_LAYER], changed := true)
  }

  function AddPid(s: State, pid: i32): State {
    if pid in s.pids then s else s.(pids := s.pids + [pid], changed := true)
  }

  function AddFirstFrame(s: State, frame: bytes): State {
    s.(firstFrame := frame, changed := true)
  }

  function AddProperty(s: State, l: nat, name: blob, value: blob): State {
    if l >= |s.layers| then s
    else s.(layers := s.layers[l := s.layers[l].(property := s.layers[l].property.SetProperty(name, value))],
            changed := true)
  }

  /** Whatever alters what the headers hold has them written again, also in a file that was opened and
      not changed so far: a layer, a first frame, a new pid, a property of a layer that exists. A known
      pid and a missing layer alter nothing. */
  lemma ChangesCount(s: State, pid: i32, frame: bytes, l: nat, name: blob, value: blob)
    ensures Create(s).changed && Create(s).headerOff == 0
    ensures AddLayer(s).changed && AddFirstFrame(s, frame).changed
    ensures if pid in s.pids then AddPid(s, pid) == s else AddPid(s, pid).changed
    ensures if l >= |s.layers| then AddProperty(s, l, name, value) == s else AddProperty(s, l, name, value).changed
  {
  }

  // --- the ideal recorder -------------------------------------------------------------------

  datatype Record = Record(time: u64, payload: bytes) {
    function Encode(): bytes {
      EncU64(time) + payload
    }
  }

  datatype IdealLayer = IdealLayer(property: CD.CaptureData, records: Tracks<seq<Record>>)

  datatype Ideal = Ideal(header: SubHeader, layers: seq<IdealLayer>)

  const NO_RECORDS: Tracks<seq<Record>> := Tracks([], [], [], [], [], [])

  /** The calls a recording consists of. A snapshot is `GetDataCopy`; images enter the cache
      while parcels are recorded. */
  datatype Op =
    | OpLayer
    | OpPid(pid: i32)
    | OpFirstFrame(frame: bytes)
    | OpStart(start: u64)
    | OpProperty(layer: nat, name: blob, value: blob)
    | OpRecord(kind: TrackKind, layer: nat, record: Record)
    | OpImage(id: u64, image: IC.Image)
    | OpSnapshot

  /** A record may not name a layer that does not exist. */
  predicate Legal(layerCount: nat, op: Op) {
    op.OpRecord? ==> layerCount == 0 || op.layer < layerCount
  }

  function CacheImage(images: IC.Images, id: u64, image: IC.Image): IC.Images {
    if image.IsValid() && Lookup(images, id).None? then Put<u64, IC.Image>(IdLess, images, id, image, false) else images
  }

  /** An image enters the cache exactly when it has between one byte and 600 MiB and its id is free;
      what is there stays. */
  lemma CacheImageIs(images: IC.Images, id: u64, image: IC.Image, other: u64)
    requires Sorted<u64, IC.Image>(IdLess, images)
    ensures var after := CacheImage(images, id, image);
      && Sorted<u64, IC.Image>(IdLess, after)
      && Lookup(after, other) == if other == id && 0 < |image.data| < 629145600 && Lookup(images, id).None? then Some(image)
                                 else Lookup(images, other)
  {
    IdLessIsStrictOrder();
    PutCorrect<u64, IC.Image>(IdLess, images, id, image, false, other);
  }

  /** The number of layers behind a call. */
  function LayersAfter(layerCount: nat, op: Op): nat {
    if op.OpLayer? then layerCount + 1 else layerCount
  }

  function Step(s: State, op: Op): (t: State)
    requires Legal(|s.layers|, op)
    ensures |t.layers| == LayersAfter(|s.layers|, op)
    ensures |s.data| <= |t.data|
    ensures t.version == s.version && t.preparedMode == s.preparedMode
  {
    match op
    case OpLayer => AddLayer(s)
    case OpPid(pid) => AddPid(s, pid)
    case OpFirstFrame(frame) => AddFirstFrame(s, frame)
    case OpStart(start) => s.(start := start)
    case OpProperty(l, name, value) => AddProperty(s, l, name, value)
    case OpRecord(k, l, record) => WriteTrack(s, k, l, record.time, record.payload)
    case OpImage(id, image) => s.(images := CacheImage(s.images, id, image))
    case OpSnapshot => WriteHeaders(s)
  }

  function IdealStep(g: Ideal, op: Op): (h: Ideal)
    requires Legal(|g.layers|, op)
    ensures |h.layers| == LayersAfter(|g.layers|, op)
  {
    var h := g.header;
    match op
    case OpLayer => g.(layers := g.layers + [IdealLayer(CD.EMPTY, NO_RECORDS)])
    case OpPid(pid) => if pid in h.pids then g else g.(header := h.(pids := h.pids + [pid]))
    case OpFirstFrame(frame) => g.(header := h.(firstFrame := frame))
    case OpStart(start) => g.(header := h.(start := start))
    case OpProperty(l, name, value) =>
      if l >= |g.layers| then g
      else g.(layers := g.layers[l := g.layers[l].(property := g.layers[l].property.SetProperty(name, value))])
    case OpRecord(k, l, record) =>
      if g.layers == [] then g
      else
        var records := g.layers[l].records;
        g.(layers := g.layers[l := g.layers[l].(records := records.Set(k, records.Get(k) + [record]))])
    case OpImage(id, image) => g.(header := h.(images := CacheImage(h.images, id, image)))
    case OpSnapshot => g
  }

  predicate LegalRun(layerCount: nat, ops: seq<Op>)
    decreases |ops|
  {
    ops == [] || (Legal(layerCount, ops[0]) && LegalRun(LayersAfter(layerCount, ops[0]), ops[1..]))
  }

  function Run(s: State, ops: seq<Op>): (t: State)
    requires LegalRun(|s.layers|, ops)
    ensures |s.data| <= |t.data|
    ensures t.version == s.version && t.preparedMode == s.preparedMode
    decreases |ops|
  {
    if ops == [] then s else Run(Step(s, ops[0]), ops[1..])
  }

  function IdealRun(g: Ideal, ops: seq<Op>): Ideal
    requires LegalRun(|g.layers|, ops)
    decreases |ops|
  {
    if ops == [] then g else IdealRun(IdealStep(g, ops[0]), ops[1..])
  }

  // --- the invariant ----------------------------------------------------------------------------

  /** Record `r` occupies extent `e`. The four bytes at offset 8 belong to the preamble as well,
      so a record that starts there is only vouched for behind them. */
  predicate Stored(data: bytes, off: nat, e: Extent, r: Record) {
    && (e.first == PREAMBLE_SIZE || PREAMBLE_SIZE + 4 <= e.first)
    && e.first + e.second <= off
    && e.second == 8 + |r.payload|
    && (e.first == PREAMBLE_SIZE ==> At(data, PREAMBLE_SIZE + 4, r.Encode()[4..]))
    && (e.first != PREAMBLE_SIZE ==> At(data, e.first, r.Encode()))
  }

  predicate TrackStored(data: bytes, off: nat, m: Markup, rs: seq<Record>) {
    |m| == |rs| && forall i :: 0 <= i < |m| ==> Stored(data, off, m[i], rs[i])
  }

  ghost predicate LayerStored(data: bytes, off: nat, m: Tracks<Markup>, rs: Tracks<seq<Record>>) {
    forall k: TrackKind :: TrackStored(data, off, m.Get(k), rs.Get(k))
  }

  /** The place of one record among all layers and tracks. */
  datatype Place = Place(layer: nat, kind: TrackKind, index: nat)

  predicate Exists(layers: seq<Layer>, p: Place) {
    p.layer < |layers| && p.index < |layers[p.layer].markup.Get(p.kind)|
  }

  function ExtentAt(layers: seq<Layer>, p: Place): Extent
    requires Exists(layers, p)
  {
    layers[p.layer].markup.Get(p.kind)[p.index]
  }

  /** No two records share a byte. */
  ghost predicate Separate(layers: seq<Layer>) {
    forall p, q :: Exists(layers, p) && Exists(layers, q) && p != q ==> ExtentAt(layers, p).Apart(ExtentAt(layers, q))
  }

  /** The file holds everything the ideal recorder remembers. */
  ghost predicate Holds(data: bytes, off: nat, layers: seq<Layer>, g: seq<IdealLayer>) {
    && |layers| == |g|
    && forall l :: 0 <= l < |g| ==>
         && layers[l].property == g[l].property
         && layers[l].property.Valid()
         && LayerStored(data, off, layers[l].markup, g[l].records)
  }

  ghost predicate Inv(s: State, g: Ideal) {
    && PREAMBLE_SIZE + 4 <= |s.data| < TWO_32
    && (s.off == PREAMBLE_SIZE || PREAMBLE_SIZE + 4 <= s.off) && s.off <= |s.data|
    && At(s.data, 0, EncU32(MAGIC)) && At(s.data, 4, EncU32(s.version))
    && s.Header() == g.header && g.header.Valid()
    && (forall i, j :: 0 <= i < j < |s.pids| ==> s.pids[i] != s.pids[j])
    && Holds(s.data, s.off, s.layers, g.layers)
    && Separate(s.layers)
    && s.changed
  }

  // --- every step keeps the invariant -------------------------------------------------------------

  /** Records survive a change of the file that leaves [12, off) and everything before 8 alone. */
  lemma StoredKept(data: bytes, off: nat, data': bytes, off': nat)
    requires off <= off' && off <= |data| <= |data'|
    requires PREAMBLE_SIZE + 4 <= off ==> data'[PREAMBLE_SIZE + 4..off] == data[PREAMBLE_SIZE + 4..off]
    ensures forall e, r :: Stored(data, off, e, r) ==> Stored(data', off', e, r)
  {
    forall e: Extent, r: Record | Stored(data, off, e, r)
      ensures Stored(data', off', e, r)
    {
      var x := if e.first == PREAMBLE_SIZE then r.Encode()[4..] else r.Encode();
      var o := if e.first == PREAMBLE_SIZE then PREAMBLE_SIZE + 4 else e.first;
      assert |r.Encode()| == e.second;
      AtInside(data, data', PREAMBLE_SIZE + 4, off, o, x);
    }
  }

  lemma HoldsKept(data: bytes, off: nat, data': bytes, off': nat, layers: seq<Layer>, layers': seq<Layer>, g: seq<IdealLayer>)
    requires off <= off' && off <= |data| <= |data'|
    requires PREAMBLE_SIZE + 4 <= off ==> data'[PREAMBLE_SIZE + 4..off] == data[PREAMBLE_SIZE + 4..off]
    requires |layers'| == |layers| && forall l :: 0 <= l < |layers| ==> layers'[l].Doc() == layers[l].Doc()
    requires Holds(data, off, layers, g) && Separate(layers)
    ensures Holds(data', off', layers', g) && Separate(layers')
  {
    StoredKept(data, off, data', off');
    forall l | 0 <= l < |g|
      ensures LayerStored(data', off', layers'[l].markup, g[l].records)
    {
      assert layers'[l].Doc().markup == layers[l].markup;
      forall k: TrackKind
        ensures TrackStored(data', off', layers'[l].markup.Get(k), g[l].records.Get(k))
      {
        assert TrackStored(data, off, layers[l].markup.Get(k), g[l].records.Get(k));
      }
    }
    forall l | 0 <= l < |g|
      ensures layers'[l].property == g[l].property && layers'[l].property.Valid()
    {
      assert layers'[l].Doc().property == layers[l].property;
    }
    forall p, q | Exists(layers', p) && Exists(layers', q) && p != q
      ensures ExtentAt(layers', p).Apart(ExtentAt(layers', q))
    {
      assert layers'[p.layer].Doc().markup == layers[p.layer].markup;
      assert layers'[q.layer].Doc().markup == layers[q.layer].markup;
      assert Exists(layers, p) && Exists(layers, q);
    }
  }

  lemma LayerBytes(version: u32, d: LayerDoc)
    ensures |EncLayer(version, d)| >= 4
  {
  }

  /** Writing behind the data and the preamble word are the only effects of a header write. */
  lemma TableKeepsInv(s: State, l: nat, g: Ideal)
    requires Inv(s, g) && l < |s.layers| && |WriteTable(s, l).data| < TWO_32
    ensures Inv(WriteTable(s, l), g)
    ensures WriteTable(s, l).off == s.off + |EncLayer(s.version, s.layers[l].Doc())|
  {
    hide At, Holds, EncLayer, EncU32, Separate, Overwrite, SubHeader.Valid;
    var table := EncLayer(s.version, s.layers[l].Doc());
    var t := WriteTable(s, l);
    LayerBytes(s.version, s.layers[l].Doc());
    OverwriteEffect(s.data, s.off, table);
    OverwriteKeeps(s.data, s.off, table, 0, EncU32(MAGIC));
    OverwriteKeeps(s.data, s.off, table, 4, EncU32(s.version));
    assert t.data[..s.off] == s.data[..s.off];
    HoldsKept(s.data, s.off, t.data, t.off, s.layers, t.layers, g.layers);
  }

  lemma HeaderKeepsInv(s: State, g: Ideal)
    requires Inv(s, g) && |WriteHeader(s).data| < TWO_32
    ensures Inv(WriteHeader(s), g)
  {
    hide At, Holds, EncTrack, EncU32, Separate, Overwrite, SubHeader.Valid, State.HeaderBytes;
    var body := s.HeaderBytes() + EncTrack(s.Extents());
    var mid := Overwrite(s.data, s.off, body);
    var t := WriteHeader(s);
    OverwriteEffect(s.data, s.off, body);
    OverwriteEffect(mid, PREAMBLE_SIZE, EncU32(s.off));
    OverwriteKeeps(s.data, s.off, body, 0, EncU32(MAGIC));
    OverwriteKeeps(s.data, s.off, body, 4, EncU32(s.version));
    OverwriteKeeps(mid, PREAMBLE_SIZE, EncU32(s.off), 0, EncU32(MAGIC));
    OverwriteKeeps(mid, PREAMBLE_SIZE, EncU32(s.off), 4, EncU32(s.version));
    if PREAMBLE_SIZE + 4 <= s.off {
      assert mid[..s.off] == s.data[..s.off];
      assert t.data[12..] == mid[12..];
      assert t.data[12..s.off] == t.data[12..][..s.off - 12] == mid[12..s.off] == s.data[12..s.off];
    }
    HoldsKept(s.data, s.off, t.data, t.off, s.layers, t.layers, g.layers);
  }

  /** Appending a record: the new extent starts where every other one has ended. */
  lemma RecordKeepsInv(s: State, g: Ideal, k: TrackKind, l: nat, r: Record)
    requires Inv(s, g) && l < |s.layers|
    requires |WriteTrack(s, k, l, r.time, r.payload).data| < TWO_32
    ensures Inv(WriteTrack(s, k, l, r.time, r.payload), IdealStep(g, OpRecord(k, l, r)))
  {
    hide At, Overwrite, EncU64, EncU32, Holds, Separate, SubHeader.Valid;
    LayersAlike(s, g);
    RecordStored(s, g, k, l, r);
    var t := WriteTrack(s, k, l, r.time, r.payload);
    var h := IdealStep(g, OpRecord(k, l, r));
    var e := Extent(s.off, 8 + |r.payload|);
    assert Holds(t.data, t.off, s.layers, g.layers) by {
      HoldsKept(s.data, s.off, t.data, t.off, s.layers, s.layers, g.layers);
    }
    RecordHeld(t.data, t.off, s.layers, t.layers, g.layers, h.layers, k, l, e, r);
    RecordSeparate(s.data, s.off, s.layers, t.layers, g.layers, k, l, e);
  }

  lemma RecordStored(s: State, g: Ideal, k: TrackKind, l: nat, r: Record)
    requires Inv(s, g) && l < |s.layers|
    requires |WriteTrack(s, k, l, r.time, r.payload).data| < TWO_32
    ensures var t := WriteTrack(s, k, l, r.time, r.payload);
      && s.off + 8 + |r.payload| == t.off <= |t.data| && |s.data| <= |t.data| && PREAMBLE_SIZE + 4 <= t.off
      && (PREAMBLE_SIZE + 4 <= s.off ==> t.data[PREAMBLE_SIZE + 4..s.off] == s.data[PREAMBLE_SIZE + 4..s.off])
      && At(t.data, 0, EncU32(MAGIC)) && At(t.data, 4, EncU32(s.version))
      && Stored(t.data, t.off, Extent(s.off, 8 + |r.payload|), r)
  {
    hide Holds, Separate;
    var t := WriteTrack(s, k, l, r.time, r.payload);
    var x := r.Encode();
    assert |x| == 8 + |r.payload|;
    RecordBytes(s, x);
    if s.off == PREAMBLE_SIZE {
      AtConcat(t.data, PREAMBLE_SIZE, x[..4], x[4..]);
      assert x[..4] + x[4..] == x;
    }
  }

  /** The effect of a record write on the file. */
  lemma RecordBytes(s: State, x: bytes)
    requires PREAMBLE_SIZE + 4 <= |s.data| && PREAMBLE_SIZE <= s.off <= |s.data|
    requires At(s.data, 0, EncU32(MAGIC)) && At(s.data, 4, EncU32(s.version))
    ensures var d := Overwrite(s.data, s.off, x);
      && At(d, s.off, x) && At(d, 0, EncU32(MAGIC)) && At(d, 4, EncU32(s.version))
      && d[..s.off] == s.data[..s.off] && s.off + |x| <= |d| && |s.data| <= |d|
      && (PREAMBLE_SIZE + 4 <= s.off ==> d[PREAMBLE_SIZE + 4..s.off] == s.data[PREAMBLE_SIZE + 4..s.off])
  {
    hide EncU32;
    var d := Overwrite(s.data, s.off, x);
    OverwriteEffect(s.data, s.off, x);
    OverwriteKeeps(s.data, s.off, x, 0, EncU32(MAGIC));
    OverwriteKeeps(s.data, s.off, x, 4, EncU32(s.version));
    if PREAMBLE_SIZE + 4 <= s.off {
      assert d[12..s.off] == d[..s.off][12..] == s.data[..s.off][12..] == s.data[12..s.off];
    }
  }

  lemma RecordHeld(
    data: bytes, off: nat, layers: seq<Layer>, layers': seq<Layer>, g: seq<IdealLayer>, g': seq<IdealLayer>,
    k: TrackKind, l: nat, e: Extent, r: Record)
    requires Holds(data, off, layers, g) && l < |layers| && Stored(data, off, e, r)
    requires layers' == layers[l := layers[l].(markup := layers[l].markup.Set(k, layers[l].markup.Get(k) + [e]))]
    requires g' == g[l := g[l].(records := g[l].records.Set(k, g[l].records.Get(k) + [r]))]
    ensures Holds(data, off, layers', g')
  {
    forall i | 0 <= i < |g'|
      ensures LayerStored(data, off, layers'[i].markup, g'[i].records)
    {
      assert LayerStored(data, off, layers[i].markup, g[i].records);
      forall j: TrackKind
        ensures TrackStored(data, off, layers'[i].markup.Get(j), g'[i].records.Get(j))
      {
        assert TrackStored(data, off, layers[i].markup.Get(j), g[i].records.Get(j));
      }
    }
  }

  lemma RecordSeparate(
    data: bytes, off: nat, layers: seq<Layer>, layers': seq<Layer>, g: seq<IdealLayer>, k: TrackKind, l: nat, e: Extent)
    requires Holds(data, off, layers, g) && Separate(layers) && l < |layers| && off <= e.first
    requires layers' == layers[l := layers[l].(markup := layers[l].markup.Set(k, layers[l].markup.Get(k) + [e]))]
    ensures Separate(layers')
  {
    var last := Place(l, k, |layers[l].markup.Get(k)|);
    forall p | Exists(layers', p) && p != last
      ensures Exists(layers, p) && ExtentAt(layers', p) == ExtentAt(layers, p)
      ensures ExtentAt(layers, p).first + ExtentAt(layers, p).second <= off
    {
      assert Exists(layers, p);
      assert LayerStored(data, off, layers[p.layer].markup, g[p.layer].records);
      assert TrackStored(data, off, layers[p.layer].markup.Get(p.kind), g[p.layer].records.Get(p.kind));
    }
    assert ExtentAt(layers', last) == e;
  }

  lemma LayerKeepsInv(s: State, g: Ideal)
    requires Inv(s, g)
    ensures Inv(AddLayer(s), IdealStep(g, OpLayer))
  {
    var t, h := AddLayer(s), IdealStep(g, OpLayer);
    forall l | 0 <= l < |h.layers|
      ensures t.layers[l].property == h.layers[l].property && t.layers[l].property.Valid()
      ensures LayerStored(t.data, t.off, t.layers[l].markup, h.layers[l].records)
    {
      if l < |g.layers| {
        assert LayerStored(s.data, s.off, s.layers[l].markup, g.layers[l].records);
      }
    }
    forall p | Exists(t.layers, p)
      ensures Exists(s.layers, p) && ExtentAt(t.layers, p) == ExtentAt(s.layers, p)
    {
    }
  }

  lemma PropertyKeepsInv(s: State, g: Ideal, l: nat, name: blob, value: blob)
    requires Inv(s, g)
    ensures Inv(AddProperty(s, l, name, value), IdealStep(g, OpProperty(l, name, value)))
  {
    var t, h := AddProperty(s, l, name, value), IdealStep(g, OpProperty(l, name, value));
    if l < |s.layers| {
      CD.SetGet(s.layers[l].property, name, value, name);
      forall i | 0 <= i < |h.layers|
        ensures LayerStored(t.data, t.off, t.layers[i].markup, h.layers[i].records)
      {
        assert LayerStored(s.data, s.off, s.layers[i].markup, g.layers[i].records);
      }
      forall p | Exists(t.layers, p)
        ensures Exists(s.layers, p) && ExtentAt(t.layers, p) == ExtentAt(s.layers, p)
      {
      }
    }
  }

  lemma ImageKeepsOrder(images: IC.Images, id: u64, image: IC.Image)
    requires Sorted<u64, IC.Image>(IdLess, images)
    ensures Sorted<u64, IC.Image>(IdLess, CacheImage(images, id, image))
  {
    IdLessIsStrictOrder();
    PutCorrect<u64, IC.Image>(IdLess, images, id, image, false, id);
  }

  lemma {:induction false} TablesKeepInv(s: State, n: nat, g: Ideal)
    requires Inv(s, g) && n <= |s.layers| && |WriteTables(s, n).data| < TWO_32
    ensures Inv(WriteTables(s, n), g)
  {
    hide Inv, EncLayer, Overwrite;
    if n > 0 {
      TablesKeepInv(s, n - 1, g);
      TableKeepsInv(WriteTables(s, n - 1), n - 1, g);
    }
  }

  lemma HeadersKeepInv(s: State, g: Ideal)
    requires Inv(s, g) && |WriteHeaders(s).data| < TWO_32
    ensures Inv(WriteHeaders(s), g)
  {
    TablesKeepInv(s, |s.layers|, g);
    HeaderKeepsInv(WriteTables(s, |s.layers|), g);
  }

  /** Calls that touch no layer. */
  lemma FieldsKeepInv(s: State, g: Ideal, op: Op)
    requires Inv(s, g) && (op.OpPid? || op.OpFirstFrame? || op.OpStart? || op.OpImage?)
    ensures Inv(Step(s, op), IdealStep(g, op))
  {
    hide At, Holds, Separate, Sorted, CacheImage;
    if op.OpImage? {
      ImageKeepsOrder(s.images, op.id, op.image);
    }
  }

  /** What every call keeps. */
  lemma StepKeepsInv(s: State, g: Ideal, op: Op)
    requires Inv(s, g) && Legal(|s.layers|, op) && |Step(s, op).data| < TWO_32
    ensures Legal(|g.layers|, op) && Inv(Step(s, op), IdealStep(g, op))
  {
    hide Inv, AddLayer, AddPid, AddFirstFrame, AddProperty, WriteTrack, WriteHeaders, CacheImage;
    assert |g.layers| == |s.layers| by { LayersAlike(s, g); }
    match op
    case OpLayer => LayerKeepsInv(s, g);
    case OpPid(_) => FieldsKeepInv(s, g, op);
    case OpFirstFrame(_) => FieldsKeepInv(s, g, op);
    case OpStart(_) => FieldsKeepInv(s, g, op);
    case OpProperty(l, name, value) => PropertyKeepsInv(s, g, l, name, value);
    case OpRecord(k, l, record) =>
      if s.layers != [] {
        RecordKeepsInv(s, g, k, l, record);
      } else {
        assert WriteTrack(s, k, l, record.time, record.payload) == s by { NoTrack(s, k, l, record); }
      }
    case OpImage(_, _) => FieldsKeepInv(s, g, op);
    case OpSnapshot => HeadersKeepInv(s, g);
  }

  lemma LayersAlike(s: State, g: Ideal)
    requires Inv(s, g)
    ensures |g.layers| == |s.layers|
  {
  }

  lemma NoTrack(s: State, k: TrackKind, l: nat, r: Record)
    requires s.layers == []
    ensures WriteTrack(s, k, l, r.time, r.payload) == s
  {
  }

  /** The invariant holds in every reachable state of a recording below 4 GiB. */
  lemma {:induction false} RunKeepsInv(s: State, g: Ideal, ops: seq<Op>)
    requires Inv(s, g) && LegalRun(|s.layers|, ops) && |Run(s, ops).data| < TWO_32
    ensures LegalRun(|g.layers|, ops) && Inv(Run(s, ops), IdealRun(g, ops))
    decreases |ops|
  {
    assert |s.layers| == |g.layers|;
    hide Inv;
    if ops != [] {
      StepKeepsInv(s, g, ops[0]);
      RunKeepsInv(Step(s, ops[0]), IdealStep(g, ops[0]), ops[1..]);
    }
  }

  /** A file that was just created holds what an ideal recorder without layers remembers. */
  lemma CreateEstablishesInv(s: State)
    requires s.layers == [] && s.pids == [] && s.Header().Valid()
    ensures Inv(Create(s), Ideal(s.Header(), []))
  {
    var d := Create(s).data;
    assert d[0..4] == EncU32(MAGIC);
    assert d[4..8] == EncU32(s.version);
  }
}
