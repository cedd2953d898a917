/** The layout of a recording: a preamble, records and layer tables in writing order, and a
    global header whose offset is patched into the preamble. */
module RecordingFormat {
  import opened Bytes
  import opened Codec
  import opened OrderedMap
  import CD = CaptureData
  import IC = ImageCache

  /** The multi-character constant 'ROHR'. */
  const MAGIC: u32 := 0x524F4852

  const VERSION_RENDER_METRICS_ADDED: u32 := 0x240701

  /** Where `WriteHeader` stores the header offset. */
  const PREAMBLE_SIZE: nat := 8

  /** `sizeof(TrackMarkup::value_type)`: where the first region of a recording starts. */
  const MARKUP_SIZE: u32 := 8

  /** A `std::pair` of an offset and a length. */
  datatype Extent = Extent(first: u32, second: u32) {
    predicate Apart(other: Extent) {
      first + second <= other.first || other.first + other.second <= first
    }
  }

  /** The member pointers that select a track of a layer. */
  datatype TrackKind = RsData | OglData | RsMetrics | OglMetrics | GfxMetrics | RenderMetrics

  datatype Tracks<+T> = Tracks(rsData: T, oglData: T, rsMetrics: T, oglMetrics: T, gfxMetrics: T, renderMetrics: T) {
    function Get(k: TrackKind): T {
      match k
      case RsData => rsData
      case OglData => oglData
      case RsMetrics => rsMetrics
      case OglMetrics => oglMetrics
      case GfxMetrics => gfxMetrics
      case RenderMetrics => renderMetrics
    }

    function Set(k: TrackKind, t: T): Tracks<T> {
      match k
      case RsData => this.(rsData := t)
      case OglData => this.(oglData := t)
      case RsMetrics => this.(rsMetrics := t)
      case OglMetrics => this.(oglMetrics := t)
      case GfxMetrics => this.(gfxMetrics := t)
      case RenderMetrics => this.(renderMetrics := t)
    }
  }

  type Markup = seq<Extent>

  const NO_MARKUP: Tracks<Markup> := Tracks([], [], [], [], [], [])

  // --- track tables -----------------------------------------------------------------

  /** Extents that are apart share no byte. */
  lemma ApartShares(e: Extent, f: Extent, x: nat)
    requires e.Apart(f)
    ensures !(e.first <= x < e.first + e.second && f.first <= x < f.first + f.second)
  {
  }

  function EncExtent(e: Extent): bytes {
    EncU32(e.first) + EncU32(e.second)
  }

  function DecExtent(b: bytes, off: nat): Parsed<Extent> {
    var (first, o) :- DecU32(b, off);
    var (second, o) :- DecU32(b, o);
    Parsed(Extent(first, second), o)
  }

  function EncTrack(m: Markup): (e: bytes)
    ensures |e| >= 4
  {
    EncU32(Trunc32(|m|)) + EncAll(EncExtent, m)
  }

  function DecTrack(b: bytes, off: nat): Parsed<Markup> {
    var (count, o) :- DecU32(b, off);
    DecAll(DecExtent, b, o, count)
  }

  lemma ExtentRoundTrip(b: bytes, off: nat, e: Extent)
    requires At(b, off, EncExtent(e))
    ensures DecExtent(b, off) == Parsed(e, off + |EncExtent(e)|)
  {
    hide At, EncU32, DecU32;
    AtConcat(b, off, EncU32(e.first), EncU32(e.second));
    U32RoundTrip(b, off, e.first);
    U32RoundTrip(b, off + 4, e.second);
  }

  lemma ExtentBytes(m: Markup)
    ensures |m| <= |EncAll(EncExtent, m)|
  {
    EncAllLength(EncExtent, m);
  }

  /** A list that was stored in fewer than 2^32 bytes has fewer than 2^32 items. */
  lemma TrackRoundTrip(b: bytes, off: nat, m: Markup)
    requires At(b, off, EncTrack(m)) && |b| < TWO_32
    ensures DecTrack(b, off) == Parsed(m, off + |EncTrack(m)|)
  {
    hide At, EncU32, DecU32, EncAll, DecAll, EncExtent, DecExtent;
    ExtentBytes(m);
    AtWithin(b, off, EncTrack(m));
    AtConcat(b, off, EncU32(|m|), EncAll(EncExtent, m));
    U32RoundTrip(b, off, |m|);
    forall a: bytes, o: nat, i: nat | i < |m| && At(a, o, EncExtent(m[i]))
      ensures DecExtent(a, o) == Parsed(m[i], o + |EncExtent(m[i])|)
    {
      ExtentRoundTrip(a, o, m[i]);
    }
    AllRoundTrip(EncExtent, DecExtent, b, off + 4, m);
  }

  // --- the table of one layer ----------------------------------------------------------

  /** What a layer table stores. */
  datatype LayerDoc = LayerDoc(property: CD.CaptureData, markup: Tracks<Markup>)

  /** Render metrics exist only in newer files. */
  function EncRenderMetrics(version: u32, m: Markup): bytes {
    if version >= VERSION_RENDER_METRICS_ADDED then EncTrack(m) else []
  }

  function EncTables(version: u32, t: Tracks<Markup>): bytes {
    EncTrack(t.rsData) + (EncTrack(t.oglData) + (EncTrack(t.rsMetrics)
    + (EncRenderMetrics(version, t.renderMetrics) + (EncTrack(t.oglMetrics) + EncTrack(t.gfxMetrics)))))
  }

  function EncLayer(version: u32, d: LayerDoc): bytes {
    EncBlob32(d.property.Encode()) + EncTables(version, d.markup)
  }

  function DecTables(version: u32, b: bytes, off: nat, before: Tracks<Markup>): Parsed<Tracks<Markup>> {
    var (rsData, o) :- DecTrack(b, off);
    var (oglData, o) :- DecTrack(b, o);
    var (rsMetrics, o) :- DecTrack(b, o);
    var (renderMetrics, o) :- if version >= VERSION_RENDER_METRICS_ADDED then DecTrack(b, o)
                              else Parsed(before.renderMetrics, o);
    var (oglMetrics, o) :- DecTrack(b, o);
    var (gfxMetrics, o) :- DecTrack(b, o);
    Parsed(Tracks(rsData, oglData, rsMetrics, oglMetrics, gfxMetrics, renderMetrics), o)
  }

  function DecLayer(version: u32, b: bytes, off: nat, before: Tracks<Markup>): Parsed<LayerDoc> {
    var (block, o) :- DecBlob32(b, off);
    var (property, _) :- CD.Decode(block, 0);
    var (markup, o) :- DecTables(version, b, o, before);
    Parsed(LayerDoc(property, markup), o)
  }

  /** The tracks a file of this version keeps; the others are as they were before reading. */
  function Kept(version: u32, t: Tracks<Markup>, before: Tracks<Markup>): Tracks<Markup> {
    if version >= VERSION_RENDER_METRICS_ADDED then t else t.(renderMetrics := before.renderMetrics)
  }

  lemma TablesRoundTrip(version: u32, b: bytes, off: nat, t: Tracks<Markup>, before: Tracks<Markup>)
    requires At(b, off, EncTables(version, t)) && |b| < TWO_32
    ensures DecTables(version, b, off, before) ==
            Parsed(Kept(version, t, before), off + |EncTables(version, t)|)
  {
    hide At, EncTrack, DecTrack;
    var last := EncTrack(t.oglMetrics) + EncTrack(t.gfxMetrics);
    var render := EncRenderMetrics(version, t.renderMetrics);
    var three := EncTrack(t.rsMetrics) + (render + last);
    var two := EncTrack(t.oglData) + three;
    var o1 := off + |EncTrack(t.rsData)|;
    var o2 := o1 + |EncTrack(t.oglData)|;
    var o3 := o2 + |EncTrack(t.rsMetrics)|;
    var o4 := o3 + |render|;
    AtConcat(b, off, EncTrack(t.rsData), two);
    AtConcat(b, o1, EncTrack(t.oglData), three);
    AtConcat(b, o2, EncTrack(t.rsMetrics), render + last);
    AtConcat(b, o3, render, last);
    AtConcat(b, o4, EncTrack(t.oglMetrics), EncTrack(t.gfxMetrics));
    TrackRoundTrip(b, off, t.rsData);
    TrackRoundTrip(b, o1, t.oglData);
    TrackRoundTrip(b, o2, t.rsMetrics);
    if version >= VERSION_RENDER_METRICS_ADDED {
      TrackRoundTrip(b, o3, t.renderMetrics);
    }
    TrackRoundTrip(b, o4, t.oglMetrics);
    TrackRoundTrip(b, o4 + |EncTrack(t.oglMetrics)|, t.gfxMetrics);
  }

  lemma WholeAt(x: bytes)
    ensures At(x, 0, x)
  {
    assert x[0..|x|] == x;
  }

  lemma PropertyCount(c: CD.CaptureData)
    ensures |c.properties| <= |c.Encode()|
  {
    forall i | 0 <= i < |c.properties|
      ensures 0 < |CD.EncProperty(c.properties[i])|
    {
    }
    EncAllLength(CD.EncProperty, c.properties);
  }

  lemma LayerRoundTrip(version: u32, b: bytes, off: nat, d: LayerDoc, before: Tracks<Markup>)
    requires At(b, off, EncLayer(version, d)) && |b| < TWO_32 && d.property.Valid()
    ensures DecLayer(version, b, off, before) ==
            Parsed(LayerDoc(d.property, Kept(version, d.markup, before)), off + |EncLayer(version, d)|)
  {
    hide At, EncBlob32, DecBlob32, EncTables, DecTables, CD.CaptureData.Encode, CD.CaptureData.Valid, CD.Decode;
    AtWithin(b, off, EncLayer(version, d));
    var block := d.property.Encode();
    PropertyCount(d.property);
    WholeAt(block);
    AtConcat(b, off, EncBlob32(block), EncTables(version, d.markup));
    Blob32RoundTrip(b, off, block);
    CD.CaptureRoundTrip(block, 0, d.property);
    TablesRoundTrip(version, b, off + |EncBlob32(block)|, d.markup, before);
  }

  // --- the global header ------------------------------------------------------------------

  /** The header without the layer offsets; `start` holds the bits of the double. */
  datatype SubHeader = SubHeader(start: u64, pids: seq<i32>, firstFrame: bytes, images: IC.Images) {
    ghost predicate Valid() {
      Sorted<u64, IC.Image>(IdLess, images)
    }
  }

  function EncPids(pids: seq<i32>): bytes {
    EncU32(Trunc32(|pids|)) + EncAll(EncI32, pids)
  }

  function DecPids(b: bytes, off: nat): Parsed<seq<i32>> {
    var (count, o) :- DecU32(b, off);
    DecAll(DecI32, b, o, count)
  }

  function EncSubHeader(h: SubHeader): bytes {
    EncU64(h.start) + (EncPids(h.pids) + (EncBlob32(h.firstFrame) + IC.EncImages(h.images)))
  }

  function DecSubHeader(b: bytes, off: nat): Parsed<SubHeader> {
    var (start, o) :- DecU64(b, off);
    var (pids, o) :- DecPids(b, o);
    var (firstFrame, o) :- DecBlob32(b, o);
    var (images, o) :- IC.DecImages(b, o);
    Parsed(SubHeader(start, pids, firstFrame, images), o)
  }

  lemma PidsRoundTrip(b: bytes, off: nat, pids: seq<i32>)
    requires At(b, off, EncPids(pids)) && |b| < TWO_32
    ensures DecPids(b, off) == Parsed(pids, off + |EncPids(pids)|)
  {
    hide At, EncU32, DecU32, EncAll, DecAll, EncI32, DecI32;
    EncAllLength(EncI32, pids);
    AtWithin(b, off, EncPids(pids));
    AtConcat(b, off, EncU32(|pids|), EncAll(EncI32, pids));
    U32RoundTrip(b, off, |pids|);
    forall a: bytes, o: nat, i: nat | i < |pids| && At(a, o, EncI32(pids[i]))
      ensures DecI32(a, o) == Parsed(pids[i], o + |EncI32(pids[i])|)
    {
      I32RoundTrip(a, o, pids[i]);
    }
    AllRoundTrip(EncI32, DecI32, b, off + 4, pids);
  }

  lemma ImageCount(m: IC.Images)
    ensures |m| <= |IC.EncImages(m)|
  {
    forall i | 0 <= i < |m|
      ensures 0 < |IC.EncEntry(m[i])|
    {
    }
    EncAllLength(IC.EncEntry, m);
  }

  /** What follows the start time. */
  function EncSubHeaderRest(h: SubHeader): bytes {
    EncPids(h.pids) + (EncBlob32(h.firstFrame) + IC.EncImages(h.images))
  }

  /** The part of the header behind the start time reads back even when the time was damaged. */
  lemma SubHeaderRestRoundTrip(b: bytes, off: nat, h: SubHeader, start: u64)
    requires DecU64(b, off) == Parsed(start, off + 8)
    requires At(b, off + 8, EncSubHeaderRest(h)) && |b| < TWO_32 && h.Valid()
    ensures DecSubHeader(b, off) == Parsed(h.(start := start), off + |EncSubHeader(h)|)
  {
    hide At, EncU64, DecU64, EncPids, DecPids, EncBlob32, DecBlob32, IC.EncImages, IC.DecImages;
    AtWithin(b, off + 8, EncSubHeaderRest(h));
    ImageCount(h.images);
    var tail := EncBlob32(h.firstFrame) + IC.EncImages(h.images);
    AtConcat(b, off + 8, EncPids(h.pids), tail);
    var o := off + 8 + |EncPids(h.pids)|;
    AtConcat(b, o, EncBlob32(h.firstFrame), IC.EncImages(h.images));
    PidsRoundTrip(b, off + 8, h.pids);
    Blob32RoundTrip(b, o, h.firstFrame);
    var oi := o + |EncBlob32(h.firstFrame)|;
    IC.ImagesRoundTrip(b, oi, h.images);
    assert oi + |IC.EncImages(h.images)| == off + |EncSubHeader(h)|;
  }

  lemma SubHeaderRoundTrip(b: bytes, off: nat, h: SubHeader)
    requires At(b, off, EncSubHeader(h)) && |b| < TWO_32 && h.Valid()
    ensures DecSubHeader(b, off) == Parsed(h, off + |EncSubHeader(h)|)
  {
    hide At, EncU64, DecU64, EncPids, EncBlob32, IC.EncImages, DecSubHeader;
    AtConcat(b, off, EncU64(h.start), EncSubHeaderRest(h));
    U64RoundTrip(b, off, h.start);
    SubHeaderRestRoundTrip(b, off, h, h.start);
  }

  // --- the whole file -----------------------------------------------------------------------

  /** Everything a reader restores. */
  datatype Document = Document(version: u32, header: SubHeader, extents: seq<Extent>, layers: seq<LayerDoc>)

  /** Each layer table is found through its own extent. */
  function DecLayers(version: u32, b: bytes, extents: seq<Extent>, before: seq<Tracks<Markup>>): Parsed<seq<LayerDoc>>
    requires |before| == |extents|
  {
    if forall l :: 0 <= l < |extents| ==> DecLayer(version, b, extents[l].first, before[l]).Parsed? then
      Parsed(seq(|extents|, l requires 0 <= l < |extents| => DecLayer(version, b, extents[l].first, before[l]).value), 0)
    else
      NoParse
  }

  /** The layers an empty reader starts from. */
  function Fresh(n: nat): seq<Tracks<Markup>> {
    seq(n, _ => NO_MARKUP)
  }

  /** A layer as a reader without prior state gets it back. */
  function RestoredLayer(version: u32, d: LayerDoc): LayerDoc {
    LayerDoc(d.property, Kept(version, d.markup, NO_MARKUP))
  }

  function Restored(version: u32, docs: seq<LayerDoc>): (r: seq<LayerDoc>)
    ensures |r| == |docs|
    ensures forall l :: 0 <= l < |docs| ==> r[l] == RestoredLayer(version, docs[l])
  {
    seq(|docs|, l requires 0 <= l < |docs| => RestoredLayer(version, docs[l]))
  }

  /** What a reader without prior state makes of the bytes of a file. */
  function DecFile(b: bytes): Parsed<Document> {
    var (magic, o) :- DecU32(b, 0);
    if magic != MAGIC then NoParse
    else
      var (version, o) :- DecU32(b, o);
      var (headerOff, o) :- DecU32(b, o);
      var (header, o) :- DecSubHeader(b, headerOff);
      var (extents, o) :- DecTrack(b, o);
      var (layers, _) :- DecLayers(version, b, extents, Fresh(|extents|));
      Parsed(Document(version, header, extents, layers), o)
  }

  /** Only files that start with "ROHR" as a word are read. */
  lemma OtherFilesRefused(b: bytes)
    requires DecFile(b).Parsed?
    ensures |b| >= 12 && b[0] == 0x52 && b[1] == 0x48 && b[2] == 0x4F && b[3] == 0x52
  {
    hide DecSubHeader, DecTrack, DecLayers;
    var b0: int, b1: int, b2: int, b3: int := b[0], b[1], b[2], b[3];
    assert b0 + 0x100 * b1 + 0x1_0000 * b2 + 0x100_0000 * b3 == 0x52 + 0x100 * 0x48 + 0x1_0000 * 0x4F + 0x100_0000 * 0x52;
  }

  lemma LayersRoundTrip(version: u32, b: bytes, extents: seq<Extent>, docs: seq<LayerDoc>)
    requires |extents| == |docs| && |b| < TWO_32
    requires forall l :: 0 <= l < |docs| ==> docs[l].property.Valid() && At(b, extents[l].first, EncLayer(version, docs[l]))
    ensures DecLayers(version, b, extents, Fresh(|extents|)) == Parsed(Restored(version, docs), 0)
  {
    hide At, EncLayer, DecLayer, Kept, CD.CaptureData.Valid;
    forall l | 0 <= l < |docs|
      ensures DecLayer(version, b, extents[l].first, Fresh(|extents|)[l]).Parsed?
      ensures DecLayer(version, b, extents[l].first, Fresh(|extents|)[l]).value == Restored(version, docs)[l]
    {
      LayerRoundTrip(version, b, extents[l].first, docs[l], NO_MARKUP);
    }
    assert DecLayers(version, b, extents, Fresh(|extents|)).value == Restored(version, docs);
  }

  // --- how far the readers go --------------------------------------------------------------

  lemma DecodersForward()
    ensures Forward<i32>(DecI32) && Forward<(u64, IC.Image)>(IC.DecEntry)
  {
    hide DecU64, DecI32, DecBlob;
  }

  lemma SubHeaderForward(b: bytes, off: nat)
    requires DecSubHeader(b, off).Parsed?
    ensures off + 8 <= DecSubHeader(b, off).next <= |b|
  {
    hide DecI32, DecU32, DecU64, DecBlob32, DecAll, IC.DecEntry;
    var pidCount := DecU32(b, off + 8);
    DecodersForward();
    DecAllForward(DecI32, b, pidCount.next, pidCount.value);
    var frame := DecBlob32(b, DecPids(b, off + 8).next);
    var imageCount := DecU32(b, frame.next);
    DecAllForward(IC.DecEntry, b, imageCount.next, imageCount.value);
  }

  /** Integers read one by one are where a block of them would be. */
  lemma {:induction false} PidsSlice(b: bytes, lo: nat, hi: nat, o: nat, n: nat)
    requires lo <= hi <= |b| && lo + o + 4 * n <= hi
    ensures DecAll(DecI32, b, lo + o, n).Parsed? && DecAll(DecI32, b[lo..hi], o, n).Parsed?
    ensures DecAll(DecI32, b, lo + o, n).value == DecAll(DecI32, b[lo..hi], o, n).value
    decreases n
  {
    if n > 0 {
      var c := b[lo..hi];
      assert c[o] == b[lo + o] && c[o + 1] == b[lo + o + 1] && c[o + 2] == b[lo + o + 2] && c[o + 3] == b[lo + o + 3];
      PidsSlice(b, lo, hi, o + 4, n - 1);
    }
  }

  lemma {:induction false} PidsEnd(b: bytes, off: nat, n: nat)
    requires DecAll(DecI32, b, off, n).Parsed? && off <= |b|
    ensures off + 4 * n <= |b| && DecAll(DecI32, b, off, n).next == off + 4 * n
    decreases n
  {
    if n > 0 {
      PidsEnd(b, off + 4, n - 1);
    }
  }
}
