/** What a recording reads back as: exactly what was recorded, except for the word that the
    global header shares with the first region. */
module Reopening {
  import opened Bytes
  import opened Codec
  import opened RecordingFormat
  import opened Recorder
  import CD = CaptureData
  import IC = ImageCache

  // --- layer tables ----------------------------------------------------------------------

  /** The first `n` layer tables lie between `lo` and the write offset, where the layers say. */
  ghost predicate Placed(s: State, lo: nat, n: nat)
    requires n <= |s.layers|
  {
    forall l :: 0 <= l < n ==>
      && lo <= s.layers[l].header.first
      && s.layers[l].header.first + |EncLayer(s.version, s.layers[l].Doc())| <= s.off
      && At(s.data, s.layers[l].header.first, EncLayer(s.version, s.layers[l].Doc()))
  }

  lemma {:induction false} TablesPlaced(s: State, n: nat, g: Ideal)
    requires Inv(s, g) && n <= |s.layers| && |WriteTables(s, n).data| < TWO_32
    ensures var t := WriteTables(s, n);
      && Placed(t, s.off, n) && s.off <= t.off
      && (forall l :: 0 <= l < |s.layers| ==> t.layers[l].Doc() == s.layers[l].Doc())
      && (0 < n ==> t.layers[0].header.first == s.off && s.off + 4 <= t.off)
  {
    hide EncLayer, Overwrite, Inv, At;
    if n > 0 {
      var p := WriteTables(s, n - 1);
      var t := WriteTables(s, n);
      TablesPlaced(s, n - 1, g);
      TablesKeepInv(s, n - 1, g);
      TableKeepsInv(p, n - 1, g);
      OffsetInFile(p, g);
      var table := EncLayer(p.version, p.layers[n - 1].Doc());
      LayerBytes(p.version, p.layers[n - 1].Doc());
      OverwriteEffect(p.data, p.off, table);
      forall l | 0 <= l < n - 1
        ensures At(t.data, t.layers[l].header.first, EncLayer(t.version, t.layers[l].Doc()))
      {
        OverwriteKeeps(p.data, p.off, table, p.layers[l].header.first, EncLayer(p.version, p.layers[l].Doc()));
      }
    }
  }

  lemma OffsetInFile(s: State, g: Ideal)
    requires Inv(s, g)
    ensures s.off <= |s.data| < TWO_32 && PREAMBLE_SIZE + 4 <= |s.data| && PREAMBLE_SIZE <= s.off
    ensures At(s.data, 0, EncU32(MAGIC)) && At(s.data, 4, EncU32(s.version))
    ensures s.off == PREAMBLE_SIZE || PREAMBLE_SIZE + 4 <= s.off
    ensures s.Header().Valid()
    ensures forall l :: 0 <= l < |s.layers| ==> s.layers[l].property.Valid()
  {
  }

  // --- the whole file -------------------------------------------------------------------------

  /** What a reader is meant to get from the file. */
  function DocumentOf(s: State): Document {
    Document(s.version, s.Header(), s.Extents(), Restored(s.version, s.Docs()))
  }

  predicate Reads(b: bytes, d: Document) {
    DecFile(b).Parsed? && DecFile(b).value == d
  }

  /** The bytes of a header write: the header behind the data, its offset in the preamble. */
  lemma HeaderBytesAt(s: State, g: Ideal)
    requires Inv(s, g) && |WriteHeader(s).data| < TWO_32
    ensures var b := WriteHeader(s).data;
      && DecU32(b, 0) == Parsed(MAGIC, 4) && DecU32(b, 4) == Parsed(s.version, 8)
      && DecU32(b, 8) == Parsed(s.off, 12)
      && (PREAMBLE_SIZE + 4 <= s.off ==>
            && At(b, s.off, s.HeaderBytes())
            && At(b, s.off + |s.HeaderBytes()|, EncTrack(s.Extents())))
      && (s.off == PREAMBLE_SIZE && 4 <= |s.HeaderBytes()| ==>
            && At(b, 12, s.HeaderBytes()[4..])
            && At(b, s.off + |s.HeaderBytes()|, EncTrack(s.Extents())))
  {
    hide Overwrite, Inv, EncTrack, EncU32, DecU32, State.HeaderBytes;
    OffsetInFile(s, g);
    var h, e := s.HeaderBytes(), EncTrack(s.Extents());
    var mid := Overwrite(s.data, s.off, h + e);
    var b := WriteHeader(s).data;
    OverwriteEffect(s.data, s.off, h + e);
    OverwriteEffect(mid, PREAMBLE_SIZE, EncU32(s.off));
    HeaderKeepsInv(s, g);
    OffsetInFile(WriteHeader(s), g);
    U32RoundTrip(b, 0, MAGIC);
    U32RoundTrip(b, 4, s.version);
    U32RoundTrip(b, 8, s.off);
    AtConcat(mid, s.off, h, e);
    if PREAMBLE_SIZE + 4 <= s.off {
      OverwriteKeeps(mid, PREAMBLE_SIZE, EncU32(s.off), s.off, h);
      OverwriteKeeps(mid, PREAMBLE_SIZE, EncU32(s.off), s.off + |h|, e);
    } else if 4 <= |h| {
      assert h == h[..4] + h[4..];
      AtConcat(mid, s.off, h[..4], h[4..]);
      OverwriteKeeps(mid, PREAMBLE_SIZE, EncU32(s.off), 12, h[4..]);
      OverwriteKeeps(mid, PREAMBLE_SIZE, EncU32(s.off), s.off + |h|, e);
    }
  }

  lemma TablesAfterHeader(s: State, g: Ideal, lo: nat)
    requires Inv(s, g) && |WriteHeader(s).data| < TWO_32
    requires Placed(s, lo, |s.layers|) && PREAMBLE_SIZE + 4 <= lo
    ensures var b := WriteHeader(s).data;
      && (forall l :: 0 <= l < |s.layers| ==>
           s.Docs()[l].property.Valid() && At(b, s.Extents()[l].first, EncLayer(s.version, s.Docs()[l])))
  {
    hide Overwrite, Inv, EncTrack, EncU32, EncLayer, State.HeaderBytes;
    OffsetInFile(s, g);
    var body := s.HeaderBytes() + EncTrack(s.Extents());
    var mid := Overwrite(s.data, s.off, body);
    OverwriteEffect(s.data, s.off, body);
    forall l | 0 <= l < |s.layers|
      ensures At(WriteHeader(s).data, s.Extents()[l].first, EncLayer(s.version, s.Docs()[l]))
    {
      var table := EncLayer(s.version, s.layers[l].Doc());
      OverwriteKeeps(s.data, s.off, body, s.layers[l].header.first, table);
      OverwriteKeeps(mid, PREAMBLE_SIZE, EncU32(s.off), s.layers[l].header.first, table);
    }
  }

  /** With every table and the header behind the shared word, the reader gets everything. In
      prepared mode the header it gets is the one that was handed over. */
  lemma CleanFileReads(s: State, g: Ideal, lo: nat, h: SubHeader)
    requires Inv(s, g) && |WriteHeader(s).data| < TWO_32
    requires Placed(s, lo, |s.layers|) && PREAMBLE_SIZE + 4 <= lo <= s.off
    requires s.HeaderBytes() == EncSubHeader(h) && h.Valid()
    ensures Reads(WriteHeader(s).data, DocumentOf(s).(header := h))
  {
    hide Overwrite, Inv, At, EncTrack, DecTrack, DecU32, EncSubHeader, DecSubHeader, EncLayer, Placed, State.HeaderBytes,
      CD.CaptureData.Valid, SubHeader.Valid, WriteHeader;
    var b := WriteHeader(s).data;
    OffsetInFile(s, g);
    HeaderBytesAt(s, g);
    TablesAfterHeader(s, g, lo);
    SubHeaderRoundTrip(b, s.off, h);
    TrackRoundTrip(b, s.off + |EncSubHeader(h)|, s.Extents());
    LayersRoundTrip(s.version, b, s.Extents(), s.Docs());
  }

  // --- when the shared word matters -------------------------------------------------------------

  /** Without layers and records the header itself starts at offset 8, and its position replaces
      the low half of the start time. */
  lemma BareFileReads(s: State, g: Ideal, h: SubHeader)
    requires Inv(s, g) && |WriteHeader(s).data| < TWO_32
    requires s.off == PREAMBLE_SIZE && s.layers == [] && s.HeaderBytes() == EncSubHeader(h) && h.Valid()
    ensures Reads(WriteHeader(s).data, DocumentOf(s).(header := h.(start := PatchedTime(h.start, PREAMBLE_SIZE))))
  {
    hide At, Overwrite, Inv, EncTrack, DecTrack, EncU32, DecU32, EncSubHeaderRest, EncSubHeader, DecSubHeader, SubHeader.Valid,
      WriteHeader;
    var b := WriteHeader(s).data;
    var high := EncU32(h.start / TWO_32);
    OffsetInFile(s, g);
    SubHeaderParts(h);
    assert s.HeaderBytes()[4..] == high + EncSubHeaderRest(h);
    HeaderBytesAt(s, g);
    AtConcat(b, 12, high, EncSubHeaderRest(h));
    U32RoundTrip(b, 12, h.start / TWO_32);
    SubHeaderRestRoundTrip(b, 8, h, PatchedTime(h.start, PREAMBLE_SIZE));
    TrackRoundTrip(b, 8 + |EncSubHeader(h)|, s.Extents());
  }

  lemma SubHeaderParts(h: SubHeader)
    ensures EncSubHeader(h) == EncU32(h.start % TWO_32) + (EncU32(h.start / TWO_32) + EncSubHeaderRest(h))
  {
    hide EncU32, EncPids, EncBlob32, IC.EncImages;
    assert EncSubHeader(h) == EncU64(h.start) + EncSubHeaderRest(h);
  }

  /** The value of eight bytes whose low half was overwritten by a header offset. */
  function PatchedTime(time: u64, headerOff: u32): u64 {
    headerOff + TWO_32 * (time / TWO_32)
  }

  predicate Zero(b: bytes, off: nat) {
    DecU32(b, off) == Parsed(0, off + 4)
  }

  lemma EmptyTrack(b: bytes, off: nat)
    requires DecTrack(b, off).Parsed? && DecTrack(b, off).value == []
    ensures DecU32(b, off) == Parsed(0, off + 4) && DecTrack(b, off).next == off + 4
  {
    var count := DecU32(b, off);
    DecAllLength(DecExtent, b, count.next, count.value);
  }

  /** A layer that reads back without records is followed by zero counts. */
  lemma EmptyTables(version: u32, b: bytes, off: nat)
    requires DecTables(version, b, off, NO_MARKUP).Parsed? && DecTables(version, b, off, NO_MARKUP).value == NO_MARKUP
    ensures Zero(b, off) && Zero(b, off + 4) && Zero(b, off + 8) && Zero(b, off + 12)
  {
    hide DecU32, DecTrack;
    EmptyTrack(b, off);
    EmptyTrack(b, off + 4);
    EmptyTrack(b, off + 8);
    EmptyTrack(b, off + 12);
  }

  /** In the header, four zero words behind the pid count leave no room for a layer count. */
  lemma HeaderHasLayerCount(b: bytes, off: nat, h: SubHeader, extents: seq<Extent>)
    requires At(b, off, EncSubHeader(h)) && At(b, off + |EncSubHeader(h)|, EncTrack(extents)) && |b| < TWO_32
    requires forall i, j :: 0 <= i < j < |h.pids| ==> h.pids[i] != h.pids[j]
    requires Zero(b, off + 12) && Zero(b, off + 16) && Zero(b, off + 20) && Zero(b, off + 24)
    ensures extents == []
  {
    hide At, EncU32, EncU64, EncTrack, Zero, IC.EncImages, EncBlob32;
    var o := off + 12;
    var rest := EncBlob32(h.firstFrame) + IC.EncImages(h.images);
    AtConcat(b, off, EncU64(h.start), EncSubHeaderRest(h));
    AtConcat(b, off + 8, EncPids(h.pids), rest);
    AtConcat(b, off + 8, EncU32(Trunc32(|h.pids|)), EncAll(EncI32, h.pids));
    AtMostOnePid(b, o, h.pids);
    var p := o + 4 * |h.pids|;
    AtConcat(b, p, EncBlob32(h.firstFrame), IC.EncImages(h.images));
    NothingBehindFrame(b, p, h.firstFrame, h.images, extents);
  }

  lemma NothingBehindFrame(b: bytes, p: nat, firstFrame: bytes, images: IC.Images, extents: seq<Extent>)
    requires At(b, p, EncBlob32(firstFrame)) && At(b, p + |EncBlob32(firstFrame)|, IC.EncImages(images))
    requires At(b, p + |EncBlob32(firstFrame)| + |IC.EncImages(images)|, EncTrack(extents)) && |b| < TWO_32
    requires Zero(b, p) && Zero(b, p + 4) && Zero(b, p + 8)
    ensures extents == []
  {
    hide At, EncU32, DecU32, EncAll;
    AtWithin(b, p, EncBlob32(firstFrame));
    AtConcat(b, p, EncU32(Trunc32(|firstFrame|)), firstFrame);
    U32RoundTrip(b, p, |firstFrame|);
    assert firstFrame == [];
    AtWithin(b, p + 4, IC.EncImages(images));
    ImageCount(images);
    AtConcat(b, p + 4, EncU32(Trunc32(|images|)), EncAll(IC.EncEntry, images));
    U32RoundTrip(b, p + 4, |images|);
    assert images == [];
    NoEntries();
    NoExtents(b, p + 8, extents);
  }

  lemma NoEntries()
    ensures |IC.EncImages([])| == 4
  {
  }

  lemma NoExtents(b: bytes, p: nat, extents: seq<Extent>)
    requires At(b, p, EncTrack(extents)) && |b| < TWO_32 && Zero(b, p)
    ensures extents == []
  {
    hide At, EncU32;
    TrackRoundTrip(b, p, extents);
  }

  lemma AtMostOnePid(b: bytes, o: nat, pids: seq<i32>)
    requires At(b, o, EncAll(EncI32, pids))
    requires forall i, j :: 0 <= i < j < |pids| ==> pids[i] != pids[j]
    requires Zero(b, o) && Zero(b, o + 4)
    ensures |pids| <= 1 && |EncAll(EncI32, pids)| == 4 * |pids|
  {
    hide At, EncU32, DecU32;
    if |pids| > 0 {
      var rest := pids[1..];
      AtConcat(b, o, EncI32(pids[0]), EncAll(EncI32, rest));
      I32RoundTrip(b, o, pids[0]);
      if |rest| > 0 {
        assert pids[0] != pids[1];
        AtConcat(b, o + 4, EncI32(rest[0]), EncAll(EncI32, rest[1..]));
        I32RoundTrip(b, o + 4, rest[0]);
        assert false;
      }
    }
  }

  /** With layers but no region written before, the first layer table starts at offset 8; its
      length field is replaced by the header offset, and the reader looks for the tracks in the
      header. */
  lemma DamagedTableMisread(s: State, g: Ideal)
    requires Inv(s, g) && |WriteHeader(s).data| < TWO_32
    requires s.layers != [] && s.layers[0].header.first == PREAMBLE_SIZE && PREAMBLE_SIZE + 4 <= s.off
    requires s.layers[0].markup == NO_MARKUP && !s.preparedMode
    ensures var p := DecFile(WriteHeader(s).data);
      p.Parsed? ==> p.value.layers != [] && p.value.layers[0].markup != NO_MARKUP
  {
    hide Overwrite, Inv, At, EncTrack, DecTrack, DecU32, EncSubHeader, DecSubHeader, EncLayer, SubHeader.Valid,
      WriteHeader, CD.Decode, DecTables, Zero, DecLayers;
    var b := WriteHeader(s).data;
    OffsetInFile(s, g);
    HeaderBytesAt(s, g);
    if DecFile(b).Parsed? {
      SubHeaderRoundTrip(b, s.off, s.Header());
      TrackRoundTrip(b, s.off + |EncSubHeader(s.Header())|, s.Extents());
      FirstLayerRead(s.version, b, s.Extents(), Fresh(|s.Extents()|));
      var read := DecLayer(s.version, b, PREAMBLE_SIZE, NO_MARKUP);
      if read.value.markup == NO_MARKUP {
        EmptyTables(s.version, b, PREAMBLE_SIZE + 4 + s.off);
        PidsDiffer(s, g);
        HeaderHasLayerCount(b, s.off, s.Header(), s.Extents());
        assert false;
      }
    }
  }

  lemma PidsDiffer(s: State, g: Ideal)
    requires Inv(s, g)
    ensures forall i, j :: 0 <= i < j < |s.pids| ==> s.pids[i] != s.pids[j]
  {
  }

  lemma FirstLayerRead(version: u32, b: bytes, extents: seq<Extent>, before: seq<Tracks<Markup>>)
    requires |before| == |extents| > 0 && DecLayers(version, b, extents, before).Parsed?
    ensures DecLayer(version, b, extents[0].first, before[0]).Parsed?
    ensures DecLayers(version, b, extents, before).value != []
    ensures DecLayers(version, b, extents, before).value[0] == DecLayer(version, b, extents[0].first, before[0]).value
  {
    hide DecLayer;
  }

  // --- records ------------------------------------------------------------------------------------

  /** A record as a reader gets it from its extent. */
  function ReadRecord(b: bytes, e: Extent): Parsed<Record> {
    var (time, o) :- DecU64(b, e.first);
    if e.second < 8 then NoParse
    else
      var (payload, o) :- Take(b, o, e.second - 8);
      Parsed(Record(time, payload), o)
  }

  /** The header offset the preamble holds. */
  function HeaderOffset(b: bytes): u32 {
    if DecU32(b, PREAMBLE_SIZE).Parsed? then DecU32(b, PREAMBLE_SIZE).value else 0
  }

  /** The record reads back; its time, too, unless it starts in the shared word. */
  predicate RecordRestored(b: bytes, e: Extent, r: Record) {
    var p := ReadRecord(b, e);
    && p.Parsed?
    && p.value.payload == r.payload
    && p.value.time == (if e.first == PREAMBLE_SIZE then PatchedTime(r.time, HeaderOffset(b)) else r.time)
  }

  predicate TrackRestored(b: bytes, m: Markup, rs: seq<Record>) {
    |m| == |rs| && forall i :: 0 <= i < |m| ==> RecordRestored(b, m[i], rs[i])
  }

  lemma StoredReads(b: bytes, off: nat, e: Extent, r: Record, headerOff: u32)
    requires Stored(b, off, e, r) && off <= |b|
    requires DecU32(b, PREAMBLE_SIZE) == Parsed(headerOff, 12)
    ensures RecordRestored(b, e, r)
    ensures ReadRecord(b, e) ==
      Parsed(Record(if e.first == PREAMBLE_SIZE then PatchedTime(r.time, headerOff) else r.time, r.payload), e.first + e.second)
  {
    hide At, EncU32, DecU32;
    var high := EncU32(r.time / TWO_32);
    if e.first == PREAMBLE_SIZE {
      assert r.Encode()[4..] == high + r.payload;
      AtConcat(b, 12, high, r.payload);
      U32RoundTrip(b, 12, r.time / TWO_32);
      PayloadTaken(b, 16, r.payload);
    } else {
      AtConcat(b, e.first, EncU64(r.time), r.payload);
      U64RoundTrip(b, e.first, r.time);
      PayloadTaken(b, e.first + 8, r.payload);
    }
  }

  lemma PayloadTaken(b: bytes, off: nat, payload: bytes)
    requires At(b, off, payload)
    ensures Take(b, off, |payload|) == Parsed(payload, off + |payload|)
  {
  }

  // --- the main results -----------------------------------------------------------------------------

  /** The file gives a new reader everything the ideal recorder remembers, up to the low word of the
      time of a record at offset 8, which holds the header offset instead. Files older than the
      render metrics leave that track out. */
  ghost predicate Restores(b: bytes, version: u32, g: Ideal) {
    var p := DecFile(b);
    && p.Parsed?
    && p.value.version == version
    && p.value.header == g.header
    && |p.value.layers| == |g.layers|
    && forall l :: 0 <= l < |g.layers| ==>
         && p.value.layers[l].property == g.layers[l].property
         && forall k: TrackKind ::
              if k == RenderMetrics && version < VERSION_RENDER_METRICS_ADDED
              then p.value.layers[l].markup.Get(k) == []
              else TrackRestored(b, p.value.layers[l].markup.Get(k), g.layers[l].records.Get(k))
  }

  lemma ReadsRestores(s: State, g: Ideal)
    requires Inv(s, g) && Reads(s.data, DocumentOf(s))
    requires DecU32(s.data, PREAMBLE_SIZE) == Parsed(HeaderOffset(s.data), 12)
    ensures Restores(s.data, s.version, g)
  {
    hide DecFile, Stored, RecordRestored, DecU32, SubHeader.Valid, At;
    var d := DecFile(s.data).value;
    OffsetInFile(s, g);
    forall l, k: TrackKind | 0 <= l < |g.layers|
      ensures TrackRestored(s.data, s.layers[l].markup.Get(k), g.layers[l].records.Get(k))
    {
      assert LayerStored(s.data, s.off, s.layers[l].markup, g.layers[l].records);
      var m, rs := s.layers[l].markup.Get(k), g.layers[l].records.Get(k);
      assert TrackStored(s.data, s.off, m, rs);
      forall i | 0 <= i < |m|
        ensures RecordRestored(s.data, m[i], rs[i])
      {
        StoredReads(s.data, s.off, m[i], rs[i], HeaderOffset(s.data));
      }
    }
    forall l | 0 <= l < |g.layers|
      ensures d.layers[l] == RestoredLayer(s.version, s.layers[l].Doc())
    {
    }
  }

  /** The condition under which no needed byte lies in the shared word: something was written
      before this header write, or there is no layer and the start time happens to fit. */
  predicate Clean(s: State) {
    s.off != PREAMBLE_SIZE || (s.layers == [] && s.start % TWO_32 == PREAMBLE_SIZE)
  }

  lemma NoneEmpty<T>(t: Tracks<seq<T>>)
    requires forall k: TrackKind :: t.Get(k) == []
    ensures t == Tracks([], [], [], [], [], [])
  {
    assert t.Get(RsData) == t.Get(OglData) == t.Get(RsMetrics) == t.Get(OglMetrics) == t.Get(GfxMetrics)
           == t.Get(RenderMetrics) == [];
  }

  lemma NoRecordsYet(s: State, g: Ideal)
    requires Inv(s, g) && s.off == PREAMBLE_SIZE
    ensures forall l :: 0 <= l < |g.layers| ==> s.layers[l].markup == NO_MARKUP && g.layers[l].records == NO_RECORDS
  {
    forall l | 0 <= l < |g.layers|
      ensures s.layers[l].markup == NO_MARKUP && g.layers[l].records == NO_RECORDS
    {
      var m, rs := s.layers[l].markup, g.layers[l].records;
      assert LayerStored(s.data, s.off, m, rs);
      forall k: TrackKind
        ensures m.Get(k) == [] && rs.Get(k) == []
      {
        TrackNeedsRoom(s.data, s.off, m.Get(k), rs.Get(k));
      }
      NoneEmpty(m);
      NoneEmpty(rs);
    }
  }

  lemma TrackNeedsRoom(data: bytes, off: nat, m: Markup, rs: seq<Record>)
    requires TrackStored(data, off, m, rs)
    ensures m != [] ==> PREAMBLE_SIZE + 8 <= off
  {
    if m != [] {
      assert Stored(data, off, m[0], rs[0]);
    }
  }

  /** After a clean header write the file decodes to what is in memory. */
  lemma CleanReads(s: State, g: Ideal)
    requires Inv(s, g) && !s.preparedMode && |WriteHeaders(s).data| < TWO_32 && Clean(s)
    ensures var u := WriteHeaders(s);
      && Reads(u.data, DocumentOf(u)) && |u.layers| == |s.layers| && u.version == s.version
      && forall l :: 0 <= l < |s.layers| ==> u.layers[l].Doc() == s.layers[l].Doc()
  {
    hide Inv, DecFile, Placed, At, Overwrite, EncTrack, EncLayer, SubHeader.Valid, DecU32;
    var n := |s.layers|;
    var t := WriteTables(s, n);
    Changed(s, g);
    TablesPlaced(s, n, g);
    TablesKeepInv(s, n, g);
    OffsetInFile(s, g);
    OffsetInFile(t, g);
    if s.off != PREAMBLE_SIZE {
      CleanFileReads(t, g, s.off, t.Header());
    } else {
      BareFileReads(s, g, s.Header());
      assert PatchedTime(s.start, PREAMBLE_SIZE) == s.start;
    }
    assert DocumentOf(t) == DocumentOf(WriteHeader(t));
  }

  /** Writing the headers makes the file restore the recording, up to the low word of the time of
      a record at offset 8, exactly when `Clean` holds. */
  lemma HeadersReopen(s: State, g: Ideal)
    requires Inv(s, g) && !s.preparedMode && |WriteHeaders(s).data| < TWO_32
    ensures Restores(WriteHeaders(s).data, s.version, g) <==> Clean(s)
  {
    hide Inv, DecFile, Placed, At, Overwrite, EncTrack, EncLayer, SubHeader.Valid, DecU32;
    var n := |s.layers|;
    var t := WriteTables(s, n);
    var u := WriteHeader(t);
    Changed(s, g);
    TablesPlaced(s, n, g);
    TablesKeepInv(s, n, g);
    HeaderKeepsInv(t, g);
    OffsetInFile(s, g);
    OffsetInFile(t, g);
    HeaderBytesAt(t, g);
    if Clean(s) {
      CleanReads(s, g);
      ReadsRestores(u, g);
    } else if s.layers == [] {
      BareFileReads(s, g, s.Header());
      if s.start % TWO_32 != PREAMBLE_SIZE {
        assert PatchedTime(s.start, PREAMBLE_SIZE) != s.start;
        HeaderKnown(s, g);
      }
    } else {
      NoRecordsYet(s, g);
      assert t.layers[0].Doc() == s.layers[0].Doc();
      HeaderKnown(s, g);
      DamagedTableMisread(t, g);
      PhantomRecords(u.data, s.version, g);
    }
  }

  lemma Changed(s: State, g: Ideal)
    requires Inv(s, g)
    ensures s.changed
  {
  }

  lemma HeaderKnown(s: State, g: Ideal)
    requires Inv(s, g)
    ensures s.Header() == g.header && |s.layers| == |g.layers|
  {
  }

  /** A reader that finds records in a layer that has none does not restore the recording. */
  lemma PhantomRecords(b: bytes, version: u32, g: Ideal)
    requires g.layers != [] && g.layers[0].records == NO_RECORDS
    requires DecFile(b).Parsed? ==> DecFile(b).value.layers != [] && DecFile(b).value.layers[0].markup != NO_MARKUP
    ensures !Restores(b, version, g)
  {
    hide DecFile, RecordRestored;
    if Restores(b, version, g) {
      NoPhantoms(b, version, g);
      assert false;
    }
  }

  lemma NoPhantoms(b: bytes, version: u32, g: Ideal)
    requires g.layers != [] && g.layers[0].records == NO_RECORDS && Restores(b, version, g)
    ensures DecFile(b).value.layers[0].markup == NO_MARKUP
  {
    hide DecFile, RecordRestored;
    var m := DecFile(b).value.layers[0].markup;
    forall k: TrackKind
      ensures m.Get(k) == []
    {
      assert g.layers[0].records.Get(k) == [];
    }
    NoneEmpty(m);
  }

  /** For every legal run of calls, with any number of snapshots in between, the file as it is after
      the next header write gives a new reader the whole recording, up to the low word of the time
      of a record at offset 8, if and only if the run is `Clean`. */
  lemma RecordingReopens(s: State, ops: seq<Op>)
    requires s.layers == [] && s.pids == [] && s.Header().Valid() && !s.preparedMode && LegalRun(0, ops)
    requires |WriteHeaders(Run(Create(s), ops)).data| < TWO_32
    ensures Restores(WriteHeaders(Run(Create(s), ops)).data, s.version, IdealRun(Ideal(s.Header(), []), ops))
            <==> Clean(Run(Create(s), ops))
  {
    hide Inv, Restores, Overwrite;
    CreateEstablishesInv(s);
    HeadersGrow(Run(Create(s), ops));
    RunKeepsInv(Create(s), Ideal(s.Header(), []), ops);
    HeadersReopen(Run(Create(s), ops), IdealRun(Ideal(s.Header(), []), ops));
  }

  lemma HeadersGrow(s: State)
    ensures |s.data| <= |WriteHeaders(s).data|
  {
  }

  /** In every reachable state the records of all tracks are pairwise disjoint and lie between the
      preamble and the write offset. */
  lemma RecordsSeparate(s: State, ops: seq<Op>)
    requires s.layers == [] && s.pids == [] && s.Header().Valid() && LegalRun(0, ops)
    requires |Run(Create(s), ops).data| < TWO_32
    ensures var t := Run(Create(s), ops);
      && Separate(t.layers)
      && forall p :: Exists(t.layers, p) ==>
           PREAMBLE_SIZE <= ExtentAt(t.layers, p).first
           && ExtentAt(t.layers, p).first + ExtentAt(t.layers, p).second <= t.off <= |t.data|
  {
    CreateEstablishesInv(s);
    RunKeepsInv(Create(s), Ideal(s.Header(), []), ops);
    var t, g := Run(Create(s), ops), IdealRun(Ideal(s.Header(), []), ops);
    forall p | Exists(t.layers, p)
      ensures PREAMBLE_SIZE <= ExtentAt(t.layers, p).first
      ensures ExtentAt(t.layers, p).first + ExtentAt(t.layers, p).second <= t.off
    {
      assert LayerStored(t.data, t.off, t.layers[p.layer].markup, g.layers[p.layer].records);
      assert TrackStored(t.data, t.off, t.layers[p.layer].markup.Get(p.kind), g.layers[p.layer].records.Get(p.kind));
    }
  }

  /** A header write changes no byte between the shared word and the write offset. */
  lemma HeadersTouchNoRecord(s: State, g: Ideal, i: nat)
    requires Inv(s, g) && |WriteHeaders(s).data| < TWO_32
    requires PREAMBLE_SIZE + 4 <= i < s.off
    ensures WriteHeaders(s).data[i] == s.data[i]
  {
    hide EncLayer, EncTrack, State.HeaderBytes, Inv, Overwrite;
    Changed(s, g);
    OffsetInFile(s, g);
    var t := WriteTables(s, |s.layers|);
    TablesTouchNoRecord(s, |s.layers|, g, i);
    TablesKeepInv(s, |s.layers|, g);
    OffsetInFile(t, g);
    TablesPlaced(s, |s.layers|, g);
    var body := t.HeaderBytes() + EncTrack(t.Extents());
    ByteKept(t.data, t.off, body, i);
    ByteKept(Overwrite(t.data, t.off, body), PREAMBLE_SIZE, EncU32(t.off), i);
  }

  lemma {:induction false} TablesTouchNoRecord(s: State, n: nat, g: Ideal, i: nat)
    requires Inv(s, g) && n <= |s.layers| && |WriteTables(s, n).data| < TWO_32 && i < s.off
    ensures i < |WriteTables(s, n).data| && WriteTables(s, n).data[i] == s.data[i]
  {
    hide EncLayer, Inv, Overwrite;
    OffsetInFile(s, g);
    if n > 0 {
      var p := WriteTables(s, n - 1);
      TablesTouchNoRecord(s, n - 1, g, i);
      TablesKeepInv(s, n - 1, g);
      TablesPlaced(s, n - 1, g);
      OffsetInFile(p, g);
      ByteKept(p.data, p.off, EncLayer(p.version, p.layers[n - 1].Doc()), i);
    }
  }

  lemma ByteKept(b: bytes, pos: nat, x: bytes, i: nat)
    requires pos <= |b| && i < |b| && (i < pos || pos + |x| <= i)
    ensures Overwrite(b, pos, x)[i] == b[i]
  {
  }

  /** The time of a record survives the header write exactly when the record does not start in
      the shared word or its low half equals the header offset; the payload always survives. */
  lemma RecordSurvives(s: State, g: Ideal, p: Place)
    requires Inv(s, g) && |WriteHeaders(s).data| < TWO_32
    requires Exists(s.layers, p)
    ensures p.layer < |g.layers| && p.index < |g.layers[p.layer].records.Get(p.kind)|
    ensures var t := WriteHeaders(s);
      var r := g.layers[p.layer].records.Get(p.kind)[p.index];
      var read := ReadRecord(t.data, ExtentAt(s.layers, p));
      && read.Parsed? && read.value.payload == r.payload
      && (read.value.time == r.time <==>
            ExtentAt(s.layers, p).first != PREAMBLE_SIZE || r.time % TWO_32 == t.headerOff)
  {
    hide Inv, Stored, At, Overwrite, EncLayer, EncTrack, ReadRecord;
    var t := WriteTables(s, |s.layers|);
    var u := WriteHeader(t);
    Changed(s, g);
    TablesKeepInv(s, |s.layers|, g);
    TablesPlaced(s, |s.layers|, g);
    HeaderKeepsInv(t, g);
    OffsetInFile(u, g);
    HeaderBytesAt(t, g);
    HeadersKeepInv(s, g);
    PlaceStored(u, g, p);
    assert u.layers[p.layer].Doc() == s.layers[p.layer].Doc();
    var r := g.layers[p.layer].records.Get(p.kind)[p.index];
    StoredReads(u.data, u.off, ExtentAt(s.layers, p), r, u.headerOff);
    assert r.time == r.time % TWO_32 + TWO_32 * (r.time / TWO_32);
  }

  lemma PlaceStored(s: State, g: Ideal, p: Place)
    requires Inv(s, g)
    ensures |s.layers| == |g.layers|
    ensures Exists(s.layers, p) ==>
      && p.index < |g.layers[p.layer].records.Get(p.kind)|
      && Stored(s.data, s.off, ExtentAt(s.layers, p), g.layers[p.layer].records.Get(p.kind)[p.index])
  {
    if Exists(s.layers, p) {
      assert LayerStored(s.data, s.off, s.layers[p.layer].markup, g.layers[p.layer].records);
      assert TrackStored(s.data, s.off, s.layers[p.layer].markup.Get(p.kind), g.layers[p.layer].records.Get(p.kind));
    }
  }

  /** A header that was captured from one file and handed to another in prepared mode is read
      from the other as it stood in the first. */
  lemma PreparedHeaderReads(s: State, g: Ideal, h: SubHeader)
    requires Inv(s, g) && s.preparedMode && |WriteHeaders(s).data| < TWO_32 && s.off != PREAMBLE_SIZE
    requires s.prepared == EncSubHeader(h) && h.Valid()
    ensures Reads(WriteHeaders(s).data, DocumentOf(WriteHeaders(s)).(header := h))
    ensures WriteHeaders(s).prepared == []
  {
    hide Inv, Reads, Placed, At, Overwrite, EncTrack, EncLayer, SubHeader.Valid, EncSubHeader;
    var t := WriteTables(s, |s.layers|);
    Changed(s, g);
    OffsetInFile(s, g);
    TablesPlaced(s, |s.layers|, g);
    TablesKeepInv(s, |s.layers|, g);
    CleanFileReads(t, g, s.off, h);
    assert DocumentOf(t) == DocumentOf(WriteHeader(t));
  }

  /** Once it is used up, the layer extents stand where a reader looks for the header: what it takes
      for the start time is the number of layers and the place of the first layer table. */
  lemma UsedUpHeaderMisread(s: State, g: Ideal)
    requires Inv(s, g) && s.preparedMode && s.prepared == [] && s.layers != [] && |WriteHeaders(s).data| < TWO_32
    ensures var p := DecFile(WriteHeaders(s).data);
      p.Parsed? ==> p.value.header.start == |s.layers| + TWO_32 * s.off
  {
    hide Inv, Placed, At, Overwrite, EncTrack, EncLayer, DecU32, EncU32, DecTrack, DecLayers, DecPids;
    var t := WriteTables(s, |s.layers|);
    var b := WriteHeader(t).data;
    Changed(s, g);
    TablesPlaced(s, |s.layers|, g);
    TablesKeepInv(s, |s.layers|, g);
    OffsetInFile(s, g);
    HeaderBytesAt(t, g);
    FirstExtentAt(b, t.off, t.Extents());
    ExtentsFit(s, g);
    assert DecU64(b, t.off) == Parsed(|s.layers| + TWO_32 * s.off, t.off + 8);
  }

  lemma FirstExtentAt(b: bytes, off: nat, m: Markup)
    requires At(b, off, EncTrack(m)) && m != []
    ensures DecU32(b, off) == Parsed(Trunc32(|m|), off + 4) && DecU32(b, off + 4) == Parsed(m[0].first, off + 8)
  {
    hide At, EncU32, DecU32;
    var rest := EncU32(m[0].second) + EncAll(EncExtent, m[1..]);
    assert EncAll(EncExtent, m) == EncU32(m[0].first) + rest;
    AtConcat(b, off, EncU32(Trunc32(|m|)), EncAll(EncExtent, m));
    AtConcat(b, off + 4, EncU32(m[0].first), rest);
    U32RoundTrip(b, off, Trunc32(|m|));
    U32RoundTrip(b, off + 4, m[0].first);
  }

  /** Every layer has a table of its own in the file. */
  lemma ExtentsFit(s: State, g: Ideal)
    requires Inv(s, g) && |WriteHeaders(s).data| < TWO_32
    ensures |s.layers| < TWO_32
  {
    hide Inv, EncLayer, Overwrite;
    Changed(s, g);
    TablesFit(s, |s.layers|, g);
  }

  lemma {:induction false} TablesFit(s: State, n: nat, g: Ideal)
    requires Inv(s, g) && n <= |s.layers| && |WriteTables(s, n).data| < TWO_32
    ensures n <= WriteTables(s, n).off <= |WriteTables(s, n).data|
  {
    hide Inv, EncLayer, Overwrite;
    OffsetInFile(s, g);
    if n > 0 {
      var p := WriteTables(s, n - 1);
      TablesFit(s, n - 1, g);
      TablesKeepInv(s, n - 1, g);
      TableKeepsInv(p, n - 1, g);
      OffsetInFile(WriteTable(p, n - 1), g);
      LayerBytes(p.version, p.layers[n - 1].Doc());
    }
  }

  /** So a second header write, a snapshot and then the end of the recording, loses the document of a
      file with layers, unless its start time is exactly that number. */
  lemma PreparedTwice(s: State, g: Ideal, h: SubHeader)
    requires Inv(s, g) && s.preparedMode && s.layers != []
    requires |WriteHeaders(WriteHeaders(s)).data| < TWO_32
    ensures var u := WriteHeaders(s);
      Reads(WriteHeaders(u).data, DocumentOf(WriteHeaders(u)).(header := h)) ==>
        h.start == |s.layers| + TWO_32 * u.off
  {
    hide Inv, DecFile, Overwrite, EncLayer;
    HeadersGrow(WriteHeaders(s));
    Changed(s, g);
    HeadersKeepInv(s, g);
    UsedUpHeaderMisread(WriteHeaders(s), g);
  }

  /** Without layers the second header write leaves the file alone, in which the low word of the start
      time was replaced by the first one. */
  lemma PreparedBareTwice(s: State, g: Ideal, h: SubHeader)
    requires Inv(s, g) && s.preparedMode && s.layers == [] && s.off == PREAMBLE_SIZE
    requires |WriteHeaders(s).data| < TWO_32 && s.prepared == EncSubHeader(h) && h.Valid()
    ensures WriteHeaders(WriteHeaders(s)).data == WriteHeaders(s).data
    ensures Reads(WriteHeaders(s).data, DocumentOf(s).(header := h.(start := PatchedTime(h.start, PREAMBLE_SIZE))))
  {
    hide Inv, Reads, EncSubHeader, EncU32, SubHeader.Valid;
    Changed(s, g);
    OffsetInFile(s, g);
    BareFileReads(s, g, h);
    var u := WriteHeader(s);
    assert WriteHeaders(s) == u && WriteHeaders(u) == WriteHeader(u);
    assert u.HeaderBytes() + EncTrack(u.Extents()) == EncTrack([]) by {
      assert u.Extents() == [];
    }
    OverwrittenAgain(Overwrite(s.data, s.off, s.HeaderBytes() + EncTrack(s.Extents())), PREAMBLE_SIZE,
                     EncU32(s.off), EncTrack([]));
  }

  lemma OverwrittenAgain(b: bytes, pos: nat, x: bytes, y: bytes)
    requires pos + |x| <= |b| && |y| == |x|
    ensures Overwrite(Overwrite(Overwrite(b, pos, x), pos, y), pos, x) == Overwrite(b, pos, x)
  {
  }

  /** The smallest recordings that lose something: one layer without records is not restored at
      all, and a first record at time 1 comes back with another time. */
  lemma SmallestLosses(s: State)
    requires s.layers == [] && s.pids == [] && s.Header().Valid() && !s.preparedMode
    ensures LegalRun(0, [OpLayer]) && !Clean(Run(Create(s), [OpLayer]))
    ensures var t := Step(Step(Create(s), OpLayer), OpRecord(RsData, 0, Record(1, [])));
      && Exists(t.layers, Place(0, RsData, 0))
      && (|WriteHeaders(t).data| < TWO_32 ==>
            ReadRecord(WriteHeaders(t).data, ExtentAt(t.layers, Place(0, RsData, 0))) != Parsed(Record(1, []), 16))
  {
    hide Overwrite, WriteHeaders, Inv, ReadRecord;
    var one := Step(Create(s), OpLayer);
    assert Run(Create(s), [OpLayer]) == Run(one, [OpLayer][1..]) == one;
    var op := OpRecord(RsData, 0, Record(1, []));
    var t := Step(one, op);
    if |WriteHeaders(t).data| < TWO_32 {
      HeadersGrow(t);
      FirstRecordInv(s, op);
      var g := IdealStep(IdealStep(Ideal(s.Header(), []), OpLayer), op);
      FirstHeaderBehind(t, g);
      RecordSurvives(t, g, Place(0, RsData, 0));
    }
  }

  lemma FirstRecordInv(s: State, op: Op)
    requires s.layers == [] && s.pids == [] && s.Header().Valid() && Legal(1, op)
    requires |Step(Step(Create(s), OpLayer), op).data| < TWO_32
    ensures Inv(Step(Step(Create(s), OpLayer), op), IdealStep(IdealStep(Ideal(s.Header(), []), OpLayer), op))
  {
    CreateEstablishesInv(s);
    var g := Ideal(s.Header(), []);
    StepKeepsInv(Create(s), g, OpLayer);
    StepKeepsInv(Step(Create(s), OpLayer), IdealStep(g, OpLayer), op);
  }

  /** The header lies behind the layer tables. */
  lemma FirstHeaderBehind(s: State, g: Ideal)
    requires Inv(s, g) && s.layers != [] && |WriteHeaders(s).data| < TWO_32
    ensures WriteHeaders(s).headerOff > s.off
  {
    Changed(s, g);
    TablesPlaced(s, |s.layers|, g);
  }
}
