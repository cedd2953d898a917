/** When a recording reads back with nothing lost at all, every time included. */
module ExactReopening {
  import opened Bytes
  import opened Codec
  import opened RecordingFormat
  import opened Recorder
  import opened Reopening
  import CD = CaptureData
  import IC = ImageCache

  /** Every record of a track reads back as it was given. */
  predicate TrackExact(b: bytes, m: Markup, rs: seq<Record>) {
    |m| == |rs| && forall i :: 0 <= i < |m| ==> ReadRecord(b, m[i]).Parsed? && ReadRecord(b, m[i]).value == rs[i]
  }

  /** Older files have no render metrics. */
  predicate Dropped(version: u32, k: TrackKind) {
    k == RenderMetrics && version < VERSION_RENDER_METRICS_ADDED
  }

  /** A new reader gets every field, every payload and every time that the ideal recorder remembers. */
  ghost predicate RestoresExactly(b: bytes, version: u32, g: Ideal) {
    var p := DecFile(b);
    && p.Parsed?
    && p.value.version == version
    && p.value.header == g.header
    && |p.value.layers| == |g.layers|
    && forall l :: 0 <= l < |g.layers| ==>
         && p.value.layers[l].property == g.layers[l].property
         && forall k: TrackKind ::
              if Dropped(version, k) then p.value.layers[l].markup.Get(k) == []
              else TrackExact(b, p.value.layers[l].markup.Get(k), g.layers[l].records.Get(k))
  }

  /** The sizes of the first `n` layer tables together. */
  function TableBytes(s: State, n: nat): nat
    requires n <= |s.layers|
  {
    if n == 0 then 0 else TableBytes(s, n - 1) + |EncLayer(s.version, s.layers[n - 1].Doc())|
  }

  /** The tables go behind the data, and the header behind the tables. */
  function HeaderPlace(s: State): nat {
    s.off + TableBytes(s, |s.layers|)
  }

  lemma {:induction false} TablesEnd(s: State, n: nat, g: Ideal)
    requires Inv(s, g) && n <= |s.layers| && |WriteTables(s, n).data| < TWO_32
    ensures WriteTables(s, n).off == s.off + TableBytes(s, n)
  {
    hide Inv, EncLayer, Overwrite, Placed;
    if n > 0 {
      var p := WriteTables(s, n - 1);
      TablesEnd(s, n - 1, g);
      TablesKeepInv(s, n - 1, g);
      TablesPlaced(s, n - 1, g);
      TableKeepsInv(p, n - 1, g);
    }
  }

  lemma HeaderStands(s: State, g: Ideal)
    requires Inv(s, g) && |WriteHeaders(s).data| < TWO_32
    ensures WriteHeaders(s).headerOff == HeaderPlace(s)
  {
    hide Inv, Overwrite;
    Changed(s, g);
    TablesEnd(s, |s.layers|, g);
  }

  /** The time of a record at offset 8 happens to have in its low word where the header will stand. */
  ghost predicate TimesFit(s: State, g: Ideal) {
    forall p :: Exists(s.layers, p) && !Dropped(s.version, p.kind) ==> TimeFits(s, g, p)
  }

  ghost predicate TimeFits(s: State, g: Ideal, p: Place)
    requires Exists(s.layers, p)
  {
    ExtentAt(s.layers, p).first != PREAMBLE_SIZE ||
    (&& p.layer < |g.layers| && p.index < |g.layers[p.layer].records.Get(p.kind)|
     && g.layers[p.layer].records.Get(p.kind)[p.index].time % TWO_32 == HeaderPlace(s))
  }

  // --- exact is more than restored -------------------------------------------------------------

  lemma ExactRecord(b: bytes, e: Extent, r: Record)
    requires ReadRecord(b, e).Parsed? && ReadRecord(b, e).value == r
    ensures RecordRestored(b, e, r)
  {
    if e.first == PREAMBLE_SIZE {
      hide DecU32, Take;
      var low, high := DecU32(b, PREAMBLE_SIZE).value, DecU32(b, PREAMBLE_SIZE + 4).value;
      assert DecU32(b, PREAMBLE_SIZE).next == PREAMBLE_SIZE + 4;
      assert r.time == low + TWO_32 * high && HeaderOffset(b) == low;
      SameHigh(low, high);
    }
  }

  lemma SameHigh(low: u32, high: u32)
    ensures PatchedTime(low + TWO_32 * high, low) == low + TWO_32 * high
  {
  }

  lemma ExactTrack(b: bytes, m: Markup, rs: seq<Record>)
    requires TrackExact(b, m, rs)
    ensures TrackRestored(b, m, rs)
  {
    hide ReadRecord, RecordRestored;
    forall i | 0 <= i < |m|
      ensures RecordRestored(b, m[i], rs[i])
    {
      ExactRecord(b, m[i], rs[i]);
    }
  }

  lemma ExactRestores(b: bytes, version: u32, g: Ideal)
    requires RestoresExactly(b, version, g)
    ensures Restores(b, version, g)
  {
    hide DecFile, TrackExact, TrackRestored;
    var d := DecFile(b).value;
    forall l, k: TrackKind | 0 <= l < |g.layers| && !Dropped(version, k)
      ensures TrackRestored(b, d.layers[l].markup.Get(k), g.layers[l].records.Get(k))
    {
      ExactTrack(b, d.layers[l].markup.Get(k), g.layers[l].records.Get(k));
    }
  }

  // --- the exact condition ---------------------------------------------------------------------------

  lemma KeptTrack(version: u32, d: LayerDoc, k: TrackKind)
    ensures RestoredLayer(version, d).property == d.property
    ensures RestoredLayer(version, d).markup.Get(k) == if Dropped(version, k) then [] else d.markup.Get(k)
  {
  }

  /** One track of a clean recording. */
  lemma TrackExactIff(s: State, g: Ideal, l: nat, k: TrackKind)
    requires Inv(s, g) && |WriteHeaders(s).data| < TWO_32 && l < |s.layers|
    ensures |g.layers| == |s.layers| && |s.layers[l].markup.Get(k)| == |g.layers[l].records.Get(k)|
    ensures TrackExact(WriteHeaders(s).data, s.layers[l].markup.Get(k), g.layers[l].records.Get(k))
       <==> forall i :: 0 <= i < |s.layers[l].markup.Get(k)| ==> TimeFits(s, g, Place(l, k, i))
  {
    hide Inv, ReadRecord, WriteHeaders, TrackStored, LayerStored, HeaderPlace;
    TrackHeld(s, g, l, k);
    HeaderStands(s, g);
    var m, rs := s.layers[l].markup.Get(k), g.layers[l].records.Get(k);
    forall i | 0 <= i < |m|
      ensures ReadRecord(WriteHeaders(s).data, m[i]).Parsed?
      ensures ReadRecord(WriteHeaders(s).data, m[i]).value == rs[i] <==> TimeFits(s, g, Place(l, k, i))
    {
      assert Exists(s.layers, Place(l, k, i)) && ExtentAt(s.layers, Place(l, k, i)) == m[i];
      RecordSurvives(s, g, Place(l, k, i));
    }
  }

  lemma TrackHeld(s: State, g: Ideal, l: nat, k: TrackKind)
    requires Inv(s, g) && l < |s.layers|
    ensures |g.layers| == |s.layers| && s.layers[l].property == g.layers[l].property
    ensures |s.layers[l].markup.Get(k)| == |g.layers[l].records.Get(k)|
  {
    hide Stored;
    assert LayerStored(s.data, s.off, s.layers[l].markup, g.layers[l].records);
    assert TrackStored(s.data, s.off, s.layers[l].markup.Get(k), g.layers[l].records.Get(k));
  }

  lemma CleanExactIff(s: State, g: Ideal)
    requires Inv(s, g) && !s.preparedMode && |WriteHeaders(s).data| < TWO_32 && Clean(s)
    ensures RestoresExactly(WriteHeaders(s).data, s.version, g) <==> TimesFit(s, g)
  {
    hide Inv, DecFile, WriteHeaders, TrackExact, TimeFits, Clean, RestoredLayer;
    var u := WriteHeaders(s);
    CleanReads(s, g);
    HeaderKnown(s, g);
    WrittenHeader(s);
    var d := DecFile(u.data).value;
    forall l | 0 <= l < |s.layers|
      ensures d.layers[l].property == g.layers[l].property
    {
      KeptTrack(s.version, s.layers[l].Doc(), RsData);
      TrackHeld(s, g, l, RsData);
    }
    forall l, k: TrackKind | 0 <= l < |s.layers|
      ensures d.layers[l].markup.Get(k) == if Dropped(s.version, k) then [] else s.layers[l].markup.Get(k)
    {
      KeptTrack(s.version, s.layers[l].Doc(), k);
    }
    if TimesFit(s, g) {
      forall l, k: TrackKind | 0 <= l < |s.layers| && !Dropped(s.version, k)
        ensures TrackExact(u.data, d.layers[l].markup.Get(k), g.layers[l].records.Get(k))
      {
        TrackExactIff(s, g, l, k);
        forall i | 0 <= i < |s.layers[l].markup.Get(k)|
          ensures TimeFits(s, g, Place(l, k, i))
        {
          assert Exists(s.layers, Place(l, k, i));
        }
      }
    }
    if RestoresExactly(u.data, s.version, g) {
      forall p | Exists(s.layers, p) && !Dropped(s.version, p.kind)
        ensures TimeFits(s, g, p)
      {
        TrackExactIff(s, g, p.layer, p.kind);
        assert TrackExact(u.data, d.layers[p.layer].markup.Get(p.kind), g.layers[p.layer].records.Get(p.kind));
        assert p == Place(p.layer, p.kind, p.index);
      }
    }
  }

  lemma WrittenHeader(s: State)
    ensures WriteHeaders(s).Header() == s.Header()
  {
  }

  /** A header write makes the file restore the recording with nothing lost exactly when it is
      clean and the time of any record at offset 8 happens to fit. */
  lemma HeadersReopenExactly(s: State, g: Ideal)
    requires Inv(s, g) && !s.preparedMode && |WriteHeaders(s).data| < TWO_32
    ensures RestoresExactly(WriteHeaders(s).data, s.version, g) <==> Clean(s) && TimesFit(s, g)
  {
    hide Inv, WriteHeaders, RestoresExactly, Restores, Clean, TimesFit;
    HeadersReopen(s, g);
    if Clean(s) {
      CleanExactIff(s, g);
    }
    if RestoresExactly(WriteHeaders(s).data, s.version, g) {
      ExactRestores(WriteHeaders(s).data, s.version, g);
    }
  }

  /** The main result: for every legal run of calls, with any number of snapshots in between, the
      file behind the next header write gives a new reader exactly what an ideal recorder remembers,
      every time included, if and only if the run is `Clean` and `TimesFit`. */
  lemma RecordingReopensExactly(s: State, ops: seq<Op>)
    requires s.layers == [] && s.pids == [] && s.Header().Valid() && !s.preparedMode && LegalRun(0, ops)
    requires |WriteHeaders(Run(Create(s), ops)).data| < TWO_32
    ensures var t := Run(Create(s), ops);
      var g := IdealRun(Ideal(s.Header(), []), ops);
      RestoresExactly(WriteHeaders(t).data, s.version, g) <==> Clean(t) && TimesFit(t, g)
  {
    hide Inv, RestoresExactly, Overwrite, WriteHeaders, TimesFit, Clean;
    CreateEstablishesInv(s);
    HeadersGrow(Run(Create(s), ops));
    RunKeepsInv(Create(s), Ideal(s.Header(), []), ops);
    HeadersReopenExactly(Run(Create(s), ops), IdealRun(Ideal(s.Header(), []), ops));
  }

  // --- the shortest recordings that lose something -------------------------------------------------------

  /** A recorder that has not been used. */
  const BLANK := State([], VERSION_RENDER_METRICS_ADDED, 0, 0, [], [], [], 0, false, [], false, [])

  lemma {:induction false} TrackSize(m: Markup)
    ensures |EncTrack(m)| == 4 + 8 * |m|
  {
    ExtentsSize(m);
  }

  lemma {:induction false} ExtentsSize(m: Markup)
    ensures |EncAll(EncExtent, m)| == 8 * |m|
  {
    if m != [] {
      ExtentsSize(m[1..]);
    }
  }

  lemma LayerSize(markup: Tracks<Markup>)
    requires forall k: TrackKind :: |markup.Get(k)| <= 1
    ensures |EncLayer(VERSION_RENDER_METRICS_ADDED, LayerDoc(CD.EMPTY, markup))| <= 100
  {
    hide EncTrack, EncU32, EncU64;
    TrackSize(markup.Get(RsData));
    TrackSize(markup.Get(OglData));
    TrackSize(markup.Get(RsMetrics));
    TrackSize(markup.Get(OglMetrics));
    TrackSize(markup.Get(GfxMetrics));
    TrackSize(markup.Get(RenderMetrics));
    assert |EncTables(VERSION_RENDER_METRICS_ADDED, markup)| <= 72;
    assert |CD.EMPTY.Encode()| == 12;
  }

  lemma BlankHeaderSize(extents: seq<Extent>)
    requires |extents| <= 1
    ensures |EncSubHeader(SubHeader(0, [], [], [])) + EncTrack(extents)| <= 40
  {
    hide EncTrack, EncU32, EncU64;
    TrackSize(extents);
    assert |EncPids([])| == 4;
    assert |IC.EncImages([])| == 4;
  }

  lemma OverwriteSize(b: bytes, pos: nat, x: bytes)
    requires pos <= |b|
    ensures |Overwrite(b, pos, x)| <= |b| + |x|
  {
  }

  /** With one layer and at most one record the whole file stays small. */
  lemma SmallFile(t: State)
    requires |t.layers| == 1 && t.version == VERSION_RENDER_METRICS_ADDED && t.Header() == SubHeader(0, [], [], [])
    requires !t.preparedMode && t.layers[0].property == CD.EMPTY && |t.data| <= 100 && t.off <= |t.data| && t.off >= 8
    requires forall k: TrackKind :: |t.layers[0].markup.Get(k)| <= 1
    ensures |WriteHeaders(t).data| < TWO_32
  {
    hide Overwrite, EncLayer, EncSubHeader, EncTrack, EncU32;
    var table := EncLayer(t.version, t.layers[0].Doc());
    LayerSize(t.layers[0].markup);
    OverwriteSize(t.data, t.off, table);
    OverwriteEffect(t.data, t.off, table);
    assert WriteTables(t, 0) == t;
    var u := WriteTables(t, 1);
    assert u == WriteTable(t, 0);
    BlankHeaderSize(u.Extents());
    var body := u.HeaderBytes() + EncTrack(u.Extents());
    OverwriteSize(u.data, u.off, body);
    OverwriteSize(Overwrite(u.data, u.off, body), PREAMBLE_SIZE, EncU32(u.off));
  }

  /** One layer without records is not restored at all. */
  lemma EmptyLayerLost()
    ensures var t := Run(Create(BLANK), [OpLayer]);
      && LegalRun(0, [OpLayer]) && |WriteHeaders(t).data| < TWO_32
      && !Restores(WriteHeaders(t).data, BLANK.version, IdealRun(Ideal(BLANK.Header(), []), [OpLayer]))
  {
    hide WriteHeaders, Restores, Overwrite;
    var ops := [OpLayer];
    assert ops[1..] == [];
    var t := Run(Create(BLANK), ops);
    assert t == AddLayer(Create(BLANK));
    SmallFile(t);
    RecordingReopens(BLANK, ops);
  }

  /** One layer with one record at time 1: everything is restored but that time. */
  lemma FirstTimeLost()
    ensures var ops := [OpLayer, OpRecord(RsData, 0, Record(1, []))];
      var t := Run(Create(BLANK), ops);
      var g := IdealRun(Ideal(BLANK.Header(), []), ops);
      && LegalRun(0, ops) && |WriteHeaders(t).data| < TWO_32
      && Restores(WriteHeaders(t).data, BLANK.version, g) && !RestoresExactly(WriteHeaders(t).data, BLANK.version, g)
  {
    hide WriteHeaders, Restores, RestoresExactly, Overwrite, EncU64, EncU32, Inv, TimeFits;
    var op := OpRecord(RsData, 0, Record(1, []));
    var ops := [OpLayer, op];
    TwoSteps(ops);
    var one := Step(Create(BLANK), OpLayer);
    var t := Step(one, op);
    OneRecord(t);
    SmallFile(t);
    RecordingReopens(BLANK, ops);
    RecordingReopensExactly(BLANK, ops);
    var g := IdealRun(Ideal(BLANK.Header(), []), ops);
    var p := Place(0, RsData, 0);
    assert Exists(t.layers, p) && ExtentAt(t.layers, p).first == PREAMBLE_SIZE && !Dropped(t.version, RsData);
    assert !TimeFits(t, g, p) by {
      FirstTime(t, g);
    }
  }

  lemma TwoSteps(ops: seq<Op>)
    requires |ops| == 2 && ops[0] == OpLayer && ops[1] == OpRecord(RsData, 0, Record(1, []))
    ensures LegalRun(0, ops)
    ensures Run(Create(BLANK), ops) == Step(Step(Create(BLANK), OpLayer), ops[1])
    ensures var g := Ideal(BLANK.Header(), []);
      IdealRun(g, ops) == IdealStep(IdealStep(g, OpLayer), ops[1])
      && IdealRun(g, ops).layers == [IdealLayer(CD.EMPTY, NO_RECORDS.Set(RsData, [Record(1, [])]))]
  {
    hide WriteTrack, Create;
    assert ops[1..][0] == ops[1] && ops[1..][1..] == [];
    assert LayersAfter(0, ops[0]) == 1 && LegalRun(LayersAfter(0, ops[0]), ops[1..]);
    assert LegalRun(0, ops);
    var one := Step(Create(BLANK), ops[0]);
    assert Run(one, ops[1..]) == Run(Step(one, ops[1]), ops[1..][1..]) == Step(one, ops[1]);
    var g := IdealStep(Ideal(BLANK.Header(), []), OpLayer);
    assert IdealRun(g, ops[1..]) == IdealRun(IdealStep(g, ops[1]), ops[1..][1..]) == IdealStep(g, ops[1]);
    assert g.layers == [IdealLayer(CD.EMPTY, NO_RECORDS)];
    assert [] + [Record(1, [])] == [Record(1, [])];
  }

  lemma OneRecord(t: State)
    requires t == Step(Step(Create(BLANK), OpLayer), OpRecord(RsData, 0, Record(1, [])))
    ensures |t.layers| == 1 && t.version == BLANK.version && t.Header() == BLANK.Header() && !t.preparedMode
    ensures t.layers[0].property == CD.EMPTY && t.layers[0].markup == NO_MARKUP.Set(RsData, [Extent(8, 8)])
    ensures |t.data| == 16 && t.off == 16
  {
    hide EncU64, EncU32;
    var one := Step(Create(BLANK), OpLayer);
    assert one.layers == [NEW_LAYER] && |one.data| == 12 && one.off == 8;
    OverwriteEffect(one.data, 8, EncU64(1) + []);
    assert [] + [Extent(8, 8)] == [Extent(8, 8)];
  }

  lemma FirstTime(t: State, g: Ideal)
    requires |t.layers| == 1 && t.layers[0].markup == NO_MARKUP.Set(RsData, [Extent(8, 8)])
    requires g.layers == [IdealLayer(CD.EMPTY, NO_RECORDS.Set(RsData, [Record(1, [])]))]
    requires t.off > 1
    ensures !TimeFits(t, g, Place(0, RsData, 0))
  {
    hide TableBytes;
    assert HeaderPlace(t) > 1;
    hide HeaderPlace;
    assert g.layers[0].records.Get(RsData) == [Record(1, [])];
    assert ExtentAt(t.layers, Place(0, RsData, 0)) == Extent(8, 8);
  }

  // --- a whole file, byte by byte -------------------------------------------------------------------------

  const ZERO_4: bytes := [0, 0, 0, 0]

  /** "ROHR" as a word, the version, and the header offset over the low half of the record's time. */
  const GOLDEN_START: bytes := [0x52, 0x48, 0x4F, 0x52, 0x01, 0x07, 0x24, 0x00, 64, 0, 0, 0, 0, 0, 0, 0]

  /** The layer table: an empty property map of twelve bytes, then the six index tables, the first one
      with the record of eight bytes at offset 8. */
  const GOLDEN_TABLE: bytes :=
    [12, 0, 0, 0] + (ZERO_4 + (ZERO_4 + (ZERO_4 + ([1, 0, 0, 0, 8, 0, 0, 0, 8, 0, 0, 0]
    + (ZERO_4 + (ZERO_4 + (ZERO_4 + (ZERO_4 + ZERO_4))))))))

  /** The header: start time, pids, first frame, images, and the one layer table at 16. */
  const GOLDEN_HEADER: bytes := ZERO_4 + ZERO_4 + ZERO_4 + ZERO_4 + ZERO_4 + [1, 0, 0, 0, 16, 0, 0, 0, 48, 0, 0, 0]

  lemma SmallWords()
    ensures EncU32(0) == ZERO_4 && EncU64(0) == ZERO_4 + ZERO_4 && EncU64(1) == [1, 0, 0, 0] + ZERO_4
    ensures EncU32(1) == [1, 0, 0, 0] && EncU32(8) == [8, 0, 0, 0] && EncU32(12) == [12, 0, 0, 0]
    ensures EncU32(16) == [16, 0, 0, 0] && EncU32(48) == [48, 0, 0, 0] && EncU32(64) == [64, 0, 0, 0]
    ensures EncU32(MAGIC) == [0x52, 0x48, 0x4F, 0x52] && EncU32(0x240701) == [0x01, 0x07, 0x24, 0x00]
  {
  }

  lemma OneExtent(e: Extent)
    ensures EncTrack([e]) == EncU32(1) + (EncU32(e.first) + EncU32(e.second)) && EncTrack([]) == EncU32(0)
  {
    hide EncU32;
    assert [e][1..] == [];
    assert EncAll(EncExtent, [e]) == EncExtent(e) + [];
  }

  lemma GoldenTable()
    ensures EncLayer(0x240701, LayerDoc(CD.EMPTY, NO_MARKUP.Set(RsData, [Extent(8, 8)]))) == GOLDEN_TABLE
    ensures |GOLDEN_TABLE| == 48
  {
    SmallWords();
    OneExtent(Extent(8, 8));
    hide EncU32, EncU64, EncTrack;
    assert CD.EMPTY.Encode() == ZERO_4 + (ZERO_4 + ZERO_4);
    var m := NO_MARKUP.Set(RsData, [Extent(8, 8)]);
    assert EncTables(0x240701, m)
        == [1, 0, 0, 0, 8, 0, 0, 0, 8, 0, 0, 0] + (ZERO_4 + (ZERO_4 + (ZERO_4 + (ZERO_4 + ZERO_4))));
  }

  lemma GoldenHeader()
    ensures EncSubHeader(SubHeader(0, [], [], [])) + EncTrack([Extent(16, 48)]) == GOLDEN_HEADER
  {
    SmallWords();
    OneExtent(Extent(16, 48));
    hide EncU32, EncU64, EncTrack;
    assert EncPids([]) == ZERO_4 && IC.EncImages([]) == ZERO_4 && EncBlob32([]) == ZERO_4;
  }

  lemma OverwriteEnd(b: bytes, x: bytes)
    ensures Overwrite(b, |b|, x) == b + x
  {
  }

  lemma OverwriteMiddle(b: bytes, x: bytes, y: bytes, c: bytes)
    requires |y| == |x|
    ensures Overwrite(b + x + c, |b|, y) == b + y + c
  {
  }

  /** The file of one layer with one record at time 1 of render service data: header and layer tables
      stand behind the data, and the low half of the time is gone. */
  lemma GoldenRecording()
    ensures var t := Run(Create(BLANK), [OpLayer, OpRecord(RsData, 0, Record(1, []))]);
      && t.data == [0x52, 0x48, 0x4F, 0x52, 0x01, 0x07, 0x24, 0x00, 1, 0, 0, 0, 0, 0, 0, 0]
      && WriteHeaders(t).data == GOLDEN_START + GOLDEN_TABLE + GOLDEN_HEADER
  {
    hide EncLayer, EncSubHeader, EncTrack, EncU32, EncU64, Overwrite, Run, Step, Create, WriteHeader;
    var op := OpRecord(RsData, 0, Record(1, []));
    TwoSteps([OpLayer, op]);
    var t := Step(Step(Create(BLANK), OpLayer), op);
    OneRecord(t);
    GoldenData();
    GoldenTable();
    assert t.layers[0].Doc() == LayerDoc(CD.EMPTY, NO_MARKUP.Set(RsData, [Extent(8, 8)]));
    assert WriteTables(t, 0) == t;
    OverwriteEnd(t.data, GOLDEN_TABLE);
    var u := WriteTables(t, 1);
    assert u.data == t.data + GOLDEN_TABLE && u.off == 64 && u.Extents() == [Extent(16, 48)];
    assert t.changed by { GoldenChanged(); }
    GoldenHeaders(u);
  }

  lemma GoldenChanged()
    ensures Step(Step(Create(BLANK), OpLayer), OpRecord(RsData, 0, Record(1, []))).changed
  {
    hide Overwrite, EncU32, EncU64;
  }

  lemma GoldenData()
    ensures Step(Step(Create(BLANK), OpLayer), OpRecord(RsData, 0, Record(1, []))).data
         == [0x52, 0x48, 0x4F, 0x52, 0x01, 0x07, 0x24, 0x00, 1, 0, 0, 0, 0, 0, 0, 0]
  {
    SmallWords();
    hide EncU32, EncU64;
    var one := Step(Create(BLANK), OpLayer);
    assert one.data == [0x52, 0x48, 0x4F, 0x52, 0x01, 0x07, 0x24, 0x00] + ZERO_4 && one.off == 8 && one.layers == [NEW_LAYER];
    assert EncU64(1) + [] == [1, 0, 0, 0, 0, 0, 0, 0];
  }

  lemma GoldenHeaders(u: State)
    requires u.data == [0x52, 0x48, 0x4F, 0x52, 0x01, 0x07, 0x24, 0x00, 1, 0, 0, 0, 0, 0, 0, 0] + GOLDEN_TABLE
    requires u.off == 64 && u.Extents() == [Extent(16, 48)] && !u.preparedMode && u.Header() == SubHeader(0, [], [], [])
    ensures WriteHeader(u).data == GOLDEN_START + GOLDEN_TABLE + GOLDEN_HEADER
  {
    hide EncSubHeader, EncTrack, EncU32, EncU64, Overwrite;
    GoldenHeader();
    SmallWords();
    GoldenTable();
    var head: bytes := [0x52, 0x48, 0x4F, 0x52, 0x01, 0x07, 0x24, 0x00];
    assert [0x52, 0x48, 0x4F, 0x52, 0x01, 0x07, 0x24, 0x00, 1, 0, 0, 0, 0, 0, 0, 0] == head + [1, 0, 0, 0] + ZERO_4;
    assert GOLDEN_START == head + EncU32(64) + ZERO_4;
    Assembled(head, [1, 0, 0, 0], EncU32(64), ZERO_4, GOLDEN_TABLE, GOLDEN_HEADER);
    assert |u.data| == 64;
  }

  lemma Assembled(head: bytes, low: bytes, offset: bytes, high: bytes, table: bytes, header: bytes)
    requires |low| == |offset|
    ensures var data := head + low + high + table;
      Overwrite(Overwrite(data, |data|, header), |head|, offset) == head + offset + high + table + header
  {
    hide Overwrite;
    var data := head + low + high + table;
    OverwriteEnd(data, header);
    var rest := high + table + header;
    assert data + header == head + low + rest;
    OverwriteMiddle(head, low, offset, rest);
    assert head + offset + rest == head + offset + high + table + header;
  }
}
