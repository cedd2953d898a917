/** The recorder itself, method by method, over a byte file. Each method is tied to the step of
    the state machine it performs. */
module RecordFile {
  import opened Bytes
  import opened Codec
  import opened Archive
  import opened RecordingFormat
  import opened Recorder
  import opened Reopening
  import opened Playback
  import CD = CaptureData
  import IC = ImageCache

  /** `std::vector::resize` of the layers. */
  function Resize(layers: seq<Layer>, n: nat): (r: seq<Layer>)
    ensures |r| == n
    ensures forall l :: 0 <= l < n ==> r[l] == if l < |layers| then layers[l] else NEW_LAYER
  {
    if n <= |layers| then layers[..n] else layers + seq(n - |layers|, _ => NEW_LAYER)
  }

  const MAX_COPY_SIZE: nat := 300000000

  class RSFile {
    var file: ByteFile?
    var versionId: u32
    var writeStartTime: u64
    var headerOff: u32
    var headerPidList: seq<i32>
    var layerData: seq<Layer>
    var writeDataOff: u32
    var headerFirstFrame: bytes
    var wasChanged: bool
    var preparedHeader: bytes
    var preparedHeaderMode: bool
    const images: IC.ImageCache

    constructor (images: IC.ImageCache)
      ensures file == null && layerData == [] && headerPidList == [] && this.images == images
      ensures versionId == 0 && writeStartTime == 0 && !wasChanged && !preparedHeaderMode
    {
      file, versionId, writeStartTime, headerOff, headerPidList, layerData := null, 0, 0, 0, [], [];
      writeDataOff, headerFirstFrame, wasChanged, preparedHeader, preparedHeaderMode := 0, [], false, [], false;
      this.images := images;
    }

    /** All fields, without the contents of the file. */
    function Fields(): State
      reads this, images
    {
      State([], versionId, writeStartTime, headerOff, headerPidList, headerFirstFrame, layerData, writeDataOff,
            wasChanged, preparedHeader, preparedHeaderMode, images.cache)
    }

    function Abs(): State
      reads this, images, file
      requires file != null
    {
      Fields().(data := file.data)
    }

    // --- writing the headers ------------------------------------------------------------------

    method LayerWriteHeaderOfTrack(track: Markup)
      requires file != null
      modifies file
      ensures file.data == Overwrite(old(file.data), old(file.pos), EncTrack(track))
      ensures file.pos == old(file.pos) + |EncTrack(track)|
    {
      hide EncU32, Overwrite;
      var recordSize := Trunc32(|track|);
      file.Write(EncU32(recordSize));
      ghost var done := EncU32(recordSize);
      assert done + [] == done;
      for i := 0 to |track|
        invariant done == EncU32(recordSize) + EncAll(EncExtent, track[..i])
        invariant file.data == Overwrite(old(file.data), old(file.pos), done)
        invariant file.pos == old(file.pos) + |done|
      {
        var item := track[i];
        OverwriteTwice(old(file.data), old(file.pos), done, EncU32(item.first));
        OverwriteTwice(old(file.data), old(file.pos), done + EncU32(item.first), EncU32(item.second));
        file.Write(EncU32(item.first));
        file.Write(EncU32(item.second));
        assert done + EncU32(item.first) + EncU32(item.second) == done + EncExtent(item);
        EncAllAppend(EncExtent, track[..i], item);
        assert track[..i] + [item] == track[..i + 1];
        done := done + EncExtent(item);
      }
      assert track[..|track|] == track;
    }

    /** The six tables behind the properties of a layer. */
    method WriteTables(t: Tracks<Markup>)
      requires file != null
      modifies file
      ensures file.data == Overwrite(old(file.data), old(file.pos), EncTables(versionId, t))
      ensures file.pos == old(file.pos) + |EncTables(versionId, t)|
    {
      hide EncTrack, Overwrite;
      ghost var b, p := file.data, file.pos;
      ghost var done := EncTrack(t.rsData);
      LayerWriteHeaderOfTrack(t.rsData);
      OverwriteTwice(b, p, done, EncTrack(t.oglData));
      LayerWriteHeaderOfTrack(t.oglData);
      done := done + EncTrack(t.oglData);
      OverwriteTwice(b, p, done, EncTrack(t.rsMetrics));
      LayerWriteHeaderOfTrack(t.rsMetrics);
      done := done + EncTrack(t.rsMetrics);
      if versionId >= VERSION_RENDER_METRICS_ADDED {
        OverwriteTwice(b, p, done, EncTrack(t.renderMetrics));
        LayerWriteHeaderOfTrack(t.renderMetrics);
      }
      assert done + [] == done;
      done := done + EncRenderMetrics(versionId, t.renderMetrics);
      OverwriteTwice(b, p, done, EncTrack(t.oglMetrics));
      LayerWriteHeaderOfTrack(t.oglMetrics);
      done := done + EncTrack(t.oglMetrics);
      OverwriteTwice(b, p, done, EncTrack(t.gfxMetrics));
      LayerWriteHeaderOfTrack(t.gfxMetrics);
      assert done + EncTrack(t.gfxMetrics) == EncTables(versionId, t);
    }

    /** The table of one layer: its properties as one block, then the track tables. */
    method WriteLayer(data: Layer)
      requires file != null
      modifies file
      ensures file.data == Overwrite(old(file.data), old(file.pos), EncLayer(versionId, data.Doc()))
      ensures file.pos == old(file.pos) + |EncLayer(versionId, data.Doc())|
    {
      hide EncU32, EncTables, Overwrite, CD.CaptureData.Encode;
      ghost var b, p := file.data, file.pos;
      var propertyData := data.property.Serialize();
      var size := EncU32(Trunc32(|propertyData|));
      OverwriteTwice(b, p, size, propertyData);
      OverwriteTwice(b, p, size + propertyData, EncTables(versionId, data.markup));
      file.Write(size);
      file.Write(propertyData);
      WriteTables(data.markup);
    }

    method LayerWriteHeader(layer: nat)
      modifies this, file
      ensures file == old(file)
      ensures old(file) != null && layer < |old(layerData)| ==> Abs() == Recorder.WriteTable(old(Abs()), layer)
      ensures old(file) == null || layer >= |old(layerData)| ==> Fields() == old(Fields())
      ensures old(file) != null && layer >= |old(layerData)| ==> file.data == old(file.data)
      ensures |layerData| == |old(layerData)|
    {
      hide EncLayer, Overwrite;
      if file == null || layer >= |layerData| {
        return;
      }
      var data := layerData[layer];
      var layerHeaderOff := writeDataOff;
      file.Seek(writeDataOff);
      WriteLayer(data);
      var end := file.pos;
      layerData := layerData[layer := data.(header := Extent(layerHeaderOff, Trunc32(end - layerHeaderOff)))];
      writeDataOff := Trunc32(end);
    }

    /** Start time, pids, first frame and images. */
    method WriteSubHeader()
      requires file != null
      modifies file
      ensures file.data == Overwrite(old(file.data), old(file.pos), EncSubHeader(Fields().Header()))
      ensures file.pos == old(file.pos) + |EncSubHeader(Fields().Header())|
    {
      hide EncU64, EncPids, EncBlob32, Overwrite, IC.EncImages;
      ghost var b, p := file.data, file.pos;
      file.Write(EncU64(writeStartTime));
      ghost var done := EncU64(writeStartTime);
      WritePids(b, p, done);
      done := done + EncPids(headerPidList);
      WriteFirstFrame(b, p, done);
      done := done + EncBlob32(headerFirstFrame);
      OverwriteTwice(b, p, done, IC.EncImages(images.cache));
      images.Serialize(file);
      assert done + IC.EncImages(images.cache) == EncSubHeader(Fields().Header());
    }

    method WriteHeader()
      modifies this, file
      ensures file == old(file)
      ensures old(file) != null ==> Abs() == Recorder.WriteHeader(old(Abs()))
      ensures old(file) == null ==> Fields() == old(Fields())
    {
      hide EncU32, EncSubHeader, Overwrite, EncTrack;
      if file == null {
        return;
      }
      ghost var b, s := file.data, Abs();
      headerOff := writeDataOff;
      file.Seek(writeDataOff);
      if preparedHeaderMode {
        file.Write(preparedHeader);
        preparedHeader := [];
      } else {
        WriteSubHeader();
      }
      assert Fields().Extents() == s.Extents();
      WriteLayerOffsets(b, writeDataOff, s.HeaderBytes());
      file.Seek(PREAMBLE_SIZE);
      file.Write(EncU32(headerOff));
    }

    method WritePids(ghost b: bytes, ghost p: nat, ghost done: bytes)
      requires file != null && file.data == Overwrite(b, p, done) && file.pos == p + |done|
      modifies file
      ensures file.data == Overwrite(b, p, done + EncPids(headerPidList))
      ensures file.pos == p + |done| + |EncPids(headerPidList)|
    {
      hide EncU32, Overwrite;
      var size, list := EncU32(Trunc32(|headerPidList|)), EncAll(EncI32, headerPidList);
      OverwriteTwice(b, p, done, size);
      OverwriteTwice(b, p, done + size, list);
      file.Write(size);
      file.Write(list);
      assert done + size + list == done + EncPids(headerPidList);
    }

    method WriteFirstFrame(ghost b: bytes, ghost p: nat, ghost done: bytes)
      requires file != null && file.data == Overwrite(b, p, done) && file.pos == p + |done|
      modifies file
      ensures file.data == Overwrite(b, p, done + EncBlob32(headerFirstFrame))
      ensures file.pos == p + |done| + |EncBlob32(headerFirstFrame)|
    {
      hide EncU32, Overwrite;
      var size := EncU32(Trunc32(|headerFirstFrame|));
      OverwriteTwice(b, p, done, size);
      OverwriteTwice(b, p, done + size, headerFirstFrame);
      file.Write(size);
      file.Write(headerFirstFrame);
      assert done + size + headerFirstFrame == done + EncBlob32(headerFirstFrame);
    }

    method WriteLayerOffsets(ghost b: bytes, ghost p: nat, ghost done: bytes)
      requires file != null && file.data == Overwrite(b, p, done) && file.pos == p + |done|
      modifies file
      ensures file.data == Overwrite(b, p, done + EncTrack(Fields().Extents()))
    {
      hide EncU32, Overwrite;
      ghost var extents := Fields().Extents();
      var recordSize := Trunc32(|layerData|);
      OverwriteTwice(b, p, done, EncU32(recordSize));
      file.Write(EncU32(recordSize));
      ghost var more := EncU32(recordSize);
      assert more + [] == more;
      for i := 0 to |layerData|
        invariant more == EncU32(recordSize) + EncAll(EncExtent, extents[..i])
        invariant file.data == Overwrite(b, p, done + more)
        invariant file.pos == p + |done| + |more|
      {
        OverwriteTwice(b, p, done + more, EncExtent(layerData[i].header));
        file.Write(EncExtent(layerData[i].header));
        EncAllAppend(EncExtent, extents[..i], extents[i]);
        assert extents[..i] + [extents[i]] == extents[..i + 1];
        assert done + more + EncExtent(extents[i]) == done + (more + EncExtent(extents[i]));
        more := more + EncExtent(extents[i]);
      }
      assert extents[..|layerData|] == extents;
    }

    method WriteAllTables()
      requires file != null
      modifies this, file
      ensures file == old(file) && Abs() == Recorder.WriteTables(old(Abs()), |old(layerData)|)
    {
      hide Recorder.WriteTable;
      ghost var s := Abs();
      for i := 0 to |layerData|
        invariant file == old(file) && |layerData| == |s.layers|
        invariant Abs() == Recorder.WriteTables(s, i)
      {
        LayerWriteHeader(i);
      }
    }

    method WriteHeaders()
      modifies this, file
      ensures file == old(file)
      ensures old(file) != null ==> Abs() == Recorder.WriteHeaders(old(Abs()))
      ensures old(file) == null ==> Fields() == old(Fields())
    {
      hide Recorder.WriteTables, Recorder.WriteHeader;
      if file == null || !wasChanged {
        return;
      }
      WriteAllTables();
      WriteHeader();
    }

    // --- the calls of a recording ------------------------------------------------------------------

    function Closed(s: State): State {
      Recorder.WriteHeaders(s).(data := [], headerOff := 0, pids := [], layers := [], off := 0, changed := false)
    }

    /** Returns the bytes that stay on disk. The first frame, the start time and the version are
        not reset. */
    method Close() returns (saved: bytes)
      modifies this, file
      ensures file == null
      ensures old(file) != null ==> saved == Recorder.WriteHeaders(old(Abs())).data && Fields() == Closed(old(Abs()))
      ensures old(file) != null ==>
        headerOff == 0 && headerPidList == [] && layerData == [] && writeDataOff == 0 && !wasChanged
      ensures old(file) == null ==> Fields() == old(Fields())
    {
      saved := [];
      if file == null {
        return;
      }
      WriteHeaders();
      saved := file.data;
      file := null;
      headerOff, headerPidList, layerData, writeDataOff, wasChanged := 0, [], [], 0, false;
    }

    /** `available` tells whether the file could be opened for writing. */
    method Create(available: bool)
      modifies this, file
      ensures (file != null) == available
      ensures file != null ==> fresh(file)
      ensures var before := if old(file) == null then old(Fields()) else Closed(old(Abs()));
        if available then Abs() == Recorder.Create(before) else Fields() == before
    {
      if file != null {
        var _ := Close();
      }
      if !available {
        return;
      }
      hide Closed, Recorder.Create;
      WritePreamble();
    }

    /** A new file with nothing but the preamble. */
    method WritePreamble()
      modifies this
      ensures file != null && fresh(file)
      ensures Abs() == Recorder.Create(old(Fields()))
    {
      hide EncU32, Overwrite;
      file := new ByteFile([]);
      var headerId := EncU32(MAGIC);
      file.Write(headerId);
      file.Write(EncU32(versionId));
      headerOff := 0;
      file.Write(EncU32(headerOff));
      ThreeWrites(headerId, EncU32(versionId), EncU32(headerOff));
      writeDataOff := MARKUP_SIZE;
      wasChanged := true;
    }

    lemma ThreeWrites(x: bytes, y: bytes, z: bytes)
      ensures Overwrite(Overwrite(Overwrite([], 0, x), |x|, y), |x| + |y|, z) == x + y + z
    {
      OverwriteTwice([], 0, x, y);
      OverwriteTwice([], 0, x + y, z);
    }

    method AddLayer() returns (newId: u32)
      modifies this
      ensures file == old(file) && newId == Trunc32(|old(layerData)|)
      ensures Fields() == Recorder.AddLayer(old(Fields()))
    {
      newId := Trunc32(|layerData|);
      layerData := layerData + [NEW_LAYER];
      wasChanged := true;
    }

    method AddHeaderPid(pid: i32)
      modifies this
      ensures file == old(file) && Fields() == Recorder.AddPid(old(Fields()), pid)
    {
      if pid in headerPidList {
        return;
      }
      headerPidList := headerPidList + [pid];
      wasChanged := true;
    }

    method AddHeaderFirstFrame(dataFirstFrame: bytes)
      modifies this
      ensures file == old(file) && Fields() == Recorder.AddFirstFrame(old(Fields()), dataFirstFrame)
    {
      headerFirstFrame := dataFirstFrame;
      wasChanged := true;
    }

    method LayerAddHeaderProperty(layer: nat, name: blob, value: blob)
      modifies this
      ensures file == old(file) && Fields() == Recorder.AddProperty(old(Fields()), layer, name, value)
    {
      if layer >= |layerData| {
        return;
      }
      var data := layerData[layer];
      layerData := layerData[layer := data.(property := data.property.SetProperty(name, value))];
      wasChanged := true;
    }

    method WriteTrackData(kind: TrackKind, layer: nat, time: u64, data: bytes)
      requires file != null && layerData != [] ==> layer < |layerData|
      modifies this, file
      ensures file == old(file)
      ensures old(file) == null ==> Fields() == old(Fields())
      ensures old(file) != null ==> Abs() == Recorder.WriteTrack(old(Abs()), kind, layer, time, data)
    {
      if file == null || layerData == [] {
        return;
      }
      hide EncU64, Overwrite;
      var target := layerData[layer];
      var entry := Extent(writeDataOff, Trunc32(|data| + 8));
      layerData := layerData[layer := target.(markup := target.markup.Set(kind, target.markup.Get(kind) + [entry]))];
      AppendRecord(time, data);
      writeDataOff := Trunc32(file.pos);
    }

    method AppendRecord(time: u64, data: bytes)
      requires file != null
      modifies file
      ensures file.data == Overwrite(old(file.data), writeDataOff, EncU64(time) + data)
      ensures file.pos == writeDataOff + 8 + |data|
    {
      hide EncU64, Overwrite;
      file.Seek(writeDataOff);
      file.Write(EncU64(time));
      file.Write(data);
      OverwriteTwice(old(file.data), writeDataOff, EncU64(time), data);
    }

    /** The contents so far, with current headers; nothing without a file, or for an empty or
        oversized one. */
    method GetDataCopy() returns (ok: bool, data: bytes)
      modifies this, file
      ensures file == old(file)
      ensures file == null ==> !ok && Fields() == old(Fields())
      ensures file != null ==>
        && Abs() == Recorder.WriteHeaders(old(Abs()))
        && ok == (0 < |file.data| <= MAX_COPY_SIZE)
        && (ok ==> data == file.data)
    {
      if file == null {
        return false, [];
      }
      WriteHeaders();
      data := [];
      var fileSize := |file.data|;
      ok := false;
      if fileSize == 0 || fileSize > MAX_COPY_SIZE {
        return;
      }
      var position := file.pos;
      file.Seek(0);
      data := file.Read(fileSize);
      assert data == file.data[0..fileSize] == file.data;
      file.Seek(position);
      ok := true;
    }

    // --- reading ---------------------------------------------------------------------------------

    method LayerReadHeaderOfTrack() returns (track: Markup)
      requires file != null
      modifies file`pos
      ensures DecTrack(file.data, old(file.pos)).Parsed? ==>
        Parsed(track, file.pos) == DecTrack(file.data, old(file.pos))
    {
      hide DecU32;
      var recordSize := file.ReadU32();
      ghost var b, start := file.data, file.pos;
      ghost var ok := DecTrack(b, old(file.pos)).Parsed?;
      track := [];
      for i := 0 to recordSize
        invariant file.data == b
        invariant ok ==> DecAll(DecExtent, b, start, i) == Parsed(track, file.pos)
      {
        if ok {
          DecAllPrefix(DecExtent, b, start, i + 1, recordSize);
          DecAllSnoc(DecExtent, b, start, i, track, file.pos);
        }
        var first := file.ReadU32();
        var second := file.ReadU32();
        track := track + [Extent(first, second)];
      }
    }

    method ReadTables(before: Tracks<Markup>) returns (t: Tracks<Markup>)
      requires file != null
      modifies file`pos
      ensures DecTables(versionId, file.data, old(file.pos), before).Parsed? ==>
        Parsed(t, file.pos) == DecTables(versionId, file.data, old(file.pos), before)
    {
      hide DecTrack;
      t := before;
      var rsData := LayerReadHeaderOfTrack();
      var oglData := LayerReadHeaderOfTrack();
      var rsMetrics := LayerReadHeaderOfTrack();
      var renderMetrics := before.renderMetrics;
      if versionId >= VERSION_RENDER_METRICS_ADDED {
        renderMetrics := LayerReadHeaderOfTrack();
      }
      var oglMetrics := LayerReadHeaderOfTrack();
      var gfxMetrics := LayerReadHeaderOfTrack();
      t := Tracks(rsData, oglData, rsMetrics, oglMetrics, gfxMetrics, renderMetrics);
    }

    method ReadLayer(before: Tracks<Markup>) returns (d: LayerDoc)
      requires file != null
      modifies file`pos
      ensures DecLayer(versionId, file.data, old(file.pos), before).Parsed? ==>
        d == DecLayer(versionId, file.data, old(file.pos), before).value
    {
      hide DecU32, DecTables, CD.Decode;
      var recordSize := file.ReadU32();
      var propertyData := file.Read(recordSize);
      var property := CD.Deserialize(propertyData);
      var markup := ReadTables(before);
      d := LayerDoc(property, markup);
    }

    method LayerReadHeader(layer: nat)
      modifies this`layerData, file
      ensures file != null ==> file.data == old(file.data)
      ensures |layerData| == |old(layerData)|
      ensures forall l :: 0 <= l < |layerData| && l != layer ==> layerData[l] == old(layerData)[l]
      ensures file != null && layer < |layerData| ==>
        var was := old(layerData)[layer];
        var read := DecLayer(versionId, file.data, was.header.first, was.markup);
        read.Parsed? ==> layerData[layer] == was.(property := read.value.property, markup := read.value.markup)
    {
      hide DecLayer;
      if file == null || layer >= |layerData| {
        return;
      }
      var data := layerData[layer];
      file.Seek(data.header.first);
      var d := ReadLayer(data.markup);
      layerData := layerData[layer := data.(property := d.property, markup := d.markup)];
    }

    /** The pid list is read in one piece. */
    method ReadPids() returns (pids: seq<i32>)
      requires file != null
      modifies file`pos
      ensures DecPids(file.data, old(file.pos)).Parsed? ==>
        Parsed(pids, file.pos) == DecPids(file.data, old(file.pos))
    {
      hide DecI32, EncI32;
      var recordSize: nat := file.ReadU32();
      ghost var start := file.pos;
      var raw := file.Read(4 * recordSize);
      if DecPids(file.data, old(file.pos)).Parsed? {
        PidsEnd(file.data, start, recordSize);
        PidsSlice(file.data, start, start + 4 * recordSize, 0, recordSize);
      }
      var list := DecAll(DecI32, raw, 0, recordSize);
      pids := if list.Parsed? then list.value else [];
    }

    /** `ReadHeader`: everything up to the layer offsets; in prepared mode the raw bytes are kept. */
    method ReadHeader()
      requires file != null
      modifies this, file`pos, images
      ensures file == old(file) && versionId == old(versionId) && headerOff == old(headerOff)
      ensures writeDataOff == old(writeDataOff) && preparedHeaderMode == old(preparedHeaderMode)
      ensures var h := DecSubHeader(file.data, headerOff);
        h.Parsed? && DecTrack(file.data, h.next).Parsed? ==>
          && Fields().Header() == h.value
          && layerData == ResizedLayers(old(layerData), DecTrack(file.data, h.next).value)
          && preparedHeader == if preparedHeaderMode then Slice(file.data, headerOff, h.next) else old(preparedHeader)
    {
      hide DecSubHeader, DecTrack, Slice;
      ReadSubHeader();
      if preparedHeaderMode {
        if DecSubHeader(file.data, headerOff).Parsed? {
          SubHeaderForward(file.data, headerOff);
        }
        KeepPreparedHeader();
      }
      ReadLayerOffsets();
    }

    function Slice(b: bytes, lo: nat, hi: nat): bytes {
      if lo <= hi <= |b| then b[lo..hi] else []
    }

    /** What is kept in prepared mode of a header that was written is all of it, and nothing else, so
        that writing it into another file completes the round trip of `PreparedHeaderReads`. */
    lemma CapturedHeader(b: bytes, off: nat, h: SubHeader)
      requires At(b, off, EncSubHeader(h)) && |b| < TWO_32 && h.Valid()
      ensures DecSubHeader(b, off).Parsed? && Slice(b, off, DecSubHeader(b, off).next) == EncSubHeader(h)
    {
      hide EncSubHeader, DecSubHeader, SubHeader.Valid;
      SubHeaderRoundTrip(b, off, h);
    }

    /** Reads the bytes of the header once more, as they are. */
    method KeepPreparedHeader()
      requires file != null
      modifies this`preparedHeader, file`pos
      ensures headerOff <= old(file.pos) <= |file.data| ==>
        preparedHeader == Slice(file.data, headerOff, old(file.pos)) && file.pos == old(file.pos)
    {
      var subHeaderEndOff := file.pos;
      file.Seek(headerOff);
      preparedHeader := file.Read(if subHeaderEndOff >= headerOff then subHeaderEndOff - headerOff else 0);
    }

    method ReadSubHeader()
      requires file != null
      modifies this, file`pos, images
      ensures file == old(file) && versionId == old(versionId) && headerOff == old(headerOff)
      ensures writeDataOff == old(writeDataOff) && preparedHeaderMode == old(preparedHeaderMode)
      ensures preparedHeader == old(preparedHeader) && layerData == old(layerData)
      ensures DecSubHeader(file.data, headerOff).Parsed? ==>
        Parsed(Fields().Header(), file.pos) == DecSubHeader(file.data, headerOff)
    {
      hide DecU64, DecPids, DecBlob32, IC.DecImages;
      file.Seek(headerOff);
      writeStartTime := file.ReadU64();
      headerPidList := ReadPids();
      headerFirstFrame := ReadFirstFrame();
      images.Deserialize(file);
    }

    method ReadFirstFrame() returns (frame: bytes)
      requires file != null
      modifies file`pos
      ensures DecBlob32(file.data, old(file.pos)).Parsed? ==>
        Parsed(frame, file.pos) == DecBlob32(file.data, old(file.pos))
    {
      hide DecU32;
      var firstScrSize := file.ReadU32();
      frame := file.Read(firstScrSize);
    }

    /** The layers as the offsets leave them: the read position of render service data restarts. */
    function ResizedLayers(layers: seq<Layer>, extents: seq<Extent>): (r: seq<Layer>)
      ensures |r| == |extents|
    {
      var resized := Resize(layers, |extents|);
      seq(|extents|, l requires 0 <= l < |extents| =>
        resized[l].(header := extents[l], index := resized[l].index.Set(RsData, 0)))
    }

    /** Layers that exist keep properties, index tables and read positions, but for that of render
        service data; new ones are empty. */
    lemma ResizedIs(layers: seq<Layer>, extents: seq<Extent>, l: nat, k: TrackKind)
      requires l < |extents|
      ensures var r := ResizedLayers(layers, extents)[l];
        && r.header == extents[l]
        && r.index.Get(k) == (if k == RsData || l >= |layers| then 0 else layers[l].index.Get(k))
        && r.property == (if l < |layers| then layers[l].property else CD.EMPTY)
        && r.markup.Get(k) == (if l < |layers| then layers[l].markup.Get(k) else [])
    {
    }

    method ReadLayerOffsets()
      requires file != null
      modifies this`layerData, file`pos
      ensures DecTrack(file.data, old(file.pos)).Parsed? ==>
        layerData == ResizedLayers(old(layerData), DecTrack(file.data, old(file.pos)).value)
    {
      hide DecU32;
      var recordSize := file.ReadU32();
      ghost var b, start := file.data, file.pos;
      ghost var ok := DecTrack(b, old(file.pos)).Parsed?;
      ghost var extents: seq<Extent> := [];
      layerData := Resize(layerData, recordSize);
      ghost var resized := layerData;
      for i := 0 to recordSize
        invariant file.data == b && |layerData| == recordSize && |extents| == i
        invariant ok ==> DecAll(DecExtent, b, start, i) == Parsed(extents, file.pos)
        invariant forall l :: i <= l < recordSize ==> layerData[l] == resized[l]
        invariant forall l :: 0 <= l < i ==>
          layerData[l] == resized[l].(header := extents[l], index := resized[l].index.Set(RsData, 0))
      {
        if ok {
          DecAllPrefix(DecExtent, b, start, i + 1, recordSize);
          DecAllSnoc(DecExtent, b, start, i, extents, file.pos);
        }
        var first := file.ReadU32();
        var second := file.ReadU32();
        var data := layerData[i];
        layerData := layerData[i := data.(header := Extent(first, second), index := data.index.Set(RsData, 0))];
        extents := extents + [Extent(first, second)];
      }
    }

    /** The layers after reading their tables. */
    ghost predicate LayersRead(layers: seq<Layer>, before: seq<Layer>, docs: seq<LayerDoc>) {
      && |layers| == |before| == |docs|
      && forall l :: 0 <= l < |docs| ==>
           layers[l] == before[l].(property := docs[l].property, markup := docs[l].markup)
    }

    function MarkupOf(layers: seq<Layer>): (r: seq<Tracks<Markup>>)
      ensures |r| == |layers|
    {
      seq(|layers|, l requires 0 <= l < |layers| => layers[l].markup)
    }

    function ExtentsOf(layers: seq<Layer>): (r: seq<Extent>)
      ensures |r| == |layers|
    {
      seq(|layers|, l requires 0 <= l < |layers| => layers[l].header)
    }

    method ReadLayerHeaders()
      requires file != null
      modifies this`layerData, file
      ensures file.data == old(file.data)
      ensures var read := DecLayers(versionId, file.data, ExtentsOf(old(layerData)), MarkupOf(old(layerData)));
        read.Parsed? ==> LayersRead(layerData, old(layerData), read.value)
    {
      hide DecLayer;
      ghost var before := layerData;
      ghost var read := DecLayers(versionId, file.data, ExtentsOf(before), MarkupOf(before));
      for i := 0 to |layerData|
        invariant file.data == old(file.data) && |layerData| == |before|
        invariant forall l :: i <= l < |before| ==> layerData[l] == before[l]
        invariant read.Parsed? ==> forall l :: 0 <= l < i ==>
          layerData[l] == before[l].(property := read.value[l].property, markup := read.value[l].markup)
      {
        assert read.Parsed? ==> DecLayer(versionId, file.data, ExtentsOf(before)[i].first, MarkupOf(before)[i]).Parsed?;
        LayerReadHeader(i);
      }
    }

    /** An object without layers takes over the headers of the file. */
    method ReadHeaders()
      requires file != null
      modifies this, file, images
      ensures file == old(file) && file.data == old(file.data)
      ensures versionId == old(versionId) && headerOff == old(headerOff) && writeDataOff == old(writeDataOff)
      ensures preparedHeaderMode == old(preparedHeaderMode)
      ensures var h := DecSubHeader(file.data, headerOff);
        old(layerData) == [] && h.Parsed? && DecTrack(file.data, h.next).Parsed? ==>
          var extents := DecTrack(file.data, h.next).value;
          var layers := DecLayers(versionId, file.data, extents, Fresh(|extents|));
          layers.Parsed? ==>
            && Fields().Header() == h.value && Fields().Extents() == extents && Fields().Docs() == layers.value
            && (forall l :: 0 <= l < |layerData| ==> layerData[l].index == NO_INDEX)
            && preparedHeader == if preparedHeaderMode then Slice(file.data, headerOff, h.next) else old(preparedHeader)
    {
      hide DecSubHeader, DecTrack, DecLayers, Slice;
      ReadHeader();
      ghost var resized := layerData;
      ghost var h := DecSubHeader(file.data, headerOff);
      ReadLayerHeaders();
      if old(layerData) == [] && h.Parsed? && DecTrack(file.data, h.next).Parsed? {
        ghost var extents := DecTrack(file.data, h.next).value;
        assert ExtentsOf(resized) == extents;
        assert MarkupOf(resized) == Fresh(|extents|);
      }
    }

    /** Opens a file with the given contents for reading; `found` tells whether there is one. An
        object that holds no layers of its own takes over the document in the file. */
    method Open(found: bool, contents: bytes) returns (ok: bool)
      modifies this, file, images
      ensures !found ==> !ok
      ensures found && DecU32(contents, 0).Parsed? ==> ok == (DecU32(contents, 0).value == MAGIC)
      ensures ok == (file != null)
      ensures ok ==> fresh(file) && file.data == contents && !wasChanged && writeDataOff == Trunc32(|contents|)
      ensures (old(file) != null || old(layerData) == []) && found && DecFile(contents).Parsed? ==>
        && ok
        && Abs().version == DecFile(contents).value.version
        && Abs().Header() == DecFile(contents).value.header
        && Abs().Extents() == DecFile(contents).value.extents
        && Abs().Docs() == DecFile(contents).value.layers
        && (forall l :: 0 <= l < |layerData| ==> layerData[l].index == NO_INDEX)
    {
      hide DecU32, DecSubHeader, DecTrack, DecLayers;
      if file != null {
        var _ := Close();
      }
      ok := false;
      if !found {
        return;
      }
      file := new ByteFile(contents);
      var headerId := file.ReadU32();
      if headerId != MAGIC {
        file := null;
        return;
      }
      versionId := file.ReadU32();
      headerOff := file.ReadU32();
      file.SeekEnd();
      writeDataOff := Trunc32(file.pos);
      file.Seek(headerOff);
      ReadHeaders();
      wasChanged := false;
      ok := true;
    }

    // --- reading tracks ------------------------------------------------------------------------------

    /** Reads the record at `e` if it is due. The time is read even when the record is held back. */
    method ReadIfDue(kind: TrackKind, e: Extent, limit: u64) returns (ok: bool, data: bytes, readTime: u64)
      requires file != null
      modifies file`pos
      ensures ReadRecord(file.data, e).Parsed? ==>
        && readTime == ReadRecord(file.data, e).value.time
        && ok == !HeldBack(kind, readTime, limit)
        && (ok ==> data == ReadRecord(file.data, e).value.payload)
    {
      hide DecU64, HeldBack;
      ok, data := false, [];
      file.Seek(e.first);
      readTime := file.ReadU64();
      if HeldBack(kind, readTime, limit) {
        return;
      }
      var dataLen: nat := if e.second >= MARKUP_SIZE then e.second - MARKUP_SIZE else e.second + TWO_32 - MARKUP_SIZE;
      data := file.Read(dataLen);
      ok := true;
    }

    /** `ReadTrackData`, and `ReadRSData` for the render service track, whose limit the caller has
        already raised by the tolerance. */
    method ReadTrackData(kind: TrackKind, layer: nat, limit: u64) returns (ok: bool, data: bytes, readTime: u64)
      modifies this`layerData, file
      ensures file != null ==> file.data == old(file.data)
      ensures file == null || layer >= |old(layerData)| ==> !ok && layerData == old(layerData)
      ensures !ok ==> layerData == old(layerData)
      ensures file != null && layer < |old(layerData)| ==>
        var was := old(layerData)[layer];
        var all := ReadBack(file.data, was.markup.Get(kind));
        all.Some? && was.index.Get(kind) + 1 < TWO_32 ==>
          var next := ReadNext(all.value, kind, was.index.Get(kind), limit);
          && ok == next.delivered.Some?
          && (ok ==> Record(readTime, data) == next.delivered.value)
          && (ok ==> layerData == old(layerData)[layer := was.(index := was.index.Set(kind, next.index))])
          && (!ok ==> next.index == was.index.Get(kind))
      ensures file != null && layer < |old(layerData)| ==>
        var was := old(layerData)[layer];
        var all := ReadBack(file.data, was.markup.Get(kind));
        var at := was.index.Get(kind);
        all.Some? && at + 1 < TWO_32 && at < |all.value| && !IsNaN(all.value[at].time) && !IsNaN(limit) ==>
          ok == if kind == RsData then Value(all.value[at].time) < Value(limit) else Value(all.value[at].time) <= Value(limit)
    {
      hide HeldBack, ReadBack, ReadRecord, Value, IsNaN;
      ok, data, readTime := false, [], 0;
      if file == null || layer >= |layerData| {
        return;
      }
      var target := layerData[layer];
      var index, markup := target.index.Get(kind), target.markup.Get(kind);
      ReadBackRecords(file.data, markup);
      if index >= |markup| {
        return;
      }
      ok, data, readTime := ReadIfDue(kind, markup[index], limit);
      HeldBackIs(kind, readTime, limit);
      if ok {
        layerData := layerData[layer := target.(index := target.index.Set(kind, Trunc32(index + 1)))];
      }
    }

    lemma ReadBackRecords(b: bytes, m: Markup)
      ensures ReadBack(b, m).Some? ==>
        && |ReadBack(b, m).value| == |m|
        && forall i :: 0 <= i < |m| ==> ReadRecord(b, m[i]).Parsed? && ReadBack(b, m).value[i] == ReadRecord(b, m[i]).value
    {
      hide ReadRecord;
      if ReadBack(b, m).Some? {
        ReadBackLength(b, m);
        forall i | 0 <= i < |m|
          ensures ReadRecord(b, m[i]).Parsed? && ReadBack(b, m).value[i] == ReadRecord(b, m[i]).value
        {
          ReadBackAt(b, m, i);
        }
      }
    }

    lemma {:induction false} ReadBackLength(b: bytes, m: Markup)
      requires ReadBack(b, m).Some?
      ensures |ReadBack(b, m).value| == |m|
    {
      if m != [] {
        ReadBackLength(b, m[..|m| - 1]);
      }
    }

    lemma {:induction false} ReadBackAt(b: bytes, m: Markup, i: nat)
      requires ReadBack(b, m).Some? && i < |m|
      ensures |ReadBack(b, m).value| == |m|
      ensures ReadRecord(b, m[i]).Parsed? && ReadBack(b, m).value[i] == ReadRecord(b, m[i]).value
    {
      var n := |m| - 1;
      ReadBackLength(b, m);
      if i < n {
        ReadBackAt(b, m[..n], i);
      } else {
        ReadBackLength(b, m[..n]);
      }
    }

    method ReadTrackDataRestart(kind: TrackKind, layer: nat)
      requires layerData != [] ==> layer < |layerData|
      modifies this`layerData
      ensures layerData == if old(layerData) == [] then []
        else old(layerData)[layer := old(layerData)[layer].(index := old(layerData)[layer].index.Set(kind, 0))]
    {
      if layerData == [] {
        return;
      }
      layerData := layerData[layer := layerData[layer].(index := layerData[layer].index.Set(kind, 0))];
    }

    method TrackEOF(kind: TrackKind, layer: nat) returns (eof: bool)
      ensures file == null || layer >= |layerData| ==> eof
      ensures file != null && layer < |layerData| ==>
        eof == (layerData[layer].index.Get(kind) >= |layerData[layer].markup.Get(kind)|)
      ensures file != null && layer < |layerData| && ReadBack(file.data, layerData[layer].markup.Get(kind)).Some? ==>
        eof == AtEnd(ReadBack(file.data, layerData[layer].markup.Get(kind)).value, layerData[layer].index.Get(kind))
    {
      if file == null || layer >= |layerData| {
        return true;
      }
      eof := layerData[layer].index.Get(kind) >= |layerData[layer].markup.Get(kind)|;
      if ReadBack(file.data, layerData[layer].markup.Get(kind)).Some? {
        ReadBackLength(file.data, layerData[layer].markup.Get(kind));
      }
    }
  }
}
