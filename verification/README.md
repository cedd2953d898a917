# Graphic 2D: proofs about recordings, snapshots, surfaces and swapchains

A Dafny model of the parts of the rendering service and its client libraries where many small
operations share state, with proofs about every input and every run. Nothing here executes the
original program; calls into drivers, queues, clocks and files are inputs of the model.

- **Recording** (`Bytes`, `Codec`, `OrderedMap`, `Archive`, `CaptureData`, `ImageCache`,
  `RecordingFormat`, `Recorder`, `Reopening`, `ExactReopening`, `Playback`, `RSFile`): the profiler's
  binary container as bytes. `Recorder` is the state machine beside an ideal recorder that just
  remembers; `Reopening` says when a new reader gets the same up to one time, `ExactReopening` when it
  gets the same to the last bit; `Playback` is the time-driven cursor; the class
  `RecordFile.RSFile` is the code's own form, each method tied to a step. A preamble of twelve bytes
  is written but data start at offset 8, and the header offset is later written over bytes 8 to 11.
  The first region written there loses its low word; the theorems say exactly when that matters.
- **Snapshot** (`NodeIds`, `NodeRecord`, `RenderTree`, `Forest`, `OnTree`, `Snapshot`,
  `SnapshotStream`): node records and trees written to a stream and rebuilt under patched ids.
  `RenderTree` attaches and erases nodes; `OnTree` says which nodes a parent on screen brings there when
  a tree is attached, what they take from it, and when all stay as they are. Where the code differs from
  what its names suggest the model follows the code: a proxy node is recreated with the texture flag as its
  target, the count of children includes expired ones, and the number of modifiers is read as a signed
  number.
- **Clock**: the playback clock that can be paused ahead, with 64-bit wrap-around, against a tick by
  tick account of when playback stands still.
- **JSON** (`Json`, `JsonWriter`): the streaming printer with its comma repair against a parser of
  RFC 8259.
- **Swapchain** (`Swapchain`, `SwapchainQueue`, `SwapchainLayer`): the Vulkan layer as a state machine
  over images, buffer references and the buffer queue (Vulkan specification, chapter "Window System
  Integration (WSI)", section "WSI Swapchain").
- **Surface image** (`SurfaceImage`): the EGL image cache on every error path.
- **Measurement** (`Sweep`, `PerfTree`): the multi-frame sweep that takes nodes out of the tree, and
  the walk that finds them. The node map finds another node than the global root under id 0, and
  disappearing children stand in both lists that the walk visits; the exact conditions say what follows.
- **Arithmetic** (`Colour`, `PixelMap`, `Packet`): matrices over exact reals, miniatures, packets.

Functions specify, classes and loops follow the code and are proved equal to them, lemmas state what
the code is for. Where a property fails, one lemma says exactly when it holds and another gives an
input for which it does not.

## Model

| member | source | states |
|---|---|---|
| ExactReopening.RecordingReopensExactly | rosen/modules/render_service_profiler/rs_profiler_file.cpp:39-234 | main result: for every legal run of layer, pid, first-frame, start-time, property, image, record and snapshot calls, the file behind the last header write gives a new reader exactly what an ideal recorder remembers (every record with its time and payload, properties, pids, frame, images, start time), if and only if a region was written before that header write, or there is no layer and the start time happens to equal the header offset in its low word, and moreover the time of a record at offset 8 has in its low word where the header will stand, the write offset plus the sizes of the layer tables; render metrics, which files below version 0x240701 do not hold, come back empty |
| ExactReopening.HeadersReopenExactly | rosen/modules/render_service_profiler/rs_profiler_file.cpp:522-531 | the same for one header write in any state that satisfies the invariant |
| ExactReopening.EmptyLayerLost | rosen/modules/render_service_profiler/rs_profiler_file.cpp:55-63 | a concrete run that is not restored at all: one layer without records |
| ExactReopening.FirstTimeLost | rosen/modules/render_service_profiler/rs_profiler_file.cpp:55-63 | a concrete run that is restored but for one time: a record at time 1, at offset 8 |
| ExactReopening.GoldenRecording | rosen/modules/render_service_profiler/rs_profiler_file.cpp:39-294 | the file of that run, byte by byte: preamble, data, layer table and header |
| Reopening.RecordingReopens | rosen/modules/render_service_profiler/rs_profiler_file.cpp:39-234 | over every legal run, the same up to the low word of the time of a record at offset 8, if and only if the condition on regions holds alone |
| Reopening.HeadersReopen | rosen/modules/render_service_profiler/rs_profiler_file.cpp:522-531 | one header write restores everything, up to the low word of the time of a record at offset 8, exactly when nothing else that is needed lies in bytes 8 to 11 |
| Reopening.RecordsSeparate | rosen/modules/render_service_profiler/rs_profiler_file.cpp:562-577 | in every reachable state the extents of all records of all tracks of all layers are pairwise disjoint and end at or before the write offset |
| RecordingFormat.ApartShares | rosen/modules/render_service_profiler/rs_profiler_file.cpp:562-577 | extents that are apart share no byte |
| Reopening.HeadersTouchNoRecord | rosen/modules/render_service_profiler/rs_profiler_file.cpp:487-511 | a header write, and so a snapshot, changes no byte from 12 up to the write offset |
| Reopening.RecordSurvives | rosen/modules/render_service_profiler/rs_profiler_file.cpp:188-190 | the time of a record survives a header write exactly when the record does not start at offset 8, or its low time word equals the header offset; its payload always does |
| Reopening.CleanFileReads | rosen/modules/render_service_profiler/rs_profiler_file.cpp:193-234 | with all regions behind offset 12, decoding the written file yields version, header, layer extents and layer tables as they are in memory |
| Reopening.BareFileReads | rosen/modules/render_service_profiler/rs_profiler_file.cpp:55-63 | a file without layers has its header at offset 8 and reads back with the low word of its start time replaced by that offset |
| Reopening.DamagedTableMisread | rosen/modules/render_service_profiler/rs_profiler_file.cpp:262-294 | a layer table at offset 8 does not read back as an empty one |
| Reopening.SmallestLosses | rosen/modules/render_service_profiler/rs_profiler_file.cpp:55-63 | from any start, a layer without records is not clean, and a record of time 1 at offset 8 does not read back while the file is below 4 GiB |
| Reopening.PreparedHeaderReads | rosen/modules/render_service_profiler/rs_profiler_file.cpp:134-182 | a header captured from one file and written into another in prepared mode reads back as the captured one, and is used up |
| Reopening.UsedUpHeaderMisread | rosen/modules/render_service_profiler/rs_profiler_file.cpp:149-182 | a header write in prepared mode for which nothing is left puts the layer extents where a reader looks for the header: the start time it takes is the number of layers plus 2^32 times the place of the first layer table |
| Reopening.PreparedTwice | rosen/modules/render_service_profiler/rs_profiler_file.cpp:487-531 | so a second header write loses the document of a prepared file with layers, unless its start time is that very number |
| Reopening.PreparedBareTwice | rosen/modules/render_service_profiler/rs_profiler_file.cpp:149-191 | without layers the second header write leaves the file as it is, with the low word of the start time replaced by the first |
| Recorder.CreateEstablishesInv | rosen/modules/render_service_profiler/rs_profiler_file.cpp:39-65 | a created file satisfies the recording invariant |
| Recorder.StepKeepsInv | rosen/modules/render_service_profiler/rs_profiler_file.cpp:119-294 | every call keeps it: the file holds every record the ideal recorder remembers, extents are disjoint, the preamble is intact but for the shared word |
| Recorder.RunKeepsInv | rosen/modules/render_service_profiler/rs_profiler_file.cpp:119-577 | so does every run |
| Recorder.CacheImageIs | rosen/modules/render_service_profiler/rs_profiler_cache.cpp:56-64 | an image enters the cache of a recording exactly when it has between 1 byte and 600 MiB and its id is free; what is there stays |
| Recorder.ChangesCount | rosen/modules/render_service_profiler/rs_profiler_file.cpp:119-260 | whatever alters what the headers hold has them written again, also in a file that was opened and not changed so far; a known pid and a missing layer alter nothing |
| Recorder.HeaderFields | rosen/modules/render_service_profiler/rs_profiler_file.cpp:149-191 | a header write changes header offset and file alone, but that prepared bytes are used up; without a change nothing is written |
| RecordingFormat.LayerRoundTrip | rosen/modules/render_service_profiler/rs_profiler_file.cpp:262-322 | a layer table, wherever it stands and at either file version, reads back with render metrics only from 0x240701 on |
| RecordingFormat.LayersRoundTrip | rosen/modules/render_service_profiler/rs_profiler_file.cpp:226-234 | all layer tables, found through their extents, read back |
| RecordingFormat.SubHeaderRoundTrip | rosen/modules/render_service_profiler/rs_profiler_file.cpp:149-182 | the global header up to the layer offsets reads back and ends where it was written to end |
| RecordingFormat.TrackRoundTrip | rosen/modules/render_service_profiler/rs_profiler_file.h:125-158 | an index table reads back, entry by entry |
| RecordingFormat.OtherFilesRefused | rosen/modules/render_service_profiler/rs_profiler_file.cpp:81-90 | only files that start with the magic word are decoded |
| RecordFile.RSFile.Create | rosen/modules/render_service_profiler/rs_profiler_file.cpp:39-65 | the object and its bytes become those of a created recording, after closing one that is open |
| RecordFile.RSFile.WriteHeader | rosen/modules/render_service_profiler/rs_profiler_file.cpp:149-191 | bytes and fields change as one header write of the state machine |
| RecordFile.RSFile.WriteHeaders | rosen/modules/render_service_profiler/rs_profiler_file.cpp:522-531 | all layer tables, then the header |
| RecordFile.RSFile.LayerWriteHeader | rosen/modules/render_service_profiler/rs_profiler_file.cpp:262-294 | one layer table, appended, with its extent remembered |
| RecordFile.RSFile.LayerWriteHeaderOfTrack | rosen/modules/render_service_profiler/rs_profiler_file.h:125-138 | a count and every entry of an index table reach the file |
| RecordFile.RSFile.LayerReadHeaderOfTrack | rosen/modules/render_service_profiler/rs_profiler_file.h:140-158 | what is read is what the decoder of an index table yields there |
| RecordFile.RSFile.Close | rosen/modules/render_service_profiler/rs_profiler_file.cpp:541-560 | changed recordings get their headers written, the bytes handed back are the whole file, all fields are reset |
| RecordFile.RSFile.AddLayer | rosen/modules/render_service_profiler/rs_profiler_file.cpp:239-248 | a new empty layer |
| RecordFile.RSFile.AddHeaderPid | rosen/modules/render_service_profiler/rs_profiler_file.cpp:119-127 | a pid is added once |
| RecordFile.RSFile.AddHeaderFirstFrame | rosen/modules/render_service_profiler/rs_profiler_file.cpp:633-637 | the first frame is kept for the header |
| RecordFile.RSFile.LayerAddHeaderProperty | rosen/modules/render_service_profiler/rs_profiler_file.cpp:250-260 | a property of one layer, ignored for a layer that does not exist |
| RecordFile.RSFile.WriteTrackData | rosen/modules/render_service_profiler/rs_profiler_file.cpp:562-577 | time and payload are appended, the extent is entered in the track |
| RecordFile.RSFile.GetDataCopy | rosen/modules/render_service_profiler/rs_profiler_file.cpp:487-511 | without an open file nothing happens and the answer is no; otherwise the bytes returned are the file with current headers, and recording goes on from the state behind a header write |
| RecordFile.RSFile.Open | rosen/modules/render_service_profiler/rs_profiler_file.cpp:67-98 | a file is accepted exactly when it starts with the magic number; an object without layers of its own takes over the document in it |
| RecordFile.RSFile.ReadHeader | rosen/modules/render_service_profiler/rs_profiler_file.cpp:193-234 | fields become those of the decoded header; in prepared mode its raw bytes are kept |
| RecordFile.RSFile.CapturedHeader | rosen/modules/render_service_profiler/rs_profiler_file.cpp:219-225 | the raw bytes kept in prepared mode of a header that was written are exactly its encoding |
| RecordFile.RSFile.ReadHeaders | rosen/modules/render_service_profiler/rs_profiler_file.cpp:533-539 | header and layer tables become those of the decoded document |
| RecordFile.RSFile.ResizedIs | rosen/modules/render_service_profiler/rs_profiler_file.cpp:226-233 | after reading a header, layers that existed keep properties, index tables and read positions but for that of render service data, and new ones are empty |
| RecordFile.RSFile.LayerReadHeader | rosen/modules/render_service_profiler/rs_profiler_file.cpp:296-322 | one layer becomes what its table decodes to |
| RecordFile.RSFile.ReadTrackData | rosen/modules/render_service_profiler/rs_profiler_file.cpp:430-606 | delivers the next record and advances the read position exactly when the number its time denotes is below the limit, for render service data, or at most the limit, for every other track, or one of them is not a number; otherwise nothing changes |
| RecordFile.RSFile.ReadTrackDataRestart | rosen/modules/render_service_profiler/rs_profiler_file.cpp:608-616 | the read position of one track goes back to its start, all others stay |
| RecordFile.RSFile.TrackEOF | rosen/modules/render_service_profiler/rs_profiler_file.cpp:618-626 | true exactly when the read position has reached the number of extents, so, where the records decode, when every one has been delivered; true without a file or layer |
| Playback.CursorRefines | rosen/modules/render_service_profiler/rs_profiler_file.cpp:579-606 | under non-decreasing limits records come once each, in written order, never beyond what is due, and a call is empty-handed exactly when nothing more is due |
| Playback.CursorDrains | rosen/modules/render_service_profiler/rs_profiler_file.cpp:430-456 | any number of calls under one limit delivers that many records more, or everything that is due under it |
| Playback.NextWhenDue | rosen/modules/render_service_profiler/rs_profiler_file.cpp:430-606 | a call delivers the next record exactly when the number its time denotes lies strictly below the limit, for render service data, or up to it, for every other track |
| Playback.NextWhenNaN | rosen/modules/render_service_profiler/rs_profiler_file.cpp:430-606 | what is not a number holds nothing back |
| Playback.DueAtLimit | rosen/modules/render_service_profiler/rs_profiler_file.cpp:430-606 | a concrete record at time 1.0 under the limit 1.0: delivered from a graphics library track, kept in render service data |
| Playback.KeyOrders | rosen/modules/render_service_profiler/rs_profiler_file.cpp:446-446 | comparing doubles by their bits compares the numbers they denote (sections 3.3 and 3.4 of IEEE 754) |
| Playback.IsNaNIs | rosen/modules/render_service_profiler/rs_profiler_file.cpp:446-446 | what is not a number has all exponent bits set and a mantissa other than zero |
| Playback.LimitLeIs | rosen/modules/render_service_profiler/rs_profiler_file.cpp:430-606 | one limit allows at least what another does when it is the greater number, or none |
| Playback.SortedTrackDue | rosen/modules/render_service_profiler/rs_profiler_file.cpp:430-456 | in a track sorted by time the due records are exactly those below the limit, for render service data, or up to it, for every other track, and the end is reached exactly when all are |
| Playback.RecordedTrackPlays | rosen/modules/render_service_profiler/rs_profiler_file.cpp:579-626 | a restored track whose records avoid offset 8 plays back as the recorded one and then reports its end |
| Archive.ByteFile.Write | rosen/modules/render_service_profiler/rs_profiler_utils.cpp:541-557 | bytes replace what was at the position or extend the file; nothing happens for no bytes |
| Archive.ByteFile.Read | rosen/modules/render_service_profiler/rs_profiler_utils.cpp:524-539 | the bytes at the position, fewer at the end of the file |
| Archive.DataArchive.Write | rosen/modules/render_service_profiler/rs_profiler_archive.h:130-136 | written into a fresh vector, data and offset grow together |
| Archive.DataArchive.Read | rosen/modules/render_service_profiler/rs_profiler_archive.h:123-128 | the bytes at the offset, or nothing and no move when they do not fit |
| Archive.DataArchive.ReadBlob | rosen/modules/render_service_profiler/rs_profiler_archive.cpp:70-80 | a string is what the decoder yields, and reading stops behind it |
| Codec.BlobRoundTrip | rosen/modules/render_service_profiler/rs_profiler_archive.cpp:70-80 | an encoded string followed by anything is read back, up to its end |
| Codec.AllRoundTrip | rosen/modules/render_service_profiler/rs_profiler_archive.h:61-88 | so is any list whose items are |
| CaptureData.CaptureRoundTrip | rosen/modules/render_service_profiler/rs_profiler_capturedata.cpp:118-141 | a capture followed by arbitrary bytes reads back, map and all, and reading stops at its end |
| CaptureData.SetGet | rosen/modules/render_service_profiler/rs_profiler_capturedata.cpp:42-52 | a property read after an assignment is the assigned one for that name and the earlier one, or "0", for all others |
| CaptureData.CaptureData.Serialize | rosen/modules/render_service_profiler/rs_profiler_capturedata.cpp:104-108 | the loop over the map writes exactly the encoding |
| CaptureData.Deserialize | rosen/modules/render_service_profiler/rs_profiler_capturedata.cpp:110-141 | the loop over the archive restores the capture that the bytes decode to |
| ImageCache.ImageRoundTrip | rosen/modules/render_service_profiler/rs_profiler_cache.cpp:31-41 | an image reads back, all eight fields in their serialisation order |
| ImageCache.ImagesRoundTrip | rosen/modules/render_service_profiler/rs_profiler_cache.cpp:85-112 | a whole cache reads back as the same ordered map |
| ImageCache.ImageCache.Add | rosen/modules/render_service_profiler/rs_profiler_cache.cpp:56-64 | added exactly when the image is valid and the id is free; nothing else changes |
| ImageCache.ImageCache.Serialize | rosen/modules/render_service_profiler/rs_profiler_cache.cpp:85-94 | the file gets the encoding of the cache |
| ImageCache.ImageCache.Deserialize | rosen/modules/render_service_profiler/rs_profiler_cache.cpp:97-112 | the cache becomes what the file decodes to |
| OrderedMap.PutCorrect | rosen/modules/render_service_profiler/rs_profiler_capturedata.cpp:42-45 | assignment and insertion keep the order of keys and change one key only |
| OrderedMap.PutAllSorted | rosen/modules/render_service_profiler/rs_profiler_cache.cpp:104-111 | putting the pairs of a map back in iteration order rebuilds it |
| Packet.Fifo | rosen/modules/render_service_profiler/rs_profiler_packet.cpp:78-120 | over every interleaving of writes and reads the payload is what was written, what was read is its part up to the read pointer, the length field holds the buffer size and the write pointer its end |
| Packet.ChunksComeBack | rosen/modules/render_service_profiler/rs_profiler_packet.cpp:86-120 | non-empty chunks read back with their sizes come back in order; then every read fails without moving the pointer |
| Packet.WriteAppends | rosen/modules/render_service_profiler/rs_profiler_packet.cpp:102-120 | a write fails for no bytes only, and otherwise appends and keeps type and read pointer |
| Packet.ReadDelivers | rosen/modules/render_service_profiler/rs_profiler_packet.cpp:86-99 | the next bytes of the payload, or nothing and no move |
| Packet.NetworkPacket.Store | rosen/modules/render_service_profiler/rs_profiler_packet.cpp:102-120 | the fields change as in that write |
| Packet.NetworkPacket.Fetch | rosen/modules/render_service_profiler/rs_profiler_packet.cpp:86-99 | the fields change as in that read |
| Packet.NetworkPacket.Release | rosen/modules/render_service_profiler/rs_profiler_packet.cpp:66-83 | the contents are handed over and an empty packet of unknown type remains |
| Snapshot.SceneRoundTrip | rosen/modules/render_service_profiler/rs_profiler_base.cpp:410-750 | main result: with live children, resolved and unpatched ids and no node listed twice, reading a snapshot stops at its end, at either file version, rebuilds every written tree under patched ids with child order and leaves all other links and nodes alone; a node recorded on the tree, or listed below none that was, is exactly its record; every other one is on the tree, with the instance root and first-level node that its kind takes from its parent as restored; so all nodes are exactly their records if and only if no node recorded off the tree is listed under one recorded on it |
| Snapshot.OffTreeCanvasJoins | rosen/modules/render_service_profiler/rs_profiler_base.cpp:410-750 | a concrete scene, an off-tree canvas under an on-tree fallback node, that does not come back as recorded: the canvas is on the tree with the patched ids of the fallback node |
| Snapshot.ForestGrows | rosen/modules/render_service_profiler/rs_profiler_base.cpp:732-750 | attaching trees of unlinked nodes brings onto the tree exactly what is listed below nodes that are on it, each with what its kind takes from its parent, and changes no other node |
| Snapshot.ForestKeepsIff | rosen/modules/render_service_profiler/rs_profiler_base.cpp:732-750 | attaching trees of unlinked nodes leaves all nodes as they are exactly when no node off the tree is listed under one on it, at any depth |
| Snapshot.MockNodesVanish | rosen/modules/render_service_profiler/rs_profiler_base.cpp:337-359 | whatever bytes are read into a map of unpatched ids, erasing the mock nodes afterwards, one by one, process by process, in any order within a process, restores nodes with all their fields, children and parents exactly |
| Snapshot.SceneMocked | rosen/modules/render_service_profiler/rs_profiler_base.cpp:602-750 | whatever bytes are read, what was there before is untouched: all that is new, changed or linked is patched |
| Snapshot.FilterRemovesPatched | rosen/modules/render_service_profiler/rs_profiler_base.cpp:337-352 | for any map, erasing in any such order removes the patched nodes and no others |
| Snapshot.RegisterRestores | rosen/modules/render_service_profiler/rs_profiler_base.cpp:628-686 | every record becomes one new node: display and unknown types become root nodes, surface names gain "_", group type is zero below 0x240701 |
| Snapshot.ForestShapes | rosen/modules/render_service_profiler/rs_profiler_base.cpp:732-750 | attaching trees of unlinked nodes gives each of them its shape and changes no other link |
| Forest.TreeRead | rosen/modules/render_service_profiler/rs_profiler_base.cpp:732-750 | a written tree without expired children is read to its end as the calls of AddChild for the patched tree |
| Forest.AttachShapes | rosen/modules/render_service_profiler/rs_profiler_base.cpp:743-749 | those calls, at rising indexes, yield exactly the child lists, in order, and the parents of the tree |
| Forest.TreeStopsIff | rosen/modules/render_service_profiler/rs_profiler_base.cpp:436-451 | the count of a written tree covers expired children and its list does not: a reader stops at its end exactly when none had expired |
| Forest.ExpiredChildOverruns | rosen/modules/render_service_profiler/rs_profiler_base.cpp:436-451 | a concrete tree with one expired child: the reader takes the 20 bytes behind it for that child |
| NodeRecord.NodeRoundTrip | rosen/modules/render_service_profiler/rs_profiler_base.cpp:453-504 | a node record, anywhere and at either version, reads back field by field, and reading stops at its end |
| NodeRecord.GoldenNode | rosen/modules/render_service_profiler/rs_profiler_base.cpp:453-504 | the record of one canvas, byte by byte |
| NodeRecord.RestoredFields | rosen/modules/render_service_profiler/rs_profiler_base.cpp:564-686 | a restored node keeps depth, pivot, priority, group and on-tree flag; surface, proxy, canvas, effect, root and canvas drawing nodes keep their type and all others become root nodes; the texture flag is kept by every type but proxy, whose target becomes 1 where it was set; surfaces keep all but their name, which gains "_"; root ids are patched; no modifier is lost |
| NodeRecord.GroupWritten | rosen/modules/render_service_profiler/rs_profiler_base.cpp:453-504 | the group is one byte of a record from version 0x240701 on and lost below; only surfaces have surface fields |
| NodeRecord.LongListLost | rosen/modules/render_service_profiler/rs_profiler_base.cpp:713-717 | a list of 2^31 modifiers or more is read as empty |
| NodeRecord.FlatHolds | rosen/modules/render_service_profiler/rs_profiler_base.cpp:719-727 | draw modifiers are added in the order of their lists |
| NodeRecord.RestoredTwice | rosen/modules/render_service_profiler/rs_profiler_base.cpp:628-686 | a snapshot of a restored node changes neither its type nor its ids again |
| Snapshot.RegularSceneExists | rosen/modules/render_service_profiler/rs_profiler_base.cpp:410-434 | the conditions of the main result are met by the global root with one canvas beside the fallback node, for any two nodes |
| RenderTree.AddChildMoves | rosen/modules/render_service_base/src/pipeline/rs_render_node.cpp:225-248 | a child ends up at the index of its new parent's list, or at its end, and has left the old one's |
| RenderTree.AddChildElsewhere | rosen/modules/render_service_base/src/pipeline/rs_render_node.cpp:225-248 | no other list changes |
| RenderTree.AddChildFlag | rosen/modules/render_service_base/src/pipeline/rs_render_node.cpp:225-248 | adding a child without parent changes nodes only by turning nodes onto the tree: the child is on it afterwards if it was or its parent is, and no node changes when the flags agree already |
| RenderTree.SetTreeTurns | rosen/modules/render_service_base/src/pipeline/rs_render_node.cpp:316-354 | passing the flag down changes only nodes that had the other one, in flag, instance root and first-level node alone, and the node called always ends with it |
| RenderTree.AddChildTakes | rosen/modules/render_service_base/src/pipeline/rs_surface_render_node.cpp:2410-2442 | an off-tree node without children that is added under an on-tree parent: displays and surfaces up to leash windows become their own instance root, all else takes the parent's; a leash window is its own first-level node, an application window too unless its parent is a surface that has one, all else takes the parent's; no other field and no other node changes |
| RenderTree.DetachTakes | rosen/modules/render_service_base/src/pipeline/rs_render_node.cpp:225-354 | a node without children that leaves its parent is off the tree, without ids but for those that are its own |
| RenderTree.MovedChildFlag | rosen/modules/render_service_base/src/pipeline/rs_render_node.cpp:225-248 | a child that moves is off the tree in between and on it afterwards exactly when its new parent is |
| RenderTree.OffTreeChildOverwritten | rosen/modules/render_service_base/src/pipeline/rs_render_node.cpp:225-248 | a leaf recorded off the tree under a parent on it is not as recorded: it takes flag, instance root and first-level node from its parent |
| OnTree.AttachKeepsIff | rosen/modules/render_service_base/src/pipeline/rs_render_node.cpp:225-248 | attaching a whole tree changes no node exactly when no node off the tree is listed under one on it |
| OnTree.AttachGrows | rosen/modules/render_service_base/src/pipeline/rs_render_node.cpp:225-354 | for one tree: on the tree afterwards are the nodes that were and all that is listed below one of them; whoever came onto it took its ids from its parent |
| OnTree.AddTreeGrows | rosen/modules/render_service_base/src/pipeline/rs_render_node.cpp:225-354 | adding a node with a whole tree below it: every node that comes onto the tree takes its ids from its own parent in turn |
| OnTree.SetTreeReaches | rosen/modules/render_service_base/src/pipeline/rs_render_node.cpp:316-354 | a tree of off-tree nodes comes onto the tree as a whole, and no node outside it changes |
| NodeRecord.SignedListRoundTrip | rosen/modules/render_service_profiler/rs_profiler_base.cpp:713-717 | a list of fewer than 2^31 modifiers survives being counted with a signed number |
| NodeIds.PatchIsMockPid | rosen/modules/render_service_profiler/rs_profiler_utils.h:143-193 | patching an id is composing it anew from the mock process id; it is idempotent |
| NodeIds.PatchedByPid | rosen/modules/render_service_profiler/rs_profiler_utils.h:143-193 | the process half alone tells whether an id is patched |
| NodeIds.PatchMeets | rosen/modules/render_service_profiler/rs_profiler_utils.h:179-192 | two different ids meet under patching exactly when they differ in the patch bit alone |
| SnapshotStream.Stream.MarshalTree | rosen/modules/render_service_profiler/rs_profiler_base.cpp:436-451 | the recursive loop appends the encoding of the tree |
| SnapshotStream.Stream.MarshalNodes | rosen/modules/render_service_profiler/rs_profiler_base.cpp:410-434 | the loops append the encoding of the scene |
| SnapshotStream.Stream.UnmarshalNode | rosen/modules/render_service_profiler/rs_profiler_base.cpp:628-686 | reading field by field, up to the modifiers, consumes what the decoder of a record does and changes the node map as registration does; creating the node, then setting the fields of the record |
| SnapshotStream.Stream.SetRecord | rosen/modules/render_service_profiler/rs_profiler_base.cpp:656-730 | fields of the record replace those of the node registered under the id, or of a new one |
| SnapshotStream.Stream.AppendChild | rosen/modules/render_service_base/src/pipeline/rs_render_node.cpp:225-248 | insertion at an index or at the end, after leaving the previous parent, and then the flag passed down |
| SnapshotStream.Stream.SetIsOnTheTree | rosen/modules/render_service_base/src/pipeline/rs_render_node.cpp:316-354 | the recursive loop over children changes nodes as specified, and ends because every call that goes on turns a node |
| SnapshotStream.Stream.UnmarshalTree | rosen/modules/render_service_profiler/rs_profiler_base.cpp:732-750 | links and read position change as in the recursive reader, and it fails where that does |
| SnapshotStream.Stream.UnmarshalNodes | rosen/modules/render_service_profiler/rs_profiler_base.cpp:602-626 | nodes, links and position change as in reading a scene |
| SnapshotStream.Stream.FilterMockNode | rosen/modules/render_service_profiler/rs_profiler_base.cpp:337-352 | collecting the mock processes and then filtering by each erases nodes in one of the orders of the round trip, after which exactly the nodes of unpatched ids are left |
| SnapshotStream.Stream.FilterNodeByPid | rosen/modules/render_service_base/src/pipeline/rs_render_node_map.cpp:220-243 | the erasing loop visits every node of the process once and erases it from map and tree; exactly the nodes of other processes are left |
| Clock.ClockCountsPlayedTime | rosen/modules/render_service_profiler/rs_profiler_base.cpp:210-273 | after every proper run of pauses and resumes, patched time is raw time less the ticks at which playback stood still; no subtraction wraps around |
| Clock.PlayedWithin | rosen/modules/render_service_profiler/rs_profiler_base.cpp:210-273 | the same at every moment within a run |
| Clock.PatchedTimeMonotone | rosen/modules/render_service_profiler/rs_profiler_base.cpp:210-225 | over a run patched time never decreases and never runs faster than raw time |
| Clock.PauseIsSmooth | rosen/modules/render_service_profiler/rs_profiler_base.cpp:255-273 | a pause changes nothing at its own instant exactly when its target is not in the past, or 0, which sets none; a resume never does |
| Clock.ClearIsSmooth | rosen/modules/render_service_profiler/rs_profiler_base.cpp:275-279 | clearing jumps unless no pause had been accounted for |
| Clock.ZeroStays | rosen/modules/render_service_profiler/rs_profiler_base.cpp:210-225 | zero stands for no time and stays so, whatever the clock |
| Clock.PauseAheadFreezes | rosen/modules/render_service_profiler/rs_profiler.cpp:1516-1534 | pausing d ahead plays exactly d more and then stands still, also when it stood still already |
| Clock.PlaybackClock.PatchTime | rosen/modules/render_service_profiler/rs_profiler_base.cpp:210-225 | time is patched only when enabled and playing |
| Clock.PlaybackClock.TimePauseAt | rosen/modules/render_service_profiler/rs_profiler_base.cpp:255-263 | the fields change as in that pause |
| Clock.PlaybackClock.TimePauseResume | rosen/modules/render_service_profiler/rs_profiler_base.cpp:265-273 | the fields change as in that resume |
| Clock.PlaybackClock.TimePauseClear | rosen/modules/render_service_profiler/rs_profiler_base.cpp:275-279 | the clock runs as if never paused |
| Clock.PlaybackClock.SetMode | rosen/modules/render_service_profiler/rs_profiler_base.cpp:174-181 | leaving playback clears the clock |
| Clock.PlaybackClock.PlaybackPauseAt | rosen/modules/render_service_profiler/rs_profiler.cpp:1516-1534 | a pause at a play time that has not passed; otherwise nothing |
| JsonWriter.WriterPrintsJson | rosen/modules/render_service_profiler/rs_profiler_json.h:27-102 | main result: for every well-nested run of calls that describes a whole value, the dump is that value's text and a terminator, and an independent parser of RFC 8259 (sections 2 to 7, without escapes) returns the value if and only if every key and string of the run is free of quotes, backslashes and control characters and every number follows the grammar |
| JsonWriter.KeyNeedsEscape | rosen/modules/render_service_profiler/rs_profiler_json.h:66-70 | a concrete run, one object with a quote in its key, that prints what does not parse back |
| JsonWriter.PlainIs | rosen/modules/render_service_profiler/rs_profiler_json.h:59-70 | what a run needs, said without the parser: no quotation mark, backslash or control character in a key or string, and numbers that are a minus sign or none, an integer without leading zeros, and optional fraction and exponent |
| Json.NumberIff | rosen/modules/render_service_profiler/rs_profiler_json.h:105-109 | the parser takes a whole text for one number exactly when it is one by the grammar of RFC 8259, section 6 |
| JsonWriter.StepBackIs | rosen/modules/render_service_profiler/rs_profiler_json.h:32-57 | the repair of a comma fails exactly on a failed or empty stream and behind white space, moves only over a comma and never changes the text |
| JsonWriter.DumpIs | rosen/modules/render_service_profiler/rs_profiler_json.h:92-102 | the dump ends in a terminator in place of a trailing comma, and any other text stays as it is |
| JsonWriter.OutIs | rosen/modules/render_service_profiler/rs_profiler_json.h:59-90 | output replaces what stands at the position and goes on behind the end; a failed stream drops it |
| JsonWriter.SingleValueIff | rosen/modules/render_service_profiler/rs_profiler_json.h:59-64 | the main result for the shortest runs: a single value prints as JSON for itself exactly when it is plain |
| JsonWriter.CallsDescribe | rosen/modules/render_service_profiler/rs_profiler_json.h:27-90 | every value without booleans is described by some run of calls, so the main result covers all of them, empty containers included |
| JsonWriter.PrintFollows | rosen/modules/render_service_profiler/rs_profiler_json.h:32-57 | the comma repaired in place: each call takes the text of a partial value to the text of the partial value it describes |
| Json.TextParsesIff | rosen/modules/render_service_profiler/rs_profiler_json.h:92-102 | the compact text of a value parses back to the value exactly when all its keys, strings and numbers are plain: nothing else is ever a result of the parser |
| Json.BlankAround | rosen/modules/render_service_profiler/rs_profiler_json.h:92-102 | white space around the text of a value does not matter to the parser |
| Json.NothingFollows | rosen/modules/render_service_profiler/rs_profiler_json.h:92-102 | and nothing else may follow a value |
| Json.QuotedParses | rosen/modules/render_service_profiler/rs_profiler_json.h:66-70 | quoting without escapes is right exactly for strings that need none |
| Json.NumberParses | rosen/modules/render_service_profiler/rs_profiler_json.h:105-109 | a token is read back as that number exactly when it follows the grammar |
| JsonWriter.JsonWriter.PopObject | rosen/modules/render_service_profiler/rs_profiler_json.h:32-41 | the stream changes as in the printer: a trailing comma is overwritten |
| JsonWriter.JsonWriter.PopArray | rosen/modules/render_service_profiler/rs_profiler_json.h:48-57 | likewise |
| JsonWriter.JsonWriter.AssignNumbers | rosen/modules/render_service_profiler/rs_profiler_json.h:80-90 | an initialiser list prints as an array of its values |
| JsonWriter.JsonWriter.GetDumpString | rosen/modules/render_service_profiler/rs_profiler_json.h:92-102 | the text with a trailing comma replaced by a terminator |
| Swapchain.RunOwned | frameworks/vulkan_layers/swapchain_layer/swapchain_layer.cpp:424-915 | main result: in every run of create, acquire, present and destroy, whatever fails, the live driver images are exactly the non-null handles of swapchains not freed, each held once, and buffer references are exactly those of images with a handle |
| Swapchain.StepOwned | frameworks/vulkan_layers/swapchain_layer/swapchain_layer.cpp:424-915 | every call keeps this |
| Swapchain.DestroyOwned | frameworks/vulkan_layers/swapchain_layer/swapchain_layer.cpp:836-861 | destroying releases every image and reference of the swapchain before it is freed |
| Swapchain.DestroyedState | frameworks/vulkan_layers/swapchain_layer/swapchain_layer.cpp:836-861 | which slot, handle and dequeued buffers destroying leaves, in every case: another swapchain than the active one does not reach the queue |
| Swapchain.FailedBuildLeavesNothing | frameworks/vulkan_layers/swapchain_layer/swapchain_layer.cpp:895-911 | a creation that fails in any round leaves no image, no reference and no active swapchain of its own |
| Swapchain.AllFreedReleasesAll | frameworks/vulkan_layers/swapchain_layer/swapchain_layer.cpp:836-861 | when every swapchain is destroyed nothing is alive or referenced |
| Swapchain.DestroyedStaysDestroyed | frameworks/vulkan_layers/swapchain_layer/swapchain_layer.cpp:424-470 | an image that was created and destroyed is never alive again |
| Swapchain.RetiredStaysRetired | frameworks/vulkan_layers/swapchain_layer/swapchain_layer.cpp:472-485 | a swapchain that is not active never becomes active |
| Swapchain.AcquireDelivers | frameworks/vulkan_layers/swapchain_layer/swapchain_layer.cpp:966-1016 | a successful acquire names an image that wraps the buffer handed out, marks it and keeps its fence; a failed one touches no image but that of a known buffer; out of date means exactly that no image wraps it |
| Swapchain.AcquireResult | frameworks/vulkan_layers/swapchain_layer/swapchain_layer.cpp:946-1016 | the result in every case: out of date for an inactive swapchain or a buffer that no image wraps, surface lost without a buffer, the driver's failure, or success; a shared swapchain asks the driver alone |
| Swapchain.AcquireReturns | frameworks/vulkan_layers/swapchain_layer/swapchain_layer.cpp:966-1016 | a buffer that is not delivered goes back to the queue if that takes it, and an image on which the driver failed holds no request fence |
| Swapchain.CreateResult | frameworks/vulkan_layers/swapchain_layer/swapchain_layer.cpp:863-915 | the result in every case: refused with nothing changed exactly when the old swapchain is not the active one, else the first failure of setup, memory and rounds; after a failure none is active, after success the new one is |
| Swapchain.PresentResult | frameworks/vulkan_layers/swapchain_layer/swapchain_layer.cpp:1171-1212 | the result in every case: out of date exactly when the swapchain is not active, the driver's failure, success exactly when the buffer was flushed and a shared one came back in its own wrapper, and surface lost otherwise |
| Swapchain.PresentedImage | frameworks/vulkan_layers/swapchain_layer/swapchain_layer.cpp:1107-1212 | the image presented gets the fence of the present and keeps handle and buffer, that of a retired swapchain is released unless its fence is pending, and no other image changes unless the driver failed |
| Swapchain.ReleasedImage | frameworks/vulkan_layers/swapchain_layer/swapchain_layer.cpp:424-470 | which of handle, buffer, fences, references and dequeued buffers a release takes, in every case |
| Swapchain.IdleImages | frameworks/vulkan_layers/swapchain_layer/swapchain_layer.cpp:472-485 | retiring leaves requested images and those with a pending fence as they are and empties all others, without asking the queue |
| Swapchain.FlushedImage | frameworks/vulkan_layers/swapchain_layer/swapchain_layer.cpp:1107-1169 | what a flush does to fences, image and queue, in every case |
| SwapchainQueue.RunAgreesIff | frameworks/vulkan_layers/swapchain_layer/swapchain_layer.cpp:796-1212 | main result: over every run, in all states up to the n-th an image of the active swapchain is requested exactly when its buffer is dequeued, and only requested images hold a request fence, if and only if every call up to there was answered so that agreement can be kept: a creation in which everything was made could give its buffers back or is shared, a known buffer on which the driver failed could be cancelled, and a shared buffer came back in its own wrapper |
| SwapchainQueue.StepAgreesIff | frameworks/vulkan_layers/swapchain_layer/swapchain_layer.cpp:796-1212 | the same for one call in any owned state that agrees |
| SwapchainQueue.CreateAgreesIff | frameworks/vulkan_layers/swapchain_layer/swapchain_layer.cpp:863-915 | creating keeps agreement except when setup, memory and every round are good and a buffer of a swapchain that is not shared cannot be given back; a creation that fails never loses it |
| SwapchainQueue.BuildSucceedsIff | frameworks/vulkan_layers/swapchain_layer/swapchain_layer.cpp:783-834 | a creation that is set up succeeds exactly when every round gets a buffer and makes an image |
| SwapchainQueue.FailedCreationAgrees | frameworks/vulkan_layers/swapchain_layer/swapchain_layer.cpp:796-834 | a concrete creation that fails in its second round while no cancel is taken, and still agrees |
| SwapchainQueue.BuildAgreesIff | frameworks/vulkan_layers/swapchain_layer/swapchain_layer.cpp:796-834 | when every round is good, the swapchain agrees with the queue exactly when every buffer could be given back, or it is shared |
| SwapchainQueue.FailedCancelDisagrees | frameworks/vulkan_layers/swapchain_layer/swapchain_layer.cpp:796-834 | a concrete creation of one image whose only cancel fails, and that no longer agrees |
| SwapchainQueue.AcquireAgreesIff | frameworks/vulkan_layers/swapchain_layer/swapchain_layer.cpp:946-1016 | acquiring keeps agreement except when the driver fails on a known buffer that then cannot be given back |
| SwapchainQueue.FailedAcquireDisagrees | frameworks/vulkan_layers/swapchain_layer/swapchain_layer.cpp:946-1016 | a concrete run that loses agreement so |
| SwapchainQueue.PresentAgreesIff | frameworks/vulkan_layers/swapchain_layer/swapchain_layer.cpp:1107-1212 | presenting keeps agreement except when a shared swapchain gets its buffer back in another wrapper |
| SwapchainQueue.RewrappedDisagrees | frameworks/vulkan_layers/swapchain_layer/swapchain_layer.cpp:1107-1212 | a concrete run that loses agreement so |
| SwapchainLayer.PresentAllOwned | frameworks/vulkan_layers/swapchain_layer/swapchain_layer.cpp:1171-1212 | a present call of many swapchains keeps ownership |
| SwapchainLayer.PresentKeepsShape | frameworks/vulkan_layers/swapchain_layer/swapchain_layer.cpp:1171-1212 | presenting one swapchain leaves every later entry of the call naming what it named |
| SwapchainLayer.PresentAllResults | frameworks/vulkan_layers/swapchain_layer/swapchain_layer.cpp:1171-1212 | the result of every entry of a present call: out of date exactly when its swapchain is not the active one or the driver failed on it earlier in the call, and so on as for a single one, with the buffers it started from |
| SwapchainLayer.PresentKeepsActive | frameworks/vulkan_layers/swapchain_layer/swapchain_layer.cpp:1171-1212 | the active swapchain stays so unless the driver fails on it, and keeps its buffers |
| SwapchainLayer.Layer.ReleaseSwapchainImage | frameworks/vulkan_layers/swapchain_layer/swapchain_layer.cpp:424-470 | one image and the environment change as in the state machine |
| SwapchainLayer.Layer.ReleaseSwapchain | frameworks/vulkan_layers/swapchain_layer/swapchain_layer.cpp:472-485 | the loop retires the active swapchain and does nothing to another one |
| SwapchainLayer.Layer.CreateImages | frameworks/vulkan_layers/swapchain_layer/swapchain_layer.cpp:783-834 | both loops: dequeue, image, reference until the first failure; then give back |
| SwapchainLayer.Layer.DestroySwapchainInternal | frameworks/vulkan_layers/swapchain_layer/swapchain_layer.cpp:836-861 | every image released, then the slot freed |
| SwapchainLayer.Layer.CreateSwapchainKHR | frameworks/vulkan_layers/swapchain_layer/swapchain_layer.cpp:863-915 | result and state of the creation step, on every early return too |
| SwapchainLayer.Layer.AcquireNextImageKHR | frameworks/vulkan_layers/swapchain_layer/swapchain_layer.cpp:946-1016 | result, index and state of the acquire step |
| SwapchainLayer.Layer.FlushBuffer | frameworks/vulkan_layers/swapchain_layer/swapchain_layer.cpp:1107-1169 | result, image and environment of a flush |
| SwapchainLayer.Layer.QueuePresentKHR | frameworks/vulkan_layers/swapchain_layer/swapchain_layer.cpp:1171-1212 | results and state of presenting the entries in turn; the call returns the last result |
| SurfaceImage.RunConservesIff | frameworks/surfaceimage/src/surface_image.cpp:59-352 | main result: over every run, in all states up to the n-th the live EGL images and syncs are exactly the non-null cached handles, each cached once, if and only if no update up to there terminated the display while something was cached |
| SurfaceImage.RunConserves | frameworks/surfaceimage/src/surface_image.cpp:59-71 | in such a run the destructor leaves nothing alive, and nothing is destroyed twice |
| SurfaceImage.UpdateConservesIff | frameworks/surfaceimage/src/surface_image.cpp:119-148 | an update keeps this exactly when it does not terminate the display while something is cached |
| SurfaceImage.SecondImageTerminates | frameworks/surfaceimage/src/surface_image.cpp:252-270 | a second buffer whose EGL image cannot be created terminates the display: the first image dies and its handle stays cached |
| SurfaceImage.RunHoldsIff | frameworks/surfaceimage/src/surface_image.cpp:89-148 | over every run, in all states up to the n-th exactly the current buffer is held if and only if the queue took back every buffer it was given |
| SurfaceImage.UpdateSucceedsIff | frameworks/surfaceimage/src/surface_image.cpp:119-148 | an update succeeds exactly when EGL is valid, a buffer is acquired, a new one gets an image, and both GL calls succeed |
| SurfaceImage.UpdateResult | frameworks/surfaceimage/src/surface_image.cpp:119-148 | which error an update returns, in every case; without EGL state or buffer nothing changes |
| SurfaceImage.TerminationKills | frameworks/surfaceimage/src/surface_image.cpp:252-270 | an update that terminates the display leaves no image and no sync alive, and the cache as it was |
| SurfaceImage.DestructionCounts | frameworks/surfaceimage/src/surface_image.cpp:59-71 | destroying a handle that is not alive would be counted |
| SurfaceImage.UpdateHoldsIff | frameworks/surfaceimage/src/surface_image.cpp:119-148 | an update keeps this exactly when a buffer it gives back is taken; the current buffer becomes the acquired one on success and stays on failure |
| SurfaceImage.RefusedReleaseHolds | frameworks/surfaceimage/src/surface_image.cpp:89-101 | a concrete update whose release is refused, after which two buffers are held |
| SurfaceImage.FailureRollsBack | frameworks/surfaceimage/src/surface_image.cpp:305-352 | a failed update that did not terminate the display leaves cache, images and syncs as they were, and everything if the buffer could be given back |
| SurfaceImage.NewBufferCleans | frameworks/surfaceimage/src/surface_image.cpp:272-294 | after a new buffer succeeded the cache holds its entry and, unchanged, exactly the others that the queue still caches or could not be asked about |
| SurfaceImage.KnownBufferResyncs | frameworks/surfaceimage/src/surface_image.cpp:338-346 | a known buffer gets a new sync and no other entry changes |
| SurfaceImage.ReleasedWithOwnSync | frameworks/surfaceimage/src/surface_image.cpp:89-101 | the outgoing buffer is released with a fence of its own live sync, or with none when it has no entry or no sync |
| SurfaceImage.Consumer.CheckImageCacheNeedClean | frameworks/surfaceimage/src/surface_image.cpp:272-294 | erasing while iterating does what the specification of the loop says |
| SurfaceImage.Consumer.UpdateEGLImageAndTexture | frameworks/surfaceimage/src/surface_image.cpp:305-352 | result and fields as specified, on every error path |
| SurfaceImage.Consumer.UpdateSurfaceInfo | frameworks/surfaceimage/src/surface_image.cpp:89-117 | the buffer is exchanged |
| SurfaceImage.Consumer.UpdateSurfaceImage | frameworks/surfaceimage/src/surface_image.cpp:119-148 | result and fields as specified, and the balance kept |
| SurfaceImage.Consumer.Destructor | frameworks/surfaceimage/src/surface_image.cpp:59-71 | every cached image and sync is destroyed once |
| Sweep.SweepTakes | rosen/modules/render_service_profiler/rs_profiler.cpp:462-505 | main result: a sweep over n steady nodes takes exactly 64 * (n + 1) frames; after any smaller number it is busy with the subject that this number names, the only node out of the tree; at the end every parent has its children back, up to order |
| Sweep.SweepAt | rosen/modules/render_service_profiler/rs_profiler.cpp:1179-1231 | after the frames of j subjects each of them has been reported with the median of its own frames, in order |
| Sweep.MeasureRestoresIff | rosen/modules/render_service_profiler/rs_profiler.cpp:485-491 | taking a node out and putting it back restores the tree exactly when it is not numbered 1 and the node map finds its parent |
| Sweep.PutFrontMoves | rosen/modules/render_service_base/src/pipeline/rs_render_node.cpp:225-248 | a child that is put back goes in front of the list of its parent, leaving the one it was in, and no other list changes |
| Sweep.PutBackIs | rosen/modules/render_service_profiler/rs_profiler.cpp:485-491 | nothing is put back for the whole frame, for a parent that the map does not find, or for a node that is no longer registered |
| Sweep.RootChildMoves | rosen/modules/render_service_profiler/rs_profiler.cpp:485-491 | a concrete tree whose only child of the global root comes back under the node with id 0 |
| Sweep.OrphanAdopted | rosen/modules/render_service_profiler/rs_profiler.cpp:1192-1219 | a node without parent ends the sweep but stays marked, and after its frames it becomes a child of the node with id 0 |
| Sweep.MedianSplits | rosen/modules/render_service_profiler/rs_profiler.cpp:479-483 | the reported length is a sample with at least 33 samples not above and 32 not below it |
| Sweep.SortedIsPermutation | rosen/modules/render_service_profiler/rs_profiler.cpp:479-479 | sorting yields an ordered permutation |
| Sweep.Measurement.CalcPerfNodeAll | rosen/modules/render_service_profiler/rs_profiler.cpp:1179-1190 | the globals change as at the start of a sweep |
| Sweep.Measurement.CalcPerfNodeAllStep | rosen/modules/render_service_profiler/rs_profiler.cpp:1192-1231 | the globals change as in one step, and the remembered position stays the first |
| Sweep.Measurement.CalcNodeWeightOnFrameEnd | rosen/modules/render_service_profiler/rs_profiler.cpp:462-505 | the globals change as at the end of a frame |
| PerfTree.CountsOnceIff | rosen/modules/render_service_profiler/rs_profiler_base.cpp:896-943 | where full lists of children are up to date, the result is at least the number of drawing nodes reachable through nodes with content, and equal to it exactly when no node that is walked has a disappearing child with a drawing node below |
| PerfTree.LeavingCountedTwice | rosen/modules/render_service_profiler/rs_profiler_base.cpp:896-943 | a concrete tree with one drawing node, disappearing, that is counted twice |
| PerfTree.WeightNone | rosen/modules/render_service_profiler/rs_profiler_base.cpp:896-943 | a count is zero exactly when nothing is drawn |
| PerfTree.FlattenCounts | rosen/modules/render_service_profiler/rs_profiler_base.cpp:896-943 | the result is the number of visits to drawing nodes, whatever had been found before |
| PerfTree.WalkDescribes | rosen/modules/render_service_profiler/rs_profiler_base.cpp:933-941 | the map holds the count of every visited node that has one and nothing else; the set holds exactly those of them that draw or have other than one child |
| PerfTree.SplitsIs | rosen/modules/render_service_profiler/rs_profiler_base.cpp:935-939 | a node is put into the set for drawing itself or for other than one entry in both lists of children together |
| PerfTree.ChainLeadsToSet | rosen/modules/render_service_profiler/rs_profiler_base.cpp:935-939 | from every node with a count, only children lead down to a node in the set with the same count |
| PerfTree.Walk.PerfTreeFlatten | rosen/modules/render_service_profiler/rs_profiler_base.cpp:896-943 | result, set and map as specified |
| Colour.WhiteMapsToWhite | utils/color_manager/src/color_space.cpp:214-243 | for all primaries with non-zero denominators the unadapted matrix sends (1, 1, 1) to the XYZ of the white point |
| Colour.PrimariesMap | utils/color_manager/src/color_space.cpp:214-243 | and each unit vector to a multiple of the XYZ of its own primary, the three multiples adding up to luminance 1, which fixes the matrix |
| Colour.AdaptedPrimariesMap | utils/color_manager/src/color_space.cpp:214-262 | the D50 matrix sends each unit vector where adaptation sends that multiple |
| Colour.AdaptationScalesCones | utils/color_manager/src/color_space.cpp:248-253 | adaptation scales each of the three cone responses by the quotient of those of D50 and of white |
| Colour.AdaptationMapsWhite | utils/color_manager/src/color_space.cpp:248-253 | adaptation sends any adaptable white to one fixed vector |
| Colour.WhiteIsD50 | utils/color_manager/src/color_space.cpp:255-262 | so white comes out independent of the primaries, except where adaptation is skipped |
| Colour.WhiteIsNearD50 | utils/color_manager/src/color_space.cpp:255-262 | and within one millionth of D50 in both cases |
| Colour.InvertIff | utils/color_manager/src/color_space.cpp:270-329 | the result is an inverse on both sides exactly when the determinant is not zero and no guard refuses; otherwise on neither |
| Colour.InvertibleIs | utils/color_manager/src/color_space.cpp:270-329 | nothing refuses exactly when the determinant is not zero and its reciprocal and all nine entries are within the greatest float |
| Colour.WhitePointIsRed | utils/color_manager/export/color_space.h:144-149 | for any matrix that does not divide by zero the computed white point is the chromaticity of the first column, the red primary, and it is that of the image of (1, 1, 1) exactly when the two are parallel |
| Colour.WhitePointNeverRight | utils/color_manager/src/color_space.cpp:150-173 | so it is wrong for every invertible matrix |
| Colour.AdaptedWhitePoint | utils/color_manager/src/color_space.cpp:150-173 | for the D50 matrix of any primaries, as both callers pass one, the result is red although white goes to within one millionth of D50 |
| Colour.UnadaptedWhitePoint | utils/color_manager/export/color_space.h:144-149 | for an unadapted matrix the result is the red primary of the colour space, and right only where that is its white point |
| Colour.SrgbWhitePoint | utils/color_manager/src/color_space.cpp:150-173 | a concrete matrix, sRGB adapted to D50: the white point comes out as x above 0.64 and y below 0.34 |
| Colour.ProductApplies | utils/color_manager/src/color_space.cpp:175-208 | a product of matrices acts as one after the other |
| Colour.Multiply | utils/color_manager/src/color_space.cpp:175-186 | three accumulating loops compute the product |
| PixelMap.CopyImageData | rosen/modules/render_service_profiler/rs_profiler_pixelmap.cpp:103-122 | the destination becomes the repeated source, or nothing is written, exactly when the source is empty or longer |
| PixelMap.AverageBetween | rosen/modules/render_service_profiler/rs_profiler_pixelmap.cpp:75-85 | a miniature channel lies between the least and the greatest sample |
| PixelMap.SamplePlace | rosen/modules/render_service_profiler/rs_profiler_pixelmap.cpp:72-79 | the pixel of a sample is the last one that does not lie behind the sample's share of the image |
| PixelMap.TwoPixelAverage | rosen/modules/render_service_profiler/rs_profiler_pixelmap.cpp:61-87 | of two pixels the miniature takes the middle, rounded down |
| PixelMap.SamplesInsideIff | rosen/modules/render_service_profiler/rs_profiler_pixelmap.cpp:72-79 | every sample is inside the data exactly when the data hold a whole pixel |
| PixelMap.MiniatureRestores | rosen/modules/render_service_profiler/rs_profiler_pixelmap.cpp:61-122 | for an image of one colour the miniature is the colour and tiling it restores the image |
| PixelMap.MiniatureRestoresIff | rosen/modules/render_service_profiler/rs_profiler_pixelmap.cpp:61-122 | tiling its miniature restores an image exactly when every pixel of the image is its first one |
| PixelMap.GenerateMiniature | rosen/modules/render_service_profiler/rs_profiler_pixelmap.cpp:61-87 | the loops compute every channel as the average of its samples, and nothing for empty data |
| PixelMap.ShortDataTakesMemory | rosen/modules/render_service_profiler/rs_profiler_pixelmap.cpp:61-87 | for data shorter than a pixel every channel is a byte of the memory at the same place, behind the data or not |

## Left out

- RecordFile.RSFile.Open: what the fields hold after a file that ends early is not stated, because the code then keeps whatever short reads left in its variables.
- RecordFile.RSFile.ReadHeader: says nothing when the header does not decode, for the same reason.
- RecordFile.RSFile.ReadTrackData: states the delivery for extents that lie in the file and for read positions below 2^32.
- RecordFile.RSFile.ReadHeaders: states the result for an object that holds no layers of its own, since tables are merged into layers that exist, and for a file that decodes.
- RecordFile.RSFile.LayerReadHeader: says nothing when the layer table does not decode, because variables then keep what short reads left.
- RecordFile.RSFile.LayerReadHeaderOfTrack: likewise for an index table.
- Archive.DataArchive.ReadBlob: says nothing about a string that does not fit, whose size was read already.
- CaptureData.Deserialize: says nothing about an archive that ends early, for the same reason.
- ImageCache.ImageCache.Deserialize: says which entries the cache holds only for a file that decodes.
- ExactReopening.RecordingReopensExactly: supposes a file below 4 GiB, since extents and header offset are 32-bit words.
- Reopening.RecordingReopens: leaves the low word of the time of a record at offset 8 open, which ExactReopening.RecordingReopensExactly settles.
- Playback.SortedTrackDue: the limit for render service data already includes the tolerance of 1e-9, because the addition of doubles is not modelled.
- SnapshotStream.Stream.UnmarshalTree: fails at the end of the stream, where the code would go on with zeros, and where a child is listed under a node that does not exist, where the code would use a null pointer.
- SnapshotStream.Stream.UnmarshalNode: fails at the end of the stream too, and then says nothing about the node map; the code would go on with zeros.
- SnapshotStream.Stream.UnmarshalNodes: fails wherever one of its records or trees does.
- SnapshotStream.Stream.AppendChild: follows flag, instance root and first-level node; roots of drawing caches, disappearing children and bookkeeping of extensions are not fields of the model.
- SnapshotStream.Stream.FilterNodeByPid: follows the same fields; callbacks of animations on a node that goes are not modelled.
- Snapshot.RegisterRestores: modifiers are the byte strings of their parcels, in the order in which they are added; sorting draw modifiers by type again is left to the node.
- JsonWriter.WriterPrintsJson: numbers arrive as the tokens a stream formats them to; booleans, which print as numbers, have no call.
- SwapchainQueue.RunAgreesIff: supposes that the queue hands out buffers that are not out, and takes back what is flushed only if it was out.
- SwapchainLayer.Layer.QueuePresentKHR: all entries of a call present to one surface, whose queue and active swapchain are the state of the model.
- SurfaceImage.RunHoldsIff: does not cover buffers acquired through AcquireNativeWindowBuffer, which replaces the current buffer without releasing it.
- Sweep.SweepTakes: nodes with a disappearing transition, which stay listed as disappearing while they are measured, are treated like others.
- Clock.PlaybackClock.PlaybackPauseAt: play positions are ticks; their conversion from seconds, a product of doubles, is not modelled.
- PerfTree.CountsOnceIff: counts are unbounded, and full lists are taken in any order, since the result does not depend on the sorting by depth.
- Colour.InvertIff: rounding of floats is not modelled; leaving the range of a float is.
- Colour.AdaptedWhitePoint: matrices of profiles are taken as they come; how Skia computes them is not part of this model.
- Handles and pointers are numbers that the environment chooses afresh; a driver that returns a live handle again is not modelled.
- Kernel fences: tokens, and whether one is pending is an input.
- Sockets, threads, mutexes, paths and modes of files: calls are atomic steps on bytes.
- The contents of modifiers and parcels, drawing commands and Skia.
- Transfer curves, lookup tables of formats, transforms and extensions.
- Boot animation, capture recorder, telemetry and window manager: input and output only.
- ASTC miniatures, and the choice between raw copies and miniatures.
