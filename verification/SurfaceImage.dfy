/** The EGL images and syncs that a surface image caches by buffer sequence number, and the
    buffers it holds, for every answer that EGL, GL and the buffer queue may give. */
module SurfaceImage {
  import opened Bytes
  import opened OrderedMap

  // --- data ---------------------------------------------------------------------------------

  /** 0 is the null image or sync. */
  datatype ImageCacheSeq = ImageCacheSeq(eglImage: nat, eglSync: nat)

  type Cache = seq<(u32, ImageCacheSeq)>

  /** `images`, `syncs`: what is alive in EGL; `held`: buffers acquired and not yet released;
      `faults`: destructions of something that is not alive. */
  datatype Env = Env(images: set<nat>, syncs: set<nat>, held: set<u32>, faults: nat)

  datatype State = State(cache: Cache, currentImage: u32, currentBuffer: Option<u32>, env: Env)

  const UINT_MAX: u32 := 0xFFFF_FFFF

  const START := State([], UINT_MAX, None, Env({}, {}, {}, 0))

  datatype Error = Ok | EglStateUnknown | NoBuffer | EglApiFailed

  /** What the environment answers to one update: the EGL state, the acquired buffer, the created
      image and sync, the two GL calls, the queue's answers about other buffers (in its cache,
      query failed, or else gone), and whether a buffer could be released. */
  datatype Answers = Answers(
    eglValid: bool, acquired: Option<u32>, image: nat, bindOk: bool, targetOk: bool, sync: nat,
    inCache: set<u32>, unknown: set<u32>, releaseOk: bool)

  // --- effects on the environment --------------------------------------------------------------

  function DestroyImage(env: Env, x: nat): Env {
    if x == 0 then env
    else if x in env.images then env.(images := env.images - {x})
    else env.(faults := env.faults + 1)
  }

  function DestroySync(env: Env, x: nat): Env {
    if x == 0 then env
    else if x in env.syncs then env.(syncs := env.syncs - {x})
    else env.(faults := env.faults + 1)
  }

  function Release(env: Env, buffer: Option<u32>, ok: bool): Env {
    if ok && buffer.Some? then env.(held := env.held - {buffer.value}) else env
  }

  // --- the calls ------------------------------------------------------------------------------------

  predicate SeqLess(a: u32, b: u32) {
    a < b
  }

  function Find(cache: Cache, k: u32): (i: nat)
    ensures i <= |cache|
    ensures forall j :: 0 <= j < i ==> cache[j].0 != k
    ensures i < |cache| ==> cache[i].0 == k
  {
    if cache == [] || cache[0].0 == k then 0 else 1 + Find(cache[1..], k)
  }

  function Erase(cache: Cache, i: nat): (r: Cache)
    requires i < |cache|
    ensures |r| == |cache| - 1
  {
    cache[..i] + cache[i + 1..]
  }

  predicate Stays(a: Answers, k: u32) {
    k in a.unknown || k in a.inCache
  }

  /** The cleaning loop at iterator `i`: entries of other buffers that the queue has dropped. */
  function Clean(s: State, keep: u32, a: Answers, i: nat): State
    decreases |s.cache| - i
  {
    if i >= |s.cache| then s
    else if s.cache[i].0 == keep || Stays(a, s.cache[i].0) then Clean(s, keep, a, i + 1)
    else
      var e := s.cache[i].1;
      Clean(s.(cache := Erase(s.cache, i), env := DestroySync(DestroyImage(s.env, e.eglImage), e.eglSync)), keep, a, i)
  }

  /** The image goes, the entry goes; a sync is not looked at. */
  function DestroyEGLImage(s: State, k: u32): State {
    var i := Find(s.cache, k);
    if i == |s.cache| then s
    else s.(cache := Erase(s.cache, i), env := DestroyImage(s.env, s.cache[i].1.eglImage))
  }

  /** When no image can be made, the whole display is terminated. */
  function Terminate(s: State): State {
    s.(env := s.env.(images := {}, syncs := {}))
  }

  /** Makes an image for a buffer that has none. */
  function Insert(s: State, k: u32, image: nat): State {
    s.(cache := Put(SeqLess, s.cache, k, ImageCacheSeq(image, 0), true),
       env := s.env.(images := s.env.images + {image}))
  }

  /** A new sync replaces the entry's old one. */
  function Resync(s: State, i: nat, sync: nat): State
    requires i < |s.cache|
  {
    var env := DestroySync(s.env, s.cache[i].1.eglSync);
    s.(cache := s.cache[i := (s.cache[i].0, s.cache[i].1.(eglSync := sync))],
       env := if sync == 0 then env else env.(syncs := env.syncs + {sync}))
  }

  lemma {:induction false} PutFinds(cache: Cache, k: u32, e: ImageCacheSeq)
    ensures Find(Put(SeqLess, cache, k, e, true), k) < |Put(SeqLess, cache, k, e, true)|
  {
    if cache != [] && SeqLess(cache[0].0, k) {
      PutFinds(cache[1..], k, e);
      assert Put(SeqLess, cache, k, e, true)[1..] == Put(SeqLess, cache[1..], k, e, true);
    }
  }

  /** `UpdateEGLImageAndTexture`. */
  function Texture(s: State, k: u32, a: Answers): (State, Error) {
    var isNew := Find(s.cache, k) == |s.cache|;
    if isNew && a.image == 0 then (Terminate(s), EglApiFailed)
    else
      var t := if isNew then Insert(s, k, a.image) else s;
      if !a.bindOk || !a.targetOk then (if isNew then DestroyEGLImage(t, k) else t, EglApiFailed)
      else
        PutFinds(s.cache, k, ImageCacheSeq(a.image, 0));
        var u := Resync(t, Find(t.cache, k), a.sync);
        (if isNew then Clean(u, k, a, 0) else u, Ok)
  }

  /** `UpdateSurfaceInfo`: the outgoing buffer is released, with a fence made of the returned sync. */
  function Exchange(s: State, k: u32, a: Answers): (State, nat) {
    var i := Find(s.cache, s.currentImage);
    var sync := if i < |s.cache| then s.cache[i].1.eglSync else 0;
    (s.(currentImage := k, currentBuffer := Some(k), env := Release(s.env, s.currentBuffer, a.releaseOk)), sync)
  }

  function Update(s: State, a: Answers): (State, Error) {
    if !a.eglValid then (s, EglStateUnknown)
    else if a.acquired.None? then (s, NoBuffer)
    else
      var k := a.acquired.value;
      var t := Texture(s.(env := s.env.(held := s.env.held + {k})), k, a);
      if t.1 != Ok then (t.0.(env := Release(t.0.env, Some(k), a.releaseOk)), t.1)
      else (Exchange(t.0, k, a).0, Ok)
  }

  /** The destructor's loop over the entries. */
  function Finish(env: Env, cache: Cache, i: nat): Env
    decreases |cache| - i
  {
    if i >= |cache| then env
    else Finish(DestroySync(DestroyImage(env, cache[i].1.eglImage), cache[i].1.eglSync), cache, i + 1)
  }

  // --- who owns what -------------------------------------------------------------------------------------

  function ImageOf(e: ImageCacheSeq): nat {
    e.eglImage
  }

  function SyncOf(e: ImageCacheSeq): nat {
    e.eglSync
  }

  function Single(x: nat): multiset<nat> {
    if x == 0 then multiset{} else multiset{x}
  }

  /** The non-null handles of a cache, as often as they occur. */
  function Handles(f: ImageCacheSeq -> nat, cache: Cache): multiset<nat> {
    if cache == [] then multiset{} else Single(f(cache[0].1)) + Handles(f, cache[1..])
  }

  /** What is alive is exactly what the cache refers to, each by one entry. */
  ghost predicate Owns(f: ImageCacheSeq -> nat, cache: Cache, live: set<nat>) {
    Handles(f, cache) == multiset(live) && 0 !in live
  }

  ghost predicate Conserved(s: State) {
    && Sorted(SeqLess, s.cache)
    && (forall i :: 0 <= i < |s.cache| ==> s.cache[i].1.eglImage != 0)
    && Owns(ImageOf, s.cache, s.env.images)
    && Owns(SyncOf, s.cache, s.env.syncs)
  }

  /** Exactly the current buffer is held. */
  ghost predicate HoldsCurrent(s: State) {
    && s.env.held == (if s.currentBuffer.Some? then {s.currentBuffer.value} else {})
    && (s.currentBuffer.Some? ==> s.currentImage == s.currentBuffer.value)
  }

  /** The queue hands out buffers that are not held, EGL handles that are not alive. */
  ghost predicate Legal(s: State, a: Answers) {
    && (a.acquired.Some? ==> a.acquired.value !in s.env.held)
    && a.image !in s.env.images && a.sync !in s.env.syncs
  }

  /** The update that ends in terminating the display. */
  predicate Terminates(s: State, a: Answers) {
    a.eglValid && a.acquired.Some? && Find(s.cache, a.acquired.value) == |s.cache| && a.image == 0
  }

  lemma {:induction false} HandlesConcat(f: ImageCacheSeq -> nat, a: Cache, b: Cache)
    ensures Handles(f, a + b) == Handles(f, a) + Handles(f, b)
    decreases |a|
  {
    if a == [] {
      assert a + b == b;
    } else {
      assert (a + b)[1..] == a[1..] + b;
      HandlesConcat(f, a[1..], b);
    }
  }

  lemma HandlesSplit(f: ImageCacheSeq -> nat, cache: Cache, i: nat)
    requires i < |cache|
    ensures Handles(f, cache) == Single(f(cache[i].1)) + Handles(f, Erase(cache, i))
  {
    hide Single;
    var head, tail := cache[..i], cache[i..];
    assert cache == head + tail;
    assert Handles(f, tail) == Single(f(cache[i].1)) + Handles(f, cache[i + 1..]) by {
      assert tail[0] == cache[i] && tail[1..] == cache[i + 1..];
    }
    hide Handles;
    HandlesConcat(f, head, tail);
    HandlesConcat(f, head, cache[i + 1..]);
  }

  lemma OwnedErase(f: ImageCacheSeq -> nat, cache: Cache, live: set<nat>, i: nat)
    requires Owns(f, cache, live) && i < |cache|
    ensures f(cache[i].1) == 0 || f(cache[i].1) in live
    ensures Owns(f, Erase(cache, i), live - {f(cache[i].1)})
  {
    hide Handles, Erase;
    var x := f(cache[i].1);
    HandlesSplit(f, cache, i);
    assert x == 0 || x in multiset(live);
    forall y: nat
      ensures Handles(f, Erase(cache, i))[y] == multiset(live - {x})[y]
    {
      assert (Single(x) + Handles(f, Erase(cache, i)))[y] == multiset(live)[y];
    }
  }

  lemma OwnedSet(f: ImageCacheSeq -> nat, cache: Cache, live: set<nat>, i: nat, e: ImageCacheSeq)
    requires Owns(f, cache, live) && i < |cache|
    requires f(e) == 0 || f(e) !in live - {f(cache[i].1)}
    ensures Owns(f, cache[i := (cache[i].0, e)], live - {f(cache[i].1)} + (if f(e) == 0 then {} else {f(e)}))
  {
    hide Handles;
    var after := cache[i := (cache[i].0, e)];
    OwnedErase(f, cache, live, i);
    HandlesSplit(f, after, i);
    assert Erase(after, i) == Erase(cache, i);
    OwnedAdd(f, Erase(cache, i), live - {f(cache[i].1)}, after, f(e));
  }

  lemma OwnedAdd(f: ImageCacheSeq -> nat, cache: Cache, live: set<nat>, after: Cache, x: nat)
    requires Owns(f, cache, live) && (x == 0 || x !in live)
    requires Handles(f, after) == Single(x) + Handles(f, cache)
    ensures Owns(f, after, live + (if x == 0 then {} else {x}))
  {
    hide Handles;
    forall y: nat
      ensures Handles(f, after)[y] == multiset(live + (if x == 0 then {} else {x}))[y]
    {
      assert Handles(f, cache)[y] == multiset(live)[y];
    }
  }

  // --- the cache as an ordered map ------------------------------------------------------------------------

  lemma {:induction false} PutSplits(cache: Cache, k: u32, e: ImageCacheSeq) returns (i: nat)
    requires Sorted(SeqLess, cache) && Find(cache, k) == |cache|
    ensures i <= |cache| && Put(SeqLess, cache, k, e, true) == cache[..i] + [(k, e)] + cache[i..]
    ensures forall j :: 0 <= j < i ==> SeqLess(cache[j].0, k)
    ensures forall j :: i <= j < |cache| ==> SeqLess(k, cache[j].0)
    decreases |cache|
  {
    if cache == [] || SeqLess(k, cache[0].0) {
      i := 0;
    } else {
      assert cache[0].0 != k;
      i := PutSplits(cache[1..], k, e);
      assert cache[..i + 1] == [cache[0]] + cache[1..][..i];
      assert cache[i + 1..] == cache[1..][i..];
      i := i + 1;
    }
  }

  lemma SortedInsert(cache: Cache, i: nat, q: (u32, ImageCacheSeq), after: Cache)
    requires Sorted(SeqLess, cache) && i <= |cache| && |after| == |cache| + 1 && after[i] == q
    requires forall j :: 0 <= j < i ==> after[j] == cache[j] && SeqLess(cache[j].0, q.0)
    requires forall j :: i <= j < |cache| ==> after[j + 1] == cache[j] && SeqLess(q.0, cache[j].0)
    ensures Sorted(SeqLess, after)
  {
    forall j, l | 0 <= j < l < |after|
      ensures SeqLess(after[j].0, after[l].0)
    {
      if l > i {
        assert after[(l - 1) + 1] == cache[l - 1];
      }
      if j > i {
        assert after[(j - 1) + 1] == cache[j - 1];
      }
    }
  }

  lemma EraseInserted(cache: Cache, i: nat, q: (u32, ImageCacheSeq))
    requires i <= |cache|
    ensures var after := cache[..i] + [q] + cache[i..];
      && |after| == |cache| + 1 && after[i] == q && Erase(after, i) == cache
      && (forall j :: 0 <= j < i ==> after[j] == cache[j])
      && (forall j :: i <= j < |cache| ==> after[j + 1] == cache[j])
  {
    var after := cache[..i] + [q] + cache[i..];
    assert after[..i] == cache[..i] && after[i + 1..] == cache[i..];
    assert cache[..i] + cache[i..] == cache;
  }

  /** A buffer without entry gets one, and its erasure gives the old cache back. */
  lemma InsertErase(cache: Cache, k: u32, e: ImageCacheSeq)
    requires Sorted(SeqLess, cache) && Find(cache, k) == |cache|
    ensures var after := Put(SeqLess, cache, k, e, true);
      var i := Find(after, k);
      && i < |after| && after[i] == (k, e) && Erase(after, i) == cache && Sorted(SeqLess, after)
  {
    hide Put, Sorted, Erase, Find;
    var i := PutSplits(cache, k, e);
    var after := Put(SeqLess, cache, k, e, true);
    EraseInserted(cache, i, (k, e));
    SortedInsert(cache, i, (k, e), after);
    assert forall j :: 0 <= j < i ==> after[j].0 != k;
    assert Find(after, k) == i;
  }

  lemma SortedErase(cache: Cache, i: nat)
    requires Sorted(SeqLess, cache) && i < |cache|
    ensures Sorted(SeqLess, Erase(cache, i))
  {
  }

  lemma SortedSet(cache: Cache, i: nat, e: ImageCacheSeq)
    requires Sorted(SeqLess, cache) && i < |cache|
    ensures Sorted(SeqLess, cache[i := (cache[i].0, e)])
  {
  }

  // --- conservation --------------------------------------------------------------------------------------------

  lemma InsertConserves(s: State, k: u32, image: nat)
    requires Conserved(s) && Find(s.cache, k) == |s.cache| && image != 0 && image !in s.env.images
    ensures var t := Insert(s, k, image);
      && Conserved(t) && t.env.faults == s.env.faults
      && Find(t.cache, k) < |t.cache| && DestroyEGLImage(t, k) == s
  {
    hide Handles, Find, Erase, Put;
    var e := ImageCacheSeq(image, 0);
    var t := Insert(s, k, image);
    InsertErase(s.cache, k, e);
    var i := Find(t.cache, k);
    HandlesSplit(ImageOf, t.cache, i);
    HandlesSplit(SyncOf, t.cache, i);
    OwnedAdd(ImageOf, s.cache, s.env.images, t.cache, image);
    OwnedAdd(SyncOf, s.cache, s.env.syncs, t.cache, 0);
    ImagesNonNull(t.cache, i);
  }

  lemma ImagesNonNull(cache: Cache, i: nat)
    requires i < |cache| && cache[i].1.eglImage != 0
    requires forall j :: 0 <= j < |Erase(cache, i)| ==> Erase(cache, i)[j].1.eglImage != 0
    ensures forall j :: 0 <= j < |cache| ==> cache[j].1.eglImage != 0
  {
    forall j | 0 <= j < |cache|
      ensures cache[j].1.eglImage != 0
    {
      if j < i {
        assert cache[j] == Erase(cache, i)[j];
      } else if j > i {
        assert cache[j] == Erase(cache, i)[j - 1];
      }
    }
  }

  lemma ResyncConserves(s: State, i: nat, sync: nat)
    requires Conserved(s) && i < |s.cache| && sync !in s.env.syncs
    ensures Conserved(Resync(s, i, sync)) && Resync(s, i, sync).env.faults == s.env.faults
  {
    hide Handles;
    var e := s.cache[i].1.(eglSync := sync);
    OwnedErase(SyncOf, s.cache, s.env.syncs, i);
    OwnedSet(SyncOf, s.cache, s.env.syncs, i, e);
    OwnedErase(ImageOf, s.cache, s.env.images, i);
    OwnedSet(ImageOf, s.cache, s.env.images, i, e);
    assert s.env.images - {e.eglImage} + {e.eglImage} == s.env.images;
    SortedSet(s.cache, i, e);
    assert Resync(s, i, sync).env.syncs
        == s.env.syncs - {s.cache[i].1.eglSync} + (if sync == 0 then {} else {sync});
  }

  lemma {:induction false} CleanConserves(s: State, keep: u32, a: Answers, i: nat)
    requires Conserved(s)
    ensures Conserved(Clean(s, keep, a, i)) && Clean(s, keep, a, i).env.faults == s.env.faults
    decreases |s.cache| - i
  {
    hide Handles, Stays;
    if i < |s.cache| {
      if s.cache[i].0 == keep || Stays(a, s.cache[i].0) {
        CleanConserves(s, keep, a, i + 1);
      } else {
        var e := s.cache[i].1;
        OwnedErase(ImageOf, s.cache, s.env.images, i);
        OwnedErase(SyncOf, s.cache, s.env.syncs, i);
        assert s.env.syncs - {0} == s.env.syncs;
        SortedErase(s.cache, i);
        CleanConserves(s.(cache := Erase(s.cache, i), env := DestroySync(DestroyImage(s.env, e.eglImage), e.eglSync)),
                       keep, a, i);
      }
    }
  }

  /** Every path keeps the balance, whatever fails, except terminating the display while something
      is cached; nothing is ever destroyed twice. */
  lemma TextureConserves(s: State, k: u32, a: Answers)
    requires Conserved(s) && a.image !in s.env.images && a.sync !in s.env.syncs
    ensures var lost := Find(s.cache, k) == |s.cache| && a.image == 0 && s.cache != [];
      Conserved(Texture(s, k, a).0) <==> !lost
    ensures Texture(s, k, a).0.env.faults == s.env.faults
  {
    hide Handles, Find, Erase, Put, Clean, Conserved, Insert, Resync, DestroyEGLImage;
    if Find(s.cache, k) == |s.cache| {
      if a.image == 0 {
        TerminateConservesIff(s);
      } else {
        InsertConserves(s, k, a.image);
        var t := Insert(s, k, a.image);
        assert t.env.syncs == s.env.syncs by { InsertSyncs(s, k, a.image); }
        ResyncConserves(t, Find(t.cache, k), a.sync);
        CleanConserves(Resync(t, Find(t.cache, k), a.sync), k, a, 0);
      }
    } else {
      ResyncConserves(s, Find(s.cache, k), a.sync);
    }
  }

  lemma InsertSyncs(s: State, k: u32, image: nat)
    ensures Insert(s, k, image).env.syncs == s.env.syncs
  {
  }

  lemma TerminateConservesIff(s: State)
    requires Conserved(s)
    ensures Conserved(Terminate(s)) <==> s.cache == []
  {
    if s.cache != [] {
      assert s.cache[0].1.eglImage in Handles(ImageOf, s.cache);
    }
  }

  /** One update keeps the balance unless it terminates the display while something is cached. */
  lemma UpdateConservesIff(s: State, a: Answers)
    requires Conserved(s) && Legal(s, a)
    ensures Conserved(Update(s, a).0) <==> !(Terminates(s, a) && s.cache != [])
    ensures Update(s, a).0.env.faults == s.env.faults
  {
    hide Texture, Owns, Find;
    if a.eglValid && a.acquired.Some? {
      TextureConserves(s.(env := s.env.(held := s.env.held + {a.acquired.value})), a.acquired.value, a);
    }
  }

  // --- buffers -----------------------------------------------------------------------------------------------------

  lemma {:induction false} CleanTouches(s: State, keep: u32, a: Answers, i: nat)
    ensures var t := Clean(s, keep, a, i);
      && t.currentImage == s.currentImage && t.currentBuffer == s.currentBuffer && t.env.held == s.env.held
    decreases |s.cache| - i
  {
    hide Stays;
    if i < |s.cache| {
      if s.cache[i].0 == keep || Stays(a, s.cache[i].0) {
        CleanTouches(s, keep, a, i + 1);
      } else {
        var e := s.cache[i].1;
        CleanTouches(s.(cache := Erase(s.cache, i), env := DestroySync(DestroyImage(s.env, e.eglImage), e.eglSync)),
                     keep, a, i);
      }
    }
  }

  lemma TextureTouches(s: State, k: u32, a: Answers)
    ensures var t := Texture(s, k, a).0;
      && t.currentImage == s.currentImage && t.currentBuffer == s.currentBuffer && t.env.held == s.env.held
  {
    hide Clean, Find, Erase, Put;
    var t := if Find(s.cache, k) == |s.cache| then Insert(s, k, a.image) else s;
    PutFinds(s.cache, k, ImageCacheSeq(a.image, 0));
    if Find(t.cache, k) < |t.cache| {
      CleanTouches(Resync(t, Find(t.cache, k), a.sync), k, a, 0);
    }
  }

  /** The update gets its buffer onto the texture. */
  predicate Succeeds(s: State, a: Answers) {
    && a.eglValid && a.acquired.Some? && a.bindOk && a.targetOk
    && (Find(s.cache, a.acquired.value) == |s.cache| ==> a.image != 0)
  }

  lemma UpdateSucceedsIff(s: State, a: Answers)
    ensures Update(s, a).1 == Ok <==> Succeeds(s, a)
  {
    hide Clean, Find, Put;
  }

  /** The result says how far the update came: a bad EGL state, no buffer, or a failed call of EGL or
      GL. */
  lemma UpdateResult(s: State, a: Answers)
    ensures var r := Update(s, a).1;
      && (r == EglStateUnknown <==> !a.eglValid)
      && (r == NoBuffer <==> a.eglValid && a.acquired.None?)
      && (r == EglApiFailed <==> a.eglValid && a.acquired.Some? && !Succeeds(s, a))
    ensures !a.eglValid || a.acquired.None? ==> Update(s, a).0 == s
  {
    hide Clean, Find, Put;
    UpdateSucceedsIff(s, a);
  }

  /** Destroying a handle that is not alive is counted, once, and changes nothing else; destroying a
      live one ends it; the null handle is left alone. */
  lemma DestructionCounts(env: Env, x: nat)
    ensures DestroyImage(env, x)
         == if x == 0 then env else Env(env.images - {x}, env.syncs, env.held, env.faults + (if x in env.images then 0 else 1))
    ensures DestroySync(env, x)
         == if x == 0 then env else Env(env.images, env.syncs - {x}, env.held, env.faults + (if x in env.syncs then 0 else 1))
  {
    assert x !in env.images ==> env.images - {x} == env.images;
    assert x !in env.syncs ==> env.syncs - {x} == env.syncs;
  }

  /** When no image can be made for a new buffer the display is terminated: everything on it dies, the
      cache keeps its handles, and the buffer is given back. */
  lemma TerminationKills(s: State, a: Answers)
    requires Terminates(s, a)
    ensures var held := s.env.held + {a.acquired.value};
      Update(s, a).0 == s.(env := Env({}, {}, if a.releaseOk then held - {a.acquired.value} else held, s.env.faults))
  {
    hide Find;
  }

  /** The update gives a buffer back: the one before on success, the acquired one on failure. */
  predicate Releases(s: State, a: Answers) {
    a.eglValid && a.acquired.Some? && (Succeeds(s, a) ==> s.currentBuffer.Some?)
  }

  /** Exactly the current buffer stays held, unless the queue refuses to take a buffer back. */
  lemma UpdateHoldsIff(s: State, a: Answers)
    requires HoldsCurrent(s) && Legal(s, a)
    ensures HoldsCurrent(Update(s, a).0) <==> (Releases(s, a) ==> a.releaseOk)
    ensures Update(s, a).1 == Ok ==> Update(s, a).0.currentBuffer == a.acquired
    ensures Update(s, a).1 != Ok ==> Update(s, a).0.currentBuffer == s.currentBuffer
  {
    hide Texture, Find;
    UpdateSucceedsIff(s, a);
    if a.eglValid && a.acquired.Some? {
      var k := a.acquired.value;
      TextureTouches(s.(env := s.env.(held := s.env.held + {k})), k, a);
      assert k in s.env.held + {k};
      if s.currentBuffer.Some? {
        assert s.currentBuffer.value in s.env.held;
      }
    }
  }

  // --- what an update does to the cache -----------------------------------------------------------------------

  /** A failed update that did not terminate the display leaves cache, images and syncs as they
      were, and everything if the buffer could be given back. */
  lemma FailureRollsBack(s: State, a: Answers)
    requires Conserved(s) && Legal(s, a)
    requires Update(s, a).1 != Ok && !Terminates(s, a)
    ensures var t := Update(s, a).0;
      && t.cache == s.cache && t.env.images == s.env.images && t.env.syncs == s.env.syncs
      && (a.releaseOk ==> t == s)
  {
    hide Owns, Find, Erase, Put, Insert, DestroyEGLImage, Resync, Clean;
    if a.eglValid && a.acquired.Some? {
      var k := a.acquired.value;
      var s1 := s.(env := s.env.(held := s.env.held + {k}));
      assert s.env.held + {k} - {k} == s.env.held;
      if Find(s.cache, k) == |s.cache| {
        InsertConserves(s1, k, a.image);
      }
    }
  }

  /** Cleaning from `i` on keeps exactly the entries that are to stay, as they are and in order. */
  function Filter(cache: Cache, keep: u32, a: Answers): Cache {
    if cache == [] then []
    else (if cache[0].0 == keep || Stays(a, cache[0].0) then [cache[0]] else []) + Filter(cache[1..], keep, a)
  }

  lemma {:induction false} CleanFilters(s: State, keep: u32, a: Answers, i: nat)
    requires i <= |s.cache|
    ensures Clean(s, keep, a, i).cache == s.cache[..i] + Filter(s.cache[i..], keep, a)
    decreases |s.cache| - i
  {
    hide Stays;
    if i < |s.cache| {
      assert s.cache[i..][1..] == s.cache[i + 1..];
      if s.cache[i].0 == keep || Stays(a, s.cache[i].0) {
        CleanFilters(s, keep, a, i + 1);
        assert s.cache[..i + 1] == s.cache[..i] + [s.cache[i]];
      } else {
        var e := s.cache[i].1;
        var t := s.(cache := Erase(s.cache, i), env := DestroySync(DestroyImage(s.env, e.eglImage), e.eglSync));
        CleanFilters(t, keep, a, i);
        assert t.cache[..i] == s.cache[..i] && t.cache[i..] == s.cache[i + 1..];
      }
    } else {
      assert s.cache[..i] + [] == s.cache;
    }
  }

  lemma {:induction false} FilterMember(cache: Cache, keep: u32, a: Answers, p: (u32, ImageCacheSeq))
    ensures p in Filter(cache, keep, a) <==> p in cache && (p.0 == keep || Stays(a, p.0))
  {
    hide Stays;
    if cache != [] {
      FilterMember(cache[1..], keep, a, p);
      assert p in cache <==> p == cache[0] || p in cache[1..];
    }
  }

  /** After a new buffer has succeeded, the cache holds its entry and, unchanged, exactly those
      others that the queue still caches or could not be asked about. */
  lemma NewBufferCleans(s: State, a: Answers, p: (u32, ImageCacheSeq))
    requires Conserved(s) && Legal(s, a) && Update(s, a).1 == Ok
    requires Find(s.cache, a.acquired.value) == |s.cache|
    ensures var k := a.acquired.value;
      p in Update(s, a).0.cache <==>
        p == (k, ImageCacheSeq(a.image, a.sync)) || (p in s.cache && (p.0 in a.inCache || p.0 in a.unknown))
  {
    hide Owns, Find, Put, Clean, Filter, Erase;
    var k := a.acquired.value;
    var e := ImageCacheSeq(a.image, 0);
    var t := Insert(s.(env := s.env.(held := s.env.held + {k})), k, a.image);
    InsertErase(s.cache, k, e);
    var i := Find(t.cache, k);
    var u := Resync(t, i, a.sync);
    CleanFilters(u, k, a, 0);
    assert u.cache[..0] + Filter(u.cache[0..], k, a) == Filter(u.cache, k, a) by {
      assert u.cache[0..] == u.cache;
    }
    FilterMember(u.cache, k, a, p);
    SetMember(t.cache, i, (k, ImageCacheSeq(a.image, a.sync)), p);
    assert Update(s, a).0.cache == Filter(u.cache, k, a);
    assert Find(s.cache, k) == |s.cache|;
  }

  lemma SetMember(cache: Cache, i: nat, q: (u32, ImageCacheSeq), p: (u32, ImageCacheSeq))
    requires i < |cache|
    ensures p in cache[i := q] <==> p == q || p in Erase(cache, i)
  {
    var after := cache[i := q];
    assert Erase(after, i) == Erase(cache, i);
    assert after == after[..i] + [q] + after[i + 1..];
  }

  /** A buffer that has an entry keeps it but for the sync, and no other entry changes. */
  lemma KnownBufferResyncs(s: State, a: Answers)
    requires Update(s, a).1 == Ok && Find(s.cache, a.acquired.value) < |s.cache|
    ensures var i := Find(s.cache, a.acquired.value);
      Update(s, a).0.cache == s.cache[i := (a.acquired.value, s.cache[i].1.(eglSync := a.sync))]
  {
    hide Clean, Put, Erase;
  }

  /** The outgoing buffer is released with a fence of its own sync, which is alive, or with none. */
  lemma ReleasedWithOwnSync(s: State, k: u32, a: Answers)
    requires Conserved(s)
    ensures var sync := Exchange(s, k, a).1;
      && (sync != 0 ==> sync in s.env.syncs)
      && (sync != 0 <==> exists e: ImageCacheSeq :: (s.currentImage, e) in s.cache && e.eglSync != 0)
      && (sync != 0 ==> exists e: ImageCacheSeq :: (s.currentImage, e) in s.cache && e.eglSync == sync)
  {
    hide Handles;
    var i := Find(s.cache, s.currentImage);
    if i < |s.cache| {
      OwnedErase(SyncOf, s.cache, s.env.syncs, i);
      assert (s.currentImage, s.cache[i].1) in s.cache;
      forall j | 0 <= j < |s.cache| && j != i
        ensures s.cache[j].0 != s.cache[i].0
      {
        if j < i {
          assert SeqLess(s.cache[j].0, s.cache[i].0);
        } else {
          assert SeqLess(s.cache[i].0, s.cache[j].0);
        }
      }
    }
  }

  // --- the destructor and runs ------------------------------------------------------------------------------------

  lemma {:induction false} FinishEmpties(env: Env, cache: Cache, i: nat)
    requires i <= |cache| && Owns(ImageOf, cache[i..], env.images) && Owns(SyncOf, cache[i..], env.syncs)
    ensures Finish(env, cache, i) == env.(images := {}, syncs := {})
    decreases |cache| - i
  {
    hide Owns, Handles;
    var rest := cache[i..];
    if i < |cache| {
      OwnedErase(ImageOf, rest, env.images, 0);
      OwnedErase(SyncOf, rest, env.syncs, 0);
      assert Erase(rest, 0) == cache[i + 1..];
      NullNotOwned(ImageOf, rest, env.images);
      NullNotOwned(SyncOf, rest, env.syncs);
      FinishEmpties(DestroySync(DestroyImage(env, rest[0].1.eglImage), rest[0].1.eglSync), cache, i + 1);
    } else {
      NothingOwned(ImageOf, env.images);
      NothingOwned(SyncOf, env.syncs);
    }
  }

  lemma NullNotOwned(f: ImageCacheSeq -> nat, cache: Cache, live: set<nat>)
    requires Owns(f, cache, live)
    ensures live - {0} == live
  {
  }

  lemma NothingOwned(f: ImageCacheSeq -> nat, live: set<nat>)
    requires Owns(f, [], live)
    ensures live == {}
  {
    assert multiset(live) == multiset{};
    assert forall x :: x in live ==> x in multiset(live);
  }

  lemma ConservedFinishes(s: State)
    requires Conserved(s)
    ensures Finish(s.env, s.cache, 0) == s.env.(images := {}, syncs := {})
  {
    hide Owns;
    assert s.cache[0..] == s.cache;
    FinishEmpties(s.env, s.cache, 0);
  }

  /** `states` are the states of a run of updates. */
  ghost predicate IsRun(states: seq<State>, answers: seq<Answers>) {
    && |states| == |answers| + 1 && states[0] == START
    && forall n :: 0 <= n < |answers| ==>
         Legal(states[n], answers[n]) && states[n + 1] == Update(states[n], answers[n]).0
  }

  /** As long as the balance holds, nothing is destroyed that is not alive. */
  lemma {:induction false} RunFaults(states: seq<State>, answers: seq<Answers>, n: nat)
    requires IsRun(states, answers) && n < |states| && ConservedUpTo(states, n)
    ensures states[n].env.faults == 0
  {
    hide Update, Legal, Conserved;
    if n > 0 {
      RunFaults(states, answers, n - 1);
      UpdateConservesIff(states[n - 1], answers[n - 1]);
    }
  }

  ghost predicate ConservedUpTo(states: seq<State>, n: nat)
    requires n < |states|
  {
    forall k :: 0 <= k <= n ==> Conserved(states[k])
  }

  /** No update terminates the display while something is cached. */
  ghost predicate SparedUpTo(states: seq<State>, answers: seq<Answers>, n: nat)
    requires n <= |answers| < |states|
  {
    forall k :: 0 <= k < n ==> Terminates(states[k], answers[k]) ==> states[k].cache == []
  }

  lemma OneMoreConserved(states: seq<State>, answers: seq<Answers>, n: nat)
    requires 0 < n <= |answers| < |states|
    ensures ConservedUpTo(states, n) <==> ConservedUpTo(states, n - 1) && Conserved(states[n])
    ensures SparedUpTo(states, answers, n) <==>
      SparedUpTo(states, answers, n - 1) && (Terminates(states[n - 1], answers[n - 1]) ==> states[n - 1].cache == [])
    ensures ConservedUpTo(states, n - 1) ==> Conserved(states[n - 1])
  {
    hide Conserved, Terminates;
  }

  /** The main result: over every run, in every state up to the `n`-th the live images and syncs are
      the cached handles if and only if no update terminated the display while something was cached. */
  lemma {:induction false} RunConservesIff(states: seq<State>, answers: seq<Answers>, n: nat)
    requires IsRun(states, answers) && n < |states|
    ensures ConservedUpTo(states, n) <==> SparedUpTo(states, answers, n)
  {
    hide Update, Legal, Conserved, Terminates;
    if n == 0 {
      StartConserved();
    } else {
      hide ConservedUpTo, SparedUpTo;
      RunConservesIff(states, answers, n - 1);
      OneMoreConserved(states, answers, n);
      if ConservedUpTo(states, n - 1) {
        UpdateConservesIff(states[n - 1], answers[n - 1]);
      }
    }
  }

  /** Then the destructor leaves nothing alive, and nothing is destroyed twice. */
  lemma RunConserves(states: seq<State>, answers: seq<Answers>, n: nat)
    requires IsRun(states, answers) && n < |states|
    requires forall k :: 0 <= k < n ==> Terminates(states[k], answers[k]) ==> states[k].cache == []
    ensures Conserved(states[n]) && states[n].env.faults == 0
    ensures Finish(states[n].env, states[n].cache, 0) == states[n].env.(images := {}, syncs := {})
  {
    hide Update, Legal, Owns, IsRun, Terminates;
    RunConservesIff(states, answers, n);
    RunFaults(states, answers, n);
    ConservedFinishes(states[n]);
  }

  lemma StartOwnsNothing()
    ensures Owns(ImageOf, [], {}) && Owns(SyncOf, [], {})
  {
  }

  ghost predicate HeldUpTo(states: seq<State>, n: nat)
    requires n < |states|
  {
    forall k :: 0 <= k <= n ==> HoldsCurrent(states[k])
  }

  /** The queue takes every buffer back that it is given. */
  ghost predicate TakenUpTo(states: seq<State>, answers: seq<Answers>, n: nat)
    requires n <= |answers| < |states|
  {
    forall k :: 0 <= k < n ==> Releases(states[k], answers[k]) ==> answers[k].releaseOk
  }

  lemma OneMoreHeld(states: seq<State>, answers: seq<Answers>, n: nat)
    requires 0 < n <= |answers| < |states|
    ensures HeldUpTo(states, n) <==> HeldUpTo(states, n - 1) && HoldsCurrent(states[n])
    ensures TakenUpTo(states, answers, n) <==>
      TakenUpTo(states, answers, n - 1) && (Releases(states[n - 1], answers[n - 1]) ==> answers[n - 1].releaseOk)
    ensures HeldUpTo(states, n - 1) ==> HoldsCurrent(states[n - 1])
  {
    hide HoldsCurrent, Releases;
  }

  /** Over every run, in every state up to the `n`-th exactly the current buffer is held if and only
      if the queue took every buffer back that it was given. */
  lemma {:induction false} RunHoldsIff(states: seq<State>, answers: seq<Answers>, n: nat)
    requires IsRun(states, answers) && n < |states|
    ensures HeldUpTo(states, n) <==> TakenUpTo(states, answers, n)
  {
    hide Update, Legal, Releases;
    if n > 0 {
      hide HeldUpTo, TakenUpTo, HoldsCurrent;
      RunHoldsIff(states, answers, n - 1);
      OneMoreHeld(states, answers, n);
      if HeldUpTo(states, n - 1) {
        UpdateHoldsIff(states[n - 1], answers[n - 1]);
      }
    }
  }

  // --- runs that lose the balance -------------------------------------------------------------------------------

  /** A first buffer that succeeds. */
  const FIRST := Answers(true, Some(1), 1, true, true, 1, {}, {}, true)

  const ONE := State([(1, ImageCacheSeq(1, 1))], 1, Some(1), Env({1}, {1}, {1}, 0))

  lemma FirstUpdate()
    ensures Legal(START, FIRST) && Update(START, FIRST) == (ONE, Ok)
    ensures Conserved(ONE) && HoldsCurrent(ONE)
  {
    hide Conserved;
    var cache: Cache := [(1, ImageCacheSeq(1, 0))];
    var inserted := State(cache, UINT_MAX, None, Env({1}, {}, {1}, 0));
    var held := START.(env := START.env.(held := START.env.held + {1}));
    assert {} + {1} == {1};
    assert Insert(held, 1, 1) == inserted;
    assert Find(cache, 1) == 0 && cache[0 := (1, ImageCacheSeq(1, 1))] == [(1, ImageCacheSeq(1, 1))];
    var synced := Resync(inserted, 0, 1);
    assert synced == State(ONE.cache, UINT_MAX, None, Env({1}, {1}, {1}, 0));
    assert Clean(synced, 1, FIRST, 1) == synced;
    assert Clean(synced, 1, FIRST, 0) == synced;
    assert Texture(held, 1, FIRST) == (synced, Ok);
    StartConserved();
    UpdateConservesIff(START, FIRST);
  }

  lemma StartConserved()
    ensures Conserved(START)
  {
    StartOwnsNothing();
  }

  /** A second buffer for which no image can be made: the display goes, its handles stay cached. */
  lemma SecondImageTerminates()
    ensures var a := Answers(true, Some(2), 0, true, true, 0, {}, {}, true);
      && Legal(ONE, a) && Terminates(ONE, a) && !Conserved(Update(ONE, a).0)
      && Update(ONE, a).0.cache == ONE.cache && Update(ONE, a).0.env.images == {}
  {
    hide Conserved;
    FirstUpdate();
    var a := Answers(true, Some(2), 0, true, true, 0, {}, {}, true);
    assert Find(ONE.cache, 2) == 1;
    UpdateConservesIff(ONE, a);
  }

  /** A second buffer that succeeds while the queue refuses the first one: both stay held. */
  lemma RefusedReleaseHolds()
    ensures var a := Answers(true, Some(2), 2, true, true, 2, {1}, {}, false);
      && Legal(ONE, a) && Update(ONE, a).1 == Ok
      && !HoldsCurrent(Update(ONE, a).0) && Update(ONE, a).0.env.held == {1, 2}
  {
    hide Clean, Put, Conserved;
    var a := Answers(true, Some(2), 2, true, true, 2, {1}, {}, false);
    FirstUpdate();
    assert Find(ONE.cache, 2) == 1;
    var held := ONE.(env := ONE.env.(held := ONE.env.held + {2}));
    TextureTouches(held, 2, a);
    assert Update(ONE, a).1 == Ok;
    UpdateHoldsIff(ONE, a);
  }

  // --- the object ---------------------------------------------------------------------------------------------------

  /** The environment is a field: what EGL and the buffer queue keep on this object's behalf. */
  class Consumer {
    var imageCacheSeqs: Cache
    var currentSurfaceImage: u32
    var currentSurfaceBuffer: Option<u32>
    var env: Env

    function View(): State
      reads this
    {
      State(imageCacheSeqs, currentSurfaceImage, currentSurfaceBuffer, env)
    }

    constructor ()
      ensures View() == START
    {
      imageCacheSeqs, currentSurfaceImage, currentSurfaceBuffer, env := [], UINT_MAX, None, Env({}, {}, {}, 0);
    }

    method FindIterator(k: u32) returns (it: nat)
      ensures it == Find(imageCacheSeqs, k)
    {
      it := 0;
      while it < |imageCacheSeqs| && imageCacheSeqs[it].0 != k
        invariant it <= |imageCacheSeqs|
        invariant forall j :: 0 <= j < it ==> imageCacheSeqs[j].0 != k
      {
        it := it + 1;
      }
    }

    /** Erases while it iterates. */
    method CheckImageCacheNeedClean(k: u32, a: Answers)
      modifies this
      ensures View() == Clean(old(View()), k, a, 0)
    {
      hide Erase, Stays;
      var it := 0;
      while it < |imageCacheSeqs|
        invariant Clean(View(), k, a, it) == Clean(old(View()), k, a, 0)
        decreases |imageCacheSeqs| - it
      {
        if imageCacheSeqs[it].0 == k || Stays(a, imageCacheSeqs[it].0) {
          it := it + 1;
        } else {
          var e := imageCacheSeqs[it].1;
          env := DestroyImage(env, e.eglImage);
          env := DestroySync(env, e.eglSync);
          imageCacheSeqs := Erase(imageCacheSeqs, it);
        }
      }
    }

    method DestroyEGLImageOf(k: u32)
      modifies this
      ensures View() == DestroyEGLImage(old(View()), k)
    {
      var iter := FindIterator(k);
      if iter != |imageCacheSeqs| {
        env := DestroyImage(env, imageCacheSeqs[iter].1.eglImage);
        imageCacheSeqs := Erase(imageCacheSeqs, iter);
      }
    }

    method UpdateEGLImageAndTexture(k: u32, a: Answers) returns (ret: Error)
      modifies this
      ensures (View(), ret) == Texture(old(View()), k, a)
    {
      hide Clean, Find, Put;
      var iter := FindIterator(k);
      var isNewBuffer := iter == |imageCacheSeqs|;
      if isNewBuffer {
        if a.image == 0 {
          env := env.(images := {}, syncs := {});
          return EglApiFailed;
        }
        env := env.(images := env.images + {a.image});
        imageCacheSeqs := Put(SeqLess, imageCacheSeqs, k, ImageCacheSeq(a.image, 0), true);
      }
      if !a.bindOk {
        if isNewBuffer {
          DestroyEGLImageOf(k);
        }
        return EglApiFailed;
      }
      if !a.targetOk {
        if isNewBuffer {
          DestroyEGLImageOf(k);
        }
        return EglApiFailed;
      }
      PutFinds(old(imageCacheSeqs), k, ImageCacheSeq(a.image, 0));
      iter := FindIterator(k);
      env := DestroySync(env, imageCacheSeqs[iter].1.eglSync);
      if a.sync != 0 {
        env := env.(syncs := env.syncs + {a.sync});
      }
      imageCacheSeqs := imageCacheSeqs[iter := (imageCacheSeqs[iter].0, imageCacheSeqs[iter].1.(eglSync := a.sync))];
      if isNewBuffer {
        CheckImageCacheNeedClean(k, a);
      }
      ret := Ok;
    }

    method UpdateSurfaceInfo(k: u32, a: Answers) returns (sync: nat)
      modifies this
      ensures (View(), sync) == Exchange(old(View()), k, a)
    {
      sync := 0;
      var iter := FindIterator(currentSurfaceImage);
      if iter != |imageCacheSeqs| && imageCacheSeqs[iter].1.eglSync != 0 {
        sync := imageCacheSeqs[iter].1.eglSync;
      }
      env := Release(env, currentSurfaceBuffer, a.releaseOk);
      currentSurfaceImage := k;
      currentSurfaceBuffer := Some(k);
    }

    method UpdateSurfaceImage(a: Answers) returns (ret: Error)
      modifies this
      ensures (View(), ret) == Update(old(View()), a)
      ensures old(Conserved(View()) && Legal(View(), a) && !Terminates(View(), a)) ==> Conserved(View())
    {
      hide Texture, Exchange, Conserved, Legal, Terminates;
      ghost var s := View();
      if Conserved(s) && Legal(s, a) {
        UpdateConservesIff(s, a);
      }
      if !a.eglValid {
        return EglStateUnknown;
      }
      if a.acquired.None? {
        return NoBuffer;
      }
      var buffer := a.acquired.value;
      env := env.(held := env.held + {buffer});
      ret := UpdateEGLImageAndTexture(buffer, a);
      if ret != Ok {
        env := Release(env, Some(buffer), a.releaseOk);
        return;
      }
      var sync := UpdateSurfaceInfo(buffer, a);
    }

    method Destructor()
      modifies this
      ensures env == Finish(old(env), old(imageCacheSeqs), 0)
      ensures old(Conserved(View())) ==> env == old(env).(images := {}, syncs := {})
    {
      hide Conserved;
      if Conserved(View()) {
        ConservedFinishes(View());
      }
      ghost var entries := imageCacheSeqs;
      var it := 0;
      while it < |imageCacheSeqs|
        invariant |imageCacheSeqs| == |entries|
        invariant forall j :: it <= j < |entries| ==> imageCacheSeqs[j] == entries[j]
        invariant Finish(env, entries, it) == Finish(old(env), entries, 0)
      {
        var e := imageCacheSeqs[it].1;
        if e.eglImage != 0 {
          env := DestroyImage(env, e.eglImage);
        }
        if e.eglSync != 0 {
          env := DestroySync(env, e.eglSync);
        }
        imageCacheSeqs := imageCacheSeqs[it := (imageCacheSeqs[it].0, ImageCacheSeq(0, 0))];
        it := it + 1;
      }
    }
  }
}
