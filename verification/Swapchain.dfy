/** The swapchain layer as a state machine: swapchains, their images, and an environment of buffer
    queue, image driver and buffer references. Results of the environment are inputs of a step. */
module Swapchain {
  import opened OrderedMap

  // --- data -------------------------------------------------------------------------------

  /** A native window buffer and the surface buffer it wraps. */
  datatype Buffer = Buffer(wrapper: nat, sf: nat)

  /** `image` 0 is the null handle; a negative fence is no fence. */
  datatype Image = Image(image: nat, buffer: Option<Buffer>, requestFence: int, releaseFence: int, requested: bool)

  const NO_IMAGE := Image(0, None, -1, -1, false)

  datatype Swapchain = Swapchain(shared: bool, images: seq<Image>)

  datatype Slot = Live(chain: Swapchain) | Freed

  /** `dequeued`: surface buffers the queue has handed out. `created`, `live`: image handles the
      driver has made, and not yet destroyed. `refs`: references taken on wrappers. */
  datatype Env = Env(dequeued: set<nat>, created: set<nat>, live: set<nat>, refs: multiset<nat>)

  /** The surface's active handle, 0 for none; handle `h` names `heap[h - 1]`. */
  datatype System = System(handle: nat, heap: seq<Slot>, env: Env) {
    predicate Has(h: nat) {
      0 < h <= |heap| && heap[h - 1].Live?
    }

    function Chain(h: nat): Swapchain
      requires Has(h)
    {
      heap[h - 1].chain
    }

    function With(h: nat, images: seq<Image>, env: Env): System
      requires Has(h)
    {
      this.(heap := heap[h - 1 := Live(Chain(h).(images := images))], env := env)
    }
  }

  datatype Result = Success | OutOfDate | SurfaceLost | WindowInUse | OutOfHostMemory | DriverError | NotAcquired

  // --- what the environment answers -----------------------------------------------------------

  datatype Request = RequestFailed | Requested(buffer: Buffer, fence: int)

  /** The outcome of one round of the creation loop; `made` 0 means that the driver failed. */
  datatype Creation = Creation(request: Request, made: nat)

  /** The driver's answer to a present: its result, its release fence and the duplicate of it. */
  datatype Signal = Signal(ok: bool, fence: int, copy: int)

  // --- single effects ----------------------------------------------------------------------------

  function Close(fd: int): int {
    if fd < 0 then fd else -1
  }

  /** A buffer stays dequeued when cancelling or flushing it fails. */
  function Return(env: Env, buffer: Option<Buffer>, ok: bool): Env {
    if ok && buffer.Some? then env.(dequeued := env.dequeued - {buffer.value.sf}) else env
  }

  /** `ReleaseSwapchainImage` with the image's own state. */
  function ReleaseImage(env: Env, img: Image, window: bool, releaseFence: int, defer: bool, pending: bool, cancelOk: bool)
    : (Env, Image)
  {
    if releaseFence != -1 && !img.requested then (env, img)
    else
      var env1 := if img.requested && window then Return(env, img.buffer, cancelOk) else env;
      var img1 := if img.requested then img.(requestFence := -1, requested := false) else img;
      if defer && img.releaseFence >= 0 && pending then (env1, img1)
      else
        var img2 := img1.(releaseFence := Close(img1.releaseFence));
        if img.image == 0 then (env1, img2)
        else (DropImage(env1, img), img2.(buffer := None, image := 0))
  }

  /** The buffer reference goes first, then the image. */
  function DropImage(env: Env, img: Image): Env {
    env.(refs := env.refs - Wrapper(img), live := env.live - {img.image})
  }

  // --- loops ----------------------------------------------------------------------------------------

  /** The creation loop from round `i` on: dequeue, make the image, reference the buffer. */
  function RequestImages(env: Env, images: seq<Image>, outcomes: seq<Creation>, i: nat)
    : (r: (Env, seq<Image>, Result))
    requires |outcomes| == |images|
    ensures |r.1| == |images|
    decreases |images| - i
  {
    if i >= |images| then (env, images, Success)
    else
      match outcomes[i].request
      case RequestFailed => (env, images, SurfaceLost)
      case Requested(buffer, fence) =>
        var made := outcomes[i].made;
        var img := images[i].(buffer := Some(buffer), requested := true, requestFence := fence, image := made);
        var env1 := env.(dequeued := env.dequeued + {buffer.sf});
        if made == 0 then (env1, images[i := img], DriverError)
        else
          var env2 := env1.(created := env1.created + {made}, live := env1.live + {made},
                            refs := env1.refs + multiset{buffer.wrapper});
          RequestImages(env2, images[i := img], outcomes, i + 1)
  }

  /** The loop that gives requested buffers back, unless the swapchain is shared. */
  function CancelRequested(env: Env, images: seq<Image>, shared: bool, cancels: seq<bool>, i: nat)
    : (r: (Env, seq<Image>))
    requires |cancels| == |images|
    ensures |r.1| == |images|
    decreases |images| - i
  {
    if i >= |images| then (env, images)
    else if images[i].requested && !shared then
      var img := images[i];
      CancelRequested(Return(env, img.buffer, cancels[i]),
                      images[i := img.(requestFence := Close(img.requestFence), requested := false)], shared, cancels, i + 1)
    else CancelRequested(env, images, shared, cancels, i + 1)
  }

  /** The loop of `ReleaseSwapchain`: images that are not requested, deferring pending ones. */
  function ReleaseIdle(env: Env, images: seq<Image>, pending: seq<bool>, i: nat): (r: (Env, seq<Image>))
    requires |pending| == |images|
    ensures |r.1| == |images|
    decreases |images| - i
  {
    if i >= |images| then (env, images)
    else if images[i].requested then ReleaseIdle(env, images, pending, i + 1)
    else
      var r := ReleaseImage(env, images[i], false, -1, true, pending[i], true);
      ReleaseIdle(r.0, images[i := r.1], pending, i + 1)
  }

  /** The loop of `DestroySwapchainInternal`: every image, at once. */
  function ReleaseAll(env: Env, images: seq<Image>, window: bool, cancels: seq<bool>, i: nat)
    : (r: (Env, seq<Image>))
    requires |cancels| == |images|
    ensures |r.1| == |images|
    decreases |images| - i
  {
    if i >= |images| then (env, images)
    else
      var r := ReleaseImage(env, images[i], window, -1, false, false, cancels[i]);
      ReleaseAll(r.0, images[i := r.1], window, cancels, i + 1)
  }

  // --- the calls -----------------------------------------------------------------------------------

  /** `CleanCache` may forget any buffers; `kept` are those it does not. */
  function CleanCache(env: Env, kept: set<nat>): Env {
    env.(dequeued := env.dequeued * kept)
  }

  /** Retires a swapchain if it is the active one. */
  function Retire(s: System, h: nat, pending: seq<bool>): System
    requires s.Has(h) && |pending| == |s.Chain(h).images|
  {
    if s.handle != h then s
    else
      var r := ReleaseIdle(s.env, s.Chain(h).images, pending, 0);
      s.With(h, r.1, r.0).(handle := 0)
  }

  function Destroy(s: System, h: nat, cancels: seq<bool>, kept: set<nat>): System
    requires s.Has(h) && |cancels| == |s.Chain(h).images|
  {
    var active := s.handle == h;
    var r := ReleaseAll(s.env, s.Chain(h).images, active, cancels, 0);
    var env := if active then CleanCache(r.0, kept) else r.0;
    System(if active then 0 else s.handle, s.heap[h - 1 := Freed], env)
  }

  /** What a creation is told: results of window setup and allocation, then of every round. */
  datatype CreateInfo = CreateInfo(
    shared: bool, setup: Result, memory: bool, outcomes: seq<Creation>, cancels: seq<bool>, kept: set<nat>)

  /** Allocation and the creation loops, from a surface without active swapchain. */
  function Build(s: System, recreate: bool, info: CreateInfo): (System, Result)
    requires |info.outcomes| == |info.cancels|
  {
    var env0 := if recreate then CleanCache(s.env, info.kept) else s.env;
    var blank := seq(|info.outcomes|, _ => NO_IMAGE);
    var made := RequestImages(env0, blank, info.outcomes, 0);
    var given := CancelRequested(made.0, made.1, info.shared, info.cancels, 0);
    var h := |s.heap| + 1;
    var t := System(s.handle, s.heap + [Live(Swapchain(info.shared, given.1))], given.0);
    if made.2 != Success then (Destroy(t, h, info.cancels, info.kept), made.2)
    else (t.(handle := h), Success)
  }

  function Create(s: System, previous: nat, pending: seq<bool>, info: CreateInfo): (System, Result)
    requires |info.outcomes| == |info.cancels|
    requires previous != 0 ==> s.Has(previous) && |pending| == |s.Chain(previous).images|
  {
    if s.handle != previous then (s, WindowInUse)
    else
      var t := if previous != 0 then Retire(s, previous, pending) else s;
      if info.setup != Success then (t, info.setup)
      else if !info.memory then (t, OutOfHostMemory)
      else Build(t, previous != 0, info)
  }

  /** The first image that wraps surface buffer `sf`, or the number of images. */
  function Find(images: seq<Image>, sf: nat): (i: nat)
    ensures i <= |images|
    ensures forall j :: 0 <= j < i ==> !Wraps(images[j], sf)
    ensures i < |images| ==> Wraps(images[i], sf)
  {
    if images == [] || Wraps(images[0], sf) then 0 else 1 + Find(images[1..], sf)
  }

  predicate Wraps(img: Image, sf: nat) {
    img.buffer.Some? && img.buffer.value.sf == sf
  }

  /** `AcquireNextImageKHR`; the index is meaningful on success. */
  function Acquire(s: System, h: nat, request: Request, driverOk: bool, cancelOk: bool): (System, Result, nat)
    requires s.Has(h) && (s.Chain(h).shared ==> s.Chain(h).images != [])
  {
    if s.handle != h then (s, OutOfDate, 0)
    else if s.Chain(h).shared then (s, if driverOk then Success else DriverError, 0)
    else
      match request
      case RequestFailed => (s, SurfaceLost, 0)
      case Requested(buffer, fence) =>
        var images := s.Chain(h).images;
        var taken := s.env.(dequeued := s.env.dequeued + {buffer.sf});
        var i := Find(images, buffer.sf);
        if i == |images| then (s.(env := Return(taken, Some(buffer), cancelOk)), OutOfDate, 0)
        else if driverOk then (s.With(h, images[i := images[i].(requested := true, requestFence := fence)], taken), Success, i)
        else
          (s.With(h, images[i := images[i].(requested := false, requestFence := -1)], Return(taken, Some(buffer), cancelOk)),
           DriverError, 0)
  }

  /** A successful acquire names an image that wraps the buffer the queue handed out, marks it and
      keeps its fence; a failed one leaves every image as it was, but for a known buffer, whose
      image does not count as requested then. */
  lemma AcquireDelivers(s: System, h: nat, request: Request, driverOk: bool, cancelOk: bool)
    requires s.Has(h) && s.handle == h && !s.Chain(h).shared
    ensures var (t, result, i) := Acquire(s, h, request, driverOk, cancelOk);
      && |t.Chain(h).images| == |s.Chain(h).images|
      && (result == Success ==>
            && request.Requested? && i < |t.Chain(h).images| && Wraps(t.Chain(h).images[i], request.buffer.sf)
            && t.Chain(h).images[i].requested && t.Chain(h).images[i].requestFence == request.fence
            && request.buffer.sf in t.env.dequeued
            && forall j :: 0 <= j < |t.Chain(h).images| && j != i ==> t.Chain(h).images[j] == s.Chain(h).images[j])
      && (result != Success ==> forall j :: 0 <= j < |t.Chain(h).images| ==>
            && t.Chain(h).images[j].image == s.Chain(h).images[j].image
            && t.Chain(h).images[j].buffer == s.Chain(h).images[j].buffer
            && (t.Chain(h).images[j] == s.Chain(h).images[j]
                || (request.Requested? && Wraps(s.Chain(h).images[j], request.buffer.sf) && !t.Chain(h).images[j].requested)))
      && (result == OutOfDate <==>
            (request.Requested? && forall j :: 0 <= j < |s.Chain(h).images| ==> !Wraps(s.Chain(h).images[j], request.buffer.sf)))
  {
  }

  /** `FlushBuffer` on an image of the active swapchain. */
  function Flush(env: Env, img: Image, shared: bool, geometryOk: bool, flushOk: bool, again: Request): (Env, Image, Result) {
    if !geometryOk || !flushOk then (env, img, SurfaceLost)
    else
      var env1 := Return(env, img.buffer, true);
      var img1 := img.(requestFence := Close(img.requestFence), requested := false);
      if !shared then (env1, img1, Success)
      else
        match again
        case RequestFailed => (env1, img1, SurfaceLost)
        case Requested(buffer, fence) =>
          var env2 := env1.(dequeued := env1.dequeued + {buffer.sf});
          if img.buffer != Some(buffer) then (env2, img1, SurfaceLost)
          else (env2, img1.(requestFence := fence, requested := true), Success)
  }

  /** One swapchain of `QueuePresentKHR`. */
  function Present(s: System, h: nat, i: nat, signal: Signal, pending: seq<bool>,
                   geometryOk: bool, flushOk: bool, again: Request): (System, Result)
    requires s.Has(h) && i < |s.Chain(h).images| == |pending|
  {
    var chain := s.Chain(h);
    var img := chain.images[i].(releaseFence := if signal.fence >= 0 then signal.copy else Close(chain.images[i].releaseFence));
    var t := s.With(h, chain.images[i := img], s.env);
    if s.handle == h then
      if signal.ok then
        var r := Flush(t.env, img, chain.shared, geometryOk, flushOk, again);
        (t.With(h, chain.images[i := r.1], r.0), r.2)
      else (Retire(t, h, pending), DriverError)
    else
      var r := ReleaseImage(t.env, img, false, signal.fence, true, pending[i], true);
      (t.With(h, chain.images[i := r.1], r.0), OutOfDate)
  }

  // --- what the caller is told ------------------------------------------------------------------------

  /** A present is out of date exactly when another swapchain is active, or none; the driver's failure
      is passed on; it succeeds exactly when the buffer was flushed and, for a shared swapchain, the
      same buffer came back in the same wrapper; otherwise the surface is lost. */
  lemma PresentResult(s: System, h: nat, i: nat, signal: Signal, pending: seq<bool>,
                      geometryOk: bool, flushOk: bool, again: Request)
    requires s.Has(h) && i < |s.Chain(h).images| == |pending|
    ensures var r := Present(s, h, i, signal, pending, geometryOk, flushOk, again).1;
      var back := again.Requested? && s.Chain(h).images[i].buffer == Some(again.buffer);
      && (r == OutOfDate <==> s.handle != h)
      && (r == DriverError <==> s.handle == h && !signal.ok)
      && (r == Success <==> s.handle == h && signal.ok && geometryOk && flushOk && (s.Chain(h).shared ==> back))
      && (r == SurfaceLost <==> s.handle == h && signal.ok && !(geometryOk && flushOk && (s.Chain(h).shared ==> back)))
  {
    hide ReleaseIdle, ReleaseImage;
  }

  /** An acquire is out of date exactly when another swapchain is active, or none, or when no image of
      the active one wraps the buffer that the queue handed out. */
  lemma AcquireResult(s: System, h: nat, request: Request, driverOk: bool, cancelOk: bool)
    requires s.Has(h) && (s.Chain(h).shared ==> s.Chain(h).images != [])
    ensures var (t, r, i) := Acquire(s, h, request, driverOk, cancelOk);
      var known := exists j :: 0 <= j < |s.Chain(h).images| && request.Requested? && Wraps(s.Chain(h).images[j], request.buffer.sf);
      && (s.handle != h ==> r == OutOfDate && t == s)
      && (s.handle == h && s.Chain(h).shared ==> r == (if driverOk then Success else DriverError) && i == 0 && t == s)
      && (s.handle == h && !s.Chain(h).shared ==>
            && (r == SurfaceLost <==> request.RequestFailed?)
            && (r == OutOfDate <==> request.Requested? && !known)
            && (r == DriverError <==> known && !driverOk)
            && (r == Success <==> known && driverOk))
  {
    hide Find;
  }

  /** Every round of a creation gets a buffer and makes an image. */
  predicate AllMade(outcomes: seq<Creation>) {
    forall j :: 0 <= j < |outcomes| ==> Made(outcomes[j])
  }

  predicate Made(c: Creation) {
    c.request.Requested? && c.made != 0
  }

  lemma {:induction false} RequestsSucceedIff(env: Env, images: seq<Image>, outcomes: seq<Creation>, i: nat)
    requires |outcomes| == |images|
    ensures RequestImages(env, images, outcomes, i).2 == Success <==> forall j :: i <= j < |outcomes| ==> Made(outcomes[j])
    decreases |images| - i
  {
    if i < |images| && Made(outcomes[i]) {
      var made, buffer := outcomes[i].made, outcomes[i].request.buffer;
      var img := images[i].(buffer := Some(buffer), requested := true, requestFence := outcomes[i].request.fence, image := made);
      var env1 := env.(dequeued := env.dequeued + {buffer.sf});
      var env2 := env1.(created := env1.created + {made}, live := env1.live + {made},
                        refs := env1.refs + multiset{buffer.wrapper});
      RequestsSucceedIff(env2, images[i := img], outcomes, i + 1);
    }
  }

  /** The first round that fails tells the result of the creation loop. */
  lemma {:induction false} RequestResult(env: Env, images: seq<Image>, outcomes: seq<Creation>, i: nat, j: nat)
    requires |outcomes| == |images| && i <= j < |outcomes|
    requires forall k :: i <= k < j ==> outcomes[k].request.Requested? && outcomes[k].made != 0
    requires outcomes[j].request.RequestFailed? || outcomes[j].made == 0
    ensures RequestImages(env, images, outcomes, i).2
         == if outcomes[j].request.RequestFailed? then SurfaceLost else DriverError
    decreases |images| - i
  {
    if i < j {
      var made, buffer := outcomes[i].made, outcomes[i].request.buffer;
      var img := images[i].(buffer := Some(buffer), requested := true, requestFence := outcomes[i].request.fence, image := made);
      var env1 := env.(dequeued := env.dequeued + {buffer.sf});
      var env2 := env1.(created := env1.created + {made}, live := env1.live + {made},
                        refs := env1.refs + multiset{buffer.wrapper});
      RequestResult(env2, images[i := img], outcomes, i + 1, j);
    }
  }

  /** A creation is refused, with nothing changed, exactly when the old swapchain that is named is not
      the active one; otherwise the first failure of setup, memory and rounds is the result, and no
      swapchain is active then; success leaves the new one active. */
  lemma CreateResult(s: System, previous: nat, idle: seq<bool>, info: CreateInfo)
    requires |info.outcomes| == |info.cancels|
    requires previous != 0 ==> s.Has(previous) && |idle| == |s.Chain(previous).images|
    ensures var (t, r) := Create(s, previous, idle, info);
      && (s.handle != previous ==> r == WindowInUse && t == s)
      && (s.handle == previous ==>
            && (info.setup != Success ==> r == info.setup)
            && (info.setup == Success && !info.memory ==> r == OutOfHostMemory)
            && (info.setup == Success && info.memory ==>
                  && (forall j :: FailsFirst(info.outcomes, j) ==>
                        r == if info.outcomes[j].request.RequestFailed? then SurfaceLost else DriverError)
                  && (r == Success <==> AllMade(info.outcomes)))
            && (r != Success ==> t.handle == 0)
            && (r == Success ==> t.handle == |s.heap| + 1 && t.Has(t.handle) && t.Chain(t.handle).shared == info.shared
                                 && |t.Chain(t.handle).images| == |info.outcomes|))
  {
    hide RequestImages, CancelRequested, ReleaseIdle, ReleaseAll;
    if s.handle == previous && info.setup == Success && info.memory {
      var u := if previous != 0 then Retire(s, previous, idle) else s;
      var env0 := if previous != 0 then CleanCache(u.env, info.kept) else u.env;
      var blank := seq(|info.outcomes|, _ => NO_IMAGE);
      forall j | FailsFirst(info.outcomes, j)
        ensures RequestImages(env0, blank, info.outcomes, 0).2
             == if info.outcomes[j].request.RequestFailed? then SurfaceLost else DriverError
      {
        RequestResult(env0, blank, info.outcomes, 0, j);
      }
      RequestsSucceedIff(env0, blank, info.outcomes, 0);
    }
  }

  /** Round `j` is the first that fails. */
  predicate FailsFirst(outcomes: seq<Creation>, j: int) {
    0 <= j < |outcomes| && !Made(outcomes[j]) && forall k :: 0 <= k < j ==> Made(outcomes[k])
  }

  // --- what becomes of an image ------------------------------------------------------------------------

  /** Releasing an image: nothing happens to one that is not requested when a fence is handed over.
      Otherwise it no longer counts as requested and its request fence is gone; it keeps its handle,
      buffer and release fence while that is pending, if it may, and loses all three if not. */
  lemma ReleasedImage(env: Env, img: Image, window: bool, releaseFence: int, defer: bool, pending: bool, cancelOk: bool)
    ensures var (e, r) := ReleaseImage(env, img, window, releaseFence, defer, pending, cancelOk);
      var kept := defer && img.releaseFence >= 0 && pending;
      && (releaseFence != -1 && !img.requested ==> r == img && e == env)
      && (releaseFence == -1 || img.requested ==>
            && !r.requested && r.requestFence == (if img.requested then -1 else img.requestFence)
            && (kept ==> (r.image, r.buffer, r.releaseFence) == (img.image, img.buffer, img.releaseFence))
            && (!kept ==> r.image == 0 && r.releaseFence == (if img.releaseFence < 0 then img.releaseFence else -1)
                          && r.buffer == if img.image == 0 then img.buffer else None)
            && e.live == (if kept || img.image == 0 then env.live else env.live - {img.image})
            && e.refs == (if kept || img.image == 0 || img.buffer.None? then env.refs
                          else env.refs - multiset{img.buffer.value.wrapper})
            && e.dequeued == (if img.requested && window && cancelOk && img.buffer.Some?
                              then env.dequeued - {img.buffer.value.sf} else env.dequeued)
            && e.created == env.created)
  {
  }

  /** Retiring: requested images stay as they are, and so do images whose release fence is pending;
      every other one loses its handle, its buffer and its fence. The queue is not asked. */
  lemma {:induction false} IdleImages(env: Env, images: seq<Image>, pending: seq<bool>, i: nat, j: nat)
    requires |pending| == |images| && j < |images|
    ensures var r := ReleaseIdle(env, images, pending, i);
      && r.0.dequeued == env.dequeued && r.0.created == env.created
      && (j < i || images[j].requested || (images[j].releaseFence >= 0 && pending[j]) ==> r.1[j] == images[j])
      && (i <= j && !images[j].requested && !(images[j].releaseFence >= 0 && pending[j]) ==>
            && r.1[j].image == 0 && !r.1[j].requested && r.1[j].requestFence == images[j].requestFence
            && r.1[j].releaseFence == (if images[j].releaseFence < 0 then images[j].releaseFence else -1)
            && r.1[j].buffer == if images[j].image == 0 then images[j].buffer else None)
    decreases |images| - i
  {
    hide ReleaseImage;
    if i < |images| {
      if images[i].requested {
        IdleImages(env, images, pending, i + 1, j);
      } else {
        ReleasedImage(env, images[i], false, -1, true, pending[i], true);
        var r := ReleaseImage(env, images[i], false, -1, true, pending[i], true);
        IdleImages(r.0, images[i := r.1], pending, i + 1, j);
      }
    }
  }

  /** Flushing leaves handle, buffer and release fence alone. When it is done the request fence is gone
      and the image no longer counts as requested, unless a shared one gets its buffer back, with a
      fence of its own. */
  lemma FlushedImage(env: Env, img: Image, shared: bool, geometryOk: bool, flushOk: bool, again: Request)
    ensures var (e, r, result) := Flush(env, img, shared, geometryOk, flushOk, again);
      var back := shared && again.Requested? && img.buffer == Some(again.buffer);
      && (r.image, r.buffer, r.releaseFence) == (img.image, img.buffer, img.releaseFence)
      && (e.live, e.refs, e.created) == (env.live, env.refs, env.created)
      && (!geometryOk || !flushOk ==> r == img && e == env)
      && (geometryOk && flushOk ==>
            && r.requested == back
            && r.requestFence == (if back then again.fence else if img.requestFence < 0 then img.requestFence else -1)
            && e.dequeued == env.dequeued - (if img.buffer.Some? then {img.buffer.value.sf} else {})
                             + (if shared && again.Requested? then {again.buffer.sf} else {}))
  {
  }

  /** What a present does to the heap: the image gets the fence of this present, the old one being
      closed, and is flushed if its swapchain is active; no other image of any swapchain changes unless
      the driver failed. An image of a retired swapchain is released instead, unless it is idle and
      there is a fence to wait for. */
  lemma PresentedImage(s: System, h: nat, i: nat, signal: Signal, pending: seq<bool>,
                       geometryOk: bool, flushOk: bool, again: Request)
    requires s.Has(h) && i < |s.Chain(h).images| == |pending|
    ensures var t := Present(s, h, i, signal, pending, geometryOk, flushOk, again).0;
      var (was, now) := (s.Chain(h).images[i], t.Chain(h).images[i]);
      var fence := if signal.fence >= 0 then signal.copy else if was.releaseFence < 0 then was.releaseFence else -1;
      && t.heap == s.heap[h - 1 := t.heap[h - 1]] && t.Chain(h).shared == s.Chain(h).shared
      && (s.handle != h || signal.ok ==> t.Chain(h).images == s.Chain(h).images[i := now] && t.handle == s.handle)
      && (s.handle == h && signal.ok ==> now.releaseFence == fence && (now.image, now.buffer) == (was.image, was.buffer))
      && (s.handle == h && !signal.ok ==> t.handle == 0)
      && (s.handle != h && signal.fence != -1 && !was.requested ==> now == was.(releaseFence := fence))
      && (s.handle != h && (signal.fence == -1 || was.requested) ==>
            && !now.requested
            && (fence >= 0 && pending[i] ==> (now.image, now.releaseFence) == (was.image, fence))
            && (fence < 0 || !pending[i] ==> now.image == 0 && now.releaseFence < 0))
  {
    hide ReleaseIdle, ReleaseImage, Flush, Present;
    var images := s.Chain(h).images;
    var img := images[i].(releaseFence := if signal.fence >= 0 then signal.copy else Close(images[i].releaseFence));
    PresentStates(s, h, i, signal, pending, geometryOk, flushOk, again, img);
    if s.handle != h {
      ReleasedImage(s.env, img, false, signal.fence, true, pending[i], true);
    } else if signal.ok {
      FlushedImage(s.env, img, s.Chain(h).shared, geometryOk, flushOk, again);
    }
  }

  /** The three ways of a present. */
  lemma PresentStates(s: System, h: nat, i: nat, signal: Signal, pending: seq<bool>,
                      geometryOk: bool, flushOk: bool, again: Request, img: Image)
    requires s.Has(h) && i < |s.Chain(h).images| == |pending|
    requires var was := s.Chain(h).images[i];
      img == was.(releaseFence := if signal.fence >= 0 then signal.copy else Close(was.releaseFence))
    ensures var (t, images) := (Present(s, h, i, signal, pending, geometryOk, flushOk, again).0, s.Chain(h).images);
      if s.handle != h then
        var r := ReleaseImage(s.env, img, false, signal.fence, true, pending[i], true);
        t == s.With(h, images[i := r.1], r.0)
      else if signal.ok then
        var r := Flush(s.env, img, s.Chain(h).shared, geometryOk, flushOk, again);
        t == s.With(h, images[i := r.1], r.0)
      else
        t.handle == 0 && t.heap == s.heap[h - 1 := t.heap[h - 1]] && t.Has(h) && t.Chain(h).shared == s.Chain(h).shared
        && |t.Chain(h).images| == |images|
  {
    hide ReleaseIdle, ReleaseImage, Flush;
  }

  /** A buffer that is not delivered goes back, if the queue takes it: one that no image wraps, and one
      on which the driver failed, whose image holds no request fence then. */
  lemma AcquireReturns(s: System, h: nat, request: Request, driverOk: bool, cancelOk: bool)
    requires s.Has(h) && s.handle == h && !s.Chain(h).shared && request.Requested?
    ensures var (t, r, i) := Acquire(s, h, request, driverOk, cancelOk);
      var out := s.env.dequeued + {request.buffer.sf};
      && t.env == s.env.(dequeued := if r == Success || !cancelOk then out else out - {request.buffer.sf})
      && (r == OutOfDate ==> t.heap == s.heap)
      && (r == DriverError ==> forall j :: 0 <= j < |s.Chain(h).images| && t.Chain(h).images[j] != s.Chain(h).images[j] ==>
            t.Chain(h).images[j] == s.Chain(h).images[j].(requested := false, requestFence := -1))
  {
    hide Find;
  }

  /** Releasing all images gives back exactly the requested buffers that the queue takes, and only for
      the active swapchain. */
  lemma {:induction false} AllReturn(env: Env, images: seq<Image>, window: bool, cancels: seq<bool>, i: nat, sf: nat)
    requires |cancels| == |images|
    ensures var r := ReleaseAll(env, images, window, cancels, i);
      && r.0.created == env.created
      && (sf in r.0.dequeued <==>
            sf in env.dequeued
            && !(window && exists j :: i <= j < |images| && images[j].requested && cancels[j] && Wraps(images[j], sf)))
    decreases |images| - i
  {
    hide ReleaseImage;
    if i < |images| {
      ReleasedImage(env, images[i], window, -1, false, false, cancels[i]);
      var r := ReleaseImage(env, images[i], window, -1, false, false, cancels[i]);
      var after := images[i := r.1];
      assert forall j :: i < j < |images| ==> after[j] == images[j];
      AllReturn(r.0, after, window, cancels, i + 1, sf);
    }
  }

  /** Destroying frees the slot. Destroying the active swapchain leaves none active, gives back what was
      requested where the queue takes it, and has it forget its buffers; destroying another one does not
      reach the queue. */
  lemma DestroyedState(s: System, h: nat, cancels: seq<bool>, kept: set<nat>, sf: nat)
    requires s.Has(h) && |cancels| == |s.Chain(h).images|
    ensures var (t, images) := (Destroy(s, h, cancels, kept), s.Chain(h).images);
      && t.heap == s.heap[h - 1 := Freed] && t.env.created == s.env.created
      && t.handle == (if s.handle == h then 0 else s.handle)
      && (s.handle != h ==> (sf in t.env.dequeued <==> sf in s.env.dequeued))
      && (s.handle == h ==>
            (sf in t.env.dequeued <==>
               sf in s.env.dequeued && sf in kept
               && !exists j :: 0 <= j < |images| && images[j].requested && cancels[j] && Wraps(images[j], sf)))
  {
    hide ReleaseAll;
    AllReturn(s.env, s.Chain(h).images, s.handle == h, cancels, 0, sf);
  }

  // --- first invariant: images and references -------------------------------------------------------

  function Handle(img: Image): multiset<nat> {
    if img.image == 0 then multiset{} else multiset{img.image}
  }

  /** The reference that goes with the image. */
  function Wrapper(img: Image): multiset<nat> {
    if img.image == 0 || img.buffer.None? then multiset{} else multiset{img.buffer.value.wrapper}
  }

  function Sum(f: Image -> multiset<nat>, images: seq<Image>): multiset<nat> {
    if images == [] then multiset{} else Sum(f, images[..|images| - 1]) + f(images[|images| - 1])
  }

  function Total(f: Image -> multiset<nat>, heap: seq<Slot>): multiset<nat> {
    if heap == [] then multiset{}
    else Total(f, heap[..|heap| - 1]) + SlotSum(f, heap[|heap| - 1])
  }

  function SlotSum(f: Image -> multiset<nat>, slot: Slot): multiset<nat> {
    match slot
    case Live(chain) => Sum(f, chain.images)
    case Freed => multiset{}
  }

  /** An image without handle has no reference, one with a handle has a buffer, and so has a
      requested one. */
  predicate Sound(img: Image) {
    (img.image != 0 || img.requested) ==> img.buffer.Some?
  }

  predicate AllSound(images: seq<Image>) {
    forall i :: 0 <= i < |images| ==> Sound(images[i])
  }

  /** The images that are alive are exactly the non-null handles, each held once; the references
      are exactly those of the images with a handle; a freed swapchain holds nothing. */
  ghost predicate Owned(s: System) {
    && (forall k :: 0 <= k < |s.heap| && s.heap[k].Live? ==> AllSound(s.heap[k].chain.images))
    && Total(Handle, s.heap) == multiset(s.env.live)
    && Total(Wrapper, s.heap) == s.env.refs
    && s.env.live <= s.env.created && 0 !in s.env.created
    && (s.handle == 0 || s.Has(s.handle))
  }

  lemma Swap(a: multiset<nat>, b: multiset<nat>, c: multiset<nat>, d: multiset<nat>, e: multiset<nat>)
    requires a + b == c + d
    ensures (a + e) + b == (c + e) + d
  {
    forall x: nat
      ensures ((a + e) + b)[x] == ((c + e) + d)[x]
    {
      assert (a + b)[x] == (c + d)[x];
    }
  }

  lemma {:induction false} SumUpdate(f: Image -> multiset<nat>, images: seq<Image>, i: nat, img: Image)
    requires i < |images|
    ensures Sum(f, images[i := img]) + f(images[i]) == Sum(f, images) + f(img)
  {
    var n := |images| - 1;
    if i < n {
      assert images[i := img][..n] == images[..n][i := img];
      SumUpdate(f, images[..n], i, img);
      Swap(Sum(f, images[..n][i := img]), f(images[i]), Sum(f, images[..n]), f(img), f(images[n]));
    } else {
      assert images[i := img][..n] == images[..n];
    }
  }

  lemma {:induction false} SumContains(f: Image -> multiset<nat>, images: seq<Image>, i: nat)
    requires i < |images|
    ensures f(images[i]) <= Sum(f, images)
  {
    if i < |images| - 1 {
      SumContains(f, images[..|images| - 1], i);
    }
  }

  lemma {:induction false} TotalUpdate(f: Image -> multiset<nat>, heap: seq<Slot>, k: nat, slot: Slot)
    requires k < |heap|
    ensures Total(f, heap[k := slot]) + SlotSum(f, heap[k]) == Total(f, heap) + SlotSum(f, slot)
  {
    hide SlotSum;
    var n := |heap| - 1;
    if k < n {
      assert heap[k := slot][..n] == heap[..n][k := slot];
      TotalUpdate(f, heap[..n], k, slot);
      Swap(Total(f, heap[..n][k := slot]), SlotSum(f, heap[k]), Total(f, heap[..n]), SlotSum(f, slot), SlotSum(f, heap[n]));
    } else {
      assert heap[k := slot][..n] == heap[..n];
    }
  }

  lemma {:induction false} TotalContains(f: Image -> multiset<nat>, heap: seq<Slot>, k: nat)
    requires k < |heap|
    ensures SlotSum(f, heap[k]) <= Total(f, heap)
  {
    if k < |heap| - 1 {
      TotalContains(f, heap[..|heap| - 1], k);
    }
  }

  /** What a step on the images of one swapchain must respect: handles and references move
      between the images and the environment, and nothing else does. */
  ghost predicate Balanced(env: Env, images: seq<Image>, env': Env, images': seq<Image>) {
    && AllSound(images')
    && multiset(env'.live) + Sum(Handle, images) == multiset(env.live) + Sum(Handle, images')
    && env'.refs + Sum(Wrapper, images) == env.refs + Sum(Wrapper, images')
    && env'.live <= env'.created && env.created <= env'.created && 0 !in env'.created
    && |images'| == |images|
  }

  /** The part of the environment that belongs to these images is there. */
  ghost predicate Covered(env: Env, images: seq<Image>) {
    && AllSound(images)
    && Sum(Handle, images) <= multiset(env.live)
    && Sum(Wrapper, images) <= env.refs
    && env.live <= env.created && 0 !in env.created
  }

  lemma BalancedCovers(env: Env, images: seq<Image>, env': Env, images': seq<Image>)
    requires Covered(env, images) && Balanced(env, images, env', images')
    ensures Covered(env', images')
  {
    forall x: nat
      ensures Sum(Handle, images')[x] <= multiset(env'.live)[x]
    {
      assert (multiset(env'.live) + Sum(Handle, images))[x] == (multiset(env.live) + Sum(Handle, images'))[x];
    }
    forall x: nat
      ensures Sum(Wrapper, images')[x] <= env'.refs[x]
    {
      assert (env'.refs + Sum(Wrapper, images))[x] == (env.refs + Sum(Wrapper, images'))[x];
    }
  }

  lemma BalancedTransitive(e0: Env, i0: seq<Image>, e1: Env, i1: seq<Image>, e2: Env, i2: seq<Image>)
    requires Balanced(e0, i0, e1, i1) && Balanced(e1, i1, e2, i2)
    ensures Balanced(e0, i0, e2, i2)
  {
    forall x: nat
      ensures (multiset(e2.live) + Sum(Handle, i0))[x] == (multiset(e0.live) + Sum(Handle, i2))[x]
      ensures (e2.refs + Sum(Wrapper, i0))[x] == (e0.refs + Sum(Wrapper, i2))[x]
    {
      assert (multiset(e1.live) + Sum(Handle, i0))[x] == (multiset(e0.live) + Sum(Handle, i1))[x];
      assert (multiset(e2.live) + Sum(Handle, i1))[x] == (multiset(e1.live) + Sum(Handle, i2))[x];
      assert (e1.refs + Sum(Wrapper, i0))[x] == (e0.refs + Sum(Wrapper, i1))[x];
      assert (e2.refs + Sum(Wrapper, i1))[x] == (e1.refs + Sum(Wrapper, i2))[x];
    }
  }

  /** An image either stays as it is, or loses its handle together with its reference. */
  lemma ReleaseCases(env: Env, img: Image, window: bool, releaseFence: int, defer: bool, pending: bool, cancelOk: bool)
    requires Sound(img)
    ensures var r := ReleaseImage(env, img, window, releaseFence, defer, pending, cancelOk);
      && Sound(r.1) && r.0.created == env.created
      && (|| (r.1.image == img.image && r.1.buffer == img.buffer && r.0.live == env.live && r.0.refs == env.refs)
          || (img.image != 0 && r.1.image == 0 && r.0.live == env.live - {img.image} && r.0.refs == env.refs - Wrapper(img)))
  {
  }

  /** Releasing an image is balanced: a handle that goes is destroyed, and it was alive. */
  lemma ReleaseBalanced(env: Env, images: seq<Image>, i: nat, window: bool, releaseFence: int, defer: bool, pending: bool, cancelOk: bool)
    requires Covered(env, images) && i < |images|
    ensures var r := ReleaseImage(env, images[i], window, releaseFence, defer, pending, cancelOk);
      Balanced(env, images, r.0, images[i := r.1])
    ensures images[i].image != 0 ==> images[i].image in env.live
  {
    hide ReleaseImage, Sum, Wrapper, Handle, Sound;
    var img := images[i];
    var r := ReleaseImage(env, img, window, releaseFence, defer, pending, cancelOk);
    ReleaseCases(env, img, window, releaseFence, defer, pending, cancelOk);
    CoveredImage(env, images, i);
    if r.1.image == img.image {
      SameSums(images, i, r.1);
    } else {
      DroppedSums(env, images, i, r.0, r.1);
    }
  }

  lemma CoveredImage(env: Env, images: seq<Image>, i: nat)
    requires Covered(env, images) && i < |images|
    ensures images[i].image != 0 ==> images[i].image in env.live
    ensures Wrapper(images[i]) <= env.refs && Sound(images[i])
  {
    SumContains(Handle, images, i);
    SumContains(Wrapper, images, i);
    if images[i].image != 0 {
      assert Handle(images[i])[images[i].image] == 1;
      assert images[i].image in multiset(env.live);
    }
  }

  lemma SameSums(images: seq<Image>, i: nat, img: Image)
    requires i < |images| && img.image == images[i].image && img.buffer == images[i].buffer
    ensures Sum(Handle, images[i := img]) == Sum(Handle, images)
    ensures Sum(Wrapper, images[i := img]) == Sum(Wrapper, images)
  {
    SumUpdate(Handle, images, i, img);
    SumUpdate(Wrapper, images, i, img);
    assert Handle(img) == Handle(images[i]) && Wrapper(img) == Wrapper(images[i]);
    Cancel(Sum(Handle, images[i := img]), Sum(Handle, images), Handle(img));
    Cancel(Sum(Wrapper, images[i := img]), Sum(Wrapper, images), Wrapper(img));
  }

  lemma Cancel(a: multiset<nat>, b: multiset<nat>, c: multiset<nat>)
    requires a + c == b + c
    ensures a == b
  {
    forall x: nat
      ensures a[x] == b[x]
    {
      assert (a + c)[x] == (b + c)[x];
    }
  }

  lemma DroppedSums(env: Env, images: seq<Image>, i: nat, env': Env, img: Image)
    requires i < |images| && images[i].image in env.live && images[i].image != 0 && img.image == 0
    requires Wrapper(images[i]) <= env.refs
    requires env'.live == env.live - {images[i].image} && env'.refs == env.refs - Wrapper(images[i])
    ensures multiset(env'.live) + Sum(Handle, images) == multiset(env.live) + Sum(Handle, images[i := img])
    ensures env'.refs + Sum(Wrapper, images) == env.refs + Sum(Wrapper, images[i := img])
  {
    SumUpdate(Handle, images, i, img);
    SumUpdate(Wrapper, images, i, img);
    assert multiset(env.live) == multiset(env'.live) + Handle(images[i]);
    assert env.refs == env'.refs + Wrapper(images[i]);
    Shift(multiset(env'.live), Sum(Handle, images), multiset(env.live), Sum(Handle, images[i := img]), Handle(images[i]));
    Shift(env'.refs, Sum(Wrapper, images), env.refs, Sum(Wrapper, images[i := img]), Wrapper(images[i]));
  }

  lemma Shift(a: multiset<nat>, b: multiset<nat>, c: multiset<nat>, d: multiset<nat>, e: multiset<nat>)
    requires c == a + e && d + e == b
    ensures a + b == c + d
  {
    forall x: nat
      ensures (a + b)[x] == (c + d)[x]
    {
      assert (d + e)[x] == b[x];
    }
  }

  // --- the loops are balanced -----------------------------------------------------------------------

  lemma StillBalanced(env: Env, images: seq<Image>)
    requires Covered(env, images)
    ensures Balanced(env, images, env, images)
  {
  }

  lemma {:induction false} ReleaseIdleBalanced(env: Env, images: seq<Image>, pending: seq<bool>, i: nat)
    requires Covered(env, images) && |pending| == |images|
    ensures var r := ReleaseIdle(env, images, pending, i);
      Balanced(env, images, r.0, r.1) && r.0.dequeued == env.dequeued
    decreases |images| - i
  {
    hide Balanced, Covered;
    if i >= |images| {
      StillBalanced(env, images);
    } else if images[i].requested {
      ReleaseIdleBalanced(env, images, pending, i + 1);
    } else {
      var r := ReleaseImage(env, images[i], false, -1, true, pending[i], true);
      ReleaseBalanced(env, images, i, false, -1, true, pending[i], true);
      BalancedCovers(env, images, r.0, images[i := r.1]);
      ReleaseIdleBalanced(r.0, images[i := r.1], pending, i + 1);
      var t := ReleaseIdle(r.0, images[i := r.1], pending, i + 1);
      BalancedTransitive(env, images, r.0, images[i := r.1], t.0, t.1);
    }
  }

  /** Destruction leaves no handle, and no queue is touched without a window. */
  lemma {:induction false} ReleaseAllBalanced(env: Env, images: seq<Image>, window: bool, cancels: seq<bool>, i: nat)
    requires Covered(env, images) && |cancels| == |images| && i <= |images|
    requires forall j :: 0 <= j < i ==> images[j].image == 0
    ensures var r := ReleaseAll(env, images, window, cancels, i);
      && Balanced(env, images, r.0, r.1)
      && (forall j :: 0 <= j < |images| ==> r.1[j].image == 0)
      && (!window ==> r.0.dequeued == env.dequeued)
    decreases |images| - i
  {
    hide Balanced, Covered;
    if i == |images| {
      StillBalanced(env, images);
    } else {
      var r := ReleaseImage(env, images[i], window, -1, false, false, cancels[i]);
      ReleaseBalanced(env, images, i, window, -1, false, false, cancels[i]);
      BalancedCovers(env, images, r.0, images[i := r.1]);
      ReleaseAllBalanced(r.0, images[i := r.1], window, cancels, i + 1);
      var t := ReleaseAll(r.0, images[i := r.1], window, cancels, i + 1);
      BalancedTransitive(env, images, r.0, images[i := r.1], t.0, t.1);
    }
  }

  /** The driver returns handles it has never returned before. */
  ghost predicate FreshHandles(created: set<nat>, outcomes: seq<Creation>, i: nat) {
    && (forall j :: i <= j < |outcomes| ==> outcomes[j].made !in created)
    && (forall j, k :: i <= j < k < |outcomes| && outcomes[j].made != 0 ==> outcomes[j].made != outcomes[k].made)
  }

  lemma MadeSums(env: Env, images: seq<Image>, i: nat, env': Env, img: Image)
    requires i < |images| && images[i].image == 0 && Covered(env, images)
    requires img.image != 0 && img.image !in env.created && img.buffer.Some?
    requires env'.live == env.live + {img.image} && env'.refs == env.refs + Wrapper(img)
    ensures multiset(env'.live) + Sum(Handle, images) == multiset(env.live) + Sum(Handle, images[i := img])
    ensures env'.refs + Sum(Wrapper, images) == env.refs + Sum(Wrapper, images[i := img])
  {
    hide Sum;
    SumUpdate(Handle, images, i, img);
    SumUpdate(Wrapper, images, i, img);
    assert img.image !in env.live;
    assert multiset(env'.live) == multiset(env.live) + Handle(img);
    var a, b := Sum(Handle, images), Sum(Handle, images[i := img]);
    assert Handle(images[i]) == multiset{} && Wrapper(images[i]) == multiset{};
    assert b + multiset{} == b;
    Shift(multiset(env.live), b, multiset(env'.live), a, Handle(img));
    var c, d := Sum(Wrapper, images), Sum(Wrapper, images[i := img]);
    assert d + multiset{} == d;
    Shift(env.refs, d, env'.refs, c, Wrapper(img));
  }

  /** One round that makes an image. */
  lemma MadeBalanced(env: Env, images: seq<Image>, i: nat, env': Env, img: Image)
    requires i < |images| && images[i].image == 0 && Covered(env, images)
    requires img.image != 0 && img.image !in env.created && img.buffer.Some?
    requires env'.live == env.live + {img.image} && env'.refs == env.refs + Wrapper(img)
    requires env'.created == env.created + {img.image}
    ensures Balanced(env, images, env', images[i := img])
  {
    hide Sum;
    MadeSums(env, images, i, env', img);
  }

  /** A change of an image without handle that leaves it without. */
  lemma UnmadeBalanced(env: Env, images: seq<Image>, i: nat, env': Env, img: Image)
    requires i < |images| && images[i].image == 0 && img.image == 0 && Sound(img) && Covered(env, images)
    requires env'.live == env.live && env'.refs == env.refs && env'.created == env.created
    ensures Balanced(env, images, env', images[i := img])
  {
    SumUpdate(Handle, images, i, img);
    SumUpdate(Wrapper, images, i, img);
    Cancel(Sum(Handle, images[i := img]), Sum(Handle, images), multiset{});
    Cancel(Sum(Wrapper, images[i := img]), Sum(Wrapper, images), multiset{});
  }

  lemma {:induction false} RequestBalanced(env: Env, images: seq<Image>, outcomes: seq<Creation>, i: nat)
    requires Covered(env, images) && |outcomes| == |images| && FreshHandles(env.created, outcomes, i)
    requires forall j :: i <= j < |images| ==> images[j] == NO_IMAGE
    ensures var r := RequestImages(env, images, outcomes, i);
      Balanced(env, images, r.0, r.1)
    decreases |images| - i
  {
    hide Balanced, Covered, Sound;
    if i >= |images| || outcomes[i].request.RequestFailed? {
      StillBalanced(env, images);
    } else {
      var made := outcomes[i].made;
      var buffer := outcomes[i].request.buffer;
      var img := images[i].(buffer := Some(buffer), requested := true, requestFence := outcomes[i].request.fence, image := made);
      var env1 := env.(dequeued := env.dequeued + {buffer.sf});
      if made == 0 {
        SoundWithBuffer(img);
        UnmadeBalanced(env, images, i, env1, img);
      } else {
        var env2 := env1.(created := env1.created + {made}, live := env1.live + {made},
                          refs := env1.refs + multiset{buffer.wrapper});
        MadeBalanced(env, images, i, env2, img);
        BalancedCovers(env, images, env2, images[i := img]);
        RequestBalanced(env2, images[i := img], outcomes, i + 1);
        var t := RequestImages(env2, images[i := img], outcomes, i + 1);
        BalancedTransitive(env, images, env2, images[i := img], t.0, t.1);
      }
    }
  }

  lemma SoundWithBuffer(img: Image)
    requires img.buffer.Some?
    ensures Sound(img)
  {
  }

  /** Giving buffers back moves no handle and no reference. */
  lemma {:induction false} CancelBalanced(env: Env, images: seq<Image>, shared: bool, cancels: seq<bool>, i: nat)
    requires Covered(env, images) && |cancels| == |images|
    ensures var r := CancelRequested(env, images, shared, cancels, i);
      Balanced(env, images, r.0, r.1)
    decreases |images| - i
  {
    hide Balanced, Covered;
    if i >= |images| {
      StillBalanced(env, images);
    } else if images[i].requested && !shared {
      var img := images[i].(requestFence := Close(images[i].requestFence), requested := false);
      var env1 := Return(env, images[i].buffer, cancels[i]);
      QueueOnlyBalanced(env, images, i, env1, img);
      BalancedCovers(env, images, env1, images[i := img]);
      CancelBalanced(env1, images[i := img], shared, cancels, i + 1);
      var t := CancelRequested(env1, images[i := img], shared, cancels, i + 1);
      BalancedTransitive(env, images, env1, images[i := img], t.0, t.1);
    } else {
      CancelBalanced(env, images, shared, cancels, i + 1);
    }
  }

  /** A step that changes only flags, fences and the queue. */
  lemma QueueOnlyBalanced(env: Env, images: seq<Image>, i: nat, env': Env, img: Image)
    requires Covered(env, images) && i < |images|
    requires img.image == images[i].image && img.buffer == images[i].buffer
    requires img.requested ==> img.buffer.Some?
    requires env'.live == env.live && env'.refs == env.refs && env'.created == env.created
    ensures Balanced(env, images, env', images[i := img])
  {
    hide Sum;
    SameSums(images, i, img);
    assert Sound(images[i]);
  }

  // --- the calls keep ownership ------------------------------------------------------------------------

  lemma OwnedCovers(s: System, h: nat)
    requires Owned(s) && s.Has(h)
    ensures Covered(s.env, s.Chain(h).images)
  {
    TotalContains(Handle, s.heap, h - 1);
    TotalContains(Wrapper, s.heap, h - 1);
  }

  lemma Transfer(total: multiset<nat>, total': multiset<nat>, held: multiset<nat>, held': multiset<nat>,
                 stock: multiset<nat>, stock': multiset<nat>)
    requires total == stock && total' + held == total + held' && stock' + held == stock + held'
    ensures total' == stock'
  {
    Cancel(total', stock', held);
  }

  lemma LiveSlot(f: Image -> multiset<nat>, chain: Swapchain)
    ensures SlotSum(f, Live(chain)) == Sum(f, chain.images) && SlotSum(f, Freed) == multiset{}
  {
  }

  lemma WithOwned(s: System, h: nat, images: seq<Image>, env: Env)
    requires Owned(s) && s.Has(h) && Balanced(s.env, s.Chain(h).images, env, images)
    ensures Owned(s.With(h, images, env))
  {
    hide Sum, Total, SlotSum, AllSound;
    var before, after := s.Chain(h), s.Chain(h).(images := images);
    TotalUpdate(Handle, s.heap, h - 1, Live(after));
    TotalUpdate(Wrapper, s.heap, h - 1, Live(after));
    LiveSlot(Handle, before);
    LiveSlot(Handle, after);
    LiveSlot(Wrapper, before);
    LiveSlot(Wrapper, after);
    var t := s.With(h, images, env);
    Transfer(Total(Handle, s.heap), Total(Handle, t.heap), Sum(Handle, before.images), Sum(Handle, images),
             multiset(s.env.live), multiset(env.live));
    Transfer(Total(Wrapper, s.heap), Total(Wrapper, t.heap), Sum(Wrapper, before.images), Sum(Wrapper, images),
             s.env.refs, env.refs);
  }

  lemma QueueOnlyOwned(s: System, dequeued: set<nat>)
    requires Owned(s)
    ensures Owned(s.(env := s.env.(dequeued := dequeued)))
  {
  }

  lemma RetireOwned(s: System, h: nat, pending: seq<bool>)
    requires Owned(s) && s.Has(h) && |pending| == |s.Chain(h).images|
    ensures Owned(Retire(s, h, pending))
  {
    if s.handle == h {
      OwnedCovers(s, h);
      ReleaseIdleBalanced(s.env, s.Chain(h).images, pending, 0);
      var r := ReleaseIdle(s.env, s.Chain(h).images, pending, 0);
      WithOwned(s, h, r.1, r.0);
      HandleOwned(s.With(h, r.1, r.0), 0);
    }
  }

  lemma HandleOwned(s: System, h: nat)
    requires Owned(s) && (h == 0 || s.Has(h))
    ensures Owned(s.(handle := h))
  {
  }

  lemma {:induction false} NullSums(images: seq<Image>)
    requires forall j :: 0 <= j < |images| ==> images[j].image == 0
    ensures Sum(Handle, images) == multiset{} && Sum(Wrapper, images) == multiset{}
  {
    if images != [] {
      NullSums(images[..|images| - 1]);
    }
  }

  /** Destruction: every image of the swapchain was alive and is destroyed before the swapchain is
      freed, and the freed slot holds nothing. */
  lemma DestroyOwned(s: System, h: nat, cancels: seq<bool>, kept: set<nat>)
    requires Owned(s) && s.Has(h) && |cancels| == |s.Chain(h).images|
    ensures Owned(Destroy(s, h, cancels, kept))
    ensures var r := ReleaseAll(s.env, s.Chain(h).images, s.handle == h, cancels, 0);
      && (forall j :: 0 <= j < |r.1| ==> r.1[j].image == 0)
      && Destroy(s, h, cancels, kept).env.live == r.0.live
      && Destroy(s, h, cancels, kept).heap[h - 1] == Freed
      && multiset(r.0.live) + Sum(Handle, s.Chain(h).images) == multiset(s.env.live)
  {
    hide Owned, Covered, ReleaseAll, Total;
    var images := s.Chain(h).images;
    var active := s.handle == h;
    OwnedCovers(s, h);
    ReleaseAllBalanced(s.env, images, active, cancels, 0);
    var r := ReleaseAll(s.env, images, active, cancels, 0);
    NullSums(r.1);
    WithOwned(s, h, r.1, r.0);
    assert multiset(s.env.live) + multiset{} == multiset(s.env.live);
    var u := s.With(h, r.1, r.0);
    assert u.heap[h - 1 := Freed] == s.heap[h - 1 := Freed];
    HandleKnown(s);
    var t := System(if active then 0 else s.handle, s.heap[h - 1 := Freed], r.0);
    FreeOwned(u, h, t);
    QueueOnlyOwned(t, r.0.dequeued * kept);
  }

  lemma HandleKnown(s: System)
    requires Owned(s)
    ensures s.handle == 0 || s.Has(s.handle)
  {
  }

  lemma FreeOwned(u: System, h: nat, t: System)
    requires Owned(u) && u.Has(h) && Sum(Handle, u.Chain(h).images) == multiset{} == Sum(Wrapper, u.Chain(h).images)
    requires t.heap == u.heap[h - 1 := Freed] && t.env == u.env
    requires t.handle == 0 || (t.handle == u.handle && t.handle != h)
    ensures Owned(t)
  {
    hide Sum, Total, SlotSum, AllSound;
    TotalUpdate(Handle, u.heap, h - 1, Freed);
    TotalUpdate(Wrapper, u.heap, h - 1, Freed);
    LiveSlot(Handle, u.Chain(h));
    LiveSlot(Wrapper, u.Chain(h));
    Cancel(Total(Handle, t.heap), Total(Handle, u.heap), multiset{});
    Cancel(Total(Wrapper, t.heap), Total(Wrapper, u.heap), multiset{});
  }

  /** A new swapchain whose images came out of the creation loops. */
  lemma AppendOwned(s: System, chain: Swapchain, blank: seq<Image>, env0: Env, env: Env)
    requires Owned(s) && env0 == s.env.(dequeued := env0.dequeued)
    requires (forall j :: 0 <= j < |blank| ==> blank[j] == NO_IMAGE) && Balanced(env0, blank, env, chain.images)
    ensures Owned(System(s.handle, s.heap + [Live(chain)], env))
  {
    hide Sum;
    NullSums(blank);
    var t := System(s.handle, s.heap + [Live(chain)], env);
    assert t.heap[..|s.heap|] == s.heap;
    assert multiset(env.live) + multiset{} == multiset(env.live);
    assert env.refs + multiset{} == env.refs;
  }

  lemma BlankCovered(s: System, n: nat, dequeued: set<nat>)
    requires Owned(s)
    ensures Covered(s.env.(dequeued := dequeued), seq(n, _ => NO_IMAGE))
  {
    NullSums(seq(n, _ => NO_IMAGE));
  }

  lemma BuildOwned(s: System, recreate: bool, info: CreateInfo)
    requires Owned(s) && |info.outcomes| == |info.cancels| && FreshHandles(s.env.created, info.outcomes, 0)
    requires s.handle == 0
    ensures Owned(Build(s, recreate, info).0)
  {
    hide Balanced, Covered, Owned;
    var env0 := if recreate then CleanCache(s.env, info.kept) else s.env;
    var blank := seq(|info.outcomes|, _ => NO_IMAGE);
    BlankCovered(s, |info.outcomes|, env0.dequeued);
    RequestBalanced(env0, blank, info.outcomes, 0);
    var made := RequestImages(env0, blank, info.outcomes, 0);
    BalancedCovers(env0, blank, made.0, made.1);
    CancelBalanced(made.0, made.1, info.shared, info.cancels, 0);
    var given := CancelRequested(made.0, made.1, info.shared, info.cancels, 0);
    BalancedTransitive(env0, blank, made.0, made.1, given.0, given.1);
    var chain := Swapchain(info.shared, given.1);
    AppendOwned(s, chain, blank, env0, given.0);
    var h := |s.heap| + 1;
    var t := System(s.handle, s.heap + [Live(chain)], given.0);
    if made.2 != Success {
      DestroyOwned(t, h, info.cancels, info.kept);
    } else {
      HandleOwned(t, h);
    }
  }

  /** A creation that fails part way leaves the images and references as they were. */
  lemma FailedBuildLeavesNothing(s: System, recreate: bool, info: CreateInfo)
    requires Owned(s) && |info.outcomes| == |info.cancels| && FreshHandles(s.env.created, info.outcomes, 0)
    requires s.handle == 0 && Build(s, recreate, info).1 != Success
    ensures var t := Build(s, recreate, info).0;
      t.env.live == s.env.live && t.env.refs == s.env.refs && t.handle == 0 && t.heap == s.heap + [Freed]
  {
    hide RequestImages, CancelRequested, ReleaseAll;
    BuildOwned(s, recreate, info);
    var t := Build(s, recreate, info).0;
    assert t.heap == s.heap + [Freed];
    assert t.heap[..|s.heap|] == s.heap;
    assert multiset(t.env.live) == multiset(s.env.live);
    assert forall x: nat :: x in t.env.live <==> x in multiset(t.env.live);
    assert forall x: nat :: x in s.env.live <==> x in multiset(s.env.live);
  }

  lemma CreateOwned(s: System, previous: nat, pending: seq<bool>, info: CreateInfo)
    requires Owned(s) && |info.outcomes| == |info.cancels|
    requires previous != 0 ==> s.Has(previous) && |pending| == |s.Chain(previous).images|
    requires FreshHandles(s.env.created, info.outcomes, 0)
    ensures Owned(Create(s, previous, pending, info).0)
  {
    hide Owned, Build, FreshHandles;
    if s.handle == previous {
      var t := s;
      if previous != 0 {
        t := Retire(s, previous, pending);
        RetireOwned(s, previous, pending);
        RetireKeepsCreated(s, previous, pending);
      }
      BuildOwned(t, previous != 0, info);
    }
  }

  lemma RetireKeepsCreated(s: System, h: nat, pending: seq<bool>)
    requires Owned(s) && s.Has(h) && |pending| == |s.Chain(h).images|
    ensures Retire(s, h, pending).env.created == s.env.created
  {
    IdleKeepsCreated(s.env, s.Chain(h).images, pending, 0);
  }

  lemma {:induction false} IdleKeepsCreated(env: Env, images: seq<Image>, pending: seq<bool>, i: nat)
    requires |pending| == |images|
    ensures ReleaseIdle(env, images, pending, i).0.created == env.created
    decreases |images| - i
  {
    if i < |images| {
      if images[i].requested {
        IdleKeepsCreated(env, images, pending, i + 1);
      } else {
        var r := ReleaseImage(env, images[i], false, -1, true, pending[i], true);
        IdleKeepsCreated(r.0, images[i := r.1], pending, i + 1);
      }
    }
  }

  lemma AcquireOwned(s: System, h: nat, request: Request, driverOk: bool, cancelOk: bool)
    requires Owned(s) && s.Has(h) && (s.Chain(h).shared ==> s.Chain(h).images != [])
    ensures Owned(Acquire(s, h, request, driverOk, cancelOk).0)
  {
    hide Balanced, Covered, Owned;
    if s.handle == h && !s.Chain(h).shared && request.Requested? {
      var images := s.Chain(h).images;
      var buffer := request.buffer;
      var i := Find(images, buffer.sf);
      var taken := s.env.(dequeued := s.env.dequeued + {buffer.sf});
      QueueOnlyOwned(s, taken.dequeued);
      QueueOnlyOwned(s, taken.dequeued - {buffer.sf});
      if i < |images| {
        OwnedCovers(s, h);
        var r := Acquire(s, h, request, driverOk, cancelOk).0;
        QueueOnlyBalanced(s.env, images, i, r.env, r.Chain(h).images[i]);
        WithOwned(s, h, r.Chain(h).images, r.env);
      }
    }
  }

  lemma FlushKeepsOwner(env: Env, img: Image, shared: bool, geometryOk: bool, flushOk: bool, again: Request)
    requires Sound(img)
    ensures var r := Flush(env, img, shared, geometryOk, flushOk, again);
      && r.1.image == img.image && r.1.buffer == img.buffer && (r.1.requested ==> img.buffer.Some?)
      && r.0.live == env.live && r.0.refs == env.refs && r.0.created == env.created
  {
  }

  lemma ImageSound(s: System, h: nat, i: nat)
    requires Owned(s) && s.Has(h) && i < |s.Chain(h).images|
    ensures Sound(s.Chain(h).images[i])
  {
  }

  lemma PresentOwned(s: System, h: nat, i: nat, signal: Signal, pending: seq<bool>, geometryOk: bool, flushOk: bool, again: Request)
    requires Owned(s) && s.Has(h) && i < |s.Chain(h).images| == |pending|
    ensures Owned(Present(s, h, i, signal, pending, geometryOk, flushOk, again).0)
  {
    hide Balanced, Covered, Owned, Flush, ReleaseImage, Retire, Sound;
    var images := s.Chain(h).images;
    var img := images[i].(releaseFence := if signal.fence >= 0 then signal.copy else Close(images[i].releaseFence));
    OwnedCovers(s, h);
    ImageSound(s, h, i);
    SoundRequested(images[i]);
    QueueOnlyBalanced(s.env, images, i, s.env, img);
    WithOwned(s, h, images[i := img], s.env);
    var t := s.With(h, images[i := img], s.env);
    OwnedCovers(t, h);
    if s.handle == h {
      if signal.ok {
        ImageSound(t, h, i);
        FlushKeepsOwner(t.env, img, s.Chain(h).shared, geometryOk, flushOk, again);
        var r := Flush(t.env, img, s.Chain(h).shared, geometryOk, flushOk, again);
        QueueOnlyBalanced(t.env, images[i := img], i, r.0, r.1);
        WithOwned(t, h, images[i := img][i := r.1], r.0);
        assert images[i := img][i := r.1] == images[i := r.1];
      } else {
        RetireOwned(t, h, pending);
      }
    } else {
      ReleaseBalanced(t.env, images[i := img], i, false, signal.fence, true, pending[i], true);
      var r := ReleaseImage(t.env, img, false, signal.fence, true, pending[i], true);
      WithOwned(t, h, images[i := img][i := r.1], r.0);
      assert images[i := img][i := r.1] == images[i := r.1];
    }
  }

  lemma SoundRequested(img: Image)
    requires Sound(img)
    ensures img.requested ==> img.buffer.Some?
  {
  }

  // --- runs ----------------------------------------------------------------------------------------------

  datatype Op =
    | OpCreate(previous: nat, idle: seq<bool>, info: CreateInfo)
    | OpAcquire(h: nat, request: Request, driverOk: bool, cancelOk: bool)
    | OpPresent(h: nat, i: nat, signal: Signal, pending: seq<bool>, geometryOk: bool, flushOk: bool, again: Request)
    | OpDestroy(h: nat, cancels: seq<bool>, kept: set<nat>)

  /** Swapchains in use exist, and the driver makes new handles. */
  ghost predicate Legal(s: System, op: Op) {
    match op
    case OpCreate(previous, idle, info) =>
      && |info.outcomes| == |info.cancels| && FreshHandles(s.env.created, info.outcomes, 0)
      && (previous != 0 ==> s.Has(previous) && |idle| == |s.Chain(previous).images|)
    case OpAcquire(h, _, _, _) => s.Has(h) && (s.Chain(h).shared ==> s.Chain(h).images != [])
    case OpPresent(h, i, _, pending, _, _, _) => s.Has(h) && i < |s.Chain(h).images| == |pending|
    case OpDestroy(h, cancels, _) => s.Has(h) && |cancels| == |s.Chain(h).images|
  }

  ghost function Step(s: System, op: Op): System
    requires Legal(s, op)
  {
    match op
    case OpCreate(previous, idle, info) => Create(s, previous, idle, info).0
    case OpAcquire(h, request, driverOk, cancelOk) => Acquire(s, h, request, driverOk, cancelOk).0
    case OpPresent(h, i, signal, pending, geometryOk, flushOk, again) =>
      Present(s, h, i, signal, pending, geometryOk, flushOk, again).0
    case OpDestroy(h, cancels, kept) => Destroy(s, h, cancels, kept)
  }

  /** `states` are the states of a run of `ops`, with one state more than calls. */
  ghost predicate IsRun(states: seq<System>, ops: seq<Op>) {
    && |states| == |ops| + 1
    && forall n :: 0 <= n < |ops| ==> Legal(states[n], ops[n]) && states[n + 1] == Step(states[n], ops[n])
  }

  lemma StepOwned(s: System, op: Op)
    requires Owned(s) && Legal(s, op)
    ensures Owned(Step(s, op))
  {
    hide Owned, Create, Acquire, Present, Destroy;
    match op
    case OpCreate(previous, idle, info) => CreateOwned(s, previous, idle, info);
    case OpAcquire(h, request, driverOk, cancelOk) => AcquireOwned(s, h, request, driverOk, cancelOk);
    case OpPresent(h, i, signal, pending, geometryOk, flushOk, again) =>
      PresentOwned(s, h, i, signal, pending, geometryOk, flushOk, again);
    case OpDestroy(h, cancels, kept) => DestroyOwned(s, h, cancels, kept);
  }

  const START := System(0, [], Env({}, {}, {}, multiset{}))

  /** In every run, ownership holds in every state. */
  lemma {:induction false} RunOwned(states: seq<System>, ops: seq<Op>, n: nat)
    requires IsRun(states, ops) && states[0] == START && n < |states|
    ensures Owned(states[n])
  {
    hide Step, Legal;
    if n == 0 {
      NothingOwned();
    } else {
      RunOwned(states, ops, n - 1);
      StepOwned(states[n - 1], ops[n - 1]);
    }
  }

  lemma NothingOwned()
    ensures Owned(START)
  {
  }

  /** When every swapchain has been destroyed, every image has been destroyed and every reference
      given back, whatever failed on the way. */
  lemma AllFreedReleasesAll(states: seq<System>, ops: seq<Op>, n: nat)
    requires IsRun(states, ops) && states[0] == START && n < |states|
    requires forall k :: 0 <= k < |states[n].heap| ==> states[n].heap[k].Freed?
    ensures states[n].env.live == {} && states[n].env.refs == multiset{} && states[n].handle == 0
  {
    var s := states[n];
    RunOwned(states, ops, n);
    FreedTotal(Handle, s.heap);
    FreedTotal(Wrapper, s.heap);
    assert multiset(s.env.live) == multiset{};
    assert forall x :: x in s.env.live ==> x in multiset(s.env.live);
  }

  lemma {:induction false} FreedTotal(f: Image -> multiset<nat>, heap: seq<Slot>)
    requires forall k :: 0 <= k < |heap| ==> heap[k].Freed?
    ensures Total(f, heap) == multiset{}
  {
    if heap != [] {
      FreedTotal(f, heap[..|heap| - 1]);
    }
  }

  /** A call may retire the active swapchain or make a new one active, nothing else; swapchains
      are never removed from the heap. */
  lemma StepHandle(s: System, op: Op)
    requires Legal(s, op)
    ensures |s.heap| <= |Step(s, op).heap|
    ensures Step(s, op).handle == s.handle || Step(s, op).handle == 0 || Step(s, op).handle > |s.heap|
  {
    hide RequestImages, CancelRequested, ReleaseAll, ReleaseIdle, ReleaseImage, Find, Flush;
  }

  /** A swapchain that has been created and is not active never becomes active. */
  lemma {:induction false} RetiredStaysRetired(states: seq<System>, ops: seq<Op>, m: nat, n: nat, h: nat)
    requires IsRun(states, ops) && m <= n < |states|
    requires 0 < h <= |states[m].heap| && states[m].handle != h
    ensures states[n].handle != h && h <= |states[n].heap|
  {
    hide Step, Legal;
    if m < n {
      RetiredStaysRetired(states, ops, m, n - 1, h);
      StepHandle(states[n - 1], ops[n - 1]);
    }
  }

  // --- an image that was destroyed stays destroyed --------------------------------------------------------

  /** Only handles that did not exist before come alive. */
  ghost predicate OnlyNewAlive(env: Env, env': Env) {
    && env.created <= env'.created
    && forall x :: x in env'.live && x in env.created ==> x in env.live
  }

  lemma {:induction false} RequestOnlyNew(env: Env, images: seq<Image>, outcomes: seq<Creation>, i: nat)
    requires |outcomes| == |images| && FreshHandles(env.created, outcomes, i)
    ensures OnlyNewAlive(env, RequestImages(env, images, outcomes, i).0)
    decreases |images| - i
  {
    if i < |images| && outcomes[i].request.Requested? && outcomes[i].made != 0 {
      var made, buffer := outcomes[i].made, outcomes[i].request.buffer;
      var img := images[i].(buffer := Some(buffer), requested := true, requestFence := outcomes[i].request.fence, image := made);
      var env1 := env.(dequeued := env.dequeued + {buffer.sf});
      var env2 := env1.(created := env1.created + {made}, live := env1.live + {made},
                        refs := env1.refs + multiset{buffer.wrapper});
      RequestOnlyNew(env2, images[i := img], outcomes, i + 1);
    }
  }

  lemma {:induction false} CancelOnlyNew(env: Env, images: seq<Image>, shared: bool, cancels: seq<bool>, i: nat)
    requires |cancels| == |images|
    ensures var r := CancelRequested(env, images, shared, cancels, i);
      r.0.live == env.live && r.0.created == env.created
    decreases |images| - i
  {
    if i < |images| {
      if images[i].requested && !shared {
        var img := images[i].(requestFence := Close(images[i].requestFence), requested := false);
        CancelOnlyNew(Return(env, images[i].buffer, cancels[i]), images[i := img], shared, cancels, i + 1);
      } else {
        CancelOnlyNew(env, images, shared, cancels, i + 1);
      }
    }
  }

  lemma {:induction false} IdleOnlyNew(env: Env, images: seq<Image>, pending: seq<bool>, i: nat)
    requires |pending| == |images|
    ensures OnlyNewAlive(env, ReleaseIdle(env, images, pending, i).0)
    ensures ReleaseIdle(env, images, pending, i).0.created == env.created
    decreases |images| - i
  {
    if i < |images| {
      if images[i].requested {
        IdleOnlyNew(env, images, pending, i + 1);
      } else {
        var r := ReleaseImage(env, images[i], false, -1, true, pending[i], true);
        IdleOnlyNew(r.0, images[i := r.1], pending, i + 1);
      }
    }
  }

  lemma {:induction false} AllOnlyNew(env: Env, images: seq<Image>, window: bool, cancels: seq<bool>, i: nat)
    requires |cancels| == |images|
    ensures OnlyNewAlive(env, ReleaseAll(env, images, window, cancels, i).0)
    ensures ReleaseAll(env, images, window, cancels, i).0.created == env.created
    decreases |images| - i
  {
    if i < |images| {
      var r := ReleaseImage(env, images[i], window, -1, false, false, cancels[i]);
      AllOnlyNew(r.0, images[i := r.1], window, cancels, i + 1);
    }
  }

  lemma BuildOnlyNew(s: System, recreate: bool, info: CreateInfo)
    requires |info.outcomes| == |info.cancels| && FreshHandles(s.env.created, info.outcomes, 0)
    ensures OnlyNewAlive(s.env, Build(s, recreate, info).0.env)
  {
    hide RequestImages, CancelRequested, ReleaseAll, FreshHandles;
    var env0 := if recreate then CleanCache(s.env, info.kept) else s.env;
    var blank := seq(|info.outcomes|, _ => NO_IMAGE);
    RequestOnlyNew(env0, blank, info.outcomes, 0);
    var made := RequestImages(env0, blank, info.outcomes, 0);
    CancelOnlyNew(made.0, made.1, info.shared, info.cancels, 0);
    var given := CancelRequested(made.0, made.1, info.shared, info.cancels, 0);
    AllOnlyNew(given.0, given.1, s.handle == |s.heap| + 1, info.cancels, 0);
  }

  lemma StepOnlyNew(s: System, op: Op)
    requires Legal(s, op)
    ensures OnlyNewAlive(s.env, Step(s, op).env)
  {
    hide RequestImages, CancelRequested, ReleaseAll, ReleaseIdle, FreshHandles, Build, Find;
    match op
    case OpCreate(previous, idle, info) =>
      var t := s;
      if s.handle == previous {
        if previous != 0 {
          t := Retire(s, previous, idle);
          IdleOnlyNew(s.env, s.Chain(previous).images, idle, 0);
        }
        BuildOnlyNew(t, previous != 0, info);
      }
    case OpAcquire(_, _, _, _) =>
    case OpPresent(h, i, signal, pending, geometryOk, flushOk, again) =>
      var images := s.Chain(h).images;
      var img := images[i].(releaseFence := if signal.fence >= 0 then signal.copy else Close(images[i].releaseFence));
      IdleOnlyNew(s.env, images[i := img], pending, 0);
    case OpDestroy(h, cancels, kept) => AllOnlyNew(s.env, s.Chain(h).images, s.handle == h, cancels, 0);
  }

  /** In every run, an image that has been created and destroyed is never alive again; together
      with `RunOwned`, which has every destruction hit a live image, it is destroyed once. */
  lemma {:induction false} DestroyedStaysDestroyed(states: seq<System>, ops: seq<Op>, m: nat, n: nat, x: nat)
    requires IsRun(states, ops) && m <= n < |states|
    requires x in states[m].env.created && x !in states[m].env.live
    ensures x in states[n].env.created && x !in states[n].env.live
  {
    hide Step, Legal;
    if m < n {
      DestroyedStaysDestroyed(states, ops, m, n - 1, x);
      StepOnlyNew(states[n - 1], ops[n - 1]);
    }
  }
}
