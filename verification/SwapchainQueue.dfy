/** The active swapchain's view of its buffers against the buffer queue's. */
module SwapchainQueue {
  import opened OrderedMap
  import opened Swapchain

  /** An image counts as requested exactly when the queue has handed its buffer out, and only a
      requested image holds a request fence. */
  ghost predicate ImageAgrees(dequeued: set<nat>, img: Image) {
    && img.buffer.Some?
    && (img.requested <==> img.buffer.value.sf in dequeued)
    && (img.requestFence >= 0 ==> img.requested)
  }

  ghost predicate Distinct(images: seq<Image>) {
    forall i, j :: 0 <= i < j < |images| && images[i].buffer.Some? && images[j].buffer.Some? ==>
      images[i].buffer.value.sf != images[j].buffer.value.sf
  }

  ghost predicate ImagesAgree(dequeued: set<nat>, images: seq<Image>) {
    Distinct(images) && forall i :: 0 <= i < |images| ==> ImageAgrees(dequeued, images[i])
  }

  ghost predicate Agrees(s: System) {
    s.handle != 0 ==> s.Has(s.handle) && ImagesAgree(s.env.dequeued, s.Chain(s.handle).images)
  }

  // --- what the queue promises -----------------------------------------------------------------

  function SfOf(c: Creation): nat {
    if c.request.Requested? then c.request.buffer.sf else 0
  }

  /** The queue hands out buffers it has not handed out already. */
  ghost predicate FreshBuffers(dequeued: set<nat>, outcomes: seq<Creation>, i: nat) {
    && (forall j :: i <= j < |outcomes| && outcomes[j].request.Requested? ==> SfOf(outcomes[j]) !in dequeued)
    && (forall j, k :: i <= j < k < |outcomes| && outcomes[j].request.Requested? && outcomes[k].request.Requested? ==>
          SfOf(outcomes[j]) != SfOf(outcomes[k]))
  }

  /** A shared swapchain has a single image, and only a dequeued buffer can be flushed. */
  ghost predicate QueueContract(s: System, op: Op) {
    match op
    case OpCreate(previous, _, info) =>
      && FreshBuffers(if previous != 0 then s.env.dequeued * info.kept else s.env.dequeued, info.outcomes, 0)
      && (info.shared ==> |info.outcomes| == 1)
    case OpAcquire(_, request, _, _) => request.Requested? ==> request.buffer.sf !in s.env.dequeued
    case OpPresent(h, i, _, _, _, flushOk, again) =>
      && (s.Has(h) && i < |s.Chain(h).images| && s.Chain(h).images[i].buffer.Some? ==>
            var sf := s.Chain(h).images[i].buffer.value.sf;
            && (flushOk ==> sf in s.env.dequeued)
            && (again.Requested? ==> again.buffer.sf !in s.env.dequeued - {sf}))
      && (s.Has(h) && s.Chain(h).shared ==> |s.Chain(h).images| == 1)
    case OpDestroy(_, _, _) => true
  }

  /** The answers under which a call keeps agreement: a creation that gets as far as giving its
      buffers back can, a buffer on which the driver failed is taken back, and a shared buffer
      returns in its own wrapper. A creation that fails leaves nothing to agree about. */
  predicate Keeps(s: System, op: Op) {
    match op
    case OpCreate(previous, _, info) =>
      s.handle == previous && info.setup == Success && info.memory && AllMade(info.outcomes) ==>
        info.shared || forall j :: 0 <= j < |info.cancels| ==> info.cancels[j]
    case OpAcquire(h, request, driverOk, cancelOk) => Known(s, h, request) ==> driverOk || cancelOk
    case OpPresent(h, i, signal, _, geometryOk, flushOk, again) =>
      s.handle == h && signal.ok && geometryOk && flushOk && s.Has(h) && i < |s.Chain(h).images| && s.Chain(h).shared ==>
        !Rewrapped(s.Chain(h).images[i], again)
    case OpDestroy(_, _, _) => true
  }

  /** The active swapchain, not shared, is handed a buffer that one of its images wraps. */
  predicate Known(s: System, h: nat, request: Request) {
    && s.handle == h && s.Has(h) && !s.Chain(h).shared && request.Requested?
    && Find(s.Chain(h).images, request.buffer.sf) < |s.Chain(h).images|
  }

  /** The same surface buffer comes back in another wrapper. */
  predicate Rewrapped(img: Image, again: Request) {
    && again.Requested? && img.buffer.Some?
    && again.buffer.sf == img.buffer.value.sf && again.buffer != img.buffer.value
  }

  // --- the creation loops -----------------------------------------------------------------------

  lemma {:induction false} RequestsMade(env: Env, images: seq<Image>, outcomes: seq<Creation>, i: nat)
    requires |outcomes| == |images| && RequestImages(env, images, outcomes, i).2 == Success
    ensures var r := RequestImages(env, images, outcomes, i);
      && (forall j :: 0 <= j < i && j < |images| ==> r.1[j] == images[j])
      && (forall j :: i <= j < |images| ==>
            outcomes[j].request.Requested? && r.1[j].buffer == Some(outcomes[j].request.buffer) && r.1[j].requested)
      && env.dequeued <= r.0.dequeued
      && (forall j :: i <= j < |images| ==> SfOf(outcomes[j]) in r.0.dequeued)
    decreases |images| - i
  {
    if i < |images| {
      var made, buffer := outcomes[i].made, outcomes[i].request.buffer;
      var img := images[i].(buffer := Some(buffer), requested := true, requestFence := outcomes[i].request.fence, image := made);
      var env1 := env.(dequeued := env.dequeued + {buffer.sf});
      var env2 := env1.(created := env1.created + {made}, live := env1.live + {made},
                        refs := env1.refs + multiset{buffer.wrapper});
      RequestsMade(env2, images[i := img], outcomes, i + 1);
    }
  }

  /** After giving back, a buffer is still out exactly when giving it back failed; either way its
      image no longer counts as requested. */
  lemma {:induction false} CancelsGiven(env: Env, images: seq<Image>, cancels: seq<bool>, i: nat)
    requires |cancels| == |images| && Distinct(images)
    requires forall j :: 0 <= j < |images| ==>
      images[j].buffer.Some? && (i <= j ==> images[j].requested && images[j].buffer.value.sf in env.dequeued)
    ensures var r := CancelRequested(env, images, false, cancels, i);
      && (forall j :: 0 <= j < |images| ==> r.1[j].buffer == images[j].buffer)
      && (forall j :: 0 <= j < i && j < |images| ==>
            r.1[j] == images[j] && (images[j].buffer.value.sf in r.0.dequeued <==> images[j].buffer.value.sf in env.dequeued))
      && (forall j :: i <= j < |images| ==>
            && !r.1[j].requested && r.1[j].requestFence < 0
            && (images[j].buffer.value.sf in r.0.dequeued <==> !cancels[j]))
    decreases |images| - i
  {
    if i < |images| {
      var img := images[i].(requestFence := Close(images[i].requestFence), requested := false);
      var env1 := Return(env, images[i].buffer, cancels[i]);
      var images1 := images[i := img];
      assert forall j :: 0 <= j < |images| ==> images1[j].buffer == images[j].buffer;
      assert forall j :: i < j < |images| ==> images[j].buffer.value.sf in env1.dequeued;
      CancelsGiven(env1, images1, cancels, i + 1);
    }
  }

  lemma {:induction false} SharedKeepsAll(env: Env, images: seq<Image>, cancels: seq<bool>, i: nat)
    requires |cancels| == |images|
    ensures CancelRequested(env, images, true, cancels, i) == (env, images)
    decreases |images| - i
  {
    if i < |images| {
      SharedKeepsAll(env, images, cancels, i + 1);
    }
  }

  /** A creation that is set up succeeds exactly when every round does. */
  lemma BuildSucceedsIff(s: System, recreate: bool, info: CreateInfo)
    requires |info.outcomes| == |info.cancels|
    ensures Build(s, recreate, info).1 == Success <==> AllMade(info.outcomes)
  {
    hide RequestImages, CancelRequested, Destroy, Made;
    var env0 := if recreate then CleanCache(s.env, info.kept) else s.env;
    RequestsSucceedIff(env0, seq(|info.outcomes|, _ => NO_IMAGE), info.outcomes, 0);
  }

  /** A swapchain that was built agrees with the queue exactly when every buffer could be given
      back; a shared one keeps its buffer and always agrees. */
  lemma BuildAgreesIff(s: System, recreate: bool, info: CreateInfo)
    requires |info.outcomes| == |info.cancels| && AllMade(info.outcomes)
    requires FreshBuffers(if recreate then s.env.dequeued * info.kept else s.env.dequeued, info.outcomes, 0)
    ensures Agrees(Build(s, recreate, info).0) <==> (info.shared || forall j :: 0 <= j < |info.cancels| ==> info.cancels[j])
  {
    hide RequestImages, CancelRequested, Build;
    var env0 := if recreate then CleanCache(s.env, info.kept) else s.env;
    var blank := seq(|info.outcomes|, _ => NO_IMAGE);
    BuildSucceedsIff(s, recreate, info);
    BuiltChain(s, recreate, info);
    RequestsMade(env0, blank, info.outcomes, 0);
    var made := RequestImages(env0, blank, info.outcomes, 0);
    BuffersDistinct(env0.dequeued, made.1, info.outcomes);
    var given := CancelRequested(made.0, made.1, info.shared, info.cancels, 0);
    if info.shared {
      SharedKeepsAll(made.0, made.1, info.cancels, 0);
    } else {
      CancelsGiven(made.0, made.1, info.cancels, 0);
      assert forall j :: 0 <= j < |given.1| ==> (ImageAgrees(given.0.dequeued, given.1[j]) <==> info.cancels[j]);
    }
  }

  lemma BuiltChain(s: System, recreate: bool, info: CreateInfo)
    requires |info.outcomes| == |info.cancels| && Build(s, recreate, info).1 == Success
    ensures var env0 := if recreate then CleanCache(s.env, info.kept) else s.env;
      var made := RequestImages(env0, seq(|info.outcomes|, _ => NO_IMAGE), info.outcomes, 0);
      var given := CancelRequested(made.0, made.1, info.shared, info.cancels, 0);
      var t := Build(s, recreate, info).0;
      && made.2 == Success
      && t.handle == |s.heap| + 1 && t.Has(t.handle) && t.Chain(t.handle).images == given.1 && t.env == given.0
  {
    hide RequestImages, CancelRequested, Destroy;
  }

  lemma BuffersDistinct(dequeued: set<nat>, images: seq<Image>, outcomes: seq<Creation>)
    requires |images| == |outcomes| && FreshBuffers(dequeued, outcomes, 0)
    requires forall j :: 0 <= j < |images| ==>
      outcomes[j].request.Requested? && images[j].buffer == Some(outcomes[j].request.buffer)
    ensures Distinct(images)
  {
    forall i, j | 0 <= i < j < |images|
      ensures images[i].buffer.value.sf != images[j].buffer.value.sf
    {
      assert SfOf(outcomes[i]) != SfOf(outcomes[j]);
    }
  }

  // --- the other calls ---------------------------------------------------------------------------

  lemma ChainAgrees(s: System)
    requires Agrees(s) && s.handle != 0
    ensures s.Has(s.handle) && ImagesAgree(s.env.dequeued, s.Chain(s.handle).images)
  {
  }

  /** A change of one image of the active swapchain and of its own buffer in the queue. */
  lemma OneImageAgrees(dequeued: set<nat>, images: seq<Image>, i: nat, dequeued': set<nat>, img: Image)
    requires i < |images| && ImagesAgree(dequeued, images) && img.buffer == images[i].buffer
    requires dequeued' - {images[i].buffer.value.sf} == dequeued - {images[i].buffer.value.sf}
    ensures ImagesAgree(dequeued', images[i := img]) <==> ImageAgrees(dequeued', img)
  {
    assert ImageAgrees(dequeued, images[i]);
    var after := images[i := img];
    forall j | 0 <= j < |after| && j != i
      ensures ImageAgrees(dequeued', after[j])
    {
      assert ImageAgrees(dequeued, images[j]);
      assert images[j].buffer.value.sf != images[i].buffer.value.sf;
      assert images[j].buffer.value.sf in dequeued' - {images[i].buffer.value.sf}
             <==> images[j].buffer.value.sf in dequeued - {images[i].buffer.value.sf};
    }
    if ImagesAgree(dequeued', after) {
      assert ImageAgrees(dequeued', after[i]);
    }
  }

  /** A buffer that belongs to no image of the active swapchain does not matter to it. */
  lemma ForeignBuffer(dequeued: set<nat>, images: seq<Image>, sf: nat, dequeued': set<nat>)
    requires ImagesAgree(dequeued, images) && dequeued' - {sf} == dequeued - {sf}
    requires forall j :: 0 <= j < |images| ==> !Wraps(images[j], sf)
    ensures ImagesAgree(dequeued', images)
  {
    forall j | 0 <= j < |images|
      ensures ImageAgrees(dequeued', images[j])
    {
      assert ImageAgrees(dequeued, images[j]) && !Wraps(images[j], sf);
      assert images[j].buffer.value.sf in dequeued' - {sf} <==> images[j].buffer.value.sf in dequeued - {sf};
    }
  }

  /** Acquiring keeps agreement except when the driver fails on a known buffer that then cannot
      be given back. */
  lemma AcquireAgreesIff(s: System, h: nat, request: Request, driverOk: bool, cancelOk: bool)
    requires Agrees(s) && Legal(s, OpAcquire(h, request, driverOk, cancelOk))
    requires QueueContract(s, OpAcquire(h, request, driverOk, cancelOk))
    ensures Agrees(Acquire(s, h, request, driverOk, cancelOk).0) <==> (Known(s, h, request) ==> driverOk || cancelOk)
  {
    if s.handle == h && !s.Chain(h).shared && request.Requested? {
      hide ImagesAgree, Find;
      var images := s.Chain(h).images;
      var sf := request.buffer.sf;
      var i := Find(images, sf);
      var taken := s.env.dequeued + {sf};
      var after := if driverOk || !cancelOk then taken else taken - {sf};
      var t := Acquire(s, h, request, driverOk, cancelOk).0;
      ChainAgrees(s);
      assert taken - {sf} == s.env.dequeued - {sf};
      assert (taken - {sf}) - {sf} == s.env.dequeued - {sf};
      if i == |images| {
        ForeignBuffer(s.env.dequeued, images, sf, t.env.dequeued);
      } else {
        assert Wraps(images[i], sf);
        OneImageAgrees(s.env.dequeued, images, i, t.env.dequeued, t.Chain(h).images[i]);
        assert t.Chain(h).images == images[i := t.Chain(h).images[i]];
      }
    }
  }

  /** Presenting keeps agreement except when a shared swapchain gets its buffer back in another
      wrapper. */
  lemma PresentAgreesIff(s: System, h: nat, i: nat, signal: Signal, pending: seq<bool>,
                         geometryOk: bool, flushOk: bool, again: Request)
    requires Agrees(s) && Legal(s, OpPresent(h, i, signal, pending, geometryOk, flushOk, again))
    requires QueueContract(s, OpPresent(h, i, signal, pending, geometryOk, flushOk, again))
    ensures var lost := s.handle == h && signal.ok && geometryOk && flushOk && s.Chain(h).shared
                        && Rewrapped(s.Chain(h).images[i], again);
      Agrees(Present(s, h, i, signal, pending, geometryOk, flushOk, again).0) <==> !lost
  {
    hide ImagesAgree, ReleaseIdle;
    var images := s.Chain(h).images;
    var img := images[i].(releaseFence := if signal.fence >= 0 then signal.copy else Close(images[i].releaseFence));
    var t := Present(s, h, i, signal, pending, geometryOk, flushOk, again).0;
    if s.handle == h && signal.ok {
      ChainAgrees(s);
      FlushAgrees(s.env.dequeued, images, i, s.env, img, s.Chain(h).shared, geometryOk, flushOk, again);
      var r := Flush(s.env, img, s.Chain(h).shared, geometryOk, flushOk, again);
      assert t.Chain(h).images == images[i := img][i := r.1] == images[i := r.1];
    } else if s.handle != h {
      RetiredPresent(s, h, i, signal, pending, geometryOk, flushOk, again);
    }
  }

  lemma FlushAgrees(dequeued: set<nat>, images: seq<Image>, i: nat, env: Env, img: Image, shared: bool,
                    geometryOk: bool, flushOk: bool, again: Request)
    requires i < |images| && ImagesAgree(dequeued, images) && env.dequeued == dequeued
    requires img == images[i].(releaseFence := img.releaseFence)
    requires img.buffer.Some? ==> (flushOk ==> img.buffer.value.sf in dequeued)
    requires img.buffer.Some? && again.Requested? ==> again.buffer.sf !in dequeued - {img.buffer.value.sf}
    requires shared ==> |images| == 1
    ensures var r := Flush(env, img, shared, geometryOk, flushOk, again);
      ImagesAgree(r.0.dequeued, images[i := r.1]) <==> !(geometryOk && flushOk && shared && Rewrapped(img, again))
  {
    var r := Flush(env, img, shared, geometryOk, flushOk, again);
    assert ImageAgrees(dequeued, images[i]);
    var sf := img.buffer.value.sf;
    if shared && geometryOk && flushOk && again.Requested? && again.buffer.sf != sf {
      assert images[i := r.1] == [r.1];
      assert ImageAgrees(r.0.dequeued, r.1);
    } else {
      assert r.0.dequeued - {sf} == dequeued - {sf};
      OneImageAgrees(dequeued, images, i, r.0.dequeued, r.1);
    }
  }

  /** Nothing that happens to a swapchain that is not active reaches the queue. */
  lemma RetiredPresent(s: System, h: nat, i: nat, signal: Signal, pending: seq<bool>,
                       geometryOk: bool, flushOk: bool, again: Request)
    requires Legal(s, OpPresent(h, i, signal, pending, geometryOk, flushOk, again)) && s.handle != h
    ensures var t := Present(s, h, i, signal, pending, geometryOk, flushOk, again).0;
      && t.handle == s.handle && t.env.dequeued == s.env.dequeued && |t.heap| == |s.heap|
      && (s.handle != 0 && s.Has(s.handle) ==> t.Has(s.handle) && t.Chain(s.handle) == s.Chain(s.handle))
  {
  }

  lemma DestroyAgrees(s: System, h: nat, cancels: seq<bool>, kept: set<nat>)
    requires Owned(s) && Agrees(s) && Legal(s, OpDestroy(h, cancels, kept))
    ensures Agrees(Destroy(s, h, cancels, kept))
  {
    hide ReleaseAll, ImagesAgree;
    if s.handle != h {
      OwnedCovers(s, h);
      ReleaseAllBalanced(s.env, s.Chain(h).images, false, cancels, 0);
    }
  }

  /** Creating keeps agreement except when everything is made and a buffer cannot be given back. */
  lemma CreateAgreesIff(s: System, previous: nat, idle: seq<bool>, info: CreateInfo)
    requires Owned(s) && Agrees(s) && Legal(s, OpCreate(previous, idle, info))
    requires QueueContract(s, OpCreate(previous, idle, info))
    ensures Agrees(Create(s, previous, idle, info).0) <==> Keeps(s, OpCreate(previous, idle, info))
  {
    hide ReleaseIdle, ImagesAgree, Build, FreshBuffers, AllMade;
    if s.handle == previous {
      var t := s;
      if previous != 0 {
        t := Retire(s, previous, idle);
        OwnedCovers(s, previous);
        ReleaseIdleBalanced(s.env, s.Chain(previous).images, idle, 0);
      }
      if info.setup == Success && info.memory {
        if AllMade(info.outcomes) {
          BuildAgreesIff(t, previous != 0, info);
        } else {
          BuildSucceedsIff(t, previous != 0, info);
          FailedBuildInactive(t, previous != 0, info);
        }
      }
    }
  }

  lemma FailedBuildInactive(s: System, recreate: bool, info: CreateInfo)
    requires |info.outcomes| == |info.cancels| && Build(s, recreate, info).1 != Success && s.handle == 0
    ensures Build(s, recreate, info).0.handle == 0
  {
    hide RequestImages, CancelRequested, ReleaseAll;
  }

  /** A call keeps the active swapchain in agreement with the queue exactly when `Keeps` says. */
  lemma StepAgreesIff(s: System, op: Op)
    requires Owned(s) && Agrees(s) && Legal(s, op) && QueueContract(s, op)
    ensures Agrees(Step(s, op)) <==> Keeps(s, op)
  {
    hide Owned, Agrees, Create, Acquire, Present, Destroy, Known, Rewrapped, AllMade;
    match op
    case OpCreate(previous, idle, info) => CreateAgreesIff(s, previous, idle, info);
    case OpAcquire(h, request, driverOk, cancelOk) => AcquireAgreesIff(s, h, request, driverOk, cancelOk);
    case OpPresent(h, i, signal, pending, geometryOk, flushOk, again) =>
      PresentAgreesIff(s, h, i, signal, pending, geometryOk, flushOk, again);
    case OpDestroy(h, cancels, kept) => DestroyAgrees(s, h, cancels, kept);
  }

  ghost predicate AgreesUpTo(states: seq<System>, n: nat)
    requires n < |states|
  {
    forall k :: 0 <= k <= n ==> Agrees(states[k])
  }

  ghost predicate KeptUpTo(states: seq<System>, ops: seq<Op>, n: nat)
    requires n <= |ops| < |states|
  {
    forall k :: 0 <= k < n ==> Keeps(states[k], ops[k])
  }

  lemma OneMore(states: seq<System>, ops: seq<Op>, n: nat)
    requires 0 < n <= |ops| < |states|
    ensures AgreesUpTo(states, n) <==> AgreesUpTo(states, n - 1) && Agrees(states[n])
    ensures KeptUpTo(states, ops, n) <==> KeptUpTo(states, ops, n - 1) && Keeps(states[n - 1], ops[n - 1])
    ensures AgreesUpTo(states, n - 1) ==> Agrees(states[n - 1])
  {
    hide Agrees, Keeps;
  }

  /** The main result: over every run, every state up to the `n`-th agrees with the queue if and only
      if every call up to it was answered as `Keeps` says. */
  lemma {:induction false} RunAgreesIff(states: seq<System>, ops: seq<Op>, n: nat)
    requires IsRun(states, ops) && states[0] == START && n < |states|
    requires forall k :: 0 <= k < n ==> QueueContract(states[k], ops[k])
    ensures AgreesUpTo(states, n) <==> KeptUpTo(states, ops, n)
  {
    hide Step, Legal, QueueContract, Keeps, Agrees;
    if n == 0 {
      StartAgrees();
    } else {
      hide AgreesUpTo, KeptUpTo;
      RunAgreesIff(states, ops, n - 1);
      OneMore(states, ops, n);
      if AgreesUpTo(states, n - 1) {
        RunOwned(states, ops, n - 1);
        StepAgreesIff(states[n - 1], ops[n - 1]);
      }
    }
  }

  lemma StartAgrees()
    ensures Agrees(START)
  {
  }

  // --- runs that lose agreement --------------------------------------------------------------------

  const BUFFER := Buffer(1, 1)

  /** A swapchain of one image. */
  function One(shared: bool, cancelOk: bool): CreateInfo {
    CreateInfo(shared, Success, true, [Creation(Requested(BUFFER, -1), 1)], [cancelOk], {})
  }

  function OneBuilt(shared: bool, cancelOk: bool): System {
    System(1, [Live(Swapchain(shared, [Image(1, Some(BUFFER), -1, -1, shared)]))],
           Env(if shared || !cancelOk then {1} else {}, {1}, {1}, multiset{1}))
  }

  lemma OneRequested()
    ensures RequestImages(START.env, [NO_IMAGE], One(false, false).outcomes, 0)
         == (Env({1}, {1}, {1}, multiset{1}), [Image(1, Some(BUFFER), -1, -1, true)], Success)
  {
    var images := [NO_IMAGE][0 := Image(1, Some(BUFFER), -1, -1, true)];
    assert images == [Image(1, Some(BUFFER), -1, -1, true)];
    assert {} + {1} == {1} && multiset{} + multiset{1} == multiset{1};
    assert RequestImages(Env({1}, {1}, {1}, multiset{1}), images, One(false, false).outcomes, 1)
        == (Env({1}, {1}, {1}, multiset{1}), images, Success);
  }

  lemma OneIsBuilt(shared: bool, cancelOk: bool)
    ensures Create(START, 0, [], One(shared, cancelOk)) == (OneBuilt(shared, cancelOk), Success)
  {
    hide RequestImages;
    OneRequested();
    var info := One(shared, cancelOk);
    var blank := seq(|info.outcomes|, _ => NO_IMAGE);
    assert blank == [NO_IMAGE] && info.outcomes == One(false, false).outcomes;
    var env := Env({1}, {1}, {1}, multiset{1});
    assert RequestImages(START.env, blank, info.outcomes, 0) == (env, [Image(1, Some(BUFFER), -1, -1, true)], Success);
    assert START.heap + OneBuilt(shared, cancelOk).heap == OneBuilt(shared, cancelOk).heap;
    var images := [Image(1, Some(BUFFER), -1, -1, true)];
    if shared {
      SharedKeepsAll(env, images, info.cancels, 0);
    } else {
      var given := images[0 := Image(1, Some(BUFFER), -1, -1, false)];
      assert given == [Image(1, Some(BUFFER), -1, -1, false)];
      var env1 := Return(env, Some(BUFFER), cancelOk);
      assert {1} - {1} == {};
      assert CancelRequested(env1, given, false, info.cancels, 1) == (env1, given);
      assert CancelRequested(env, images, false, info.cancels, 0) == (env1, given);
      assert env1 == OneBuilt(shared, cancelOk).env;
      assert Build(START, false, info) == (OneBuilt(shared, cancelOk), Success);
    }
  }

  lemma OneLegal(shared: bool, cancelOk: bool)
    ensures var op := OpCreate(0, [], One(shared, cancelOk));
      && Legal(START, op) && QueueContract(START, op) && Step(START, op) == OneBuilt(shared, cancelOk)
  {
    hide RequestImages, CancelRequested, Build;
    OneIsBuilt(shared, cancelOk);
    var outcomes := One(shared, cancelOk).outcomes;
    assert FreshBuffers({}, outcomes, 0);
    assert FreshHandles({}, outcomes, 0);
  }

  lemma OneAgrees(shared: bool, cancelOk: bool)
    ensures Agrees(OneBuilt(shared, cancelOk)) <==> shared || cancelOk
  {
    var s := OneBuilt(shared, cancelOk);
    var images := s.Chain(1).images;
    assert images == [Image(1, Some(BUFFER), -1, -1, shared)];
    if !shared && !cancelOk {
      assert !ImageAgrees(s.env.dequeued, images[0]);
    }
  }

  /** A creation whose only cancel fails: the buffer stays out and its image does not know. */
  lemma FailedCancelDisagrees()
    ensures var op := OpCreate(0, [], One(false, false));
      Legal(START, op) && QueueContract(START, op) && !Agrees(Step(START, op))
  {
    OneLegal(false, false);
    OneAgrees(false, false);
  }

  /** An acquire on which the driver fails, and then the cancel. */
  lemma FailedAcquireDisagrees()
    ensures var create := OpCreate(0, [], One(false, true));
      var acquire := OpAcquire(1, Requested(BUFFER, 7), false, false);
      && Legal(START, create) && Agrees(Step(START, create))
      && Legal(Step(START, create), acquire) && QueueContract(Step(START, create), acquire)
      && !Agrees(Step(Step(START, create), acquire))
  {
    OneLegal(false, true);
    OneAgrees(false, true);
    var s := OneBuilt(false, true);
    assert Find(s.Chain(1).images, 1) == 0;
    AcquireAgreesIff(s, 1, Requested(BUFFER, 7), false, false);
  }

  /** A shared swapchain that gets its surface buffer back in another wrapper. */
  lemma RewrappedDisagrees()
    ensures var create := OpCreate(0, [], One(true, true));
      var present := OpPresent(1, 0, Signal(true, -1, -1), [false], true, true, Requested(Buffer(2, 1), 7));
      && Legal(START, create) && Agrees(Step(START, create))
      && Legal(Step(START, create), present) && QueueContract(Step(START, create), present)
      && !Agrees(Step(Step(START, create), present))
  {
    OneLegal(true, true);
    OneAgrees(true, true);
    var s := OneBuilt(true, true);
    PresentAgreesIff(s, 1, 0, Signal(true, -1, -1), [false], true, true, Requested(Buffer(2, 1), 7));
  }

  /** A creation that fails in its second round while no buffer can be given back: nothing is active
      afterwards, so nothing disagrees. */
  lemma FailedCreationAgrees()
    ensures var info := CreateInfo(false, Success, true,
                                   [Creation(Requested(BUFFER, -1), 1), Creation(RequestFailed, 0)], [false, false], {});
      var op := OpCreate(0, [], info);
      && Legal(START, op) && QueueContract(START, op) && Agrees(Step(START, op))
  {
    hide Create;
    var outcomes := [Creation(Requested(BUFFER, -1), 1), Creation(RequestFailed, 0)];
    var info := CreateInfo(false, Success, true, outcomes, [false, false], {});
    assert FreshBuffers({}, outcomes, 0);
    assert FreshHandles({}, outcomes, 0);
    assert !Made(outcomes[1]);
    NothingOwned();
    CreateAgreesIff(START, 0, [], info);
  }
}
