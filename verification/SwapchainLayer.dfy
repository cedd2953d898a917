/** The calls of the swapchain layer, changing a surface and its swapchains in place, against the
    state machine of module `Swapchain`. */
module SwapchainLayer {
  import opened OrderedMap
  import opened Chains = Swapchain

  /** One entry of a present call, with what the environment answers to it. */
  datatype Entry = Entry(h: nat, i: nat, signal: Signal, pending: seq<bool>,
                         geometryOk: bool, flushOk: bool, again: Request)

  predicate Presentable(s: System, entry: Entry) {
    s.Has(entry.h) && entry.i < |s.Chain(entry.h).images| == |entry.pending|
  }

  predicate AllPresentable(s: System, entries: seq<Entry>) {
    forall k :: 0 <= k < |entries| ==> Presentable(s, entries[k])
  }

  function PresentOne(s: System, entry: Entry): (System, Result)
    requires Presentable(s, entry)
  {
    Present(s, entry.h, entry.i, entry.signal, entry.pending, entry.geometryOk, entry.flushOk, entry.again)
  }

  /** A present call handles its swapchains in turn and reports on each of them. */
  function PresentAll(s: System, entries: seq<Entry>): (r: (System, seq<Result>))
    requires AllPresentable(s, entries)
    ensures |r.1| == |entries|
    decreases |entries|
  {
    if entries == [] then (s, [])
    else
      var first := PresentOne(s, entries[0]);
      PresentKeepsShape(s, entries[0], entries[1..]);
      var rest := PresentAll(first.0, entries[1..]);
      (rest.0, [first.1] + rest.1)
  }

  /** Presenting frees no swapchain and keeps the number of images, so that later entries of the
      same call still name what they named. */
  lemma PresentKeepsShape(s: System, entry: Entry, rest: seq<Entry>)
    requires Presentable(s, entry) && AllPresentable(s, rest)
    ensures AllPresentable(PresentOne(s, entry).0, rest)
  {
    hide Flush, ReleaseImage, ReleaseIdle;
    var t := PresentOne(s, entry).0;
    forall k | 0 <= k < |rest|
      ensures Presentable(t, rest[k])
    {
      assert Presentable(s, rest[k]);
    }
  }

  /** Everything that a run of single presents keeps, a present call of many swapchains keeps. */
  lemma {:induction false} PresentAllOwned(s: System, entries: seq<Entry>)
    requires AllPresentable(s, entries) && Owned(s)
    ensures Owned(PresentAll(s, entries).0)
    decreases |entries|
  {
    hide Owned, PresentOne;
    if entries != [] {
      PresentKeepsShape(s, entries[0], entries[1..]);
      PresentOneOwned(s, entries[0]);
      PresentAllOwned(PresentOne(s, entries[0]).0, entries[1..]);
    }
  }

  lemma PresentOneOwned(s: System, entry: Entry)
    requires Presentable(s, entry) && Owned(s)
    ensures Owned(PresentOne(s, entry).0)
  {
    hide Owned, Present;
    PresentOwned(s, entry.h, entry.i, entry.signal, entry.pending, entry.geometryOk, entry.flushOk, entry.again);
  }

  lemma {:induction false} PresentAllSnoc(s: System, entries: seq<Entry>, entry: Entry)
    requires AllPresentable(s, entries) && AllPresentable(s, entries + [entry])
    ensures var before := PresentAll(s, entries);
      && Presentable(before.0, entry)
      && PresentAll(s, entries + [entry])
         == (PresentOne(before.0, entry).0, before.1 + [PresentOne(before.0, entry).1])
    decreases |entries|
  {
    hide PresentOne, Presentable;
    if entries == [] {
      var one := entries + [entry];
      assert one[0] == entry && one[1..] == [];
      assert Presentable(s, one[0]);
      PresentKeepsShape(s, entry, []);
      assert PresentAll(PresentOne(s, entry).0, one[1..]) == (PresentOne(s, entry).0, []);
      var results := [PresentOne(s, entry).1];
      assert PresentAll(s, one) == (PresentOne(s, entry).0, results + []);
      assert results + [] == results && PresentAll(s, entries).1 + results == results;
    } else {
      assert (entries + [entry])[1..] == entries[1..] + [entry];
      PresentKeepsShape(s, entries[0], entries[1..]);
      PresentKeepsShape(s, entries[0], entries[1..] + [entry]);
      PresentAllSnoc(PresentOne(s, entries[0]).0, entries[1..], entry);
      var before := PresentAll(s, entries);
      assert before.1 + [PresentOne(before.0, entry).1]
          == [before.1[0]] + (before.1[1..] + [PresentOne(before.0, entry).1]);
    }
  }

  /** What is active stays active unless the driver fails on it, and keeps its buffers then; what is
      not active stays so. */
  lemma PresentKeepsActive(s: System, entry: Entry)
    requires Presentable(s, entry) && (s.handle != 0 ==> s.Has(s.handle))
    ensures var t := PresentOne(s, entry).0;
      && t.handle == (if s.handle == entry.h && !entry.signal.ok then 0 else s.handle)
      && (t.handle != 0 ==> t.Has(t.handle) && t.Chain(t.handle).shared == s.Chain(t.handle).shared
                            && |t.Chain(t.handle).images| == |s.Chain(t.handle).images|
                            && forall j :: 0 <= j < |t.Chain(t.handle).images| ==>
                                 t.Chain(t.handle).images[j].buffer == s.Chain(t.handle).images[j].buffer)
  {
    hide ReleaseImage, ReleaseIdle;
  }

  /** The driver has failed on a swapchain while it was active. */
  ghost predicate Failed(handle: nat, entries: seq<Entry>, k: nat)
    requires k <= |entries|
  {
    exists j :: 0 <= j < k && entries[j].h == handle && !entries[j].signal.ok
  }

  /** The result for one entry of a present call: out of date exactly when its swapchain is not the
      active one, or no longer since the driver failed on it in the same call; the driver's failure is
      passed on; success exactly when the buffer was flushed and, for a shared swapchain, the same one
      came back in the same wrapper; otherwise the surface is lost. */
  lemma {:induction false} PresentAllResults(s: System, entries: seq<Entry>, k: nat)
    requires AllPresentable(s, entries) && (s.handle != 0 ==> s.Has(s.handle)) && k < |entries|
    ensures Presentable(s, entries[k])
    ensures var r := PresentAll(s, entries).1[k];
      var (e, images) := (entries[k], s.Chain(entries[k].h).images);
      var active := s.handle == e.h && !Failed(e.h, entries, k);
      var flushed := e.geometryOk && e.flushOk
                     && (s.Chain(e.h).shared ==> e.again.Requested? && images[e.i].buffer == Some(e.again.buffer));
      && (r == OutOfDate <==> !active)
      && (r == DriverError <==> active && !e.signal.ok)
      && (r == Success <==> active && e.signal.ok && flushed)
      && (r == SurfaceLost <==> active && e.signal.ok && !flushed)
    decreases |entries|
  {
    hide PresentOne, Present;
    var e := entries[k];
    assert Presentable(s, e) && Presentable(s, entries[0]);
    PresentKeepsShape(s, entries[0], entries[1..]);
    if k == 0 {
      assert PresentAll(s, entries).1[0] == PresentOne(s, e).1;
      OneResult(s, e);
    } else {
      var t := PresentOne(s, entries[0]).0;
      PresentKeepsActive(s, entries[0]);
      assert entries[1..][k - 1] == e;
      PresentAllResults(t, entries[1..], k - 1);
      FailedShifts(e.h, entries, k);
    }
  }

  lemma OneResult(s: System, e: Entry)
    requires Presentable(s, e)
    ensures var r := PresentOne(s, e).1;
      var flushed := e.geometryOk && e.flushOk
        && (s.Chain(e.h).shared ==> e.again.Requested? && s.Chain(e.h).images[e.i].buffer == Some(e.again.buffer));
      && (r == OutOfDate <==> s.handle != e.h)
      && (r == DriverError <==> s.handle == e.h && !e.signal.ok)
      && (r == Success <==> s.handle == e.h && e.signal.ok && flushed)
      && (r == SurfaceLost <==> s.handle == e.h && e.signal.ok && !flushed)
  {
    hide Present;
    PresentResult(s, e.h, e.i, e.signal, e.pending, e.geometryOk, e.flushOk, e.again);
  }

  lemma FailedShifts(handle: nat, entries: seq<Entry>, k: nat)
    requires 0 < k <= |entries|
    ensures Failed(handle, entries, k)
       <==> (entries[0].h == handle && !entries[0].signal.ok) || Failed(handle, entries[1..], k - 1)
  {
    if j :| 0 <= j < k && entries[j].h == handle && !entries[j].signal.ok {
      assert j == 0 || entries[1..][j - 1] == entries[j];
    }
    if j :| 0 <= j < k - 1 && entries[1..][j].h == handle && !entries[1..][j].signal.ok {
      assert entries[j + 1] == entries[1..][j];
    }
  }

  /** One surface, the swapchains made for it, and the environment. */
  class Layer {
    var swapchainHandle: nat
    var heap: seq<Slot>
    var env: Env

    function State(): System
      reads this
    {
      System(swapchainHandle, heap, env)
    }

    function Images(h: nat): seq<Image>
      reads this
      requires State().Has(h)
    {
      heap[h - 1].chain.images
    }

    constructor ()
      ensures State() == START
    {
      swapchainHandle, heap, env := 0, [], Env({}, {}, {}, multiset{});
    }

    method SetImage(h: nat, i: nat, img: Image)
      requires State().Has(h) && i < |Images(h)|
      modifies this`heap
      ensures State() == old(State()).With(h, old(Images(h))[i := img], env)
    {
      heap := heap[h - 1 := Live(heap[h - 1].chain.(images := Images(h)[i := img]))];
    }

    method ReleaseSwapchainImage(h: nat, i: nat, window: bool, releaseFence: int, deferIfPending: bool,
                                 pending: bool, cancelOk: bool)
      requires State().Has(h) && i < |Images(h)|
      modifies this
      ensures var r := ReleaseImage(old(env), old(Images(h)[i]), window, releaseFence, deferIfPending, pending, cancelOk);
        State() == old(State()).With(h, old(Images(h))[i := r.1], r.0)
    {
      var img := Images(h)[i];
      if releaseFence == -1 || img.requested {
        if img.requested {
          img := img.(requestFence := -1);
          if window {
            env := Return(env, img.buffer, cancelOk);
          }
          img := img.(requested := false);
        }
        if !(deferIfPending && img.releaseFence >= 0 && pending) {
          img := img.(releaseFence := Close(img.releaseFence));
          if img.image != 0 {
            env := env.(refs := env.refs - Wrapper(img));
            img := img.(buffer := None);
            env := env.(live := env.live - {img.image});
            img := img.(image := 0);
          }
        }
      }
      SetImage(h, i, img);
    }

    method ReleaseSwapchain(h: nat, pending: seq<bool>)
      requires State().Has(h) && |pending| == |Images(h)|
      modifies this
      ensures State() == Retire(old(State()), h, pending)
    {
      hide ReleaseImage;
      if swapchainHandle != h {
        return;
      }
      var i := 0;
      while i < |Images(h)|
        invariant State().Has(h) && i <= |Images(h)| == |pending|
        invariant State() == old(State()).With(h, Images(h), env)
        invariant ReleaseIdle(env, Images(h), pending, i) == ReleaseIdle(old(env), old(Images(h)), pending, 0)
        decreases |pending| - i
      {
        if !Images(h)[i].requested {
          ReleaseSwapchainImage(h, i, false, -1, true, pending[i], true);
        }
        i := i + 1;
      }
      swapchainHandle := 0;
    }

    method DestroySwapchainInternal(h: nat, cancels: seq<bool>, kept: set<nat>)
      requires State().Has(h) && |cancels| == |Images(h)|
      modifies this
      ensures State() == Destroy(old(State()), h, cancels, kept)
    {
      hide ReleaseImage;
      var active := swapchainHandle == h;
      var i := 0;
      while i < |Images(h)|
        invariant State().Has(h) && i <= |Images(h)| == |cancels|
        invariant State() == old(State()).With(h, Images(h), env)
        invariant ReleaseAll(env, Images(h), active, cancels, i) == ReleaseAll(old(env), old(Images(h)), active, cancels, 0)
        decreases |cancels| - i
      {
        ReleaseSwapchainImage(h, i, active, -1, false, false, cancels[i]);
        i := i + 1;
      }
      if active {
        swapchainHandle := 0;
        env := CleanCache(env, kept);
      }
      heap := heap[h - 1 := Freed];
    }

    /** Both creation loops; the first one stops at the first failure, the second one never. */
    method CreateImages(h: nat, recreate: bool, info: CreateInfo) returns (result: Result)
      requires State().Has(h) && |Images(h)| == |info.outcomes| == |info.cancels|
      modifies this
      ensures var env0 := if recreate then CleanCache(old(env), info.kept) else old(env);
        var made := RequestImages(env0, old(Images(h)), info.outcomes, 0);
        var given := CancelRequested(made.0, made.1, old(State().Chain(h)).shared, info.cancels, 0);
        result == made.2 && State() == old(State()).With(h, given.1, given.0)
    {
      if recreate {
        env := CleanCache(env, info.kept);
      }
      ghost var env0 := env;
      result := RequestAll(h, info.outcomes);
      ghost var made := RequestImages(env0, old(Images(h)), info.outcomes, 0);
      var shared := heap[h - 1].chain.shared;
      var i := 0;
      while i < |Images(h)|
        invariant State().Has(h) && i <= |Images(h)| == |info.cancels|
        invariant State() == old(State()).With(h, Images(h), env) && result == made.2
        invariant CancelRequested(env, Images(h), shared, info.cancels, i)
               == CancelRequested(made.0, made.1, shared, info.cancels, 0)
        decreases |info.cancels| - i
      {
        var img := Images(h)[i];
        if img.requested && !shared {
          env := Return(env, img.buffer, info.cancels[i]);
          SetImage(h, i, img.(requestFence := Close(img.requestFence), requested := false));
        }
        i := i + 1;
      }
    }

    method RequestAll(h: nat, outcomes: seq<Creation>) returns (result: Result)
      requires State().Has(h) && |Images(h)| == |outcomes|
      modifies this
      ensures var made := RequestImages(old(env), old(Images(h)), outcomes, 0);
        result == made.2 && State() == old(State()).With(h, made.1, made.0)
    {
      result := Success;
      var i := 0;
      while i < |Images(h)| && result == Success
        invariant State().Has(h) && i <= |Images(h)| == |outcomes|
        invariant State() == old(State()).With(h, Images(h), env)
        invariant RequestImages(old(env), old(Images(h)), outcomes, 0)
               == if result == Success then RequestImages(env, Images(h), outcomes, i) else (env, Images(h), result)
        decreases |outcomes| - i
      {
        if outcomes[i].request.RequestFailed? {
          result := SurfaceLost;
        } else {
          var buffer, fence := outcomes[i].request.buffer, outcomes[i].request.fence;
          env := env.(dequeued := env.dequeued + {buffer.sf});
          SetImage(h, i, Images(h)[i].(buffer := Some(buffer), requested := true, requestFence := fence,
                                       image := outcomes[i].made));
          if outcomes[i].made == 0 {
            result := DriverError;
          } else {
            env := env.(created := env.created + {outcomes[i].made}, live := env.live + {outcomes[i].made},
                        refs := env.refs + multiset{buffer.wrapper});
          }
        }
        i := i + 1;
      }
    }

    /** A call that fails after retiring the old swapchain leaves the surface without one. */
    method CreateSwapchainKHR(oldSwapchain: nat, pending: seq<bool>, info: CreateInfo) returns (result: Result)
      requires |info.outcomes| == |info.cancels|
      requires oldSwapchain != 0 ==> State().Has(oldSwapchain) && |pending| == |Images(oldSwapchain)|
      modifies this
      ensures (State(), result) == Create(old(State()), oldSwapchain, pending, info)
    {
      if swapchainHandle != oldSwapchain {
        return WindowInUse;
      }
      if oldSwapchain != 0 {
        ReleaseSwapchain(oldSwapchain, pending);
      }
      if info.setup != Success {
        return info.setup;
      }
      if !info.memory {
        return OutOfHostMemory;
      }
      result := Fill(oldSwapchain != 0, info);
    }

    method Fill(recreate: bool, info: CreateInfo) returns (result: Result)
      requires |info.outcomes| == |info.cancels|
      modifies this
      ensures (State(), result) == Build(old(State()), recreate, info)
    {
      hide RequestImages, CancelRequested, Destroy;
      heap := heap + [Live(Swapchain.Swapchain(info.shared, seq(|info.outcomes|, _ => NO_IMAGE)))];
      var h := |heap|;
      result := CreateImages(h, recreate, info);
      assert heap == old(heap) + [Live(Swapchain.Swapchain(info.shared, Images(h)))];
      if result != Success {
        DestroySwapchainInternal(h, info.cancels, info.kept);
        return;
      }
      swapchainHandle := h;
    }

    /** The index is set on success alone. */
    method AcquireNextImageKHR(h: nat, request: Request, driverOk: bool, cancelOk: bool)
      returns (result: Result, imageIndex: nat)
      requires State().Has(h) && (State().Chain(h).shared ==> Images(h) != [])
      modifies this
      ensures (State(), result, imageIndex) == Acquire(old(State()), h, request, driverOk, cancelOk)
    {
      if swapchainHandle != h {
        return OutOfDate, 0;
      }
      if heap[h - 1].chain.shared {
        return if driverOk then Success else DriverError, 0;
      }
      if request.RequestFailed? {
        return SurfaceLost, 0;
      }
      var buffer := request.buffer;
      env := env.(dequeued := env.dequeued + {buffer.sf});
      var index := 0;
      while index < |Images(h)| && !Wraps(Images(h)[index], buffer.sf)
        invariant index <= |Images(h)|
        invariant forall j :: 0 <= j < index ==> !Wraps(Images(h)[j], buffer.sf)
      {
        index := index + 1;
      }
      assert index == Find(Images(h), buffer.sf);
      if index == |Images(h)| {
        env := Return(env, Some(buffer), cancelOk);
        return OutOfDate, 0;
      }
      SetImage(h, index, Images(h)[index].(requested := true, requestFence := request.fence));
      if !driverOk {
        env := Return(env, Some(buffer), cancelOk);
        SetImage(h, index, Images(h)[index].(requested := false, requestFence := -1));
        assert Images(h) == old(Images(h))[index := Images(h)[index]];
        assert heap == old(heap)[h - 1 := heap[h - 1]];
        return DriverError, 0;
      }
      return Success, index;
    }

    method FlushBuffer(h: nat, i: nat, geometryOk: bool, flushOk: bool, again: Request) returns (result: Result)
      requires State().Has(h) && i < |Images(h)|
      modifies this
      ensures var r := Flush(old(env), old(Images(h)[i]), old(State().Chain(h)).shared, geometryOk, flushOk, again);
        result == r.2 && State() == old(State()).With(h, old(Images(h))[i := r.1], r.0)
    {
      var img := Images(h)[i];
      result := SurfaceLost;
      if geometryOk {
        if flushOk {
          env := Return(env, img.buffer, true);
          img := img.(requestFence := Close(img.requestFence), requested := false);
          result := Success;
        }
        if heap[h - 1].chain.shared && result == Success {
          if again.RequestFailed? {
            result := SurfaceLost;
          } else {
            env := env.(dequeued := env.dequeued + {again.buffer.sf});
            if img.buffer != Some(again.buffer) {
              result := SurfaceLost;
            } else {
              img := img.(requestFence := again.fence, requested := true);
            }
          }
        }
      }
      SetImage(h, i, img);
    }

    method PresentEntry(entry: Entry) returns (result: Result)
      requires Presentable(State(), entry)
      modifies this
      ensures (State(), result) == PresentOne(old(State()), entry)
    {
      hide Flush, ReleaseImage, ReleaseIdle;
      var h, i, signal := entry.h, entry.i, entry.signal;
      var img := Images(h)[i].(releaseFence := Close(Images(h)[i].releaseFence));
      if signal.fence >= 0 {
        img := img.(releaseFence := signal.copy);
      }
      SetImage(h, i, img);
      if swapchainHandle == h {
        if signal.ok {
          result := FlushBuffer(h, i, entry.geometryOk, entry.flushOk, entry.again);
          assert Images(h) == old(Images(h))[i := Images(h)[i]];
        } else {
          ReleaseSwapchain(h, entry.pending);
          result := DriverError;
        }
      } else {
        ReleaseSwapchainImage(h, i, false, signal.fence, true, entry.pending[i], true);
        assert Images(h) == old(Images(h))[i := Images(h)[i]];
        result := OutOfDate;
      }
    }

    /** Returns the result of every swapchain; the call itself returns the last one. */
    method QueuePresentKHR(entries: seq<Entry>) returns (results: seq<Result>, ret: Result)
      requires AllPresentable(State(), entries)
      modifies this
      ensures (State(), results) == PresentAll(old(State()), entries)
      ensures ret == if entries == [] then Success else results[|results| - 1]
    {
      hide PresentOne, Presentable;
      results, ret := [], Success;
      var k := 0;
      while k < |entries|
        invariant k <= |entries| && |results| == k
        invariant AllPresentable(old(State()), entries[..k])
        invariant (State(), results) == PresentAll(old(State()), entries[..k])
        invariant ret == if k == 0 then Success else results[k - 1]
      {
        assert entries[..k + 1] == entries[..k] + [entries[k]];
        PresentAllSnoc(old(State()), entries[..k], entries[k]);
        ret := PresentEntry(entries[k]);
        results := results + [ret];
        k := k + 1;
      }
      assert entries[..k] == entries;
    }
  }
}
