/** STTCallbackHelper: the scene object that moves listener calls made on
    Android's binder threads onto Unity's main thread. Callers append to one
    multicast delegate under a lock; every frame, Update takes the delegate,
    clears it and invokes it, all under the same lock. */
module CallbackHelperAndroid {
  import opened Events

  /** One queued listener call. A final call is the result callback, whose
      action destroys the helper's game object immediately after calling the listener. */
  datatype Action =
    | Forward(to: ListenerId, ev: Event)
    | ForwardFinal(to: ListenerId, ev: Event)

  /** The listener calls a batch makes if every action runs, in queue order. */
  function Deliveries(batch: seq<Action>): (ds: seq<Delivery>)
    ensures |ds| == |batch|
    ensures forall k | 0 <= k < |batch| :: ds[k] == Delivery(batch[k].to, batch[k].ev)
  {
    seq(|batch|, k requires 0 <= k < |batch| => Delivery(batch[k].to, batch[k].ev))
  }

  predicate HasFinal(batch: seq<Action>) {
    exists k | 0 <= k < |batch| :: batch[k].ForwardFinal?
  }

  /** What invoking a batch did: the listener calls made, whether the game
      object was destroyed by a final action, and whether an exception escaped. */
  datatype BatchRun = BatchRun(delivered: seq<Delivery>, destroyed: bool, raised: bool)

  /** One action of the batch, the `idx`th, whose listener call throws when `fault` names it.
      In a final action, the listener call is followed by DestroyImmediate on the
      helper's game object, which throws if an earlier final action destroyed it. */
  function StepAction(r: BatchRun, a: Action, idx: nat, fault: Option<nat>): (s: BatchRun)
    ensures a.ForwardFinal? ==> s.destroyed                  // the finally runs even when the listener throws
    ensures r.destroyed ==> s.destroyed
    ensures a.ForwardFinal? && r.destroyed ==> s.raised      // a second final action throws
    ensures !a.ForwardFinal? ==> s.destroyed == r.destroyed
    ensures !a.ForwardFinal? && fault != Some(idx) ==> !s.raised
  {
    BatchRun(r.delivered + [Delivery(a.to, a.ev)],
             r.destroyed || a.ForwardFinal?,
             (a.ForwardFinal? && r.destroyed) || fault == Some(idx))
  }

  /** Invoking the delegate: its actions in order, up to the first that throws. */
  function RunBatch(batch: seq<Action>, fault: Option<nat>): (r: BatchRun)
    ensures |r.delivered| <= |batch|
    ensures !r.raised ==> |r.delivered| == |batch|
    ensures r.raised ==> |r.delivered| > 0
    decreases |batch|
  {
    if batch == [] then BatchRun([], false, false)
    else
      var r := RunBatch(batch[..|batch| - 1], fault);
      if r.raised then r else StepAction(r, batch[|batch| - 1], |batch| - 1, fault)
  }

  /** A batch that has not raised runs its next action. */
  lemma RunBatchSnoc(batch: seq<Action>, i: nat, fault: Option<nat>)
    requires i < |batch| && !RunBatch(batch[..i], fault).raised
    ensures RunBatch(batch[..i + 1], fault) == StepAction(RunBatch(batch[..i], fault), batch[i], i, fault)
  {
    assert batch[..i + 1][..i] == batch[..i];
  }

  lemma HasFinalSnoc(batch: seq<Action>, n: nat)
    requires n < |batch|
    ensures HasFinal(batch[..n + 1]) <==> HasFinal(batch[..n]) || batch[n].ForwardFinal?
  {
    if HasFinal(batch[..n + 1]) && !batch[n].ForwardFinal? {
      var k :| 0 <= k < n + 1 && batch[..n + 1][k].ForwardFinal?;
      assert batch[..n][k].ForwardFinal?;
    }
    if HasFinal(batch[..n]) {
      var k :| 0 <= k < n && batch[..n][k].ForwardFinal?;
      assert batch[..n + 1][k].ForwardFinal?;
    }
    if batch[n].ForwardFinal? {
      assert batch[..n + 1][n].ForwardFinal?;
    }
  }

  /** The listener calls a batch makes: its first ones, in queue order, and
      all of them unless an exception escaped. */
  lemma {:induction false} RunBatchCalls(batch: seq<Action>, fault: Option<nat>)
    ensures RunBatch(batch, fault).delivered == Deliveries(batch[..|RunBatch(batch, fault).delivered|])
    ensures !RunBatch(batch, fault).raised ==> |RunBatch(batch, fault).delivered| == |batch|
    ensures !RunBatch(batch, fault).raised && fault.Some? ==> fault.value >= |batch|
    decreases |batch|
  {
    if batch != [] {
      var prefix := batch[..|batch| - 1];
      RunBatchCalls(prefix, fault);
      var r := RunBatch(prefix, fault);
      assert prefix[..|r.delivered|] == batch[..|r.delivered|];
      if !r.raised {
        var n := |prefix|;
        assert RunBatch(batch, fault) == StepAction(r, batch[n], n, fault);
        assert batch[..n + 1] == batch;
        assert Deliveries(batch) == Deliveries(prefix) + [Delivery(batch[n].to, batch[n].ev)];
      }
    }
  }

  /** The game object is destroyed exactly when a final action ran, even one
      whose listener threw. */
  lemma {:induction false} RunBatchDestroys(batch: seq<Action>, fault: Option<nat>)
    ensures RunBatch(batch, fault).destroyed == HasFinal(batch[..|RunBatch(batch, fault).delivered|])
    decreases |batch|
  {
    if batch != [] {
      var n := |batch| - 1;
      var prefix := batch[..n];
      RunBatchDestroys(prefix, fault);
      var r := RunBatch(prefix, fault);
      var m := |r.delivered|;
      assert prefix[..m] == batch[..m];
      if !r.raised {
        assert RunBatch(batch, fault) == StepAction(r, batch[n], n, fault);
        assert batch[..n + 1] == batch;
        HasFinalSnoc(batch, n);
      }
    }
  }

  /** An exception escapes at the last action that ran: its listener threw, or
      it was a second final action. */
  lemma {:induction false} RunBatchRaises(batch: seq<Action>, fault: Option<nat>)
    ensures RunBatch(batch, fault).raised ==>
      var n := |RunBatch(batch, fault).delivered|;
      n > 0 && (fault == Some(n - 1) || (batch[n - 1].ForwardFinal? && HasFinal(batch[..n - 1])))
    decreases |batch|
  {
    if batch != [] {
      var n := |batch| - 1;
      var prefix := batch[..n];
      var r := RunBatch(prefix, fault);
      if !r.raised {
        assert RunBatch(batch, fault) == StepAction(r, batch[n], n, fault);
        RunBatchDestroys(prefix, fault);
        assert prefix[..|r.delivered|] == batch[..n];
      } else {
        RunBatchRaises(prefix, fault);
        var m := |r.delivered|;
        assert RunBatch(batch, fault) == r;
        assert prefix[m - 1] == batch[m - 1] && prefix[..m - 1] == batch[..m - 1];
      }
    }
  }

  /** Why a batch stops early, and when it destroys the game object. */
  lemma RunBatchStops(batch: seq<Action>, fault: Option<nat>)
    ensures RunBatch(batch, fault).raised ==>
      var n := |RunBatch(batch, fault).delivered|;
      n > 0 && (fault == Some(n - 1) || (batch[n - 1].ForwardFinal? && HasFinal(batch[..n - 1])))
    ensures RunBatch(batch, fault).destroyed == HasFinal(batch[..|RunBatch(batch, fault).delivered|])
  {
    RunBatchRaises(batch, fault);
    RunBatchDestroys(batch, fault);
  }

  /** Once an exception escapes, the rest of the batch does nothing. */
  lemma {:induction false} RaisedStops(batch: seq<Action>, i: nat, fault: Option<nat>)
    requires i <= |batch| && RunBatch(batch[..i], fault).raised
    ensures RunBatch(batch, fault) == RunBatch(batch[..i], fault)
    decreases |batch| - i
  {
    if i < |batch| {
      assert batch[..i + 1][..i] == batch[..i];
      RaisedStops(batch, i + 1, fault);
    } else {
      assert batch[..i] == batch;
    }
  }

  /** With no listener throwing and at most one final action, every queued call is made. */
  lemma CleanBatchRunsWhole(batch: seq<Action>)
    requires forall j, k | 0 <= j < k < |batch| :: !(batch[j].ForwardFinal? && batch[k].ForwardFinal?)
    ensures RunBatch(batch, None).delivered == Deliveries(batch)
    ensures !RunBatch(batch, None).raised
  {
    RunBatchCalls(batch, None);
    RunBatchRaises(batch, None);
    var n := |RunBatch(batch, None).delivered|;
    if 0 < n && batch[n - 1].ForwardFinal? {
      forall k | 0 <= k < n - 1
        ensures !batch[k].ForwardFinal?
      {
      }
      assert !HasFinal(batch[..n - 1]);
    }
    assert batch[..|batch|] == batch;
  }

  class CallbackHelper {
    var autoDestroy: bool
    var destroyed: bool                 // the game object is gone; Unity no longer calls Update
    var pending: seq<Action>            // mainThreadAction's invocation list
    var delivered: seq<Delivery>        // every listener call made on the main thread, in order

    constructor ()
      ensures !autoDestroy && !destroyed && pending == [] && delivered == []
    {
      autoDestroy, destroyed, pending, delivered := false, false, [], [];
    }

    /** Marks the helper to destroy itself after the first frame that runs a batch. */
    method AutoDestroy() returns (self: CallbackHelper)
      modifies this`autoDestroy
      ensures self == this && autoDestroy
    {
      autoDestroy := true;
      self := this;
    }

    /** Queues `a` behind everything already queued. */
    method CallOnMainThread(a: Action)
      modifies this`pending
      ensures pending == old(pending) + [a]
    {
      pending := pending + [a];
    }

    /** Invoking the snapshot delegate: its actions in queue order, up to the
        first that throws. */
    method Invoke(batch: seq<Action>, fault: Option<nat>) returns (raised: bool)
      requires !destroyed
      modifies this`delivered, this`destroyed
      ensures delivered == old(delivered) + RunBatch(batch, fault).delivered
      ensures destroyed == RunBatch(batch, fault).destroyed
      ensures raised == RunBatch(batch, fault).raised
    {
      raised := false;
      var i := 0;
      while i < |batch| && !raised
        invariant 0 <= i <= |batch|
        invariant delivered == old(delivered) + RunBatch(batch[..i], fault).delivered
        invariant destroyed == RunBatch(batch[..i], fault).destroyed
        invariant raised == RunBatch(batch[..i], fault).raised
        decreases |batch| - i
      {
        var a := batch[i];
        RunBatchSnoc(batch, i, fault);
        delivered := delivered + [Delivery(a.to, a.ev)];
        // a final action's DestroyImmediate throws if an earlier one destroyed the object
        raised := (a.ForwardFinal? && destroyed) || fault == Some(i);
        destroyed := destroyed || a.ForwardFinal?;
        i := i + 1;
      }
      if raised {
        RaisedStops(batch, i, fault);
      } else {
        assert batch[..i] == batch;
      }
    }

    /** One frame. `fault` names the action of the batch, if any, whose listener
        call throws; `queuedMeanwhile` is what the running actions queue through
        CallOnMainThread (the lock is re-entrant on the main thread), which waits
        for the next frame. `raised` tells whether an exception left Update,
        from the batch or from the auto-destroy in its finally block. */
    method Update(fault: Option<nat>, queuedMeanwhile: seq<Action>) returns (raised: bool)
      requires !destroyed
      modifies this`pending, this`delivered, this`destroyed
      ensures old(pending) == [] ==> !raised && pending == [] && delivered == old(delivered) && !destroyed
      ensures old(pending) != [] ==>
        var r := RunBatch(old(pending), fault);
        && pending == queuedMeanwhile
        && delivered == old(delivered) + r.delivered
        && destroyed == (r.destroyed || autoDestroy)
        && raised == (r.raised || (autoDestroy && r.destroyed))
    {
      raised := false;
      if pending == [] {
        return;
      }
      var batch := pending;
      pending := [];
      raised := Invoke(batch, fault);
      pending := pending + queuedMeanwhile;
      if autoDestroy {
        // Destroy(gameObject) reads gameObject, which throws once a final action destroyed it
        if destroyed {
          raised := true;
        }
        destroyed := true;
      }
    }
  }
}
