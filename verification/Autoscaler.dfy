/** The autoscaler as a state machine: what sequences of targets, failures, retries and
    outside moves of the replica count do to its range and to the workload. */
module Autoscaler {
  import opened Types
  import opened Scaling

  /** An autoscaler together with the replicas its workload has been asked for. */
  datatype Auto = Auto(hpa: Hpa, replicas: int)
  {
    predicate InSync() { hpa.currentReplicas == replicas }

    function Synced(): Auto { this.(hpa := hpa.(currentReplicas := replicas)) }
  }

  /** What can go wrong during one application of a target. */
  datatype Faults = Faults(getOk: bool, hpaUpdate: Reply, scaleOk: bool, scaleUpdate: Reply)

  const NO_FAULTS := Faults(true, Acked, true, Acked)

  /** One application, successful or not. */
  function Attempt(a: Auto, size: int, f: Faults): (Auto, bool) {
    var adjusted := Adjust(a.hpa, size);
    if !f.getOk || (adjusted.needUpdate && f.hpaUpdate.Rejected?) then (a, false)
    else
      var a1 := a.(hpa := adjusted.hpa);
      if adjusted.needUpdate && !f.hpaUpdate.Acked? then (a1, false)
      else if adjusted.scaleTo <= adjusted.hpa.currentReplicas then (a1, true)
      else if !f.scaleOk then (a1, false)
      else if a.replicas == adjusted.scaleTo then (a1, true)
      else (if f.scaleUpdate.Stored() then a1.(replicas := adjusted.scaleTo) else a1, f.scaleUpdate.Acked?)
  }

  // ---------- the state machine is the controller's code ----------

  ghost predicate Holds(w: World, key: Key, scale: ScaleKey, a: Auto) {
    && key in w.hpas && w.hpas[key] == a.hpa
    && scale in w.scales && w.scales[scale] == a.replicas
  }

  function FaultsOf(w: World, namespace: string, a: Auto, api: Api): Faults {
    Faults(api.hpaGet.None?, api.hpaUpdate, Resolve(w, namespace, a.hpa.target, api).Ok?, api.scaleUpdate)
  }

  /** On the API server's contents, applying a size to an autoscaler moves exactly the
      autoscaler and its workload, and moves them as `Attempt` does. */
  lemma AttemptIsUpdateHPAIfNeed(w: World, namespace: string, ref: ScaleTargetRef, size: int, api: Api,
                                 scale: ScaleKey, a: Auto)
    requires Holds(w, Key(namespace, ref.name), scale, a)
    requires Resolve(w, namespace, a.hpa.target, api).Ok? ==> Resolve(w, namespace, a.hpa.target, api).value == scale
    ensures var (w', r) := UpdateHPAIfNeed(w, namespace, ref, size, api);
            var (a', ok) := Attempt(a, size, FaultsOf(w, namespace, a, api));
            && (r.Ok? <==> ok)
            && w' == w.(hpas := w.hpas[Key(namespace, ref.name) := a'.hpa], scales := w.scales[scale := a'.replicas])
  {
    var key := Key(namespace, ref.name);
    assert w.hpas == w.hpas[key := a.hpa] && w.scales == w.scales[scale := a.replicas];
    var adjusted := Adjust(a.hpa, size);
    if api.hpaGet.None? {
      var w1 := if adjusted.needUpdate then UpdateHpa(w, key, adjusted.hpa, api.hpaUpdate).0 else w;
      ResolveIgnoresSizes(w, w1, namespace, a.hpa.target, api);
    }
  }

  // ---------- any run ----------

  function Max(x: int, y: int): int { if x >= y then x else y }

  function Min(x: int, y: int): int { if x <= y then x else y }

  /** A target is applied; the autoscaler moves the workload within its range; or its status
      catches up with the workload. Between a move and a catching up the status lags. */
  datatype Event = Apply(size: int, faults: Faults) | Move(replicas: int) | Sync

  ghost predicate Step(a: Auto, e: Event, a': Auto) {
    match e
    case Apply(size, f) => a' == Attempt(a, size, f).0
    case Move(r) => 0 <= r && a.hpa.minReplicas <= r <= a.hpa.maxReplicas && a' == a.(replicas := r)
    case Sync => a' == a.Synced()
  }

  /** Any target may be applied at any time, whatever fails. */
  lemma EveryApplicationIsAStep(a: Auto, size: int, f: Faults)
    ensures Step(a, Apply(size, f), Attempt(a, size, f).0) && Step(a, Sync, a.Synced())
    ensures forall r :: Max(0, a.hpa.minReplicas) <= r <= a.hpa.maxReplicas ==> Step(a, Move(r), a.(replicas := r))
  {}

  ghost predicate IsRun(states: seq<Auto>, events: seq<Event>) {
    && |states| == |events| + 1
    && forall i {:trigger events[i]} :: 0 <= i < |events| ==> Step(states[i], events[i], states[i + 1])
  }

  ghost predicate Inv(a: Auto) {
    && 0 <= a.replicas <= a.hpa.maxReplicas
    && 0 <= a.hpa.currentReplicas <= a.hpa.maxReplicas
  }

  /** A completed application puts the target inside the range and never shrinks the workload. */
  ghost predicate Honoured(a: Auto, size: int, a': Auto) {
    && a'.hpa.minReplicas <= size <= a'.replicas <= a'.hpa.maxReplicas
    && a'.replicas == Max(a.replicas, size)
  }

  lemma {:induction false} InvHolds(states: seq<Auto>, events: seq<Event>, i: nat)
    requires IsRun(states, events) && Inv(states[0]) && i < |states|
    ensures Inv(states[i])
  {
    if i == 0 {
    } else {
      InvHolds(states, events, i - 1);
      assert Step(states[i - 1], events[i - 1], states[i]);
    }
  }

  /** What has to hold before a completed application for it to be honoured. A target above
      the reported count is given to the workload as it is, so it must not be below what the
      workload really has; any other target is left alone, so the workload must really have as
      many, and no more than the range allows. */
  predicate Honourable(a: Auto, size: int) {
    if size > a.hpa.currentReplicas then a.replicas <= size
    else size <= a.replicas <= Max(a.hpa.maxReplicas, size)
  }

  /** A completed application is honoured exactly when that held, whether or not the status
      lagged behind. */
  lemma HonouredExactly(a: Auto, size: int, f: Faults)
    requires 0 <= a.hpa.currentReplicas && Attempt(a, size, f).1
    ensures Honoured(a, size, Attempt(a, size, f).0) <==> Honourable(a, size)
  {}

  /** In every run, with failures, outside moves and a lagging status anywhere, a completed
      application is honoured exactly when it is honourable; and that it always is when the
      status agrees with the workload. */
  lemma EveryApplicationHonoured(states: seq<Auto>, events: seq<Event>)
    requires IsRun(states, events) && Inv(states[0])
    ensures forall i {:trigger events[i]} ::
              0 <= i < |events| && events[i].Apply? && Attempt(states[i], events[i].size, events[i].faults).1 ==>
                && (Honoured(states[i], events[i].size, states[i + 1]) <==> Honourable(states[i], events[i].size))
                && (states[i].InSync() ==> Honoured(states[i], events[i].size, states[i + 1]))
  {
    forall i | 0 <= i < |events| && events[i].Apply? && Attempt(states[i], events[i].size, events[i].faults).1
      ensures Honoured(states[i], events[i].size, states[i + 1]) <==> Honourable(states[i], events[i].size)
      ensures states[i].InSync() ==> Honoured(states[i], events[i].size, states[i + 1])
    {
      InvHolds(states, events, i);
      assert Step(states[i], events[i], states[i + 1]);
    }
  }

  /** A status that lags below the workload makes the controller shrink it, and one that lags
      above makes it report success with too few replicas. */
  lemma LagCanShrinkOrUnderserve(ref: ScaleTargetRef)
    ensures var a := Auto(Hpa(1, 10, 2, ref), 10);
            Inv(a) && Attempt(a, 5, NO_FAULTS) == (Auto(Hpa(5, 10, 2, ref), 5), true)
    ensures var a := Auto(Hpa(1, 10, 10, ref), 3);
            Inv(a) && Attempt(a, 5, NO_FAULTS) == (a, true)
  {}

  // ---------- the closed form ----------

  function MaxFrom(x: int, sizes: seq<int>): int {
    if sizes == [] then x else Max(MaxFrom(x, sizes[..|sizes| - 1]), sizes[|sizes| - 1])
  }

  function MinFrom(x: int, sizes: seq<int>): int {
    if sizes == [] then x else Min(MinFrom(x, sizes[..|sizes| - 1]), sizes[|sizes| - 1])
  }

  lemma {:induction false} MinFromIsMin(x: int, sizes: seq<int>)
    ensures MinFrom(x, sizes) <= x && forall j :: 0 <= j < |sizes| ==> MinFrom(x, sizes) <= sizes[j]
    ensures MinFrom(x, sizes) == x || exists j :: 0 <= j < |sizes| && sizes[j] == MinFrom(x, sizes)
  {
    if sizes == [] {
    } else {
      var n := |sizes| - 1;
      MinFromIsMin(x, sizes[..n]);
      assert forall j :: 0 <= j < n ==> sizes[..n][j] == sizes[j];
      if MinFrom(x, sizes) != sizes[n] && MinFrom(x, sizes) != x {
        var j :| 0 <= j < n && sizes[..n][j] == MinFrom(x, sizes);
        assert sizes[j] == MinFrom(x, sizes);
      }
    }
  }

  /** Targets applied one after the other, the status catching up in between. */
  function ApplyAll(a: Auto, sizes: seq<int>): Auto {
    if sizes == [] then a
    else Attempt(ApplyAll(a, sizes[..|sizes| - 1]), sizes[|sizes| - 1], NO_FAULTS).0.Synced()
  }

  /** The k-th target exceeds the initial replicas and every earlier target. */
  ghost predicate Record(start: int, sizes: seq<int>, k: int) {
    0 <= k < |sizes| && sizes[k] > start && forall j :: 0 <= j < k ==> sizes[j] < sizes[k]
  }

  ghost predicate LastRecord(start: int, sizes: seq<int>, k: int) {
    Record(start, sizes, k) && forall j :: k < j < |sizes| ==> !Record(start, sizes, j)
  }

  lemma {:induction false} MaxFromIsMax(x: int, sizes: seq<int>)
    ensures MaxFrom(x, sizes) >= x && forall j :: 0 <= j < |sizes| ==> sizes[j] <= MaxFrom(x, sizes)
    ensures MaxFrom(x, sizes) == x || exists j :: 0 <= j < |sizes| && sizes[j] == MaxFrom(x, sizes)
  {
    if sizes == [] {
    } else {
      var n := |sizes| - 1;
      MaxFromIsMax(x, sizes[..n]);
      assert forall j :: 0 <= j < n ==> sizes[..n][j] == sizes[j];
      if MaxFrom(x, sizes) != sizes[n] && MaxFrom(x, sizes) != x {
        var j :| 0 <= j < n && sizes[..n][j] == MaxFrom(x, sizes);
        assert sizes[j] == MaxFrom(x, sizes);
      }
    }
  }

  lemma RecordSnoc(start: int, sizes: seq<int>)
    requires sizes != []
    ensures Record(start, sizes, |sizes| - 1) <==> sizes[|sizes| - 1] > MaxFrom(start, sizes[..|sizes| - 1])
    ensures forall k :: k < |sizes| - 1 ==> (Record(start, sizes, k) <==> Record(start, sizes[..|sizes| - 1], k))
  {
    var n := |sizes| - 1;
    MaxFromIsMax(start, sizes[..n]);
    assert forall j :: 0 <= j < n ==> sizes[..n][j] == sizes[j];
  }

  lemma OneMore(a: Auto, sizes: seq<int>)
    requires sizes != []
    ensures var n := |sizes| - 1;
            var z := ApplyAll(a, sizes[..n]);
            z.InSync() && 0 <= z.replicas ==>
            ApplyAll(a, sizes) ==
            Auto(z.hpa.(minReplicas := if sizes[n] > z.replicas then sizes[n] else Min(z.hpa.minReplicas, sizes[n]),
                        maxReplicas := Max(z.hpa.maxReplicas, sizes[n]),
                        currentReplicas := Max(z.replicas, sizes[n])),
                 Max(z.replicas, sizes[n]))
  {}

  lemma {:induction false} RunningMaxima(a: Auto, sizes: seq<int>)
    requires a.InSync() && 0 <= a.replicas
    ensures var z := ApplyAll(a, sizes);
            && z.InSync() && 0 <= z.replicas
            && z.replicas == MaxFrom(a.replicas, sizes)
            && z.hpa.maxReplicas == MaxFrom(a.hpa.maxReplicas, sizes)
            && z.hpa.target == a.hpa.target
  {
    if sizes == [] {
    } else {
      RunningMaxima(a, sizes[..|sizes| - 1]);
      OneMore(a, sizes);
    }
  }

  lemma MinFromSnoc(sizes: seq<int>, k: nat)
    requires k < |sizes| - 1
    ensures var front := sizes[..|sizes| - 1];
            MinFrom(sizes[k], sizes[k + 1..]) == Min(MinFrom(front[k], front[k + 1..]), sizes[|sizes| - 1])
  {
    var tail := sizes[k + 1..];
    assert tail[..|tail| - 1] == sizes[..|sizes| - 1][k + 1..];
  }

  lemma {:induction false} MinAfterLastRecord(a: Auto, sizes: seq<int>, k: nat)
    requires a.InSync() && 0 <= a.replicas && LastRecord(a.replicas, sizes, k)
    ensures ApplyAll(a, sizes).hpa.minReplicas == MinFrom(sizes[k], sizes[k + 1..])
    decreases |sizes|
  {
    var n := |sizes| - 1;
    RunningMaxima(a, sizes[..n]);
    OneMore(a, sizes);
    RecordSnoc(a.replicas, sizes);
    if k < n {
      forall j | k < j < n ensures !Record(a.replicas, sizes[..n], j) { assert !Record(a.replicas, sizes, j); }
      MinAfterLastRecord(a, sizes[..n], k);
      MinFromSnoc(sizes, k);
    }
  }

  lemma {:induction false} MinWithoutRecord(a: Auto, sizes: seq<int>)
    requires a.InSync() && 0 <= a.replicas && forall k :: !Record(a.replicas, sizes, k)
    ensures ApplyAll(a, sizes).hpa.minReplicas == MinFrom(a.hpa.minReplicas, sizes)
  {
    if sizes == [] {
    } else {
      var n := |sizes| - 1;
      RecordSnoc(a.replicas, sizes);
      assert !Record(a.replicas, sizes, n);
      forall k ensures !Record(a.replicas, sizes[..n], k) { assert !Record(a.replicas, sizes, k); }
      RunningMaxima(a, sizes[..n]);
      MinWithoutRecord(a, sizes[..n]);
      OneMore(a, sizes);
    }
  }

  /** The autoscaler after any sequence of targets: the maximum and the replicas are running
      maxima, and the minimum is the smallest target since the last record, that target
      included, or the smallest of all, the old minimum included, when there was no record. */
  lemma ClosedForm(a: Auto, sizes: seq<int>)
    requires a.InSync() && 0 <= a.replicas
    ensures var z := ApplyAll(a, sizes);
            && z.InSync()
            && z.replicas == MaxFrom(a.replicas, sizes)
            && z.hpa.maxReplicas == MaxFrom(a.hpa.maxReplicas, sizes)
            && z.hpa.target == a.hpa.target
            && ((forall k :: !Record(a.replicas, sizes, k)) ==> z.hpa.minReplicas == MinFrom(a.hpa.minReplicas, sizes))
            && forall k :: LastRecord(a.replicas, sizes, k) ==>
                           z.hpa.minReplicas == MinFrom(sizes[k], sizes[k + 1..])
  {
    RunningMaxima(a, sizes);
    if forall k :: !Record(a.replicas, sizes, k) { MinWithoutRecord(a, sizes); }
    forall k | LastRecord(a.replicas, sizes, k)
      ensures ApplyAll(a, sizes).hpa.minReplicas == MinFrom(sizes[k], sizes[k + 1..])
    {
      MinAfterLastRecord(a, sizes, k);
    }
  }

  /** One of the two cases for the minimum always applies. */
  lemma {:induction false} LastRecordExists(start: int, sizes: seq<int>)
    ensures (exists k :: LastRecord(start, sizes, k)) || forall k :: !Record(start, sizes, k)
  {
    if sizes == [] {
    } else {
      var n := |sizes| - 1;
      LastRecordExists(start, sizes[..n]);
      RecordSnoc(start, sizes);
      if Record(start, sizes, n) {
        assert LastRecord(start, sizes, n);
      } else if k :| LastRecord(start, sizes[..n], k) {
        assert LastRecord(start, sizes, k);
      } else {
        forall k ensures !Record(start, sizes, k) {
          assert !Record(start, sizes[..n], k);
        }
      }
    }
  }

  // ---------- retries ----------

  /** An attempt, after which the status either lags behind or catches up. */
  datatype Try = Try(faults: Faults, catchUp: bool)

  function Retries(a: Auto, size: int, tries: seq<Try>): Auto {
    if tries == [] then a
    else
      var n := |tries| - 1;
      var a' := Attempt(Retries(a, size, tries[..n]), size, tries[n].faults).0;
      if tries[n].catchUp then a'.Synced() else a'
  }

  /** Every retry that ends in a success, after any failed attempts, leaves the range and the
      workload exactly as one clean attempt would have. */
  ghost predicate RetriesConverge(a: Auto, size: int) {
    forall tries: seq<Try>, faults: Faults | Attempt(Retries(a, size, tries), size, faults).1 ::
      Attempt(Retries(a, size, tries), size, faults).0.Synced() == Attempt(a, size, NO_FAULTS).0.Synced()
  }

  /** What has to hold before the first attempt: the target exceeds the reported count exactly
      when it exceeds the workload. A target above the count alone will do when the workload
      has just that many and the minimum is no smaller. */
  predicate RetrySafe(a: Auto, size: int) {
    || (size > a.hpa.currentReplicas <==> size > a.replicas)
    || (size > a.hpa.currentReplicas && size == a.replicas && size <= a.hpa.minReplicas)
  }

  /** Where repeated attempts at one size can be: the range is the old or the final one, the
      workload has its old or its final size, and has moved only after the range did. */
  ghost predicate OnTheWay(a: Auto, size: int, s: Auto) {
    var final := Adjust(a.hpa, size).hpa;
    && s.hpa.target == a.hpa.target
    && ((s.hpa.minReplicas, s.hpa.maxReplicas) == (a.hpa.minReplicas, a.hpa.maxReplicas)
        || (s.hpa.minReplicas, s.hpa.maxReplicas) == (final.minReplicas, final.maxReplicas))
    && (s.replicas == a.replicas
        || (s.replicas == (if size > a.hpa.currentReplicas then size else a.replicas)
            && (s.hpa.minReplicas, s.hpa.maxReplicas) == (final.minReplicas, final.maxReplicas)))
    && (s.hpa.currentReplicas == a.hpa.currentReplicas || s.hpa.currentReplicas == a.replicas
        || s.hpa.currentReplicas == s.replicas)
  }

  lemma {:induction false} RetriesStayOnTheWay(a: Auto, size: int, tries: seq<Try>)
    requires 0 <= a.hpa.currentReplicas && 0 <= a.replicas && RetrySafe(a, size)
    ensures OnTheWay(a, size, Retries(a, size, tries))
  {
    if tries == [] {
    } else {
      RetriesStayOnTheWay(a, size, tries[..|tries| - 1]);
    }
  }

  /** The Get failed, and then the status caught up. */
  lemma CatchUpRetry(a: Auto, size: int)
    ensures Retries(a, size, [Try(Faults(false, Acked, true, Acked), true)]) == a.Synced()
  {
    var tries := [Try(Faults(false, Acked, true, Acked), true)];
    assert tries[..0] == [];
  }

  /** Exactly when retrying is harmless, for a status lagging in either direction and failures
      at any of the effect points. */
  lemma RetryConvergesIff(a: Auto, size: int)
    requires 0 <= a.hpa.currentReplicas && 0 <= a.replicas
    ensures RetriesConverge(a, size) <==> RetrySafe(a, size)
  {
    if RetrySafe(a, size) {
      forall tries: seq<Try>, faults: Faults | Attempt(Retries(a, size, tries), size, faults).1
        ensures Attempt(Retries(a, size, tries), size, faults).0.Synced() == Attempt(a, size, NO_FAULTS).0.Synced()
      {
        RetriesStayOnTheWay(a, size, tries);
      }
    } else {
      CatchUpRetry(a, size);
      assert Attempt(a.Synced(), size, NO_FAULTS).1;
      assert Attempt(a.Synced(), size, NO_FAULTS).0.Synced() != Attempt(a, size, NO_FAULTS).0.Synced();
    }
  }

  /** In particular when the status agrees with the workload at the first attempt; it may lag
      after that. */
  lemma RetryConverges(a: Auto, size: int, tries: seq<Try>, faults: Faults)
    requires a.InSync() && 0 <= a.replicas
    requires Attempt(Retries(a, size, tries), size, faults).1
    ensures Attempt(Retries(a, size, tries), size, faults).0.Synced() == Attempt(a, size, NO_FAULTS).0.Synced()
  {
    RetryConvergesIff(a, size);
  }

  /** A lagging status at the first attempt can make the outcome depend on a failure. The update
      of the autoscaler is refused and the status catches up: the retry leaves the workload at
      ten, where the clean attempt shrinks it to five. */
  lemma RetryCanDiverge(ref: ScaleTargetRef, refusal: Error)
    ensures var a := Auto(Hpa(1, 10, 2, ref), 10);
            var retried := Retries(a, 5, [Try(Faults(true, Rejected(refusal), true, Acked), true)]);
            && Inv(a) && !Attempt(a, 5, Faults(true, Rejected(refusal), true, Acked)).1
            && Attempt(retried, 5, NO_FAULTS) == (Auto(Hpa(1, 10, 10, ref), 10), true)
            && Attempt(a, 5, NO_FAULTS) == (Auto(Hpa(5, 10, 2, ref), 5), true)
  {
    assert [Try(Faults(true, Rejected(refusal), true, Acked), true)][..0] == [];
  }
}
