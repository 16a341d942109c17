/** Applying a target size to a workload or to the autoscaler in front of it
    (pkg/controller/cronhpa_controller.go), as functions on the API server's contents. */
module Scaling {
  import opened Types

  // ---------- the mapping search ----------

  predicate GetSucceeds(w: World, namespace: string, name: string, mappings: seq<GroupResource>, api: Api, i: nat)
    requires i < |mappings|
  {
    api.scaleGet(i).None? && ScaleKey(namespace, mappings[i], name) in w.scales
  }

  function GetError(api: Api, i: nat): Error {
    match api.scaleGet(i)
    case Some(e) => e
    case None => NotFound
  }

  /** The scale read through the first mapping, from the i-th on, whose Get succeeds. */
  function FirstScale(w: World, namespace: string, name: string, mappings: seq<GroupResource>, api: Api, i: nat)
    : Option<ScaleKey>
    requires i <= |mappings|
    decreases |mappings| - i
  {
    if i == |mappings| then None
    else if GetSucceeds(w, namespace, name, mappings, api, i) then Some(ScaleKey(namespace, mappings[i], name))
    else FirstScale(w, namespace, name, mappings, api, i + 1)
  }

  function SearchScale(w: World, namespace: string, name: string, mappings: seq<GroupResource>, api: Api)
    : Result<ScaleKey>
  {
    match FirstScale(w, namespace, name, mappings, api, 0)
    case Some(key) => Ok(key)
    case None => Err(if mappings == [] then UnrecognizedResource else GetError(api, 0))
  }

  lemma {:induction false} FirstScaleIsFirst(w: World, namespace: string, name: string,
                                             mappings: seq<GroupResource>, api: Api, i: nat)
    requires i <= |mappings|
    ensures var r := FirstScale(w, namespace, name, mappings, api, i);
            && (r.None? <==> forall j :: i <= j < |mappings| ==> !GetSucceeds(w, namespace, name, mappings, api, j))
            && (r.Some? ==>
                  exists j :: i <= j < |mappings| && GetSucceeds(w, namespace, name, mappings, api, j)
                              && r.value == ScaleKey(namespace, mappings[j], name)
                              && forall k :: i <= k < j ==> !GetSucceeds(w, namespace, name, mappings, api, k))
    decreases |mappings| - i
  {
    if i == |mappings| || GetSucceeds(w, namespace, name, mappings, api, i) {
    } else {
      FirstScaleIsFirst(w, namespace, name, mappings, api, i + 1);
    }
  }

  /** The search returns the first mapping that answers. When none does, it returns the first
      mapping's error, or the "unrecognized resource" error when there is no mapping. */
  lemma SearchFindsFirst(w: World, namespace: string, name: string, mappings: seq<GroupResource>, api: Api)
    ensures match SearchScale(w, namespace, name, mappings, api)
            case Ok(key) =>
              && key in w.scales
              && exists i :: 0 <= i < |mappings| && GetSucceeds(w, namespace, name, mappings, api, i)
                             && key == ScaleKey(namespace, mappings[i], name)
                             && forall k :: 0 <= k < i ==> !GetSucceeds(w, namespace, name, mappings, api, k)
            case Err(e) =>
              && (forall i :: 0 <= i < |mappings| ==> !GetSucceeds(w, namespace, name, mappings, api, i))
              && e == if mappings == [] then UnrecognizedResource else GetError(api, 0)
  {
    FirstScaleIsFirst(w, namespace, name, mappings, api, 0);
  }

  // ---------- scaling a workload ----------

  /** The stored scale a reference leads to. */
  function Resolve(w: World, namespace: string, ref: ScaleTargetRef, api: Api): Result<ScaleKey> {
    match api.mappings(ref)
    case Err(e) => Err(e)
    case Ok(mappings) => SearchScale(w, namespace, ref.name, mappings, api)
  }

  lemma ResolvedIsStored(w: World, namespace: string, ref: ScaleTargetRef, api: Api)
    ensures var r := Resolve(w, namespace, ref, api);
            r.Ok? ==> r.value in w.scales && r.value.namespace == namespace && r.value.name == ref.name
  {
    if api.mappings(ref).Ok? { SearchFindsFirst(w, namespace, ref.name, api.mappings(ref).value, api); }
  }

  function UpdateScale(w: World, key: ScaleKey, size: int, reply: Reply): (World, Result<()>) {
    (if reply.Stored() then w.(scales := w.scales[key := size]) else w, reply.Seen())
  }

  function TryToScale(w: World, namespace: string, ref: ScaleTargetRef, size: int, api: Api): (World, Result<()>) {
    match Resolve(w, namespace, ref, api)
    case Err(e) => (w, Err(e))
    case Ok(key) =>
      if key in w.scales && w.scales[key] == size then (w, Ok(()))
      else UpdateScale(w, key, size, api.scaleUpdate)
  }

  /** Scaling writes at most the resolved scale, and when it succeeds that scale has the
      requested size; when nothing resolves it writes nothing. */
  lemma TryToScaleExact(w: World, namespace: string, ref: ScaleTargetRef, size: int, api: Api)
    ensures var (w', r) := TryToScale(w, namespace, ref, size, api);
            var target := Resolve(w, namespace, ref, api);
            && w'.objects == w.objects && w'.hpas == w.hpas
            && (target.Err? ==> w' == w && r == Err(target.error))
            && (target.Ok? ==> w'.scales == w.scales || w'.scales == w.scales[target.value := size])
            && (r.Ok? ==> target.Ok? && w'.scales == w.scales[target.value := size])
  {
    ResolvedIsStored(w, namespace, ref, api);
    var target := Resolve(w, namespace, ref, api);
    if target.Ok? && w.scales[target.value] == size {
      assert w.scales == w.scales[target.value := size];
    }
  }

  // ---------- adjusting an autoscaler ----------

  /** What the three range tests make of an autoscaler: its new range, the size to scale the
      workload to (zero when there is none), and whether anything has to be stored. */
  datatype Adjusted = Adjusted(hpa: Hpa, scaleTo: int, needUpdate: bool)

  function Adjust(h: Hpa, size: int): Adjusted {
    var grow := size > h.currentReplicas;
    Adjusted(
      h.(minReplicas := if size < h.minReplicas || grow then size else h.minReplicas,
         maxReplicas := if size > h.maxReplicas then size else h.maxReplicas),
      if grow then size else 0,
      size < h.minReplicas || size > h.maxReplicas || grow)
  }

  function UpdateHpa(w: World, key: Key, h: Hpa, reply: Reply): (World, Result<()>) {
    (if reply.Stored() then w.(hpas := w.hpas[key := h]) else w, reply.Seen())
  }

  function UpdateHPAIfNeed(w: World, namespace: string, ref: ScaleTargetRef, size: int, api: Api): (World, Result<()>) {
    var key := Key(namespace, ref.name);
    if api.hpaGet.Some? then (w, Err(api.hpaGet.value))
    else if key !in w.hpas then (w, Err(NotFound))
    else
      var adjusted := Adjust(w.hpas[key], size);
      var (w1, stored) := if adjusted.needUpdate then UpdateHpa(w, key, adjusted.hpa, api.hpaUpdate) else (w, Ok(()));
      if stored.Err? then (w1, stored)
      else if adjusted.scaleTo > adjusted.hpa.currentReplicas then
        TryToScale(w1, namespace, adjusted.hpa.target, adjusted.scaleTo, api)
      else (w1, Ok(()))
  }

  function UpdateScaleTargetRef(w: World, namespace: string, ref: ScaleTargetRef, size: int, api: Api)
    : (World, Result<()>)
  {
    if ref.kind == HPA_KIND then UpdateHPAIfNeed(w, namespace, ref, size, api)
    else TryToScale(w, namespace, ref, size, api)
  }

  // ---------- what success means ----------

  ghost predicate ScaledTo(w: World, namespace: string, ref: ScaleTargetRef, size: int, api: Api) {
    var target := Resolve(w, namespace, ref, api);
    target.Ok? && target.value in w.scales && w.scales[target.value] == size
  }

  /** The size has been applied: to the workload itself, or to an autoscaler whose range now
      holds it and whose status reports at least that many replicas, or whose workload has
      just been given exactly that many. */
  ghost predicate Applied(w: World, namespace: string, ref: ScaleTargetRef, size: int, api: Api) {
    if ref.kind != HPA_KIND then ScaledTo(w, namespace, ref, size, api)
    else
      var key := Key(namespace, ref.name);
      && key in w.hpas
      && var h := w.hpas[key];
      && h.minReplicas <= size <= h.maxReplicas
      && (size <= h.currentReplicas || ScaledTo(w, namespace, h.target, size, api))
  }

  lemma ResolveIgnoresSizes(w: World, w': World, namespace: string, ref: ScaleTargetRef, api: Api)
    requires w'.scales.Keys == w.scales.Keys
    ensures Resolve(w', namespace, ref, api) == Resolve(w, namespace, ref, api)
  {
    if api.mappings(ref).Ok? { FirstScaleIgnoresSizes(w, w', namespace, ref.name, api.mappings(ref).value, api, 0); }
  }

  lemma {:induction false} FirstScaleIgnoresSizes(w: World, w': World, namespace: string, name: string,
                                                  mappings: seq<GroupResource>, api: Api, i: nat)
    requires i <= |mappings| && w'.scales.Keys == w.scales.Keys
    ensures FirstScale(w', namespace, name, mappings, api, i) == FirstScale(w, namespace, name, mappings, api, i)
    decreases |mappings| - i
  {
    if i == |mappings| {
    } else {
      FirstScaleIgnoresSizes(w, w', namespace, name, mappings, api, i + 1);
    }
  }

  lemma TryToScaleApplies(w: World, namespace: string, ref: ScaleTargetRef, size: int, api: Api)
    requires TryToScale(w, namespace, ref, size, api).1.Ok?
    ensures ScaledTo(TryToScale(w, namespace, ref, size, api).0, namespace, ref, size, api)
  {
    var w' := TryToScale(w, namespace, ref, size, api).0;
    TryToScaleExact(w, namespace, ref, size, api);
    ResolvedIsStored(w, namespace, ref, api);
    ResolveIgnoresSizes(w, w', namespace, ref, api);
  }

  /** Reported success means the size has been applied, and whatever happens no CronHPA object
      is touched. */
  lemma SuccessMeansApplied(w: World, namespace: string, ref: ScaleTargetRef, size: int, api: Api)
    ensures var (w', r) := UpdateScaleTargetRef(w, namespace, ref, size, api);
            w'.objects == w.objects && (r.Ok? ==> Applied(w', namespace, ref, size, api))
  {
    var (w', r) := UpdateScaleTargetRef(w, namespace, ref, size, api);
    if ref.kind != HPA_KIND {
      TryToScaleExact(w, namespace, ref, size, api);
      if r.Ok? { TryToScaleApplies(w, namespace, ref, size, api); }
    } else if api.hpaGet.None? && Key(namespace, ref.name) in w.hpas {
      var key := Key(namespace, ref.name);
      var adjusted := Adjust(w.hpas[key], size);
      var w1 := if adjusted.needUpdate then UpdateHpa(w, key, adjusted.hpa, api.hpaUpdate).0 else w;
      TryToScaleExact(w1, namespace, adjusted.hpa.target, adjusted.scaleTo, api);
      if r.Ok? && adjusted.scaleTo > adjusted.hpa.currentReplicas {
        TryToScaleApplies(w1, namespace, adjusted.hpa.target, adjusted.scaleTo, api);
      }
    }
  }

  // ---------- every outcome ----------

  /** Which scale is read: that of the first mapping, in the reference's namespace and under its
      name, whose Get does not fail and finds one. */
  lemma ResolveInFull(w: World, namespace: string, ref: ScaleTargetRef, api: Api)
    ensures var r := Resolve(w, namespace, ref, api);
            match api.mappings(ref)
            case Err(e) => r == Err(e)
            case Ok(mappings) =>
              match r
              case Ok(key) =>
                exists i :: && 0 <= i < |mappings| && key == ScaleKey(namespace, mappings[i], ref.name)
                            && api.scaleGet(i).None? && key in w.scales
                            && forall j :: 0 <= j < i ==>
                                 api.scaleGet(j).Some? || ScaleKey(namespace, mappings[j], ref.name) !in w.scales
              case Err(e) =>
                && (forall i :: 0 <= i < |mappings| ==>
                      api.scaleGet(i).Some? || ScaleKey(namespace, mappings[i], ref.name) !in w.scales)
                && e == if mappings == [] then UnrecognizedResource
                        else if api.scaleGet(0).Some? then api.scaleGet(0).value else NotFound
  {
    if api.mappings(ref).Ok? {
      var mappings := api.mappings(ref).value;
      SearchFindsFirst(w, namespace, ref.name, mappings, api);
      forall i | 0 <= i < |mappings|
        ensures !GetSucceeds(w, namespace, ref.name, mappings, api, i) <==>
                api.scaleGet(i).Some? || ScaleKey(namespace, mappings[i], ref.name) !in w.scales
      {
      }
    }
  }

  /** Scaling a workload: a failed lookup is reported as it is; a workload that already has the size
      is left alone, whatever an update would have met; any other is sent one update, which is
      stored or not, and acknowledged or not, as the server decides. */
  lemma WorkloadInFull(w: World, namespace: string, ref: ScaleTargetRef, size: int, api: Api)
    ensures var done := TryToScale(w, namespace, ref, size, api);
            match Resolve(w, namespace, ref, api)
            case Err(e) => done == (w, Err(e))
            case Ok(key) =>
              && key in w.scales
              && var scaled := w.(scales := w.scales[key := size]);
              if w.scales[key] == size then done == (w, Ok(()))
              else match api.scaleUpdate
                case Acked => done == (scaled, Ok(()))
                case Rejected(e) => done == (w, Err(e))
                case LostAck(e) => done == (scaled, Err(e))
  {
    ResolvedIsStored(w, namespace, ref, api);
  }

  /** An autoscaler whose range holds the size and which reports at least that many replicas is
      left alone, and so is its workload: no request but the Get is sent, so no other can fail. */
  lemma SettledAutoscalerLeftAlone(w: World, namespace: string, ref: ScaleTargetRef, size: int, api: Api)
    requires ref.kind == "HorizontalPodAutoscaler" && api.hpaGet.None? && Key(namespace, ref.name) in w.hpas
    requires var h := w.hpas[Key(namespace, ref.name)];
             h.minReplicas <= size <= h.maxReplicas && size <= h.currentReplicas && 0 <= h.currentReplicas
    ensures UpdateScaleTargetRef(w, namespace, ref, size, api) == (w, Ok(()))
  {}

  /** Adjusting any other autoscaler: one update, which stretches the range to hold the size and,
      when the size exceeds the reported count, raises the minimum to it; everything else in the
      autoscaler stays. Only when that is acknowledged, and only when the size exceeds the
      reported count, the workload behind it is scaled. Below zero the count is exceeded by the
      unset new target, zero. */
  lemma AutoscalerInFull(w: World, namespace: string, ref: ScaleTargetRef, size: int, api: Api)
    requires ref.kind == "HorizontalPodAutoscaler"
    ensures var key, done := Key(namespace, ref.name), UpdateScaleTargetRef(w, namespace, ref, size, api);
            if api.hpaGet.Some? then done == (w, Err(api.hpaGet.value))
            else if key !in w.hpas then done == (w, Err(NotFound))
            else
              var h := w.hpas[key];
              var exceeds, outside := size > h.currentReplicas, !(h.minReplicas <= size <= h.maxReplicas);
              exists h': Hpa ::
                && h'.target == h.target && h'.currentReplicas == h.currentReplicas
                && (if exceeds || size < h.minReplicas then h'.minReplicas == size else h'.minReplicas == h.minReplicas)
                && (if size > h.maxReplicas then h'.maxReplicas == size else h'.maxReplicas == h.maxReplicas)
                && var adjusted := w.(hpas := w.hpas[key := h']);
                if (exceeds || outside) && api.hpaUpdate.Rejected? then done == (w, Err(api.hpaUpdate.error))
                else if (exceeds || outside) && api.hpaUpdate.LostAck? then done == (adjusted, Err(api.hpaUpdate.error))
                else if exceeds then done == TryToScale(adjusted, namespace, h.target, size, api)
                else if h.currentReplicas < 0 then done == TryToScale(adjusted, namespace, h.target, 0, api)
                else done == (adjusted, Ok(()))
  {
    var key := Key(namespace, ref.name);
    if api.hpaGet.None? && key in w.hpas {
      var h := w.hpas[key];
      assert w.hpas == w.hpas[key := h];
      var h' := Adjust(h, size).hpa;
      assert h'.target == h.target;
    }
  }

  /** No request that is sent fails, and everything that is looked up exists. */
  ghost predicate CanScale(w: World, namespace: string, ref: ScaleTargetRef, size: int, api: Api) {
    var target := Resolve(w, namespace, ref, api);
    target.Ok? && target.value in w.scales && (w.scales[target.value] == size || api.scaleUpdate.Acked?)
  }

  /** The same for an autoscaler, which is updated only when it does not hold the size already, and
      whose workload is looked up only when the size exceeds the reported count. */
  ghost predicate Healthy(w: World, namespace: string, ref: ScaleTargetRef, size: int, api: Api) {
    if ref.kind != "HorizontalPodAutoscaler" then CanScale(w, namespace, ref, size, api)
    else
      var key := Key(namespace, ref.name);
      && api.hpaGet.None? && key in w.hpas
      && var h := w.hpas[key];
      && (size < h.minReplicas || size > h.maxReplicas || size > h.currentReplicas ==> api.hpaUpdate.Acked?)
      && (size > h.currentReplicas ==> CanScale(w, namespace, h.target, size, api))
      && (size <= h.currentReplicas < 0 ==> CanScale(w, namespace, h.target, 0, api))
  }

  /** Scaling succeeds exactly then. */
  lemma HealthyScales(w: World, namespace: string, ref: ScaleTargetRef, size: int, api: Api)
    ensures UpdateScaleTargetRef(w, namespace, ref, size, api).1.Ok? <==> Healthy(w, namespace, ref, size, api)
  {
    if ref.kind == "HorizontalPodAutoscaler" {
      var key := Key(namespace, ref.name);
      if api.hpaGet.None? && key in w.hpas {
        var h := w.hpas[key];
        var w1 := UpdateHpa(w, key, Adjust(h, size).hpa, api.hpaUpdate).0;
        ResolveIgnoresSizes(w, w1, namespace, h.target, api);
        ResolvedIsStored(w, namespace, h.target, api);
      }
    } else {
      ResolvedIsStored(w, namespace, ref, api);
    }
  }
}
