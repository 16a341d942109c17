/** `ApiServer` holds the stored objects and serves reads and updates; `CronHPAController`
    fetches copies from it, changes them in memory and writes them back
    (pkg/controller/cronhpa_controller.go). Each method computes the function of the same name
    on the server's contents. */
module Controller {
  import opened Types
  import opened Conditions
  import opened Batch
  import opened Scaling
  import opened Objects
  import opened Reconciling
  import Pass

  /** A HorizontalPodAutoscaler as fetched: the caller's own copy. */
  class HpaObject {
    var minReplicas: int
    var maxReplicas: int
    var currentReplicas: int
    var target: ScaleTargetRef

    constructor (h: Hpa)
      ensures Value() == h
    {
      minReplicas, maxReplicas := h.minReplicas, h.maxReplicas;
      currentReplicas, target := h.currentReplicas, h.target;
    }

    function Value(): Hpa
      reads this
    {
      Hpa(minReplicas, maxReplicas, currentReplicas, target)
    }

    lemma ValueInFull()
      ensures Value().minReplicas == minReplicas && Value().maxReplicas == maxReplicas
      ensures Value().currentReplicas == currentReplicas && Value().target == target
    {}
  }

  class ScaleObject {
    var replicas: int

    constructor (replicas: int)
      ensures this.replicas == replicas
    {
      this.replicas := replicas;
    }
  }

  class ApiServer {
    var objects: map<Key, CronHPA>
    var hpas: map<Key, Hpa>
    var scales: map<ScaleKey, int>

    constructor (w: World)
      ensures View() == w
    {
      objects, hpas, scales := w.objects, w.hpas, w.scales;
    }

    function View(): World
      reads this
    {
      World(objects, hpas, scales)
    }

    lemma ViewInFull()
      ensures View().objects == objects && View().hpas == hpas && View().scales == scales
    {}

    method GetHpa(key: Key, failure: Option<Error>) returns (hpa: HpaObject?, err: Option<Error>)
      ensures failure.Some? ==> hpa == null && err == failure
      ensures failure.None? && key !in hpas ==> hpa == null && err == Some(NotFound)
      ensures failure.None? && key in hpas ==> hpa != null && fresh(hpa) && hpa.Value() == hpas[key] && err == None
    {
      if failure.Some? {
        return null, failure;
      }
      if key !in hpas {
        return null, Some(NotFound);
      }
      hpa := new HpaObject(hpas[key]);
      err := None;
    }

    method UpdateHpa(key: Key, hpa: HpaObject, reply: Reply) returns (r: Result<()>)
      modifies this`hpas
      ensures (View(), r) == Scaling.UpdateHpa(old(View()), key, hpa.Value(), reply)
    {
      if reply.Stored() {
        hpas := hpas[key := hpa.Value()];
      }
      r := reply.Seen();
    }

    method GetScale(key: ScaleKey, failure: Option<Error>) returns (scale: ScaleObject?, err: Option<Error>)
      ensures failure.Some? ==> scale == null && err == failure
      ensures failure.None? && key !in scales ==> scale == null && err == Some(NotFound)
      ensures failure.None? && key in scales ==>
                scale != null && fresh(scale) && scale.replicas == scales[key] && err == None
    {
      if failure.Some? {
        return null, failure;
      }
      if key !in scales {
        return null, Some(NotFound);
      }
      scale := new ScaleObject(scales[key]);
      err := None;
    }

    method UpdateScale(key: ScaleKey, scale: ScaleObject, reply: Reply) returns (r: Result<()>)
      modifies this`scales
      ensures (View(), r) == Scaling.UpdateScale(old(View()), key, scale.replicas, reply)
    {
      if reply.Stored() {
        scales := scales[key := scale.replicas];
      }
      r := reply.Seen();
    }

    /** The server's own rule: an update over a version that is no longer current is refused. */
    method UpdateCronHPA(o: CronHPA, reply: Reply) returns (r: Result<()>)
      modifies this`objects
      ensures (View(), r) == StoreObject(old(View()), o, reply)
    {
      if o.key !in objects {
        return Err(NotFound);
      }
      if objects[o.key].version != o.version {
        return Err(Conflict);
      }
      if reply.Stored() {
        objects := objects[o.key := o.(version := o.version + 1)];
      }
      r := reply.Seen();
    }
  }

  class CronHPAController {
    const server: ApiServer
    const parse: Parser

    constructor (server: ApiServer, parse: Parser)
      ensures this.server == server && this.parse == parse
    {
      this.server, this.parse := server, parse;
    }

    method ScaleForResourceMappings(namespace: string, name: string, mappings: seq<GroupResource>, api: Api)
      returns (scale: ScaleObject?, targetGR: GroupResource, err: Option<Error>)
      ensures match SearchScale(server.View(), namespace, name, mappings, api)
              case Ok(key) => scale != null && fresh(scale)
                              && key in server.scales && scale.replicas == server.scales[key]
                              && key == ScaleKey(namespace, targetGR, name) && err == None
              case Err(e) => scale == null && err == Some(e)
    {
      var firstErr: Option<Error> := None;
      ghost var w := server.View();
      for i := 0 to |mappings|
        invariant FirstScale(w, namespace, name, mappings, api, 0) == FirstScale(w, namespace, name, mappings, api, i)
        invariant firstErr == if i == 0 then None else Some(GetError(api, 0))
      {
        targetGR := mappings[i];
        scale, err := server.GetScale(ScaleKey(namespace, targetGR, name), api.scaleGet(i));
        if err.None? {
          return;
        }
        if i == 0 {
          firstErr := err;
        }
      }
      if firstErr.None? {
        firstErr := Some(UnrecognizedResource);
      }
      scale, targetGR, err := null, GroupResource("", ""), firstErr;
    }

    method TryToScale(namespace: string, scaleTargetRef: ScaleTargetRef, targetSize: int, api: Api)
      returns (r: Result<()>)
      modifies server`scales
      ensures (server.View(), r) == Scaling.TryToScale(old(server.View()), namespace, scaleTargetRef, targetSize, api)
    {
      var mappings := api.mappings(scaleTargetRef);
      if mappings.Err? {
        return Err(mappings.error);
      }
      var scale, targetGR, err := ScaleForResourceMappings(namespace, scaleTargetRef.name, mappings.value, api);
      if err.Some? {
        return Err(err.value);
      }
      if scale.replicas != targetSize {
        scale.replicas := targetSize;
        r := server.UpdateScale(ScaleKey(namespace, targetGR, scaleTargetRef.name), scale, api.scaleUpdate);
      } else {
        r := Ok(());
      }
    }

    method UpdateHPAIfNeed(namespace: string, ref: ScaleTargetRef, targetSize: int, api: Api)
      returns (r: Result<()>)
      modifies server`hpas, server`scales
      ensures (server.View(), r) == Scaling.UpdateHPAIfNeed(old(server.View()), namespace, ref, targetSize, api)
    {
      var needUpdate := false;
      var newTargetSize := 0;
      var key := Key(namespace, ref.name);
      var hpa, err := server.GetHpa(key, api.hpaGet);
      if err.Some? {
        return Err(err.value);
      }
      ghost var before := hpa.Value();
      if targetSize < hpa.minReplicas {
        hpa.minReplicas := targetSize;
        needUpdate := true;
      }
      if targetSize > hpa.maxReplicas {
        hpa.maxReplicas := targetSize;
        needUpdate := true;
      }
      if targetSize > hpa.currentReplicas {
        hpa.minReplicas := targetSize;
        newTargetSize := targetSize;
        needUpdate := true;
      }
      assert Adjusted(hpa.Value(), newTargetSize, needUpdate) == Adjust(before, targetSize);
      if needUpdate {
        var stored := server.UpdateHpa(key, hpa, api.hpaUpdate);
        if stored.Err? {
          return stored;
        }
      }
      if newTargetSize > hpa.currentReplicas {
        r := TryToScale(namespace, hpa.target, newTargetSize, api);
      } else {
        r := Ok(());
      }
    }

    method UpdateScaleTargetRef(namespace: string, ref: ScaleTargetRef, targetSize: int, api: Api)
      returns (r: Result<()>)
      modifies server`hpas, server`scales
      ensures (server.View(), r) == Scaling.UpdateScaleTargetRef(old(server.View()), namespace, ref, targetSize, api)
    {
      if ref.kind == HPA_KIND {
        r := UpdateHPAIfNeed(namespace, ref, targetSize, api);
      } else {
        r := TryToScale(namespace, ref, targetSize, api);
      }
    }

    /** The first half of a reconcile: which crons are due. */
    method PlanBatch(cronHPA: CronHPAObject, now: Time) returns (r: Result<seq<Cron>>)
      ensures r == Plan(parse, cronHPA.Value(), now)
    {
      var o := cronHPA.Value();
      var excludeTimes := GetExcludeTimes(parse, o, now, o.spec.excludeDates);
      if excludeTimes.Err? {
        return Err(excludeTimes.error);
      }
      assert excludeTimes.value.Keys == ExcludeTimes(parse, o, now, o.spec.excludeDates).value;
      r := BuildBatch(parse, o, now, excludeTimes.value, o.spec.crons);
    }

    /** The second half: scale, then stamp the caller's copy, then store it. The new conditions
        depend on nothing that scaling changes, so they are worked out first. */
    method Fire(cronHPA: CronHPAObject, cron: Cron, round: Round) returns (r: Result<()>, ghost choice: Choice)
      modifies server, cronHPA`lastScheduleTime, cronHPA`conditions
      ensures choice.chosen == cron
      ensures IsUpdateOf(choice.conditions, old(cronHPA.Value()).status.conditions, SuccessOf(cron))
      ensures (server.View(), r) == FireStep(old(cronHPA.Value()), round, choice, old(server.View()))
    {
      ghost var o := cronHPA.Value();
      var conditions := UpdateConditions(Elements(cronHPA.conditions), SuccessOf(cron));
      choice := Choice(cron, conditions);
      r := UpdateScaleTargetRef(cronHPA.key.namespace, cronHPA.scaleTargetRef, cron.targetSize, round.api);
      if r.Err? {
        return;
      }
      cronHPA.lastScheduleTime := new TimeCell(round.stamped);
      cronHPA.conditions := ArrayOf(conditions);
      assert cronHPA.Value() == Recorded(o, round.stamped, choice);
      r := server.UpdateCronHPA(cronHPA.Value(), round.api.statusUpdate);
    }

    /** Sort the batch and fire its first cron. */
    method FireLargest(cronHPA: CronHPAObject, batch: seq<Cron>, round: Round)
      returns (r: Result<()>, ghost choice: Choice)
      requires batch != []
      modifies server, cronHPA`lastScheduleTime, cronHPA`conditions
      ensures IsTop(batch, choice.chosen)
      ensures IsUpdateOf(choice.conditions, old(cronHPA.Value()).status.conditions, SuccessOf(choice.chosen))
      ensures (server.View(), r) == FireStep(old(cronHPA.Value()), round, choice, old(server.View()))
    {
      var sorted := SortBatch(batch);
      SortedHeadIsTop(batch, sorted);
      r, choice := Fire(cronHPA, sorted[0], round);
    }

    /** One reconcile of a cached object. On every path only the API server changes: the
        cached object and everything reachable from it stay as they were. */
    method ReconcileCronHPA(origin: CronHPAObject, round: Round) returns (r: Result<()>, ghost choice: Choice)
      modifies server
      ensures Admissible(parse, origin.Value(), round.now, choice)
      ensures (server.View(), r) == Reconcile(parse, origin.Value(), round, choice, old(server.View()))
      ensures unchanged(origin) && origin.Value() == old(origin.Value())
    {
      var cronHPA := origin.DeepCopy();
      choice := Choice(Cron("", "", false, 0), []);
      var cronJobBatch := PlanBatch(cronHPA, round.now);
      if cronJobBatch.Err? {
        return Err(cronJobBatch.error), choice;
      }
      if |cronJobBatch.value| == 0 {
        return Ok(()), choice;
      }
      r, choice := FireLargest(cronHPA, cronJobBatch.value, round);
    }

    /** One pass over the listed objects, each with its own clock readings and API outcomes.
        A failed listing ends the pass; a failed reconcile does not. */
    method ReconcileCronHPAs(listed: Result<seq<CronHPAObject>>, rounds: seq<Round>)
      returns (results: seq<Result<()>>, ghost objs: seq<CronHPA>, ghost choices: seq<Choice>)
      requires listed.Ok? ==> |rounds| == |listed.value|
      modifies server
      ensures listed.Err? ==> server.View() == old(server.View()) && results == []
      ensures listed.Ok? ==>
                && |objs| == |choices| == |listed.value|
                && (forall i :: 0 <= i < |objs| ==> objs[i] == listed.value[i].Value() == old(listed.value[i].Value()))
                && Pass.AllAdmissible(parse, objs, rounds, choices)
                && (server.View(), results) == Pass.Run(parse, objs, rounds, choices, old(server.View()))
    {
      results, objs, choices := [], [], [];
      if listed.Err? {
        return;
      }
      var cronHPAs := listed.value;
      ghost var start := server.View();
      objs := ValuesOf(cronHPAs);
      for i := 0 to |cronHPAs|
        invariant |choices| == i
        invariant forall j :: 0 <= j < |cronHPAs| ==> cronHPAs[j].Value() == objs[j]
        invariant Pass.Reached(parse, objs, rounds, choices, start, server.View(), results)
      {
        ghost var w := server.View();
        var r, choice := ReconcileCronHPA(cronHPAs[i], rounds[i]);
        Pass.ReachNext(parse, objs, rounds, choices, choice, start, w, results, server.View(), r);
        results, choices := results + [r], choices + [choice];
      }
      Pass.ReachedEnd(parse, objs, rounds, choices, start, server.View(), results);
    }
  }

  ghost method ValuesOf(cronHPAs: seq<CronHPAObject>) returns (objs: seq<CronHPA>)
    ensures |objs| == |cronHPAs|
    ensures forall i :: 0 <= i < |objs| ==> objs[i] == cronHPAs[i].Value()
  {
    objs := [];
    while |objs| < |cronHPAs|
      invariant |objs| <= |cronHPAs|
      invariant forall i :: 0 <= i < |objs| ==> objs[i] == cronHPAs[i].Value()
    {
      objs := objs + [cronHPAs[|objs|].Value()];
    }
  }

  method ArrayOf(s: seq<Condition>) returns (a: array<Condition>)
    ensures fresh(a) && a[..] == s
  {
    a := new Condition[|s|];
    forall i | 0 <= i < |s| { a[i] := s[i]; }
  }
}
