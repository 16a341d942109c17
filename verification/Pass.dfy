/** A pass over all objects (`reconcileCronHPAs`), and what the objects can do to each other. */
module Pass {
  import opened Types
  import opened Scaling
  import opened Reconciling

  /** The objects reconciled one after the other, whichever of them fail. */
  function Run(parse: Parser, objs: seq<CronHPA>, rounds: seq<Round>, choices: seq<Choice>, w: World)
    : (World, seq<Result<()>>)
    requires |objs| == |rounds| == |choices|
  {
    if objs == [] then (w, [])
    else
      var n := |objs| - 1;
      var (w1, results) := Run(parse, objs[..n], rounds[..n], choices[..n], w);
      var (w2, r) := Reconcile(parse, objs[n], rounds[n], choices[n], w1);
      (w2, results + [r])
  }

  ghost predicate AllAdmissible(parse: Parser, objs: seq<CronHPA>, rounds: seq<Round>, choices: seq<Choice>)
    requires |objs| == |rounds| == |choices|
  {
    forall i :: 0 <= i < |objs| ==> Admissible(parse, objs[i], rounds[i].now, choices[i])
  }

  /** The pass from `start` has handled the first `|choices|` objects and reached `w`. */
  ghost predicate Reached(parse: Parser, objs: seq<CronHPA>, rounds: seq<Round>, choices: seq<Choice>,
                          start: World, w: World, results: seq<Result<()>>)
  {
    var i := |choices|;
    && i <= |objs| == |rounds|
    && AllAdmissible(parse, objs[..i], rounds[..i], choices)
    && (w, results) == Run(parse, objs[..i], rounds[..i], choices, start)
  }

  lemma ReachNext(parse: Parser, objs: seq<CronHPA>, rounds: seq<Round>, choices: seq<Choice>, choice: Choice,
                  start: World, w: World, results: seq<Result<()>>, w': World, r: Result<()>)
    requires Reached(parse, objs, rounds, choices, start, w, results) && |choices| < |objs|
    requires var i := |choices|;
             && Admissible(parse, objs[i], rounds[i].now, choice)
             && (w', r) == Reconcile(parse, objs[i], rounds[i], choice, w)
    ensures Reached(parse, objs, rounds, choices + [choice], start, w', results + [r])
  {
    var i := |choices|;
    assert objs[..i + 1][..i] == objs[..i] && rounds[..i + 1][..i] == rounds[..i];
    assert (choices + [choice])[..i] == choices;
  }

  lemma ReachedEnd(parse: Parser, objs: seq<CronHPA>, rounds: seq<Round>, choices: seq<Choice>,
                   start: World, w: World, results: seq<Result<()>>)
    requires Reached(parse, objs, rounds, choices, start, w, results) && |choices| == |objs|
    ensures AllAdmissible(parse, objs, rounds, choices)
    ensures (w, results) == Run(parse, objs, rounds, choices, start)
  {
    assert objs[..|objs|] == objs && rounds[..|objs|] == rounds;
  }

  // ---------- footprints ----------

  /** The part of the API server a reconcile looks at and changes. */
  datatype Footprint = Footprint(objects: set<Key>, hpas: set<Key>, scales: set<ScaleKey>)

  function MappedScales(namespace: string, name: string, mappings: seq<GroupResource>): set<ScaleKey> {
    set gr | gr in mappings :: ScaleKey(namespace, gr, name)
  }

  function ScalesOf(namespace: string, ref: ScaleTargetRef, api: Api): set<ScaleKey> {
    match api.mappings(ref)
    case Err(_) => {}
    case Ok(mappings) => MappedScales(namespace, ref.name, mappings)
  }

  /** The object itself, its target, and, when the target is an autoscaler, the workload
      behind it. */
  function FootprintOf(w: World, o: CronHPA, api: Api): Footprint {
    var ref, namespace := o.spec.scaleTargetRef, o.key.namespace;
    if ref.kind != HPA_KIND then Footprint({o.key}, {}, ScalesOf(namespace, ref, api))
    else
      var key := Key(namespace, ref.name);
      Footprint({o.key}, {key}, if key in w.hpas then ScalesOf(namespace, w.hpas[key].target, api) else {})
  }

  predicate Disjoint(f: Footprint, g: Footprint) {
    f.objects !! g.objects && f.hpas !! g.hpas && f.scales !! g.scales
  }

  predicate SameOn<K, V(==)>(m: map<K, V>, m': map<K, V>, keys: set<K>) {
    forall k :: k in keys ==> (k in m <==> k in m') && (k in m ==> m[k] == m'[k])
  }

  /** The two worlds hold the same things inside the footprint. */
  ghost predicate Agree(w: World, w': World, f: Footprint) {
    SameOn(w.objects, w'.objects, f.objects) && SameOn(w.hpas, w'.hpas, f.hpas) && SameOn(w.scales, w'.scales, f.scales)
  }

  // ---------- locality ----------

  lemma {:induction false} FirstScaleIsLocal(w: World, w': World, namespace: string, name: string,
                                             mappings: seq<GroupResource>, api: Api, i: nat)
    requires i <= |mappings|
    requires SameOn(w.scales, w'.scales, MappedScales(namespace, name, mappings))
    ensures FirstScale(w, namespace, name, mappings, api, i) == FirstScale(w', namespace, name, mappings, api, i)
    decreases |mappings| - i
  {
    if i == |mappings| {
    } else {
      assert ScaleKey(namespace, mappings[i], name) in MappedScales(namespace, name, mappings);
      FirstScaleIsLocal(w, w', namespace, name, mappings, api, i + 1);
    }
  }

  lemma ResolveIsLocal(w: World, w': World, namespace: string, ref: ScaleTargetRef, api: Api)
    requires SameOn(w.scales, w'.scales, ScalesOf(namespace, ref, api))
    ensures Resolve(w, namespace, ref, api) == Resolve(w', namespace, ref, api)
    ensures var r := Resolve(w, namespace, ref, api); r.Ok? ==> r.value in ScalesOf(namespace, ref, api)
  {
    if api.mappings(ref).Ok? {
      var mappings := api.mappings(ref).value;
      FirstScaleIsLocal(w, w', namespace, ref.name, mappings, api, 0);
      SearchFindsFirst(w, namespace, ref.name, mappings, api);
    }
  }

  lemma TryToScaleIsLocal(w: World, w': World, namespace: string, ref: ScaleTargetRef, size: int, api: Api,
                          f: Footprint, g: Footprint)
    requires Agree(w, w', f) && ScalesOf(namespace, ref, api) <= f.scales
    ensures var (z, r), (z', r') := TryToScale(w, namespace, ref, size, api), TryToScale(w', namespace, ref, size, api);
            r == r' && Agree(z, z', f) && (Disjoint(f, g) ==> Agree(w, z, g))
  {
    ResolveIsLocal(w, w', namespace, ref, api);
    ResolvedIsStored(w, namespace, ref, api);
  }

  lemma UpdateHpaIsLocal(w: World, w': World, key: Key, h: Hpa, reply: Reply, f: Footprint, g: Footprint)
    requires Agree(w, w', f) && key in f.hpas
    ensures var (z, r), (z', r') := UpdateHpa(w, key, h, reply), UpdateHpa(w', key, h, reply);
            r == r' && Agree(z, z', f) && (Disjoint(f, g) ==> Agree(w, z, g))
  {}

  lemma UpdateHPAIfNeedIsLocal(w: World, w': World, namespace: string, ref: ScaleTargetRef, size: int, api: Api,
                               f: Footprint, g: Footprint)
    requires Agree(w, w', f) && Key(namespace, ref.name) in f.hpas
    requires Key(namespace, ref.name) in w.hpas ==>
               ScalesOf(namespace, w.hpas[Key(namespace, ref.name)].target, api) <= f.scales
    ensures var (z, r) := UpdateHPAIfNeed(w, namespace, ref, size, api);
            var (z', r') := UpdateHPAIfNeed(w', namespace, ref, size, api);
            r == r' && Agree(z, z', f) && (Disjoint(f, g) ==> Agree(w, z, g))
  {
    var key := Key(namespace, ref.name);
    if api.hpaGet.None? && key in w.hpas {
      var adjusted := Adjust(w.hpas[key], size);
      UpdateHpaIsLocal(w, w', key, adjusted.hpa, api.hpaUpdate, f, g);
      var w1 := if adjusted.needUpdate then UpdateHpa(w, key, adjusted.hpa, api.hpaUpdate).0 else w;
      var w1' := if adjusted.needUpdate then UpdateHpa(w', key, adjusted.hpa, api.hpaUpdate).0 else w';
      TryToScaleIsLocal(w1, w1', namespace, adjusted.hpa.target, adjusted.scaleTo, api, f, g);
      if Disjoint(f, g) {
        AgreeTrans(w, w1, TryToScale(w1, namespace, adjusted.hpa.target, adjusted.scaleTo, api).0, g);
      }
    }
  }

  lemma UpdateScaleTargetRefIsLocal(w: World, w': World, o: CronHPA, size: int, api: Api, g: Footprint)
    requires Agree(w, w', FootprintOf(w, o, api))
    ensures var f := FootprintOf(w, o, api);
            var (z, r) := UpdateScaleTargetRef(w, o.key.namespace, o.spec.scaleTargetRef, size, api);
            var (z', r') := UpdateScaleTargetRef(w', o.key.namespace, o.spec.scaleTargetRef, size, api);
            r == r' && Agree(z, z', f) && (Disjoint(f, g) ==> Agree(w, z, g))
  {
    var f, ref, namespace := FootprintOf(w, o, api), o.spec.scaleTargetRef, o.key.namespace;
    if ref.kind == HPA_KIND {
      UpdateHPAIfNeedIsLocal(w, w', namespace, ref, size, api, f, g);
    } else {
      TryToScaleIsLocal(w, w', namespace, ref, size, api, f, g);
    }
  }

  lemma StoreIsLocal(w: World, w': World, o: CronHPA, reply: Reply, f: Footprint, g: Footprint)
    requires Agree(w, w', f) && o.key in f.objects
    ensures var (z, r), (z', r') := StoreObject(w, o, reply), StoreObject(w', o, reply);
            r == r' && Agree(z, z', f) && (Disjoint(f, g) ==> Agree(w, z, g))
  {}

  lemma AgreeTrans(w: World, w1: World, w2: World, g: Footprint)
    requires Agree(w, w1, g) && Agree(w1, w2, g)
    ensures Agree(w, w2, g)
  {}

  lemma FireIsLocal(o: CronHPA, round: Round, choice: Choice, w: World, w': World, g: Footprint)
    requires Agree(w, w', FootprintOf(w, o, round.api))
    ensures var f := FootprintOf(w, o, round.api);
            var (z, r), (z', r') := FireStep(o, round, choice, w), FireStep(o, round, choice, w');
            r == r' && Agree(z, z', f) && (Disjoint(f, g) ==> Agree(w, z, g))
  {
    var f, namespace, ref, size := FootprintOf(w, o, round.api), o.key.namespace, o.spec.scaleTargetRef,
                                   choice.chosen.targetSize;
    UpdateScaleTargetRefIsLocal(w, w', o, size, round.api, g);
    var w1 := UpdateScaleTargetRef(w, namespace, ref, size, round.api).0;
    var w1' := UpdateScaleTargetRef(w', namespace, ref, size, round.api).0;
    var recorded := Recorded(o, round.stamped, choice);
    StoreIsLocal(w1, w1', recorded, round.api.statusUpdate, f, g);
    if Disjoint(f, g) {
      AgreeTrans(w, w1, StoreObject(w1, recorded, round.api.statusUpdate).0, g);
    }
  }

  /** A reconcile's result, and its effect inside the footprint, depend only on the footprint;
      and it has no effect outside. */
  lemma ReconcileIsLocal(parse: Parser, o: CronHPA, round: Round, choice: Choice, w: World, w': World, g: Footprint)
    requires Agree(w, w', FootprintOf(w, o, round.api))
    ensures var f := FootprintOf(w, o, round.api);
            var (z, r), (z', r') := Reconcile(parse, o, round, choice, w), Reconcile(parse, o, round, choice, w');
            r == r' && Agree(z, z', f) && (Disjoint(f, g) ==> Agree(w, z, g))
  {
    FireIsLocal(o, round, choice, w, w', g);
  }

  /** What an object reads and writes is the same in two worlds that agree on it. */
  lemma FootprintIsLocal(w: World, w': World, o: CronHPA, api: Api)
    requires Agree(w, w', FootprintOf(w, o, api))
    ensures FootprintOf(w', o, api) == FootprintOf(w, o, api)
  {
    assert Key(o.key.namespace, o.spec.scaleTargetRef.name) in FootprintOf(w, o, api).hpas
           || o.spec.scaleTargetRef.kind != HPA_KIND;
  }

  // ---------- non-interference ----------

  ghost predicate PairwiseDisjoint(w: World, objs: seq<CronHPA>, rounds: seq<Round>)
    requires |objs| == |rounds|
  {
    forall i, j :: 0 <= i < |objs| && 0 <= j < |objs| && i != j ==>
                     Disjoint(FootprintOf(w, objs[i], rounds[i].api), FootprintOf(w, objs[j], rounds[j].api))
  }

  /** A pass leaves alone everything disjoint from its objects. */
  lemma {:induction false} PassLeavesAlone(parse: Parser, objs: seq<CronHPA>, rounds: seq<Round>, choices: seq<Choice>,
                                           w: World, g: Footprint)
    requires |objs| == |rounds| == |choices|
    requires PairwiseDisjoint(w, objs, rounds)
    requires forall i :: 0 <= i < |objs| ==> Disjoint(FootprintOf(w, objs[i], rounds[i].api), g)
    ensures Agree(w, Run(parse, objs, rounds, choices, w).0, g)
    decreases |objs|
  {
    if objs == [] {
    } else {
      var n := |objs| - 1;
      var w1 := Run(parse, objs[..n], rounds[..n], choices[..n], w).0;
      PrefixDisjoint(w, objs, rounds);
      PassLeavesAlone(parse, objs[..n], rounds[..n], choices[..n], w, g);
      PassLeavesAlone(parse, objs[..n], rounds[..n], choices[..n], w, FootprintOf(w, objs[n], rounds[n].api));
      FootprintIsLocal(w, w1, objs[n], rounds[n].api);
      ReconcileIsLocal(parse, objs[n], rounds[n], choices[n], w1, w1, g);
    }
  }

  lemma PrefixDisjoint(w: World, objs: seq<CronHPA>, rounds: seq<Round>)
    requires |objs| == |rounds| && objs != [] && PairwiseDisjoint(w, objs, rounds)
    ensures var n := |objs| - 1;
            && PairwiseDisjoint(w, objs[..n], rounds[..n])
            && forall i :: 0 <= i < n ==>
                 Disjoint(FootprintOf(w, objs[..n][i], rounds[..n][i].api), FootprintOf(w, objs[n], rounds[n].api))
  {}

  /** When no two objects share anything, each object's part of the world and its result are,
      after the pass, what they would be had it been reconciled alone, with its own clock
      readings and API outcomes, wherever it stands in the list and whichever others fail. */
  lemma {:induction false} PassIsNonInterfering(parse: Parser, objs: seq<CronHPA>, rounds: seq<Round>,
                                                choices: seq<Choice>, w: World, i: nat)
    requires |objs| == |rounds| == |choices| && i < |objs|
    requires PairwiseDisjoint(w, objs, rounds)
    ensures var (z, results) := Run(parse, objs, rounds, choices, w);
            var (alone, r) := Reconcile(parse, objs[i], rounds[i], choices[i], w);
            && |results| == |objs| && results[i] == r
            && Agree(z, alone, FootprintOf(w, objs[i], rounds[i].api))
    decreases |objs|
  {
    var n := |objs| - 1;
    var f := FootprintOf(w, objs[i], rounds[i].api);
    var (w1, before) := Run(parse, objs[..n], rounds[..n], choices[..n], w);
    PrefixDisjoint(w, objs, rounds);
    ResultsCount(parse, objs[..n], rounds[..n], choices[..n], w);
    if i == n {
      PassLeavesAlone(parse, objs[..n], rounds[..n], choices[..n], w, f);
      ReconcileIsLocal(parse, objs[n], rounds[n], choices[n], w, w1, f);
    } else {
      PassIsNonInterfering(parse, objs[..n], rounds[..n], choices[..n], w, i);
      PassLeavesAlone(parse, objs[..n], rounds[..n], choices[..n], w, FootprintOf(w, objs[n], rounds[n].api));
      FootprintIsLocal(w, w1, objs[n], rounds[n].api);
      ReconcileIsLocal(parse, objs[n], rounds[n], choices[n], w1, w1, f);
    }
  }

  /** So the company an object keeps does not matter, nor the order: in any two passes from the
      same world, with whatever other objects, it ends the same. */
  lemma PassIgnoresCompany(parse: Parser, objs: seq<CronHPA>, rounds: seq<Round>, choices: seq<Choice>, i: nat,
                           objs': seq<CronHPA>, rounds': seq<Round>, choices': seq<Choice>, j: nat, w: World)
    requires |objs| == |rounds| == |choices| && i < |objs| && PairwiseDisjoint(w, objs, rounds)
    requires |objs'| == |rounds'| == |choices'| && j < |objs'| && PairwiseDisjoint(w, objs', rounds')
    requires (objs[i], rounds[i], choices[i]) == (objs'[j], rounds'[j], choices'[j])
    ensures var (z, results) := Run(parse, objs, rounds, choices, w);
            var (z', results') := Run(parse, objs', rounds', choices', w);
            && |results| == |objs| && |results'| == |objs'| && results[i] == results'[j]
            && Agree(z, z', FootprintOf(w, objs[i], rounds[i].api))
  {
    PassIsNonInterfering(parse, objs, rounds, choices, w, i);
    PassIsNonInterfering(parse, objs', rounds', choices', w, j);
  }

  lemma {:induction false} ResultsCount(parse: Parser, objs: seq<CronHPA>, rounds: seq<Round>, choices: seq<Choice>,
                                        w: World)
    requires |objs| == |rounds| == |choices|
    ensures |Run(parse, objs, rounds, choices, w).1| == |objs|
    decreases |objs|
  {
    if objs == [] {
    } else {
      var n := |objs| - 1;
      ResultsCount(parse, objs[..n], rounds[..n], choices[..n], w);
    }
  }

  /** The namespace and name of the workload a reconcile can scale, if any. */
  function WorkloadOf(w: World, o: CronHPA): Option<Key> {
    var ref, namespace := o.spec.scaleTargetRef, o.key.namespace;
    if ref.kind != "HorizontalPodAutoscaler" then Some(Key(namespace, ref.name))
    else if Key(namespace, ref.name) in w.hpas then Some(Key(namespace, w.hpas[Key(namespace, ref.name)].target.name))
    else None
  }

  /** When two objects share nothing: they are different objects, do not target the same
      autoscaler, and their workloads differ in namespace or name. */
  lemma DisjointWhenApart(w: World, o: CronHPA, o': CronHPA, api: Api, api': Api)
    requires o.key != o'.key && (WorkloadOf(w, o) != WorkloadOf(w, o') || WorkloadOf(w, o).None?)
    requires o.spec.scaleTargetRef.kind == o'.spec.scaleTargetRef.kind == "HorizontalPodAutoscaler" ==>
               Key(o.key.namespace, o.spec.scaleTargetRef.name) != Key(o'.key.namespace, o'.spec.scaleTargetRef.name)
    ensures Disjoint(FootprintOf(w, o, api), FootprintOf(w, o', api'))
  {
    ScalesAreOfWorkload(w, o, api);
    ScalesAreOfWorkload(w, o', api');
  }

  lemma ScalesAreOfWorkload(w: World, o: CronHPA, api: Api)
    ensures forall s :: s in FootprintOf(w, o, api).scales ==> WorkloadOf(w, o) == Some(Key(s.namespace, s.name))
  {}

  /** Spelled out for such objects: the stored object, the autoscaler and every scale of the
      workload's name are, after a pass, what they are after that object's reconcile alone. */
  lemma EndsAsIfAlone(parse: Parser, objs: seq<CronHPA>, rounds: seq<Round>, choices: seq<Choice>, w: World, i: nat)
    requires |objs| == |rounds| == |choices| && i < |objs| && PairwiseDisjoint(w, objs, rounds)
    ensures var (z, results) := Run(parse, objs, rounds, choices, w);
            var (alone, r) := Reconcile(parse, objs[i], rounds[i], choices[i], w);
            var o, ref := objs[i], objs[i].spec.scaleTargetRef;
            var hpa := Key(o.key.namespace, ref.name);
            && |results| == |objs| && results[i] == r
            && (o.key in z.objects <==> o.key in alone.objects)
            && (o.key in z.objects ==> z.objects[o.key] == alone.objects[o.key])
            && (ref.kind == "HorizontalPodAutoscaler" && hpa in z.hpas ==>
                  hpa in alone.hpas && z.hpas[hpa] == alone.hpas[hpa])
            && forall s :: s in FootprintOf(w, o, rounds[i].api).scales && s in z.scales ==>
                             s in alone.scales && z.scales[s] == alone.scales[s]
  {
    PassIsNonInterfering(parse, objs, rounds, choices, w, i);
  }

  // ---------- any number of passes ----------

  /** One reconcile among many: `owner` numbers the object it is for. */
  datatype Task = Task(owner: nat, o: CronHPA, round: Round, choice: Choice)

  /** Reconciles one after the other: a pass, several passes, or any other interleaving. */
  function Work(parse: Parser, tasks: seq<Task>, w: World): (done: (World, seq<Result<()>>))
    ensures |done.1| == |tasks|
  {
    if tasks == [] then (w, [])
    else
      var n := |tasks| - 1;
      var (w1, results) := Work(parse, tasks[..n], w);
      var (w2, r) := Reconcile(parse, tasks[n].o, tasks[n].round, tasks[n].choice, w1);
      (w2, results + [r])
  }

  function TasksOf(objs: seq<CronHPA>, rounds: seq<Round>, choices: seq<Choice>): seq<Task>
    requires |objs| == |rounds| == |choices|
  {
    seq(|objs|, i requires 0 <= i < |objs| => Task(i, objs[i], rounds[i], choices[i]))
  }

  lemma {:induction false} PassIsWork(parse: Parser, objs: seq<CronHPA>, rounds: seq<Round>, choices: seq<Choice>,
                                      w: World)
    requires |objs| == |rounds| == |choices|
    ensures Run(parse, objs, rounds, choices, w) == Work(parse, TasksOf(objs, rounds, choices), w)
    decreases |objs|
  {
    if objs == [] {
    } else {
      var n := |objs| - 1;
      PassIsWork(parse, objs[..n], rounds[..n], choices[..n], w);
      assert TasksOf(objs, rounds, choices)[..n] == TasksOf(objs[..n], rounds[..n], choices[..n]);
    }
  }

  lemma {:induction false} WorkInTurn(parse: Parser, a: seq<Task>, b: seq<Task>, w: World)
    ensures var (w1, first) := Work(parse, a, w);
            var (w2, second) := Work(parse, b, w1);
            Work(parse, a + b, w) == (w2, first + second)
    decreases |b|
  {
    var (w1, first) := Work(parse, a, w);
    if b == [] {
      assert a + b == a && first + [] == first;
    } else {
      var n := |b| - 1;
      assert (a + b)[..|a + b| - 1] == a + b[..n];
      WorkInTurn(parse, a, b[..n], w);
      var second := Work(parse, b, w1).1;
      assert first + second == first + second[..n] + [second[n]];
    }
  }

  /** The tasks of one object, in their order. */
  function Own(tasks: seq<Task>, owner: nat): seq<Task> {
    if tasks == [] then []
    else
      var n := |tasks| - 1;
      Own(tasks[..n], owner) + (if tasks[n].owner == owner then [tasks[n]] else [])
  }

  /** The results of one object's tasks, in their order. */
  function OwnResults(tasks: seq<Task>, results: seq<Result<()>>, owner: nat): seq<Result<()>>
    requires |tasks| == |results|
  {
    if tasks == [] then []
    else
      var n := |tasks| - 1;
      OwnResults(tasks[..n], results[..n], owner) + (if tasks[n].owner == owner then [results[n]] else [])
  }

  predicate Within(f: Footprint, g: Footprint) {
    f.objects <= g.objects && f.hpas <= g.hpas && f.scales <= g.scales
  }

  function Without(g: Footprint, f: Footprint): Footprint {
    Footprint(g.objects - f.objects, g.hpas - f.hpas, g.scales - f.scales)
  }

  /** The same autoscalers exist and point at the same workloads. */
  ghost predicate SameTargets(w: World, w': World) {
    w.hpas.Keys == w'.hpas.Keys && forall k :: k in w.hpas ==> w.hpas[k].target == w'.hpas[k].target
  }

  lemma ScalingKeepsTargets(w: World, namespace: string, ref: ScaleTargetRef, size: int, api: Api)
    ensures SameTargets(w, UpdateScaleTargetRef(w, namespace, ref, size, api).0)
  {
    var key := Key(namespace, ref.name);
    if ref.kind != HPA_KIND {
      TryToScaleExact(w, namespace, ref, size, api);
    } else if api.hpaGet.None? && key in w.hpas {
      var adjusted := Adjust(w.hpas[key], size);
      var w1 := if adjusted.needUpdate then UpdateHpa(w, key, adjusted.hpa, api.hpaUpdate).0 else w;
      assert SameTargets(w, w1);
      TryToScaleExact(w1, namespace, adjusted.hpa.target, adjusted.scaleTo, api);
    }
  }

  lemma ReconcileKeepsTargets(parse: Parser, o: CronHPA, round: Round, choice: Choice, w: World)
    ensures SameTargets(w, Reconcile(parse, o, round, choice, w).0)
  {
    ScalingKeepsTargets(w, o.key.namespace, o.spec.scaleTargetRef, choice.chosen.targetSize, round.api);
  }

  /** A reconcile's result, and its effect inside any region that contains its footprint, depend
      only on that region. */
  lemma ReconcileIsLocalWithin(parse: Parser, o: CronHPA, round: Round, choice: Choice, w: World, w': World,
                               g: Footprint)
    requires Within(FootprintOf(w, o, round.api), g) && Agree(w, w', g)
    ensures var (z, r), (z', r') := Reconcile(parse, o, round, choice, w), Reconcile(parse, o, round, choice, w');
            r == r' && Agree(z, z', g)
  {
    var f := FootprintOf(w, o, round.api);
    FootprintIsLocal(w, w', o, round.api);
    ReconcileIsLocal(parse, o, round, choice, w, w', Without(g, f));
    ReconcileIsLocal(parse, o, round, choice, w', w', Without(g, f));
    AgreeInParts(Reconcile(parse, o, round, choice, w).0, w, w', Reconcile(parse, o, round, choice, w').0, f, g);
  }

  lemma AgreeInParts(z: World, w: World, w': World, z': World, f: Footprint, g: Footprint)
    requires Agree(z, z', f) && Agree(w, w', g)
    requires Agree(w, z, Without(g, f)) && Agree(w', z', Without(g, f))
    ensures Agree(z, z', g)
  {
    SameInParts(z.objects, w.objects, w'.objects, z'.objects, f.objects, g.objects);
    SameInParts(z.hpas, w.hpas, w'.hpas, z'.hpas, f.hpas, g.hpas);
    SameInParts(z.scales, w.scales, w'.scales, z'.scales, f.scales, g.scales);
  }

  lemma SameInParts<K, V>(z: map<K, V>, m: map<K, V>, m': map<K, V>, z': map<K, V>, f: set<K>, g: set<K>)
    requires SameOn(z, z', f) && SameOn(m, m', g) && SameOn(m, z, g - f) && SameOn(m', z', g - f)
    ensures SameOn(z, z', g)
  {
    forall k | k in g ensures (k in z <==> k in z') && (k in z ==> z[k] == z'[k]) {
      assert k in f || k in g - f;
    }
  }

  ghost predicate RegionsDisjoint(regions: nat -> Footprint) {
    forall i: nat, j: nat :: i != j ==> Disjoint(regions(i), regions(j))
  }

  /** Every task stays within its owner's region. */
  ghost predicate InRegions(w: World, tasks: seq<Task>, regions: nat -> Footprint) {
    forall i :: 0 <= i < |tasks| ==> Within(FootprintOf(w, tasks[i].o, tasks[i].round.api), regions(tasks[i].owner))
  }

  lemma {:induction false} WorkKeepsTargets(parse: Parser, tasks: seq<Task>, w: World)
    ensures SameTargets(w, Work(parse, tasks, w).0)
  {
    if tasks == [] {
    } else {
      var n := |tasks| - 1;
      WorkKeepsTargets(parse, tasks[..n], w);
      ReconcileKeepsTargets(parse, tasks[n].o, tasks[n].round, tasks[n].choice, Work(parse, tasks[..n], w).0);
    }
  }

  lemma OthersLeaveAlone(parse: Parser, t: Task, w: World, f: Footprint, g: Footprint)
    requires Within(FootprintOf(w, t.o, t.round.api), f) && Disjoint(f, g)
    ensures Agree(w, Reconcile(parse, t.o, t.round, t.choice, w).0, g)
  {
    ReconcileIsLocal(parse, t.o, t.round, t.choice, w, w, g);
  }

  /** Over any number of passes, in any order and with any failures: while the objects keep to
      disjoint regions, each region ends as if only its own object had ever been reconciled, and
      each reconcile of that object returns what it would then have returned. */
  lemma {:induction false} PassesAreNonInterfering(parse: Parser, tasks: seq<Task>, regions: nat -> Footprint,
                                                   owner: nat, w: World)
    requires RegionsDisjoint(regions) && InRegions(w, tasks, regions)
    ensures var (z, results), (z', own) := Work(parse, tasks, w), Work(parse, Own(tasks, owner), w);
            Agree(z, z', regions(owner)) && OwnResults(tasks, results, owner) == own
    decreases |tasks|
  {
    if tasks == [] {
    } else {
      var n := |tasks| - 1;
      var front, t := tasks[..n], tasks[n];
      var (w1, results) := Work(parse, front, w);
      var own := Own(front, owner);
      PassesAreNonInterfering(parse, front, regions, owner, w);
      WorkKeepsTargets(parse, front, w);
      assert FootprintOf(w1, t.o, t.round.api) == FootprintOf(w, t.o, t.round.api);
      assert Within(FootprintOf(w1, t.o, t.round.api), regions(t.owner));
      if t.owner == owner {
        ReconcileIsLocalWithin(parse, t.o, t.round, t.choice, w1, Work(parse, own, w).0, regions(owner));
        assert (own + [t])[..|own|] == own;
      } else {
        OthersLeaveAlone(parse, t, w1, regions(t.owner), regions(owner));
        assert Own(tasks, owner) == own;
      }
    }
  }
}
