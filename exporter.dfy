/**
 * One polling cycle: for each machine of the inventory, test eligibility,
 * parse the annotation, build the statistics query and write the returned
 * samples into the gauges. A machine that disappears is skipped; any other
 * exception ends the program.
 */
module Exporter {
  import opened Wrappers
  import opened Catalog
  import opened Annotation
  import opened Query
  import opened Gauges

  /** The parts of `child.summary` the exporter reads; `name` is read only by the log line. */
  datatype Summary = Summary(name: string, annotation: string, powerState: string)

  /** What `QueryStats` answers: `ManagedObjectNotFound`, or one sample list per entity. */
  datatype StatsReply = ObjectNotFound | Entities(series: seq<seq<Sample>>)

  /**
   * A machine of the container view. `summary` is `None` when reading it
   * raises `ManagedObjectNotFound`; `reply` is what the statistics query
   * for this machine returns.
   */
  datatype Vm = Vm(entity: string, summary: Option<Summary>, reply: StatsReply)

  /** How the processing of one machine ended. */
  datatype VmOutcome =
    | Ineligible          // the eligibility test failed; nothing queried
    | Vanished            // `ManagedObjectNotFound` was caught
    | Sampled             // every sample was handled
    | Crashed(fault: Fault)  // an exception no handler catches

  /** The gauge values after one machine, its outcome, and the query sent for it, if any. */
  datatype Step = Step(values: Store, outcome: VmOutcome, query: Option<seq<QuerySpec>>)

  /** The body of the loop over the machines, for one machine. */
  function VmStep(values: Store, info: CounterIndex, ids: seq<int>, host: string, vm: Vm): (r: Step)
    ensures vm.summary.None? ==> r == Step(values, Vanished, None)
    ensures vm.summary.Some? && !Eligible(vm.summary.value.annotation, vm.summary.value.powerState) ==>
      r == Step(values, Ineligible, None)
    ensures r.query.Some? <==>
      vm.summary.Some? && Eligible(vm.summary.value.annotation, vm.summary.value.powerState) &&
      Parse(vm.summary.value.annotation).Success?
    ensures r.query.Some? ==> r.query.value == BuildQuery(vm.entity, ids)
    ensures r.outcome.Ineligible? || r.outcome.Vanished? ==> r.values == values
    ensures r.outcome.Sampled? ==>
      r.query.Some? && vm.reply.Entities? && vm.reply.series != [] &&
      (r.values, None) == ApplySamples(values, info, Parse(vm.summary.value.annotation).value, host, vm.reply.series[0])
  {
    match vm.summary
    case None => Step(values, Vanished, None)
    case Some(s) =>
      if !Eligible(s.annotation, s.powerState) then Step(values, Ineligible, None)
      else
        match Parse(s.annotation)
        case Failure(e) => Step(values, Crashed(BadAnnotation(e.index, e.length)), None)
        case Success(annotations) =>
          var query := BuildQuery(vm.entity, ids);
          match vm.reply
          case ObjectNotFound => Step(values, Vanished, Some(query))
          case Entities(series) =>
            if series == [] then Step(values, Crashed(EmptyQueryResult), Some(query))
            else
              var (after, fault) := ApplySamples(values, info, annotations, host, series[0]);
              Step(after, if fault.Some? then Crashed(fault.value) else Sampled, Some(query))
  }

  /**
   * Every way the processing of an eligible machine can end. A bad
   * annotation ends the program before any query; once the query is
   * sent, the machine vanishing there skips it, an empty result ends
   * the program, and otherwise the first entity's samples are applied
   * and decide the outcome. `Vanished` arises at exactly the two places
   * `ManagedObjectNotFound` is caught.
   */
  lemma VmStepOutcomes(values: Store, info: CounterIndex, ids: seq<int>, host: string, vm: Vm)
    ensures var r := VmStep(values, info, ids, host, vm);
      vm.summary.Some? && Eligible(vm.summary.value.annotation, vm.summary.value.powerState) ==>
      var parsed := Parse(vm.summary.value.annotation);
      parsed.Failure? ==> r == Step(values, Crashed(BadAnnotation(parsed.error.index, parsed.error.length)), None)
    ensures var r := VmStep(values, info, ids, host, vm);
      r.query.Some? && vm.reply.ObjectNotFound? ==> r.values == values && r.outcome == Vanished
    ensures var r := VmStep(values, info, ids, host, vm);
      r.query.Some? && vm.reply == Entities([]) ==> r.values == values && r.outcome == Crashed(EmptyQueryResult)
    ensures var r := VmStep(values, info, ids, host, vm);
      r.query.Some? && vm.reply.Entities? && vm.reply.series != [] ==>
      var (after, fault) := ApplySamples(values, info, Parse(vm.summary.value.annotation).value, host, vm.reply.series[0]);
      r.values == after && r.outcome == (if fault.Some? then Crashed(fault.value) else Sampled)
    ensures var r := VmStep(values, info, ids, host, vm);
      r.outcome.Vanished? <==> vm.summary.None? || (r.query.Some? && vm.reply.ObjectNotFound?)
  {
  }

  /**
   * The cycle over the machines, in inventory order. It stops after the
   * first machine that crashes, since that exception ends the program.
   */
  function Cycle(values: Store, info: CounterIndex, ids: seq<int>, host: string, vms: seq<Vm>): (Store, seq<VmOutcome>)
    decreases |vms|
  {
    if vms == [] then (values, [])
    else
      var step := VmStep(values, info, ids, host, vms[0]);
      if step.outcome.Crashed? then (step.values, [step.outcome])
      else
        var (after, outcomes) := Cycle(step.values, info, ids, host, vms[1..]);
        (after, [step.outcome] + outcomes)
  }

  /**
   * The cycle reaches every machine unless one crashes: only the last
   * outcome can be a crash, and an outcome is missing only after one.
   */
  lemma {:induction false} CycleReachesEveryVm(values: Store, info: CounterIndex, ids: seq<int>, host: string, vms: seq<Vm>)
    ensures var outcomes := Cycle(values, info, ids, host, vms).1;
      |outcomes| <= |vms| &&
      (forall i :: 0 <= i < |outcomes| - 1 ==> !outcomes[i].Crashed?) &&
      (|outcomes| < |vms| ==> outcomes != [] && outcomes[|outcomes| - 1].Crashed?)
    decreases |vms|
  {
    if vms != [] {
      var step := VmStep(values, info, ids, host, vms[0]);
      if !step.outcome.Crashed? {
        CycleReachesEveryVm(step.values, info, ids, host, vms[1..]);
      }
    }
  }

  /** Machines that are gone or not eligible leave every gauge as it was. */
  lemma {:induction false} CycleSkipsIneligible(values: Store, info: CounterIndex, ids: seq<int>, host: string, vms: seq<Vm>)
    requires forall i :: 0 <= i < |vms| ==>
      vms[i].summary.None? || !Eligible(vms[i].summary.value.annotation, vms[i].summary.value.powerState)
    ensures Cycle(values, info, ids, host, vms).0 == values
    decreases |vms|
  {
    if vms != [] {
      CycleSkipsIneligible(values, info, ids, host, vms[1..]);
    }
  }

  /** The loop body for one machine, with the `ManagedObjectNotFound` handler. */
  method ProcessVm(store: GaugeStore, info: CounterIndex, ids: seq<int>, host: string, vm: Vm)
    returns (outcome: VmOutcome, query: Option<seq<QuerySpec>>)
    requires store.Valid() && Registered(info, store.names)
    modifies store
    ensures store.Valid()
    ensures Step(store.values, outcome, query) == VmStep(old(store.values), info, ids, host, vm)
  {
    if vm.summary.None? {
      return Vanished, None;
    }
    var s := vm.summary.value;
    if !Eligible(s.annotation, s.powerState) {
      return Ineligible, None;
    }
    var parsed := Parse(s.annotation);
    if parsed.Failure? {
      return Crashed(BadAnnotation(parsed.error.index, parsed.error.length)), None;
    }
    var annotations := parsed.value;
    var spec := BuildQuery(vm.entity, ids);
    query := Some(spec);
    if vm.reply.ObjectNotFound? {
      return Vanished, query;
    }
    var result := vm.reply.series;
    if result == [] {
      return Crashed(EmptyQueryResult), query;
    }
    var fault := UpdateGauges(store, info, annotations, host, result[0]);
    outcome := if fault.Some? then Crashed(fault.value) else Sampled;
  }

  /** One pass of the polling loop over the machines of the container view. */
  method RunCycle(store: GaugeStore, info: CounterIndex, ids: seq<int>, host: string, vms: seq<Vm>)
    returns (outcomes: seq<VmOutcome>)
    requires store.Valid() && Registered(info, store.names)
    modifies store
    ensures store.Valid()
    ensures (store.values, outcomes) == Cycle(old(store.values), info, ids, host, vms)
  {
    outcomes := [];
    assert vms[0..] == vms;
    for k := 0 to |vms|
      invariant store.Valid()
      invariant Cycle(old(store.values), info, ids, host, vms).0 == Cycle(store.values, info, ids, host, vms[k..]).0
      invariant Cycle(old(store.values), info, ids, host, vms).1 == outcomes + Cycle(store.values, info, ids, host, vms[k..]).1
    {
      assert vms[k..][0] == vms[k] && vms[k..][1..] == vms[k + 1..];
      ghost var before := store.values;
      var outcome, _ := ProcessVm(store, info, ids, host, vms[k]);
      ghost var rest := Cycle(store.values, info, ids, host, vms[k + 1..]);
      assert outcome.Crashed? ==> Cycle(before, info, ids, host, vms[k..]) == (store.values, [outcome]);
      assert !outcome.Crashed? ==> Cycle(before, info, ids, host, vms[k..]) == (rest.0, [outcome] + rest.1);
      assert outcomes + ([outcome] + rest.1) == (outcomes + [outcome]) + rest.1;
      outcomes := outcomes + [outcome];
      if outcome.Crashed? {
        assert Cycle(old(store.values), info, ids, host, vms) == (store.values, outcomes);
        return;
      }
    }
    assert vms[|vms|..] == [];
    assert outcomes + [] == outcomes;
  }
}
