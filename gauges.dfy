/**
 * The gauges and the loop that writes one machine's samples into them.
 * A gauge's values are modelled as one store keyed by gauge name and
 * label values; the loop resolves each sample's counter id back to its
 * full name, builds the three label values and sets the gauge to the
 * sample's first value.
 */
module Gauges {
  import opened Wrappers
  import Text
  import opened Catalog

  /** The domain suffix removed from the configured host to form the `vcenter_name` label. */
  const HostSuffix: string := ".cloud.sap"

  /** `host.replace('.cloud.sap', '')`. */
  function HostLabel(host: string): (r: string)
    ensures |r| <= |host|
    ensures !Text.Contains(host, HostSuffix) ==> r == host
  {
    Text.RemoveAllAbsent(host, HostSuffix);
    Text.RemoveAll(host, HostSuffix)
  }

  /** A host name that ends with the suffix, and holds it nowhere else, loses exactly that suffix. */
  lemma HostLabelStripsSuffix(name: string)
    requires !Text.Contains(name, HostSuffix)
    ensures HostLabel(name + HostSuffix) == name
  {
    Text.RemoveAllTrailing(name, HostSuffix);
  }

  /**
   * Every copy of the suffix is removed, scanning from the left: the text
   * before the first copy is kept and the rest is shortened on its own.
   */
  lemma HostLabelDropsFirst(before: string, after: string)
    requires !Text.Contains(before + HostSuffix[..|HostSuffix| - 1], HostSuffix)
    ensures HostLabel(before + HostSuffix + after) == before + HostLabel(after)
  {
    Text.RemoveAllFirst(before, HostSuffix, after);
  }

  /**
   * One entry of `result[0].value`: `Falsy` where the entry is falsy,
   * otherwise the counter id it reports, its instance and its values.
   */
  datatype Sample = Falsy | Series(counterId: int, instance: string, value: seq<int>)

  /** The exceptions that escape a machine's processing and end the program. */
  datatype Fault =
    | BadAnnotation(index: nat, length: nat)  // `dict()` on a line with no colon
    | EmptyQueryResult                        // `result[0]` on an empty result
    | UnknownCounterId(counterId: int)        // `.index()` finds no full name for the id
    | MissingAnnotationKey(key: string)       // `annotations['name']` or `annotations['projectid']`
    | EmptySeries(counterId: int)             // `val.value[0]` on an empty series

  /** The label values of one gauge entry, in the order of `LabelNames`. */
  type LabelValues = seq<string>

  /** Every gauge's value per label combination. */
  type Store = map<(string, LabelValues), int>

  /**
   * The label values: the annotation's `name`, its `projectid` and the
   * shortened host, in that order; a missing key raises `KeyError`.
   */
  function Labels(annotations: map<string, string>, host: string): (r: Result<LabelValues, Fault>)
    ensures r.Success? <==> "name" in annotations && "projectid" in annotations
    ensures r.Success? ==> (|r.value| == |LabelNames| && r.value[0] == annotations["name"] &&
                            r.value[1] == annotations["projectid"] && r.value[2] == HostLabel(host))
    ensures r.Failure? ==> r.error == MissingAnnotationKey(if "name" !in annotations then "name" else "projectid")
  {
    if "name" !in annotations then Failure(MissingAnnotationKey("name"))
    else if "projectid" !in annotations then Failure(MissingAnnotationKey("projectid"))
    else Success([annotations["name"], annotations["projectid"], HostLabel(host)])
  }

  /**
   * The store entry a truthy sample of `counterId` writes: the gauge of
   * the full name the reverse lookup finds, under the label values.
   */
  function Target(info: CounterIndex, annotations: map<string, string>, host: string, counterId: int): Result<(string, LabelValues), Fault>
  {
    match ReverseLookup(info, counterId)
    case None => Failure(UnknownCounterId(counterId))
    case Some(fullName) =>
      match Labels(annotations, host)
      case Failure(e) => Failure(e)
      case Success(labels) => Success((GaugeName(fullName), labels))
  }

  /** One turn of the sample loop: skip a falsy entry, otherwise set its target to its first value. */
  function ApplySample(values: Store, info: CounterIndex, annotations: map<string, string>, host: string, s: Sample): (r: Result<Store, Fault>)
    ensures s.Falsy? ==> r == Success(values)
    ensures s.Series? ==> (r.Success? <==> Target(info, annotations, host, s.counterId).Success? && s.value != [])
    ensures s.Series? && r.Success? ==>
      var key := Target(info, annotations, host, s.counterId).value;
      key in r.value && r.value[key] == s.value[0] &&
      forall other :: other != key ==> (other in r.value <==> other in values) && (other in values ==> r.value[other] == values[other])
  {
    match s
    case Falsy => Success(values)
    case Series(id, _, vs) =>
      match Target(info, annotations, host, id)
      case Failure(e) => Failure(e)
      case Success(key) => if vs == [] then Failure(EmptySeries(id)) else Success(values[key := vs[0]])
  }

  /**
   * The whole sample loop, first entry first; the first fault stops it and
   * leaves the entries already set as they are.
   */
  function ApplySamples(values: Store, info: CounterIndex, annotations: map<string, string>, host: string, samples: seq<Sample>): (Store, Option<Fault>)
    decreases |samples|
  {
    if samples == [] then (values, None)
    else
      match ApplySample(values, info, annotations, host, samples[0])
      case Failure(e) => (values, Some(e))
      case Success(next) => ApplySamples(next, info, annotations, host, samples[1..])
  }

  /** Sample `s` writes `key` when it is truthy and its target is `key`. */
  predicate Writes(info: CounterIndex, annotations: map<string, string>, host: string, s: Sample, key: (string, LabelValues))
  {
    s.Series? && Target(info, annotations, host, s.counterId) == Success(key)
  }

  /** An entry that no truthy sample targets is left exactly as it was. */
  lemma {:induction false} ApplySamplesFrame(values: Store, info: CounterIndex, annotations: map<string, string>, host: string,
                                             samples: seq<Sample>, key: (string, LabelValues))
    requires forall i :: 0 <= i < |samples| ==> !Writes(info, annotations, host, samples[i], key)
    ensures var after := ApplySamples(values, info, annotations, host, samples).0;
      (key in after <==> key in values) && (key in values ==> after[key] == values[key])
    decreases |samples|
  {
    if samples != [] {
      assert !Writes(info, annotations, host, samples[0], key);
      match ApplySample(values, info, annotations, host, samples[0])
      case Failure(_) =>
      case Success(next) =>
        ApplySamplesFrame(next, info, annotations, host, samples[1..], key);
    }
  }

  /**
   * When the loop finishes without a fault, an entry a truthy sample
   * targets holds the first value of the LAST sample that targets it.
   */
  lemma {:induction false} ApplySamplesLastWrite(values: Store, info: CounterIndex, annotations: map<string, string>, host: string,
                                                 samples: seq<Sample>, i: int, key: (string, LabelValues))
    requires ApplySamples(values, info, annotations, host, samples).1.None?
    requires 0 <= i < |samples| && Writes(info, annotations, host, samples[i], key)
    requires forall j :: i < j < |samples| ==> !Writes(info, annotations, host, samples[j], key)
    ensures samples[i].value != []
    ensures var after := ApplySamples(values, info, annotations, host, samples).0;
      key in after && after[key] == samples[i].value[0]
    decreases |samples|
  {
    var next := ApplySample(values, info, annotations, host, samples[0]).value;
    if i == 0 {
      ApplySamplesFrame(next, info, annotations, host, samples[1..], key);
    } else {
      ApplySamplesLastWrite(next, info, annotations, host, samples[1..], i - 1, key);
    }
  }

  /** The loop faults exactly when some truthy sample has no target or no value. */
  lemma {:induction false} ApplySamplesFault(values: Store, info: CounterIndex, annotations: map<string, string>, host: string,
                                             samples: seq<Sample>)
    ensures ApplySamples(values, info, annotations, host, samples).1.Some? <==>
      exists i :: 0 <= i < |samples| && samples[i].Series? &&
        (Target(info, annotations, host, samples[i].counterId).Failure? || samples[i].value == [])
    decreases |samples|
  {
    if samples != [] {
      match ApplySample(values, info, annotations, host, samples[0])
      case Failure(_) =>
      case Success(next) =>
        ApplySamplesFault(next, info, annotations, host, samples[1..]);
        assert forall i :: 0 < i < |samples| ==> samples[i] == samples[1..][i - 1];
    }
  }

  /** A falsy entry changes nothing, wherever it stands. */
  lemma {:induction false} FalsyIgnored(values: Store, info: CounterIndex, annotations: map<string, string>, host: string,
                                        before: seq<Sample>, after: seq<Sample>)
    ensures ApplySamples(values, info, annotations, host, before + [Falsy] + after) ==
            ApplySamples(values, info, annotations, host, before + after)
    decreases |before|
  {
    if before == [] {
      assert before + [Falsy] + after == [Falsy] + after;
      assert ([Falsy] + after)[1..] == after;
      assert before + after == after;
    } else {
      assert (before + [Falsy] + after)[0] == before[0] && (before + after)[0] == before[0];
      assert (before + [Falsy] + after)[1..] == before[1..] + [Falsy] + after;
      assert (before + after)[1..] == before[1..] + after;
      match ApplySample(values, info, annotations, host, before[0])
      case Failure(_) =>
      case Success(next) =>
        FalsyIgnored(next, info, annotations, host, before[1..], after);
    }
  }

  /**
   * The gauges registered at start-up and their values. `names` is fixed
   * once registration is done; `values` changes with every sample set.
   */
  class GaugeStore {
    const names: set<string>
    var values: Store

    /** Every set entry belongs to a registered gauge and carries one value per label. */
    ghost predicate Valid()
      reads this
    {
      forall key :: key in values ==> key.0 in names && |key.1| == |LabelNames|
    }

    constructor (names: set<string>)
      ensures this.names == names && values == map[] && Valid()
    {
      this.names := names;
      values := map[];
    }

    /** `gauge[name].labels(*labels).set(v)`. */
    method Set(name: string, labels: LabelValues, v: int)
      requires Valid() && name in names && |labels| == |LabelNames|
      modifies this
      ensures Valid() && values == old(values)[(name, labels) := v]
    {
      values := values[(name, labels) := v];
    }
  }

  /**
   * The loop over one machine's samples: each truthy sample sets its
   * gauge entry; the first fault is returned and ends the loop.
   */
  method UpdateGauges(store: GaugeStore, info: CounterIndex, annotations: map<string, string>, host: string, samples: seq<Sample>)
    returns (fault: Option<Fault>)
    requires store.Valid() && Registered(info, store.names)
    modifies store
    ensures store.Valid()
    ensures (store.values, fault) == ApplySamples(old(store.values), info, annotations, host, samples)
  {
    for k := 0 to |samples|
      invariant store.Valid()
      invariant ApplySamples(old(store.values), info, annotations, host, samples) ==
                ApplySamples(store.values, info, annotations, host, samples[k..])
    {
      assert samples[k..][0] == samples[k] && samples[k..][1..] == samples[k + 1..];
      match samples[k]
      case Falsy =>
      case Series(id, _, vs) =>
        var fullName := ReverseLookup(info, id);
        if fullName.None? {
          return Some(UnknownCounterId(id));
        }
        var gaugeName := GaugeName(fullName.value);
        if "name" !in annotations {
          return Some(MissingAnnotationKey("name"));
        }
        if "projectid" !in annotations {
          return Some(MissingAnnotationKey("projectid"));
        }
        var labels := [annotations["name"], annotations["projectid"], HostLabel(host)];
        if vs == [] {
          return Some(EmptySeries(id));
        }
        store.Set(gaugeName, labels, vs[0]);
    }
    assert samples[|samples|..] == [];
    fault := None;
  }
}
