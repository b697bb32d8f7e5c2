/**
 * Whole runs of the model: one polling cycle over one counter and one
 * machine, for any counter, machine name, project, host and value.
 */
module Scenarios {
  import opened Wrappers
  import Text
  import opened Catalog
  import opened Annotation
  import opened Query
  import opened Gauges
  import opened Exporter

  /** The annotation the owning platform writes: a `name` line and a `projectid` line. */
  function OwnerAnnotation(vmName: string, project: string): string
  {
    "name:" + vmName + "\nprojectid:" + project
  }

  /** A powered-on machine that reports `value` for counter `id`. */
  function ReportingVm(annotation: string, id: int, value: int): Vm
  {
    Vm("vm-1", Some(Summary("vm", annotation, PoweredOn)), Entities([[Series(id, "", [value])]]))
  }

  /**
   * With a catalog of one counter and no `vm_metrics` list, one cycle over
   * a machine carrying the owner annotation sets the counter's gauge,
   * under the labels (machine name, project, host without its domain
   * suffix), to the sampled value, whatever that value is: the no-data
   * value -1 is published like any other. Nothing else is set.
   */
  lemma CycleSetsGauge(c: Counter, vmName: string, project: string, vcenter: string, value: int)
    requires '.' !in c.group && '.' !in c.name && '.' !in c.rollup
    requires '\n' !in vmName && ':' !in vmName && '\n' !in project && ':' !in project
    requires !Text.Contains(vcenter, HostSuffix)
    ensures var info := IndexOf([c]);
      Cycle(map[], info, SelectIds(None, info, [c]), vcenter + HostSuffix,
            [ReportingVm(OwnerAnnotation(vmName, project), c.key, value)]) ==
        (map[(GaugePrefix + c.group + "_" + c.name + "_" + c.rollup, [vmName, project, vcenter]) := value], [Sampled])
  {
    var counters := [c];
    var host := vcenter + HostSuffix;
    var info := IndexOf(counters);
    var annotation := OwnerAnnotation(vmName, project);
    var annotations := map["name" := vmName]["projectid" := project];
    var key := (GaugePrefix + c.group + "_" + c.name + "_" + c.rollup, [vmName, project, vcenter]);
    var ids := SelectIds(None, info, counters);
    SingleCounter(c);
    OwnerAnnotationParses(vmName, project);
    assert Target(info, annotations, host, c.key) == Success(key) by {
      GaugeNameOfCounter(c);
      HostLabelStripsSuffix(vcenter);
      assert Labels(annotations, host) == Success(key.1);
    }
    var samples := [Series(c.key, "", [value])];
    assert samples[1..] == [];
    assert ApplySamples(map[], info, annotations, host, samples) == (map[key := value], None);
    var vm := ReportingVm(annotation, c.key, value);
    assert VmStep(map[], info, ids, host, vm).values == map[key := value];
    assert VmStep(map[], info, ids, host, vm).outcome == Sampled;
    assert [vm][1..] == [];
    assert Cycle(map[key := value], info, ids, host, []) == (map[key := value], []);
    assert [Sampled] + [] == [Sampled];
    assert Cycle(map[], info, ids, host, [vm]) == (map[key := value], [Sampled]);
  }

  /** The catalog of a single counter. */
  lemma SingleCounter(c: Counter)
    ensures IndexOf([c]) == CounterIndex([FullName(c)], map[FullName(c) := c.key])
    ensures ReverseLookup(IndexOf([c]), c.key) == Some(FullName(c))
  {
    assert [c][..0] == [];
    assert IndexOf([c][..0]) == CounterIndex([], map[]);
  }

  /** The owner annotation is eligible and parses to its two keys. */
  lemma OwnerAnnotationParses(vmName: string, project: string)
    requires '\n' !in vmName && ':' !in vmName && '\n' !in project && ':' !in project
    ensures Eligible(OwnerAnnotation(vmName, project), PoweredOn)
    ensures Parse(OwnerAnnotation(vmName, project)) == Success(map["name" := vmName]["projectid" := project])
  {
    var annotation := OwnerAnnotation(vmName, project);
    assert annotation == "name" + ":" + vmName + "\n" + "projectid" + ":" + project;
    assert annotation[..|Marker|] == Marker;
    ParseTwoLines("name", vmName, "projectid", project);
  }

  /** A machine whose annotation lacks the `name:` lead-in is skipped: no query, no gauge change. */
  lemma UnmarkedVmSkipped(values: Store, info: CounterIndex, ids: seq<int>, host: string, id: int, value: int)
    ensures VmStep(values, info, ids, host, ReportingVm("foo:bar", id, value)) == Step(values, Ineligible, None)
  {
    assert !(Marker <= "foo:bar") by {
      assert "foo:bar"[0] != Marker[0];
    }
  }
}
