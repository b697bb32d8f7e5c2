# vcenter-exporter, modelled in Dafny

The vcenter-exporter polls a vCenter performance manager for per-machine
performance counters and republishes them as Prometheus gauges. This project
models the logic of its `main()` that maps counters onto gauges:

- the **counter catalog**: every counter's full name `group.name.rollup`, the
  `counterInfo` dictionary from full name to counter id, and one gauge per
  full name, named `vcenter_` plus the full name with dots turned into
  underscores (module `Catalog`, method `Register`);
- the **counter selection**: the ids of the `vm_metrics` names that exist, in
  list order, or else every counter id in discovery order (`Catalog.SelectIds`);
- the **eligibility test**: non-empty annotation, power state `poweredOn`, and
  an annotation that starts with `name:` (`Annotation.Eligible`);
- the **annotation parser**: split on newlines, drop empty lines, split each
  line at its last colon, build a dictionary in which a later key overwrites
  an earlier one, and fail on a non-empty line without a colon
  (`Annotation.Parse`);
- the **query**: one wildcard metric id per selected counter, in one query spec
  with `maxSample = 1` and `intervalId = 20` (`Query.BuildQuery`);
- the **sample loop**: each truthy sample is resolved back to its full name by
  searching the dictionary's values, and sets that gauge, under the labels
  (annotation `name`, annotation `projectid`, host without `.cloud.sap`), to the
  sample's first value (`Gauges.UpdateGauges`, proved against
  `Gauges.ApplySamples`);
- one **polling cycle** over the machines, where `ManagedObjectNotFound` skips
  a machine and every other exception ends the program (`Exporter.RunCycle`,
  proved against `Exporter.Cycle`).

The Prometheus gauges are a class, `Gauges.GaugeStore`, whose values are one
map from (gauge name, label values) to the last value set. The registration
loop and the selection work on local dictionaries and lists, so they are a
method returning its results and pure functions. The remote calls
(`QueryPerfCounterByLevel`, the container view, `QueryStats`) are replaced by
their results, given as inputs: the counter list, and per machine its summary
and the reply its statistics query gets.

Uncaught exceptions are values: `Gauges.Fault` names the `ValueError`,
`KeyError` and `IndexError` the code can raise, and a machine whose processing
raises one ends the cycle with `Crashed`.

The model follows the code's own behaviour in these places:

- Gauges carry the three labels registered at line 84: `vmware_name`,
  `project_id` and `vcenter_name` (`Catalog.LabelNames`).
- Only falsy sample entries are skipped, so a sample of -1 is set like any
  other value (`Scenarios.CycleSetsGauge` holds for every value).
- A line is split at its last colon, so a key may hold a colon and a value
  never does (`Annotation.ParseOneLine`, `Annotation.ParseValuesHaveNoColon`).
- Missing `name` or `projectid` keys are not a parse failure. They raise
  `KeyError` only when a truthy sample is set, and that exception is not
  caught (`Gauges.Labels`, `Gauges.ApplySamplesFault`).
- A parse failure, an unknown counter id, an empty query result and an empty
  sample series are not caught either: they end the program, not just the
  machine (`Exporter.VmStep`).
- The reverse lookup searches the dictionary's values in order. It is not an
  index keyed by id (`Catalog.FirstWithId`).

## Model

| member | source | states |
|---|---|---|
| `Text.ReplaceChar` | vcenter-exporter.py:81-83 | `replace('.', '_')` keeps the length, turns every dot into an underscore and keeps every other character |
| `Text.RemoveAll` | vcenter-exporter.py:149-151 | `replace('.cloud.sap', '')` never lengthens the host; `Text.RemoveAllAbsent` and `Text.RemoveAllFirst` fix its result for every host |
| `Text.RemoveAllAbsent` | vcenter-exporter.py:149-151 | a text without the pattern is left as it is |
| `Text.RemoveAllFirst` | vcenter-exporter.py:149-151 | the scan from the left keeps the text before the first copy of the pattern, drops that copy and goes on with the rest, so every non-overlapping copy is removed |
| `Text.Split` | vcenter-exporter.py:115 | `split('\n')` yields at least one piece and no piece holds a newline |
| `Text.SplitJoin` | vcenter-exporter.py:115 | joining the pieces with newlines gives back the annotation |
| `Text.SplitTrailingSep` | vcenter-exporter.py:115 | a trailing newline adds exactly one empty piece |
| `Text.SplitNoSep` | vcenter-exporter.py:115 | a text without newlines is one piece |
| `Text.SplitAtSep` | vcenter-exporter.py:115 | the text before the first newline is the first piece and the rest splits on its own |
| `Text.RSplitOnce` | vcenter-exporter.py:122 | `rsplit(':', 1)` is the line itself when it has no colon, otherwise the text before and after the last colon, the second part colon-free |
| `Text.RSplitOnceAt` | vcenter-exporter.py:122 | a line `k:v` with colon-free `v` splits into exactly `k` and `v`, whatever colons `k` holds |
| `Catalog.FullName` | vcenter-exporter.py:76 | the full name `group.name.rollup`; `Catalog.IndexKeys` makes these exactly the dictionary's keys and `Catalog.GaugeNameOfCounter` gives the gauge named after it |
| `Catalog.GaugeName` | vcenter-exporter.py:81-83 | the gauge name starts with `vcenter_`, holds no dot, and is the full name with dots turned into underscores |
| `Catalog.GaugeNameOfCounter` | vcenter-exporter.py:76-83 | with dot-free parts the gauge name is `vcenter_` + group + `_` + name + `_` + rollup |
| `Catalog.Assign` | vcenter-exporter.py:78 | a dictionary assignment keeps the key order duplicate-free and in step with the keys |
| `Catalog.IndexOf` | vcenter-exporter.py:75-78 | the dictionary the registration loop builds, as a function of the counter list; its properties are `Catalog.IndexValid`, `Catalog.IndexKeys`, `Catalog.IndexLastWins`, `Catalog.IndexDistinct` and `Catalog.IndexOrderDistinct`, and `Catalog.Register` computes it |
| `Catalog.Register` | vcenter-exporter.py:75-84 | the loop builds the dictionary of all counters seen, well formed, with a gauge for every discovered counter and for every key |
| `Catalog.IndexValid` | vcenter-exporter.py:75-78 | the dictionary built from any counter list is well formed |
| `Catalog.IndexKeys` | vcenter-exporter.py:75-78 | the dictionary's keys are exactly the counters' full names |
| `Catalog.IndexLastWins` | vcenter-exporter.py:78 | each key holds the id of the last counter with that full name |
| `Catalog.IndexDistinct` | vcenter-exporter.py:78 | with distinct full names every counter's full name maps to its own id |
| `Catalog.IndexOrderDistinct` | vcenter-exporter.py:75-78 | with distinct full names the model's key order (insertion order, see "Left out") is the discovery order |
| `Catalog.Listed` | vcenter-exporter.py:89-91 | the listed ids are no more than the names; `Catalog.ListedMembers` and `Catalog.ListedConcat` fix them entry by entry |
| `Catalog.ListedMembers` | vcenter-exporter.py:89-91 | every known name contributes its id and every listed id comes from a known listed name |
| `Catalog.ListedConcat` | vcenter-exporter.py:89-91 | the listing maps a concatenation of name lists to the concatenation of their ids, so list order is kept and unknown names drop out |
| `Catalog.AllKeys` | vcenter-exporter.py:93 | without a list, the ids are every counter's id in discovery order |
| `Catalog.SelectIds` | vcenter-exporter.py:87-93 | with a non-empty `vm_metrics` list the ids come from its known names, at most one per list entry; otherwise they are all counter ids in order |
| `Catalog.FirstWithId` | vcenter-exporter.py:144-145 | the lookup returns the first key in dictionary order whose id matches, or nothing when no key's id matches |
| `Catalog.ReverseLookup` | vcenter-exporter.py:144-145 | `keys()[values().index(id)]` on the dictionary; `Catalog.FirstWithId` gives the first key holding the id, `Catalog.ReverseLookupFails` the failure case and `Catalog.LookupOfRegistered` the order-independent answer |
| `Catalog.ReverseLookupFails` | vcenter-exporter.py:144-145 | the lookup fails exactly when no key of the dictionary holds the id |
| `Catalog.LookupOfRegistered` | vcenter-exporter.py:144-145 | with distinct full names and ids, looking up a counter's id finds that counter's full name in every duplicate-free order of the dictionary's keys |
| `Catalog.LookupInInsertionOrder` | vcenter-exporter.py:144-145 | in particular, the lookup over the model's insertion order finds that counter's full name |
| `Annotation.Eligible` | vcenter-exporter.py:110 | non-empty annotation, `poweredOn` and the `name:` lead-in; `Exporter.VmStep` states that a query is built exactly for an eligible machine whose annotation parses and that an ineligible one changes nothing, `Exporter.CycleSkipsIneligible` and `Scenarios.UnmarkedVmSkipped` that ineligible machines leave every gauge as it was |
| `Annotation.Filled` | vcenter-exporter.py:123 | `filter(None, …)` keeps exactly the non-empty lines |
| `Annotation.FilledConcat` | vcenter-exporter.py:123 | the filter keeps the order of the lines |
| `Annotation.Pieces` | vcenter-exporter.py:122 | each non-empty line is split at its last colon, in order |
| `Annotation.DictOf` | vcenter-exporter.py:121-123 | `dict()` over the pieces; `Annotation.DictOfFails` gives exactly when and where it fails and `Annotation.DictOfContents` its keys and values |
| `Annotation.DictOfFails` | vcenter-exporter.py:121-123 | `dict()` fails exactly when some element is not a pair, and reports the first such element |
| `Annotation.DictOfContents` | vcenter-exporter.py:121-123 | on success the keys are the pairs' first parts and each holds the second part of the last pair with that key |
| `Annotation.ParseLines` | vcenter-exporter.py:119-123 | `dict()` of the split non-empty lines; `Annotation.EmptyLineIgnored` shows empty lines change nothing |
| `Annotation.Parse` | vcenter-exporter.py:115-123 | the whole annotation parser; its failure, keys, values and overwriting are given by `Annotation.ParseFails`, `Annotation.ParseKeys`, `Annotation.ParseValuesHaveNoColon` and `Annotation.ParseLastLineWins` |
| `Annotation.ParseFails` | vcenter-exporter.py:115-123 | parsing fails exactly when a non-empty line has no colon |
| `Annotation.ParseKeys` | vcenter-exporter.py:115-123 | the keys are exactly the texts before the last colon of the non-empty lines |
| `Annotation.ParseLastLineWins` | vcenter-exporter.py:115-123 | the last line with a key is that key, a colon and the key's value: a later line overwrites an earlier one |
| `Annotation.ParseValuesHaveNoColon` | vcenter-exporter.py:122 | no parsed value holds a colon |
| `Annotation.ParseOneLine` | vcenter-exporter.py:115-123 | `k:v` parses to the single key `k`, so `name:web:server01` gives key `name:web` and value `server01` |
| `Annotation.ParseTwoLines` | vcenter-exporter.py:115-123 | two lines give both pairs; with equal keys the second value wins |
| `Annotation.EmptyLineIgnored` | vcenter-exporter.py:119-123 | an empty line anywhere changes nothing |
| `Annotation.TrailingNewlineIgnored` | vcenter-exporter.py:115-123 | a trailing newline changes nothing |
| `Query.MetricIds` | vcenter-exporter.py:126 | one metric id per selected id, each with instance `*` |
| `Query.MetricIdsKeepIds` | vcenter-exporter.py:126 | the metric ids ask for exactly the selected ids, in order |
| `Query.BuildQuery` | vcenter-exporter.py:126-136 | exactly one spec, for the machine, with `maxSample` 1, `intervalId` 20 and a wildcard metric id per selected id in order |
| `Gauges.HostLabel` | vcenter-exporter.py:149-151 | the host label is never longer than the host and is the host itself when it holds no `.cloud.sap`; `Gauges.HostLabelDropsFirst` fixes it for every other host |
| `Gauges.HostLabelDropsFirst` | vcenter-exporter.py:149-151 | every `.cloud.sap` is removed from the left: the text before the first copy is kept and the rest is shortened on its own |
| `Gauges.HostLabelStripsSuffix` | vcenter-exporter.py:149-151 | a host ending in `.cloud.sap`, with no other copy of it, loses exactly that suffix |
| `Gauges.Labels` | vcenter-exporter.py:147-151 | the three label values are annotation `name`, annotation `projectid` and the host label; a missing key is a `KeyError` |
| `Gauges.Target` | vcenter-exporter.py:143-151 | the gauge and label values a sample of a counter id writes, failing on an unknown id before a missing key; `Gauges.ApplySample` and `Gauges.ApplySamplesFault` carry its cases |
| `Gauges.ApplySample` | vcenter-exporter.py:139-151 | a falsy entry changes nothing; a truthy one sets exactly its target entry to its first value and leaves every other entry as it was, or faults |
| `Gauges.ApplySamples` | vcenter-exporter.py:139-151 | the whole sample loop, stopping at the first fault; its effect is given by `Gauges.ApplySamplesFrame`, `Gauges.ApplySamplesLastWrite`, `Gauges.ApplySamplesFault` and `Gauges.FalsyIgnored`, and `Gauges.UpdateGauges` computes it in place |
| `Gauges.ApplySamplesFrame` | vcenter-exporter.py:139-151 | an entry no truthy sample targets is unchanged by the loop |
| `Gauges.ApplySamplesLastWrite` | vcenter-exporter.py:139-151 | after a loop without fault, a targeted entry holds the first value of the last sample targeting it |
| `Gauges.ApplySamplesFault` | vcenter-exporter.py:139-151 | the loop faults exactly when a truthy sample has an unknown id, a missing label key or no value |
| `Gauges.FalsyIgnored` | vcenter-exporter.py:139-140 | a falsy entry anywhere in the samples changes nothing |
| `Gauges.GaugeStore.constructor` | vcenter-exporter.py:81-84 | the gauges start with the registered names and no values |
| `Gauges.GaugeStore.Set` | vcenter-exporter.py:143-151 | setting a gauge under three label values changes that one entry only |
| `Gauges.UpdateGauges` | vcenter-exporter.py:139-151 | the in-place sample loop leaves the gauges and the fault that `ApplySamples` describes |
| `Exporter.VmStep` | vcenter-exporter.py:107-154 | a vanished or ineligible machine changes nothing and gets no query; a query is built exactly for an eligible machine whose annotation parses; a sampled machine's gauges are those of the sample loop; `Exporter.VmStepOutcomes` gives every other outcome |
| `Exporter.VmStepOutcomes` | vcenter-exporter.py:115-154 | a bad annotation crashes before any query with the gauges unchanged; after the query, `ManagedObjectNotFound` gives `Vanished` with the gauges unchanged, an empty result crashes with the gauges unchanged, and otherwise the gauges and outcome are those of the sample loop on the first entity's samples, `Sampled` exactly when it raises nothing; `Vanished` arises exactly at the two places the exception is caught |
| `Exporter.ProcessVm` | vcenter-exporter.py:108-154 | processing a machine in place leaves the gauges, outcome and query that `VmStep` describes |
| `Exporter.RunCycle` | vcenter-exporter.py:107-154 | the in-place cycle leaves the gauges and outcomes that `Cycle` describes |
| `Exporter.Cycle` | vcenter-exporter.py:107-154 | the loop over the machines, ending after a crash; `Exporter.CycleReachesEveryVm` and `Exporter.CycleSkipsIneligible` state its properties and `Exporter.RunCycle` computes it in place |
| `Exporter.CycleReachesEveryVm` | vcenter-exporter.py:107-154 | every machine is processed unless one crashes, and only the last outcome can be a crash: a vanished machine does not stop the cycle |
| `Exporter.CycleSkipsIneligible` | vcenter-exporter.py:107-110 | a cycle over machines that are gone or ineligible changes no gauge |
| `Scenarios.SingleCounter` | vcenter-exporter.py:75-78 | a one-counter catalog maps the counter's full name to its id and the lookup finds it |
| `Scenarios.OwnerAnnotationParses` | vcenter-exporter.py:110-123 | the annotation `name:<vm>\nprojectid:<project>` is eligible and parses to those two keys |
| `Scenarios.CycleSetsGauge` | vcenter-exporter.py:75-151 | one cycle over one counter and one annotated machine sets the counter's gauge under (vm, project, host label) to the sampled value, -1 included, and nothing else |
| `Scenarios.UnmarkedVmSkipped` | vcenter-exporter.py:110 | a machine whose annotation is `foo:bar` gets no query and changes no gauge |

## Left out

- Connection and TLS set-up, `atexit`/`Disconnect` and the exit on a failed connection (lines 33-49): session plumbing of the vSphere client library.
- Configuration and command line (lines 26-30): `vm_metrics` and `host` are parameters; an absent `vm_metrics` is `None`.
- Catalog.SelectIds: a `vm_metrics` value that is not a list is not modelled; the configuration is taken to give a list or nothing.
- The HTTP server (line 71): I/O that runs beside the loop.
- Prometheus `Gauge` internals: gauges are one map from (gauge name, label values) to value; metric-name validation is not modelled.
- Catalog.Register: the metrics library raises at start-up when a gauge name is registered twice (two counters with the same full name, or full names that differ only in `.` versus `_`); the model keeps one gauge per name.
- pyVmomi calls (`QueryPerfCounterByLevel`, `CreateContainerView`, `QueryStats`, the `summary` accessors): their results are inputs. `ManagedObjectNotFound` is modelled where the summary is read and where the query runs.
- An annotation of `None` is modelled as the empty string: both fail the eligibility test.
- The unbounded `while True` loop and the `print` logging: one cycle over a finite machine list is modelled; the next cycle starts from the gauges this one leaves.
- Sample values are integers that are copied, never computed with.
- Dictionary order: the code indexes `keys()` and `values()` of a dictionary, which only Python 2 allows, and there the order is the hash order. The model uses insertion order. `Catalog.LookupOfRegistered` shows the lookup finds the same full name in every key order when full names and ids are distinct, so in that case the hash order gives the model's answer.
- Parsing twice gives the same dictionary: every Dafny function is deterministic, so no separate lemma states it.
