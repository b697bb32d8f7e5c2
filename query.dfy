/**
 * The batched statistics query issued for one machine: one metric id per
 * selected counter, all instances, in a single query spec.
 */
module Query {

  /** Samples asked for per metric. */
  const MaxSample: int := 1

  /** The sampling interval id of the query. */
  const IntervalId: int := 20

  /** The instance wildcard: every instance of a counter. */
  const AnyInstance: string := "*"

  /** `vim.PerformanceManager.MetricId`. */
  datatype MetricId = MetricId(counterId: int, instance: string)

  /** `vim.PerformanceManager.QuerySpec`; `entity` names the machine queried. */
  datatype QuerySpec = QuerySpec(maxSample: int, entity: string, metricId: seq<MetricId>, intervalId: int)

  /** `[MetricId(counterId=i, instance="*") for i in ids]`. */
  function MetricIds(ids: seq<int>): (r: seq<MetricId>)
    ensures |r| == |ids|
    ensures forall i :: 0 <= i < |ids| ==> r[i].instance == AnyInstance
  {
    if ids == [] then [] else [MetricId(ids[0], AnyInstance)] + MetricIds(ids[1..])
  }

  /** The counter ids a list of metric ids asks for, in order. */
  function CounterIds(ms: seq<MetricId>): (r: seq<int>)
    ensures |r| == |ms|
  {
    if ms == [] then [] else [ms[0].counterId] + CounterIds(ms[1..])
  }

  /** The metric ids ask for exactly the selected counters, in the same order. */
  lemma {:induction false} MetricIdsKeepIds(ids: seq<int>)
    ensures CounterIds(MetricIds(ids)) == ids
  {
    if ids != [] {
      MetricIdsKeepIds(ids[1..]);
    }
  }

  /**
   * The `querySpec` argument of `QueryStats`: a single spec for `entity`
   * with one sample per metric, the fixed interval, and a wildcard metric
   * id for each selected counter, in order.
   */
  function BuildQuery(entity: string, ids: seq<int>): (r: seq<QuerySpec>)
    ensures |r| == 1
    ensures r[0].entity == entity && r[0].maxSample == MaxSample && r[0].intervalId == IntervalId
    ensures CounterIds(r[0].metricId) == ids
    ensures forall m :: m in r[0].metricId ==> m.instance == AnyInstance
  {
    MetricIdsKeepIds(ids);
    [QuerySpec(MaxSample, entity, MetricIds(ids), IntervalId)]
  }
}
