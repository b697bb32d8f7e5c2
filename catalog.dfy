/**
 * The counter catalog built once at start-up: every performance counter's
 * full name `group.name.rollup`, the `counterInfo` dictionary from full
 * name to counter id, one gauge name per full name, the selection of the
 * counter ids to query, and the reverse lookup from a sampled counter id
 * back to its full name.
 */
module Catalog {
  import opened Wrappers
  import Text

  /** Every gauge name starts with this prefix. */
  const GaugePrefix: string := "vcenter_"

  /** The labels every gauge is registered with, in this order. */
  const LabelNames: seq<string> := ["vmware_name", "project_id", "vcenter_name"]

  /** One entry of the performance manager's counter list. */
  datatype Counter = Counter(group: string, name: string, rollup: string, key: int)

  /** `groupInfo.key + "." + nameInfo.key + "." + rollupType`. */
  function FullName(c: Counter): string
  {
    c.group + "." + c.name + "." + c.rollup
  }

  /**
   * `'vcenter_' + fullName.replace('.', '_')`: the prefix, then the full
   * name with every dot turned into an underscore and every other
   * character kept.
   */
  function GaugeName(fullName: string): (r: string)
    ensures GaugePrefix <= r && |r| == |GaugePrefix| + |fullName|
    ensures '.' !in r
    ensures forall i :: 0 <= i < |fullName| ==>
      r[|GaugePrefix| + i] == (if fullName[i] == '.' then '_' else fullName[i])
  {
    var r := GaugePrefix + Text.ReplaceChar(fullName, '.', '_');
    assert forall i :: 0 <= i < |fullName| ==> r[|GaugePrefix| + i] == Text.ReplaceChar(fullName, '.', '_')[i];
    r
  }

  /** With dot-free parts, a counter's gauge name is its parts joined by underscores. */
  lemma GaugeNameOfCounter(c: Counter)
    requires '.' !in c.group && '.' !in c.name && '.' !in c.rollup
    ensures GaugeName(FullName(c)) == GaugePrefix + c.group + "_" + c.name + "_" + c.rollup
  {
    var g, n, u := c.group, c.name, c.rollup;
    var t := g + "_" + n + "_" + u;
    assert Text.ReplaceChar(FullName(c), '.', '_') == t by {
      var dot := Text.ReplaceChar(".", '.', '_');
      assert dot == "_";
      Text.ReplaceCharAbsent(g, '.', '_');
      Text.ReplaceCharAbsent(n, '.', '_');
      Text.ReplaceCharAbsent(u, '.', '_');
      calc {
        Text.ReplaceChar(g + "." + n + "." + u, '.', '_');
        { Text.ReplaceCharConcat(g + "." + n + ".", u, '.', '_'); }
        Text.ReplaceChar(g + "." + n + ".", '.', '_') + u;
        { Text.ReplaceCharConcat(g + "." + n, ".", '.', '_'); }
        Text.ReplaceChar(g + "." + n, '.', '_') + "_" + u;
        { Text.ReplaceCharConcat(g + ".", n, '.', '_'); }
        Text.ReplaceChar(g + ".", '.', '_') + n + "_" + u;
        { Text.ReplaceCharConcat(g, ".", '.', '_'); }
        g + "_" + n + "_" + u;
      }
    }
    var p := GaugePrefix;
    calc {
      GaugeName(FullName(c));
      p + t;
      p + ((g + "_" + n + "_") + u);
      (p + (g + "_" + n + "_")) + u;
      { assert p + (g + "_" + n + "_") == (p + (g + "_" + n)) + "_"; }
      ((p + (g + "_" + n)) + "_") + u;
      { assert p + (g + "_" + n) == (p + (g + "_")) + n; }
      (((p + (g + "_")) + n) + "_") + u;
      { assert p + (g + "_") == (p + g) + "_"; }
      p + g + "_" + n + "_" + u;
    }
  }

  /**
   * The `counterInfo` dictionary: `ids` maps each full name to a counter
   * id, `order` lists its keys in dictionary order (the position a key
   * got when it was first inserted).
   */
  datatype CounterIndex = CounterIndex(order: seq<string>, ids: map<string, int>)
  {
    /** The keys in `order` are exactly the keys of `ids`, each once. */
    predicate Valid()
    {
      && (forall i :: 0 <= i < |order| ==> order[i] in ids)
      && (forall n :: n in ids ==> n in order)
      && (forall i, j :: 0 <= i < j < |order| ==> order[i] != order[j])
    }
  }

  /** `counterInfo[name] = key`: a new key goes last, an existing one keeps its place. */
  function Assign(info: CounterIndex, name: string, key: int): (r: CounterIndex)
    ensures info.Valid() ==> r.Valid()
  {
    CounterIndex(if name in info.ids then info.order else info.order + [name], info.ids[name := key])
  }

  /** The dictionary after the registration loop has seen `counters`. */
  function IndexOf(counters: seq<Counter>): CounterIndex
  {
    if counters == [] then CounterIndex([], map[])
    else
      var c := counters[|counters| - 1];
      Assign(IndexOf(counters[..|counters| - 1]), FullName(c), c.key)
  }

  /** The dictionary built from any counter list is well formed. */
  lemma {:induction false} IndexValid(counters: seq<Counter>)
    ensures IndexOf(counters).Valid()
  {
    if counters != [] {
      IndexValid(counters[..|counters| - 1]);
    }
  }

  /** The names of the gauges registered for `counters`. */
  function GaugeNamesOf(counters: seq<Counter>): set<string>
  {
    set c | c in counters :: GaugeName(FullName(c))
  }

  /** Every key of the dictionary has a registered gauge. */
  predicate Registered(info: CounterIndex, gauges: set<string>)
  {
    forall n :: n in info.ids ==> GaugeName(n) in gauges
  }

  /**
   * The start-up loop over the counter list: fill `counterInfo` and
   * register one gauge per full name.
   */
  method Register(counters: seq<Counter>) returns (info: CounterIndex, gauges: set<string>)
    ensures info == IndexOf(counters) && info.Valid()
    ensures gauges == GaugeNamesOf(counters)
    ensures Registered(info, gauges)
    ensures forall c :: c in counters ==> FullName(c) in info.ids && GaugeName(FullName(c)) in gauges
  {
    info := CounterIndex([], map[]);
    gauges := {};
    for k := 0 to |counters|
      invariant info == IndexOf(counters[..k])
      invariant gauges == GaugeNamesOf(counters[..k])
    {
      var c := counters[k];
      var fullName := FullName(c);
      RegisterStep(counters, k);
      info := Assign(info, fullName, c.key);
      gauges := gauges + {GaugeName(fullName)};
    }
    assert counters[..|counters|] == counters;
    IndexValid(counters);
    IndexRegistered(counters);
  }

  /** Every counter's full name is a key, and every key has its gauge. */
  lemma IndexRegistered(counters: seq<Counter>)
    ensures forall c :: c in counters ==> FullName(c) in IndexOf(counters).ids
    ensures Registered(IndexOf(counters), GaugeNamesOf(counters))
  {
    IndexKeys(counters);
    forall n | n in IndexOf(counters).ids ensures GaugeName(n) in GaugeNamesOf(counters) {
      var c :| c in counters && FullName(c) == n;
    }
  }

  /** One turn of the registration loop, in terms of the prefix it has seen. */
  lemma RegisterStep(counters: seq<Counter>, k: int)
    requires 0 <= k < |counters|
    ensures IndexOf(counters[..k + 1]) == Assign(IndexOf(counters[..k]), FullName(counters[k]), counters[k].key)
    ensures GaugeNamesOf(counters[..k + 1]) == GaugeNamesOf(counters[..k]) + {GaugeName(FullName(counters[k]))}
  {
    assert counters[..k + 1][..k] == counters[..k];
    assert counters[..k + 1] == counters[..k] + [counters[k]];
  }

  /** The keys of the dictionary are exactly the full names of the counters. */
  lemma {:induction false} IndexKeys(counters: seq<Counter>)
    ensures forall n :: n in IndexOf(counters).ids <==> exists c :: c in counters && FullName(c) == n
  {
    if counters != [] {
      var init := counters[..|counters| - 1];
      IndexKeys(init);
      assert counters == init + [counters[|counters| - 1]];
    }
  }

  /** Each key maps to the id of the LAST counter with that full name. */
  lemma {:induction false} IndexLastWins(counters: seq<Counter>, i: int)
    requires 0 <= i < |counters|
    requires forall j :: i < j < |counters| ==> FullName(counters[j]) != FullName(counters[i])
    ensures FullName(counters[i]) in IndexOf(counters).ids
    ensures IndexOf(counters).ids[FullName(counters[i])] == counters[i].key
  {
    if i < |counters| - 1 {
      IndexLastWins(counters[..|counters| - 1], i);
    }
  }

  /** When full names are distinct, the dictionary order is the counter order. */
  lemma {:induction false} IndexOrderDistinct(counters: seq<Counter>)
    requires forall i, j :: 0 <= i < j < |counters| ==> FullName(counters[i]) != FullName(counters[j])
    ensures |IndexOf(counters).order| == |counters|
    ensures forall i :: 0 <= i < |counters| ==> IndexOf(counters).order[i] == FullName(counters[i])
  {
    if counters != [] {
      var init := counters[..|counters| - 1];
      IndexOrderDistinct(init);
      IndexKeys(init);
      var last := counters[|counters| - 1];
      assert FullName(last) !in IndexOf(init).ids;
    }
  }

  /** `[counterInfo[i] for i in names if i in counterInfo]`. */
  function Listed(names: seq<string>, ids: map<string, int>): (r: seq<int>)
    ensures |r| <= |names|
  {
    if names == [] then []
    else (if names[0] in ids then [ids[names[0]]] else []) + Listed(names[1..], ids)
  }

  /** Every known name contributes its id, and every id comes from a known name. */
  lemma {:induction false} ListedMembers(names: seq<string>, ids: map<string, int>)
    ensures forall n :: n in names && n in ids ==> ids[n] in Listed(names, ids)
    ensures forall x :: x in Listed(names, ids) ==> exists n :: n in names && n in ids && ids[n] == x
  {
    if names != [] {
      ListedMembers(names[1..], ids);
      assert forall n :: n in names ==> n == names[0] || n in names[1..];
    }
  }

  /** The listing keeps the order of the names: it maps a concatenation to a concatenation. */
  lemma {:induction false} ListedConcat(a: seq<string>, b: seq<string>, ids: map<string, int>)
    ensures Listed(a + b, ids) == Listed(a, ids) + Listed(b, ids)
  {
    if a != [] {
      var h, tail := if a[0] in ids then [ids[a[0]]] else [], a[1..];
      ListedCons(a[0], tail + b, ids);
      ListedCons(a[0], tail, ids);
      assert a + b == [a[0]] + (tail + b) && a == [a[0]] + tail;
      ListedConcat(tail, b, ids);
      assert h + (Listed(tail, ids) + Listed(b, ids)) == (h + Listed(tail, ids)) + Listed(b, ids);
    } else {
      assert a + b == b;
    }
  }

  /** A name in front contributes its id, if it is known, ahead of the rest. */
  lemma ListedCons(n: string, rest: seq<string>, ids: map<string, int>)
    ensures Listed([n] + rest, ids) == (if n in ids then [ids[n]] else []) + Listed(rest, ids)
  {
    assert ([n] + rest)[0] == n && ([n] + rest)[1..] == rest;
  }

  /** `[i.key for i in counterids]`: every counter id, in discovery order. */
  function AllKeys(counters: seq<Counter>): (r: seq<int>)
    ensures |r| == |counters|
    ensures forall i :: 0 <= i < |counters| ==> r[i] == counters[i].key
  {
    if counters == [] then [] else [counters[0].key] + AllKeys(counters[1..])
  }

  /**
   * The counter ids to query: the configured `vm_metrics` names that are
   * known, in list order, when that list is present and non-empty;
   * otherwise every counter's id.
   */
  function SelectIds(vmMetrics: Option<seq<string>>, info: CounterIndex, counters: seq<Counter>): (r: seq<int>)
    ensures vmMetrics.Some? && vmMetrics.value != [] ==>
      |r| <= |vmMetrics.value| &&
      (forall n :: n in vmMetrics.value && n in info.ids ==> info.ids[n] in r) &&
      (forall x :: x in r ==> exists n :: n in vmMetrics.value && n in info.ids && info.ids[n] == x)
    ensures !(vmMetrics.Some? && vmMetrics.value != []) ==>
      |r| == |counters| && forall i :: 0 <= i < |counters| ==> r[i] == counters[i].key
  {
    if vmMetrics.Some? && vmMetrics.value != [] then
      ListedMembers(vmMetrics.value, info.ids);
      Listed(vmMetrics.value, info.ids)
    else AllKeys(counters)
  }

  /**
   * `counterInfo.keys()[counterInfo.values().index(id)]` over the names in
   * `order`: the first name whose id is `id`, or `None` where `.index`
   * raises `ValueError`.
   */
  function FirstWithId(order: seq<string>, ids: map<string, int>, id: int): (r: Option<string>)
    ensures r.Some? ==> r.value in ids && ids[r.value] == id
    ensures r.Some? ==> exists i :: (0 <= i < |order| && order[i] == r.value &&
                                     forall j :: 0 <= j < i ==> order[j] in ids ==> ids[order[j]] != id)
    ensures r.None? ==> forall i :: 0 <= i < |order| ==> order[i] in ids ==> ids[order[i]] != id
  {
    if order == [] then None
    else if order[0] in ids && ids[order[0]] == id then Some(order[0])
    else
      var r := FirstWithId(order[1..], ids, id);
      if r.Some? then
        var i :| (0 <= i < |order[1..]| && order[1..][i] == r.value &&
                  forall j :: 0 <= j < i ==> order[1..][j] in ids ==> ids[order[1..][j]] != id);
        assert order[i + 1] == r.value;
        r
      else r
  }

  /** The full name of a sampled counter id, looked up in dictionary order. */
  function ReverseLookup(info: CounterIndex, id: int): Option<string>
  {
    FirstWithId(info.order, info.ids, id)
  }

  /** The lookup fails exactly when no key of the dictionary has that id. */
  lemma ReverseLookupFails(info: CounterIndex, id: int)
    requires info.Valid()
    ensures ReverseLookup(info, id).None? <==> forall n :: n in info.ids ==> info.ids[n] != id
  {
    if ReverseLookup(info, id).None? {
      forall n | n in info.ids ensures info.ids[n] != id {
        var i :| 0 <= i < |info.order| && info.order[i] == n;
      }
    }
  }

  /** With distinct full names, each counter's full name maps to that counter's id. */
  lemma IndexDistinct(counters: seq<Counter>)
    requires forall a, b :: 0 <= a < b < |counters| ==> FullName(counters[a]) != FullName(counters[b])
    ensures forall j :: 0 <= j < |counters| ==>
      FullName(counters[j]) in IndexOf(counters).ids && IndexOf(counters).ids[FullName(counters[j])] == counters[j].key
  {
    forall j | 0 <= j < |counters|
      ensures FullName(counters[j]) in IndexOf(counters).ids
      ensures IndexOf(counters).ids[FullName(counters[j])] == counters[j].key
    {
      IndexLastWins(counters, j);
    }
  }

  /**
   * With distinct full names and distinct counter ids (as the performance
   * manager hands them out), the lookup of a counter's id finds that
   * counter's full name in ANY key order of the dictionary: `order` is
   * any duplicate-free listing of its keys, such as Python 2's hash order.
   */
  lemma LookupOfRegistered(counters: seq<Counter>, order: seq<string>, i: int)
    requires 0 <= i < |counters|
    requires forall a, b :: 0 <= a < b < |counters| ==> FullName(counters[a]) != FullName(counters[b])
    requires forall a, b :: 0 <= a < b < |counters| ==> counters[a].key != counters[b].key
    requires CounterIndex(order, IndexOf(counters).ids).Valid()
    ensures ReverseLookup(CounterIndex(order, IndexOf(counters).ids), counters[i].key) == Some(FullName(counters[i]))
  {
    var info := CounterIndex(order, IndexOf(counters).ids);
    var id := counters[i].key;
    IndexDistinct(counters);
    IndexKeys(counters);
    var r := ReverseLookup(info, id);
    if r.None? {
      assert info.ids[FullName(counters[i])] == id;
      ReverseLookupFails(info, id);
      assert false;
    } else {
      var c :| c in counters && FullName(c) == r.value;
      var j :| 0 <= j < |counters| && counters[j] == c;
      assert counters[j].key == id;
      assert j == i;
    }
  }

  /** The model's own insertion order is one such order. */
  lemma LookupInInsertionOrder(counters: seq<Counter>, i: int)
    requires 0 <= i < |counters|
    requires forall a, b :: 0 <= a < b < |counters| ==> FullName(counters[a]) != FullName(counters[b])
    requires forall a, b :: 0 <= a < b < |counters| ==> counters[a].key != counters[b].key
    ensures ReverseLookup(IndexOf(counters), counters[i].key) == Some(FullName(counters[i]))
  {
    IndexValid(counters);
    LookupOfRegistered(counters, IndexOf(counters).order, i);
  }
}
