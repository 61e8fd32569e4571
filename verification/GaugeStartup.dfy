/** The index of gauges at startup: every expected combination of label values
    is tracked before any row has arrived (services/query-exporter/main.go:
    initMonitoringState). */
module GaugeStartup {
  import opened Labels
  import opened Cartesian
  import opened Gauges
  import opened GaugeLaws

  /** One expected combination, with the labels that every series carries. */
  ghost predicate IsExpected(cfg: Config, items: seq<Cartesian.Expected>, labels: Labels) {
    exists i, m :: 0 <= i < |items| && IsCombination(m, items[i]) && labels == m + cfg.omnipresent
  }

  /** The labels of the item and the omnipresent ones, which take precedence, and
      each other label with one of its expected values. */
  ghost predicate Combines(cfg: Config, item: Cartesian.Expected, labels: Labels) {
    && labels.Keys == item.Keys + cfg.omnipresent.Keys
    && (forall k :: k in cfg.omnipresent ==> labels[k] == cfg.omnipresent[k])
    && (forall k :: k in item && k !in cfg.omnipresent ==> labels[k] in item[k])
    && (forall k :: k in item && k in cfg.omnipresent ==> item[k] != [])
  }

  lemma IsExpectedIff(cfg: Config, items: seq<Cartesian.Expected>, labels: Labels)
    ensures IsExpected(cfg, items, labels) <==> exists i :: 0 <= i < |items| && Combines(cfg, items[i], labels)
  {
    if i :| 0 <= i < |items| && Combines(cfg, items[i], labels) {
      var item := items[i];
      var m: Labels := map k | k in item :: if k in cfg.omnipresent then item[k][0] else labels[k];
      assert IsCombination(m, item) && labels == m + cfg.omnipresent;
    }
  }

  /** tracked holds the canonical entries of some labels that satisfy the first
      n items, and of all of them. */
  ghost predicate TracksItems(cfg: Config, items: seq<Cartesian.Expected>, n: nat, tracked: map<string, Labels>)
    requires n <= |items|
  {
    && (forall key :: key in tracked ==> Canonical(tracked[key]) == key && IsExpected(cfg, items[..n], tracked[key]))
    && (forall labels :: IsExpected(cfg, items[..n], labels) ==> Canonical(labels) in tracked)
  }

  lemma ExpectedOneMore(cfg: Config, items: seq<Cartesian.Expected>, n: nat, labels: Labels)
    requires n < |items|
    ensures IsExpected(cfg, items[..n + 1], labels) <==>
            IsExpected(cfg, items[..n], labels) || exists m :: IsCombination(m, items[n]) && labels == m + cfg.omnipresent
  {
    hide IsCombination;
    if IsExpected(cfg, items[..n + 1], labels) {
      var i, m :| 0 <= i < n + 1 && IsCombination(m, items[..n + 1][i]) && labels == m + cfg.omnipresent;
      assert i < n ==> items[..n][i] == items[..n + 1][i];
    }
    if IsExpected(cfg, items[..n], labels) {
      var i, m :| 0 <= i < n && IsCombination(m, items[..n][i]) && labels == m + cfg.omnipresent;
      assert items[..n + 1][i] == items[..n][i];
    }
    if m :| IsCombination(m, items[n]) && labels == m + cfg.omnipresent {
      assert items[..n + 1][n] == items[n];
    }
  }

  /** The inner loop of initMonitoringState, for one item. */
  method TrackItem(cfg: Config, item: Cartesian.Expected, before: map<string, Labels>) returns (tracked: map<string, Labels>)
    requires Enumerable(item)
    ensures forall key :: key in tracked ==>
      (key in before && tracked[key] == before[key]) ||
      (Canonical(tracked[key]) == key && exists m :: IsCombination(m, item) && tracked[key] == m + cfg.omnipresent)
    ensures forall key :: key in before ==> key in tracked
    ensures forall m :: IsCombination(m, item) ==> Canonical(m + cfg.omnipresent) in tracked
  {
    hide Canonical, IsCombination, IsProduct;
    var cartesian := LabelsCartesian(item);
    forall m
      ensures m in cartesian <==> IsCombination(m, item)
    {
      ProductIsComplete(cartesian, item, m);
    }
    tracked := before;
    for k := 0 to |cartesian|
      invariant forall key :: key in before ==> key in tracked
      invariant forall j :: 0 <= j < k ==> Canonical(cartesian[j] + cfg.omnipresent) in tracked
      invariant forall key :: key in tracked ==>
        (key in before && tracked[key] == before[key]) ||
        (Canonical(tracked[key]) == key && exists m :: IsCombination(m, item) && tracked[key] == m + cfg.omnipresent)
    {
      assert cartesian[k] in cartesian;
      var labels := cartesian[k] + cfg.omnipresent;
      var key := MapToString(labels);
      tracked := tracked[key := labels];
    }
    assert forall m :: m in cartesian ==> Canonical(m + cfg.omnipresent) in tracked;
  }

  /** initMonitoringState for one gauge. */
  method InitMetricState(cfg: Config, items: seq<Cartesian.Expected>) returns (tracked: map<string, Labels>)
    requires forall i :: 0 <= i < |items| ==> Enumerable(items[i])
    ensures TracksItems(cfg, items, |items|, tracked)
  {
    hide Canonical, IsCombination, Enumerable, IsExpected;
    tracked := map[];
    ghost var none: seq<Cartesian.Expected> := items[..0];
    forall labels
      ensures !IsExpected(cfg, none, labels)
    {
      NoneExpected(cfg, labels);
    }
    for n := 0 to |items|
      invariant TracksItems(cfg, items, n, tracked)
    {
      ghost var before := tracked;
      tracked := TrackItem(cfg, items[n], tracked);
      forall labels
        ensures IsExpected(cfg, items[..n + 1], labels) <==>
                IsExpected(cfg, items[..n], labels) || exists m :: IsCombination(m, items[n]) && labels == m + cfg.omnipresent
      {
        ExpectedOneMore(cfg, items, n, labels);
      }
    }
  }

  lemma NoneExpected(cfg: Config, labels: Labels)
    ensures !IsExpected(cfg, [], labels)
  {
  }

  /** Exporting starts in an indexed state: nothing is exported yet, and exactly
      the expected combinations are tracked, each under its own key. */
  lemma StartsIndexed(cfg: Config, items: seq<Cartesian.Expected>, tracked: map<string, Labels>)
    requires TracksItems(cfg, items, |items|, tracked)
    requires forall labels :: IsExpected(cfg, items, labels) ==> Tidy(labels)
    ensures Indexed(Store(tracked, map[]))
    ensures forall labels :: labels in tracked.Values <==> IsExpected(cfg, items, labels)
  {
    hide Canonical, IsExpected, Tidy;
    assert items[..|items|] == items;
    forall labels | IsExpected(cfg, items, labels)
      ensures labels in tracked.Values
    {
      var key := Canonical(labels);
      TidyInjective(tracked[key], labels);
    }
  }

  /** The expected labels of each gauge. */
  type Expectations = map<string, seq<Cartesian.Expected>>

  ghost predicate Startable(cfg: Config, expected: Expectations) {
    expected.Keys == cfg.gauges.Keys &&
    forall m, i :: m in expected && 0 <= i < |expected[m]| ==> Enumerable(expected[m][i])
  }

  ghost predicate Started(cfg: Config, expected: Expectations, stores: map<string, Store>)
    requires expected.Keys == cfg.gauges.Keys
  {
    && stores.Keys == cfg.gauges.Keys
    && forall m :: m in stores ==> stores[m].series == map[] && TracksItems(cfg, expected[m], |expected[m]|, stores[m].tracked)
  }

  /** initMonitoringState: all gauges, in any order. */
  method StartExporter(cfg: Config, expected: Expectations) returns (exporter: Exporter)
    requires Startable(cfg, expected)
    ensures fresh(exporter) && exporter.cfg == cfg && exporter.Registered()
    ensures Started(cfg, expected, exporter.stores)
  {
    hide TracksItems, Enumerable;
    var index: map<string, map<string, Labels>> := map[];
    var rest := expected.Keys;
    while rest != {}
      invariant rest <= expected.Keys && index.Keys == expected.Keys - rest
      invariant forall m :: m in index ==> TracksItems(cfg, expected[m], |expected[m]|, index[m])
      decreases rest
    {
      var m :| m in rest;
      rest := rest - {m};
      var tracked := InitMetricState(cfg, expected[m]);
      index := index[m := tracked];
    }
    exporter := new Exporter(cfg, index);
  }

  ghost predicate TidyExpectations(cfg: Config, expected: Expectations) {
    forall m, labels :: m in expected && IsExpected(cfg, expected[m], labels) ==> Tidy(labels)
  }

  /** So from its start, over any run of executions and removals, every exported
      series is tracked. */
  lemma StartedRunIndexed(cfg: Config, expected: Expectations, stores: map<string, Store>, events: seq<Event>)
    requires Startable(cfg, expected) && TidyExpectations(cfg, expected) && Started(cfg, expected, stores)
    requires forall k :: 0 <= k < |events| ==> TidyEvent(cfg, events[k])
    ensures AllIndexed(Run(cfg, stores, events))
  {
    hide TracksItems, Enumerable, IsExpected, Tidy, Indexed, TidyEvent;
    forall m | m in stores
      ensures Indexed(stores[m])
    {
      StartsIndexed(cfg, expected[m], stores[m].tracked);
      assert stores[m] == Store(stores[m].tracked, map[]);
    }
    RunIndexed(cfg, stores, events);
  }
}
