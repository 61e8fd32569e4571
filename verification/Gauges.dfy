/** Gauges of the query exporter: rows set exported series, a side index
    (monitoringState) remembers which series exist, and series that a query did
    not touch are reset (services/query-exporter/main.go). */
module Gauges {
  import opened Texts
  import opened Labels

  /** A float64: NaN or a number. */
  datatype Sample = NaN | Number(value: real)

  datatype Parsed = Unparsable | Float(sample: Sample)

  type Row = map<string, string>

  /** The defaults of a gauge and the labels it takes from a row. */
  datatype Gauge = Gauge(labels: seq<string>, onMissing: Sample, onFailure: Sample, onUnparsable: Sample)

  /** The gauges of the configuration, the labels every series carries, and the
      library's ToUpper and ParseFloat. */
  datatype Config = Config(
    gauges: map<string, Gauge>,
    omnipresent: Labels,
    upper: string -> string,
    parse: string -> Parsed)

  /** What one database answered. */
  datatype Answer = Skipped | QueryFailed | Rows(rows: seq<Row>)

  /** One metric: its entry of monitoringState and its exported series. */
  datatype Store = Store(tracked: map<string, Labels>, series: map<Labels, Sample>)

  // ------------------------------------------------------------ specification

  /** A missing column reads as the empty string. */
  function Read(row: Row, column: string): string {
    if column in row then row[column] else ""
  }

  function LabelsFrom(cfg: Config, names: seq<string>, row: Row): Labels {
    if names == [] then cfg.omnipresent
    else
      var n := |names| - 1;
      LabelsFrom(cfg, names[..n], row)[names[n] := Read(row, cfg.upper(names[n]))]
  }

  function LabelsOf(cfg: Config, m: string, row: Row): Labels
    requires m in cfg.gauges
  {
    LabelsFrom(cfg, cfg.gauges[m].labels, row)
  }

  function SampleOf(cfg: Config, m: string, row: Row): Sample
    requires m in cfg.gauges
  {
    match cfg.parse(Read(row, cfg.upper(m)))
    case Unparsable => cfg.gauges[m].onUnparsable
    case Float(sample) => sample
  }

  ghost function Track(tracked: map<string, Labels>, labels: Labels): map<string, Labels> {
    if Canonical(labels) in tracked then tracked else tracked[Canonical(labels) := labels]
  }

  /** A metric in the middle of an execution: its store, and the keys that the
      execution has updated. */
  datatype Progress = Progress(store: Store, updated: set<string>)

  ghost function Stepped(cfg: Config, m: string, p: Progress, row: Row): Progress
    requires m in cfg.gauges
  {
    var labels := LabelsOf(cfg, m, row);
    Progress(Store(Track(p.store.tracked, labels), p.store.series[labels := SampleOf(cfg, m, row)]),
             p.updated + {Canonical(labels)})
  }

  /** After the first n of the rows that one database returned. */
  ghost function AfterRows(cfg: Config, m: string, p: Progress, rows: seq<Row>, n: nat): Progress
    requires m in cfg.gauges && n <= |rows|
  {
    if n == 0 then p else Stepped(cfg, m, AfterRows(cfg, m, p, rows, n - 1), rows[n - 1])
  }

  /** After the first n databases have answered. */
  ghost function AfterAnswers(cfg: Config, m: string, s: Store, answers: seq<Answer>, n: nat): Progress
    requires m in cfg.gauges && n <= |answers|
  {
    if n == 0 then Progress(s, {})
    else
      var p := AfterAnswers(cfg, m, s, answers, n - 1);
      if answers[n - 1].Rows? then AfterRows(cfg, m, p, answers[n - 1].rows, |answers[n - 1].rows|) else p
  }

  /** A metric that a query lists twice sees each row twice, to no effect. */
  lemma SteppedTwice(cfg: Config, m: string, p: Progress, row: Row)
    requires m in cfg.gauges
    ensures Stepped(cfg, m, Stepped(cfg, m, p, row), row) == Stepped(cfg, m, p, row)
  {
    var labels := LabelsOf(cfg, m, row);
    assert p.store.series[labels := SampleOf(cfg, m, row)][labels := SampleOf(cfg, m, row)]
        == p.store.series[labels := SampleOf(cfg, m, row)];
  }

  /** The series that are tracked under a key that was not updated. */
  function Stale(s: Store, updated: set<string>): set<Labels> {
    set key | key in s.tracked && key !in updated :: s.tracked[key]
  }

  function ResetStale(s: Store, updated: set<string>, value: Sample): Store {
    Store(s.tracked,
          map labels | labels in s.series.Keys + Stale(s, updated) ::
            if labels in Stale(s, updated) then value else s.series[labels])
  }

  function ResetValue(g: Gauge, ok: bool): Sample {
    if ok then g.onMissing else g.onFailure
  }

  ghost function Finished(cfg: Config, m: string, p: Progress, ok: bool): Store
    requires m in cfg.gauges
  {
    ResetStale(p.store, p.updated, ResetValue(cfg.gauges[m], ok))
  }

  /** One execution of a query, seen by one of its gauges. */
  ghost function Executed(cfg: Config, m: string, s: Store, answers: seq<Answer>): Store
    requires m in cfg.gauges
  {
    Finished(cfg, m, AfterAnswers(cfg, m, s, answers, |answers|), AllOk(answers))
  }

  /** A database is gone: entries go by substring, series by label. */
  ghost function Unregistered(s: Store, db: string): Store {
    Store(map key | key in s.tracked && !Contains(key, Wanted("datname", db)) :: s.tracked[key],
          map labels | labels in s.series && !Carries(labels, db) :: s.series[labels])
  }

  predicate Carries(labels: Labels, db: string) {
    "datname" in labels && labels["datname"] == db
  }

  predicate AllOk(answers: seq<Answer>) {
    forall k :: 0 <= k < |answers| ==> !answers[k].QueryFailed?
  }

  // -------------------------------------------------------------- the program

  /** The first j metrics of a query. */
  ghost function Listed(metrics: seq<string>, j: nat): set<string>
    requires j <= |metrics|
  {
    if j == 0 then {} else Listed(metrics, j - 1) + {metrics[j - 1]}
  }

  lemma {:induction false} ListedAll(metrics: seq<string>, j: nat)
    requires j <= |metrics|
    ensures forall m :: m in Listed(metrics, j) <==> m in metrics[..j]
  {
    if j > 0 {
      ListedAll(metrics, j - 1);
      assert metrics[..j] == metrics[..j - 1] + [metrics[j - 1]];
    }
  }

  lemma ListedOnly(metrics: seq<string>)
    ensures Listed(metrics, |metrics|) == set m | m in metrics
  {
    ListedAll(metrics, |metrics|);
    assert metrics[..|metrics|] == metrics;
  }

  /** All gauges in the middle of an execution. */
  type Work = map<string, Progress>

  ghost function AfterRowFor(cfg: Config, w: Work, done: set<string>, row: Row): Work
    requires w.Keys <= cfg.gauges.Keys
  {
    map m | m in w :: if m in done then Stepped(cfg, m, w[m], row) else w[m]
  }

  lemma AfterRowStep(cfg: Config, w: Work, metrics: seq<string>, j: nat, row: Row)
    requires w.Keys <= cfg.gauges.Keys && j < |metrics|
    ensures var m, now := metrics[j], AfterRowFor(cfg, w, Listed(metrics, j), row);
            && now.Keys == w.Keys
            && AfterRowFor(cfg, w, Listed(metrics, j + 1), row) ==
               (if m in w then now[m := Stepped(cfg, m, now[m], row)] else now)
  {
    hide Stepped;
    if metrics[j] in w {
      SteppedTwice(cfg, metrics[j], w[metrics[j]], row);
    }
  }

  method BuildLabels(cfg: Config, m: string, row: Row) returns (labels: Labels)
    requires m in cfg.gauges
    ensures labels == LabelsOf(cfg, m, row)
  {
    labels := cfg.omnipresent;
    var names := cfg.gauges[m].labels;
    for i := 0 to |names|
      invariant labels == LabelsFrom(cfg, names[..i], row)
    {
      labels := labels[names[i] := Read(row, cfg.upper(names[i]))];
      assert names[..i + 1][..i] == names[..i];
    }
    assert names[..|names|] == names;
  }

  /** The gauge branch of updateStaticMetricByRow, for one metric. */
  method UpdateGauge(cfg: Config, m: string, p: Progress, row: Row) returns (q: Progress)
    requires m in cfg.gauges
    ensures q == Stepped(cfg, m, p, row)
  {
    var labels := BuildLabels(cfg, m, row);
    var key := MapToString(labels);
    var tracked := p.store.tracked;
    if key !in tracked {
      tracked := tracked[key := labels];
    }
    var parsed := cfg.parse(Read(row, cfg.upper(m)));
    var sample := if parsed.Unparsable? then cfg.gauges[m].onUnparsable else parsed.sample;
    q := Progress(Store(tracked, p.store.series[labels := sample]), p.updated + {key});
  }

  /** updateStaticMetricByRow: one row feeds every gauge of the query. */
  method UpdateByRow(cfg: Config, w: Work, metrics: seq<string>, row: Row) returns (now: Work)
    requires w.Keys == cfg.gauges.Keys
    ensures now.Keys == w.Keys && now == AfterRowFor(cfg, w, Listed(metrics, |metrics|), row)
  {
    hide Stepped;
    now := w;
    var j := 0;
    while j < |metrics|
      invariant 0 <= j <= |metrics|
      invariant now.Keys == w.Keys && now == AfterRowFor(cfg, w, Listed(metrics, j), row)
    {
      AfterRowStep(cfg, w, metrics, j, row);
      if metrics[j] in now {
        var q := UpdateGauge(cfg, metrics[j], now[metrics[j]], row);
        now := now[metrics[j] := q];
      }
      j := j + 1;
    }
  }

  ghost function AfterRowsFor(cfg: Config, w: Work, done: set<string>, rows: seq<Row>, n: nat): Work
    requires w.Keys <= cfg.gauges.Keys && n <= |rows|
  {
    map m | m in w :: if m in done then AfterRows(cfg, m, w[m], rows, n) else w[m]
  }

  lemma AfterRowsStep(cfg: Config, w: Work, done: set<string>, rows: seq<Row>, n: nat)
    requires w.Keys <= cfg.gauges.Keys && n < |rows|
    ensures AfterRowsFor(cfg, w, done, rows, n).Keys == w.Keys
    ensures AfterRowsFor(cfg, w, done, rows, n + 1) == AfterRowFor(cfg, AfterRowsFor(cfg, w, done, rows, n), done, rows[n])
  {
  }

  /** The rows of one database. */
  method UpdateByRows(cfg: Config, w: Work, metrics: seq<string>, rows: seq<Row>) returns (now: Work)
    requires w.Keys == cfg.gauges.Keys
    ensures now.Keys == w.Keys && now == AfterRowsFor(cfg, w, Listed(metrics, |metrics|), rows, |rows|)
  {
    now := w;
    var r := 0;
    while r < |rows|
      invariant 0 <= r <= |rows|
      invariant now.Keys == w.Keys && now == AfterRowsFor(cfg, w, Listed(metrics, |metrics|), rows, r)
    {
      AfterRowsStep(cfg, w, Listed(metrics, |metrics|), rows, r);
      now := UpdateByRow(cfg, now, metrics, rows[r]);
      r := r + 1;
    }
  }

  ghost function AfterAnswersFor(cfg: Config, stores: map<string, Store>, done: set<string>, answers: seq<Answer>, n: nat): Work
    requires stores.Keys <= cfg.gauges.Keys && n <= |answers|
  {
    map m | m in stores :: if m in done then AfterAnswers(cfg, m, stores[m], answers, n) else Progress(stores[m], {})
  }

  lemma AfterAnswersStep(cfg: Config, stores: map<string, Store>, done: set<string>, answers: seq<Answer>, n: nat)
    requires stores.Keys <= cfg.gauges.Keys && n < |answers|
    ensures var w := AfterAnswersFor(cfg, stores, done, answers, n);
            && w.Keys == stores.Keys
            && AfterAnswersFor(cfg, stores, done, answers, n + 1) ==
               (if answers[n].Rows? then AfterRowsFor(cfg, w, done, answers[n].rows, |answers[n].rows|) else w)
  {
  }

  /** The loop of executeQueryAndUpdateMetrics over the databases. */
  method ProcessAnswers(cfg: Config, stores: map<string, Store>, metrics: seq<string>, answers: seq<Answer>)
    returns (w: Work, ok: bool)
    requires stores.Keys == cfg.gauges.Keys
    ensures w.Keys == stores.Keys && w == AfterAnswersFor(cfg, stores, Listed(metrics, |metrics|), answers, |answers|)
    ensures ok == AllOk(answers)
  {
    ok, w := true, map m | m in stores :: Progress(stores[m], {});
    var i := 0;
    while i < |answers|
      invariant 0 <= i <= |answers|
      invariant ok <==> forall k :: 0 <= k < i ==> !answers[k].QueryFailed?
      invariant w.Keys == stores.Keys && w == AfterAnswersFor(cfg, stores, Listed(metrics, |metrics|), answers, i)
    {
      AfterAnswersStep(cfg, stores, Listed(metrics, |metrics|), answers, i);
      if answers[i].QueryFailed? {
        ok := false;
      } else if answers[i].Rows? {
        w := UpdateByRows(cfg, w, metrics, answers[i].rows);
      }
      i := i + 1;
    }
  }

  ghost function FinishedFor(cfg: Config, w: Work, done: set<string>, ok: bool): map<string, Store>
    requires w.Keys <= cfg.gauges.Keys
  {
    map m | m in w :: if m in done then Finished(cfg, m, w[m], ok) else w[m].store
  }

  lemma FinishedStep(cfg: Config, w: Work, metrics: seq<string>, j: nat, ok: bool)
    requires w.Keys <= cfg.gauges.Keys && j < |metrics|
    ensures var m, now := metrics[j], FinishedFor(cfg, w, Listed(metrics, j), ok);
            && now.Keys == w.Keys
            && FinishedFor(cfg, w, Listed(metrics, j + 1), ok) ==
               (if m in w then now[m := Finished(cfg, m, Progress(now[m], w[m].updated), ok)] else now)
  {
    if metrics[j] in w {
      ResetTwice(w[metrics[j]].store, w[metrics[j]].updated, ResetValue(cfg.gauges[metrics[j]], ok));
    }
  }

  /** resetNotUpdatedGauges */
  method ResetNotUpdated(cfg: Config, w: Work, metrics: seq<string>, ok: bool) returns (stores: map<string, Store>)
    requires w.Keys == cfg.gauges.Keys
    ensures stores == FinishedFor(cfg, w, Listed(metrics, |metrics|), ok)
  {
    stores := map m | m in w :: w[m].store;
    var j := 0;
    while j < |metrics|
      invariant 0 <= j <= |metrics|
      invariant stores.Keys == w.Keys && stores == FinishedFor(cfg, w, Listed(metrics, j), ok)
    {
      FinishedStep(cfg, w, metrics, j, ok);
      var m := metrics[j];
      if m in stores {
        var series := ResetSeries(stores[m], w[m].updated, ResetValue(cfg.gauges[m], ok));
        stores := stores[m := Store(stores[m].tracked, series)];
      }
      j := j + 1;
    }
  }

  lemma ExecutionAdds(cfg: Config, stores: map<string, Store>, metrics: seq<string>, answers: seq<Answer>)
    requires stores.Keys == cfg.gauges.Keys
    ensures var done := Listed(metrics, |metrics|);
            var w := AfterAnswersFor(cfg, stores, done, answers, |answers|);
            w.Keys == stores.Keys && FinishedFor(cfg, w, done, AllOk(answers)) == AfterExecution(cfg, stores, metrics, answers)
  {
    ListedOnly(metrics);
  }

  class Exporter {
    const cfg: Config
    /** Per gauge: its monitoringState entry and its series. */
    var stores: map<string, Store>

    ghost predicate Registered()
      reads this
    {
      stores.Keys == cfg.gauges.Keys
    }

    /** Nothing is exported at first; the index is prepared beforehand. */
    constructor (cfg: Config, index: map<string, map<string, Labels>>)
      requires index.Keys == cfg.gauges.Keys
      ensures this.cfg == cfg && Registered()
      ensures stores == map m | m in index :: Store(index[m], map[])
    {
      this.cfg := cfg;
      stores := map m | m in index :: Store(index[m], map[]);
    }

    /** executeQueryAndUpdateMetrics for a static query: every gauge of the
        query goes through Executed, and no other gauge changes. */
    method ExecuteQuery(metrics: seq<string>, answers: seq<Answer>)
      requires Registered()
      modifies this
      ensures Registered()
      ensures stores == AfterExecution(cfg, old(stores), metrics, answers)
    {
      var w, ok := ProcessAnswers(cfg, stores, metrics, answers);
      ExecutionAdds(cfg, stores, metrics, answers);
      stores := ResetNotUpdated(cfg, w, metrics, ok);
    }

    /** unregisterUnusedMetrics, gauge branch, for one removed database. */
    method Unregister(db: string)
      requires Registered()
      modifies this
      ensures Registered()
      ensures stores == AfterRemoval(old(stores), db)
    {
      ghost var start := stores;
      var rest := stores.Keys;
      while rest != {}
        invariant rest <= start.Keys == stores.Keys
        invariant forall m :: m in stores ==> stores[m] == if m in rest then start[m] else Unregistered(start[m], db)
        decreases rest
      {
        var m :| m in rest;
        rest := rest - {m};
        var kept := KeepOther(stores[m].tracked, db);
        var series := map labels | labels in stores[m].series && !Carries(labels, db) :: stores[m].series[labels];
        stores := stores[m := Store(kept, series)];
      }
    }
  }

  ghost function AfterExecution(cfg: Config, stores: map<string, Store>, metrics: seq<string>, answers: seq<Answer>): map<string, Store>
    requires stores.Keys == cfg.gauges.Keys
  {
    map m | m in stores ::
      if m in metrics then Executed(cfg, m, stores[m], answers) else stores[m]
  }

  ghost function AfterRemoval(stores: map<string, Store>, db: string): map<string, Store> {
    map m | m in stores :: Unregistered(stores[m], db)
  }

  /** The loop over the tracked keys of one metric, in any order. */
  method ResetSeries(before: Store, updated: set<string>, value: Sample) returns (after: map<Labels, Sample>)
    ensures after == ResetStale(before, updated, value).series
  {
    var tracked, series := before.tracked, before.series;
    after := series;
    var rest := tracked.Keys;
    while rest != {}
      invariant rest <= tracked.Keys
      invariant forall labels :: labels in after <==> labels in series || labels in StaleOf(before, tracked.Keys - rest, updated)
      invariant forall labels :: labels in after ==>
        after[labels] == (if labels in StaleOf(before, tracked.Keys - rest, updated) then value else series[labels])
      decreases rest
    {
      var key :| key in rest;
      StaleOneMore(before, tracked.Keys - rest, key, updated);
      assert tracked.Keys - rest + {key} == tracked.Keys - (rest - {key});
      rest := rest - {key};
      if key !in updated {
        after := after[tracked[key] := value];
      }
    }
    assert StaleOf(before, tracked.Keys, updated) == Stale(before, updated);
    assert tracked.Keys - rest == tracked.Keys;
  }

  lemma StaleOneMore(s: Store, keys: set<string>, key: string, updated: set<string>)
    requires key in s.tracked
    ensures StaleOf(s, keys + {key}, updated) ==
            StaleOf(s, keys, updated) + (if key in updated then {} else {s.tracked[key]})
  {
  }

  ghost function StaleOf(s: Store, keys: set<string>, updated: set<string>): set<Labels> {
    set key | key in keys && key in s.tracked && key !in updated :: s.tracked[key]
  }

  lemma ResetTwice(s: Store, updated: set<string>, value: Sample)
    ensures ResetStale(ResetStale(s, updated, value), updated, value) == ResetStale(s, updated, value)
  {
    assert Stale(ResetStale(s, updated, value), updated) == Stale(s, updated);
  }

  method KeepOther(tracked: map<string, Labels>, db: string) returns (kept: map<string, Labels>)
    ensures kept == map key | key in tracked && !Contains(key, Wanted("datname", db)) :: tracked[key]
  {
    kept := tracked;
    var rest := tracked.Keys;
    while rest != {}
      invariant rest <= tracked.Keys
      invariant forall key :: key in kept <==> key in tracked && (key in rest || !Contains(key, Wanted("datname", db)))
      invariant forall key :: key in kept ==> kept[key] == tracked[key]
      decreases rest
    {
      var key :| key in rest;
      rest := rest - {key};
      var found := FindText(key, Wanted("datname", db));
      if found {
        kept := kept - {key};
      }
    }
  }
}
