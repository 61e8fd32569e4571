/** What a gauge reads, on the fields of the configuration and of the rows
    (services/query-exporter/main.go). */
module GaugeReadings {
  import opened Texts
  import opened Labels
  import opened Gauges
  import opened GaugeLaws

  /** A column of a row; a missing one reads as the empty text. */
  ghost predicate ColumnReads(row: Row, column: string, text: string) {
    if column in row then row[column] == text else text == ""
  }

  /** The row feeds the series `labels` of gauge m: each label of the gauge holds
      the column of its upper-case name, and every other label is omnipresent. */
  ghost predicate Feeds(cfg: Config, m: string, row: Row, labels: Labels)
    requires m in cfg.gauges
  {
    && (forall name :: name in labels <==> name in cfg.gauges[m].labels || name in cfg.omnipresent)
    && (forall name :: name in cfg.gauges[m].labels ==> ColumnReads(row, cfg.upper(name), labels[name]))
    && (forall name :: name in cfg.omnipresent && name !in cfg.gauges[m].labels ==> labels[name] == cfg.omnipresent[name])
  }

  lemma {:induction false} LabelsReadColumns(cfg: Config, names: seq<string>, row: Row, name: string)
    ensures var labels := LabelsFrom(cfg, names, row);
      && (name in labels <==> name in names || name in cfg.omnipresent)
      && (name in names ==> ColumnReads(row, cfg.upper(name), labels[name]))
      && (name in cfg.omnipresent && name !in names ==> labels[name] == cfg.omnipresent[name])
  {
    if names != [] {
      var n := |names| - 1;
      LabelsReadColumns(cfg, names[..n], row, name);
      assert names == names[..n] + [names[n]];
    }
  }

  /** A row feeds exactly one series of a gauge. */
  lemma FeedsOne(cfg: Config, m: string, row: Row, labels: Labels)
    requires m in cfg.gauges
    ensures Feeds(cfg, m, row, labels) <==> labels == LabelsOf(cfg, m, row)
  {
    hide LabelsFrom, ColumnReads;
    var l := LabelsOf(cfg, m, row);
    forall name
      ensures name in l <==> name in cfg.gauges[m].labels || name in cfg.omnipresent
      ensures name in cfg.gauges[m].labels ==> ColumnReads(row, cfg.upper(name), l[name])
      ensures name in cfg.omnipresent && name !in cfg.gauges[m].labels ==> l[name] == cfg.omnipresent[name]
    {
      LabelsReadColumns(cfg, cfg.gauges[m].labels, row, name);
    }
    if Feeds(cfg, m, row, labels) {
      forall name | name in labels
        ensures labels[name] == l[name]
      {
        if name in cfg.gauges[m].labels {
          SameColumn(row, cfg.upper(name), labels[name], l[name]);
        }
      }
    }
  }

  lemma SameColumn(row: Row, column: string, a: string, b: string)
    requires ColumnReads(row, column, a) && ColumnReads(row, column, b)
    ensures a == b
  {
  }

  /** The value that a row gives: its column parsed, or the gauge's default for
      what cannot be parsed. */
  ghost predicate Gives(cfg: Config, m: string, row: Row, sample: Sample)
    requires m in cfg.gauges
  {
    exists text :: ColumnReads(row, cfg.upper(m), text) &&
      sample == match cfg.parse(text) case Unparsable => cfg.gauges[m].onUnparsable case Float(x) => x
  }

  lemma GivesOne(cfg: Config, m: string, row: Row)
    requires m in cfg.gauges
    ensures Gives(cfg, m, row, SampleOf(cfg, m, row))
  {
    assert ColumnReads(row, cfg.upper(m), if cfg.upper(m) in row then row[cfg.upper(m)] else "");
  }

  /** Row r of answer a feeds the series. */
  ghost predicate FedBy(cfg: Config, m: string, answers: seq<Answer>, labels: Labels, a: nat, r: nat)
    requires m in cfg.gauges
  {
    a < |answers| && answers[a].Rows? && r < |answers[a].rows| && Feeds(cfg, m, answers[a].rows[r], labels)
  }

  /** ... and no later row does. */
  ghost predicate FedLast(cfg: Config, m: string, answers: seq<Answer>, labels: Labels, a: nat, r: nat)
    requires m in cfg.gauges
  {
    FedBy(cfg, m, answers, labels, a, r) &&
    forall b: nat, q: nat :: FedBy(cfg, m, answers, labels, b, q) ==> b < a || (b == a && q <= r)
  }

  lemma {:induction false} LastRow(cfg: Config, m: string, rows: seq<Row>, n: nat, labels: Labels, r: nat)
    requires m in cfg.gauges && n <= |rows|
    ensures LastInRows(cfg, m, rows, n, labels).Nothing? ==> r < n ==> !Feeds(cfg, m, rows[r], labels)
    ensures r < n && Feeds(cfg, m, rows[r], labels) && (forall q :: r < q < n ==> !Feeds(cfg, m, rows[q], labels)) ==>
      LastInRows(cfg, m, rows, n, labels) == Wrote(SampleOf(cfg, m, rows[r]))
    ensures (forall q :: 0 <= q < n ==> !Feeds(cfg, m, rows[q], labels)) ==> LastInRows(cfg, m, rows, n, labels).Nothing?
  {
    hide LabelsFrom, SampleOf, Feeds;
    if n > 0 {
      LastRow(cfg, m, rows, n - 1, labels, r);
      FeedsOne(cfg, m, rows[n - 1], labels);
    }
  }

  lemma {:induction false} LastAnswer(cfg: Config, m: string, answers: seq<Answer>, n: nat, labels: Labels, a: nat, r: nat)
    requires m in cfg.gauges && n <= |answers|
    ensures a < n && FedLast(cfg, m, answers[..n], labels, a, r) ==>
      LastInAnswers(cfg, m, answers, n, labels) == Wrote(SampleOf(cfg, m, answers[a].rows[r]))
    ensures (forall b: nat, q: nat :: !FedBy(cfg, m, answers[..n], labels, b, q)) ==> LastInAnswers(cfg, m, answers, n, labels).Nothing?
  {
    hide LastInRows, Feeds, SampleOf;
    if n > 0 {
      var here, before := answers[..n], answers[..n - 1];
      LastAnswer(cfg, m, answers, n - 1, labels, a, r);
      assert forall b: nat, q: nat :: FedBy(cfg, m, before, labels, b, q) ==> FedBy(cfg, m, here, labels, b, q);
      if answers[n - 1].Rows? {
        var rows := answers[n - 1].rows;
        LastRow(cfg, m, rows, |rows|, labels, r);
        assert forall q: nat :: q < |rows| && Feeds(cfg, m, rows[q], labels) ==> FedBy(cfg, m, here, labels, n - 1, q);
      }
    }
  }

  lemma {:induction false} LastFeedingRow(cfg: Config, m: string, rows: seq<Row>, n: nat, labels: Labels, some: nat) returns (r: nat)
    requires m in cfg.gauges && some < n <= |rows| && Feeds(cfg, m, rows[some], labels)
    ensures r < n && Feeds(cfg, m, rows[r], labels) && forall q :: r < q < n ==> !Feeds(cfg, m, rows[q], labels)
  {
    hide Feeds;
    if Feeds(cfg, m, rows[n - 1], labels) {
      r := n - 1;
    } else {
      r := LastFeedingRow(cfg, m, rows, n - 1, labels, some);
    }
  }

  /** If any row feeds the series, there is a last one. */
  lemma {:induction false} SomeFedLast(cfg: Config, m: string, answers: seq<Answer>, labels: Labels, b: nat, q: nat) returns (a: nat, r: nat)
    requires m in cfg.gauges && FedBy(cfg, m, answers, labels, b, q)
    ensures FedLast(cfg, m, answers, labels, a, r)
    decreases |answers|
  {
    hide Feeds;
    var n := |answers| - 1;
    if x: nat :| FedBy(cfg, m, answers, labels, n, x) {
      a := n;
      r := LastFeedingRow(cfg, m, answers[n].rows, |answers[n].rows|, labels, x);
    } else {
      assert FedBy(cfg, m, answers[..n], labels, b, q);
      a, r := SomeFedLast(cfg, m, answers[..n], labels, b, q);
      forall c: nat, y: nat | FedBy(cfg, m, answers, labels, c, y)
        ensures FedBy(cfg, m, answers[..n], labels, c, y)
      {
      }
    }
  }

  /** What the series must read: the value of the last row that feeds it; if there
      is none, the missing default when every database answered without an error,
      and the failed default when some query failed. */
  ghost predicate ReadsFresh(cfg: Config, m: string, answers: seq<Answer>, labels: Labels, sample: Sample)
    requires m in cfg.gauges
  {
    || (exists a: nat, r: nat :: FedLast(cfg, m, answers, labels, a, r) && Gives(cfg, m, answers[a].rows[r], sample))
    || (&& (forall a: nat, r: nat :: !FedBy(cfg, m, answers, labels, a, r))
        && sample == if QueryFailed in answers then cfg.gauges[m].onFailure else cfg.gauges[m].onMissing)
  }

  lemma ExpectedIsFresh(cfg: Config, m: string, answers: seq<Answer>, labels: Labels)
    requires m in cfg.gauges
    ensures ReadsFresh(cfg, m, answers, labels, GaugeLaws.Expected(cfg, m, answers, labels))
  {
    hide Feeds, Gives, SampleOf, LastInAnswers;
    assert answers[..|answers|] == answers;
    if b: nat, q: nat :| FedBy(cfg, m, answers, labels, b, q) {
      var a, r := SomeFedLast(cfg, m, answers, labels, b, q);
      LastAnswer(cfg, m, answers, |answers|, labels, a, r);
      GivesOne(cfg, m, answers[a].rows[r]);
      assert FedLast(cfg, m, answers, labels, a, r);
    } else {
      LastAnswer(cfg, m, answers, |answers|, labels, 0, 0);
      assert AllOk(answers) <==> QueryFailed !in answers;
    }
  }

  /** After any run, the query executed last leaves in its gauges only values that
      are fresh in this sense; the gauges of other queries are as before. */
  lemma RunReadsFresh(
    cfg: Config, stores: map<string, Store>, events: seq<Event>, metrics: seq<string>, answers: seq<Answer>, m: string, labels: Labels)
    requires stores.Keys == cfg.gauges.Keys && AllIndexed(stores)
    requires forall k :: 0 <= k < |events| ==> TidyEvent(cfg, events[k])
    requires TidyEvent(cfg, Execute(metrics, answers)) && m in cfg.gauges
    ensures var before, after := Run(cfg, stores, events), Run(cfg, stores, events + [Execute(metrics, answers)]);
      if m in metrics then labels in after[m].series ==> ReadsFresh(cfg, m, answers, labels, after[m].series[labels])
      else after[m] == before[m]
  {
    hide ReadsFresh, TidyEvent, Indexed, Executed;
    RunSnoc(cfg, stores, events, Execute(metrics, answers));
    if m in metrics && labels in Run(cfg, stores, events + [Execute(metrics, answers)])[m].series {
      RunIsFresh(cfg, stores, events, metrics, answers, m, labels);
      ExpectedIsFresh(cfg, m, answers, labels);
    }
  }

  /** And exactly these series are exported after it: those tracked before, and
      those that a row feeds. */
  lemma ExportedIff(cfg: Config, m: string, s: Store, answers: seq<Answer>, labels: Labels)
    requires m in cfg.gauges && Indexed(s) && TidyAnswers(cfg, m, answers) && Tidy(labels)
    ensures labels in Executed(cfg, m, s, answers).series <==>
            Canonical(labels) in s.tracked || exists a: nat, r: nat :: FedBy(cfg, m, answers, labels, a, r)
  {
    hide Feeds, SampleOf, LastInAnswers, Executed, Canonical, Indexed, TidyAnswers, Tidy;
    ExecutionExportsTracked(cfg, m, s, answers, labels);
    assert answers[..|answers|] == answers;
    if b: nat, q: nat :| FedBy(cfg, m, answers, labels, b, q) {
      var a, r := SomeFedLast(cfg, m, answers, labels, b, q);
      LastAnswer(cfg, m, answers, |answers|, labels, a, r);
    } else {
      LastAnswer(cfg, m, answers, |answers|, labels, 0, 0);
    }
  }

  /** Removing a database takes exactly the series whose "datname" it is, and keeps
      the others as they are. */
  lemma RemovalReads(s: Store, db: string, labels: Labels)
    requires Indexed(s) && Free(db, '\"')
    ensures var after := Unregistered(s, db);
      && (labels in after.series <==> labels in s.series && !("datname" in labels && labels["datname"] == db))
      && (labels in after.series ==> after.series[labels] == s.series[labels] && Canonical(labels) in after.tracked)
  {
    hide Canonical, Contains, Wanted;
    RemovalIndexed(s, db);
  }
}
