/** Freshness of gauges: the side index never loses an exported series, so an
    execution of a query leaves no stale value behind. */
module GaugeLaws {
  import opened Texts
  import opened Labels
  import opened Gauges

  const DATNAME := "datname"

  /** Label values hold no '=' or quote, and no other label name ends in
      "datname". */
  ghost predicate Tidy(labels: Labels) {
    && Searchable(labels)
    && forall name :: name in labels && EndsWith(name, DATNAME) ==> name == DATNAME
  }

  /** Every key of the index is the canonical text of the labels it holds, and
      every exported series is in the index. */
  ghost predicate Indexed(s: Store) {
    && (forall key :: key in s.tracked ==> Tidy(s.tracked[key]) && Canonical(s.tracked[key]) == key)
    && (forall labels :: labels in s.series ==>
          Canonical(labels) in s.tracked && s.tracked[Canonical(labels)] == labels)
  }

  ghost predicate TidyRows(cfg: Config, m: string, rows: seq<Row>)
    requires m in cfg.gauges
  {
    forall k :: 0 <= k < |rows| ==> Tidy(LabelsOf(cfg, m, rows[k]))
  }

  ghost predicate TidyAnswers(cfg: Config, m: string, answers: seq<Answer>)
    requires m in cfg.gauges
  {
    forall k :: 0 <= k < |answers| && answers[k].Rows? ==> TidyRows(cfg, m, answers[k].rows)
  }

  lemma TidyInjective(a: Labels, b: Labels)
    requires Tidy(a) && Tidy(b) && Canonical(a) == Canonical(b)
    ensures a == b
  {
    CanonicalInjective(a, b);
  }

  // ------------------------------------------------- what an execution wrote

  datatype Written = Nothing | Wrote(sample: Sample)

  /** The last value the first n rows give to a series. */
  ghost function LastInRows(cfg: Config, m: string, rows: seq<Row>, n: nat, labels: Labels): Written
    requires m in cfg.gauges && n <= |rows|
  {
    if n == 0 then Nothing
    else if LabelsOf(cfg, m, rows[n - 1]) == labels then Wrote(SampleOf(cfg, m, rows[n - 1]))
    else LastInRows(cfg, m, rows, n - 1, labels)
  }

  ghost function LastInAnswers(cfg: Config, m: string, answers: seq<Answer>, n: nat, labels: Labels): Written
    requires m in cfg.gauges && n <= |answers|
  {
    if n == 0 then Nothing
    else
      var a := answers[n - 1];
      if a.Rows? && LastInRows(cfg, m, a.rows, |a.rows|, labels).Wrote? then LastInRows(cfg, m, a.rows, |a.rows|, labels)
      else LastInAnswers(cfg, m, answers, n - 1, labels)
  }

  /** From p to q, series `labels` was given what w says. */
  ghost predicate Effect(p: Progress, q: Progress, labels: Labels, w: Written) {
    match w
    case Wrote(sample) =>
      labels in q.store.series && q.store.series[labels] == sample && Canonical(labels) in q.updated
    case Nothing =>
      && (labels in q.store.series <==> labels in p.store.series)
      && (labels in p.store.series ==> q.store.series[labels] == p.store.series[labels])
      && (Canonical(labels) in q.updated <==> Canonical(labels) in p.updated)
  }

  lemma {:induction false} RowsEffect(cfg: Config, m: string, p: Progress, rows: seq<Row>, n: nat, labels: Labels)
    requires m in cfg.gauges && n <= |rows| && TidyRows(cfg, m, rows) && Tidy(labels)
    ensures Effect(p, AfterRows(cfg, m, p, rows, n), labels, LastInRows(cfg, m, rows, n, labels))
  {
    hide Canonical, LabelsFrom, SampleOf, Tidy;
    if n > 0 {
      RowsEffect(cfg, m, p, rows, n - 1, labels);
      var l := LabelsOf(cfg, m, rows[n - 1]);
      assert Tidy(l);
      if Canonical(l) == Canonical(labels) {
        TidyInjective(l, labels);
      }
    }
  }

  lemma {:induction false} AnswersEffect(cfg: Config, m: string, s: Store, answers: seq<Answer>, n: nat, labels: Labels)
    requires m in cfg.gauges && n <= |answers| && TidyAnswers(cfg, m, answers) && Tidy(labels)
    ensures Effect(Progress(s, {}), AfterAnswers(cfg, m, s, answers, n), labels, LastInAnswers(cfg, m, answers, n, labels))
  {
    hide Canonical, AfterRows, LastInRows, Tidy, TidyRows;
    if n > 0 {
      AnswersEffect(cfg, m, s, answers, n - 1, labels);
      var a := answers[n - 1];
      if a.Rows? {
        RowsEffect(cfg, m, AfterAnswers(cfg, m, s, answers, n - 1), a.rows, |a.rows|, labels);
      }
    }
  }

  // ------------------------------------------------------- the index is kept

  lemma StepIndexed(cfg: Config, m: string, p: Progress, row: Row)
    requires m in cfg.gauges && Indexed(p.store) && Tidy(LabelsOf(cfg, m, row))
    ensures Indexed(Stepped(cfg, m, p, row).store)
  {
    hide Canonical, LabelsFrom, SampleOf, Tidy;
    var l := LabelsOf(cfg, m, row);
    if Canonical(l) in p.store.tracked {
      TidyInjective(p.store.tracked[Canonical(l)], l);
    }
    var t := Track(p.store.tracked, l);
    assert t[Canonical(l)] == l;
    assert forall key :: key in p.store.tracked ==> key in t && t[key] == p.store.tracked[key];
  }

  lemma {:induction false} RowsIndexed(cfg: Config, m: string, p: Progress, rows: seq<Row>, n: nat)
    requires m in cfg.gauges && n <= |rows| && Indexed(p.store) && TidyRows(cfg, m, rows)
    ensures Indexed(AfterRows(cfg, m, p, rows, n).store)
  {
    hide Canonical, LabelsFrom, SampleOf, Tidy, Indexed;
    if n > 0 {
      RowsIndexed(cfg, m, p, rows, n - 1);
      StepIndexed(cfg, m, AfterRows(cfg, m, p, rows, n - 1), rows[n - 1]);
    }
  }

  lemma {:induction false} AnswersIndexed(cfg: Config, m: string, s: Store, answers: seq<Answer>, n: nat)
    requires m in cfg.gauges && n <= |answers| && Indexed(s) && TidyAnswers(cfg, m, answers)
    ensures Indexed(AfterAnswers(cfg, m, s, answers, n).store)
  {
    if n > 0 {
      AnswersIndexed(cfg, m, s, answers, n - 1);
      var a := answers[n - 1];
      if a.Rows? {
        RowsIndexed(cfg, m, AfterAnswers(cfg, m, s, answers, n - 1), a.rows, |a.rows|);
      }
    }
  }

  /** After the reset, exactly the tracked series are exported. */
  lemma ResetIndexed(s: Store, updated: set<string>, value: Sample)
    requires Indexed(s)
    ensures Indexed(ResetStale(s, updated, value))
  {
    var r := ResetStale(s, updated, value);
    forall labels | labels in r.series
      ensures Canonical(labels) in r.tracked && r.tracked[Canonical(labels)] == labels
    {
      if labels in Stale(s, updated) {
        var key :| key in s.tracked && key !in updated && s.tracked[key] == labels;
        assert Canonical(s.tracked[key]) == key;
      }
    }
  }

  /** An execution keeps every exported series in the index. */
  lemma ExecutionIndexed(cfg: Config, m: string, s: Store, answers: seq<Answer>)
    requires m in cfg.gauges && Indexed(s) && TidyAnswers(cfg, m, answers)
    ensures Indexed(Executed(cfg, m, s, answers))
  {
    AnswersIndexed(cfg, m, s, answers, |answers|);
    var p := AfterAnswers(cfg, m, s, answers, |answers|);
    ResetIndexed(p.store, p.updated, ResetValue(cfg.gauges[m], AllOk(answers)));
  }

  /** What a series of the query must read after an execution. */
  ghost function Expected(cfg: Config, m: string, answers: seq<Answer>, labels: Labels): Sample
    requires m in cfg.gauges
  {
    match LastInAnswers(cfg, m, answers, |answers|, labels)
    case Wrote(sample) => sample
    case Nothing => ResetValue(cfg.gauges[m], AllOk(answers))
  }

  /** Freshness: after an execution every series of the query's gauges holds the
      value of the last row for it, or, if there was none, the reset value that
      the outcome of the query selects. Nothing older survives. */
  lemma ExecutionIsFresh(cfg: Config, m: string, s: Store, answers: seq<Answer>, labels: Labels)
    requires m in cfg.gauges && Indexed(s) && TidyAnswers(cfg, m, answers)
    requires labels in Executed(cfg, m, s, answers).series
    ensures Executed(cfg, m, s, answers).series[labels] == Expected(cfg, m, answers, labels)
  {
    var p := AfterAnswers(cfg, m, s, answers, |answers|);
    AnswersIndexed(cfg, m, s, answers, |answers|);
    ExecutionIndexed(cfg, m, s, answers);
    assert Tidy(labels);
    AnswersEffect(cfg, m, s, answers, |answers|, labels);
    if labels in Stale(p.store, p.updated) {
      var key :| key in p.store.tracked && key !in p.updated && p.store.tracked[key] == labels;
      assert Canonical(labels) == key;
    } else {
      assert p.store.tracked[Canonical(labels)] == labels;
      assert Canonical(labels) in p.updated;
    }
  }

  /** ... and exactly the tracked series are exported then: those tracked
      before, and those of the rows. */
  lemma ExecutionExportsTracked(cfg: Config, m: string, s: Store, answers: seq<Answer>, labels: Labels)
    requires m in cfg.gauges && Indexed(s) && TidyAnswers(cfg, m, answers) && Tidy(labels)
    ensures labels in Executed(cfg, m, s, answers).series <==>
            Canonical(labels) in s.tracked || LastInAnswers(cfg, m, answers, |answers|, labels).Wrote?
  {
    var p := AfterAnswers(cfg, m, s, answers, |answers|);
    AnswersIndexed(cfg, m, s, answers, |answers|);
    AnswersEffect(cfg, m, s, answers, |answers|, labels);
    AnswersTrack(cfg, m, s, answers, |answers|, Canonical(labels));
    if Canonical(labels) in p.store.tracked {
      TidyInjective(p.store.tracked[Canonical(labels)], labels);
    }
  }

  lemma {:induction false} RowsTrack(cfg: Config, m: string, p: Progress, rows: seq<Row>, n: nat, key: string)
    requires m in cfg.gauges && n <= |rows| && p.updated <= p.store.tracked.Keys
    ensures var q := AfterRows(cfg, m, p, rows, n);
            && q.updated <= q.store.tracked.Keys
            && (key in q.store.tracked <==> key in p.store.tracked || key in q.updated)
  {
    hide Canonical, LabelsFrom, SampleOf;
    if n > 0 {
      RowsTrack(cfg, m, p, rows, n - 1, key);
    }
  }

  lemma {:induction false} AnswersTrack(cfg: Config, m: string, s: Store, answers: seq<Answer>, n: nat, key: string)
    requires m in cfg.gauges && n <= |answers|
    ensures var q := AfterAnswers(cfg, m, s, answers, n);
            && q.updated <= q.store.tracked.Keys
            && (key in q.store.tracked <==> key in s.tracked || key in q.updated)
  {
    if n > 0 {
      AnswersTrack(cfg, m, s, answers, n - 1, key);
      var a := answers[n - 1];
      if a.Rows? {
        var p := AfterAnswers(cfg, m, s, answers, n - 1);
        RowsTrack(cfg, m, p, a.rows, |a.rows|, key);
        UpdatedGrows(cfg, m, p, a.rows, |a.rows|);
      }
    }
  }

  lemma {:induction false} UpdatedGrows(cfg: Config, m: string, p: Progress, rows: seq<Row>, n: nat)
    requires m in cfg.gauges && n <= |rows|
    ensures p.updated <= AfterRows(cfg, m, p, rows, n).updated
  {
    hide Canonical, LabelsFrom, SampleOf;
    if n > 0 {
      UpdatedGrows(cfg, m, p, rows, n - 1);
    }
  }

  // -------------------------------------------------------- database removal

  /** Removal drops an index entry exactly when it drops its series. */
  lemma RemovalIndexed(s: Store, db: string)
    requires Indexed(s) && Free(db, '\"')
    ensures Indexed(Unregistered(s, db))
    ensures forall labels :: labels in Unregistered(s, db).series <==> labels in s.series && !Carries(labels, db)
  {
    hide Canonical, Contains, Wanted;
    forall key | key in s.tracked
      ensures Contains(key, Wanted(DATNAME, db)) <==> Carries(s.tracked[key], db)
    {
      SubstringTestExact(s.tracked[key], DATNAME, db);
    }
  }

  /** Indexed, except that other label names may end in "datname". */
  ghost predicate Sound(s: Store) {
    && (forall key :: key in s.tracked ==> Searchable(s.tracked[key]) && Canonical(s.tracked[key]) == key)
    && (forall labels :: labels in s.series ==>
          Canonical(labels) in s.tracked && s.tracked[Canonical(labels)] == labels)
  }

  /** Removal forgets a series that stays exported exactly if some exported
      series has the database's name in another label whose name ends in
      "datname". */
  lemma RemovalIsSoundIff(s: Store, db: string)
    requires Sound(s) && Free(db, '\"')
    ensures Sound(Unregistered(s, db)) <==>
            forall labels :: labels in s.series && HasSuffixedLabel(labels, DATNAME, db) ==> Carries(labels, db)
  {
    hide Canonical, Contains, Wanted, HasSuffixedLabel;
    forall key | key in s.tracked
      ensures Contains(key, Wanted(DATNAME, db)) <==> HasSuffixedLabel(s.tracked[key], DATNAME, db)
    {
      SubstringTest(s.tracked[key], DATNAME, db);
    }
    forall labels | labels in s.series && !Carries(labels, db)
      ensures labels in Unregistered(s, db).series
      ensures Canonical(labels) in Unregistered(s, db).tracked <==> !HasSuffixedLabel(labels, DATNAME, db)
    {
    }
  }

  const LEGACY: Labels := map["olddatname" := "a"]

  /** Removing database "a" forgets a series that only has "a" as its
      "olddatname": it stays exported and is never reset again. */
  lemma RemovalForgets(value: Sample)
    ensures var s := Store(map[Canonical(LEGACY) := LEGACY], map[LEGACY := value]);
            Sound(s) && Unregistered(s, "a").series == s.series && !Sound(Unregistered(s, "a"))
  {
    hide Canonical, Contains, Wanted;
    var s := Store(map[Canonical(LEGACY) := LEGACY], map[LEGACY := value]);
    assert |DATNAME| != |"olddatname"|;
    assert !Carries(LEGACY, "a");
    assert HasSuffixedLabel(LEGACY, DATNAME, "a") by {
      assert "olddatname" in LEGACY && EndsWith("olddatname", DATNAME);
    }
    RemovalIsSoundIff(s, "a");
  }

  // -------------------------------------------------------------- whole runs

  datatype Event = Execute(metrics: seq<string>, answers: seq<Answer>) | Remove(db: string)

  ghost function Step(cfg: Config, stores: map<string, Store>, e: Event): map<string, Store>
    requires stores.Keys == cfg.gauges.Keys
  {
    match e
    case Execute(metrics, answers) => AfterExecution(cfg, stores, metrics, answers)
    case Remove(db) => AfterRemoval(stores, db)
  }

  ghost predicate TidyEvent(cfg: Config, e: Event) {
    match e
    case Execute(metrics, answers) => forall m :: m in metrics && m in cfg.gauges ==> TidyAnswers(cfg, m, answers)
    case Remove(db) => Free(db, '\"')
  }

  ghost function Run(cfg: Config, stores: map<string, Store>, events: seq<Event>): (after: map<string, Store>)
    requires stores.Keys == cfg.gauges.Keys
    ensures after.Keys == cfg.gauges.Keys
    decreases events
  {
    if events == [] then stores else Run(cfg, Step(cfg, stores, events[0]), events[1..])
  }

  ghost predicate AllIndexed(stores: map<string, Store>) {
    forall m :: m in stores ==> Indexed(stores[m])
  }

  lemma StepIsIndexed(cfg: Config, stores: map<string, Store>, e: Event)
    requires stores.Keys == cfg.gauges.Keys && AllIndexed(stores) && TidyEvent(cfg, e)
    ensures AllIndexed(Step(cfg, stores, e))
  {
    forall m | m in stores
      ensures Indexed(Step(cfg, stores, e)[m])
    {
      match e {
        case Execute(metrics, answers) =>
          if m in metrics {
            ExecutionIndexed(cfg, m, stores[m], answers);
          }
        case Remove(db) => RemovalIndexed(stores[m], db);
      }
    }
  }

  /** Over any run of executions and removals, every exported series of every
      gauge stays in the index ... */
  lemma {:induction false} RunIndexed(cfg: Config, stores: map<string, Store>, events: seq<Event>)
    requires stores.Keys == cfg.gauges.Keys && AllIndexed(stores)
    requires forall k :: 0 <= k < |events| ==> TidyEvent(cfg, events[k])
    ensures AllIndexed(Run(cfg, stores, events))
    decreases events
  {
    if events != [] {
      StepIsIndexed(cfg, stores, events[0]);
      RunIndexed(cfg, Step(cfg, stores, events[0]), events[1..]);
    }
  }

  lemma {:induction false} RunSnoc(cfg: Config, stores: map<string, Store>, events: seq<Event>, e: Event)
    requires stores.Keys == cfg.gauges.Keys
    ensures Run(cfg, stores, events + [e]) == Step(cfg, Run(cfg, stores, events), e)
    decreases events
  {
    if events == [] {
      assert events + [e] == [e] && [e][1..] == [];
      assert Run(cfg, Step(cfg, stores, e), []) == Step(cfg, stores, e);
    } else {
      assert (events + [e])[1..] == events[1..] + [e];
      RunSnoc(cfg, Step(cfg, stores, events[0]), events[1..], e);
    }
  }

  /** ... so that whatever happened before, the query executed last leaves only
      values of its own in the series of its gauges. */
  lemma RunIsFresh(cfg: Config, stores: map<string, Store>, events: seq<Event>, metrics: seq<string>, answers: seq<Answer>, m: string, labels: Labels)
    requires stores.Keys == cfg.gauges.Keys && AllIndexed(stores)
    requires forall k :: 0 <= k < |events| ==> TidyEvent(cfg, events[k])
    requires TidyEvent(cfg, Execute(metrics, answers)) && m in metrics && m in cfg.gauges
    requires labels in Run(cfg, stores, events + [Execute(metrics, answers)])[m].series
    ensures Run(cfg, stores, events + [Execute(metrics, answers)])[m].series[labels] == Expected(cfg, m, answers, labels)
  {
    RunIndexed(cfg, stores, events);
    RunSnoc(cfg, stores, events, Execute(metrics, answers));
    var now := Run(cfg, stores, events);
    ExecutionIsFresh(cfg, m, now[m], answers, labels);
  }
}
