/** Long-running queries: counting timeouts and skipping
    (services/query-exporter/dbservice/dbservice.go, services/query-exporter/main.go). */
module CircuitBreaker {

  type Classifier = map<string, string>

  datatype Database = Database(name: string, isMaster: bool, classifier: Classifier)

  datatype Query = Query(name: string, masterOnly: bool, logicalDatabases: seq<string>, classifiers: seq<Classifier>)

  /** What the driver reports: rows, an error, or an error with the query's
      deadline already exceeded. */
  datatype Outcome = Succeeded | Errored | TimedOut

  /** timeoutsMap and longRunningQueries */
  datatype State = State(timeouts: map<string, int>, longRunning: seq<string>)

  const INITIAL := State(map[], [])

  function CountOf(s: State, q: string): int {
    if q in s.timeouts then s.timeouts[q] else 0
  }

  // ------------------------------------------------------------------- skip

  ghost predicate Accepts(wanted: Classifier, actual: Classifier) {
    forall k :: k in wanted ==> (if k in actual then actual[k] else "") == wanted[k]
  }

  /** Why a query is not run against a database. */
  ghost predicate Skips(s: State, excluded: seq<string>, db: Database, q: Query) {
    || q.name in excluded
    || (q.masterOnly && !db.isMaster)
    || q.name in s.longRunning
    || (q.logicalDatabases != [] && db.name !in q.logicalDatabases)
    || (q.logicalDatabases == [] && q.classifiers != [] &&
        forall c :: c in q.classifiers ==> !Accepts(c, db.classifier))
  }

  method IsAcceptable(wanted: Classifier, actual: Classifier) returns (ok: bool)
    ensures ok <==> Accepts(wanted, actual)
  {
    var rest := wanted.Keys;
    while rest != {}
      invariant rest <= wanted.Keys
      invariant forall k :: k in wanted && k !in rest ==> (if k in actual then actual[k] else "") == wanted[k]
      decreases rest
    {
      var k :| k in rest;
      if (if k in actual then actual[k] else "") != wanted[k] {
        return false;
      }
      rest := rest - {k};
    }
    return true;
  }

  method Among(x: string, list: seq<string>) returns (found: bool)
    ensures found <==> x in list
  {
    found := false;
    for i := 0 to |list|
      invariant found <==> exists k :: 0 <= k < i && list[k] == x
    {
      if list[i] == x {
        found := true;
      }
    }
  }

  /** skipQuery */
  method SkipQuery(s: State, excluded: seq<string>, db: Database, q: Query) returns (skip: bool)
    ensures skip <==> Skips(s, excluded, db, q)
  {
    var isExcluded := Among(q.name, excluded);
    if isExcluded {
      return true;
    }
    if q.masterOnly && !db.isMaster {
      return true;
    }
    var listed := Among(q.name, s.longRunning);
    if listed {
      return true;
    }
    if |q.logicalDatabases| > 0 {
      var known := Among(db.name, q.logicalDatabases);
      return !known;
    }
    if |q.classifiers| > 0 {
      for i := 0 to |q.classifiers|
        invariant forall k :: 0 <= k < i ==> !Accepts(q.classifiers[k], db.classifier)
      {
        var ok := IsAcceptable(q.classifiers[i], db.classifier);
        if ok {
          assert q.classifiers[i] in q.classifiers;
          return false;
        }
      }
      return true;
    }
    return false;
  }

  // ------------------------------------------------------------ the breaker

  function AfterTimeout(s: State, limit: int, q: string): State {
    if CountOf(s, q) >= limit then s.(longRunning := s.longRunning + [q])
    else s.(timeouts := s.timeouts[q := CountOf(s, q) + 1])
  }

  ghost function AfterAttempt(s: State, limit: int, excluded: seq<string>, db: Database, q: Query, outcome: Outcome): State {
    if !Skips(s, excluded, db, q) && outcome.TimedOut? then AfterTimeout(s, limit, q.name) else s
  }

  class Breaker {
    const limit: int
    const excluded: seq<string>
    var timeouts: map<string, int>
    var longRunning: seq<string>

    ghost function Current(): State
      reads this
    {
      State(timeouts, longRunning)
    }

    /** handleTimeoutFail */
    method HandleTimeoutFail(q: string, deadlineExceeded: bool)
      modifies this
      ensures Current() == if deadlineExceeded then AfterTimeout(old(Current()), limit, q) else old(Current())
    {
      if deadlineExceeded {
        var count := if q in timeouts then timeouts[q] else 0;
        if count >= limit {
          longRunning := longRunning + [q];
        } else {
          count := count + 1;
          timeouts := timeouts[q := count];
        }
      }
    }

    /** One round of the loop in executeQueryAndUpdateMetrics: skip, or run the
        query and feed its outcome to the breaker. */
    method Attempt(db: Database, q: Query, outcome: Outcome) returns (ran: bool)
      modifies this
      ensures ran <==> !old(Skips(Current(), excluded, db, q))
      ensures Current() == AfterAttempt(old(Current()), limit, excluded, db, q, outcome)
    {
      var skip := SkipQuery(State(timeouts, longRunning), excluded, db, q);
      if skip {
        return false;
      }
      if !outcome.Succeeded? {
        HandleTimeoutFail(q.name, outcome.TimedOut?);
      }
      return true;
    }
  }

  // -------------------------------------------------------------- whole runs

  datatype Event = Event(db: Database, q: Query, outcome: Outcome)

  ghost function Run(limit: int, excluded: seq<string>, events: seq<Event>, n: nat): State
    requires n <= |events|
  {
    if n == 0 then INITIAL
    else
      var e := events[n - 1];
      AfterAttempt(Run(limit, excluded, events, n - 1), limit, excluded, e.db, e.q, e.outcome)
  }

  /** How often a query really ran and timed out. */
  ghost function Timeouts(limit: int, excluded: seq<string>, events: seq<Event>, n: nat, q: string): nat
    requires n <= |events|
  {
    if n == 0 then 0
    else
      var e := events[n - 1];
      var before := Timeouts(limit, excluded, events, n - 1, q);
      if e.q.name == q && e.outcome.TimedOut? && !Skips(Run(limit, excluded, events, n - 1), excluded, e.db, e.q)
      then before + 1 else before
  }

  function Max(a: int, b: int): int {
    if a >= b then a else b
  }

  function Min(a: int, b: int): int {
    if a <= b then a else b
  }

  /** Over any run a query times out at most M + 1 times, its stored count is
      min(timeouts, M), it is listed exactly from the (M + 1)-th timeout on, and
      then once (M being the limit, or 0 if that is negative). */
  lemma {:induction false} RunCounts(limit: int, excluded: seq<string>, events: seq<Event>, n: nat, q: string)
    requires n <= |events|
    ensures var s, t, m := Run(limit, excluded, events, n), Timeouts(limit, excluded, events, n, q), Max(limit, 0);
            && t <= m + 1
            && CountOf(s, q) == Min(t, m)
            && (q in s.longRunning <==> t == m + 1)
            && multiset(s.longRunning)[q] <= 1
  {
    if n > 0 {
      RunCounts(limit, excluded, events, n - 1, q);
      var s, e := Run(limit, excluded, events, n - 1), events[n - 1];
      assert q in s.longRunning <==> q in multiset(s.longRunning);
      if !Skips(s, excluded, e.db, e.q) && e.outcome.TimedOut? {
        assert multiset(s.longRunning + [e.q.name]) == multiset(s.longRunning) + multiset{e.q.name};
      }
    }
  }

  /** A listed query is skipped on every database, for ever. */
  lemma {:induction false} ListedForEver(limit: int, excluded: seq<string>, events: seq<Event>, n: nat, k: nat, db: Database, q: Query)
    requires n <= k <= |events| && q.name in Run(limit, excluded, events, n).longRunning
    ensures q.name in Run(limit, excluded, events, k).longRunning
    ensures Skips(Run(limit, excluded, events, k), excluded, db, q)
  {
    if k > n {
      ListedForEver(limit, excluded, events, n, k - 1, db, q);
    }
  }

  /** Whatever happens to one query, another keeps its count, and is skipped for
      the same reasons as before. */
  lemma OthersUnaffected(s: State, limit: int, excluded: seq<string>, e: Event, db: Database, other: Query)
    requires other.name != e.q.name
    ensures var t := AfterAttempt(s, limit, excluded, e.db, e.q, e.outcome);
            && CountOf(t, other.name) == CountOf(s, other.name)
            && (other.name in t.longRunning <==> other.name in s.longRunning)
            && (Skips(t, excluded, db, other) <==> Skips(s, excluded, db, other))
  {
  }

  // ------------------------------------------------------------ on the fields

  /** A missing entry of the database's classifier reads as the empty text. */
  ghost predicate FitsClassifier(db: Database, c: Classifier) {
    forall k :: k in c ==> if k in db.classifier then db.classifier[k] == c[k] else c[k] == ""
  }

  /** A query runs exactly if it is neither excluded nor listed as long-running, the
      database is the master where that is asked for, and the database is one of
      the named ones, or, if none is named, fits one of the classifiers, if any. */
  lemma RunsIff(s: State, excluded: seq<string>, db: Database, q: Query)
    ensures !Skips(s, excluded, db, q) <==>
      && q.name !in excluded && q.name !in s.longRunning
      && (db.isMaster || !q.masterOnly)
      && (if q.logicalDatabases != [] then db.name in q.logicalDatabases
          else q.classifiers == [] || exists c :: c in q.classifiers && FitsClassifier(db, c))
  {
    assert forall c: Classifier :: Accepts(c, db.classifier) <==> FitsClassifier(db, c);
  }

  /** A query for every database that always times out. */
  ghost predicate AlwaysTimesOut(e: Event, q: Query, excluded: seq<string>) {
    && e.q == q && e.outcome.TimedOut? && q.name !in excluded
    && !q.masterOnly && q.logicalDatabases == [] && q.classifiers == []
  }

  /** It runs in exactly the first M + 1 rounds, in the first one if M is negative. */
  lemma {:induction false} RunsUntilTripped(limit: int, excluded: seq<string>, events: seq<Event>, n: nat, q: Query)
    requires n < |events| && forall k :: 0 <= k < |events| ==> AlwaysTimesOut(events[k], q, excluded)
    ensures Timeouts(limit, excluded, events, n, q.name) == if n <= limit then n else if limit < 0 then Min(n, 1) else Min(n, limit + 1)
    ensures !Skips(Run(limit, excluded, events, n), excluded, events[n].db, events[n].q) <==> n <= limit || n == 0
  {
    hide Skips;
    RunCounts(limit, excluded, events, n, q.name);
    assert AlwaysTimesOut(events[n], q, excluded);
    RunsIff(Run(limit, excluded, events, n), excluded, events[n].db, q);
    if n > 0 {
      assert AlwaysTimesOut(events[n - 1], q, excluded);
      RunsUntilTripped(limit, excluded, events, n - 1, q);
    }
  }
}
