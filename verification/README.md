# pgskipper-operator: a verified model of its decision logic

The repository runs PostgreSQL on Kubernetes. Most of it drives foreign APIs; this
project models the parts that decide something, and proves what they guarantee over all
inputs, all runs and all interleavings.

Foreign calls (Kubernetes, Patroni, SQL, the clock, library parsers) appear as
parameters that may answer anything: a function from attempt numbers to answers, a
sequence of polls, a flag for a failing write. Every statement therefore holds for every
environment. Go's maps are visited in arbitrary order by choosing an arbitrary remaining
key; a missing map entry reads as the zero value.

| files | what they model |
|---|---|
| `Eviction`, `EvictionLaws`, `EvictionBoundaries` | rule-driven thinning of backups by cutoff, time bucket and "keep the newest of each run" |
| `GranularSweep`, `PolicySweep` | the two sweepers of granular backups |
| `Texts`, `Labels` | Go's string helpers; the canonical label text and the substring test on it |
| `Cartesian` | the label odometer, its product, and the validation in front of it |
| `Gauges`, `GaugeLaws`, `GaugeReadings`, `GaugeStartup` | the gauges of the query exporter and their side index |
| `Histogram` | the summing histogram |
| `CircuitBreaker` | timeouts, the long-running list, and query skipping |
| `PvcAnnotations`, `PvcAnnotationLaws`, `PvcResize`, `PvcResizeLaws` | managed annotations and growth of volume claims, with back-off restarts |
| `CollationWaves` | concurrent collation fixes as a state machine |
| `IgnoredSlots` | the cache of replication slots to ignore |
| `StandbyHealth` | the health debounce and the status it guards |
| `UpgradeReadOnly` | read-only databases around a major upgrade |
| `ReconcileRetry` | bounded reconcile retries |
| `PgParams` | the PostgreSQL parameter list: reader, writer, map builder |
| `Division`, `Sequences` | arithmetic and sequence facts |

Methods follow the source's loops and in-place updates and are tied to specification
functions; the lemmas prove what those functions promise, usually against a second,
declarative definition. Where a promise fails in general, a lemma gives the failing input
or family of inputs, and another one says exactly when the promise is kept. Each module
also states what its operations do on the plain fields, texts and numbers, so that no
constant or guard is measured only by itself.

## Model

| member | source | states |
|---|---|---|
| Eviction.Evict | services/backup-daemon/docker/postgres/eviction.py:56-78 | For any list and policy: the result holds exactly the items that some rule deletes or that share a run of equal buckets with a newer one (ties: later listed), each once and newest first; it raises exactly if a zero interval covers something |
| Eviction.ThinRuns | services/backup-daemon/docker/postgres/eviction.py:72-76 | Grouping runs, sorting each and dropping its last element gives up exactly the positions superseded within their run |
| Eviction.SortEndsWithNewest | services/backup-daemon/docker/postgres/eviction.py:75-76 | The stable sort is ascending and ends with the newest item, the last listed one on ties |
| Eviction.BucketNested | services/backup-daemon/docker/postgres/eviction.py:74 | With truncating division, a bucket of an interval lies inside one bucket of every multiple of it, before and after the origin |
| EvictionLaws.NewestSurvives | services/backup-daemon/docker/postgres/eviction.py:56-78 | Distinct items in any order, interval rules only, all dividing I: the newest of every I-bucket is never evicted, and nothing is divided by zero |
| EvictionLaws.BucketKeepsSurvivor | services/backup-daemon/docker/postgres/eviction.py:56-78 | So every item has a survivor in its I-bucket that is at least as new |
| EvictionLaws.EvictionMatchesSpec | services/backup-daemon/docker/postgres/eviction.py:64-78 | On time-sorted distinct items: evicted iff a delete rule covers it, or an interval rule covers it and a newer item of the same true bucket |
| EvictionLaws.SecondPassEvictsIff | services/backup-daemon/docker/postgres/eviction.py:64-78 | For any list in any order and any policy: evicting the survivors again at the same instant evicts something iff two covered survivors of one bucket are separated only by evicted items and items of that bucket |
| EvictionLaws.EvictionIsIdempotent | services/backup-daemon/docker/postgres/eviction.py:64-78 | Hence on a time-sorted list a second pass evicts nothing |
| EvictionLaws.OneRuleIsIdempotent | services/backup-daemon/docker/postgres/eviction.py:64-78 | Nor does it for a policy of one rule, on distinct items in any order |
| EvictionLaws.StrictlyDescending | services/backup-daemon/docker/postgres/eviction.py:78 | With pairwise different times the reported list is strictly descending |
| EvictionLaws.UnsortedIsNotIdempotent | services/backup-daemon/docker/postgres/eviction.py:64-78 | A concrete unsorted list on which a second pass evicts more |
| EvictionBoundaries.BucketsDifferIff | services/backup-daemon/docker/postgres/eviction.py:73-74 | Two instants lie in different buckets iff a boundary lies between: 259200 + k*I starts a bucket, and so does the second after 259200 - k*I (k >= 1) |
| EvictionBoundaries.EvictionInNumbers | services/backup-daemon/docker/postgres/eviction.py:64-78 | On time-sorted distinct items, in plain numbers: evicted iff some rule is old enough and deletes, or is old enough for a newer item too (ties: later listed) that no boundary separates |
| EvictionBoundaries.ZeroIntervalIff | services/backup-daemon/docker/postgres/eviction.py:73-74 | A division by zero happens iff a rule with interval zero is old enough for some backup |
| EvictionBoundaries.WeeklyPair | services/backup-daemon/docker/postgres/eviction.py:72-76 | Two backups under a weekly rule: the older goes iff no Sunday 00:00 UTC lies in between |
| EvictionBoundaries.SundaySplits | services/backup-daemon/docker/postgres/eviction.py:73-74 | A concrete Saturday and Sunday are of different weeks, the seven days from then on of one |
| GranularSweep.ClassifyForKeep | services/backup-daemon/docker/granular/backups.py:249-290 | The failed and expired lists and the healthy count; it raises exactly if some expiry cannot be compared with the clock |
| GranularSweep.Namespace.SweepByKeep | services/backup-daemon/docker/granular/backups.py:243-306 | One sweep of a namespace, cut short after any number of deletions, leaves exactly the state of AfterSweep |
| GranularSweep.SweepExactly | services/backup-daemon/docker/granular/backups.py:270-306 | An undisturbed sweep keeps exactly the recorded backups that have not expired, plus one spared backup if all countable ones have expired |
| GranularSweep.OnlyExpiredGo | services/backup-daemon/docker/granular/backups.py:279-306 | Only expired or status-less backups go; no other entry changes |
| GranularSweep.FreshestStays | services/backup-daemon/docker/granular/backups.py:291-297 | If all countable backups have expired, one with maximal timestamp stays |
| GranularSweep.SweepKeepsSuccessful | services/backup-daemon/docker/granular/backups.py:243-306 | One sweep never removes the last successful backup |
| GranularSweep.RunKeepsSuccessful | services/backup-daemon/docker/granular/backups.py:233-308 | Over any run of sweeps at any clock values, cut short anywhere, with backups written in between: a namespace with a successful backup always has one, and successful "never" backups stay untouched |
| GranularSweep.SweepOnFields | services/backup-daemon/docker/granular/backups.py:249-306 | Which entries an undisturbed sweep keeps, case by case on status, expiry and timestamp; "never" backups do not count as healthy |
| GranularSweep.ExactlyOneSpared | services/backup-daemon/docker/granular/backups.py:291-297 | If all dated successful backups have expired exactly one of them is left |
| GranularSweep.BadExpiryStopsSweep | services/backup-daemon/docker/granular/backups.py:270-290 | One expiry that cannot be compared and nothing is deleted |
| GranularSweep.FailedGoFirst | services/backup-daemon/docker/granular/backups.py:299-306 | However a sweep is cut short, a successful backup goes only after all failed ones |
| PolicySweep.SweepByPolicy | services/backup-daemon/docker/granular/backups.py:327-408 | Which backups of a namespace stay: finished or running ones that no rule gives up. It raises iff a zero interval covers something, before any deletion, or a backup that has to go cannot be deleted; what stays is untouched even then, and unfinished backups go last |
| PolicySweep.NewestStays | services/backup-daemon/docker/granular/backups.py:378-396 | In any listing order, with all intervals dividing I, the newest considered backup of each I-bucket stays |
| PolicySweep.NeverStays | services/backup-daemon/docker/granular/backups.py:361-366 | A successful or running "never" backup stays under any policy |
| PolicySweep.SuccessfulStaysIff | services/backup-daemon/docker/granular/backups.py:361-396 | On a time-sorted listing some successful backup stays iff one expires "never" or a considered one is neither covered by a "delete" rule nor covered together with a newer considered backup of its bucket |
| PolicySweep.SuccessfulNewestSuffices | services/backup-daemon/docker/granular/backups.py:378-396 | In any listing order it is enough that the newest considered backup of one I-bucket is successful |
| PolicySweep.PolicyCanDropLastSuccessful | services/backup-daemon/docker/granular/backups.py:361-396 | A concrete namespace whose only successful backup is removed because a newer one is still running |
| PolicySweep.StaysInNumbers | services/backup-daemon/docker/granular/backups.py:340-408 | What stays on a time-sorted listing, on the fields and in plain numbers: cutoffs are strict, boundaries as above |
| PolicySweep.DeleteRuleInNumbers | services/backup-daemon/docker/granular/backups.py:217-218 | Under a "delete" rule of age d, in any order: a considered backup stays iff it was made at now - d or later |
| Labels.MapToString | services/query-exporter/utils/utils.go:34-50 | Whatever the iteration order, the text is the canonical one of the map |
| Labels.ParsePrint | services/query-exporter/utils/utils.go:45-47 | A reader gets back the printed pairs when names have no '=' and values no quote |
| Labels.CanonicalInjective | services/query-exporter/utils/utils.go:34-50 | Under that condition different maps have different texts |
| Labels.CanonicalTwo | services/query-exporter/utils/utils.go:34-50 | The exact text of two labels, ascending by name, whatever the order of insertion |
| Labels.QuoteMakesCollision | services/query-exporter/utils/utils.go:34-50 | Whenever a value embeds the entry of a later label, two different maps print alike |
| Labels.OneLabelCollidesIff | services/query-exporter/utils/utils.go:34-50 | A one-label map shares its text with another map of '='-free names iff its value embeds such an entry |
| Labels.SubstringTest | services/query-exporter/collectors/histogram.go:113-120 | With names free of '=' and values free of '=' and quotes, the text contains k="v" iff some label whose name ends with k has value v (k without comma, v without quote) |
| Labels.SuffixFound | services/query-exporter/main.go:602-606 | Without any assumption on the labels, an entry with the wanted label is never missed |
| Labels.SubstringTestExact | services/query-exporter/main.go:602-606 | If no other label name ends with k, the test is exact |
| Cartesian.IncrementIndexes | services/query-exporter/utils/utils.go:160-174 | In place: adds exactly 1 to the little-endian mixed-radix value and returns true iff it reached the product of the sizes |
| Cartesian.LabelsCartesian | services/query-exporter/utils/utils.go:112-129 | Terminates with product-many maps, the k-th picking by the mixed-radix digits of k |
| Cartesian.KthCombination | services/query-exporter/utils/utils.go:112-129 | In plain arithmetic: in the k-th map label i (ascending) takes its value number (k / product of the sizes before i) mod its size |
| Cartesian.ProductIsComplete | services/query-exporter/utils/utils.go:112-129 | The result contains a map iff it is a combination of expected values |
| Cartesian.ProductIsDistinct | services/query-exporter/utils/utils.go:112-129 | Each combination once, if no label repeats a value |
| Cartesian.ValueInjective | services/query-exporter/utils/utils.go:160-174 | A number has only one representation by digits below the sizes |
| Cartesian.MetricConfig.CheckExpectedLabels | services/query-exporter/config/config.go:278-293 | True iff every item has as many entries as there are labels and a non-empty list for each label |
| Cartesian.MetricConfig.Validate | services/query-exporter/config/config.go:178-181 | Afterwards every item is accepted; accepted configurations are left alone |
| Cartesian.AcceptedIsEnumerable | services/query-exporter/config/config.go:278-293 | With distinct, non-empty labels every accepted item meets the needs of the enumeration |
| Cartesian.AcceptedIff | services/query-exporter/config/config.go:278-293 | For distinct labels: accepted iff the item has exactly these labels and a value for each |
| Cartesian.ValidationProtects | services/query-exporter/config/config.go:278-293 | The validation protects the enumeration exactly for distinct, non-empty labels |
| Gauges.UpdateGauge | services/query-exporter/main.go:438-476 | One row for one gauge: series set to the parsed or default value, index extended, key marked updated |
| Gauges.UpdateByRow | services/query-exporter/main.go:422-517 | One row feeds every gauge of the query, once each even if listed twice |
| Gauges.ResetNotUpdated | services/query-exporter/main.go:639-674 | Every tracked series that was not updated gets the default chosen by the success flag |
| Gauges.Exporter.ExecuteQuery | services/query-exporter/main.go:344-420 | One execution of a static query over all database answers: its gauges go through Executed, the others do not change |
| Gauges.Exporter.Unregister | services/query-exporter/main.go:595-610 | A removed database: index entries go by substring, series by label |
| GaugeLaws.ExecutionIndexed | services/query-exporter/main.go:438-476 | An execution keeps every exported series in the index |
| GaugeLaws.ExecutionIsFresh | services/query-exporter/main.go:639-674 | After an execution every series of the query's gauges holds the value of the last row for it, or else the reset value for the query's outcome |
| GaugeLaws.ExecutionExportsTracked | services/query-exporter/main.go:645-673 | After an execution exactly the series tracked before or written by a row are exported |
| GaugeLaws.RemovalIndexed | services/query-exporter/main.go:595-610 | Removal drops an index entry exactly with its series |
| GaugeLaws.RemovalIsSoundIff | services/query-exporter/main.go:595-610 | Removal forgets a series that stays exported iff some exported series holds the name in another label whose name ends in "datname" |
| GaugeLaws.RemovalForgets | services/query-exporter/main.go:602-606 | A concrete store with an "olddatname" label on which that happens |
| GaugeLaws.RunIndexed | services/query-exporter/main.go:344-624 | Over any run of executions and removals every exported series stays in the index |
| GaugeLaws.RunIsFresh | services/query-exporter/main.go:344-674 | After any run, the query executed last leaves only values of its own in its gauges |
| GaugeReadings.FeedsOne | services/query-exporter/main.go:431-437 | A row feeds exactly one series: label values are the upper-case columns ("" if missing), the other labels are the omnipresent ones |
| GaugeReadings.RunReadsFresh | services/query-exporter/main.go:344-674 | After any run, each series of the query executed last reads the parsed value of the last row that feeds it, the unparsable default if it does not parse; without such a row the missing default if no answer failed, else the failed default; gauges of other queries are as before |
| GaugeReadings.ExportedIff | services/query-exporter/main.go:645-673 | Exported after an execution: what was tracked before and what a row feeds |
| GaugeReadings.RemovalReads | services/query-exporter/main.go:595-610 | A removed database takes exactly the series whose "datname" it is |
| GaugeStartup.InitMetricState | services/query-exporter/main.go:219-241 | At startup exactly the expected combinations are tracked, under canonical keys |
| GaugeStartup.StartsIndexed | services/query-exporter/main.go:219-241 | So a gauge starts indexed |
| GaugeStartup.IsExpectedIff | services/query-exporter/main.go:229-236 | On the fields: the expected combinations are those of some item, overlaid with the omnipresent labels |
| GaugeStartup.StartExporter | services/query-exporter/main.go:219-241 | The exporter starts with nothing exported and, for every gauge, exactly the expected combinations tracked |
| GaugeStartup.StartedRunIndexed | services/query-exporter/main.go:219-624 | From that start, over any run of executions and removals, every exported series is tracked |
| Histogram.CustomHistogram.Observe | services/query-exporter/collectors/histogram.go:69-102 | Merges one observation into its key, with uint64 wrap-around, and publishes the new state with its label values; published entries keep the keys and counts of the state |
| Histogram.CustomHistogram.DeletePartialMatch | services/query-exporter/collectors/histogram.go:104-132 | Removes exactly the keys that contain all wanted labels, from state and published entries alike |
| Histogram.RunSummarizes | services/query-exporter/collectors/histogram.go:86-91 | Over any run of observations and deletions every count is the sum since the key's last deletion (as uint64), and a key exists iff it was observed since then |
| Histogram.RunReplaces | services/query-exporter/collectors/histogram.go:92-98 | Without summing, a key shows its latest observation |
| Histogram.RunPublishes | services/query-exporter/collectors/histogram.go:69-132 | Over any run of calls: exactly the keys of the state are published, each with its counts and with the label values of its last observation, in the order of the label keys, "" for a missing label |
| Histogram.CallsAreEvents | services/query-exporter/collectors/histogram.go:69-132 | The state of such a run is the one the laws on events speak of |
| Histogram.RunKeepsShape | services/query-exporter/main.go:487-510 | Over any run with fixed bounds per key and cumulative observations: bounds and "+Inf bucket equals count" always hold, even when counts wrap; the histogram is cumulative, in summing mode iff the wrapped sums are in order, and so whenever the total fits a uint64 |
| Histogram.OverflowBreaksShape | services/query-exporter/collectors/histogram.go:86-91 | Two well-formed observations whose wrapped sum is not cumulative |
| Histogram.SumsIgnoreOrder | services/query-exporter/collectors/histogram.go:86-91 | The sums do not depend on the order of the observations |
| Histogram.DeletionIsExact | services/query-exporter/collectors/histogram.go:113-125 | If no other label name ends in a wanted name, deletion hits exactly the series carrying all wanted labels |
| CircuitBreaker.SkipQuery | services/query-exporter/main.go:783-826 | A query is skipped iff it is excluded, master-only elsewhere, long-running, or not meant for the database |
| CircuitBreaker.Breaker.HandleTimeoutFail | services/query-exporter/dbservice/dbservice.go:176-190 | A timeout counts up to the limit and then lists the query |
| CircuitBreaker.Breaker.Attempt | services/query-exporter/main.go:376-391 | A query runs iff it is not skipped; only a timeout of a run changes the breaker |
| CircuitBreaker.RunCounts | services/query-exporter/dbservice/dbservice.go:156-190 | Over any run: at most M + 1 timeouts, stored count min(timeouts, M), listed iff timed out M + 1 times, and then once |
| CircuitBreaker.ListedForEver | services/query-exporter/main.go:794-804 | A listed query is skipped for every database in every later state |
| CircuitBreaker.OthersUnaffected | services/query-exporter/dbservice/dbservice.go:176-190 | No event of one query changes count, listing or skipping of another |
| CircuitBreaker.RunsIff | services/query-exporter/main.go:783-826 | On the fields: when a query runs against a database |
| CircuitBreaker.RunsUntilTripped | services/query-exporter/dbservice/dbservice.go:156-190 | A query for all databases that always times out runs in exactly the first M + 1 rounds |
| PvcAnnotations.Pvc.PrepareCustomAnnotations | operator/pkg/helper/resource_management.go:1172-1192 | Adds the tracking annotation listing the sorted custom keys, if there are any |
| PvcAnnotations.Pvc.ReconcileCustomAnnotations | operator/pkg/helper/resource_management.go:1194-1251 | The new annotations, and the flag: something was dropped or something differs |
| PvcAnnotationLaws.NamesOfList | operator/pkg/helper/resource_management.go:1199-1206 | Reading the tracking text back returns the keys it was made from |
| PvcAnnotationLaws.RunReconciles | operator/pkg/helper/resource_management.go:1194-1251 | Over any sequence of wanted annotations with clean keys: never-managed keys keep their original state, once-managed unwanted keys are gone, the latest keys read as wanted |
| PvcAnnotationLaws.FlagIsHonest | operator/pkg/helper/resource_management.go:1194-1251 | With clean keys the flag is true iff the annotations changed |
| PvcAnnotationLaws.CleanIsQuiet | operator/pkg/helper/resource_management.go:1194-1251 | With clean keys a second call reports no change |
| PvcAnnotationLaws.SecondCallIsQuiet | operator/pkg/helper/resource_management.go:1194-1251 | For any keys: a second call is quiet iff every comma-separated, trimmed part of a wanted key is itself wanted |
| PvcAnnotationLaws.CommaKeyNeverSettles | operator/pkg/helper/resource_management.go:1200-1214 | A key with a comma makes every call report a change that is none |
| PvcAnnotationLaws.TrackingText | operator/pkg/helper/resource_management.go:1172-1192 | The text and the name of the tracking annotation for two keys; none without keys |
| PvcResize.Cluster.CreateOrResizePvc | operator/pkg/helper/resource_management.go:516-667 | Result and new claims for every answer of the API server: create, grow, refuse to shrink, refuse on a job conflict; an error changes nothing |
| PvcResize.RequestsGrow | operator/pkg/helper/resource_management.go:619-667 | Over any sequence of calls no request shrinks and no claim disappears |
| PvcResize.SuccessMeetsRequest | operator/pkg/helper/resource_management.go:619-667 | After success the request is as wanted; "not in progress" means capacity unknown or sufficient |
| PvcResizeLaws.CallFailsIff | operator/pkg/helper/resource_management.go:516-667 | On the fields: when a call fails; a claim that the job shrank from the wanted size is refused, a shrinking request too, and a failing update matters only if something has to change |
| PvcResizeLaws.OnlyThisClaim | operator/pkg/helper/resource_management.go:582-667 | A failing call changes nothing, and no call changes another claim |
| PvcResizeLaws.SizeAfter | operator/pkg/helper/resource_management.go:619-667 | After success: wanted request, no owner, same capacity; growth is reported iff the request was raised or a known capacity is below it |
| PvcResizeLaws.AnnotationsAfter | operator/pkg/helper/resource_management.go:540-543 | After success annotations read as wanted, the mark of the job is gone unless wanted, formerly tracked ones are gone, foreign ones untouched |
| PvcResizeLaws.MarkStaysAway | operator/pkg/helper/resource_management.go:516-667 | Over any run of calls the mark does not come back |
| PvcResize.WaitForPvcResizeState | operator/pkg/helper/resource_management.go:1290-1328 | Succeeds iff some poll settles the question before a failed one; no restart required means sufficient capacity was seen |
| PvcResize.WaitForPvcCapacity | operator/pkg/helper/resource_management.go:1330-1377 | True iff sufficient capacity was seen before the deadline |
| PvcResize.SwitchoverIfMaster | operator/pkg/reconciler/patroni.go:631-697 | Succeeds iff another pod is the only master, at once or after a hand-over |
| PvcResize.ResizeAll | operator/pkg/reconciler/patroni.go:548-557 | Succeeds iff no call fails, and then collects exactly the claims in progress |
| PvcResize.RestartNeeded | operator/pkg/reconciler/patroni.go:559-574 | Succeeds iff the state of every growing claim became known; asks for a restart iff one needs it |
| PvcResize.RestartLoop | operator/pkg/reconciler/patroni.go:588-629 | Succeeds iff some attempt begins in time and everything is seen grown after it; never more than six restarts |
| PvcResize.SixIsTight | operator/pkg/reconciler/patroni.go:588-606 | Without extra time the sixth attempt begins at 310 s and the seventh would begin at 630 s |
| PvcResizeLaws.AttemptBeginsIff | operator/pkg/reconciler/patroni.go:583-606 | In seconds: an attempt begins iff 10*(2^(k-1) - 1) plus the other time spent is below 600 |
| PvcResizeLaws.AttemptSucceedsIff | operator/pkg/reconciler/patroni.go:588-629 | On the polls: which attempt ends the restarts |
| PvcResizeLaws.StateKnownIff | operator/pkg/helper/resource_management.go:1290-1328 | On the polls: when the state of a claim is known and when it needs a restart |
| PvcResizeLaws.HandsOverIff | operator/pkg/reconciler/patroni.go:631-697 | On the pods: when a hand-over succeeds |
| PvcResize.ProcessPatroniPvcResize | operator/pkg/reconciler/patroni.go:544-629 | Succeeds iff no call fails, the state of every growing claim becomes known, and no restart is needed or the pod hands over and some attempt sees everything grown; success means every claim in progress was seen with at least the wanted capacity; at most six restarts, none before another pod was seen as the only master |
| PvcResize.DaemonRestartLoop | operator/pkg/reconciler/backup_daemon.go:279-337 | Succeeds iff some attempt gets through before the deadline and growth is seen after it; at most five re-creations |
| PvcResizeLaws.DaemonAttemptIff | operator/pkg/reconciler/backup_daemon.go:279-337 | In seconds: when the daemon gets through an attempt |
| PvcResizeLaws.DaemonSucceedsIff | operator/pkg/reconciler/backup_daemon.go:279-337 | On the polls and in seconds: which attempt ends the daemon's restarts |
| CollationWaves.RunInv | operator/pkg/reconciler/patroni.go:751-793 | The invariant of every reachable state: wave bookkeeping, wait group, and where each reported error is |
| CollationWaves.AtMostTenInFlight | operator/pkg/reconciler/patroni.go:753-764 | At most 10 workers are active in every state of every interleaving |
| CollationWaves.TenAtOnce | operator/pkg/reconciler/patroni.go:753-764 | With ten databases or more, ten active workers are reached |
| CollationWaves.WavesOfTen | operator/pkg/reconciler/patroni.go:753-764 | The loop pauses only after every tenth start or the last one, and goes on only when all complete waves have finished |
| CollationWaves.SendNeverBlocks | operator/pkg/reconciler/patroni.go:751-793 | A worker that reports an error always finds room in the channel |
| CollationWaves.StartedInOrder | operator/pkg/reconciler/patroni.go:755-763 | Databases start in order, each at most once |
| CollationWaves.ReturnIsFaithful | operator/pkg/reconciler/patroni.go:764-779 | On return every database was started exactly once and has finished, and the result is nil iff no worker failed |
| CollationWaves.NilIffNoneFailed | operator/pkg/reconciler/patroni.go:782-830 | The result is nil iff in the schedule the statements of no database failed |
| CollationWaves.NeverStuck | operator/pkg/reconciler/patroni.go:751-779 | Until it returns, some step is possible |
| CollationWaves.RunsAreFinite | operator/pkg/reconciler/patroni.go:751-779 | Every schedule for n databases has at most 6n + 3 steps |
| IgnoredSlots.Scheduler.Tick | operator/pkg/scheduler/slots.go:40-66 | One tick: new cache, new configuration and outcome for every answer of the database and of Patroni |
| IgnoredSlots.NewSlots | operator/pkg/scheduler/slots.go:125-138 | The slots whose names are not cached, in order |
| IgnoredSlots.TickCovers | operator/pkg/scheduler/slots.go:40-66 | Cached names stay distinct; after a successful tick they cover all current prefixed slots |
| IgnoredSlots.SecondTickIsExact | operator/pkg/scheduler/slots.go:40-66 | Two successful ticks over the same slot names leave exactly those names cached |
| IgnoredSlots.TickOnFields | operator/pkg/scheduler/slots.go:40-138 | What a tick caches was cached or is a row named "cdc_rs_..."; on success all of these are cached; on failure nothing changes |
| IgnoredSlots.TickFailsIff | operator/pkg/scheduler/slots.go:40-66 | A tick fails iff the query fails or Patroni refuses a list that has to be written |
| IgnoredSlots.SecondTickOnFields | operator/pkg/scheduler/slots.go:40-66 | After two successful ticks over the same rows exactly the names "cdc_rs_..." are cached |
| IgnoredSlots.RunKeeps | operator/pkg/scheduler/slots.go:40-138 | Over any run, failures included, names stay distinct and Patroni ignores exactly the cached slots unless the cache is empty |
| IgnoredSlots.RunPartsIff | operator/pkg/scheduler/slots.go:40-138 | Over any run that starts with equal lists: Patroni's list differs from the cache iff the cache was emptied by an empty answer and every tick since then failed, saw no slot or could not patch |
| IgnoredSlots.LastSlotStaysInConfig | operator/pkg/scheduler/slots.go:109-112 | The smallest case: the only slot disappears |
| StandbyHealth.WaitForClusterHealthy | operator/pkg/disasterrecovery/patroni.go:121-155 | Ends within F*R checks; healthy iff the last R checks were healthy before F failures, and unhealthy only if no such moment exists at all |
| StandbyHealth.ProcessStandByMode | operator/pkg/disasterrecovery/patroni.go:157-183 | Errs iff a step breaks; done iff none breaks and a healthy window was seen |
| StandbyHealth.PollStandBy | operator/pkg/disasterrecovery/patroni.go:199-204 | Succeeds iff some try sees the window and nothing broke up to it |
| StandbyHealth.DoneAtIff | operator/pkg/disasterrecovery/patroni.go:121-204 | On the answers: when a try ends the poll well |
| StandbyHealth.SiteManager.ChangeToStandby | operator/pkg/disasterrecovery/patroni.go:185-231 | Writes "done" exactly if the window was seen, the mode still matches and the write works |
| StandbyHealth.SiteManager.ProcessStandbyRequest | operator/pkg/disasterrecovery/patroni.go:82-90 | A running standby request ends as "done" iff the window was seen and could be recorded, else as "failed" |
| UpgradeReadOnly.UniqueLogicalDatabases | operator/pkg/upgrade/replication.go:78-92 | The databases of the logical slots, each once, none empty |
| UpgradeReadOnly.Upgrade.PrepareRODatabases | operator/pkg/upgrade/replication.go:94-106 | Fails iff a statement fails; exactly the databases up to there are read-only |
| UpgradeReadOnly.Upgrade.HandleReplicationSlots | operator/pkg/upgrade/replication.go:145-184 | Outcome and new state (Prepared) for every pattern of answers |
| UpgradeReadOnly.RecordIsExact | operator/pkg/upgrade/replication.go:165-173 | Whenever the record is saved it lists exactly the databases made read-only, the logical slots' ones, each once, whether or not the lag vanishes |
| UpgradeReadOnly.LaggingSlotStops | operator/pkg/upgrade/replication.go:145-163 | Unreadable slots, or an inactive slot with lag, and nothing is done |
| UpgradeReadOnly.PreparesLogical | operator/pkg/upgrade/replication.go:78-184 | Without failures exactly the databases of logical slots become read-only; a record is saved iff there is one |
| UpgradeReadOnly.MadeReadOnlyIff | operator/pkg/upgrade/replication.go:94-106 | Which databases are read-only after a failing statement |
| UpgradeReadOnly.PrepareFailsIff | operator/pkg/upgrade/replication.go:94-106 | A preparation fails iff one of its statements does |
| UpgradeReadOnly.Upgrade.RestoreRODatabases | operator/pkg/upgrade/replication.go:186-222 | New state and outcome for every pattern of failures |
| UpgradeReadOnly.RecordRoundTrip | operator/pkg/upgrade/replication.go:119-209 | The record reads back as the saved list iff no name holds a comma |
| UpgradeReadOnly.RestoresConverge | operator/pkg/upgrade/replication.go:200-222 | Over any number of failing and repeated restores the record is gone iff one restore went through, and then all recorded databases are writable |
| UpgradeReadOnly.RestoreSucceedsIff | operator/pkg/upgrade/replication.go:186-222 | A restore goes through iff the record can be read and deleted and no statement fails |
| UpgradeReadOnly.ProtocolRestores | operator/pkg/upgrade/replication.go:145-222 | After a preparation that saved its record and a restore that reports success, the record is gone, and all that was made read-only is writable iff no name holds a comma |
| UpgradeReadOnly.StrandedIff | operator/pkg/upgrade/replication.go:165-173 | A preparation leaves a read-only database without a record iff its first statement worked and preparing or saving failed later |
| UpgradeReadOnly.AllWritableIff | operator/pkg/upgrade/replication.go:112-222 | After any preparations, failing or not, and a restore that goes through: all they made read-only is writable iff the last saved record lists all of it |
| UpgradeReadOnly.SecondPreparationForgets | operator/pkg/upgrade/replication.go:112-126 | Two saved preparations and a restore: the first one's databases are writable iff the second record lists them too |
| UpgradeReadOnly.SecondPreparationStrands | operator/pkg/upgrade/replication.go:112-126 | Two smooth preparations and a restore after which a database stays read-only without a record |
| UpgradeReadOnly.CommaBreaksRecord | operator/pkg/upgrade/replication.go:119 | A comma in a name makes the record name other databases |
| ReconcileRetry.Reconciler.Reconcile | operator/controllers/postgresservice_controller.go:124-289 | Whether the cycle runs, the new counter, hash, versions and condition, and the reply, for every outcome, a failed read and a tests-only resource included |
| ReconcileRetry.Reconciler.HandleReconcileError | operator/controllers/postgresservice_controller.go:291-300 | Counts the error and asks to come back, or stops and resets the counter at the limit |
| ReconcileRetry.CounterIsBounded | operator/controllers/postgresservice_controller.go:291-300 | Between calls the counter is below max(1, N), whatever the calls meet |
| ReconcileRetry.BoundedRetryThenQuiet | operator/controllers/postgresservice_controller.go:148-300 | From any state, with e errors already counted: once a spec is taken up and keeps failing with unchanged credentials, the cycle runs in exactly the first max(1, N) - e calls, and every later call is a skip |
| ReconcileRetry.NewSpecRuns | operator/controllers/postgresservice_controller.go:148-166 | A new spec is always taken up |
| ReconcileRetry.RetriedIff | operator/controllers/postgresservice_controller.go:148-300 | After a call that started, the same spec is tried again iff the cycle failed with attempts left and the failure was recorded (or test pods could not be created amid such retries) |
| ReconcileRetry.SilentForEver | operator/controllers/postgresservice_controller.go:148-300 | What the next call does not retry no later call retries, unless errors are still counted and a failed read is recorded |
| ReconcileRetry.BadReadRevives | operator/controllers/postgresservice_controller.go:131-139 | That exception is real |
| ReconcileRetry.FailuresThatSilence | operator/controllers/postgresservice_controller.go:174-277 | Not retried: a password that cannot be set (the cycle has not even run), a step failing after the cycle, a failure that cannot be recorded; the last two ask for a retry in vain |
| ReconcileRetry.SkipsIff | operator/controllers/postgresservice_controller.go:148-166 | On the fields: when a call is a skip |
| ReconcileRetry.SuccessThenSkips | operator/controllers/postgresservice_controller.go:148-166 | After a success the same version and the same spec are skipped |
| ReconcileRetry.SuccessRestoresAttempts | operator/controllers/postgresservice_controller.go:279-281 | After a success the next spec has its full max(1, N) attempts again |
| ReconcileRetry.RepliesOnFields | operator/controllers/postgresservice_controller.go:124-300 | When an error is returned and when a retry after a minute is asked for |
| ReconcileRetry.AfterOnFields | operator/controllers/postgresservice_controller.go:124-300 | The state after any call, field by field |
| PgParams.PatroniCore.GetPostgreSQLParam | operator/pkg/reconciler/patroni.go:1206-1219 | The first entry with the key decides |
| PgParams.PatroniCore.EnsurePostgreSQLParam | operator/pkg/reconciler/patroni.go:1233-1244 | Replaces the first entry with the key, or appends one |
| PgParams.PatroniCore.BuildParameters | operator/pkg/patroni/patroni.go:399-408 | The map built from the entries |
| PgParams.EnsureThenGet | operator/pkg/reconciler/patroni.go:1206-1244 | What was ensured is read back iff the key is trimmed without '=' and ':' and the value is trimmed without '=' |
| PgParams.EnsureKeepsOthers | operator/pkg/reconciler/patroni.go:1233-1244 | Every other key keeps its previous answer |
| PgParams.ReaderMeetsBuilder | operator/pkg/patroni/patroni.go:399-408 | For any list: reader and map agree on every key iff, for each key, the first entry is read as the last one is stored |
| PgParams.UniqueKeysAgreeIff | operator/pkg/patroni/patroni.go:399-408 | With unique keys: iff every entry has a separator or is blank |
| PgParams.RepeatedKeyDisagrees | operator/pkg/patroni/patroni.go:399-408 | With a repeated key the reader takes the first entry and the map the last |
| PgParams.ReadsEquals | operator/pkg/reconciler/patroni.go:1206-1219 | How "key=value" is read and stored |
| PgParams.ReadsColon | operator/pkg/reconciler/patroni.go:1206-1219 | How "key:value" is read and stored |
| PgParams.ReadsColonEquals | operator/pkg/reconciler/patroni.go:1206-1219 | In "key:value" the first '=' of the value is read as ':' |
| PgParams.ReadsBare | operator/pkg/patroni/patroni.go:399-408 | How an entry without a separator is read and stored |
| PgParams.EnsuredText | operator/pkg/reconciler/patroni.go:1233-1244 | The text "key: value" replaces the first entry with the key or is appended |

## Left out

- Eviction.Evict: takes parsed rules and integer times; rule texts and the rounding of float division are not modelled. The order of evicted items with equal times, which Python leaves to set order, is fixed.
- PolicySweep.SweepByPolicy: takes creation dates as a function of the backup id; a deletion either removes a backup or stops the sweep.
- GranularSweep.Namespace.SweepByKeep: a deletion either removes a backup or stops the sweep; half-deleted directories are not modelled.
- Gauges.Exporter.ExecuteQuery: a whole execution is one step; concurrent scrapes, counters, and panics inside the client library are not modelled. ToUpper and ParseFloat are parameters.
- Cartesian.LabelsCartesian: indexes are unbounded integers, so the int64 overflow of the capacity hint for gigantic products is not modelled.
- Histogram.CustomHistogram.Observe: sums are reals, not float64.
- CollationWaves.RunInv: the statements of one worker are one step with an arbitrary outcome; the wait group has no other user.
- ReconcileRetry.Reconciler.Reconcile: the reason and message written with a condition are not modelled; the limit is fixed while the operator runs.
- StandbyHealth.WaitForClusterHealthy: limits are natural numbers; with a negative limit the source may wait for ever.
- Dynamic metrics, whose gauges are registered at run time.
- The S3 branches of the sweepers.
- The modes "active" and "disabled", and managed Cloud SQL.
- Kubernetes object builders, the Patroni and DBaaS adapters, scheduling, encryption and logging: no decision logic beyond field by field construction.
