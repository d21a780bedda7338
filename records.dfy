/**
 * Turning job-history records into statistics tables: the switch over history keys that
 * populate_Job and populate_MapReduceTaskLists run once per entry, the search for a
 * task's successful attempt, and the statistics of one map or reduce task.
 *
 * JobHistory's key-value records are maps from history key to string. Java iterates them
 * in an unspecified order; the loops below pick the next entry with `:|`, and the result
 * is the same whatever the order, because the history keys a table copies and the
 * counters it parses fill different keys.
 */
module Records {
  import opened Wrappers
  import opened Decimal
  import opened StatKeys
  import opened Counters

  /** The values of a JobInfo, Task or TaskAttempt record. */
  type Values = map<HistoryKey, string>

  /** A task of the job history: its values, and its attempts in iteration order. */
  datatype Task = Task(values: Values, attempts: seq<Values>)

  // ---------------------------------------------------------------------------
  // One switch, three tables
  // ---------------------------------------------------------------------------

  /** Each copied history key goes to a key of its own. */
  ghost predicate Injective<K>(keyOf: HistoryKey -> Option<K>)
  {
    forall h1, h2 :: keyOf(h1).Some? && keyOf(h1) == keyOf(h2) ==> h1 == h2
  }

  /**
   * The shape every switch has: each copied history key goes to a key of its own,
   * COUNTERS is parsed rather than copied, and the keys parsed out of the counters are
   * never the target of a copied history key.
   */
  ghost predicate Schema<K>(keyOf: HistoryKey -> Option<K>, counterKeyOf: string -> Option<K>)
  {
    && keyOf(COUNTERS).None?
    && Injective(keyOf)
    && (forall h, n :: keyOf(h).Some? ==> keyOf(h) != counterKeyOf(n))
  }

  /** Some history key of a non-empty set: the one a visit of the set would take next. */
  ghost function Pick(s: set<HistoryKey>): (h: HistoryKey)
    requires s != {}
    ensures h in s
  {
    var h :| h in s; h
  }

  /** The entries the switch copies out of the history keys in done. */
  ghost function Direct<K>(values: Values, done: set<HistoryKey>, keyOf: HistoryKey -> Option<K>): map<K, string>
    decreases done
  {
    if done == {} then map[]
    else
      var h := Pick(done);
      var rest := Direct(values, done - {h}, keyOf);
      if h in values && keyOf(h).Some? then rest[keyOf(h).value := values[h]] else rest
  }

  /** Every copied entry comes from a visited history key. */
  lemma {:induction false} DirectSource<K>(values: Values, done: set<HistoryKey>, keyOf: HistoryKey -> Option<K>, k: K)
    returns (source: HistoryKey)
    requires k in Direct(values, done, keyOf)
    ensures source in values && source in done && keyOf(source) == Some(k)
    decreases done
  {
    var g := Pick(done);
    if g in values && keyOf(g) == Some(k) {
      source := g;
    } else {
      source := DirectSource(values, done - {g}, keyOf, k);
    }
  }

  /** The counters of values, once the COUNTERS entry is in done. */
  ghost function Parsed<K>(values: Values, done: set<HistoryKey>, counterKeyOf: string -> Option<K>): map<K, string>
    requires COUNTERS in values ==> ReadableCounters(values[COUNTERS], counterKeyOf)
  {
    if COUNTERS in values && COUNTERS in done then CounterUpdates(Tuples(values[COUNTERS]), counterKeyOf)
    else map[]
  }

  /** Everything the switch writes after visiting the history keys in done. */
  ghost function Record<K>(values: Values, done: set<HistoryKey>, keyOf: HistoryKey -> Option<K>,
                           counterKeyOf: string -> Option<K>): map<K, string>
    requires Schema(keyOf, counterKeyOf)
    requires COUNTERS in values ==> ReadableCounters(values[COUNTERS], counterKeyOf)
  {
    Direct(values, done, keyOf) + Parsed(values, done, counterKeyOf)
  }

  /** A key some history key is copied to is never filled from the counters. */
  lemma CopiedNotParsed<K>(values: Values, done: set<HistoryKey>, keyOf: HistoryKey -> Option<K>,
                           counterKeyOf: string -> Option<K>, h: HistoryKey, k: K)
    requires Schema(keyOf, counterKeyOf)
    requires COUNTERS in values ==> ReadableCounters(values[COUNTERS], counterKeyOf)
    requires keyOf(h) == Some(k)
    ensures k !in Parsed(values, done, counterKeyOf)
  {
    if COUNTERS in values && COUNTERS in done {
      CounterUpdatesKeys(Tuples(values[COUNTERS]), counterKeyOf, k);
    }
  }

  /** The copied entries: each key holds the value of the one history key copied to it. */
  lemma {:induction false} DirectEntries<K>(values: Values, done: set<HistoryKey>, keyOf: HistoryKey -> Option<K>, h: HistoryKey, k: K)
    requires Injective(keyOf)
    requires keyOf(h) == Some(k)
    ensures k in Direct(values, done, keyOf) <==> h in values && h in done
    ensures k in Direct(values, done, keyOf) ==> Direct(values, done, keyOf)[k] == values[h]
    decreases done
  {
    if done != {} {
      var g := Pick(done);
      DirectEntries(values, done - {g}, keyOf, h, k);
      if keyOf(g) == Some(k) {
        assert g == h;
      }
    }
  }

  lemma MapsEqual<K, V>(a: map<K, V>, b: map<K, V>)
    requires forall x :: (x in a <==> x in b) && (x in a ==> a[x] == b[x])
    ensures a == b
  {
  }

  /** Visiting a copied history key adds exactly its entry. */
  lemma DirectStep<K>(values: Values, done: set<HistoryKey>, keyOf: HistoryKey -> Option<K>, h: HistoryKey, k: K)
    requires Injective(keyOf)
    requires h in values && keyOf(h) == Some(k)
    ensures Direct(values, done + {h}, keyOf) == Direct(values, done, keyOf)[k := values[h]]
  {
    var a := Direct(values, done + {h}, keyOf);
    var b := Direct(values, done, keyOf)[k := values[h]];
    forall x
      ensures (x in a <==> x in b) && (x in a ==> a[x] == b[x])
    {
      DirectStepAt(values, done, keyOf, h, k, x);
    }
    MapsEqual(a, b);
  }

  lemma DirectStepAt<K>(values: Values, done: set<HistoryKey>, keyOf: HistoryKey -> Option<K>, h: HistoryKey, k: K, x: K)
    requires Injective(keyOf)
    requires h in values && keyOf(h) == Some(k)
    ensures x in Direct(values, done + {h}, keyOf) <==> x in Direct(values, done, keyOf)[k := values[h]]
    ensures x in Direct(values, done + {h}, keyOf) ==>
              Direct(values, done + {h}, keyOf)[x] == Direct(values, done, keyOf)[k := values[h]][x]
  {
    if x == k {
      DirectEntries(values, done + {h}, keyOf, h, k);
    } else {
      DirectStepOther(values, done, keyOf, h, x);
      DirectStepOld(values, done, keyOf, h, x);
    }
  }

  /** An entry after the visit of h that h does not fill was there before, unchanged. */
  lemma DirectStepOther<K>(values: Values, done: set<HistoryKey>, keyOf: HistoryKey -> Option<K>, h: HistoryKey, x: K)
    requires Injective(keyOf)
    requires keyOf(h) != Some(x)
    ensures x in Direct(values, done + {h}, keyOf) ==>
              x in Direct(values, done, keyOf) && Direct(values, done + {h}, keyOf)[x] == Direct(values, done, keyOf)[x]
  {
    if x in Direct(values, done + {h}, keyOf) {
      var g := DirectSource(values, done + {h}, keyOf, x);
      assert g != h && g in done;
      DirectEntries(values, done + {h}, keyOf, g, x);
      DirectEntries(values, done, keyOf, g, x);
    }
  }

  /** An entry before the visit of h is still there after it. */
  lemma DirectStepOld<K>(values: Values, done: set<HistoryKey>, keyOf: HistoryKey -> Option<K>, h: HistoryKey, x: K)
    requires Injective(keyOf)
    ensures x in Direct(values, done, keyOf) ==> x in Direct(values, done + {h}, keyOf)
  {
    if x in Direct(values, done, keyOf) {
      var g := DirectSource(values, done, keyOf, x);
      DirectEntries(values, done + {h}, keyOf, g, x);
    }
  }

  /** Visiting a history key the switch skips changes nothing. */
  lemma DirectSkip<K>(values: Values, done: set<HistoryKey>, keyOf: HistoryKey -> Option<K>, h: HistoryKey)
    requires Injective(keyOf)
    requires keyOf(h).None?
    ensures Direct(values, done + {h}, keyOf) == Direct(values, done, keyOf)
  {
    var a := Direct(values, done + {h}, keyOf);
    var b := Direct(values, done, keyOf);
    forall x | x in a
      ensures x in b && a[x] == b[x]
    {
      var h' := DirectSource(values, done + {h}, keyOf, x);
      DirectEntries(values, done + {h}, keyOf, h', x);
      DirectEntries(values, done, keyOf, h', x);
    }
    forall x | x in b
      ensures x in a
    {
      var h' := DirectSource(values, done, keyOf, x);
      DirectEntries(values, done + {h}, keyOf, h', x);
    }
    assert a.Keys == b.Keys;
  }

  lemma UpdateMerged<K, V>(target: map<K, V>, m: map<K, V>, k: K, v: V)
    ensures (target + m)[k := v] == target + m[k := v]
  {
  }

  lemma MergeAssociative<K, V>(a: map<K, V>, b: map<K, V>, c: map<K, V>)
    ensures (a + b) + c == a + (b + c)
  {
  }

  /** What a table holds after the switch: each entry comes from exactly one source. */
  lemma {:induction false} RecordEntries<K>(values: Values, keyOf: HistoryKey -> Option<K>,
                                            counterKeyOf: string -> Option<K>, h: HistoryKey, k: K)
    requires Schema(keyOf, counterKeyOf)
    requires COUNTERS in values ==> ReadableCounters(values[COUNTERS], counterKeyOf)
    ensures h in values && keyOf(h) == Some(k) ==>
              k in Record(values, values.Keys, keyOf, counterKeyOf)
              && Record(values, values.Keys, keyOf, counterKeyOf)[k] == values[h]
    ensures k in Record(values, values.Keys, keyOf, counterKeyOf) <==>
              (exists h' :: h' in values && keyOf(h') == Some(k))
              || (COUNTERS in values && k in CounterUpdates(Tuples(values[COUNTERS]), counterKeyOf))
  {
    if h in values && keyOf(h) == Some(k) {
      DirectEntries(values, values.Keys, keyOf, h, k);
      CopiedNotParsed(values, values.Keys, keyOf, counterKeyOf, h, k);
    }
    if k in Direct(values, values.Keys, keyOf) {
      var source := DirectSource(values, values.Keys, keyOf, k);
      assert source in values && keyOf(source) == Some(k);
    }
    if exists h' :: h' in values && keyOf(h') == Some(k) {
      var h' :| h' in values && keyOf(h') == Some(k);
      DirectEntries(values, values.Keys, keyOf, h', k);
    }
  }

  /**
   * The switch of populate_Job and of the two task loops: visits every entry of values
   * in some order, copies a listed history key into the table, parses COUNTERS into it
   * and skips the rest. counted tells whether COUNTERS was met, the point where a task's
   * statistics are added to its list.
   */
  method Populate<K>(target: map<K, string>, values: Values, keyOf: HistoryKey -> Option<K>,
                     counterKeyOf: string -> Option<K>)
    returns (r: map<K, string>, counted: bool)
    requires Schema(keyOf, counterKeyOf)
    requires COUNTERS in values ==> ReadableCounters(values[COUNTERS], counterKeyOf)
    ensures r == target + Record(values, values.Keys, keyOf, counterKeyOf)
    ensures counted <==> COUNTERS in values
  {
    r := target;
    counted := false;
    var remaining := values.Keys;
    ghost var done: set<HistoryKey> := {};
    RecordOfNothing(target, values, keyOf, counterKeyOf);
    while remaining != {}
      invariant done <= values.Keys
      invariant forall x :: x in remaining <==> x in values && x !in done
      invariant r == target + Record(values, done, keyOf, counterKeyOf)
      invariant counted <==> COUNTERS in done
      decreases |remaining|
    {
      var h :| h in remaining;
      r := Visit(target, r, values, done, keyOf, counterKeyOf, h);
      counted := counted || h == COUNTERS;
      remaining := remaining - {h};
      done := done + {h};
    }
    assert done == values.Keys;
  }

  /** Before any key is visited the table is as it was. */
  lemma RecordOfNothing<K>(target: map<K, string>, values: Values, keyOf: HistoryKey -> Option<K>,
                           counterKeyOf: string -> Option<K>)
    requires Schema(keyOf, counterKeyOf)
    requires COUNTERS in values ==> ReadableCounters(values[COUNTERS], counterKeyOf)
    ensures target + Record(values, {}, keyOf, counterKeyOf) == target
  {
    assert Record(values, {}, keyOf, counterKeyOf) == map[];
  }

  /**
   * One turn of the switch: a listed history key is copied to its key, COUNTERS is
   * parsed into the table and any other key is skipped.
   */
  method Visit<K>(ghost target: map<K, string>, r: map<K, string>, values: Values, ghost done: set<HistoryKey>,
                  keyOf: HistoryKey -> Option<K>, counterKeyOf: string -> Option<K>, h: HistoryKey)
    returns (updated: map<K, string>)
    requires Schema(keyOf, counterKeyOf)
    requires COUNTERS in values ==> ReadableCounters(values[COUNTERS], counterKeyOf)
    requires h in values && h !in done
    requires r == target + Record(values, done, keyOf, counterKeyOf)
    ensures updated == target + Record(values, done + {h}, keyOf, counterKeyOf)
  {
    var value := values[h];
    match keyOf(h) {
      case Some(k) =>
        CopyStep(target, values, done, keyOf, counterKeyOf, h, k);
        updated := r[k := value];
      case None =>
        if h == COUNTERS {
          CounterStep(target, values, done, keyOf, counterKeyOf);
          updated := AddCounters(r, value, counterKeyOf);
        } else {
          SkipStep(values, done, keyOf, counterKeyOf, h);
          updated := r;
        }
    }
  }

  /** Visiting a copied history key updates its one entry. */
  lemma CopyStep<K>(target: map<K, string>, values: Values, done: set<HistoryKey>, keyOf: HistoryKey -> Option<K>,
                    counterKeyOf: string -> Option<K>, h: HistoryKey, k: K)
    requires Schema(keyOf, counterKeyOf)
    requires COUNTERS in values ==> ReadableCounters(values[COUNTERS], counterKeyOf)
    requires h in values && keyOf(h) == Some(k)
    ensures (target + Record(values, done, keyOf, counterKeyOf))[k := values[h]]
            == target + Record(values, done + {h}, keyOf, counterKeyOf)
  {
    var d := Direct(values, done, keyOf);
    var p := Parsed(values, done, counterKeyOf);
    DirectStep(values, done, keyOf, h, k);
    CopiedNotParsed(values, done, keyOf, counterKeyOf, h, k);
    assert Parsed(values, done + {h}, counterKeyOf) == p;
    UpdateMerged(target, d + p, k, values[h]);
    assert (d + p)[k := values[h]] == d[k := values[h]] + p;
  }

  /** Visiting COUNTERS merges the parsed counters in. */
  lemma CounterStep<K>(target: map<K, string>, values: Values, done: set<HistoryKey>, keyOf: HistoryKey -> Option<K>,
                       counterKeyOf: string -> Option<K>)
    requires Schema(keyOf, counterKeyOf)
    requires COUNTERS in values && COUNTERS !in done
    requires ReadableCounters(values[COUNTERS], counterKeyOf)
    ensures (target + Record(values, done, keyOf, counterKeyOf)) + CounterUpdates(Tuples(values[COUNTERS]), counterKeyOf)
            == target + Record(values, done + {COUNTERS}, keyOf, counterKeyOf)
  {
    DirectSkip(values, done, keyOf, COUNTERS);
    MergeAssociative(target, Direct(values, done, keyOf), CounterUpdates(Tuples(values[COUNTERS]), counterKeyOf));
  }

  /** Visiting any other history key changes nothing. */
  lemma SkipStep<K>(values: Values, done: set<HistoryKey>, keyOf: HistoryKey -> Option<K>,
                    counterKeyOf: string -> Option<K>, h: HistoryKey)
    requires Schema(keyOf, counterKeyOf)
    requires COUNTERS in values ==> ReadableCounters(values[COUNTERS], counterKeyOf)
    requires keyOf(h).None? && h != COUNTERS
    ensures Record(values, done + {h}, keyOf, counterKeyOf) == Record(values, done, keyOf, counterKeyOf)
  {
    DirectSkip(values, done, keyOf, h);
  }

  // ---------------------------------------------------------------------------
  // getLastSuccessfulTaskAttempt
  // ---------------------------------------------------------------------------

  predicate Succeeded(attempt: Values)
  {
    TASK_STATUS in attempt && attempt[TASK_STATUS] == "SUCCESS"
  }

  /**
   * The search reads the status of every attempt it reaches, which is every attempt up
   * to the first successful one; a missing status there is a NullPointerException.
   */
  predicate StatusesReadable(attempts: seq<Values>)
  {
    attempts == []
    || (TASK_STATUS in attempts[0] && (Succeeded(attempts[0]) || StatusesReadable(attempts[1..])))
  }

  /** The first successful attempt in iteration order, None when no attempt succeeded. */
  function FirstSuccess(attempts: seq<Values>): (r: Option<Values>)
    ensures r.None? <==> forall i :: 0 <= i < |attempts| ==> !Succeeded(attempts[i])
    ensures r.Some? ==> exists i :: 0 <= i < |attempts| && attempts[i] == r.value
                           && Succeeded(attempts[i])
                           && forall j :: 0 <= j < i ==> !Succeeded(attempts[j])
  {
    if attempts == [] then None
    else if Succeeded(attempts[0]) then Some(attempts[0])
    else
      var r := FirstSuccess(attempts[1..]);
      assert forall i :: 0 < i < |attempts| ==> attempts[i] == attempts[1..][i - 1];
      r
  }

  /** getLastSuccessfulTaskAttempt: the values of the first successful attempt, if any. */
  method LastSuccessfulTaskAttempt(attempts: seq<Values>) returns (r: Option<Values>)
    requires StatusesReadable(attempts)
    ensures r == FirstSuccess(attempts)
  {
    var i := 0;
    while i < |attempts|
      invariant 0 <= i <= |attempts|
      invariant StatusesReadable(attempts[i..])
      invariant FirstSuccess(attempts) == FirstSuccess(attempts[i..])
    {
      assert attempts[i..][0] == attempts[i] && attempts[i..][1..] == attempts[i + 1..];
      if attempts[i][TASK_STATUS] == "SUCCESS" {
        return Some(attempts[i]);
      }
      i := i + 1;
    }
    return None;
  }

  // ---------------------------------------------------------------------------
  // The statistics of one task
  // ---------------------------------------------------------------------------

  /** The statistics of a map task or of a reduce task: values by task key. */
  type MapTaskStats = map<MapTaskKey, string>
  type ReduceTaskStats = map<ReduceTaskKey, string>

  lemma MapSchema()
    ensures Schema(MapTaskKeyOf, MapCounterKey)
  {
  }

  lemma ReduceSchema()
    ensures Schema(ReduceTaskKeyOf, ReduceCounterKey)
  {
  }

  lemma JobSchema()
    ensures Schema(JobKeyOf, JobCounterKey)
  {
  }

  /** The task's values with those of its first successful attempt put over them. */
  function Merged(task: Task): Values
  {
    match FirstSuccess(task.attempts)
    case Some(attempt) => task.values + attempt
    case None => task.values
  }

  predicate IsMap(task: Task)
  {
    HistoryKey.TASK_TYPE in task.values && task.values[HistoryKey.TASK_TYPE] == "MAP"
  }

  predicate IsReduce(task: Task)
  {
    HistoryKey.TASK_TYPE in task.values && task.values[HistoryKey.TASK_TYPE] == "REDUCE"
  }

  /**
   * A task the list builder gets through without an exception: its type is present,
   * and for a map or reduce task the attempt search and the counters parser succeed.
   */
  predicate ReadableTask(task: Task)
  {
    && HistoryKey.TASK_TYPE in task.values
    && (IsMap(task) || IsReduce(task) ==> StatusesReadable(task.attempts))
    && (IsMap(task) && COUNTERS in Merged(task) ==> ReadableCounters(Merged(task)[COUNTERS], MapCounterKey))
    && (IsReduce(task) && COUNTERS in Merged(task) ==> ReadableCounters(Merged(task)[COUNTERS], ReduceCounterKey))
  }

  /** The number of attempts, as Integer.toString writes it. */
  function AttemptCount(task: Task): (s: string)
    ensures AllDigits(s) && DigitsValue(s) == |task.attempts|
  {
    DigitsValueOfNaturalToString(|task.attempts|);
    NaturalToString(|task.attempts|)
  }

  /** The statistics a map task ends up with. */
  ghost function MapStats(task: Task): MapTaskStats
    requires IsMap(task) && ReadableTask(task)
  {
    MapSchema();
    Record(Merged(task), Merged(task).Keys, MapTaskKeyOf, MapCounterKey)[MapTaskKey.NUM_ATTEMPTS := AttemptCount(task)]
  }

  /** The statistics a reduce task ends up with. */
  ghost function ReduceStats(task: Task): ReduceTaskStats
    requires IsReduce(task) && ReadableTask(task)
  {
    ReduceSchema();
    Record(Merged(task), Merged(task).Keys, ReduceTaskKeyOf, ReduceCounterKey)[ReduceTaskKey.NUM_ATTEMPTS := AttemptCount(task)]
  }

  /**
   * The MAP branch of populate_MapReduceTaskLists for one task: the successful attempt's
   * values over the task's, each copied or parsed into a new MapTaskStatistics, then the
   * number of attempts. listed tells whether the task goes on the map task list.
   */
  method MapTaskStatistics(task: Task) returns (stats: MapTaskStats, listed: bool)
    requires IsMap(task) && ReadableTask(task)
    ensures stats == MapStats(task)
    ensures listed <==> COUNTERS in Merged(task)
  {
    MapSchema();
    var success := LastSuccessfulTaskAttempt(task.attempts);
    var values := task.values;
    if success.Some? {
      values := values + success.value;
    }
    assert values == Merged(task);
    ghost var record := Record(values, values.Keys, MapTaskKeyOf, MapCounterKey);
    stats, listed := Populate(map[], values, MapTaskKeyOf, MapCounterKey);
    assert stats == record;
    stats := stats[MapTaskKey.NUM_ATTEMPTS := AttemptCount(task)];
  }

  /**
   * The REDUCE branch for one task. The source sets the number of attempts after each
   * entry rather than once after the loop; the values hold the task type at least,
   * so the outcome is the same.
   */
  method ReduceTaskStatistics(task: Task) returns (stats: ReduceTaskStats, listed: bool)
    requires IsReduce(task) && ReadableTask(task)
    ensures stats == ReduceStats(task)
    ensures listed <==> COUNTERS in Merged(task)
  {
    ReduceSchema();
    var success := LastSuccessfulTaskAttempt(task.attempts);
    var values := task.values;
    if success.Some? {
      values := values + success.value;
    }
    assert values == Merged(task);
    ghost var record := Record(values, values.Keys, ReduceTaskKeyOf, ReduceCounterKey);
    stats, listed := Populate(map[], values, ReduceTaskKeyOf, ReduceCounterKey);
    assert stats == record;
    stats := stats[ReduceTaskKey.NUM_ATTEMPTS := AttemptCount(task)];
  }

  /**
   * A map task's statistics hold every listed history key of its merged values under
   * its task key, and the number of attempts.
   */
  lemma MapStatsCopied(task: Task, h: HistoryKey, k: MapTaskKey)
    requires IsMap(task) && ReadableTask(task)
    ensures h in Merged(task) && MapTaskKeyOf(h) == Some(k) ==> k in MapStats(task) && MapStats(task)[k] == Merged(task)[h]
    ensures MapTaskKey.NUM_ATTEMPTS in MapStats(task) && MapStats(task)[MapTaskKey.NUM_ATTEMPTS] == AttemptCount(task)
  {
    MapSchema();
    RecordEntries(Merged(task), MapTaskKeyOf, MapCounterKey, h, k);
  }

  /** A counter in a map task's statistics was parsed out of its COUNTERS value. */
  lemma MapStatsCounters(task: Task, k: MapTaskKey)
    requires IsMap(task) && ReadableTask(task)
    ensures k in MapStats(task) && k.IsCounter() ==> COUNTERS in Merged(task) && k in CounterUpdates(Tuples(Merged(task)[COUNTERS]), MapCounterKey)
  {
    MapSchema();
    var values := Merged(task);
    RecordEntries(values, MapTaskKeyOf, MapCounterKey, COUNTERS, k);
    if k.IsCounter() {
      forall h | h in values
        ensures MapTaskKeyOf(h) != Some(k)
      {
      }
    }
  }

  /**
   * A reduce task's statistics hold every listed history key of its merged values under
   * its task key, and the number of attempts.
   */
  lemma ReduceStatsCopied(task: Task, h: HistoryKey, k: ReduceTaskKey)
    requires IsReduce(task) && ReadableTask(task)
    ensures h in Merged(task) && ReduceTaskKeyOf(h) == Some(k) ==> k in ReduceStats(task) && ReduceStats(task)[k] == Merged(task)[h]
    ensures ReduceTaskKey.NUM_ATTEMPTS in ReduceStats(task) && ReduceStats(task)[ReduceTaskKey.NUM_ATTEMPTS] == AttemptCount(task)
  {
    ReduceSchema();
    RecordEntries(Merged(task), ReduceTaskKeyOf, ReduceCounterKey, h, k);
  }

  /** A counter in a reduce task's statistics was parsed out of its COUNTERS value. */
  lemma ReduceStatsCounters(task: Task, k: ReduceTaskKey)
    requires IsReduce(task) && ReadableTask(task)
    ensures k in ReduceStats(task) && k.IsCounter() ==> COUNTERS in Merged(task) && k in CounterUpdates(Tuples(Merged(task)[COUNTERS]), ReduceCounterKey)
  {
    ReduceSchema();
    var values := Merged(task);
    RecordEntries(values, ReduceTaskKeyOf, ReduceCounterKey, COUNTERS, k);
    if k.IsCounter() {
      forall h | h in values
        ensures ReduceTaskKeyOf(h) != Some(k)
      {
      }
    }
  }
}
