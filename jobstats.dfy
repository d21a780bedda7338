/**
 * JobStatistics: the statistics of one job, read from its job-history record. It holds
 * the job's table of values by JobKey, the list of map tasks and the list of reduce
 * tasks (each task's statistics a table by task key), and, per sort key, the sorted copy
 * of each list handed out so far.
 */
module JobStats {
  import opened Wrappers
  import opened Decimal
  import opened StatKeys
  import opened Counters
  import opened Records
  import opened TaskOrdering

  // ---------------------------------------------------------------------------
  // Reading and writing a table
  // ---------------------------------------------------------------------------

  /** getStringValue: the stored string, None where Java returns null. */
  function StringValue<K>(table: map<K, string>, key: K): Option<string>
  {
    if key in table then Some(table[key]) else None
  }

  /**
   * getLongValue: Long.parseLong of the stored string. None stands for the
   * NumberFormatException thrown for a missing key (parseLong(null)) or for text that is
   * not a long.
   */
  function LongValue<K>(table: map<K, string>, key: K): Option<Long>
  {
    if key in table then ParseLong(table[key]) else None
  }

  /**
   * setValue(key, long) stores Long.toString of the value, which getLongValue reads back;
   * the other keys keep their values.
   */
  lemma SetLongThenGet<K>(table: map<K, string>, key: K, value: Long, other: K)
    ensures LongValue(table[key := LongToString(value)], key) == Some(value)
    ensures StringValue(table[key := LongToString(value)], key) == Some(LongToString(value))
    ensures other != key ==> LongValue(table[key := LongToString(value)], other) == LongValue(table, other)
  {
    ParseLongOfLongToString(value);
  }

  /** setValue(key, String) stores the string, which getStringValue reads back. */
  lemma SetStringThenGet<K>(table: map<K, string>, key: K, value: string, other: K)
    ensures StringValue(table[key := value], key) == Some(value)
    ensures other != key ==> StringValue(table[key := value], other) == StringValue(table, other)
  {
  }

  // ---------------------------------------------------------------------------
  // What the parser builds
  // ---------------------------------------------------------------------------

  /** The job table populate_Job builds out of the job's history values. */
  ghost function JobRecord(jobValues: Values): map<JobKey, string>
    requires COUNTERS in jobValues ==> ReadableCounters(jobValues[COUNTERS], JobCounterKey)
  {
    JobSchema();
    Record(jobValues, jobValues.Keys, JobKeyOf, JobCounterKey)
  }

  /** A map task that goes on the map task list: it has counters. */
  predicate ListedMap(task: Task)
  {
    IsMap(task) && COUNTERS in Merged(task)
  }

  predicate ListedReduce(task: Task)
  {
    IsReduce(task) && COUNTERS in Merged(task)
  }

  /** The map task list built out of tasks taken in this order. */
  ghost function MapList(tasks: seq<Task>): seq<MapTaskStats>
    requires forall t :: t in tasks ==> ReadableTask(t)
  {
    if tasks == [] then []
    else
      var last := tasks[|tasks| - 1];
      assert last in tasks;
      assert forall t :: t in tasks[..|tasks| - 1] ==> t in tasks;
      MapList(tasks[..|tasks| - 1]) + (if ListedMap(last) then [MapStats(last)] else [])
  }

  /** The reduce task list built out of tasks taken in this order. */
  ghost function ReduceList(tasks: seq<Task>): seq<ReduceTaskStats>
    requires forall t :: t in tasks ==> ReadableTask(t)
  {
    if tasks == [] then []
    else
      var last := tasks[|tasks| - 1];
      assert last in tasks;
      assert forall t :: t in tasks[..|tasks| - 1] ==> t in tasks;
      ReduceList(tasks[..|tasks| - 1]) + (if ListedReduce(last) then [ReduceStats(last)] else [])
  }

  /** The number of tasks among the first n that go on the map task list. */
  function ListedMaps(tasks: seq<Task>, n: nat): nat
    requires n <= |tasks|
  {
    if n == 0 then 0 else ListedMaps(tasks, n - 1) + (if ListedMap(tasks[n - 1]) then 1 else 0)
  }

  /**
   * Every map task with counters is on the map task list exactly once, at the place its
   * turn in the iteration gives it; no other task is.
   */
  lemma {:induction false} MapListPlaces(tasks: seq<Task>, i: nat)
    requires forall t :: t in tasks ==> ReadableTask(t)
    ensures |MapList(tasks)| == ListedMaps(tasks, |tasks|)
    ensures i < |tasks| && ListedMap(tasks[i]) ==>
              ListedMaps(tasks, i) < |MapList(tasks)| && MapList(tasks)[ListedMaps(tasks, i)] == MapStats(tasks[i])
  {
    if tasks != [] {
      var init := tasks[..|tasks| - 1];
      PrefixReadable(tasks, |tasks| - 1);
      MapListPlaces(init, i);
      ListedMapsPrefix(tasks, init, |init|);
      if i < |init| {
        ListedMapsPrefix(tasks, init, i);
        assert init[i] == tasks[i];
      }
    }
  }

  /** The number of tasks among the first n that go on the reduce task list. */
  function ListedReduces(tasks: seq<Task>, n: nat): nat
    requires n <= |tasks|
  {
    if n == 0 then 0 else ListedReduces(tasks, n - 1) + (if ListedReduce(tasks[n - 1]) then 1 else 0)
  }

  /**
   * Every reduce task with counters is on the reduce task list exactly once, at the place
   * its turn in the iteration gives it; no other task is.
   */
  lemma {:induction false} ReduceListPlaces(tasks: seq<Task>, i: nat)
    requires forall t :: t in tasks ==> ReadableTask(t)
    ensures |ReduceList(tasks)| == ListedReduces(tasks, |tasks|)
    ensures i < |tasks| && ListedReduce(tasks[i]) ==>
              ListedReduces(tasks, i) < |ReduceList(tasks)| && ReduceList(tasks)[ListedReduces(tasks, i)] == ReduceStats(tasks[i])
  {
    if tasks != [] {
      var init := tasks[..|tasks| - 1];
      PrefixReadable(tasks, |tasks| - 1);
      ReduceListPlaces(init, i);
      ListedReducesPrefix(tasks, init, |init|);
      if i < |init| {
        ListedReducesPrefix(tasks, init, i);
        assert init[i] == tasks[i];
      }
    }
  }

  /** A prefix of readable tasks is readable. */
  lemma PrefixReadable(tasks: seq<Task>, n: nat)
    requires n <= |tasks|
    requires forall t :: t in tasks ==> ReadableTask(t)
    ensures forall t :: t in tasks[..n] ==> ReadableTask(t)
  {
    forall t | t in tasks[..n]
      ensures ReadableTask(t)
    {
      assert t in tasks;
    }
  }

  /** Taking one more task appends at most its statistics to each list. */
  lemma ListsStep(tasks: seq<Task>, i: nat)
    requires i < |tasks|
    requires forall t :: t in tasks ==> ReadableTask(t)
    ensures forall t :: t in tasks[..i] ==> ReadableTask(t)
    ensures forall t :: t in tasks[..i + 1] ==> ReadableTask(t)
    ensures ReadableTask(tasks[i])
    ensures MapList(tasks[..i + 1]) == MapList(tasks[..i]) + (if ListedMap(tasks[i]) then [MapStats(tasks[i])] else [])
    ensures ReduceList(tasks[..i + 1]) == ReduceList(tasks[..i]) + (if ListedReduce(tasks[i]) then [ReduceStats(tasks[i])] else [])
  {
    PrefixReadable(tasks, i);
    PrefixReadable(tasks, i + 1);
    assert tasks[i] in tasks;
    assert tasks[..i + 1][..i] == tasks[..i] && tasks[..i + 1][i] == tasks[i];
  }

  lemma {:induction false} ListedMapsPrefix(tasks: seq<Task>, init: seq<Task>, n: nat)
    requires init <= tasks && n <= |init|
    ensures ListedMaps(init, n) == ListedMaps(tasks, n)
  {
    if n > 0 {
      ListedMapsPrefix(tasks, init, n - 1);
      assert init[n - 1] == tasks[n - 1];
    }
  }

  lemma {:induction false} ListedReducesPrefix(tasks: seq<Task>, init: seq<Task>, n: nat)
    requires init <= tasks && n <= |init|
    ensures ListedReduces(init, n) == ListedReduces(tasks, n)
  {
    if n > 0 {
      ListedReducesPrefix(tasks, init, n - 1);
      assert init[n - 1] == tasks[n - 1];
    }
  }

  /** A cleanup task, a task of unknown type or one without counters adds to neither list. */
  lemma UnlistedAddsNothing(tasks: seq<Task>, t: Task)
    requires forall u :: u in tasks ==> ReadableTask(u)
    requires ReadableTask(t) && !ListedMap(t) && !ListedReduce(t)
    ensures MapList(tasks + [t]) == MapList(tasks)
    ensures ReduceList(tasks + [t]) == ReduceList(tasks)
  {
    assert (tasks + [t])[..|tasks|] == tasks;
  }

  lemma EmptyMerge<K, V>(m: map<K, V>)
    ensures map[] + m == m
  {
  }

  /**
   * populate_Job: every listed history key and every recognised job counter of the job's
   * values into the job table.
   */
  method PopulateJob(job: map<JobKey, string>, jobValues: Values) returns (r: map<JobKey, string>)
    requires COUNTERS in jobValues ==> ReadableCounters(jobValues[COUNTERS], JobCounterKey)
    ensures r == job + JobRecord(jobValues)
  {
    JobSchema();
    var counted;
    r, counted := Populate(job, jobValues, JobKeyOf, JobCounterKey);
  }

  /**
   * populate_MapReduceTaskLists: each map or reduce task's statistics, built from its
   * values and its successful attempt, are appended to its list when it has counters;
   * cleanup tasks and tasks of unknown type are skipped.
   */
  method PopulateMapReduceTaskLists(mapTaskList: seq<MapTaskStats>, reduceTaskList: seq<ReduceTaskStats>, tasks: seq<Task>)
    returns (maps: seq<MapTaskStats>, reduces: seq<ReduceTaskStats>)
    requires forall t :: t in tasks ==> ReadableTask(t)
    ensures maps == mapTaskList + MapList(tasks)
    ensures reduces == reduceTaskList + ReduceList(tasks)
  {
    maps, reduces := mapTaskList, reduceTaskList;
    for i := 0 to |tasks|
      invariant maps == mapTaskList + MapList(tasks[..i])
      invariant reduces == reduceTaskList + ReduceList(tasks[..i])
    {
      var task := tasks[i];
      ListsStep(tasks, i);
      var kind := task.values[HistoryKey.TASK_TYPE];
      if kind == "MAP" {
        var stats, listed := MapTaskStatistics(task);
        if listed {
          maps := maps + [stats];
        }
      } else if kind == "REDUCE" {
        var stats, listed := ReduceTaskStatistics(task);
        if listed {
          reduces := reduces + [stats];
        }
      }
      // CLEANUP and unknown task types add nothing.
    }
    assert tasks[..|tasks|] == tasks;
  }

  // ---------------------------------------------------------------------------
  // The statistics object
  // ---------------------------------------------------------------------------

  class JobStatistics {
    /** _job: the job's values by job key. */
    var job: map<JobKey, string>
    /** _mapTaskList and _reduceTaskList. */
    var mapTaskList: seq<MapTaskStats>
    var reduceTaskList: seq<ReduceTaskStats>
    /** _sortedMapTaskListsByKey and _sortedReduceTaskListsByKey. */
    var sortedMapTaskListsByKey: map<MapTaskKey, seq<MapTaskStats>>
    var sortedReduceTaskListsByKey: map<ReduceTaskKey, seq<ReduceTaskStats>>

    /** Every list handed out is the task list, sorted under its key as longs or as text. */
    ghost predicate Valid()
      reads this
    {
      && (forall k :: k in sortedMapTaskListsByKey ==>
            multiset(sortedMapTaskListsByKey[k]) == multiset(mapTaskList)
            && (Sorted(sortedMapTaskListsByKey[k], k, LONG) || Sorted(sortedMapTaskListsByKey[k], k, STRING)))
      && (forall k :: k in sortedReduceTaskListsByKey ==>
            multiset(sortedReduceTaskListsByKey[k]) == multiset(reduceTaskList)
            && (Sorted(sortedReduceTaskListsByKey[k], k, LONG) || Sorted(sortedReduceTaskListsByKey[k], k, STRING)))
    }

    /**
     * Reads the job's history values into the job table and its tasks, taken in the
     * order given, into the two task lists.
     */
    constructor(jobValues: Values, tasks: seq<Task>)
      requires COUNTERS in jobValues ==> ReadableCounters(jobValues[COUNTERS], JobCounterKey)
      requires forall t :: t in tasks ==> ReadableTask(t)
      ensures job == JobRecord(jobValues)
      ensures mapTaskList == MapList(tasks) && reduceTaskList == ReduceList(tasks)
      ensures sortedMapTaskListsByKey == map[] && sortedReduceTaskListsByKey == map[]
      ensures Valid()
    {
      EmptyMerge(JobRecord(jobValues));
      var populated := PopulateJob(map[], jobValues);
      var maps, reduces := PopulateMapReduceTaskLists([], [], tasks);
      job := populated;
      mapTaskList := maps;
      reduceTaskList := reduces;
      sortedMapTaskListsByKey := map[];
      sortedReduceTaskListsByKey := map[];
    }

    /** getStringValue: the text stored under key, None (null) when nothing is. */
    function GetStringValue(key: JobKey): (r: Option<string>)
      reads this
      ensures r.Some? <==> key in job
      ensures r.Some? ==> r.value == job[key]
    {
      StringValue(job, key)
    }

    /** getLongValue: the stored text read as a long; None when none is stored or it is no long. */
    function GetLongValue(key: JobKey): (r: Option<Long>)
      reads this
      ensures r.Some? ==> GetStringValue(key).Some?
      ensures GetStringValue(key).Some? ==> r == ParseLong(GetStringValue(key).value)
    {
      LongValue(job, key)
    }

    /** setValue(key, long): stores the value's decimal text. */
    method SetLongValue(key: JobKey, value: Long)
      modifies this`job
      ensures job == old(job)[key := LongToString(value)]
      ensures GetLongValue(key) == Some(value)
    {
      job := job[key := LongToString(value)];
      SetLongThenGet(old(job), key, value, key);
    }

    /** setValue(key, String): stores the string. */
    method SetStringValue(key: JobKey, value: string)
      modifies this`job
      ensures job == old(job)[key := value]
      ensures GetStringValue(key) == Some(value)
    {
      job := job[key := value];
    }

    /**
     * getMapTaskList: the map tasks sorted under sortKey (TASK_ID when none is given).
     * The first request for a key sorts a copy of the map task list, read as dataType,
     * and keeps it; later requests for that key return the kept list, whatever their
     * dataType. The map task list itself keeps its order.
     */
    method GetMapTaskList(sortKey: Option<MapTaskKey>, dataType: KeyDataType) returns (r: seq<MapTaskStats>)
      requires Valid()
      requires var key := sortKey.GetOr(MapTaskKey.TASK_ID);
               key !in sortedMapTaskListsByKey && |mapTaskList| >= 2 ==>
                 forall t :: t in mapTaskList ==> Comparable(t, key, dataType)
      modifies this`sortedMapTaskListsByKey
      ensures Valid()
      ensures var key := sortKey.GetOr(MapTaskKey.TASK_ID);
              && multiset(r) == multiset(mapTaskList)
              && (key in old(sortedMapTaskListsByKey) ==>
                    r == old(sortedMapTaskListsByKey)[key] && sortedMapTaskListsByKey == old(sortedMapTaskListsByKey))
              && (key !in old(sortedMapTaskListsByKey) ==>
                    Sorted(r, key, dataType) && sortedMapTaskListsByKey == old(sortedMapTaskListsByKey)[key := r])
    {
      var key := sortKey.GetOr(MapTaskKey.TASK_ID);
      if key !in sortedMapTaskListsByKey {
        var newList := SortTasks(mapTaskList, key, dataType);
        sortedMapTaskListsByKey := sortedMapTaskListsByKey[key := newList];
      }
      r := sortedMapTaskListsByKey[key];
    }

    /** getReduceTaskList: as getMapTaskList, for the reduce tasks. */
    method GetReduceTaskList(sortKey: Option<ReduceTaskKey>, dataType: KeyDataType) returns (r: seq<ReduceTaskStats>)
      requires Valid()
      requires var key := sortKey.GetOr(ReduceTaskKey.TASK_ID);
               key !in sortedReduceTaskListsByKey && |reduceTaskList| >= 2 ==>
                 forall t :: t in reduceTaskList ==> Comparable(t, key, dataType)
      modifies this`sortedReduceTaskListsByKey
      ensures Valid()
      ensures var key := sortKey.GetOr(ReduceTaskKey.TASK_ID);
              && multiset(r) == multiset(reduceTaskList)
              && (key in old(sortedReduceTaskListsByKey) ==>
                    r == old(sortedReduceTaskListsByKey)[key] && sortedReduceTaskListsByKey == old(sortedReduceTaskListsByKey))
              && (key !in old(sortedReduceTaskListsByKey) ==>
                    Sorted(r, key, dataType) && sortedReduceTaskListsByKey == old(sortedReduceTaskListsByKey)[key := r])
    {
      var key := sortKey.GetOr(ReduceTaskKey.TASK_ID);
      if key !in sortedReduceTaskListsByKey {
        var newList := SortTasks(reduceTaskList, key, dataType);
        sortedReduceTaskListsByKey := sortedReduceTaskListsByKey[key := newList];
      }
      r := sortedReduceTaskListsByKey[key];
    }
  }
}
