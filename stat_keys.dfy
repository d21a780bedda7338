/**
 * The keys of the job-history statistics and the fixed tables that translate
 * job-history keys and counter names into them.
 *
 * HistoryKey stands for JobHistory.Keys, JobKey for JobKeys, MapTaskKey for
 * MapTaskKeys and ReduceTaskKey for ReduceTaskKeys; only the constants the
 * statistics parser uses are listed, plus OtherKey for every other history key.
 */
module StatKeys {
  import opened Wrappers

  datatype HistoryKey =
    | JOBTRACKERID | START_TIME | FINISH_TIME | JOBID | JOBNAME | USER | JOBCONF
    | SUBMIT_TIME | LAUNCH_TIME | TOTAL_MAPS | TOTAL_REDUCES | FAILED_MAPS
    | FAILED_REDUCES | FINISHED_MAPS | FINISHED_REDUCES | JOB_STATUS | COUNTERS
    | TASKID | TASK_ATTEMPT_ID | HOSTNAME | TASK_TYPE | TASK_STATUS | SPLITS
    | SHUFFLE_FINISHED | SORT_FINISHED
    | OtherKey(name: string)

  datatype JobKey =
    // taken over from the job's history record
    | JOBTRACKERID | FINISH_TIME | JOBID | JOBNAME | USER | JOBCONF | SUBMIT_TIME
    | LAUNCH_TIME | TOTAL_MAPS | TOTAL_REDUCES | FAILED_MAPS | FAILED_REDUCES
    | FINISHED_MAPS | FINISHED_REDUCES | STATUS
    // parsed out of the job's counters
    | LOCAL_BYTES_READ | LOCAL_BYTES_WRITTEN | HDFS_BYTES_READ | HDFS_BYTES_WRITTEN
    | LAUNCHED_MAPS | LAUNCHED_REDUCES | DATALOCAL_MAPS | RACKLOCAL_MAPS
    | MAP_INPUT_RECORDS | MAP_OUTPUT_RECORDS | MAP_INPUT_BYTES | MAP_OUTPUT_BYTES
    | COMBINE_INPUT_RECORDS | COMBINE_OUTPUT_RECORDS | REDUCE_INPUT_GROUPS
    | REDUCE_INPUT_RECORDS | REDUCE_OUTPUT_RECORDS
  {
    /** Filled from the counters string rather than from a history key. */
    predicate IsCounter()
    {
      match this
      case JOBTRACKERID | FINISH_TIME | JOBID | JOBNAME | USER | JOBCONF | SUBMIT_TIME
        | LAUNCH_TIME | TOTAL_MAPS | TOTAL_REDUCES | FAILED_MAPS | FAILED_REDUCES
        | FINISHED_MAPS | FINISHED_REDUCES | STATUS => false
      case _ => true
    }
  }

  datatype MapTaskKey =
    | TASK_ID | ATTEMPT_ID | HOSTNAME | TASK_TYPE | STATUS | START_TIME | FINISH_TIME
    | SPLITS | NUM_ATTEMPTS
    | LOCAL_BYTES_READ | LOCAL_BYTES_WRITTEN | HDFS_BYTES_READ | HDFS_BYTES_WRITTEN
    | INPUT_RECORDS | OUTPUT_RECORDS | INPUT_BYTES | OUTPUT_BYTES
    | COMBINE_INPUT_RECORDS | COMBINE_OUTPUT_RECORDS
  {
    /** Filled from the counters string rather than from a history key. */
    predicate IsCounter()
    {
      match this
      case TASK_ID | ATTEMPT_ID | HOSTNAME | TASK_TYPE | STATUS | START_TIME | FINISH_TIME
        | SPLITS | NUM_ATTEMPTS => false
      case _ => true
    }
  }

  datatype ReduceTaskKey =
    | TASK_ID | ATTEMPT_ID | HOSTNAME | TASK_TYPE | STATUS | START_TIME | FINISH_TIME
    | SHUFFLE_FINISH_TIME | SORT_FINISH_TIME | NUM_ATTEMPTS
    | LOCAL_BYTES_READ | LOCAL_BYTES_WRITTEN | HDFS_BYTES_READ | HDFS_BYTES_WRITTEN
    | INPUT_RECORDS | OUTPUT_RECORDS | COMBINE_INPUT_RECORDS | COMBINE_OUTPUT_RECORDS
    | INPUT_GROUPS
  {
    /** Filled from the counters string rather than from a history key. */
    predicate IsCounter()
    {
      match this
      case TASK_ID | ATTEMPT_ID | HOSTNAME | TASK_TYPE | STATUS | START_TIME | FINISH_TIME
        | SHUFFLE_FINISH_TIME | SORT_FINISH_TIME | NUM_ATTEMPTS => false
      case _ => true
    }
  }

  // ---------------------------------------------------------------------------
  // History keys taken over as they are (the switch statements)
  // ---------------------------------------------------------------------------

  /** The job-level switch: the 15 history keys copied into the job table. */
  function JobKeyOf(h: HistoryKey): (r: Option<JobKey>)
    ensures r.Some? ==> !r.value.IsCounter()
  {
    match h
    case JOBTRACKERID => Some(JobKey.JOBTRACKERID)
    case FINISH_TIME => Some(JobKey.FINISH_TIME)
    case JOBID => Some(JobKey.JOBID)
    case JOBNAME => Some(JobKey.JOBNAME)
    case USER => Some(JobKey.USER)
    case JOBCONF => Some(JobKey.JOBCONF)
    case SUBMIT_TIME => Some(JobKey.SUBMIT_TIME)
    case LAUNCH_TIME => Some(JobKey.LAUNCH_TIME)
    case TOTAL_MAPS => Some(JobKey.TOTAL_MAPS)
    case TOTAL_REDUCES => Some(JobKey.TOTAL_REDUCES)
    case FAILED_MAPS => Some(JobKey.FAILED_MAPS)
    case FAILED_REDUCES => Some(JobKey.FAILED_REDUCES)
    case FINISHED_MAPS => Some(JobKey.FINISHED_MAPS)
    case FINISHED_REDUCES => Some(JobKey.FINISHED_REDUCES)
    case JOB_STATUS => Some(JobKey.STATUS)
    case _ => None
  }

  /** The map-task switch: the 8 history keys copied into a map task's statistics. */
  function MapTaskKeyOf(h: HistoryKey): (r: Option<MapTaskKey>)
    ensures r.Some? ==> !r.value.IsCounter() && r.value != MapTaskKey.NUM_ATTEMPTS
  {
    match h
    case TASKID => Some(MapTaskKey.TASK_ID)
    case TASK_ATTEMPT_ID => Some(MapTaskKey.ATTEMPT_ID)
    case HOSTNAME => Some(MapTaskKey.HOSTNAME)
    case TASK_TYPE => Some(MapTaskKey.TASK_TYPE)
    case TASK_STATUS => Some(MapTaskKey.STATUS)
    case START_TIME => Some(MapTaskKey.START_TIME)
    case FINISH_TIME => Some(MapTaskKey.FINISH_TIME)
    case SPLITS => Some(MapTaskKey.SPLITS)
    case _ => None
  }

  /** The reduce-task switch: the 9 history keys copied into a reduce task's statistics. */
  function ReduceTaskKeyOf(h: HistoryKey): (r: Option<ReduceTaskKey>)
    ensures r.Some? ==> !r.value.IsCounter() && r.value != ReduceTaskKey.NUM_ATTEMPTS
  {
    match h
    case TASKID => Some(ReduceTaskKey.TASK_ID)
    case TASK_ATTEMPT_ID => Some(ReduceTaskKey.ATTEMPT_ID)
    case HOSTNAME => Some(ReduceTaskKey.HOSTNAME)
    case TASK_TYPE => Some(ReduceTaskKey.TASK_TYPE)
    case TASK_STATUS => Some(ReduceTaskKey.STATUS)
    case START_TIME => Some(ReduceTaskKey.START_TIME)
    case FINISH_TIME => Some(ReduceTaskKey.FINISH_TIME)
    case SHUFFLE_FINISHED => Some(ReduceTaskKey.SHUFFLE_FINISH_TIME)
    case SORT_FINISHED => Some(ReduceTaskKey.SORT_FINISH_TIME)
    case _ => None
  }

  // ---------------------------------------------------------------------------
  // Counter names (the if-else chains of the three counter parsers)
  // ---------------------------------------------------------------------------

  /** The first of keys whose name is name, tested in the order of keys as the if-else chains do. */
  function Lookup<K>(keys: seq<K>, nameOf: K -> string, name: string): (r: Option<K>)
    ensures r.Some? ==> r.value in keys && nameOf(r.value) == name
    ensures r.None? <==> forall k :: k in keys ==> nameOf(k) != name
  {
    if keys == [] then None
    else if nameOf(keys[0]) == name then Some(keys[0])
    else Lookup(keys[1..], nameOf, name)
  }

  /** The counter name each job counter key is filled from (empty for the other keys). */
  function JobCounterName(k: JobKey): string
  {
    match k
    case LOCAL_BYTES_READ => "File Systems.Local bytes read"
    case LOCAL_BYTES_WRITTEN => "File Systems.Local bytes written"
    case HDFS_BYTES_READ => "File Systems.HDFS bytes read"
    case HDFS_BYTES_WRITTEN => "File Systems.HDFS bytes written"
    case LAUNCHED_MAPS => "Job Counters .Launched map tasks"
    case LAUNCHED_REDUCES => "Job Counters .Launched reduce tasks"
    case DATALOCAL_MAPS => "Job Counters .Data-local map tasks"
    case RACKLOCAL_MAPS => "Job Counters .Rack-local map tasks"
    case MAP_INPUT_RECORDS => "Map-Reduce Framework.Map input records"
    case MAP_OUTPUT_RECORDS => "Map-Reduce Framework.Map output records"
    case MAP_INPUT_BYTES => "Map-Reduce Framework.Map input bytes"
    case MAP_OUTPUT_BYTES => "Map-Reduce Framework.Map output bytes"
    case COMBINE_INPUT_RECORDS => "Map-Reduce Framework.Combine input records"
    case COMBINE_OUTPUT_RECORDS => "Map-Reduce Framework.Combine output records"
    case REDUCE_INPUT_GROUPS => "Map-Reduce Framework.Reduce input groups"
    case REDUCE_INPUT_RECORDS => "Map-Reduce Framework.Reduce input records"
    case REDUCE_OUTPUT_RECORDS => "Map-Reduce Framework.Reduce output records"
    case _ => ""
  }

  /** The counter name each map task counter key is filled from (empty for the other keys). */
  function MapCounterName(k: MapTaskKey): string
  {
    match k
    case LOCAL_BYTES_READ => "File Systems.Local bytes read"
    case LOCAL_BYTES_WRITTEN => "File Systems.Local bytes written"
    case HDFS_BYTES_READ => "File Systems.HDFS bytes read"
    case HDFS_BYTES_WRITTEN => "File Systems.HDFS bytes written"
    case INPUT_RECORDS => "Map-Reduce Framework.Map input records"
    case OUTPUT_RECORDS => "Map-Reduce Framework.Map output records"
    case INPUT_BYTES => "Map-Reduce Framework.Map input bytes"
    case OUTPUT_BYTES => "Map-Reduce Framework.Map output bytes"
    case COMBINE_INPUT_RECORDS => "Map-Reduce Framework.Combine input records"
    case COMBINE_OUTPUT_RECORDS => "Map-Reduce Framework.Combine output records"
    case _ => ""
  }

  /** The counter name each reduce task counter key is filled from (empty for the other keys). */
  function ReduceCounterName(k: ReduceTaskKey): string
  {
    match k
    case LOCAL_BYTES_READ => "File Systems.Local bytes read"
    case LOCAL_BYTES_WRITTEN => "File Systems.Local bytes written"
    case HDFS_BYTES_READ => "File Systems.HDFS bytes read"
    case HDFS_BYTES_WRITTEN => "File Systems.HDFS bytes written"
    case INPUT_RECORDS => "Map-Reduce Framework.Reduce input records"
    case OUTPUT_RECORDS => "Map-Reduce Framework.Reduce output records"
    case COMBINE_INPUT_RECORDS => "Map-Reduce Framework.Combine input records"
    case COMBINE_OUTPUT_RECORDS => "Map-Reduce Framework.Combine output records"
    case INPUT_GROUPS => "Map-Reduce Framework.Reduce input groups"
    case _ => ""
  }

  /** The 17 job counters, in the order the job parser tests them. */
  const JOB_COUNTERS: seq<JobKey> := [
    JobKey.LOCAL_BYTES_READ, JobKey.LOCAL_BYTES_WRITTEN, JobKey.HDFS_BYTES_READ,
    JobKey.HDFS_BYTES_WRITTEN, JobKey.LAUNCHED_MAPS, JobKey.LAUNCHED_REDUCES,
    JobKey.DATALOCAL_MAPS, JobKey.RACKLOCAL_MAPS, JobKey.MAP_INPUT_RECORDS,
    JobKey.MAP_OUTPUT_RECORDS, JobKey.MAP_INPUT_BYTES, JobKey.MAP_OUTPUT_BYTES,
    JobKey.COMBINE_INPUT_RECORDS, JobKey.COMBINE_OUTPUT_RECORDS,
    JobKey.REDUCE_INPUT_GROUPS, JobKey.REDUCE_INPUT_RECORDS, JobKey.REDUCE_OUTPUT_RECORDS
  ]

  /** The 10 map task counters, in the order the map task parser tests them. */
  const MAP_COUNTERS: seq<MapTaskKey> := [
    MapTaskKey.LOCAL_BYTES_READ, MapTaskKey.LOCAL_BYTES_WRITTEN, MapTaskKey.HDFS_BYTES_READ,
    MapTaskKey.HDFS_BYTES_WRITTEN, MapTaskKey.INPUT_RECORDS, MapTaskKey.OUTPUT_RECORDS,
    MapTaskKey.INPUT_BYTES, MapTaskKey.OUTPUT_BYTES, MapTaskKey.COMBINE_INPUT_RECORDS,
    MapTaskKey.COMBINE_OUTPUT_RECORDS
  ]

  /** The 9 reduce task counters, in the order the reduce task parser tests them. */
  const REDUCE_COUNTERS: seq<ReduceTaskKey> := [
    ReduceTaskKey.LOCAL_BYTES_READ, ReduceTaskKey.LOCAL_BYTES_WRITTEN,
    ReduceTaskKey.HDFS_BYTES_READ, ReduceTaskKey.HDFS_BYTES_WRITTEN,
    ReduceTaskKey.INPUT_RECORDS, ReduceTaskKey.OUTPUT_RECORDS,
    ReduceTaskKey.COMBINE_INPUT_RECORDS, ReduceTaskKey.COMBINE_OUTPUT_RECORDS,
    ReduceTaskKey.INPUT_GROUPS
  ]

  /**
   * parseAndAddJobCounters' name test: the key a counter name fills, if any. Only
   * counter keys are filled, each from the one name it is listed with.
   */
  function JobCounterKey(name: string): (r: Option<JobKey>)
    ensures r.Some? ==> r.value.IsCounter() && JobCounterName(r.value) == name
    ensures r.None? <==> forall k :: k in JOB_COUNTERS ==> JobCounterName(k) != name
  {
    JobCountersAreCounters();
    Lookup(JOB_COUNTERS, JobCounterName, name)
  }

  /** parseAndAddMapTaskCounters' name test. */
  function MapCounterKey(name: string): (r: Option<MapTaskKey>)
    ensures r.Some? ==> r.value.IsCounter() && MapCounterName(r.value) == name
    ensures r.None? <==> forall k :: k in MAP_COUNTERS ==> MapCounterName(k) != name
  {
    MapCountersAreCounters();
    Lookup(MAP_COUNTERS, MapCounterName, name)
  }

  /** parseAndAddReduceTaskCounters' name test. */
  function ReduceCounterKey(name: string): (r: Option<ReduceTaskKey>)
    ensures r.Some? ==> r.value.IsCounter() && ReduceCounterName(r.value) == name
    ensures r.None? <==> forall k :: k in REDUCE_COUNTERS ==> ReduceCounterName(k) != name
  {
    ReduceCountersAreCounters();
    Lookup(REDUCE_COUNTERS, ReduceCounterName, name)
  }

  lemma JobCountersAreCounters()
    ensures forall k :: k in JOB_COUNTERS ==> k.IsCounter()
  {
  }

  lemma MapCountersAreCounters()
    ensures forall k :: k in MAP_COUNTERS ==> k.IsCounter()
  {
  }

  lemma ReduceCountersAreCounters()
    ensures forall k :: k in REDUCE_COUNTERS ==> k.IsCounter()
  {
  }

  /** The reduce-only counter "Reduce input groups" is ignored for map tasks ... */
  lemma MapIgnoresReduceInputGroups()
    ensures MapCounterKey("Map-Reduce Framework.Reduce input groups").None?
  {
    var name := "Map-Reduce Framework.Reduce input groups";
    assert |name| == 40;
    MapCounterNamesAvoid(name);
  }

  /** No map task counter has a 40-character name. */
  lemma MapCounterNamesAvoid(name: string)
    requires |name| == 40
    ensures MapCounterKey(name).None?
  {
    forall k: MapTaskKey
      ensures MapCounterName(k) != name
    {
      match k {
        case LOCAL_BYTES_READ =>
        case LOCAL_BYTES_WRITTEN =>
        case HDFS_BYTES_READ =>
        case HDFS_BYTES_WRITTEN =>
        case INPUT_RECORDS =>
        case OUTPUT_RECORDS =>
        case INPUT_BYTES =>
        case OUTPUT_BYTES =>
        case COMBINE_INPUT_RECORDS =>
        case COMBINE_OUTPUT_RECORDS =>
        case _ =>
      }
    }
  }

  /** ... and recorded for reduce tasks. */
  lemma ReduceRecordsInputGroups()
    ensures ReduceCounterKey("Map-Reduce Framework.Reduce input groups").Some?
  {
    assert ReduceTaskKey.INPUT_GROUPS in REDUCE_COUNTERS;
    assert ReduceCounterName(ReduceTaskKey.INPUT_GROUPS) == "Map-Reduce Framework.Reduce input groups";
  }

  /** The map-only counter "Map input records" is ignored for reduce tasks ... */
  lemma ReduceIgnoresMapInputRecords()
    ensures ReduceCounterKey("Map-Reduce Framework.Map input records").None?
  {
    var name := "Map-Reduce Framework.Map input records";
    assert |name| == 38;
    ReduceCounterNamesAvoid(name);
  }

  /** No reduce task counter has a 38-character name. */
  lemma ReduceCounterNamesAvoid(name: string)
    requires |name| == 38
    ensures ReduceCounterKey(name).None?
  {
    forall k: ReduceTaskKey
      ensures ReduceCounterName(k) != name
    {
      match k {
        case LOCAL_BYTES_READ =>
        case LOCAL_BYTES_WRITTEN =>
        case HDFS_BYTES_READ =>
        case HDFS_BYTES_WRITTEN =>
        case INPUT_RECORDS =>
        case OUTPUT_RECORDS =>
        case COMBINE_INPUT_RECORDS =>
        case COMBINE_OUTPUT_RECORDS =>
        case INPUT_GROUPS =>
        case _ =>
      }
    }
  }

  /** ... and recorded for map tasks. */
  lemma MapRecordsInputRecords()
    ensures MapCounterKey("Map-Reduce Framework.Map input records").Some?
  {
    assert MapTaskKey.INPUT_RECORDS in MAP_COUNTERS;
    assert MapCounterName(MapTaskKey.INPUT_RECORDS) == "Map-Reduce Framework.Map input records";
  }
}
