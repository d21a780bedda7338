/**
 * Replica voting for sabotage-tolerant MapReduce (the VotingSystem interface).
 *
 * Every task runs as n replicas. Each replica reports a digest of its output; the
 * registry keeps the digests per task and decides whether enough replicas agree:
 * a strict majority of n, n/2 + 1, must report equal digests.
 *
 * The decision itself is pure (Threshold, DigestsEquals, AllDigestsEqual, Decide and
 * the lemmas about them); the registry state lives in class VotingRegistry.
 */
module Voting {
  import opened Wrappers

  /**
   * A task independent of its replicas: `key` is its text without the replica suffix
   * (the key under which replica numbers are listed), `id` its task number.
   */
  datatype TaskId = TaskId(key: string, isMap: bool, id: nat)

  /** One replica of a task, as getTask(TaskID) lists them. */
  datatype ReplicaTask = ReplicaTask(task: TaskId, replica: int)

  /** Fingerprint of one replica's output: one hash string per output partition. */
  type Digest = seq<string>

  datatype EventStatus = SUCCEEDED | FAILED | KILLED | OBSOLETE | TIPFAILED

  /** A task completion notification; beyond its task and replica it is opaque here. */
  datatype CompletionEvent = CompletionEvent(task: TaskId, replica: nat, status: EventStatus)

  /** The three answers of hasMajorityOfDigests. */
  datatype Outcome = MAJORITY_VOTING | NO_MAJORITY | NOT_ENOUGH_ELEMENTS

  // ---------------------------------------------------------------------------
  // The decision
  // ---------------------------------------------------------------------------

  /** getThreshold(): the least number of replicas that is a strict majority of n. */
  function Threshold(n: nat): (t: nat)
    ensures 2 * t > n
    ensures 2 * (t - 1) <= n
    ensures n >= 1 ==> t <= n
  {
    n / 2 + 1
  }

  /** digestsEquals: same length and the same string at every position. */
  function DigestsEquals(d1: Digest, d2: Digest): (r: bool)
    ensures r <==> d1 == d2
  {
    if |d1| != |d2| then false
    else if d1 == [] then true
    else d1[0] == d2[0] && DigestsEquals(d1[1..], d2[1..])
  }

  /** Every stored digest equals d (vacuously true when nothing is stored). */
  function AllDigestsEqual(ds: seq<Digest>, d: Digest): (r: bool)
    ensures r <==> forall i :: 0 <= i < |ds| ==> ds[i] == d
  {
    ds == [] || (DigestsEquals(ds[0], d) && AllDigestsEqual(ds[1..], d))
  }

  /** The size of the group of stored digests that equal d. */
  function Count(ds: seq<Digest>, d: Digest): (c: nat)
    ensures c <= |ds|
  {
    if ds == [] then 0 else (if DigestsEquals(ds[0], d) then 1 else 0) + Count(ds[1..], d)
  }

  /** Count agrees with the multiset of stored digests: the group of d has multiplicity-of-d members. */
  lemma {:induction false} CountIsMultiplicity(ds: seq<Digest>, d: Digest)
    ensures Count(ds, d) == multiset(ds)[d]
  {
    if ds != [] {
      CountIsMultiplicity(ds[1..], d);
      assert ds == [ds[0]] + ds[1..];
    }
  }

  function Max(a: nat, b: nat): nat { if a < b then b else a }

  /** The size of the largest group among the groups of the digests in candidates. */
  function LargestGroup(ds: seq<Digest>, candidates: seq<Digest>): (g: nat)
    ensures g <= |ds|
  {
    if candidates == [] then 0
    else Max(Count(ds, candidates[0]), LargestGroup(ds, candidates[1..]))
  }

  /**
   * hasMajorityOfDigests on a snapshot of the stored digests: too few digests to decide,
   * a group reaching the threshold, or enough digests but no such group.
   */
  function Decide(ds: seq<Digest>, threshold: nat): Outcome
  {
    if |ds| < threshold then NOT_ENOUGH_ELEMENTS
    else if LargestGroup(ds, ds) >= threshold then MAJORITY_VOTING
    else NO_MAJORITY
  }

  lemma {:induction false} LargestGroupReaches(ds: seq<Digest>, candidates: seq<Digest>, k: nat)
    requires k >= 1
    ensures LargestGroup(ds, candidates) >= k
        <==> exists i :: 0 <= i < |candidates| && Count(ds, candidates[i]) >= k
  {
    if candidates != [] {
      LargestGroupReaches(ds, candidates[1..], k);
      if LargestGroup(ds, candidates[1..]) >= k {
        var i :| 0 <= i < |candidates[1..]| && Count(ds, candidates[1..][i]) >= k;
        assert candidates[i + 1] == candidates[1..][i];
      }
      if exists i :: 0 <= i < |candidates| && Count(ds, candidates[i]) >= k {
        var i :| 0 <= i < |candidates| && Count(ds, candidates[i]) >= k;
        if i > 0 {
          assert candidates[1..][i - 1] == candidates[i];
        }
      }
    }
  }

  /**
   * The three outcomes, each characterised: MAJORITY_VOTING exactly when at least
   * threshold stored digests equal one another, NOT_ENOUGH_ELEMENTS exactly when fewer
   * than threshold digests are stored, NO_MAJORITY otherwise.
   */
  lemma DecideOutcomes(ds: seq<Digest>, threshold: nat)
    requires threshold >= 1
    ensures Decide(ds, threshold) == NOT_ENOUGH_ELEMENTS <==> |ds| < threshold
    ensures Decide(ds, threshold) == MAJORITY_VOTING
        <==> exists i :: 0 <= i < |ds| && Count(ds, ds[i]) >= threshold
    ensures Decide(ds, threshold) == NO_MAJORITY
        <==> |ds| >= threshold && forall i :: 0 <= i < |ds| ==> Count(ds, ds[i]) < threshold
  {
    LargestGroupReaches(ds, ds, threshold);
  }

  lemma {:induction false} CountOfAllEqual(ds: seq<Digest>, d: Digest)
    requires AllDigestsEqual(ds, d)
    ensures Count(ds, d) == |ds|
  {
    if ds != [] {
      CountOfAllEqual(ds[1..], d);
    }
  }

  /** allEqual with at least threshold digests stored means a majority. */
  lemma AllEqualMeansMajority(ds: seq<Digest>, d: Digest, threshold: nat)
    requires threshold >= 1 && |ds| >= threshold
    requires AllDigestsEqual(ds, d)
    ensures Decide(ds, threshold) == MAJORITY_VOTING
  {
    CountOfAllEqual(ds, d);
    assert ds[0] == d;
    DecideOutcomes(ds, threshold);
  }

  lemma {:induction false} CountDisjoint(ds: seq<Digest>, a: Digest, b: Digest)
    requires a != b
    ensures Count(ds, a) + Count(ds, b) <= |ds|
  {
    if ds != [] {
      CountDisjoint(ds[1..], a, b);
    }
  }

  /**
   * With at most n digests stored, at most one digest can reach the threshold:
   * a majority, when there is one, is unambiguous.
   */
  lemma MajorityIsUnique(ds: seq<Digest>, n: nat, a: Digest, b: Digest)
    requires |ds| <= n
    requires Count(ds, a) >= Threshold(n) && Count(ds, b) >= Threshold(n)
    ensures a == b
  {
    if a != b {
      CountDisjoint(ds, a, b);
    }
  }

  /**
   * Five replicas, threshold 3: three equal digests are a majority, two digests are not
   * enough, and A, A, B, B, C has no majority.
   */
  lemma FiveReplicaExamples(a: Digest, b: Digest, c: Digest)
    requires a != b && b != c && a != c
    ensures Threshold(5) == 3
    ensures Decide([a, a, a], Threshold(5)) == MAJORITY_VOTING
    ensures Decide([a, a], Threshold(5)) == NOT_ENOUGH_ELEMENTS
    ensures Decide([a, a, b, b, c], Threshold(5)) == NO_MAJORITY
  {
    AllEqualMeansMajority([a, a, a], a, 3);
    var ds := [a, a, b, b, c];
    CountIsMultiplicity(ds, a);
    CountIsMultiplicity(ds, b);
    CountIsMultiplicity(ds, c);
    DecideOutcomes(ds, 3);
  }

  /** The replicas of tid, one per listed replica number, in the listed order. */
  function ReplicasOf(tid: TaskId, numbers: seq<int>): (r: seq<ReplicaTask>)
    ensures |r| == |numbers|
    ensures forall i :: 0 <= i < |numbers| ==> r[i] == ReplicaTask(tid, numbers[i])
  {
    if numbers == [] then [] else [ReplicaTask(tid, numbers[0])] + ReplicasOf(tid, numbers[1..])
  }

  /** A subset has no more elements than the set containing it. */
  lemma {:induction false} SubsetNoLarger<T>(a: set<T>, b: set<T>)
    ensures a <= b ==> |a| <= |b|
  {
    if a != {} && a <= b {
      var x :| x in a;
      SubsetNoLarger(a - {x}, b - {x});
    }
  }

  // ---------------------------------------------------------------------------
  // The registry
  // ---------------------------------------------------------------------------

  /** A reference implementation of the VotingSystem interface, for one job. */
  class VotingRegistry {
    /** Replication factor: how many replicas run each task. */
    const n: nat
    /** Replica numbers per task key (task text without replica). */
    var replicas: map<string, seq<int>>
    /** Digests saved per task, oldest first. */
    var digests: map<TaskId, seq<Digest>>
    /** The set-once digest of the first replica of each task. */
    var firstDigests: map<TaskId, Digest>
    /** Completion events per task, in arrival order. */
    var events: map<TaskId, seq<CompletionEvent>>
    /** The set-once first completion event per task key. */
    var firstEvents: map<string, CompletionEvent>
    /** The outcome of the latest hasMajorityOfDigests per task. */
    var evaluations: map<TaskId, Outcome>
    /** Tasks that have been found to have a majority. */
    var successful: set<TaskId>

    ghost predicate Valid()
      reads this
    {
      && (forall t :: t in digests ==> digests[t] != [])
      && successful <= evaluations.Keys
    }

    constructor (n: nat)
      ensures Valid()
      ensures this.n == n
      ensures replicas == map[] && digests == map[] && firstDigests == map[]
      ensures events == map[] && firstEvents == map[]
      ensures evaluations == map[] && successful == {}
    {
      this.n := n;
      replicas, digests, firstDigests := map[], map[], map[];
      events, firstEvents := map[], map[];
      evaluations, successful := map[], {};
    }

    /** size(): the number of tasks found to have a majority, never more than were evaluated. */
    function Size(): (s: nat)
      reads this
      ensures Valid() ==> s <= |evaluations|
    {
      SubsetNoLarger(successful, evaluations.Keys);
      |successful|
    }

    /** getTask(String): the replica numbers listed for key; None if key was never added. */
    function GetTask(key: string): (r: Option<seq<int>>)
      reads this
      ensures r.Some? <==> key in replicas
      ensures r.Some? ==> r.value == replicas[key]
    {
      if key in replicas then Some(replicas[key]) else None
    }

    /** addKey: list key with no replicas, unless it is already listed. */
    method AddKey(key: string)
      modifies this`replicas
      ensures GetTask(key) == if old(GetTask(key)).Some? then old(GetTask(key)) else Some([])
      ensures forall k :: k != key ==> GetTask(k) == old(GetTask(k))
    {
      if key !in replicas {
        replicas := replicas[key := []];
      }
    }

    /** addValue: append a replica number to key's list, listing key if needed. */
    method AddValue(key: string, value: int)
      modifies this`replicas
      ensures GetTask(key) == Some(old(GetTask(key)).GetOr([]) + [value])
      ensures forall k :: k != key ==> GetTask(k) == old(GetTask(k))
    {
      var listed := if key in replicas then replicas[key] else [];
      replicas := replicas[key := listed + [value]];
    }

    /** getTask(TaskID): the replicas listed under tid's key. */
    function GetReplicaTasks(tid: TaskId): (r: Option<seq<ReplicaTask>>)
      reads this
      ensures r.Some? <==> GetTask(tid.key).Some?
      ensures r.Some? ==> |r.value| == |GetTask(tid.key).value|
      ensures r.Some? ==> forall i :: 0 <= i < |r.value| ==>
                r.value[i].task == tid && r.value[i].replica == GetTask(tid.key).value[i]
    {
      if tid.key in replicas then Some(ReplicasOf(tid, replicas[tid.key])) else None
    }

    /** The digests saved for tid, oldest first. */
    function StoredDigests(tid: TaskId): seq<Digest>
      reads this
    {
      if tid in digests then digests[tid] else []
    }

    /** isEmpty: no digest is stored for tid; the store keeps no empty list, so tid has no entry. */
    function IsEmpty(tid: TaskId): (r: bool)
      reads this
      ensures r <==> |StoredDigests(tid)| == 0
      ensures Valid() ==> (r <==> tid !in digests)
    {
      StoredDigests(tid) == []
    }

    /** getHash: the digest saved last for tid; None (Java's null) if none is stored. */
    function GetHash(tid: TaskId): (r: Option<Digest>)
      reads this
      ensures r.None? <==> IsEmpty(tid)
      ensures r.Some? ==> r.value in StoredDigests(tid)
      ensures r.Some? ==> r.value == StoredDigests(tid)[|StoredDigests(tid)| - 1]
    {
      var ds := StoredDigests(tid);
      if ds == [] then None else Some(ds[|ds| - 1])
    }

    /** addHash: save one more digest for tid. The map flag is not kept. */
    method AddHash(tid: TaskId, isMap: bool, values: Digest)
      requires Valid()
      modifies this`digests
      ensures Valid()
      ensures StoredDigests(tid) == old(StoredDigests(tid)) + [values]
      ensures forall t :: t != tid ==> StoredDigests(t) == old(StoredDigests(t))
      ensures !IsEmpty(tid) && GetHash(tid) == Some(values)
    {
      digests := digests[tid := StoredDigests(tid) + [values]];
    }

    /** removeHash: drop every digest of tid; true iff something was stored. */
    method RemoveHash(tid: TaskId) returns (removed: bool)
      requires Valid()
      modifies this`digests
      ensures Valid()
      ensures removed == !old(IsEmpty(tid))
      ensures IsEmpty(tid) && GetHash(tid) == None
      ensures forall t :: t != tid ==> StoredDigests(t) == old(StoredDigests(t))
      ensures Outcome(tid) == NOT_ENOUGH_ELEMENTS
      ensures forall t :: GetFirstHash(t) == old(GetFirstHash(t))
    {
      removed := tid in digests;
      digests := map t | t in digests && t != tid :: digests[t];
    }

    /** getThreshold(): n/2 + 1. */
    function GetThreshold(): (t: nat)
      ensures 2 * t > n && (n >= 1 ==> t <= n)
    {
      Threshold(n)
    }

    /** The voting outcome on tid's current digests. */
    function Outcome(tid: TaskId): Outcome
      reads this
    {
      Decide(StoredDigests(tid), GetThreshold())
    }

    /**
     * hasMajorityOfDigests: the outcome on tid's digests. The answer is remembered for
     * getTaskWithoutMajority, and a task found to have a majority is counted by size()
     * once, however often it is asked about.
     */
    method HasMajorityOfDigests(tid: TaskId) returns (r: Outcome)
      requires Valid()
      modifies this`evaluations, this`successful
      ensures Valid()
      ensures r == Outcome(tid)
      ensures evaluations == old(evaluations)[tid := r]
      ensures successful == if r == MAJORITY_VOTING then old(successful) + {tid} else old(successful)
      ensures Size() == old(Size()) + if r == MAJORITY_VOTING && tid !in old(successful) then 1 else 0
    {
      r := Outcome(tid);
      evaluations := evaluations[tid := r];
      if r == MAJORITY_VOTING {
        if tid in successful {
          assert successful + {tid} == successful;
        }
        successful := successful + {tid};
      }
    }

    /** A reduce task last found without a majority and never found with one. */
    predicate Pending(t: TaskId)
      reads this
    {
      t in evaluations && evaluations[t] != MAJORITY_VOTING && t !in successful && !t.isMap
    }

    /**
     * getTaskWithoutMajority: the number of some pending reduce task, or -1 when there is
     * none. Which one, when several are pending, is left open.
     */
    method GetTaskWithoutMajority() returns (id: int)
      ensures id == -1 <==> forall t :: t in evaluations ==> !Pending(t)
      ensures id != -1 ==> exists t :: t in evaluations && Pending(t) && t.id == id
    {
      if t :| t in evaluations && Pending(t) {
        id := t.id;
      } else {
        id := -1;
      }
    }

    /** allEqual: every digest stored for tid equals digest. */
    function AllEqual(tid: TaskId, digest: Digest): (r: bool)
      reads this
      ensures r <==> forall i :: 0 <= i < |StoredDigests(tid)| ==> StoredDigests(tid)[i] == digest
      ensures r && |StoredDigests(tid)| >= GetThreshold() ==> Outcome(tid) == MAJORITY_VOTING
    {
      var ds := StoredDigests(tid);
      if AllDigestsEqual(ds, digest) && |ds| >= GetThreshold() then
        AllEqualMeansMajority(ds, digest, GetThreshold());
        true
      else
        AllDigestsEqual(ds, digest)
    }

    /** getTaskCompletionEvent: tid's completion events in arrival order. */
    function GetTaskCompletionEvent(tid: TaskId): (r: seq<CompletionEvent>)
      reads this
      ensures tid !in events ==> r == []
      ensures tid in events ==> r == events[tid]
    {
      if tid in events then events[tid] else []
    }

    /** addTaskCompletionEvent: append event to tid's log. */
    method AddTaskCompletionEvent(tid: TaskId, event: CompletionEvent)
      modifies this`events
      ensures GetTaskCompletionEvent(tid) == old(GetTaskCompletionEvent(tid)) + [event]
      ensures forall t :: t != tid ==> GetTaskCompletionEvent(t) == old(GetTaskCompletionEvent(t))
    {
      events := events[tid := GetTaskCompletionEvent(tid) + [event]];
    }

    /** The first completion event recorded for a task key. */
    function FirstEvent(key: string): Option<CompletionEvent>
      reads this
    {
      if key in firstEvents then Some(firstEvents[key]) else None
    }

    /** addFirst: remember the event of the first replica of its task to end; later ones are ignored. */
    method AddFirst(event: CompletionEvent)
      modifies this`firstEvents
      ensures FirstEvent(event.task.key) ==
                if old(FirstEvent(event.task.key)).Some? then old(FirstEvent(event.task.key)) else Some(event)
      ensures forall k :: k != event.task.key ==> FirstEvent(k) == old(FirstEvent(k))
    {
      if event.task.key !in firstEvents {
        firstEvents := firstEvents[event.task.key := event];
      }
    }

    /** getFirstHash: the digest recorded by addFirstHash for tid; None if none was. */
    function GetFirstHash(tid: TaskId): (r: Option<Digest>)
      reads this
      ensures r.Some? <==> tid in firstDigests
      ensures r.Some? ==> r.value == firstDigests[tid]
    {
      if tid in firstDigests then Some(firstDigests[tid]) else None
    }

    /** addFirstHash: record the digest of tid's first replica, unless one is recorded already. */
    method AddFirstHash(tid: TaskId, values: Digest)
      modifies this`firstDigests
      ensures GetFirstHash(tid) == if old(GetFirstHash(tid)).Some? then old(GetFirstHash(tid)) else Some(values)
      ensures forall t :: t != tid ==> GetFirstHash(t) == old(GetFirstHash(t))
    {
      if tid !in firstDigests {
        firstDigests := firstDigests[tid := values];
      }
    }
  }
}
