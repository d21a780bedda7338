# Replica voting and job-history statistics, in Dafny

This project models two parts of a Hadoop 0.20 fork built for sabotage-tolerant MapReduce
and proves properties of them.

**Replica voting (`VotingSystem`).** Every task runs as n replicas. Each replica reports a
digest of its output, which is a sequence of hash strings. The registry does four things:
- it keeps the digests per task and decides whether a strict majority of n,
  `n/2 + 1`, agree;
- it keeps the replica numbers listed per task key;
- it keeps the completion events per task, and two set-once "first" slots;
- it counts the tasks found to have a majority.

The source declares only an interface. `Voting.VotingRegistry` is a reference class that
implements it, with the pure decision kept apart:
- `Threshold`, `DigestsEquals`, `AllDigestsEqual`, `Decide`;
- lemmas characterising the three outcomes.

**Job-history statistics (`JobStatistics`).** Builds the statistics of one job from its
job-history record:
- The job's history values are copied into a job table keyed by `JobKeys` (`populate_Job`).
- The job's `COUNTERS` string `"name:value,name:value,..."` is parsed into the same table.
  The pattern `[[^,]?]+` picks out maximal runs of non-comma characters. Each run is split
  on `:`. A recognised name is stored under its key (`parseAndAdd*Counters`).
- Each map or reduce task's values are merged with those of its first successful attempt
  (`getLastSuccessfulTaskAttempt`). They are turned into that task's statistics the same
  way, and the task is appended to the map or reduce task list when it has counters
  (`populate_MapReduceTaskLists`).
- Sorted copies of the two lists are handed out per sort key and kept once made
  (`getMapTaskList`, `getReduceTaskList`). They are ordered by the two comparators, which
  compare as longs or as case-insensitive text.

Modules:
- `Wrappers`: `Option`.
- `Decimal`: `Long.toString` and `Long.parseLong`.
- `Voting`.
- `StatKeys`: the key enums and the fixed translation tables.
- `Counters`: the counters string.
- `Records`: the switch over history keys, the attempt search, and one task's statistics.
- `TaskOrdering`: the comparators, and `Collections.sort` as insertion into a sorted list.
- `JobStats`: the `JobStatistics` class.

Java's hash maps are iterated in an unspecified order. `Records.Populate` visits the
entries of a record in an arbitrary order (`:|`). Its result is proved to be the same
whatever the order, because the copied history keys and the parsed counters fill disjoint
keys (`Records.Schema`). The tasks of a job are taken in the order of the given sequence.
That stands for the iteration order of the job's task map.

`getLastSuccessfulTaskAttempt` is named "last", but the code returns the first attempt, in
iteration order, whose status is `SUCCESS`. The model follows the code.

## Model

| member | source | states |
|---|---|---|
| Voting.Threshold | src/mapred/org/apache/hadoop/mapred/VotingSystem.java:51-55 | n/2 + 1 is the least strict majority: twice it exceeds n, twice one less does not, and for n >= 1 it is at most n |
| Voting.DigestsEquals | src/mapred/org/apache/hadoop/mapred/VotingSystem.java:96-102 | the position-by-position comparison is true exactly when the two digests are equal, so it is reflexive and symmetric |
| Voting.AllDigestsEqual | src/mapred/org/apache/hadoop/mapred/VotingSystem.java:73-79 | true exactly when every stored digest equals the given one |
| Voting.CountIsMultiplicity | src/mapred/org/apache/hadoop/mapred/VotingSystem.java:57-64 | the group of a digest among the stored ones has as many members as the digest's multiplicity |
| Voting.LargestGroupReaches | src/mapred/org/apache/hadoop/mapred/VotingSystem.java:57-64 | the largest group reaches k exactly when some candidate's group reaches k |
| Voting.DecideOutcomes | src/mapred/org/apache/hadoop/mapred/VotingSystem.java:57-64 | NOT_ENOUGH_ELEMENTS iff fewer than threshold digests are stored; MAJORITY_VOTING iff some stored digest is equalled by at least threshold of them; NO_MAJORITY iff enough are stored and no group reaches threshold |
| Voting.AllEqualMeansMajority | src/mapred/org/apache/hadoop/mapred/VotingSystem.java:57-79 | when every stored digest equals d and at least threshold are stored, the outcome is MAJORITY_VOTING |
| Voting.MajorityIsUnique | src/mapred/org/apache/hadoop/mapred/VotingSystem.java:51-64 | with at most n digests stored, two digests that both reach the threshold are the same digest |
| Voting.FiveReplicaExamples | src/mapred/org/apache/hadoop/mapred/VotingSystem.java:51-64 | n = 5: threshold 3; three equal digests are a majority; two are not enough; A,A,B,B,C has no majority |
| Voting.ReplicasOf | src/mapred/org/apache/hadoop/mapred/VotingSystem.java:131-136 | one replica task per listed replica number, in the listed order |
| Voting.VotingRegistry.constructor | src/mapred/org/apache/hadoop/mapred/VotingSystem.java:5-10 | a new registry for replication factor n stores nothing and counts no successful task |
| Voting.VotingRegistry.Size | src/mapred/org/apache/hadoop/mapred/VotingSystem.java:6-10 | the number of tasks found to have a majority, never more than the tasks evaluated; HasMajorityOfDigests says when it grows |
| Voting.VotingRegistry.GetTask | src/mapred/org/apache/hadoop/mapred/VotingSystem.java:12-17 | null until addKey or addValue lists the key, then the replica numbers listed for it; AddKey and AddValue state what each call leaves there |
| Voting.VotingRegistry.AddKey | src/mapred/org/apache/hadoop/mapred/VotingSystem.java:19-23 | after addKey the key is listed (with no replicas if it was new, unchanged otherwise); other keys are untouched |
| Voting.VotingRegistry.AddValue | src/mapred/org/apache/hadoop/mapred/VotingSystem.java:25-30 | the replica number is appended to the key's list, earlier entries kept in order; other keys are untouched |
| Voting.VotingRegistry.GetReplicaTasks | src/mapred/org/apache/hadoop/mapred/VotingSystem.java:131-136 | getTask(TaskID) is present exactly when the task key is listed, with one replica task of tid per listed replica number |
| Voting.VotingRegistry.IsEmpty | src/mapred/org/apache/hadoop/mapred/VotingSystem.java:117-122 | true iff no digest is stored for tid; as the store never keeps an empty list, iff tid has no entry |
| Voting.VotingRegistry.GetHash | src/mapred/org/apache/hadoop/mapred/VotingSystem.java:45-50 | null exactly when isEmpty holds, otherwise the digest saved most recently, which AddHash states is the one it just added |
| Voting.VotingRegistry.AddHash | src/mapred/org/apache/hadoop/mapred/VotingSystem.java:32-37 | the digest is appended to tid's store, so isEmpty(tid) is false and getHash returns it; other tasks are untouched |
| Voting.VotingRegistry.RemoveHash | src/mapred/org/apache/hadoop/mapred/VotingSystem.java:39-44 | returns true iff something was stored; afterwards isEmpty(tid), getHash(tid) is null, the outcome is NOT_ENOUGH_ELEMENTS, other tasks and every getFirstHash are unchanged |
| Voting.VotingRegistry.GetThreshold | src/mapred/org/apache/hadoop/mapred/VotingSystem.java:51-55 | a strict majority of n that, for n >= 1, is at most n |
| Voting.VotingRegistry.HasMajorityOfDigests | src/mapred/org/apache/hadoop/mapred/VotingSystem.java:57-64 | returns the outcome on tid's current digests and records it; size() grows by one exactly when tid first reaches MAJORITY_VOTING |
| Voting.VotingRegistry.GetTaskWithoutMajority | src/mapred/org/apache/hadoop/mapred/VotingSystem.java:66-70 | -1 exactly when no evaluated reduce task is without a majority; otherwise the number of such a task |
| Voting.VotingRegistry.AllEqual | src/mapred/org/apache/hadoop/mapred/VotingSystem.java:73-79 | true iff every digest stored for tid equals digest; true with threshold digests stored implies MAJORITY_VOTING |
| Voting.VotingRegistry.GetTaskCompletionEvent | src/mapred/org/apache/hadoop/mapred/VotingSystem.java:124-129 | the events recorded for tid, empty when none is; AddTaskCompletionEvent states that each call appends one in arrival order |
| Voting.VotingRegistry.AddTaskCompletionEvent | src/mapred/org/apache/hadoop/mapred/VotingSystem.java:81-86 | tid's events end with the new one, earlier events preserved in order; other tasks untouched |
| Voting.VotingRegistry.AddFirst | src/mapred/org/apache/hadoop/mapred/VotingSystem.java:88-93 | the first event recorded for a task key is kept; a later event for the same key does not replace it |
| Voting.VotingRegistry.GetFirstHash | src/mapred/org/apache/hadoop/mapred/VotingSystem.java:111-116 | null until addFirstHash records a digest for tid, then that digest; AddFirstHash states that a later call does not replace it and RemoveHash that removing digests leaves it |
| Voting.VotingRegistry.AddFirstHash | src/mapred/org/apache/hadoop/mapred/VotingSystem.java:104-116 | getFirstHash returns the digest recorded first for tid; a later one does not replace it; other tasks untouched |
| Decimal.NaturalToString | src/contrib/vaidya/src/java/org/apache/hadoop/vaidya/statistics/job/JobStatistics.java:99-101 | the decimal text is digits only, without a leading zero except for 0 |
| Decimal.DigitsValueOfNaturalToString | src/contrib/vaidya/src/java/org/apache/hadoop/vaidya/statistics/job/JobStatistics.java:99-101 | the digits written for n denote n |
| Decimal.LongToString | src/contrib/vaidya/src/java/org/apache/hadoop/vaidya/statistics/job/JobStatistics.java:99-101 | Long.toString(v) is non-empty, starts with a minus sign exactly when v is negative, and ends in a digit |
| Decimal.ParseLong | src/contrib/vaidya/src/java/org/apache/hadoop/vaidya/statistics/job/JobStatistics.java:78-80 | a text Long.parseLong accepts is non-empty and ends in a digit, and it gives a negative long only after a minus sign |
| Decimal.ParseLongOfDigits | src/contrib/vaidya/src/java/org/apache/hadoop/vaidya/statistics/job/JobStatistics.java:78-80 | unsigned digit text parses to the number it denotes when that fits in a long and is rejected otherwise; text that parses is digits after at most one sign |
| Decimal.ParseLongOfLongToString | src/contrib/vaidya/src/java/org/apache/hadoop/vaidya/statistics/job/JobStatistics.java:78-101 | Long.parseLong(Long.toString(v)) == v for every long v |
| Decimal.ParseLongRejectsLoneSign | src/contrib/vaidya/src/java/org/apache/hadoop/vaidya/statistics/job/JobStatistics.java:78-80 | "", "-" and "+" are not longs |
| StatKeys.JobKeyOf | src/contrib/vaidya/src/java/org/apache/hadoop/vaidya/statistics/job/JobStatistics.java:271-294 | the 15 copied history keys go to job keys that are never filled from the counters; START_TIME and every other key are not copied |
| StatKeys.MapTaskKeyOf | src/contrib/vaidya/src/java/org/apache/hadoop/vaidya/statistics/job/JobStatistics.java:171-187 | the 8 copied history keys go to map task keys that are neither counters nor NUM_ATTEMPTS |
| StatKeys.ReduceTaskKeyOf | src/contrib/vaidya/src/java/org/apache/hadoop/vaidya/statistics/job/JobStatistics.java:210-227 | the 9 copied history keys go to reduce task keys that are neither counters nor NUM_ATTEMPTS |
| StatKeys.Lookup | src/contrib/vaidya/src/java/org/apache/hadoop/vaidya/statistics/job/JobStatistics.java:307-343 | the if-else chain finds a key whose name is the given one, and finds none exactly when no listed key has that name |
| StatKeys.JobCounterKey | src/contrib/vaidya/src/java/org/apache/hadoop/vaidya/statistics/job/JobStatistics.java:301-345 | a recognised job counter name yields a counter key listed under exactly that name; a name none of the 17 carries yields nothing |
| StatKeys.MapCounterKey | src/contrib/vaidya/src/java/org/apache/hadoop/vaidya/statistics/job/JobStatistics.java:350-380 | the same for the 10 map task counter names |
| StatKeys.ReduceCounterKey | src/contrib/vaidya/src/java/org/apache/hadoop/vaidya/statistics/job/JobStatistics.java:385-413 | the same for the 9 reduce task counter names |
| StatKeys.MapIgnoresReduceInputGroups | src/contrib/vaidya/src/java/org/apache/hadoop/vaidya/statistics/job/JobStatistics.java:350-380 | "Reduce input groups" is not a map task counter |
| StatKeys.ReduceRecordsInputGroups | src/contrib/vaidya/src/java/org/apache/hadoop/vaidya/statistics/job/JobStatistics.java:407-408 | "Reduce input groups" is a reduce task counter |
| StatKeys.ReduceIgnoresMapInputRecords | src/contrib/vaidya/src/java/org/apache/hadoop/vaidya/statistics/job/JobStatistics.java:385-413 | "Map input records" is not a reduce task counter |
| StatKeys.MapRecordsInputRecords | src/contrib/vaidya/src/java/org/apache/hadoop/vaidya/statistics/job/JobStatistics.java:364-365 | "Map input records" is a map task counter |
| Counters.SplitAll | src/contrib/vaidya/src/java/org/apache/hadoop/vaidya/statistics/job/JobStatistics.java:306 | there is at least one piece, and no piece holds the separator |
| Counters.JoinSplitAll | src/contrib/vaidya/src/java/org/apache/hadoop/vaidya/statistics/job/JobStatistics.java:306 | joining the pieces with the separator gives back the string |
| Counters.SplitAllJoin | src/contrib/vaidya/src/java/org/apache/hadoop/vaidya/statistics/job/JobStatistics.java:306 | splitting joined separator-free pieces gives back the pieces |
| Counters.RunLength | src/contrib/vaidya/src/java/org/apache/hadoop/vaidya/statistics/job/JobStatistics.java:43 | the run at the start holds no comma and ends at a comma or at the end |
| Counters.Tuples | src/contrib/vaidya/src/java/org/apache/hadoop/vaidya/statistics/job/JobStatistics.java:302-304 | every match of the pattern is non-empty and holds no comma |
| Counters.TuplesAreNonEmptyPieces | src/contrib/vaidya/src/java/org/apache/hadoop/vaidya/statistics/job/JobStatistics.java:43 | the matches are exactly the non-empty comma-separated pieces, in order |
| Counters.DropTrailingEmpty | src/contrib/vaidya/src/java/org/apache/hadoop/vaidya/statistics/job/JobStatistics.java:306 | a prefix of the pieces, not ending in an empty piece, with only empty pieces dropped |
| Counters.JavaSplit | src/contrib/vaidya/src/java/org/apache/hadoop/vaidya/statistics/job/JobStatistics.java:306 | String.split on one character: the string itself when the separator does not occur, otherwise pieces that never end in an empty piece |
| Counters.JavaSplitOfSeparators | src/contrib/vaidya/src/java/org/apache/hadoop/vaidya/statistics/job/JobStatistics.java:306 | the split has no part at all exactly when the string is non-empty and made of separators only |
| Counters.JavaSplitDropsEmptyValue | src/contrib/vaidya/src/java/org/apache/hadoop/vaidya/statistics/job/JobStatistics.java:306 | a name followed by the separator and nothing else splits into the name alone |
| Counters.UnreadableTuples | src/contrib/vaidya/src/java/org/apache/hadoop/vaidya/statistics/job/JobStatistics.java:306-308 | the tuples the parser throws on: a tuple of colons only has no parts[0]; a recognised name alone, or followed by a colon and nothing more, has no parts[1] |
| Counters.CounterUpdatesKeys | src/contrib/vaidya/src/java/org/apache/hadoop/vaidya/statistics/job/JobStatistics.java:301-345 | the parsed tuples fill exactly the keys of the recognised names among them |
| Counters.CounterUpdatesLastWins | src/contrib/vaidya/src/java/org/apache/hadoop/vaidya/statistics/job/JobStatistics.java:301-345 | a key holds the value of the last tuple that names it |
| Counters.AddCounters | src/contrib/vaidya/src/java/org/apache/hadoop/vaidya/statistics/job/JobStatistics.java:350-380 | the while(m.find()) loop leaves the table updated with the entries of the recognised tuples, later ones winning; other entries stay |
| Counters.UpdatesStep | src/contrib/vaidya/src/java/org/apache/hadoop/vaidya/statistics/job/JobStatistics.java:303-343 | one more tuple adds its entry, if its name is recognised, and nothing else |
| Counters.SplitTuple | src/contrib/vaidya/src/java/org/apache/hadoop/vaidya/statistics/job/JobStatistics.java:306-308 | "name:value" with plain name and value splits into exactly name and value |
| Counters.TuplesOfRender | src/contrib/vaidya/src/java/org/apache/hadoop/vaidya/statistics/job/JobStatistics.java:302-304 | the matches of a rendered counters string are its "name:value" tuples |
| Counters.ParseRender | src/contrib/vaidya/src/java/org/apache/hadoop/vaidya/statistics/job/JobStatistics.java:301-345 | a rendered counters string is readable, and parsing it fills the table the counters describe (round trip) |
| Records.DirectSource | src/contrib/vaidya/src/java/org/apache/hadoop/vaidya/statistics/job/JobStatistics.java:271-287 | every copied entry comes from a visited history key that the switch maps to it |
| Records.DirectEntries | src/contrib/vaidya/src/java/org/apache/hadoop/vaidya/statistics/job/JobStatistics.java:271-287 | a copied key is filled exactly when its history key was visited, with that key's value |
| Records.CopiedNotParsed | src/contrib/vaidya/src/java/org/apache/hadoop/vaidya/statistics/job/JobStatistics.java:271-291 | a key a history key is copied to is never filled from the counters |
| Records.DirectSkip | src/contrib/vaidya/src/java/org/apache/hadoop/vaidya/statistics/job/JobStatistics.java:288-293 | visiting a history key the switch does not copy leaves the copied entries unchanged |
| Records.RecordEntries | src/contrib/vaidya/src/java/org/apache/hadoop/vaidya/statistics/job/JobStatistics.java:263-296 | after the switch, a key is filled iff some history key is copied to it or a counter names it, and a copied key holds its history key's value |
| Records.Populate | src/contrib/vaidya/src/java/org/apache/hadoop/vaidya/statistics/job/JobStatistics.java:263-296 | visiting the entries in any order yields the table plus every copied and parsed entry; counted iff COUNTERS was present |
| Records.Visit | src/contrib/vaidya/src/java/org/apache/hadoop/vaidya/statistics/job/JobStatistics.java:271-294 | one turn of the switch takes the table from the record of the visited keys to that of one more key |
| Records.CopyStep | src/contrib/vaidya/src/java/org/apache/hadoop/vaidya/statistics/job/JobStatistics.java:272-287 | copying a listed history key updates its one entry |
| Records.CounterStep | src/contrib/vaidya/src/java/org/apache/hadoop/vaidya/statistics/job/JobStatistics.java:288-291 | visiting COUNTERS merges the parsed counters in |
| Records.SkipStep | src/contrib/vaidya/src/java/org/apache/hadoop/vaidya/statistics/job/JobStatistics.java:292-293 | visiting any other history key (START_TIME included) changes nothing |
| Records.FirstSuccess | src/contrib/vaidya/src/java/org/apache/hadoop/vaidya/statistics/job/JobStatistics.java:243-258 | null iff no attempt succeeded; otherwise a successful attempt with no successful attempt before it |
| Records.LastSuccessfulTaskAttempt | src/contrib/vaidya/src/java/org/apache/hadoop/vaidya/statistics/job/JobStatistics.java:243-258 | the search loop returns the first successful attempt in iteration order, or null |
| Records.AttemptCount | src/contrib/vaidya/src/java/org/apache/hadoop/vaidya/statistics/job/JobStatistics.java:191 | the decimal text of the number of attempts |
| Records.MapTaskStatistics | src/contrib/vaidya/src/java/org/apache/hadoop/vaidya/statistics/job/JobStatistics.java:154-191 | a map task's statistics are built from its values merged with its successful attempt's, plus NUM_ATTEMPTS; it is listed iff the merged values have COUNTERS |
| Records.ReduceTaskStatistics | src/contrib/vaidya/src/java/org/apache/hadoop/vaidya/statistics/job/JobStatistics.java:193-231 | the same for a reduce task |
| Records.MapStatsCopied | src/contrib/vaidya/src/java/org/apache/hadoop/vaidya/statistics/job/JobStatistics.java:166-191 | every listed history key of a map task's merged values is under its map task key, and NUM_ATTEMPTS holds the attempt count |
| Records.MapStatsCounters | src/contrib/vaidya/src/java/org/apache/hadoop/vaidya/statistics/job/JobStatistics.java:180-184 | a counter key in a map task's statistics was parsed out of its COUNTERS value |
| Records.ReduceStatsCopied | src/contrib/vaidya/src/java/org/apache/hadoop/vaidya/statistics/job/JobStatistics.java:205-230 | the same as MapStatsCopied for a reduce task |
| Records.ReduceStatsCounters | src/contrib/vaidya/src/java/org/apache/hadoop/vaidya/statistics/job/JobStatistics.java:220-224 | the same as MapStatsCounters for a reduce task |
| TaskOrdering.CompareLongs | src/contrib/vaidya/src/java/org/apache/hadoop/vaidya/statistics/job/JobStatistics.java:502-505 | -1, 0 or 1, negative iff a < b, zero iff equal, positive iff a > b |
| TaskOrdering.FoldCaseProperties | src/contrib/vaidya/src/java/org/apache/hadoop/vaidya/statistics/job/JobStatistics.java:507 | folding leaves no upper-case ASCII letter, folding twice is folding once, and two characters fold alike iff they are equal or the two cases of one letter |
| TaskOrdering.Folded | src/contrib/vaidya/src/java/org/apache/hadoop/vaidya/statistics/job/JobStatistics.java:507 | the string with each character case-folded, same length |
| TaskOrdering.CompareIgnoreCase | src/contrib/vaidya/src/java/org/apache/hadoop/vaidya/statistics/job/JobStatistics.java:507 | compareToIgnoreCase of a string with itself is 0, and 0 only for strings of the same length |
| TaskOrdering.CompareIgnoreCaseAntisymmetric | src/contrib/vaidya/src/java/org/apache/hadoop/vaidya/statistics/job/JobStatistics.java:507 | swapping the strings negates compareToIgnoreCase |
| TaskOrdering.CompareIgnoreCaseZero | src/contrib/vaidya/src/java/org/apache/hadoop/vaidya/statistics/job/JobStatistics.java:507 | compareToIgnoreCase is 0 iff the strings are equal up to case |
| TaskOrdering.CompareIgnoreCaseTransitive | src/contrib/vaidya/src/java/org/apache/hadoop/vaidya/statistics/job/JobStatistics.java:507 | "not after" under compareToIgnoreCase is transitive |
| TaskOrdering.Compare | src/contrib/vaidya/src/java/org/apache/hadoop/vaidya/statistics/job/JobStatistics.java:501-511 | the comparator gives -1, 0 or 1 under LONG, and 0 for two tasks with the same value under the key |
| TaskOrdering.CompareIsTotalPreorder | src/contrib/vaidya/src/java/org/apache/hadoop/vaidya/statistics/job/JobStatistics.java:501-511 | the task comparator is antisymmetric in sign, reflexive and transitive |
| TaskOrdering.CompareZero | src/contrib/vaidya/src/java/org/apache/hadoop/vaidya/statistics/job/JobStatistics.java:561-571 | two tasks compare equal iff their values under the key are equal as longs (LONG) or equal up to case (otherwise) |
| TaskOrdering.CompareLongOrder | src/contrib/vaidya/src/java/org/apache/hadoop/vaidya/statistics/job/JobStatistics.java:502-505 | under LONG a task compares below another exactly when its value is the smaller long, and above exactly when it is the larger |
| TaskOrdering.Insert | src/contrib/vaidya/src/java/org/apache/hadoop/vaidya/statistics/job/JobStatistics.java:483-488 | inserting into a sorted list keeps it sorted and adds exactly the one task |
| TaskOrdering.SortTasks | src/contrib/vaidya/src/java/org/apache/hadoop/vaidya/statistics/job/JobStatistics.java:486 | Collections.sort returns a sorted permutation; fewer than two tasks are left as they are |
| TaskOrdering.InsertionSort | src/contrib/vaidya/src/java/org/apache/hadoop/vaidya/statistics/job/JobStatistics.java:486 | inserting the tasks one by one yields a permutation of them that is sorted under the comparator |
| JobStats.SetLongThenGet | src/contrib/vaidya/src/java/org/apache/hadoop/vaidya/statistics/job/JobStatistics.java:78-101 | after setValue(key, long) getLongValue(key) returns the value and getStringValue its decimal text; other keys are unchanged |
| JobStats.SetStringThenGet | src/contrib/vaidya/src/java/org/apache/hadoop/vaidya/statistics/job/JobStatistics.java:92-115 | after setValue(key, String) getStringValue(key) returns the string; other keys are unchanged |
| JobStats.MapListPlaces | src/contrib/vaidya/src/java/org/apache/hadoop/vaidya/statistics/job/JobStatistics.java:150-191 | the map task list has one entry per map task with counters, and such a task's statistics sit at its turn among them |
| JobStats.ReduceListPlaces | src/contrib/vaidya/src/java/org/apache/hadoop/vaidya/statistics/job/JobStatistics.java:193-231 | the same for the reduce task list |
| JobStats.ListsStep | src/contrib/vaidya/src/java/org/apache/hadoop/vaidya/statistics/job/JobStatistics.java:150-237 | one more task appends at most its own statistics to each list |
| JobStats.UnlistedAddsNothing | src/contrib/vaidya/src/java/org/apache/hadoop/vaidya/statistics/job/JobStatistics.java:232-236 | a cleanup task, a task of unknown type or one without counters adds to neither list |
| JobStats.PopulateJob | src/contrib/vaidya/src/java/org/apache/hadoop/vaidya/statistics/job/JobStatistics.java:263-296 | populate_Job adds to the job table every copied history value and every recognised job counter |
| JobStats.PopulateMapReduceTaskLists | src/contrib/vaidya/src/java/org/apache/hadoop/vaidya/statistics/job/JobStatistics.java:142-238 | the two lists grow by the statistics of the map and reduce tasks with counters, in task order |
| JobStats.JobStatistics.constructor | src/contrib/vaidya/src/java/org/apache/hadoop/vaidya/statistics/job/JobStatistics.java:131-137 | the job table and both task lists are populated from the job's history, with no sorted list made yet |
| JobStats.JobStatistics.GetStringValue | src/contrib/vaidya/src/java/org/apache/hadoop/vaidya/statistics/job/JobStatistics.java:92-94 | the text stored under key, null when none is; SetStringValue and SetLongValue state what it reads after them |
| JobStats.JobStatistics.GetLongValue | src/contrib/vaidya/src/java/org/apache/hadoop/vaidya/statistics/job/JobStatistics.java:78-80 | Long.parseLong of what getStringValue returns; no long when getStringValue is null |
| JobStats.JobStatistics.SetLongValue | src/contrib/vaidya/src/java/org/apache/hadoop/vaidya/statistics/job/JobStatistics.java:99-101 | stores Long.toString of the value, which getLongValue reads back |
| JobStats.JobStatistics.SetStringValue | src/contrib/vaidya/src/java/org/apache/hadoop/vaidya/statistics/job/JobStatistics.java:113-115 | stores the string, which getStringValue reads back |
| JobStats.JobStatistics.GetMapTaskList | src/contrib/vaidya/src/java/org/apache/hadoop/vaidya/statistics/job/JobStatistics.java:466-488 | a missing key means TASK_ID; the result is a permutation of the map task list; a kept list is returned unchanged whatever the dataType; otherwise it is sorted under key and dataType and kept, and the map task list itself is not reordered |
| JobStats.JobStatistics.GetReduceTaskList | src/contrib/vaidya/src/java/org/apache/hadoop/vaidya/statistics/job/JobStatistics.java:525-548 | the same for the reduce task list |

## Left out

- Concurrency: the `synchronized` on `getMapTaskList`/`getReduceTaskList`, and any
  synchronisation the voting registry needs. Every operation is sequential and atomic.
- `getDoubleValue` and `setValue(Enum, double)`: floating point.
- `printJobExecutionStatistics`, `getJobConf`/`setJobConf` and every `System.out.println`
  diagnostic: output and configuration, with no effect on the statistics.
- `KillTask`: it has no decision logic. It is not part of this model.
- Exceptions become preconditions:
  - a counter tuple made of colons only, which splits into no part at all (`parts[0]`);
  - a recognised counter name without `:`, or followed by `:` and nothing else, since
    the split drops the empty value (`parts[1]`);
  - a task without `TASK_TYPE`;
  - an attempt without `TASK_STATUS` reached by the search;
  - a task that cannot be compared under the sort key (null value, or a value that is not a
    long for LONG).
- `getLongValue` with a missing or non-numeric value returns `None` where Java throws
  `NumberFormatException`.
- Java map iteration order: records are visited in an arbitrary order, and the job's tasks
  in the order of the given sequence.
- `String.compareToIgnoreCase`: case folding is modelled for ASCII letters only.
- TaskOrdering.SortTasks: proved sorted and a permutation. Like Java's merge sort, the
  insertion places a task after those that compare equal to it, so equal tasks keep their
  order, but no lemma states this stability.
- Decimal.ParseLong: only the ASCII digits `0`-`9` are accepted. Java's `Long.parseLong`
  also accepts other Unicode decimal digits, so a value written with those is no long
  here (for getLongValue and the LONG comparator). A leading `+` is accepted, as in
  Java 7 and later; Java 6 rejects it.
- JobStats.JobStatistics.GetMapTaskList: the lists hold task statistics by value. Java
  hands out the cached `ArrayList` object itself, and the task lists hold the statistics
  objects by reference. Aliasing, and a caller mutating a returned list, are not modelled.
- Records.MapTaskStatistics: Java adds the statistics object to its list when `COUNTERS`
  is met and fills it further (`NUM_ATTEMPTS`) afterwards, through the shared reference.
  The model appends the finished statistics, which is the same content.
- Records.Merged: `putAll` writes the successful attempt's values into the task's own
  value map. The model merges them into a copy, so a later reader of the task's values
  does not see the change.
- `value.concat(",")` discards its result and has no effect. It is not modelled.
- TaskCompletionEvent and TaskID are opaque beyond the task key, replica, map flag and
  number. How digests are computed is left out; they are plain string sequences.
  `addHash` takes a map flag that the model does not keep.
- Voting.VotingRegistry.GetTaskWithoutMajority: which pending task is returned when
  several are pending is left open, as the interface does not say.
