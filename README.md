# MapReduce core, modelled in Dafny

This project models the sequential core of the `mapreduce` package of a
MapReduce library written in Go:

- the naming of intermediate and result files (`reduceName`, `mergeName`);
- the key hash `ihash` (32-bit FNV-1a, masked to 31 bits);
- one map task (`doMap`): route the pairs the map function emitted into
  `nReduce` buckets by hash, then store each bucket (`storeInto`);
- one reduce task (`doReduce`): merge the buckets that every map task wrote
  for it, then emit one record per key, keys in sorted order;
- the bookkeeping of `schedule`, which hands the tasks of a phase to workers,
  re-queues failed tasks and returns once every task is done.

Modules, one per file:

| file | module | models |
|---|---|---|
| wrappers.dfy | `Wrappers` | `Option` and `Result` |
| common.dfy | `Common` | `KeyValue`, `jobPhase`, `strconv.Itoa`, `reduceName`, `mergeName` |
| fnv.dfy | `Fnv` | FNV-1a over bytes and `ihash` |
| intermediate.dfy | `Intermediate` | a decoded intermediate file (`map[string][]string`) and the key-wise merge used by `storeInto` and `doReduce` |
| map_task.dfy | `MapTask` | `doMap` and `storeInto` |
| reduce_task.dfy | `ReduceTask` | `doReduce` |
| schedule.dfy | `Schedule` | `schedule`, as the class `Scheduler` with one method per event |

Keys and values are byte sequences, since `ihash` hashes the bytes of the
key. File names are Dafny strings. The file system is a map from file name
to decoded content (`Intermediate.Store`). FNV-1a is written on
unbounded integers with its arithmetic made explicit: XOR bit by bit, the
multiplication taken modulo 2^32, and the `0x7fffffff` mask taken as the
remainder modulo 2^31.

Three parts of the code do not do what they evidently intend:

- `storeInto` means to merge a bucket into its file's earlier content when
  the file exists (the comment at src/mapreduce/common_map.go:114-115). But
  `exists` is inverted (src/mapreduce/common.go:50). So the code as written
  dies through `log.Fatal` at the first missing file, which is every first
  run, and it overwrites a file that does exist with the new bucket alone.
  `MapTask.StoreIntoAsWritten` and `MapTask.DoMapAsWritten` model that code;
  `MapTask.StoreInto` and `MapTask.DoMap` model it with `exists` corrected
  (see "## Findings"). With the correction, a retried map task merges into
  its earlier files, and `MapTask.RetryDuplicates` proves that a retry
  emitting the same pairs then lists every value twice.
- `doReduce` as written does not compile. Its doc comment asks for sorted
  keys, one `reduceF` call per key and the merge of all map tasks' files.
  The model follows that intent and the loop structure. The defects of the
  code as written are listed in the header comment of reduce_task.dfy.
- In `schedule`, a worker received from `registerChan` while `taskChan` is
  empty is dropped: the line that would send it back is commented out
  (src/mapreduce/schedule.go:62-65). A task that fails later is queued
  again, but no worker may be left to take it, and the phase then stalls.
  `Schedule.Scheduler.Dispatch` models the code as written, and
  `Schedule.LostWorkerExample` shows the stall with one task and two
  workers. No corrected version is given: restored where it stands, the
  send would block the very loop that receives from `registerChan` unless
  the channel had room to spare, and its buffering is set outside
  `schedule`.

## Model

| member | source | states |
|---|---|---|
| Common.NatToDecimalDigits | src/mapreduce/common.go:39 | the decimal text of a natural number is non-empty and all digits, and one digit long exactly below ten |
| Common.ItoaShape | src/mapreduce/common.go:39 | `strconv.Itoa`'s text is non-empty, starts with '-' exactly for negative numbers and is digits otherwise |
| Common.ItoaInjective | src/mapreduce/common.go:39 | two ints with the same decimal text are equal |
| Common.ItoaDashOnlyFirst | src/mapreduce/common.go:39 | no '-' occurs after the first character of an int's decimal text |
| Common.SplitAfterItoa | src/mapreduce/common.go:39 | "Itoa(x)-y" determines both x and y, because the separator dash cannot belong to the number |
| Common.ReduceNameInjective | src/mapreduce/common.go:38-40 | for a fixed job name, `reduceName` is injective in (map task, reduce task), for all ints |
| Common.MergeNameInjective | src/mapreduce/common.go:43-45 | for a fixed job name, `mergeName` is injective in the reduce task |
| Common.ReduceNameNotMergeName | src/mapreduce/common.go:38-45 | no intermediate file name equals a result file name of the same job |
| Fnv.IHash | src/mapreduce/common_map.go:95-99 | `ihash` lies in [0, 2^31) |
| Fnv.AbsorbAppend | src/mapreduce/common_map.go:96-97 | hashing a + b continues from the state reached after a: the hash is a left fold over the bytes |
| Fnv.Fnv1aSnoc | src/mapreduce/common_map.go:96-97 | one more byte is one more XOR-then-multiply step |
| Fnv.XorBitsBound | src/mapreduce/common_map.go:97 | the XOR of two numbers of w bits has w bits, so each step stays within 32 bits |
| Fnv.KnownAnswers | src/mapreduce/common_map.go:95-98 | the FNV-1a 32-bit test vectors for "" (0x811c9dc5), "a" (0xe40c292c) and "ab" (0x4d2505ca, which fixes the byte order), and their 31-bit masks |
| Intermediate.MergeInto | src/mapreduce/common_map.go:120-129 | the merge loop, over the keys in any order, computes `Merge`: every key of either side, with the first side's values followed by the second's |
| Intermediate.SizeUpdate | src/mapreduce/common_map.go:122-125 | replacing one key's list changes the number of values by the difference in list lengths |
| Intermediate.MergeSize | src/mapreduce/common_map.go:120-129 | a merge loses and invents no value: the value counts add up |
| Intermediate.MergeSelfDuplicates | src/mapreduce/common_map.go:120-129 | merging a bucket with itself keeps its keys and lists every value twice |
| MapTask.Route | src/mapreduce/common_map.go:79 | a key goes to a bucket in [0, nReduce) |
| MapTask.ValuesOfNonEmpty | src/mapreduce/common_map.go:80-88 | a key has a list in the output exactly when some pair carries it |
| MapTask.ValueListed | src/mapreduce/common_map.go:80-88 | the value of every pair is in its key's list |
| MapTask.RoutedToSnoc | src/mapreduce/common_map.go:78-89 | one more pair changes only the bucket its key routes to: it creates the key's list or appends to it |
| MapTask.EveryPairRouted | src/mapreduce/common_map.go:78-89 | every pair's key and value are in bucket ihash(key) % nReduce, and the key is in no other bucket |
| MapTask.PartitionedSize | src/mapreduce/common_map.go:78-89 | the buckets together hold exactly as many values as the map function emitted pairs |
| MapTask.Partition | src/mapreduce/common_map.go:72-89 | negative nReduce panics in `make`; nReduce = 0 with output panics on `% 0`; otherwise the result is exactly the nReduce buckets `Partitioned` defines |
| MapTask.NextOutputName | src/mapreduce/common_map.go:111-112 | the file name of bucket w differs from those of buckets 0 .. w-1 |
| MapTask.OverwriteStep | src/mapreduce/common_map.go:111-131 | overwriting bucket k's existing file extends the as-written store state by one bucket |
| MapTask.StoreIntoAsWritten | src/mapreduce/common_map.go:104-133 | with `exists` inverted: the store stops at the first bucket whose file is missing, and it only overwrites files that already exist, each with its bucket alone |
| MapTask.FirstRunAsWritten | src/mapreduce/common_map.go:111-119 | on a store without the task's files (other files allowed), the as-written store fails at bucket 0 and leaves the store as it was |
| MapTask.StoredSpec | src/mapreduce/common_map.go:113-131 | with no earlier content the bucket is written as is; otherwise: union of keys, new values then earlier values for a shared key, one-sided keys unchanged, value counts add up |
| MapTask.StoreStep | src/mapreduce/common_map.go:111-131 | storing bucket k extends the store state by one bucket and leaves the other files as they were |
| MapTask.StoreInto | src/mapreduce/common_map.go:104-133 | bucket w goes to reduceName(jobName, mapTask, w), merged with the file's earlier content if any; the new files are exactly these names; no other file changes |
| MapTask.FirstRunStores | src/mapreduce/common_map.go:111-131 | with `exists` corrected, on a store without the task's files (other files allowed): the task's files are added, each holding its bucket as it is, and every other file is kept unchanged |
| MapTask.RetryDuplicates | src/mapreduce/common_map.go:113-131 | with `exists` corrected, storing the same buckets twice, starting from a store without the task's files, doubles every list and the value count of every file |
| MapTask.DoMap | src/mapreduce/common_map.go:72-91 | doMap with `exists` corrected: it fails exactly when Partition panics; otherwise bucket p of the map output goes to reduceName(jobName, mapTask, p), merged with earlier content, and no other file changes |
| MapTask.DoMapAsWritten | src/mapreduce/common_map.go:72-91 | doMap as written: the two panics; it finishes exactly when every one of the task's files already exists, and then each holds its new bucket alone; otherwise it stops through `log.Fatal` at a missing file, having overwritten the files before it |
| ReduceTask.LexIrreflexive | src/mapreduce/common_reduce.go:9-10 | no key sorts before itself |
| ReduceTask.LexTransitive | src/mapreduce/common_reduce.go:9-10 | the byte order on keys is transitive |
| ReduceTask.LexTotal | src/mapreduce/common_reduce.go:9-10 | any two different keys are ordered one way or the other |
| ReduceTask.ReadInputsSpec | src/mapreduce/common_reduce.go:53-55 | the task reads exactly reduceName(jobName, m, reduceTask) for m in [0, nMap), in order; it fails exactly when one is missing, and then names the first missing one |
| ReduceTask.ReadInputsErrStays | src/mapreduce/common_reduce.go:53-55 | once a file is missing, reading more files does not change the failure |
| ReduceTask.CombineGather | src/mapreduce/common_reduce.go:58-63 | the merged keys are the union of the files' keys, and each merged list is the concatenation of the key's lists, files in order |
| ReduceTask.CombineSize | src/mapreduce/common_reduce.go:53-66 | merging the files loses and invents no value |
| ReduceTask.ReduceOutputOncePerKey | src/mapreduce/common_reduce.go:70-71 | in a reduce output no key has two records, and there are as many records as merged keys, so reduceF is called once per key |
| ReduceTask.MinKey | src/mapreduce/common_reduce.go:9-10 | the key returned is in the set and sorts before every other key of it |
| ReduceTask.EmitStep | src/mapreduce/common_reduce.go:70-71 | emitting the least remaining key keeps the records sorted, complete for the emitted keys and below every remaining key |
| ReduceTask.Emit | src/mapreduce/common_reduce.go:68-72 | the records have strictly increasing keys, one per merged key, each valued reduceF(key, merged list) |
| ReduceTask.DoReduce | src/mapreduce/common_reduce.go:51-72 | a missing intermediate file fails the task with the first missing name; otherwise the output is the sorted reduce output of the merge of the files |
| Schedule.OtherPhaseCounts | src/mapreduce/schedule.go:18-27 | each phase's n_other is the other phase's task count |
| Schedule.AllTasks | src/mapreduce/schedule.go:36-43 | the task indices of a phase are exactly 0 .. ntasks-1, ntasks of them |
| Schedule.Ascending | src/mapreduce/schedule.go:41-43 | the initial queue holds task i at position i |
| Schedule.PlacesAddUp | src/mapreduce/schedule.go:39-43 | queued, running and done tasks add up to ntasks; so the queue never exceeds taskChan's capacity, and all tasks are done exactly when ntasks are |
| Schedule.AccountedInitially | src/mapreduce/schedule.go:39-43 | initially every task is queued and none is running or done |
| Schedule.AccountedDispatch | src/mapreduce/schedule.go:66 | taking the queue head keeps every task in exactly one place |
| Schedule.AccountedFail | src/mapreduce/schedule.go:75-76 | re-queueing a failed task keeps every task in exactly one place |
| Schedule.AccountedSucceed | src/mapreduce/schedule.go:78-82 | a successful task is counted done once, and only a task not yet done can be |
| Schedule.Scheduler.constructor | src/mapreduce/schedule.go:17-43 | ntasks and n_other by phase; the queue holds 0 .. ntasks-1 in order; the counter starts at ntasks |
| Schedule.Scheduler.Register | src/mapreduce/schedule.go:8-16 | a registering worker is appended to registerChan; nothing else changes |
| Schedule.Scheduler.Dispatch | src/mapreduce/schedule.go:61-71 | a received worker gets the head task with DoTaskArgs{jobName, file, phase, task, n_other}, file being mapFiles[task] in the Map phase and "" otherwise; with an empty queue the worker is dropped |
| Schedule.Scheduler.Finish | src/mapreduce/schedule.go:72-84 | a failed call re-queues its task and drops the worker; a successful one counts the task done once and returns the worker to registerChan |
| Schedule.Scheduler.AllDone | src/mapreduce/schedule.go:49-52 | the WaitGroup's wait ends exactly when every task of the phase is done, and then nothing is queued or running |
| Schedule.Scheduler.Run | src/mapreduce/schedule.go:54-86 | the event loop keeps every task in exactly one place, never undoes a task, and reports finished exactly when every task is done |
| Schedule.LostWorkerExample | src/mapreduce/schedule.go:62-65 | with one task and two workers, dropping the second worker and failing the first leaves the task queued with no worker to receive |

## Left out

- All file I/O (`ioutil.ReadFile`, `os.Create`, `os.Open`, `os.Stat`): files are entries of a name-to-content map.
- JSON encoding and decoding: a file's content is its decoded bucket, so the model assumes that encoding and decoding lose nothing. Go's `encoding/json` replaces bytes that are not valid UTF-8 in strings and map keys, and two keys that become the same JSON key keep only the last list. So the "no value lost" results across files (`Intermediate.MergeSize`, `ReduceTask.CombineSize`, `MapTask.StoredSpec`) hold for the program only when keys and values are valid UTF-8.
- Reading the map task's input file and calling `mapF` (src/mapreduce/common_map.go:62-68): the pairs `mapF` returned are a parameter of `MapTask.Partition`, `MapTask.DoMap` and `MapTask.DoMapAsWritten`.
- `log.Fatal` through `ErrorClient`: modelled as an error result (`ok == false` or `Err(name)`), never as a process exit.
- `debug` and `fmt.Printf` logging.
- The `call` RPC: its outcome is the `success` parameter of `Schedule.Scheduler.Finish`.
- `reduceF` is a total function parameter. Writing the reduce output file is left out: `ReduceTask.DoReduce` returns the records.
- Goroutines, the `WaitGroup`, channel blocking and the watcher goroutine: each event is a method call. Sends on `registerChan` from finished calls after `schedule` has returned are not modelled.
- Schedule.Scheduler.Run: `select` picks at random among ready channels; the model checks for completion before each event, and skips an event the Go program could not take (a receive from an empty `registerChan`, the reply of a task not running). It does not state which events were consumed.
- Schedule.Scheduler.constructor: a negative task count (the Reduce phase with nReduce < 0) panics in `waitListener.Add` and `make`; the constructor requires it away.
- `jobPhase` is a Go string type, so other phase strings compile and give ntasks = n_other = 0; the model has only the two phases.
- Fnv.KnownAnswers: only the test vectors for "", "a" and "ab" are stated; the general properties are `Fnv.AbsorbAppend` and `Fnv.Fnv1aSnoc`.
- Fnv.XorBitsBound: the bit-by-bit XOR is checked against one known answer and a width bound, not against a general definition of bitwise XOR.
- Go map iteration order: the merge loops take keys in any order, and the merge does not depend on it.
- The defects of `doReduce` as written (nil maps, inverted decode loop, `[]string{v}`, the discarded `append`, the shared `tmp` map, unsorted emission) are documented in reduce_task.dfy and not modelled: the code does not compile.
- Integer widths: task numbers are Go `int`s and the model's ints are unbounded; no width matters for the names or counts here.

## Findings

| source | as written | input that shows it | evidently intended | confidence | as-written member | corrected member |
|---|---|---|---|---|---|---|
| src/mapreduce/common.go:48-51 | `exists` returns `os.IsNotExist(err)`, true when the file is absent. So `storeInto`'s merge branch (src/mapreduce/common_map.go:113-119) runs exactly when the file is missing, and its `ReadFile` then fails fatally. A file that does exist is overwritten, not merged. | the first run of any map task with nReduce >= 1, when none of its files exist yet | `exists` reports presence. Earlier content is merged when the file exists (the comment at src/mapreduce/common_map.go:114-115), and the bucket is written as it is otherwise | high; not executed | MapTask.StoreIntoAsWritten, MapTask.FirstRunAsWritten, MapTask.DoMapAsWritten | MapTask.StoreInto, MapTask.DoMap (doMap with `exists` corrected) |
