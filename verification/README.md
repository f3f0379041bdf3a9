# MapReduce draft (Go, `mr` package): master task registry and worker data shaping

A Dafny model of the core of a draft MapReduce coordinator/worker pair. It covers three things.

- **The master's Map-task registry** (`master.go`). `MakeMaster` builds a map from input file name to "already handed out", plus two pending counters. `RequestTask(Map)` hands out any file not yet handed out.
- **The worker's data shaping** (`worker.go`):
  - `ihash`, which is 32-bit FNV-1a with bit 31 cleared;
  - the split of a Map task's output into `nreduce` buckets and the intermediate files `mr-<task>-<bucket>`;
  - the reducer's reading of its id from the glob pattern;
  - the grouping of decoded records by key and the `key result` output lines;
  - the dispatch of the worker loop on the master's reply.
- **The protocol vocabulary** (`rpc.go`): the task types, the sentinel errors, the reply record, and the socket name `masterSock`.

Modules:

- `Rpc` (rpc.go), `Master` (master.go) and `Worker` (worker.go) follow the source files.
- `Decimal` models `strconv.Itoa` and `%d`, together with the reading that undoes them.
- `Utf8` models Go's `[]byte(string)`.
- `Fnv` models `hash/fnv`'s `New32a` and `Sum32`.
- `Seqs` and `Wrappers` are small helpers.

How the model treats effects:

- **RequestTask.** Each call runs under the master's mutex, so it is one atomic step. Go's map iteration order is random, so the step picks an arbitrary unassigned file (`:|`). A run of calls is a sequence of such steps.
- **File contents.** Inputs are parameters. A failed read is `None`. The reducer receives one record sequence per file matched by the glob, in the glob's order.
- **Files written.** The intermediate files and the reducer output are returned as values.
- **Worker side effects.** Sleeping, exiting and notifying the master are returned as a list of effects.

Where the code differs from its own comments or from what its callers expect, the model follows the code:

- The comment on `ErrWait` (rpc.go:25-26) says the master returns it when every task is handed out, but a Map request that finds every file already handed out does not answer ErrWait. It falls through and returns the "Allowed taskType values are 0 for Map and 1 for Reduce" error (master.go:30-43). The worker treats any error other than ErrWait as "master gone" and exits.
- The comment on `Worker` (worker.go:34-38) says the worker exits if the master does not answer within 10 seconds. There is no timeout in the code: a call that fails for any reason other than ErrWait exits at once.
- Tasks carry only a boolean "handed out". There are no Idle/InProgress/Completed states, no timeouts, no completion handling, no counter decrements and no Reduce assignment. `RequestTask(Reduce)` always fails.
- `NMappersPending` is `len(files)`, so it counts a file listed twice twice. The registry holds it once (`MakeMasterCountsDuplicates`).
- The reducer writes `mr-out-<id>` directly. There is no temporary file and no atomic rename.
- The worker calls `Master.RequestTask` with `TaskArgs`/`TaskResponse`, but the master's handler takes `(TaskType, *string)`. It also uses `DoneArgs`, `DoneResponse` and `Master.NotifyDone`, which are not declared anywhere in these files. Each side is modelled as written, and the outcome of a call is a parameter of the worker model.

## Model

| member | source | states |
|---|---|---|
| Rpc.ProtocolConstantsDistinct | mit6824/src/mr/rpc.go:20-30 | `Map` is 0 and `Reduce` is 1, so they differ. ErrWait and ErrDone are different error values with different messages. |
| Rpc.MasterSock | mit6824/src/mr/rpc.go:50-54 | The socket name starts with `/var/tmp/824-mr-`. The rest is the decimal rendering of the uid, and reading it back yields the uid. |
| Rpc.MasterSockInjective | mit6824/src/mr/rpc.go:50-54 | Two uids give the same socket name exactly when they are equal. |
| Decimal.ItoaRoundTrip | mit6824/src/mr/rpc.go:52 | Reading back the decimal text `strconv.Itoa` produces (sign included) yields the original integer. |
| Decimal.ItoaInjective | mit6824/src/mr/rpc.go:52 | Different integers have different decimal renderings. |
| Master.Unassigned | mit6824/src/mr/master.go:80-85 | The loop over `files` yields a map whose key set is exactly the set of listed files, with every entry `false`. |
| Master.MakeMaster | mit6824/src/mr/master.go:79-90 | The new master's registry keys are exactly the input files, all unassigned. `NMappersPending` is the list length and `NReducePending` is `nReduce`. |
| Master.MakeMasterCountsDuplicates | mit6824/src/mr/master.go:83-89 | `NMappersPending` is at least the number of registry entries. The two are equal exactly when no file name is listed twice. |
| Master.RequestTask | mit6824/src/mr/master.go:26-44 | A Map request succeeds (nil error) exactly when some entry is `false`. It then returns such a file, flips only that entry to `true`, and leaves the key set and both counters unchanged. Reduce returns the "not yet implemented" error. Map with nothing unassigned and any other value return the invalid-task-type error. In every error case the state and `*reply` are untouched. |
| Master.RunAccounted | mit6824/src/mr/master.go:30-34 | After any serialised run of calls, an entry is `true` exactly when it was at the start or a successful call returned it. Keys and counters are unchanged. The files returned are pairwise distinct and were all unassigned at the start. |
| Master.NoFileGrantedTwice | mit6824/src/mr/master.go:30-34 | Over any run, no file is returned twice. Successful calls never outnumber the files unassigned at the start. |
| Master.GrantsBoundedByInputs | mit6824/src/mr/master.go:79-90 | From `MakeMaster(files, n)`, every file returned is an input file and none is returned twice. There are at most as many successes as distinct input names. |
| Utf8.EncodeChar | mit6824/src/mr/worker.go:30 | `[]byte(key)` per code point: 1 byte below 0x80 (equal to the code point), 2 below 0x800, 3 below 0x10000, else 4. The lead byte has the form `110xxxxx`, `1110xxxx` or `11110xxx` matching the length, and the rest are `10xxxxxx`. |
| Utf8.DecodeEncodeChar | mit6824/src/mr/worker.go:30 | Each code point's bytes form one well-formed, shortest-form sequence whose payload bits reassemble to that code point. |
| Utf8.DecodeEncode | mit6824/src/mr/worker.go:30 | Decoding the bytes of any key, code point after code point, gives the key back. |
| Utf8.EncodeInjective | mit6824/src/mr/worker.go:30 | Two keys have the same bytes exactly when they are equal, so `ihash` sees distinct keys as distinct inputs. |
| Utf8.AsciiEncoding | mit6824/src/mr/worker.go:30 | An ASCII key's bytes are its characters, one for one. |
| Fnv.Sum32 | mit6824/src/mr/worker.go:29-31 | The byte loop of `New32a`/`Write`/`Sum32` computes the FNV-1a fold (xor the byte, multiply by 16777619 mod 2^32, starting from 2166136261). |
| Fnv.TestVectors | mit6824/src/mr/worker.go:29-31 | The fold gives the published FNV-1a digests of "" (0x811c9dc5) and "a" (0xe40c292c). |
| Fnv.FoobarVector | mit6824/src/mr/worker.go:29-31 | The fold gives the published FNV-1a digest of "foobar" (0xbf9cf968). |
| Worker.IHash | mit6824/src/mr/worker.go:28-32 | `ihash` is FNV-1a of the key's bytes with bit 31 cleared, so it lies in `[0, 2^31)`. |
| Worker.Mask31IsBitMask | mit6824/src/mr/worker.go:31 | `int(h & 0x7fffffff)` equals `h mod 2^31`, the value `IHash` uses. |
| Worker.BucketOf | mit6824/src/mr/worker.go:94 | For `nreduce > 0`, `ihash(key) % nreduce` lies in `[0, nreduce)`. |
| Worker.EqualKeysShareBucket | mit6824/src/mr/worker.go:94 | The bucket depends only on the key: pairs with equal keys share a bucket. |
| Worker.SelectMembers | mit6824/src/mr/worker.go:93-100 | A pair is in bucket `i` exactly when it was emitted and the bucket function sends its key to `i`. |
| Worker.PartitionByIsPermutation | mit6824/src/mr/worker.go:93-100 | For any bucket function with values in `[0, n)`, the `n` buckets together are a permutation of the emitted pairs. |
| Worker.PartitionEmitted | mit6824/src/mr/worker.go:93-100 | The append loop yields `nreduce` buckets. Bucket `i` is exactly the emitted pairs hashing to `i`, in emission order. |
| Worker.PartitionIsPermutation | mit6824/src/mr/worker.go:93-100 | The buckets together are a permutation of `kvsEmitted`, and each emitted pair is in exactly the bucket its key hashes to. |
| Worker.IntermediateNamesDistinct | mit6824/src/mr/worker.go:82-83 | For one task, `mr-<taskID>-<i>` and `mr-<taskID>-<j>` are equal exactly when `i == j`. |
| Worker.HandleMap | mit6824/src/mr/worker.go:70-102 | A failed read stops with no files. A negative `nreduce` panics in `make`. With `nreduce == 0` it succeeds with no files only if `mapf` emitted nothing, and otherwise panics on `% 0`. With `nreduce > 0` there are exactly `nreduce` files, empty buckets included: file `i` is named `mr-<taskID>-<i>` and holds bucket `i`. |
| Worker.LastIndex | mit6824/src/mr/worker.go:110 | `strings.LastIndex` for one character: -1 when absent, otherwise a position holding it with none after. |
| Worker.ReducerID | mit6824/src/mr/worker.go:110-111 | The reducer id is the suffix of the pattern after its last `-`: it contains no `-`, and it is either the whole pattern or preceded by `-`. |
| Worker.ReducerIDOfIntermediate | mit6824/src/mr/worker.go:110-111 | For a name `mr-<t>-<i>` with `i >= 0` written by the Map side, the reducer id read back is the decimal `i`. |
| Worker.ReducerIDAfterDash | mit6824/src/mr/worker.go:110-111 | For any prefix and any `i >= 0`, the id read from `<prefix>-<i>` is the decimal `i`. |
| Worker.OutputNameOfBucket | mit6824/src/mr/worker.go:137 | The pattern `<prefix>-<i>` yields the output file `mr-out-<i>`, whatever the prefix. |
| Worker.OutputNamesDistinct | mit6824/src/mr/worker.go:137 | Patterns for buckets `i` and `j` yield the same output file exactly when `i == j`, so distinct reducers never share an output file. |
| Worker.ValuesForAbsent | mit6824/src/mr/worker.go:133 | A key that never occurs collects no values (a nil slice before the first append). |
| Worker.GroupByKey | mit6824/src/mr/worker.go:116-135 | `combinedMap`'s key set is exactly the keys seen. Each key's list is non-empty and holds exactly that key's values, in file-then-record order. |
| Worker.GroupedValuesCount | mit6824/src/mr/worker.go:116-135 | Over all keys, the group lengths sum to the number of records: no value is lost or duplicated. |
| Worker.WriteLines | mit6824/src/mr/worker.go:146-148 | Ranging over `combinedMap` in any order visits every key exactly once. Each key yields the line `key + " " + reducef(key, values) + "\n"`. |
| Worker.HandleReduce | mit6824/src/mr/worker.go:108-150 | Unreadable input stops with no output. Otherwise the output is named `mr-out-<id>` and has one line per distinct key of the matched files' records, each with the reduce of that key's values in file-then-record order. |
| Worker.Dispatch | mit6824/src/mr/worker.go:43-66 | On a nil error, type `Map` runs `handleMap` on the reply's file, `nReduce` and task id, and any other type runs `handleReduce` on the reply's file. Either way exactly the notice `DoneArgs{type, file}` follows. ErrWait sleeps one second. A failed dial exits with status 1 and any other error with status 0. The step ends in an exit exactly when the call neither succeeded nor returned ErrWait. |
| Worker.WorkerLoopShape | mit6824/src/mr/worker.go:42-66 | Over any run of the loop: every handler run is immediately followed by its task's completion notice, every notice follows a handler run, and an exit can only be the last thing done. |

## Left out

- RPC transport (`call`, `server`, `rpc.Register`, `DialHTTP`, `http.Serve`): network plumbing. A failed dial appears only as the `DialFailed` outcome, which exits with status 1 as `log.Fatal` does.
- Matching `ErrWait` across the RPC boundary: the worker model takes the returned error as given. Whether a server-side ErrWait arrives as the same value is transport behaviour.
- File I/O (`ReadFile`, `Create`, `Open`, `filepath.Glob`, deferred `Close`): input contents are parameters and outputs are values. Failures to create or write an intermediate or output file are not modelled. In the source they make the handler return early, after creating some of the files.
- `encoding/json`: records are passed as `KeyValue` values, so encoding and decoding are assumed to round-trip. Glob, open and decode failures of the reducer collapse into one unreadable-input case.
- `mapf` and `reducef`: caller-supplied. They are total pure function parameters.
- `time.Sleep`, `os.Exit`, `fmt.Println`/`Printf` logging: sleeps and exits are effects, and logging is dropped.
- `os.Getuid()`: the uid is a parameter of `MasterSock`.
- `Done()`: a stub that always returns false.
- Master-side handling of the `NotifyDone` call the worker makes (worker.go:50): no such handler is declared in master.go, and nothing there decrements the pending counters, times out a task, separates the Map and Reduce phases, assigns Reduce tasks or renames output atomically. There is no code to model.
- Go strings that are not valid UTF-8: keys are Dafny strings (Unicode scalar values), so `[]byte(key)` is their UTF-8 encoding.
- Go's 64-bit `int`: `taskID`, `nreduce` and the uid are unbounded integers. `ihash` stays below 2^31, so it never overflows.
- Worker.Dispatch: the outcome `Replied(info)` stands for the reply decoded into the one `taskInfo` variable the loop reuses (declared at worker.go:40, filled at worker.go:43). Go's RPC encoding does not send zero-valued fields, and decoding leaves fields it does not receive at their old values. So a Map reply (`TaskType` 0) after a Reduce reply would still read as Reduce, and a zero `NReduce` or `TaskID` would keep the earlier value. The model takes each reply as complete.
- Worker.WorkerLoopShape: assumes each handler returns. A runtime panic inside `handleMap` ends the process before `NotifyDone` is sent. `HandleMap` reports those panics as `NegativeLength` and `DivideByZero`.
- Worker.HandleReduce: the lines are stated in the order the map iteration chose (returned as `order`). The model does not fix one order, because Go's map iteration is random.
