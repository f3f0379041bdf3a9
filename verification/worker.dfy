/** The worker's data shaping: the key hash, the partition of a Map task's output into
    reducer buckets and intermediate files, the reducer's parsing of its glob pattern, the
    grouping of records by key, the output lines, and the dispatch on the master's reply.
    File contents arrive as parameters and files produced are returned as values. */
module Worker {
  import opened Wrappers
  import opened Seqs
  import opened Decimal
  import opened Utf8
  import opened Fnv
  import opened Rpc

  /** What `mapf` emits and the intermediate files hold. */
  datatype KeyValue = KeyValue(key: string, value: string)

  /** `ihash`: 32-bit FNV-1a over the key's UTF-8 bytes with the sign bit cleared, so the
      result is a non-negative Go `int` below 2^31. */
  function IHash(key: string): (r: int)
    ensures 0 <= r < 0x8000_0000
  {
    Mask31(Hash32(Encode(key)))
  }

  /** `int(h & 0x7fffffff)`, written as the value it yields (see `Mask31IsBitMask`). */
  function Mask31(h: bv32): (r: int)
    ensures 0 <= r < 0x8000_0000
  {
    (h as int) % 0x8000_0000
  }

  /** Clearing bit 31 of a 32-bit word and reading it as an integer is its value modulo
      2^31, so `Mask31` is the mask the source applies. */
  lemma Mask31IsBitMask(h: bv32)
    ensures ((h & 0x7fff_ffff) as bv31) as int == Mask31(h)
  {
    var low := (h & 0x7fff_ffff) as bv31;
    Bv31Range(low);
    if h < 0x8000_0000 {
      MaskLowWord(h);
    } else {
      MaskHighWord(h);
    }
    ModOfSplit(h as int, low as int);
  }

  lemma MaskLowWord(h: bv32)
    requires h < 0x8000_0000
    ensures ((h & 0x7fff_ffff) as bv31) as int == h as int
  {
    assert h & 0x7fff_ffff == h;
  }

  lemma MaskHighWord(h: bv32)
    requires h >= 0x8000_0000
    ensures ((h & 0x7fff_ffff) as bv31) as int + 0x8000_0000 == h as int
  {
    assert h & 0x7fff_ffff == h - 0x8000_0000;
  }

  lemma Bv31Range(b: bv31)
    ensures 0 <= b as int < 0x8000_0000
  {
  }

  lemma ModOfSplit(x: int, low: int)
    requires 0 <= low < 0x8000_0000
    requires x == low || x == low + 0x8000_0000
    ensures x % 0x8000_0000 == low
  {
  }

  /** The reducer bucket of a key: `ihash(key) % nreduce`. Go's `%` truncates toward zero,
      which agrees with Dafny's `%` here because both operands are non-negative. */
  function BucketOf(key: string, nreduce: int): (b: int)
    requires nreduce > 0
    ensures 0 <= b < nreduce
  {
    IHash(key) % nreduce
  }

  /** Pairs with equal keys land in the same bucket, whatever their values. */
  lemma EqualKeysShareBucket(a: KeyValue, b: KeyValue, nreduce: int)
    requires nreduce > 0 && a.key == b.key
    ensures BucketOf(a.key, nreduce) == BucketOf(b.key, nreduce)
  {
  }

  /** The bucket function of `handleMap` for `nreduce` reducers. */
  function Partitioner(nreduce: int): string -> int
    requires nreduce > 0
  {
    key => BucketOf(key, nreduce)
  }

  /** Every key is sent to one of the buckets `0 .. n-1`. */
  ghost predicate InRange(bucket: string -> int, n: int) {
    forall key :: 0 <= bucket(key) < n
  }

  /** Reference definition of bucket `i` under the bucket function `bucket`: the emitted
      pairs whose key it sends to `i`, in emission order. */
  function Select(kvs: seq<KeyValue>, bucket: string -> int, i: int): seq<KeyValue> {
    if |kvs| == 0 then []
    else
      var last := kvs[|kvs| - 1];
      Select(kvs[..|kvs| - 1], bucket, i) + (if bucket(last.key) == i then [last] else [])
  }

  /** A pair is in bucket `i` exactly when it was emitted and its key is sent to `i`. */
  lemma {:induction false} SelectMembers(kvs: seq<KeyValue>, bucket: string -> int, i: int, kv: KeyValue)
    ensures kv in Select(kvs, bucket, i) <==> kv in kvs && bucket(kv.key) == i
  {
    if |kvs| > 0 {
      var prefix := kvs[..|kvs| - 1];
      var last := kvs[|kvs| - 1];
      SelectMembers(prefix, bucket, i, kv);
      assert kvs == prefix + [last];
      assert kv in kvs <==> kv in prefix || kv == last;
    }
  }

  /** The partition loop of `handleMap`: every emitted pair, in order, is appended to the
      bucket `ihash(key) % nreduce`. */
  method PartitionEmitted(kvs: seq<KeyValue>, nreduce: int) returns (buckets: seq<seq<KeyValue>>)
    requires nreduce > 0
    ensures |buckets| == nreduce
    ensures forall i :: 0 <= i < nreduce ==> buckets[i] == Select(kvs, Partitioner(nreduce), i)
  {
    buckets := seq(nreduce, _ => []);
    for k := 0 to |kvs|
      invariant |buckets| == nreduce
      invariant forall i :: 0 <= i < nreduce ==> buckets[i] == Select(kvs[..k], Partitioner(nreduce), i)
    {
      assert kvs[..k + 1][..k] == kvs[..k];
      var b := BucketOf(kvs[k].key, nreduce);
      buckets := buckets[b := buckets[b] + [kvs[k]]];
    }
    assert kvs[..|kvs|] == kvs;
  }

  /** All `n` buckets of a partition, bucket 0 first. */
  function Buckets(kvs: seq<KeyValue>, bucket: string -> int, n: nat): (bs: seq<seq<KeyValue>>)
    ensures |bs| == n
  {
    seq(n, i => Select(kvs, bucket, i))
  }

  /** The emitted pairs sent to a bucket below `k`, in emission order. */
  function SelectBelow(kvs: seq<KeyValue>, bucket: string -> int, k: int): seq<KeyValue> {
    if |kvs| == 0 then []
    else
      var last := kvs[|kvs| - 1];
      SelectBelow(kvs[..|kvs| - 1], bucket, k) + (if bucket(last.key) < k then [last] else [])
  }

  lemma {:induction false} SelectBelowStep(kvs: seq<KeyValue>, bucket: string -> int, k: int)
    ensures multiset(SelectBelow(kvs, bucket, k + 1))
         == multiset(SelectBelow(kvs, bucket, k)) + multiset(Select(kvs, bucket, k))
  {
    if |kvs| > 0 {
      SelectBelowStep(kvs[..|kvs| - 1], bucket, k);
    }
  }

  lemma {:induction false} SelectBelowAll(kvs: seq<KeyValue>, bucket: string -> int, n: int)
    requires InRange(bucket, n)
    ensures SelectBelow(kvs, bucket, n) == kvs
  {
    if |kvs| > 0 {
      SelectBelowAll(kvs[..|kvs| - 1], bucket, n);
      assert kvs == kvs[..|kvs| - 1] + [kvs[|kvs| - 1]];
    }
  }

  lemma {:induction false} NoneBelowZero(kvs: seq<KeyValue>, bucket: string -> int, n: int)
    requires InRange(bucket, n)
    ensures SelectBelow(kvs, bucket, 0) == []
  {
    if |kvs| > 0 {
      NoneBelowZero(kvs[..|kvs| - 1], bucket, n);
    }
  }

  lemma {:induction false} BucketsPrefix(kvs: seq<KeyValue>, bucket: string -> int, n: nat, k: nat)
    requires InRange(bucket, n) && k <= n
    ensures multiset(Concat(Buckets(kvs, bucket, n)[..k])) == multiset(SelectBelow(kvs, bucket, k))
  {
    var bs := Buckets(kvs, bucket, n);
    if k == 0 {
      NoneBelowZero(kvs, bucket, n);
    } else {
      BucketsPrefix(kvs, bucket, n, k - 1);
      assert bs[..k][..k - 1] == bs[..k - 1];
      SelectBelowStep(kvs, bucket, k - 1);
    }
  }

  /** Splitting by any bucket function into range loses and duplicates nothing. */
  lemma PartitionByIsPermutation(kvs: seq<KeyValue>, bucket: string -> int, n: nat)
    requires InRange(bucket, n)
    ensures multiset(Concat(Buckets(kvs, bucket, n))) == multiset(kvs)
  {
    var bs := Buckets(kvs, bucket, n);
    BucketsPrefix(kvs, bucket, n, n);
    assert bs[..n] == bs;
    SelectBelowAll(kvs, bucket, n);
  }

  /** Partitioning loses and duplicates nothing: the `nreduce` buckets together are a
      permutation of the emitted pairs, and each pair sits in exactly the bucket its key
      hashes to. */
  lemma PartitionIsPermutation(kvs: seq<KeyValue>, nreduce: int)
    requires nreduce > 0
    ensures multiset(Concat(Buckets(kvs, Partitioner(nreduce), nreduce))) == multiset(kvs)
    ensures forall i, kv :: 0 <= i < nreduce && kv in kvs ==>
              (kv in Buckets(kvs, Partitioner(nreduce), nreduce)[i] <==> i == BucketOf(kv.key, nreduce))
  {
    var bucket := Partitioner(nreduce);
    assert InRange(bucket, nreduce) by {
      forall key ensures 0 <= bucket(key) < nreduce {
        assert bucket(key) == BucketOf(key, nreduce);
      }
    }
    PartitionByIsPermutation(kvs, bucket, nreduce);
    forall i, kv | 0 <= i < nreduce && kv in kvs
      ensures kv in Buckets(kvs, bucket, nreduce)[i] <==> i == BucketOf(kv.key, nreduce)
    {
      SelectMembers(kvs, bucket, i, kv);
    }
  }

  /** `fmt.Sprintf("mr-%d-%d", taskID, i)`. */
  function IntermediateName(taskID: int, i: int): string {
    "mr-" + Itoa(taskID) + "-" + Itoa(i)
  }

  /** One Map task's intermediate names are pairwise distinct: bucket numbers are recovered
      from the text after the task id. */
  lemma IntermediateNamesDistinct(taskID: int, i: int, j: int)
    ensures IntermediateName(taskID, i) == IntermediateName(taskID, j) <==> i == j
  {
    var p := "mr-" + Itoa(taskID) + "-";
    assert IntermediateName(taskID, i) == p + Itoa(i);
    assert IntermediateName(taskID, j) == p + Itoa(j);
    if IntermediateName(taskID, i) == IntermediateName(taskID, j) {
      assert (p + Itoa(i))[|p|..] == Itoa(i);
      assert (p + Itoa(j))[|p|..] == Itoa(j);
      ItoaInjective(i, j);
    }
  }

  /** One intermediate file: its name and the records encoded into it, in write order. */
  datatype Intermediate = Intermediate(name: string, records: seq<KeyValue>)

  /** Why a handler stopped: its input could not be read, or the Go runtime panicked
      (`make` with a negative length, `%` by zero). */
  datatype HandlerError = InputUnreadable | NegativeLength | DivideByZero

  /** `handleMap`: `contents` is what `ioutil.ReadFile(file)` returned (None for an error).
      On success there is one intermediate file per reducer, empty buckets included, named
      `mr-<taskID>-<i>` and holding bucket `i` of `mapf`'s output. */
  method HandleMap(mapf: (string, string) -> seq<KeyValue>, file: string, contents: Option<string>,
                   nreduce: int, taskID: int)
    returns (r: Result<seq<Intermediate>, HandlerError>)
    ensures contents == None ==> r == Failure(InputUnreadable)
    ensures contents != None && nreduce < 0 ==> r == Failure(NegativeLength)
    ensures contents != None && nreduce == 0 ==>
              r == if |mapf(file, contents.value)| == 0 then Success([]) else Failure(DivideByZero)
    ensures contents != None && nreduce > 0 ==>
              && r.Success? && |r.value| == nreduce
              && forall i :: 0 <= i < nreduce ==>
                   r.value[i] == Intermediate(IntermediateName(taskID, i), Select(mapf(file, contents.value), Partitioner(nreduce), i))
  {
    if contents == None {
      return Failure(InputUnreadable);
    }
    if nreduce < 0 {
      return Failure(NegativeLength);
    }
    var kvs := mapf(file, contents.value);
    if nreduce == 0 {
      if |kvs| > 0 {
        return Failure(DivideByZero);
      }
      return Success([]);
    }
    var buckets := PartitionEmitted(kvs, nreduce);
    r := Success(seq(nreduce, i requires 0 <= i < nreduce => Intermediate(IntermediateName(taskID, i), buckets[i])));
  }

  /** `strings.LastIndex(s, string(c))`: the last position of `c` in `s`, or -1. */
  function LastIndex(s: string, c: char): (r: int)
    ensures -1 <= r < |s|
    ensures r >= 0 ==> s[r] == c
    ensures forall j :: r < j < |s| ==> s[j] != c
  {
    if |s| == 0 then -1
    else if s[|s| - 1] == c then |s| - 1
    else LastIndex(s[..|s| - 1], c)
  }

  /** `globPattern[lastDash+1:]`: the text after the last '-', or the whole pattern when
      it has none. */
  function ReducerID(pattern: string): (id: string)
    ensures |id| <= |pattern| && pattern[|pattern| - |id|..] == id
    ensures '-' !in id
    ensures |id| == |pattern| || pattern[|pattern| - |id| - 1] == '-'
  {
    pattern[LastIndex(pattern, '-') + 1..]
  }

  /** A pattern ending in '-' and a non-negative decimal number has that number as its
      reducer id, whatever comes before (a task id, or the glob's `*`). */
  lemma ReducerIDAfterDash(prefix: string, i: int)
    requires i >= 0
    ensures ReducerID(prefix + "-" + Itoa(i)) == Itoa(i)
  {
    var pattern := prefix + "-" + Itoa(i);
    var p := prefix + "-";
    assert pattern == p + Itoa(i);
    ItoaNonNegativeNoDash(i);
    var id := ReducerID(pattern);
    assert pattern[|p| - 1] == '-';
    assert |id| <= |Itoa(i)|;
    assert |id| >= |Itoa(i)|;
  }

  /** The reducer reads back the bucket number the Map side wrote into a file name. */
  lemma ReducerIDOfIntermediate(taskID: int, i: int)
    requires i >= 0
    ensures ReducerID(IntermediateName(taskID, i)) == Itoa(i)
  {
    assert IntermediateName(taskID, i) == ("mr-" + Itoa(taskID)) + "-" + Itoa(i);
    ReducerIDAfterDash("mr-" + Itoa(taskID), i);
  }

  /** `fmt.Sprintf("mr-out-%s", reducerID)`. */
  function OutputName(pattern: string): string {
    "mr-out-" + ReducerID(pattern)
  }

  /** The reducer for bucket `i`, given a pattern such as `mr-*-<i>`, writes `mr-out-<i>`. */
  lemma OutputNameOfBucket(prefix: string, i: int)
    requires i >= 0
    ensures OutputName(prefix + "-" + Itoa(i)) == "mr-out-" + Itoa(i)
  {
    ReducerIDAfterDash(prefix, i);
  }

  /** Reducers of different buckets write different output files, and reducers of the same
      bucket write the same one. */
  lemma OutputNamesDistinct(prefix1: string, i: int, prefix2: string, j: int)
    requires i >= 0 && j >= 0
    ensures OutputName(prefix1 + "-" + Itoa(i)) == OutputName(prefix2 + "-" + Itoa(j)) <==> i == j
  {
    OutputNameOfBucket(prefix1, i);
    OutputNameOfBucket(prefix2, j);
    var o1, o2 := "mr-out-" + Itoa(i), "mr-out-" + Itoa(j);
    if o1 == o2 {
      assert o1[7..] == Itoa(i) && o2[7..] == Itoa(j);
      ItoaInjective(i, j);
    }
  }

  /** Reference definition of one key's group: the values of the records with that key,
      in record order. */
  function ValuesFor(records: seq<KeyValue>, key: string): seq<string> {
    if |records| == 0 then []
    else
      var last := records[|records| - 1];
      ValuesFor(records[..|records| - 1], key) + (if last.key == key then [last.value] else [])
  }

  lemma ValuesForSnoc(records: seq<KeyValue>)
    requires |records| > 0
    ensures forall k :: ValuesFor(records, k)
                        == ValuesFor(records[..|records| - 1], k)
                           + (if records[|records| - 1].key == k then [records[|records| - 1].value] else [])
  {
  }

  /** A key that does not occur has no values. */
  lemma {:induction false} ValuesForAbsent(records: seq<KeyValue>, key: string)
    ensures key !in KeysOf(records) ==> ValuesFor(records, key) == []
  {
    if |records| > 0 {
      var prefix := records[..|records| - 1];
      ValuesForAbsent(prefix, key);
      assert KeysOf(prefix) <= KeysOf(records) by {
        forall j | 0 <= j < |prefix| ensures prefix[j].key in KeysOf(records) {
          assert prefix[j] == records[j];
        }
      }
      assert records[|records| - 1].key in KeysOf(records);
    }
  }

  /** The keys occurring in `records`. */
  function KeysOf(records: seq<KeyValue>): set<string> {
    set j | 0 <= j < |records| :: records[j].key
  }

  /** `combinedMap` after the decoding loop: `combinedMap[kv.Key] = append(combinedMap[kv.Key],
      kv.Value)` for every record in turn. */
  function GroupByKey(records: seq<KeyValue>): (g: map<string, seq<string>>)
    ensures g.Keys == KeysOf(records)
    ensures forall k :: k in g ==> g[k] == ValuesFor(records, k) && |g[k]| > 0
  {
    if |records| == 0 then map[]
    else
      var prefix := records[..|records| - 1];
      var kv := records[|records| - 1];
      var g := GroupByKey(prefix);
      ValuesForSnoc(records);
      ValuesForAbsent(prefix, kv.key);
      assert KeysOf(records) == KeysOf(prefix) + {kv.key} by {
        assert forall j :: 0 <= j < |prefix| ==> prefix[j] == records[j];
      }
      g[kv.key := (if kv.key in g then g[kv.key] else []) + [kv.value]]
  }

  /** The total number of values over the keys `ks`. */
  function TotalValues(records: seq<KeyValue>, ks: seq<string>): nat {
    if |ks| == 0 then 0 else TotalValues(records, ks[..|ks| - 1]) + |ValuesFor(records, ks[|ks| - 1])|
  }

  lemma {:induction false} TotalValuesExtend(records: seq<KeyValue>, kv: KeyValue, ks: seq<string>)
    requires Distinct(ks)
    ensures TotalValues(records + [kv], ks) == TotalValues(records, ks) + (if kv.key in ks then 1 else 0)
  {
    if |ks| > 0 {
      var prefix := ks[..|ks| - 1];
      assert Distinct(prefix);
      TotalValuesExtend(records, kv, prefix);
      assert (records + [kv])[..|records|] == records;
      assert ks == prefix + [ks[|ks| - 1]];
      assert kv.key in ks <==> kv.key in prefix || kv.key == ks[|ks| - 1];
    }
  }

  /** Grouping keeps every record's value exactly once: over all keys, the groups hold as
      many values as there were records. */
  lemma {:induction false} GroupedValuesCount(records: seq<KeyValue>, ks: seq<string>)
    requires Distinct(ks)
    requires forall j :: 0 <= j < |records| ==> records[j].key in ks
    ensures TotalValues(records, ks) == |records|
  {
    if |records| == 0 {
      EmptyTotal(ks);
    } else {
      var prefix := records[..|records| - 1];
      GroupedValuesCount(prefix, ks);
      TotalValuesExtend(prefix, records[|records| - 1], ks);
      assert records == prefix + [records[|records| - 1]];
    }
  }

  lemma {:induction false} EmptyTotal(ks: seq<string>)
    ensures TotalValues([], ks) == 0
  {
    if |ks| > 0 {
      EmptyTotal(ks[..|ks| - 1]);
    }
  }

  /** `fmt.Fprintf(outFile, "%s %s\n", key, reducef(key, values))`. */
  function OutputLine(key: string, result: string): string {
    key + " " + result + "\n"
  }

  /** The final output of one reducer: the file name, the key order Go's map iteration
      happened to take, and one line per key in that order. */
  datatype ReduceOutput = ReduceOutput(name: string, order: seq<string>, lines: seq<string>)

  /** The writing loop of `handleReduce`: every key of `combinedMap`, in an arbitrary order,
      gives one line with its reduced value. */
  method WriteLines(reducef: (string, seq<string>) -> string, g: map<string, seq<string>>)
    returns (order: seq<string>, lines: seq<string>)
    ensures Distinct(order) && Elems(order) == g.Keys && |order| == |g|
    ensures |lines| == |order|
    ensures forall i :: 0 <= i < |order| ==> order[i] in g && lines[i] == OutputLine(order[i], reducef(order[i], g[order[i]]))
  {
    order, lines := [], [];
    var rest := g.Keys;
    while rest != {}
      invariant rest <= g.Keys
      invariant Elems(order) == g.Keys - rest
      invariant Distinct(order)
      invariant |lines| == |order|
      invariant forall i :: 0 <= i < |order| ==> order[i] in g && lines[i] == OutputLine(order[i], reducef(order[i], g[order[i]]))
      decreases rest
    {
      var key :| key in rest;
      assert Elems(order + [key]) == Elems(order) + {key};
      order, lines := order + [key], lines + [OutputLine(key, reducef(key, g[key]))];
      rest := rest - {key};
    }
    DistinctCard(order);
  }

  /** `handleReduce`: `inputs` holds the records of every file the glob pattern matched, in
      the glob's order (None when globbing, opening or decoding failed). The output file is
      named after the pattern's reducer id and has exactly one line per distinct key, with
      that key's values in file-then-record order. */
  method HandleReduce(reducef: (string, seq<string>) -> string, globPattern: string,
                      inputs: Option<seq<seq<KeyValue>>>)
    returns (r: Result<ReduceOutput, HandlerError>)
    ensures inputs == None ==> r == Failure(InputUnreadable)
    ensures inputs != None ==>
      && r.Success?
      && r.value.name == OutputName(globPattern)
      && Distinct(r.value.order)
      && Elems(r.value.order) == KeysOf(Concat(inputs.value))
      && |r.value.lines| == |r.value.order|
      && forall i :: 0 <= i < |r.value.order| ==>
           r.value.lines[i] == OutputLine(r.value.order[i],
                                          reducef(r.value.order[i], ValuesFor(Concat(inputs.value), r.value.order[i])))
  {
    if inputs == None {
      return Failure(InputUnreadable);
    }
    var combined := GroupByKey(Concat(inputs.value));
    var order, lines := WriteLines(reducef, combined);
    r := Success(ReduceOutput(OutputName(globPattern), order, lines));
  }

  /** The argument of the completion notice the worker sends (its type is not declared in
      the source; its fields follow the composite literal in `Worker`). */
  datatype DoneArgs = DoneArgs(taskType: TaskType, filename: string)

  /** How a `call("Master.RequestTask", …)` ends: the dial fails (`log.Fatal`), the call
      returns an error, or it returns nil with a filled-in reply. */
  datatype CallOutcome =
    | DialFailed
    | CallFailed(err: CallError)
    | Replied(info: TaskResponse)

  /** A returned error is either one of the master's error values or a transport error. */
  datatype CallError = FromMaster(e: MasterError) | Transport(text: string)

  /** What one iteration of the worker loop does, in order. */
  datatype Effect =
    | RunMap(file: string, nReduce: int, taskID: int)
    | RunReduce(pattern: string)
    | NotifyDone(args: DoneArgs)
    | Sleep(seconds: nat)
    | Exit(code: int)

  /** One iteration of `Worker`'s loop: a reply runs the handler its task type selects (Map
      for `Map`, Reduce for every other value) on the reply's fields and then notifies the
      master; ErrWait sleeps one second; a failed dial exits with status 1 (`log.Fatal`) and
      any other error with status 0. */
  function Dispatch(outcome: CallOutcome): (effects: seq<Effect>)
    ensures outcome.Replied? ==>
      effects == [if outcome.info.taskType == Map
                  then RunMap(outcome.info.filename, outcome.info.nReduce, outcome.info.taskID)
                  else RunReduce(outcome.info.filename),
                  NotifyDone(DoneArgs(outcome.info.taskType, outcome.info.filename))]
    ensures outcome == DialFailed ==> effects == [Exit(1)]
    ensures outcome.CallFailed? ==>
      effects == if outcome.err == FromMaster(ErrWait) then [Sleep(1)] else [Exit(0)]
    ensures (effects[|effects| - 1].Exit?) <==> !outcome.Replied? && outcome != CallFailed(FromMaster(ErrWait))
  {
    match outcome
    case DialFailed => [Exit(1)]
    case CallFailed(err) => if err == FromMaster(ErrWait) then [Sleep(1)] else [Exit(0)]
    case Replied(info) =>
      var notice := NotifyDone(DoneArgs(info.taskType, info.filename));
      if info.taskType == Map then [RunMap(info.filename, info.nReduce, info.taskID), notice]
      else [RunReduce(info.filename), notice]
  }

  predicate Exits(effects: seq<Effect>) {
    exists j :: 0 <= j < |effects| && effects[j].Exit?
  }

  /** The worker loop driven by the successive outcomes of its RequestTask calls, up to the
      first iteration that exits. */
  function WorkerLoop(outcomes: seq<CallOutcome>): seq<Effect> {
    if |outcomes| == 0 then []
    else
      var effects := Dispatch(outcomes[0]);
      if Exits(effects) then effects else effects + WorkerLoop(outcomes[1..])
  }

  /** A task handler is always followed by the completion notice for the task it ran, a
      notice always follows a handler, and an exit, if any, is the last thing done. */
  lemma {:induction false} WorkerLoopShape(outcomes: seq<CallOutcome>)
    ensures forall j :: 0 <= j < |WorkerLoop(outcomes)| && WorkerLoop(outcomes)[j].RunMap? ==>
              j + 1 < |WorkerLoop(outcomes)| &&
              WorkerLoop(outcomes)[j + 1] == NotifyDone(DoneArgs(Map, WorkerLoop(outcomes)[j].file))
    ensures forall j :: 0 <= j < |WorkerLoop(outcomes)| && WorkerLoop(outcomes)[j].RunReduce? ==>
              j + 1 < |WorkerLoop(outcomes)| && WorkerLoop(outcomes)[j + 1].NotifyDone? &&
              WorkerLoop(outcomes)[j + 1].args.taskType != Map &&
              WorkerLoop(outcomes)[j + 1].args.filename == WorkerLoop(outcomes)[j].pattern
    ensures forall j :: 0 <= j < |WorkerLoop(outcomes)| && WorkerLoop(outcomes)[j].NotifyDone? ==>
              j > 0 && (WorkerLoop(outcomes)[j - 1].RunMap? || WorkerLoop(outcomes)[j - 1].RunReduce?)
    ensures forall j :: 0 <= j < |WorkerLoop(outcomes)| && WorkerLoop(outcomes)[j].Exit? ==>
              j == |WorkerLoop(outcomes)| - 1
  {
    if |outcomes| > 0 {
      var effects := Dispatch(outcomes[0]);
      if !Exits(effects) {
        WorkerLoopShape(outcomes[1..]);
        var rest := WorkerLoop(outcomes[1..]);
        var all := effects + rest;
        assert WorkerLoop(outcomes) == all;
        forall j | |effects| <= j < |all|
          ensures all[j] == rest[j - |effects|]
        {
        }
      }
    }
  }
}
