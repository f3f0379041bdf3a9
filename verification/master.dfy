/** The master's Map-task registry: a map from input file name to "already handed out",
    plus two pending counters. Each RequestTask runs under the master's mutex, so it is
    modelled as one atomic step from a state to a state. */
module Master {
  import opened Wrappers
  import opened Seqs
  import opened Rpc

  datatype MasterState = MasterState(
    assignedTasks: map<string, bool>,
    nReducePending: int,
    nMappersPending: int)

  /** The registry built by the loop of `MakeMaster`: every listed file, none handed out. */
  function Unassigned(files: seq<string>): (r: map<string, bool>)
    ensures r.Keys == Elems(files)
    ensures forall f :: f in r ==> !r[f]
  {
    if |files| == 0 then map[]
    else
      var prefix := files[..|files| - 1];
      assert Elems(files) == Elems(prefix) + {files[|files| - 1]} by {
        assert files == prefix + [files[|files| - 1]];
      }
      Unassigned(prefix)[files[|files| - 1] := false]
  }

  /** `MakeMaster(files, nReduce)`, without starting the RPC server. */
  function MakeMaster(files: seq<string>, nReduce: int): (m: MasterState)
    ensures m.assignedTasks.Keys == Elems(files)
    ensures forall f :: f in m.assignedTasks ==> !m.assignedTasks[f]
    ensures m.nMappersPending == |files| && m.nReducePending == nReduce
  {
    MasterState(Unassigned(files), nReduce, |files|)
  }

  /** The pending-mapper counter counts list entries, the registry counts distinct names:
      they agree exactly when no file is listed twice. */
  lemma MakeMasterCountsDuplicates(files: seq<string>, nReduce: int)
    ensures MakeMaster(files, nReduce).nMappersPending >= |MakeMaster(files, nReduce).assignedTasks|
    ensures MakeMaster(files, nReduce).nMappersPending == |MakeMaster(files, nReduce).assignedTasks|
            <==> Distinct(files)
  {
    var m := MakeMaster(files, nReduce);
    assert m.assignedTasks.Keys == Elems(files);
    ElemsBound(files);
    if Distinct(files) {
      DistinctCard(files);
    } else {
      NotDistinctCard(files);
    }
  }

  /** Some file has not been handed out yet. */
  predicate HasUnassigned(m: MasterState) {
    exists f :: f in m.assignedTasks && !m.assignedTasks[f]
  }

  /** What one `RequestTask(taskType, reply)` call may do: `m` and `reply` before, `m'` and
      `reply'` after, `err` the returned error (None for nil). A Map request while some file
      is unassigned hands out one such file and flips only its entry; every other request
      changes nothing and fails. Note that a Map request when every file is already handed
      out falls through to the invalid-task-type error, not to ErrWait. */
  ghost predicate Step(m: MasterState, taskType: TaskType, reply: string,
                       m': MasterState, reply': string, err: Option<MasterError>)
  {
    if taskType == Map && HasUnassigned(m) then
      && err == None
      && reply' in m.assignedTasks && !m.assignedTasks[reply']
      && m' == m.(assignedTasks := m.assignedTasks[reply' := true])
    else
      && m' == m && reply' == reply
      && err == Some(if taskType == Reduce then ReduceNotImplemented else InvalidTaskType)
  }

  /** `RequestTask`: the loop ranges over the registry in an arbitrary order, as Go's map
      iteration does, and returns the first file it meets that is not yet handed out. */
  method RequestTask(m: MasterState, taskType: TaskType, reply: string)
    returns (m': MasterState, reply': string, err: Option<MasterError>)
    ensures Step(m, taskType, reply, m', reply', err)
    ensures err == None <==> taskType == Map && HasUnassigned(m)
    ensures err == None ==>
      && m'.assignedTasks.Keys == m.assignedTasks.Keys
      && m'.assignedTasks[reply'] && !m.assignedTasks[reply']
      && (forall f :: f in m.assignedTasks && f != reply' ==> m'.assignedTasks[f] == m.assignedTasks[f])
      && m'.nReducePending == m.nReducePending && m'.nMappersPending == m.nMappersPending
    ensures err != None ==> m' == m && reply' == reply
    ensures taskType == Reduce ==> err == Some(ReduceNotImplemented)
    ensures taskType != Reduce && err != None ==> err == Some(InvalidTaskType)
  {
    if taskType == Map {
      var unvisited := m.assignedTasks.Keys;
      while unvisited != {}
        invariant unvisited <= m.assignedTasks.Keys
        invariant forall f :: f in m.assignedTasks && f !in unvisited ==> m.assignedTasks[f]
        decreases unvisited
      {
        var f :| f in unvisited;
        if !m.assignedTasks[f] {
          return m.(assignedTasks := m.assignedTasks[f := true]), f, None;
        }
        unvisited := unvisited - {f};
      }
    }
    if taskType == Reduce {
      return m, reply, Some(ReduceNotImplemented);
    }
    return m, reply, Some(InvalidTaskType);
  }

  /** One recorded call: the argument, the reply string before and after, the error. */
  datatype Call = Call(taskType: TaskType, replyIn: string, replyOut: string, err: Option<MasterError>)

  /** `states[i]` is the master before `calls[i]` and `states[i + 1]` the master after it;
      the mutex makes any interleaving of concurrent RPCs such a sequence. */
  ghost predicate Run(states: seq<MasterState>, calls: seq<Call>) {
    && |states| == |calls| + 1
    && forall i :: 0 <= i < |calls| ==>
         Step(states[i], calls[i].taskType, calls[i].replyIn, states[i + 1], calls[i].replyOut, calls[i].err)
  }

  /** The file names handed out by the successful calls, in call order. */
  function Granted(calls: seq<Call>): seq<string> {
    if |calls| == 0 then []
    else Granted(calls[..|calls| - 1]) + (if calls[|calls| - 1].err == None then [calls[|calls| - 1].replyOut] else [])
  }

  /** The files not yet handed out in `m`. */
  function Free(m: MasterState): set<string> {
    set f | f in m.assignedTasks && !m.assignedTasks[f]
  }

  /** After a run, a file is handed out exactly when it was handed out at the start or
      some successful call of the run returned it; nothing else about the master changes. */
  ghost predicate Accounted(m0: MasterState, g: seq<string>, m: MasterState) {
    && m.assignedTasks.Keys == m0.assignedTasks.Keys
    && m.nReducePending == m0.nReducePending
    && m.nMappersPending == m0.nMappersPending
    && (forall f :: f in m.assignedTasks ==> (m.assignedTasks[f] <==> m0.assignedTasks[f] || f in g))
    && Distinct(g)
    && (forall i :: 0 <= i < |g| ==> g[i] in Free(m0))
  }

  lemma {:induction false} RunAccounted(states: seq<MasterState>, calls: seq<Call>)
    requires Run(states, calls)
    ensures Accounted(states[0], Granted(calls), states[|calls|])
  {
    if |calls| > 0 {
      var n := |calls| - 1;
      assert Run(states[..n + 1], calls[..n]);
      RunAccounted(states[..n + 1], calls[..n]);
      var g := Granted(calls[..n]);
      var c := calls[n];
      assert Step(states[n], c.taskType, c.replyIn, states[n + 1], c.replyOut, c.err);
      if c.err == None {
        var f := c.replyOut;
        assert f !in g;
        assert Granted(calls) == g + [f];
        assert Accounted(states[0], g + [f], states[n + 1]) by {
          assert f in Free(states[0]);
          forall i, j | 0 <= i < j < |g + [f]|
            ensures (g + [f])[i] != (g + [f])[j]
          {
            if j == |g| {
              assert (g + [f])[i] == g[i];
            }
          }
        }
      } else {
        assert Granted(calls) == g;
      }
    }
  }

  /** Over any run, no file name is handed out twice, each one handed out was free at the
      start, and so successful calls never outnumber the free files. */
  lemma NoFileGrantedTwice(states: seq<MasterState>, calls: seq<Call>)
    requires Run(states, calls)
    ensures Distinct(Granted(calls))
    ensures forall i :: 0 <= i < |Granted(calls)| ==> Granted(calls)[i] in Free(states[0])
    ensures |Granted(calls)| <= |Free(states[0])|
  {
    RunAccounted(states, calls);
    DistinctBound(Granted(calls), Free(states[0]));
  }

  /** Started from `MakeMaster(files, nReduce)`, a run hands out at most as many files as
      there are distinct input names, each of them an input file, none twice. */
  lemma GrantsBoundedByInputs(files: seq<string>, nReduce: int, states: seq<MasterState>, calls: seq<Call>)
    requires Run(states, calls) && states[0] == MakeMaster(files, nReduce)
    ensures Distinct(Granted(calls))
    ensures forall i :: 0 <= i < |Granted(calls)| ==> Granted(calls)[i] in files
    ensures |Granted(calls)| <= |Elems(files)|
  {
    NoFileGrantedTwice(states, calls);
    assert Free(states[0]) == Elems(files);
  }
}
