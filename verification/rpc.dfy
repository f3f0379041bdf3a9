/** The protocol vocabulary shared by master and workers: task types, sentinel errors,
    the task reply record, and the name of the master's UNIX-domain socket. */
module Rpc {
  import opened Wrappers
  import opened Decimal

  /** Go's `type TaskType int`: any integer can be sent; two values are named. */
  newtype TaskType = int

  const Map: TaskType := 0
  const Reduce: TaskType := 1

  /** The error values the master can return. Go compares errors by identity, so each
      `errors.New` call site is its own constructor; `Text` is the message it carries. */
  datatype MasterError =
    | ErrWait               // rpc.go: every task is handed out, ask again later
    | ErrDone               // rpc.go: every task is finished
    | ReduceNotImplemented  // master.go: a Reduce request
    | InvalidTaskType       // master.go: the fall-through error

  function Text(e: MasterError): string {
    match e
    case ErrWait => "all jobs currently assigned. Wait"
    case ErrDone => "all tasks done"
    case ReduceNotImplemented => "Reduce not yet implemented"
    case InvalidTaskType => "Allowed taskType values are 0 for Map and 1 for Reduce"
  }

  /** What the master sends back to a worker that asked for work. */
  datatype TaskResponse = TaskResponse(taskType: TaskType, filename: string, nReduce: int, taskID: int)

  /** The two task types are different values, and the two sentinels are different errors
      that also read differently. */
  lemma ProtocolConstantsDistinct()
    ensures Map == 0 && Reduce == 1 && Map != Reduce
    ensures ErrWait != ErrDone && Text(ErrWait) != Text(ErrDone)
  {
  }

  const SockPrefix: string := "/var/tmp/824-mr-"

  /** `masterSock()` with the user id `os.Getuid()` passed in: the prefix followed by the
      decimal uid, from which the uid can be read back. */
  function MasterSock(uid: int): (s: string)
    ensures |s| > |SockPrefix| && s[..|SockPrefix|] == SockPrefix
    ensures s[|SockPrefix|..] == Itoa(uid)
    ensures ParseInt(s[|SockPrefix|..]) == Some(uid)
  {
    ItoaRoundTrip(uid);
    SockPrefix + Itoa(uid)
  }

  /** Users with different ids get different sockets. */
  lemma MasterSockInjective(uid1: int, uid2: int)
    ensures MasterSock(uid1) == MasterSock(uid2) <==> uid1 == uid2
  {
  }
}
