/** The shared log stream of a transaction, and the stack that hands each open
    instruction its own lines. */
module CallLogs {
  import opened Wrappers

  /** `Panic` is a failed unwrap or the explicit panic on an unexpected invoke line. */
  datatype Result<+T> = Done(value: T) | Panic

  type Pubkey = string

  datatype Log =
    | Invoke(text: string)
    | Success(text: string)
    | Return(text: string)
    | Data(text: string)
    | Program(text: string)
    | Truncated(text: string)
    | Unknown(text: string)

  const PROGRAMS_WITHOUT_LOGGING: set<Pubkey> :=
    {"Ed25519SigVerify111111111111111111111111111", "KeccakSecp256k11111111111111111111111111111"}

  predicate Silent(program: Pubkey) {
    program in PROGRAMS_WITHOUT_LOGGING
  }

  lemma {:induction false} SilentPrograms(program: Pubkey)
    ensures Silent(program) <==>
      || program == "Ed25519SigVerify111111111111111111111111111"
      || program == "KeccakSecp256k11111111111111111111111111111"
  {
  }

  /** The open log slices, the truncation flag and the lines not read yet. */
  datatype LogState = LogState(stack: seq<seq<Log>>, isTruncated: bool, rest: seq<Log>)

  function PushToTop(stack: seq<seq<Log>>, log: Log): seq<seq<Log>>
    requires stack != []
  {
    stack[|stack| - 1 := stack[|stack| - 1] + [log]]
  }

  function OpenLog(s: LogState, program: Pubkey): Result<LogState>
    decreases |s.rest|
  {
    if Silent(program) || s.isTruncated then Done(s)
    else if s.rest == [] then Panic
    else
      var log, rest := s.rest[0], s.rest[1..];
      if log.Truncated? then Done(LogState(s.stack, true, rest))
      else if log.Invoke? then Done(LogState(s.stack + [[log]], false, rest))
      else if s.stack == [] then Panic
      else OpenLog(LogState(PushToTop(s.stack, log), false, rest), program)
  }

  function CloseLog(s: LogState, program: Pubkey): Result<(LogState, Option<seq<Log>>)>
    decreases |s.rest|
  {
    if Silent(program) then Done((s, Some([])))
    else if s.isTruncated then Done((s, None))
    else if s.rest == [] then Panic
    else
      var log, rest := s.rest[0], s.rest[1..];
      if log.Truncated? then Done((LogState(s.stack, true, rest), None))
      else if log.Invoke? || s.stack == [] then Panic
      else
        var stack := PushToTop(s.stack, log);
        if log.Success? then Done((LogState(stack[..|stack| - 1], false, rest), Some(stack[|stack| - 1])))
        else CloseLog(LogState(stack, false, rest), program)
  }

  /** The peekable iterator over the transaction's log lines. */
  class LogStream {
    var rest: seq<Log>

    constructor (logs: seq<Log>)
      ensures rest == logs
    {
      rest := logs;
    }

    method Next() returns (r: Option<Log>)
      modifies this
      ensures old(rest) == [] ==> r == None && rest == []
      ensures old(rest) != [] ==> r == Some(old(rest)[0]) && rest == old(rest)[1..]
    {
      if rest == [] {
        return None;
      }
      r := Some(rest[0]);
      rest := rest[1..];
    }
  }

  class LogStack {
    var stack: seq<seq<Log>>
    var isTruncated: bool

    constructor ()
      ensures stack == [] && !isTruncated
    {
      stack, isTruncated := [], false;
    }

    ghost function State(logs: LogStream): LogState
      reads this, logs
    {
      LogState(stack, isTruncated, logs.rest)
    }

    /** Answers false where the source panics. */
    method Open(logs: LogStream, program: Pubkey) returns (ok: bool)
      modifies this, logs
      ensures ok <==> OpenLog(old(State(logs)), program).Done?
      ensures ok ==> State(logs) == OpenLog(old(State(logs)), program).value
    {
      if program in PROGRAMS_WITHOUT_LOGGING || isTruncated {
        return true;
      }
      ghost var target := OpenLog(State(logs), program);
      while true
        invariant !isTruncated && OpenLog(State(logs), program) == target
        decreases |logs.rest|
      {
        var next := logs.Next();
        if next.None? {
          return false;
        }
        var log := next.value;
        if log.Truncated? {
          isTruncated := true;
          break;
        } else if log.Invoke? {
          stack := stack + [[log]];
          break;
        } else {
          if stack == [] {
            return false;
          }
          stack := PushToTop(stack, log);
        }
      }
      return true;
    }

    method Close(logs: LogStream, program: Pubkey) returns (ok: bool, own: Option<seq<Log>>)
      modifies this, logs
      ensures ok <==> CloseLog(old(State(logs)), program).Done?
      ensures ok ==> (State(logs), own) == CloseLog(old(State(logs)), program).value
    {
      if program in PROGRAMS_WITHOUT_LOGGING {
        return true, Some([]);
      }
      if isTruncated {
        return true, None;
      }
      ghost var target := CloseLog(State(logs), program);
      while true
        invariant !isTruncated && CloseLog(State(logs), program) == target
        decreases |logs.rest|
      {
        var next := logs.Next();
        if next.None? {
          return false, None;
        }
        var log := next.value;
        if log.Truncated? {
          isTruncated := true;
          return true, None;
        } else if log.Invoke? {
          return false, None;
        }
        if stack == [] {
          return false, None;
        }
        stack := PushToTop(stack, log);
        if log.Success? {
          own := Some(stack[|stack| - 1]);
          stack := stack[..|stack| - 1];
          return true, own;
        }
      }
    }
  }
}
