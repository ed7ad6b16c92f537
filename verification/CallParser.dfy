/** `structure_flattened_instructions_with_logs`: two coupled stacks rebuild the call
    forest from a flat list of instructions with stack heights. */
module CallParser {
  import opened Wrappers
  import opened CallLogs

  datatype Instruction = Instruction(id: nat, programId: Pubkey, stackHeight: Option<nat>)

  /** The order on `Option<u32>`: a missing height is below every present one. */
  function Level(i: Instruction): nat {
    match i.stackHeight
    case None => 0
    case Some(h) => h + 1
  }

  /** Rust's own order on `Option<u32>`, which the comparisons of the source use. */
  predicate Below(a: Option<nat>, b: Option<nat>) {
    b.Some? && (a.None? || a.value < b.value)
  }

  lemma {:induction false} LevelIsHeightOrder(a: Instruction, b: Instruction)
    ensures Level(a) < Level(b) <==> Below(a.stackHeight, b.stackHeight)
  {
  }

  /** A structured instruction: what it contains, and its own logs if they survived. */
  datatype Tree = Tree(instruction: Instruction, inner: seq<Tree>, logs: Option<seq<Log>>)

  datatype Parser = Parser(roots: seq<Tree>, stack: seq<Tree>, logs: LogState)

  /** Finished trees go to the instruction on top of the stack, or to the top level. */
  function Attach(p: Parser, ts: seq<Tree>): Parser {
    if p.stack == [] then p.(roots := p.roots + ts)
    else
      var n := |p.stack| - 1;
      p.(stack := p.stack[n := p.stack[n].(inner := p.stack[n].inner + ts)])
  }

  function CloseTop(p: Parser): Result<Parser>
    requires p.stack != []
  {
    var n := |p.stack| - 1;
    match CloseLog(p.logs, p.stack[n].instruction.programId)
    case Panic => Panic
    case Done((logs, own)) => Done(Attach(Parser(p.roots, p.stack[..n], logs), [p.stack[n].(logs := own)]))
  }

  /** Pop every instruction at or above the level. */
  function CloseTo(p: Parser, level: nat): Result<Parser>
    decreases |p.stack|
  {
    if p.stack == [] || Level(p.stack[|p.stack| - 1].instruction) < level then Done(p)
    else
      match CloseTop(p)
      case Panic => Panic
      case Done(q) => CloseTo(q, level)
  }

  function PushNew(p: Parser, i: Instruction): Result<Parser> {
    match OpenLog(p.logs, i.programId)
    case Panic => Panic
    case Done(logs) => Done(Parser(p.roots, p.stack + [Tree(i, [], None)], logs))
  }

  function Step(p: Parser, i: Instruction): Result<Parser> {
    match CloseTo(p, Level(i))
    case Panic => Panic
    case Done(q) => PushNew(q, i)
  }

  function Steps(r: Result<Parser>, instructions: seq<Instruction>): Result<Parser>
    decreases |instructions|
  {
    if r.Panic? || instructions == [] then r
    else Steps(Step(r.value, instructions[0]), instructions[1..])
  }

  function Closed(r: Result<Parser>, level: nat): Result<Parser> {
    match r
    case Panic => Panic
    case Done(p) => CloseTo(p, level)
  }

  function Start(logs: seq<Log>): Parser {
    Parser([], [], LogState([], false, logs))
  }

  /** The final drain pops everything: no level is below 0. */
  function Structure(instructions: seq<Instruction>, logs: seq<Log>): Result<seq<Tree>> {
    match Closed(Steps(Done(Start(logs)), instructions), 0)
    case Panic => Panic
    case Done(p) => Done(p.roots)
  }

  lemma {:induction false} StepsSnoc(r: Result<Parser>, instructions: seq<Instruction>, i: Instruction)
    ensures Steps(r, instructions + [i]) ==
      match Steps(r, instructions) case Panic => Panic case Done(p) => Step(p, i)
    decreases |instructions|
  {
    if r.Done? && instructions != [] {
      StepsSnoc(Step(r.value, instructions[0]), instructions[1..], i);
      assert (instructions + [i])[1..] == instructions[1..] + [i];
    } else if instructions == [] {
      assert instructions + [i] == [i];
    }
  }

  /** The loop as the source runs it; false where it panics. */
  method StructureFlattened(flattened: seq<Instruction>, logs: LogStream) returns (ok: bool, structured: seq<Tree>)
    modifies logs
    ensures ok <==> Structure(flattened, old(logs.rest)).Done?
    ensures ok ==> structured == Structure(flattened, old(logs.rest)).value
  {
    structured := [];
    var instructionStack: seq<Tree> := [];
    var logStack := new LogStack();
    ghost var start := Done(Start(logs.rest));
    for i := 0 to |flattened|
      invariant fresh(logStack)
      invariant Steps(start, flattened[..i]) == Done(Parser(structured, instructionStack, logStack.State(logs)))
    {
      var instruction := flattened[i];
      ghost var before := Parser(structured, instructionStack, logStack.State(logs));
      StepsSnoc(start, flattened[..i], instruction);
      StepsPrefix(start, flattened, i + 1);
      assert flattened[..i + 1] == flattened[..i] + [instruction];
      while instructionStack != [] && Level(instructionStack[|instructionStack| - 1].instruction) >= Level(instruction)
        invariant CloseTo(Parser(structured, instructionStack, logStack.State(logs)), Level(instruction))
          == CloseTo(before, Level(instruction))
        decreases |instructionStack|
      {
        var closed, roots, stack := PopInto(structured, instructionStack, logStack, logs);
        if !closed {
          return false, [];
        }
        structured, instructionStack := roots, stack;
      }
      var pushed := logStack.Open(logs, instruction.programId);
      if !pushed {
        return false, [];
      }
      instructionStack := instructionStack + [Tree(instruction, [], None)];
    }
    assert flattened[..|flattened|] == flattened;
    ghost var before := Parser(structured, instructionStack, logStack.State(logs));
    while instructionStack != []
      invariant CloseTo(Parser(structured, instructionStack, logStack.State(logs)), 0) == CloseTo(before, 0)
      decreases |instructionStack|
    {
      var closed, roots, stack := PopInto(structured, instructionStack, logStack, logs);
      if !closed {
        return false, [];
      }
      structured, instructionStack := roots, stack;
    }
    return true, structured;
  }

  lemma {:induction false} StepsPrefix(r: Result<Parser>, instructions: seq<Instruction>, n: nat)
    requires n <= |instructions|
    ensures Steps(r, instructions[..n]).Panic? ==> Steps(r, instructions).Panic?
    decreases |instructions|
  {
    if r.Done? && n > 0 {
      StepsPrefix(Step(r.value, instructions[0]), instructions[1..], n - 1);
      assert instructions[..n][1..] == instructions[1..][..n - 1];
    }
  }

  /** One pop: take the instruction's logs and move it into its container. */
  method PopInto(structured: seq<Tree>, stack: seq<Tree>, logStack: LogStack, logs: LogStream)
    returns (ok: bool, roots: seq<Tree>, rest: seq<Tree>)
    requires stack != []
    modifies logStack, logs
    ensures var r := CloseTop(Parser(structured, stack, old(logStack.State(logs))));
      if ok then r == Done(Parser(roots, rest, logStack.State(logs))) && |rest| == |stack| - 1 else r.Panic?
  {
    var n := |stack| - 1;
    var popped := stack[n];
    roots, rest := structured, stack[..n];
    var own;
    ok, own := logStack.Close(logs, popped.instruction.programId);
    popped := popped.(logs := own);
    if rest != [] {
      rest := rest[n - 1 := rest[n - 1].(inner := rest[n - 1].inner + [popped])];
    } else {
      roots := roots + [popped];
    }
  }
}
