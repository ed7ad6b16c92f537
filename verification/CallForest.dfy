/** The two-stack parser equals a recursive descent over the forest that the stack heights
    describe, for every instruction list and every log stream, panics included. */
module CallForest {
  import opened Wrappers
  import opened CallLogs
  import opened CallParser

  datatype Call = Call(instruction: Instruction, inner: seq<Call>)

  // ---------------------------------------------------------------- forests and heights

  function Flat(c: Call): (r: seq<Instruction>)
    ensures r != [] && r[0] == c.instruction
    decreases c, 1
  {
    [c.instruction] + FlatAll(c.inner)
  }

  /** The order in which instructions are listed: each one before what it calls. */
  function FlatAll(cs: seq<Call>): (r: seq<Instruction>)
    ensures cs != [] ==> r != [] && r[0] == cs[0].instruction
    decreases cs, 0
  {
    if cs == [] then [] else Flat(cs[0]) + FlatAll(cs[1..])
  }

  predicate AllAbove(cs: seq<Call>, level: int) {
    forall i :: 0 <= i < |cs| ==> Level(cs[i].instruction) > level
  }

  /** Callees are higher than their caller, and siblings never rise. */
  predicate WellHeighted(cs: seq<Call>)
    decreases cs
  {
    cs == [] ||
    (&& AllAbove(cs[0].inner, Level(cs[0].instruction))
     && WellHeighted(cs[0].inner)
     && (|cs| > 1 ==> Level(cs[1].instruction) <= Level(cs[0].instruction))
     && WellHeighted(cs[1..]))
  }

  /** How far the instructions from `from` on stay above the level. */
  function RunAbove(s: seq<Instruction>, from: nat, level: nat): (r: nat)
    requires from <= |s|
    ensures from <= r <= |s|
    ensures forall i :: from <= i < r ==> Level(s[i]) > level
    ensures r < |s| ==> Level(s[r]) <= level
    decreases |s| - from
  {
    if from == |s| || Level(s[from]) <= level then from else RunAbove(s, from + 1, level)
  }

  /** The forest that arbitrary heights describe. */
  function ForestOf(s: seq<Instruction>): seq<Call>
    decreases |s|
  {
    if s == [] then []
    else
      var k := RunAbove(s, 1, Level(s[0]));
      [Call(s[0], ForestOf(s[1..k]))] + ForestOf(s[k..])
  }

  lemma {:induction false} ForestOfAbove(s: seq<Instruction>, level: int)
    requires forall i :: 0 <= i < |s| ==> Level(s[i]) > level
    ensures AllAbove(ForestOf(s), level)
    decreases |s|
  {
    if s != [] {
      var k, f := RunAbove(s, 1, Level(s[0])), ForestOf(s);
      ForestOfAbove(s[k..], level);
      assert forall i :: 0 < i < |f| ==> f[i] == ForestOf(s[k..])[i - 1];
    }
  }

  lemma {:induction false} ForestUnfold(s: seq<Instruction>)
    requires s != []
    ensures var k := RunAbove(s, 1, Level(s[0]));
      && ForestOf(s) == [Call(s[0], ForestOf(s[1..k]))] + ForestOf(s[k..])
      && s == [s[0]] + s[1..k] + s[k..]
      && (k < |s| ==> ForestOf(s[k..])[0].instruction == s[k])
  {
  }

  /** Reading a list as a forest loses nothing and respects the heights. */
  lemma {:induction false} ForestOfIsFaithful(s: seq<Instruction>)
    ensures FlatAll(ForestOf(s)) == s && WellHeighted(ForestOf(s))
    decreases |s|
  {
    hide AllAbove, WellHeighted, FlatAll, ForestOf;
    if s == [] {
      NothingCalled();
    } else {
      var k := RunAbove(s, 1, Level(s[0]));
      var inner, others := ForestOf(s[1..k]), ForestOf(s[k..]);
      ForestUnfold(s);
      ForestOfIsFaithful(s[1..k]);
      ForestOfIsFaithful(s[k..]);
      ForestOfAbove(s[1..k], Level(s[0]));
      if k == |s| {
        NothingCalled();
      }
      JoinForest(Call(s[0], inner), others);
    }
  }

  lemma {:induction false} NothingCalled()
    ensures ForestOf([]) == [] && FlatAll([]) == [] && WellHeighted([])
  {
  }

  lemma {:induction false} JoinForest(c: Call, others: seq<Call>)
    requires AllAbove(c.inner, Level(c.instruction)) && WellHeighted(c.inner) && WellHeighted(others)
    requires others != [] ==> Level(others[0].instruction) <= Level(c.instruction)
    ensures WellHeighted([c] + others)
    ensures FlatAll([c] + others) == [c.instruction] + FlatAll(c.inner) + FlatAll(others)
  {
  }

  // ---------------------------------------------------------------- recursive descent

  function Descend(s: LogState, c: Call): Result<(LogState, Tree)>
    decreases c, 1
  {
    match OpenLog(s, c.instruction.programId)
    case Panic => Panic
    case Done(begun) =>
      match DescendAll(begun, c.inner)
      case Panic => Panic
      case Done((after, inner)) =>
        match CloseLog(after, c.instruction.programId)
        case Panic => Panic
        case Done((closed, own)) => Done((closed, Tree(c.instruction, inner, own)))
  }

  function DescendAll(s: LogState, cs: seq<Call>): Result<(LogState, seq<Tree>)>
    decreases cs, 0
  {
    if cs == [] then Done((s, []))
    else
      match Descend(s, cs[0])
      case Panic => Panic
      case Done((t, first)) =>
        match DescendAll(t, cs[1..])
        case Panic => Panic
        case Done((u, others)) => Done((u, [first] + others))
  }

  // ---------------------------------------------------------------- simulation

  function TopLevel(p: Parser): int {
    if p.stack == [] then -1 else Level(p.stack[|p.stack| - 1].instruction)
  }

  /** Where a parser stands once a descent from its logs has finished, and has been drained
      down to a level. */
  function Resume(p: Parser, r: Result<(LogState, seq<Tree>)>, level: nat): Result<Parser> {
    match r
    case Panic => Panic
    case Done((logs, ts)) => CloseTo(Attach(p, ts).(logs := logs), level)
  }

  lemma {:induction false} StepsAppend(r: Result<Parser>, a: seq<Instruction>, b: seq<Instruction>)
    ensures Steps(r, a + b) == Steps(Steps(r, a), b)
    decreases |a|
  {
    if a == [] {
      assert a + b == b;
    } else if r.Done? {
      StepsAppend(Step(r.value, a[0]), a[1..], b);
      assert (a + b)[1..] == a[1..] + b;
    }
  }

  lemma {:induction false} ClosedTwice(p: Parser, high: nat, low: nat)
    requires low <= high
    ensures Closed(CloseTo(p, high), low) == CloseTo(p, low)
    decreases |p.stack|
  {
    if p.stack != [] && Level(p.stack[|p.stack| - 1].instruction) >= high && CloseTop(p).Done? {
      ClosedTwice(CloseTop(p).value, high, low);
    }
  }

  /** The next instruction begins by draining to its own level, so draining first is harmless. */
  lemma {:induction false} StepsDrainFirst(r: Result<Parser>, instructions: seq<Instruction>)
    requires instructions != []
    ensures Steps(r, instructions) == Steps(Closed(r, Level(instructions[0])), instructions)
  {
    if r.Done? {
      ClosedTwice(r.value, Level(instructions[0]), Level(instructions[0]));
    }
  }

  lemma {:induction false} AttachNothing(p: Parser)
    ensures Attach(p, []) == p
  {
    assert p.roots + [] == p.roots;
    if p.stack != [] {
      var n := |p.stack| - 1;
      assert p.stack[n].inner + [] == p.stack[n].inner;
      assert p.stack[n := p.stack[n]] == p.stack;
    }
  }

  lemma {:induction false} AttachTwice(p: Parser, a: seq<Tree>, b: seq<Tree>, logs: LogState)
    ensures Attach(Attach(p, a).(logs := logs), b).logs == logs
    ensures Attach(Attach(p, a).(logs := logs), b) == Attach(p, a + b).(logs := logs)
  {
    assert p.roots + (a + b) == p.roots + a + b;
    if p.stack != [] {
      var inner := p.stack[|p.stack| - 1].inner;
      assert inner + (a + b) == inner + a + b;
    }
  }

  lemma {:induction false} StepsOfCall(p: Parser, c: Call)
    requires TopLevel(p) < Level(c.instruction)
    ensures Steps(Done(p), Flat(c)) == Steps(PushNew(p, c.instruction), FlatAll(c.inner))
  {
  }

  /** Draining the callees and then the call itself hands the finished tree to the caller. */
  lemma {:induction false} CallReturns(p: Parser, c: Call, level: nat)
    requires level <= Level(c.instruction) && PushNew(p, c.instruction).Done?
    ensures var q := PushNew(p, c.instruction).value;
      Resume(q, DescendAll(q.logs, c.inner), level) == Resume(p, DescendAll(p.logs, [c]), level)
  {
    hide OpenLog, CloseLog;
    var q := PushNew(p, c.instruction).value;
    DescendOne(p.logs, c);
    match DescendAll(q.logs, c.inner)
    case Panic =>
    case Done((after, inner)) =>
      var full := Attach(q, inner).(logs := after);
      assert full.stack[..|p.stack|] == p.stack;
      assert full.stack[|p.stack|] == Tree(c.instruction, inner, None);
  }

  /** One call, from the moment its caller is on top: listing it and what it calls, then
      draining, is one recursive descent. */
  lemma {:induction false} CallIsDescent(p: Parser, c: Call, level: nat)
    requires TopLevel(p) < Level(c.instruction) && level <= Level(c.instruction)
    requires AllAbove(c.inner, Level(c.instruction)) && WellHeighted(c.inner)
    ensures Closed(Steps(Done(p), Flat(c)), level) == Resume(p, DescendAll(p.logs, [c]), level)
    decreases c, 1
  {
    hide OpenLog, CloseLog, CloseTo;
    StepsOfCall(p, c);
    if PushNew(p, c.instruction).Done? {
      var q := PushNew(p, c.instruction).value;
      assert TopLevel(q) == Level(c.instruction);
      ForestIsDescent(q, c.inner, level);
      CallReturns(p, c, level);
    } else {
      DescendOne(p.logs, c);
    }
  }

  lemma {:induction false} DescendOne(s: LogState, c: Call)
    ensures DescendAll(s, [c]) ==
      match Descend(s, c) case Panic => Panic case Done((t, tree)) => Done((t, [tree]))
  {
    assert [c][1..] == [];
    match Descend(s, c)
    case Panic =>
    case Done((t, tree)) =>
      assert DescendAll(t, []) == Done((t, []));
      assert [tree] + [] == [tree];
  }

  lemma {:induction false} AttachKeepsTop(p: Parser, ts: seq<Tree>, logs: LogState, level: nat)
    ensures var q := Attach(p, ts).(logs := logs);
      TopLevel(q) == TopLevel(p) && (TopLevel(p) < level ==> CloseTo(q, level) == Done(q))
  {
  }

  lemma {:induction false} FlatSplit(cs: seq<Call>)
    requires cs != []
    ensures FlatAll(cs) == Flat(cs[0]) + FlatAll(cs[1..])
    ensures |cs| == 1 ==> FlatAll(cs) == Flat(cs[0]) && cs == [cs[0]]
  {
  }

  lemma {:induction false} DescendSplit(s: LogState, cs: seq<Call>)
    requires cs != []
    ensures DescendAll(s, cs) ==
      match Descend(s, cs[0])
      case Panic => Panic
      case Done((t, first)) =>
        match DescendAll(t, cs[1..])
        case Panic => Panic
        case Done((u, others)) => Done((u, [first] + others))
  {
  }

  /** A list of sibling calls, likewise. */
  lemma {:induction false} ForestIsDescent(p: Parser, cs: seq<Call>, level: nat)
    requires AllAbove(cs, TopLevel(p)) && WellHeighted(cs) && AllAbove(cs, level - 1)
    ensures Closed(Steps(Done(p), FlatAll(cs)), level) == Resume(p, DescendAll(p.logs, cs), level)
    decreases cs, 0
  {
    hide OpenLog, CloseLog, Descend, DescendAll, Attach, Steps, CloseTo, TopLevel, Flat, FlatAll;
    if cs == [] {
      NothingToDescend(p);
    } else {
      var first, others := cs[0], cs[1..];
      FlatSplit(cs);
      if others == [] {
        CallIsDescent(p, first, level);
      } else {
        var r := Steps(Done(p), Flat(first));
        assert others[0] == cs[1];
        StepsAppend(Done(p), Flat(first), FlatAll(others));
        CallIsDescent(p, first, Level(others[0].instruction));
        StepsDrainFirst(r, FlatAll(others));
        DescendOne(p.logs, first);
        DescendSplit(p.logs, cs);
        match Descend(p.logs, first)
        case Panic =>
          PanicStays(FlatAll(others));
        case Done((t, tree)) =>
          var q := Attach(p, [tree]).(logs := t);
          AttachKeepsTop(p, [tree], t, Level(others[0].instruction));
          assert AllAbove(others, TopLevel(q)) && AllAbove(others, level - 1);
          ForestIsDescent(q, others, level);
          SiblingsResume(p, tree, t, DescendAll(t, others), level);
      }
    }
  }

  lemma {:induction false} NothingToDescend(p: Parser)
    ensures FlatAll([]) == [] && Steps(Done(p), []) == Done(p) && DescendAll(p.logs, []) == Done((p.logs, []))
    ensures Attach(p, []) == p
  {
    AttachNothing(p);
  }

  lemma {:induction false} PanicStays(instructions: seq<Instruction>)
    ensures Steps(Panic, instructions) == Panic
  {
  }

  lemma {:induction false} SiblingsResume(p: Parser, tree: Tree, t: LogState, r: Result<(LogState, seq<Tree>)>,
                                          level: nat)
    ensures var q := Attach(p, [tree]).(logs := t);
      Resume(q, r, level) ==
        Resume(p, match r case Panic => Panic case Done((u, ts)) => Done((u, [tree] + ts)), level)
  {
    hide CloseTo;
    match r
    case Panic =>
    case Done((u, ts)) => AttachTwice(p, [tree], ts, t);
  }

  function Trees(r: Result<(LogState, seq<Tree>)>): Result<seq<Tree>> {
    match r case Panic => Panic case Done((s, ts)) => Done(ts)
  }

  /** For a forest listed with its own heights, the parser is the descent. */
  lemma {:induction false} StructureOfForest(cs: seq<Call>, logs: seq<Log>)
    requires WellHeighted(cs)
    ensures Structure(FlatAll(cs), logs) == Trees(DescendAll(Start(logs).logs, cs))
  {
    ForestIsDescent(Start(logs), cs, 0);
    match DescendAll(Start(logs).logs, cs)
    case Panic =>
    case Done((s, ts)) => assert [] + ts == ts;
  }

  /** For every list of heights and every log stream, the parser is the descent over the
      forest the heights describe. */
  lemma {:induction false} StructureIsDescent(instructions: seq<Instruction>, logs: seq<Log>)
    ensures Structure(instructions, logs) == Trees(DescendAll(Start(logs).logs, ForestOf(instructions)))
  {
    ForestOfIsFaithful(instructions);
    StructureOfForest(ForestOf(instructions), logs);
  }
}
