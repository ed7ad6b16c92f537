/** What the parser guarantees about logs on any input at all, rendered by the runtime or not: the slices
    it hands out are framed, and no line is lost or handed out twice. */
module CallFraming {
  import opened Wrappers
  import opened CallLogs
  import opened CallParser
  import opened CallForest

  // ---------------------------------------------------------------- slices and lines

  /** A slice still open: it begins with an invoke line and holds no other, and no marker. */
  ghost predicate Begun(slice: seq<Log>) {
    && slice != [] && slice[0].Invoke?
    && forall i :: 0 < i < |slice| ==> !slice[i].Invoke? && !slice[i].Truncated?
  }

  ghost predicate AllBegun(stack: seq<seq<Log>>) {
    forall i :: 0 <= i < |stack| ==> Begun(stack[i])
  }

  /** A slice handed out: begun, and closed by a success line. */
  ghost predicate Framed(slice: seq<Log>) {
    Begun(slice) && |slice| > 1 && slice[|slice| - 1].Success?
  }

  /** Programs that do not log get the empty slice; others a framed one, or none once the stream was cut. */
  ghost predicate LoggedRight(t: Tree, cut: bool)
    decreases t, 1
  {
    && (match t.logs
        case None => cut && !Silent(t.instruction.programId)
        case Some(own) => if Silent(t.instruction.programId) then own == [] else Framed(own))
    && AllLoggedRight(t.inner, cut)
  }

  ghost predicate AllLoggedRight(ts: seq<Tree>, cut: bool)
    decreases ts, 0
  {
    ts == [] || (LoggedRight(ts[0], cut) && AllLoggedRight(ts[1..], cut))
  }

  function LinesOpen(stack: seq<seq<Log>>): multiset<Log> {
    if stack == [] then multiset{} else LinesOpen(stack[..|stack| - 1]) + multiset(stack[|stack| - 1])
  }

  /** The lines a state still holds: in open slices and unread. */
  function LinesIn(s: LogState): multiset<Log> {
    LinesOpen(s.stack) + multiset(s.rest)
  }

  function Handed(t: Tree): multiset<Log>
    decreases t, 1
  {
    (match t.logs case None => multiset{} case Some(own) => multiset(own)) + HandedAll(t.inner)
  }

  function HandedAll(ts: seq<Tree>): multiset<Log>
    decreases ts, 0
  {
    if ts == [] then multiset{} else Handed(ts[0]) + HandedAll(ts[1..])
  }

  /** The lines hold a truncation marker. */
  predicate HasMarker(lines: seq<Log>) {
    lines != [] && (lines[0].Truncated? || HasMarker(lines[1..]))
  }

  /** A cut comes from a marker among the lines still unread before. */
  ghost predicate CutByMarker(s: LogState, t: LogState) {
    && (HasMarker(t.rest) ==> HasMarker(s.rest))
    && (t.isTruncated ==> s.isTruncated || HasMarker(s.rest))
  }

  // ---------------------------------------------------------------- opening and closing

  lemma {:induction false} FirstLine(rest: seq<Log>)
    requires rest != []
    ensures multiset(rest) == multiset{rest[0]} + multiset(rest[1..])
  {
    assert rest == [rest[0]] + rest[1..];
  }

  /** Reading a line into the top slice keeps every line. */
  lemma {:induction false} PushKeeps(s: LogState)
    requires s.stack != [] && s.rest != [] && AllBegun(s.stack)
    requires !s.rest[0].Invoke? && !s.rest[0].Truncated?
    ensures var t := LogState(PushToTop(s.stack, s.rest[0]), s.isTruncated, s.rest[1..]);
      AllBegun(t.stack) && |t.stack| == |s.stack| && LinesIn(t) == LinesIn(s)
  {
    var n := |s.stack| - 1;
    var stack := PushToTop(s.stack, s.rest[0]);
    FirstLine(s.rest);
    assert stack[..n] == s.stack[..n] && stack[n] == s.stack[n] + [s.rest[0]];
  }

  lemma {:induction false} OpenKeeps(s: LogState, program: Pubkey)
    requires AllBegun(s.stack) && OpenLog(s, program).Done?
    ensures var t := OpenLog(s, program).value;
      && AllBegun(t.stack) && LinesIn(t) <= LinesIn(s) && CutByMarker(s, t)
      && (s.isTruncated ==> t.isTruncated)
      && (!t.isTruncated ==>
            LinesIn(t) == LinesIn(s) && |t.stack| == |s.stack| + if Silent(program) then 0 else 1)
    decreases |s.rest|
  {
    hide LinesOpen, PushToTop;
    if !Silent(program) && !s.isTruncated {
      var log, rest := s.rest[0], s.rest[1..];
      FirstLine(s.rest);
      if log.Truncated? {
      } else if log.Invoke? {
        OpensSlice(s.stack, log);
      } else {
        PushKeeps(s);
        OpenKeeps(LogState(PushToTop(s.stack, log), false, rest), program);
      }
    }
  }

  lemma {:induction false} OpensSlice(stack: seq<seq<Log>>, log: Log)
    requires AllBegun(stack) && log.Invoke?
    ensures AllBegun(stack + [[log]]) && LinesOpen(stack + [[log]]) == LinesOpen(stack) + multiset{log}
  {
    assert (stack + [[log]])[..|stack|] == stack;
  }

  lemma {:induction false} CloseKeeps(s: LogState, program: Pubkey)
    requires AllBegun(s.stack) && CloseLog(s, program).Done?
    ensures var (t, own) := CloseLog(s, program).value;
      && AllBegun(t.stack) && (s.isTruncated ==> t.isTruncated) && CutByMarker(s, t)
      && LinesIn(t) + OwnLines(own) <= LinesIn(s)
      && (!t.isTruncated ==>
            && LinesIn(t) + OwnLines(own) == LinesIn(s)
            && |t.stack| == |s.stack| - if Silent(program) then 0 else 1)
      && (match own
          case None => t.isTruncated && !Silent(program)
          case Some(lines) => if Silent(program) then lines == [] else Framed(lines))
    decreases |s.rest|
  {
    hide LinesOpen, PushToTop;
    if !Silent(program) && !s.isTruncated {
      var log, rest := s.rest[0], s.rest[1..];
      FirstLine(s.rest);
      if !log.Truncated? {
        PushKeeps(s);
        var stack := PushToTop(s.stack, log);
        if log.Success? {
          PopsSlice(s, log);
        } else {
          CloseKeeps(LogState(stack, false, rest), program);
        }
      }
    }
  }

  function OwnLines(own: Option<seq<Log>>): multiset<Log> {
    match own case None => multiset{} case Some(lines) => multiset(lines)
  }

  lemma {:induction false} PopsSlice(s: LogState, log: Log)
    requires AllBegun(s.stack) && s.stack != [] && log.Success?
    ensures var stack := PushToTop(s.stack, log);
      var n := |stack| - 1;
      AllBegun(stack[..n]) && Framed(stack[n]) && LinesOpen(stack) == LinesOpen(stack[..n]) + multiset(stack[n])
  {
  }

  // ---------------------------------------------------------------- whole calls

  /** What a descent keeps: open slices stay begun, its trees are logged right, and every line is in a
      handed-out slice, an open one or unread, except what a cut swallows. */
  ghost predicate Accounted(s: LogState, t: LogState, ts: seq<Tree>) {
    && AllBegun(t.stack) && (s.isTruncated ==> t.isTruncated) && CutByMarker(s, t)
    && AllLoggedRight(ts, t.isTruncated)
    && LinesIn(t) + HandedAll(ts) <= LinesIn(s)
    && (!t.isTruncated ==> LinesIn(t) + HandedAll(ts) == LinesIn(s) && |t.stack| == |s.stack|)
  }

  lemma {:induction false} LaterCut(ts: seq<Tree>, cut: bool, later: bool)
    requires AllLoggedRight(ts, cut) && (cut ==> later)
    ensures AllLoggedRight(ts, later)
    decreases ts
  {
    if ts != [] {
      LaterCut(ts[0].inner, cut, later);
      LaterCut(ts[1..], cut, later);
    }
  }

  lemma {:induction false} OneTree(t: Tree, cut: bool)
    ensures AllLoggedRight([t], cut) <==> LoggedRight(t, cut)
    ensures HandedAll([t]) == Handed(t)
  {
    assert [t][1..] == [];
  }

  lemma {:induction false} DescendAccounts(s: LogState, c: Call)
    requires AllBegun(s.stack) && Descend(s, c).Done?
    ensures Accounted(s, Descend(s, c).value.0, [Descend(s, c).value.1])
    decreases c, 1
  {
    hide OpenLog, CloseLog, LinesOpen, AllBegun, Begun, Framed, DescendAll;
    var program := c.instruction.programId;
    OpenKeeps(s, program);
    var begun := OpenLog(s, program).value;
    DescendAllAccounts(begun, c.inner);
    var (after, inner) := DescendAll(begun, c.inner).value;
    CloseKeeps(after, program);
    var (closed, own) := CloseLog(after, program).value;
    LaterCut(inner, after.isTruncated, closed.isTruncated);
    OneTree(Tree(c.instruction, inner, own), closed.isTruncated);
  }

  lemma {:induction false} DescendAllAccounts(s: LogState, cs: seq<Call>)
    requires AllBegun(s.stack) && DescendAll(s, cs).Done?
    ensures Accounted(s, DescendAll(s, cs).value.0, DescendAll(s, cs).value.1)
    decreases cs, 0
  {
    hide OpenLog, CloseLog, LinesOpen, AllBegun, Begun, Framed, Descend;
    if cs != [] {
      DescendAccounts(s, cs[0]);
      var (t, first) := Descend(s, cs[0]).value;
      DescendAllAccounts(t, cs[1..]);
      var (u, others) := DescendAll(t, cs[1..]).value;
      OneTree(first, t.isTruncated);
      LaterCut([first], t.isTruncated, u.isTruncated);
      OneTree(first, u.isTruncated);
      assert ([first] + others)[1..] == others;
    }
  }

  /** For every instruction list and every log stream the parser answers on: each program that logs gets a
      slice from one invoke line to a success line with no invoke line between, or none after a cut;
      each that does not gets the empty one; no line is handed out twice; and unless the stream was
      cut every line it read is handed out. */
  lemma {:induction false} NoLineLost(instructions: seq<Instruction>, logs: seq<Log>)
      returns (cut: bool, unread: seq<Log>)
    requires Structure(instructions, logs).Done?
    ensures var ts := Structure(instructions, logs).value;
      && AllLoggedRight(ts, cut)
      && HandedAll(ts) + multiset(unread) <= multiset(logs)
      && (!cut ==> HandedAll(ts) + multiset(unread) == multiset(logs))
      && (cut ==> HasMarker(logs))
  {
    hide DescendAll, AllLoggedRight, HandedAll, Structure;
    StructureIsDescent(instructions, logs);
    var s := Start(logs).logs;
    DescendAllAccounts(s, ForestOf(instructions));
    var (t, ts) := DescendAll(s, ForestOf(instructions)).value;
    cut, unread := t.isTruncated, t.rest;
    NothingOpen(s);
    if !cut {
      NothingOpen(t);
    }
  }

  lemma {:induction false} NothingOpen(s: LogState)
    requires s.stack == []
    ensures LinesIn(s) == multiset(s.rest)
  {
  }
}
