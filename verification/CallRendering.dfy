/** Log streams as the runtime writes them, and what the parser makes of them: the rendered
    forest itself, or its undamaged part when the stream was cut. */
module CallRendering {
  import opened Wrappers
  import opened CallLogs
  import opened CallParser
  import opened CallForest
  import opened CallContainment

  /** What an instruction did, in order: a line of its own, or a call. */
  datatype Item = Line(log: Log) | Child(call: Trace)

  datatype Trace = Trace(instruction: Instruction, invoke: Log, body: seq<Item>, success: Log)

  predicate Plain(log: Log) {
    !log.Invoke? && !log.Success? && !log.Truncated?
  }

  function SilentTrace(t: Trace): bool {
    Silent(t.instruction.programId)
  }

  /** Traces the runtime can produce: framing lines of the right kind, plain own lines, and
      no lines at all from the programs that do not log. */
  predicate Valid(t: Trace)
    decreases t
  {
    t.invoke.Invoke? && t.success.Success? && ValidBody(t.body, !SilentTrace(t))
  }

  predicate ValidBody(body: seq<Item>, logs: bool)
    decreases body
  {
    body == [] || (ValidItem(body[0], logs) && ValidBody(body[1..], logs))
  }

  predicate ValidItem(i: Item, logs: bool)
    decreases i
  {
    match i case Line(l) => logs && Plain(l) case Child(t) => Valid(t)
  }

  function CallOf(t: Trace): Call
    decreases t
  {
    Call(t.instruction, CallsOf(t.body))
  }

  function CallsOf(body: seq<Item>): seq<Call>
    decreases body
  {
    if body == [] then [] else CallsIn(body[0]) + CallsOf(body[1..])
  }

  function CallsIn(i: Item): seq<Call>
    decreases i
  {
    match i case Line(_) => [] case Child(t) => [CallOf(t)]
  }

  function Render(t: Trace): seq<Log>
    decreases t
  {
    if SilentTrace(t) then RenderBody(t.body) else [t.invoke] + RenderBody(t.body) + [t.success]
  }

  function RenderBody(body: seq<Item>): seq<Log>
    decreases body
  {
    if body == [] then [] else RenderItem(body[0]) + RenderBody(body[1..])
  }

  function RenderItem(i: Item): seq<Log>
    decreases i
  {
    match i case Line(l) => [l] case Child(t) => Render(t)
  }

  function OwnLines(body: seq<Item>): seq<Log> {
    if body == [] then [] else (if body[0].Line? then [body[0].log] else []) + OwnLines(body[1..])
  }

  /** What is left of an instruction's logs when only `n` lines of the stream, counted from
      where the instruction starts, survive: all of them if it was closed by then, else none. */
  function Surviving(t: Trace, n: int): Option<seq<Log>> {
    if SilentTrace(t) then Some([])
    else if |Render(t)| <= n then Some([t.invoke] + OwnLines(t.body) + [t.success])
    else None
  }

  function Expected(t: Trace, n: int): Tree
    decreases t
  {
    Tree(t.instruction, ExpectedBody(t.body, if SilentTrace(t) then n else n - 1), Surviving(t, n))
  }

  function ExpectedBody(body: seq<Item>, n: int): seq<Tree>
    decreases body
  {
    if body == [] then [] else ExpectedItem(body[0], n) + ExpectedBody(body[1..], n - |RenderItem(body[0])|)
  }

  function ExpectedItem(i: Item, n: int): seq<Tree>
    decreases i
  {
    match i case Line(_) => [] case Child(t) => [Expected(t, n)]
  }

  /** The first `n` lines, then the marker and whatever follows it; the whole text if it is no longer. */
  function Cut(text: seq<Log>, n: nat, marker: Log, junk: seq<Log>): seq<Log> {
    if n < |text| then text[..n] + [marker] + junk else text
  }

  // ---------------------------------------------------------------- lines waiting to be read

  const CUT := LogState([], true, [])

  /** The state once the waiting own lines are read: opening or closing reads them first, so
      states with one settled form are interchangeable. */
  function Settled(s: LogState): LogState
    decreases |s.rest|
  {
    if s.isTruncated then CUT
    else if s.rest == [] then s
    else if s.rest[0].Truncated? then CUT
    else if s.rest[0].Invoke? || s.rest[0].Success? || s.stack == [] then s
    else Settled(LogState(PushToTop(s.stack, s.rest[0]), false, s.rest[1..]))
  }

  predicate SameStates(a: Result<LogState>, b: Result<LogState>) {
    match (a, b)
    case (Panic, Panic) => true
    case (Done(s), Done(t)) => Settled(s) == Settled(t)
    case (_, _) => false
  }

  predicate SameOutcome<T(==)>(a: Result<(LogState, T)>, b: Result<(LogState, T)>) {
    match (a, b)
    case (Panic, Panic) => true
    case (Done((s, x)), Done((t, y))) => x == y && Settled(s) == Settled(t)
    case (_, _) => false
  }

  lemma {:induction false} OpenSettled(s: LogState, program: Pubkey)
    requires !Silent(program)
    ensures SameStates(OpenLog(s, program), OpenLog(Settled(s), program))
    decreases |s.rest|
  {
    if !s.isTruncated && s.rest != [] && Plain(s.rest[0]) && s.stack != [] {
      OpenSettled(LogState(PushToTop(s.stack, s.rest[0]), false, s.rest[1..]), program);
    }
  }

  lemma {:induction false} CloseSettled(s: LogState, program: Pubkey)
    requires !Silent(program)
    ensures SameOutcome(CloseLog(s, program), CloseLog(Settled(s), program))
    decreases |s.rest|
  {
    if !s.isTruncated && s.rest != [] && Plain(s.rest[0]) && s.stack != [] {
      CloseSettled(LogState(PushToTop(s.stack, s.rest[0]), false, s.rest[1..]), program);
    }
  }

  lemma {:induction false} DescendInterchangeable(s: LogState, t: LogState, c: Call)
    requires Settled(s) == Settled(t)
    ensures SameOutcome(Descend(s, c), Descend(t, c))
    decreases c, 1
  {
    var program := c.instruction.programId;
    if !Silent(program) {
      OpenSettled(s, program);
      OpenSettled(t, program);
    }
    if OpenLog(s, program).Done? {
      var s1, t1 := OpenLog(s, program).value, OpenLog(t, program).value;
      DescendAllInterchangeable(s1, t1, c.inner);
      if DescendAll(s1, c.inner).Done? && !Silent(program) {
        CloseSettled(DescendAll(s1, c.inner).value.0, program);
        CloseSettled(DescendAll(t1, c.inner).value.0, program);
      }
    }
  }

  lemma {:induction false} DescendAllInterchangeable(s: LogState, t: LogState, cs: seq<Call>)
    requires Settled(s) == Settled(t)
    ensures SameOutcome(DescendAll(s, cs), DescendAll(t, cs))
    decreases cs, 0
  {
    if cs != [] {
      DescendInterchangeable(s, t, cs[0]);
      if Descend(s, cs[0]).Done? {
        DescendAllInterchangeable(Descend(s, cs[0]).value.0, Descend(t, cs[0]).value.0, cs[1..]);
      }
    }
  }

  // ---------------------------------------------------------------- reading a rendering

  lemma {:induction false} DescendAppend(s: LogState, a: seq<Call>, b: seq<Call>)
    ensures DescendAll(s, a + b) ==
      match DescendAll(s, a)
      case Panic => Panic
      case Done((t, x)) =>
        match DescendAll(t, b)
        case Panic => Panic
        case Done((u, y)) => Done((u, x + y))
    decreases |a|
  {
    if a == [] {
      assert a + b == b;
      match DescendAll(s, b) case Panic => case Done((u, y)) => assert [] + y == y;
    } else {
      assert (a + b)[1..] == a[1..] + b;
      match Descend(s, a[0])
      case Panic =>
      case Done((t, first)) =>
        DescendAppend(t, a[1..], b);
        match DescendAll(t, a[1..])
        case Panic =>
        case Done((u, x)) =>
          match DescendAll(u, b) case Panic => case Done((v, y)) => assert [first] + x + y == [first] + (x + y);
    }
  }

  /** Once the stream is cut, nothing more is read and no logging instruction keeps logs. */
  lemma {:induction false} DescendAfterCut(s: LogState, t: Trace, n: int)
    requires s.isTruncated && n <= 0
    ensures Descend(s, CallOf(t)) == Done((s, Expected(t, n)))
    decreases t
  {
    DescendAllAfterCut(s, t.body, if SilentTrace(t) then n else n - 1);
  }

  lemma {:induction false} DescendItemAfterCut(s: LogState, i: Item, n: int)
    requires s.isTruncated && n <= 0
    ensures DescendAll(s, CallsIn(i)) == Done((s, ExpectedItem(i, n)))
    decreases i
  {
    if i.Child? {
      DescendAfterCut(s, i.call, n);
      DescendOne(s, CallOf(i.call));
    }
  }

  lemma {:induction false} DescendAllAfterCut(s: LogState, body: seq<Item>, n: int)
    requires s.isTruncated && n <= 0
    ensures DescendAll(s, CallsOf(body)) == Done((s, ExpectedBody(body, n)))
    decreases body
  {
    if body != [] {
      DescendItemAfterCut(s, body[0], n);
      DescendAllAfterCut(s, body[1..], n - |RenderItem(body[0])|);
      DescendAppend(s, CallsIn(body[0]), CallsOf(body[1..]));
    }
  }

  /** A settled truncated state answers like a truncated one. */
  lemma {:induction false} DescendAllFromCut(s: LogState, body: seq<Item>, n: int)
    requires Settled(s) == CUT && n <= 0
    ensures var r := DescendAll(s, CallsOf(body));
      r.Done? && Settled(r.value.0) == CUT && r.value.1 == ExpectedBody(body, n)
  {
    DescendAllInterchangeable(s, CUT, CallsOf(body));
    DescendAllAfterCut(CUT, body, n);
  }

  lemma {:induction false} CutDrop(a: seq<Log>, b: seq<Log>, n: nat, marker: Log, junk: seq<Log>)
    requires |a| <= n
    ensures Cut(a + b, n, marker, junk) == a + Cut(b, n - |a|, marker, junk)
  {
  }

  /** The result of reading a piece of text: the trees, and the reader moved past it or cut. */
  predicate Reads(r: Result<(LogState, seq<Tree>)>, ts: seq<Tree>, after: LogState) {
    r.Done? && r.value.1 == ts && Settled(r.value.0) == Settled(after)
  }

  /** The reader of `text` after its first part has been consumed by open slices `stack`. */
  function Past(stack: seq<seq<Log>>, first: seq<Log>, text: seq<Log>, n: nat, marker: Log, junk: seq<Log>): LogState {
    if |first| <= n then LogState(stack, false, Cut(text, n - |first|, marker, junk)) else CUT
  }

  function WithLines(stack: seq<seq<Log>>, lines: seq<Log>): seq<seq<Log>> {
    if stack == [] then [] else stack[|stack| - 1 := stack[|stack| - 1] + lines]
  }

  lemma {:induction false} ReadLine(stack: seq<seq<Log>>, l: Log, text: seq<Log>, n: nat, marker: Log, junk: seq<Log>)
    requires Plain(l) && stack != [] && marker.Truncated?
    ensures Settled(LogState(stack, false, Cut([l] + text, n, marker, junk)))
      == Settled(Past(WithLines(stack, [l]), [l], text, n, marker, junk))
  {
    var s := LogState(stack, false, Cut([l] + text, n, marker, junk));
    if n > 0 {
      CutDrop([l], text, n, marker, junk);
      assert s.rest[0] == l && s.rest[1..] == Cut(text, n - 1, marker, junk);
    } else {
      assert s.rest[0] == marker;
    }
  }

  lemma {:induction false} WithNoLines(stack: seq<seq<Log>>)
    ensures WithLines(stack, []) == stack
  {
    if stack != [] {
      assert stack[|stack| - 1] + [] == stack[|stack| - 1];
    }
  }

  lemma {:induction false} SilentOwnsNothing(body: seq<Item>)
    requires ValidBody(body, false)
    ensures OwnLines(body) == []
  {
    if body != [] {
      SilentOwnsNothing(body[1..]);
    }
  }

  lemma {:induction false} ReadTrace(stack: seq<seq<Log>>, t: Trace, text: seq<Log>, n: nat, marker: Log,
                                     junk: seq<Log>)
    requires Valid(t) && marker.Truncated?
    ensures var s := LogState(stack, false, Cut(Render(t) + text, n, marker, junk));
      Reads(DescendAll(s, [CallOf(t)]), [Expected(t, n)], Past(stack, Render(t), text, n, marker, junk))
    decreases t
  {
    var s := LogState(stack, false, Cut(Render(t) + text, n, marker, junk));
    DescendOne(s, CallOf(t));
    if SilentTrace(t) {
      ReadBody(stack, t.body, false, text, n, marker, junk);
      SilentOwnsNothing(t.body);
      WithNoLines(stack);
    } else {
      ReadLogging(stack, t, text, n, marker, junk);
    }
  }

  lemma {:induction false} CutRender(t: Trace, text: seq<Log>, n: nat, marker: Log, junk: seq<Log>)
    requires !SilentTrace(t)
    ensures n == 0 ==> Cut(Render(t) + text, n, marker, junk) == [marker] + junk
    ensures n > 0 ==>
      Cut(Render(t) + text, n, marker, junk)
        == [t.invoke] + Cut(RenderBody(t.body) + ([t.success] + text), n - 1, marker, junk)
  {
    var after := RenderBody(t.body) + ([t.success] + text);
    assert Render(t) + text == [t.invoke] + after;
    if n > 0 {
      CutDrop([t.invoke], after, n, marker, junk);
    }
  }

  lemma {:induction false} ReadLogging(stack: seq<seq<Log>>, t: Trace, text: seq<Log>, n: nat, marker: Log,
                                       junk: seq<Log>)
    requires Valid(t) && marker.Truncated? && !SilentTrace(t)
    ensures var s := LogState(stack, false, Cut(Render(t) + text, n, marker, junk));
      var r := Descend(s, CallOf(t));
      && r.Done? && r.value.1 == Expected(t, n)
      && Settled(r.value.0) == Settled(Past(stack, Render(t), text, n, marker, junk))
    decreases t, 1
  {
    hide OpenLog, CloseLog, Settled, Cut, Render, RenderBody, Descend, Expected;
    var s := LogState(stack, false, Cut(Render(t) + text, n, marker, junk));
    CutRender(t, text, n, marker, junk);
    if n == 0 {
      ReadCutHead(s, t, marker);
    } else {
      var begun := LogState(stack + [[t.invoke]], false,
                            Cut(RenderBody(t.body) + ([t.success] + text), n - 1, marker, junk));
      OpenFindsInvoke(s, t, begun);
      ReadAfterInvoke(s, begun, stack, t, text, n, marker, junk);
    }
  }

  lemma {:induction false} ReadAfterInvoke(s: LogState, begun: LogState, stack: seq<seq<Log>>, t: Trace,
                                           text: seq<Log>, n: nat, marker: Log, junk: seq<Log>)
    requires Valid(t) && marker.Truncated? && !SilentTrace(t) && n > 0
    requires OpenLog(s, t.instruction.programId) == Done(begun)
    requires begun == LogState(stack + [[t.invoke]], false,
                               Cut(RenderBody(t.body) + ([t.success] + text), n - 1, marker, junk))
    ensures var r := Descend(s, CallOf(t));
      && r.Done? && r.value.1 == Expected(t, n)
      && Settled(r.value.0) == Settled(Past(stack, Render(t), text, n, marker, junk))
    decreases t, 0
  {
    hide OpenLog, CloseLog, Settled, Cut, Render, RenderBody, Past, Surviving, OwnLines, WithLines;
    ReadBody(begun.stack, t.body, true, [t.success] + text, n - 1, marker, junk);
    var after := DescendAll(begun, CallsOf(t.body)).value.0;
    ReadSuccess(stack, t, after, text, n, marker, junk);
  }

  lemma {:induction false} ReadCutHead(s: LogState, t: Trace, marker: Log)
    requires !SilentTrace(t) && !s.isTruncated && s.rest != [] && s.rest[0] == marker && marker.Truncated?
    ensures var r := Descend(s, CallOf(t)); r.Done? && r.value.1 == Expected(t, 0) && Settled(r.value.0) == CUT
    ensures Settled(CUT) == CUT && |Render(t)| > 0
  {
    var after := LogState(s.stack, true, s.rest[1..]);
    assert OpenLog(s, t.instruction.programId) == Done(after);
    DescendAllAfterCut(after, t.body, -1);
  }

  lemma {:induction false} OpenFindsInvoke(s: LogState, t: Trace, begun: LogState)
    requires Valid(t) && !SilentTrace(t) && !s.isTruncated && s.rest == [t.invoke] + begun.rest
    requires begun == LogState(s.stack + [[t.invoke]], false, begun.rest)
    ensures OpenLog(s, t.instruction.programId) == Done(begun)
  {
  }

  /** Closing an instruction whose body has been read. */
  lemma {:induction false} ReadSuccess(stack: seq<seq<Log>>, t: Trace, after: LogState, text: seq<Log>, n: nat,
                                       marker: Log, junk: seq<Log>)
    requires Valid(t) && marker.Truncated? && !SilentTrace(t) && n > 0
    requires var begun := WithLines(stack + [[t.invoke]], OwnLines(t.body));
      Settled(after) == Settled(Past(begun, RenderBody(t.body), [t.success] + text, n - 1, marker, junk))
    ensures var r := CloseLog(after, t.instruction.programId);
      r.Done? && r.value.1 == Surviving(t, n)
      && Settled(r.value.0) == Settled(Past(stack, Render(t), text, n, marker, junk))
  {
    var program := t.instruction.programId;
    var inside := RenderBody(t.body);
    var begun := WithLines(stack + [[t.invoke]], OwnLines(t.body));
    var q := Past(begun, inside, [t.success] + text, n - 1, marker, junk);
    CloseSettled(after, program);
    CloseSettled(q, program);
    assert |Render(t)| == |inside| + 2;
    assert begun == stack + [[t.invoke] + OwnLines(t.body)];
    if n - 1 > |inside| {
      CutDrop([t.success], text, n - 1 - |inside|, marker, junk);
      assert q.rest[0] == t.success && q.rest[1..] == Cut(text, n - 2 - |inside|, marker, junk);
      assert PushToTop(begun, t.success) == stack + [[t.invoke] + OwnLines(t.body) + [t.success]];
    } else if n - 1 == |inside| {
      assert q.rest[0] == marker;
    }
  }

  lemma {:induction false} ReadBody(stack: seq<seq<Log>>, body: seq<Item>, logs: bool, text: seq<Log>, n: nat,
                                    marker: Log, junk: seq<Log>)
    requires ValidBody(body, logs) && marker.Truncated? && (logs ==> stack != [])
    ensures var s := LogState(stack, false, Cut(RenderBody(body) + text, n, marker, junk));
      Reads(DescendAll(s, CallsOf(body)), ExpectedBody(body, n),
            Past(WithLines(stack, OwnLines(body)), RenderBody(body), text, n, marker, junk))
    decreases body
  {
    var s := LogState(stack, false, Cut(RenderBody(body) + text, n, marker, junk));
    if body == [] {
      assert [] + text == text;
      WithNoLines(stack);
    } else {
      ReadFirstItem(stack, body, logs, text, n, marker, junk);
    }
  }

  lemma {:induction false} ReadFirstItem(stack: seq<seq<Log>>, body: seq<Item>, logs: bool, text: seq<Log>, n: nat,
                                         marker: Log, junk: seq<Log>)
    requires body != [] && ValidBody(body, logs) && marker.Truncated? && (logs ==> stack != [])
    ensures var s := LogState(stack, false, Cut(RenderBody(body) + text, n, marker, junk));
      Reads(DescendAll(s, CallsOf(body)), ExpectedBody(body, n),
            Past(WithLines(stack, OwnLines(body)), RenderBody(body), text, n, marker, junk))
    decreases body, 0
  {
    hide Descend, Settled, Cut, WithLines, RenderItem, Past, DescendAll;
    var first, others := body[0], body[1..];
    var tail := RenderBody(others) + text;
    var s := LogState(stack, false, Cut(RenderBody(body) + text, n, marker, junk));
    assert RenderBody(body) + text == RenderItem(first) + tail;
    ReadItem(stack, first, logs, tail, n, marker, junk);
    DescendAppend(s, CallsIn(first), CallsOf(others));
    var t := DescendAll(s, CallsIn(first)).value.0;
    var lines := if first.Line? then [first.log] else [];
    var m := n - |RenderItem(first)|;
    WithLinesTwice(stack, lines, OwnLines(others));
    PastTwice(WithLines(stack, lines), WithLines(stack, OwnLines(body)), RenderItem(first), RenderBody(others), text,
              n, marker, junk);
    if m >= 0 {
      var u := LogState(WithLines(stack, lines), false, Cut(tail, m, marker, junk));
      DescendAllInterchangeable(t, u, CallsOf(others));
      WithLinesKeepsSize(stack, lines);
      ReadBody(u.stack, others, logs, text, m, marker, junk);
    } else {
      DescendAllFromCut(t, others, m);
    }
  }

  lemma {:induction false} PastTwice(inner: seq<seq<Log>>, stack: seq<seq<Log>>, a: seq<Log>, b: seq<Log>,
                                     text: seq<Log>, n: nat, marker: Log, junk: seq<Log>)
    ensures |a| <= n ==>
      && Past(stack, a + b, text, n, marker, junk) == Past(stack, b, text, n - |a|, marker, junk)
      && Past(inner, a, b + text, n, marker, junk) == LogState(inner, false, Cut(b + text, n - |a|, marker, junk))
    ensures |a| > n ==>
      && Past(stack, a + b, text, n, marker, junk) == CUT
      && Past(inner, a, b + text, n, marker, junk) == CUT
    ensures Settled(CUT) == CUT
  {
  }

  lemma {:induction false} WithLinesKeepsSize(stack: seq<seq<Log>>, lines: seq<Log>)
    ensures |WithLines(stack, lines)| == |stack|
  {
  }

  lemma {:induction false} WithLinesTwice(stack: seq<seq<Log>>, a: seq<Log>, b: seq<Log>)
    ensures WithLines(WithLines(stack, a), b) == WithLines(stack, a + b)
  {
    if stack != [] {
      var top := stack[|stack| - 1];
      assert top + (a + b) == top + a + b;
    }
  }

  lemma {:induction false} ReadItem(stack: seq<seq<Log>>, i: Item, logs: bool, text: seq<Log>, n: nat, marker: Log,
                                    junk: seq<Log>)
    requires ValidItem(i, logs) && marker.Truncated? && (logs ==> stack != [])
    ensures var s := LogState(stack, false, Cut(RenderItem(i) + text, n, marker, junk));
      var lines := if i.Line? then [i.log] else [];
      Reads(DescendAll(s, CallsIn(i)), ExpectedItem(i, n),
            Past(WithLines(stack, lines), RenderItem(i), text, n, marker, junk))
    decreases i
  {
    match i
    case Line(l) => ReadLine(stack, l, text, n, marker, junk);
    case Child(t) =>
      ReadTrace(stack, t, text, n, marker, junk);
      WithNoLines(stack);
  }

  // ---------------------------------------------------------------- the parser on renderings

  /** A whole transaction: top-level traces, with nothing logged between them. */
  function Calls(ts: seq<Trace>): seq<Item> {
    seq(|ts|, i requires 0 <= i < |ts| => Child(ts[i]))
  }

  predicate ValidTransaction(ts: seq<Trace>) {
    ValidBody(Calls(ts), false) && WellHeighted(CallsOf(Calls(ts)))
  }

  /** The transaction's forest, every instruction with all the logs it produced. */
  function Whole(t: Trace): Tree
    decreases t
  {
    Tree(t.instruction, WholeBody(t.body),
         Some(if SilentTrace(t) then [] else [t.invoke] + OwnLines(t.body) + [t.success]))
  }

  function WholeBody(body: seq<Item>): seq<Tree>
    decreases body
  {
    if body == [] then [] else WholeItem(body[0]) + WholeBody(body[1..])
  }

  function WholeItem(i: Item): seq<Tree>
    decreases i
  {
    match i case Line(_) => [] case Child(t) => [Whole(t)]
  }

  lemma {:induction false} ExpectedIsWhole(body: seq<Item>, n: int)
    requires |RenderBody(body)| <= n
    ensures ExpectedBody(body, n) == WholeBody(body)
    decreases body
  {
    if body != [] {
      ExpectedItemIsWhole(body[0], n);
      ExpectedIsWhole(body[1..], n - |RenderItem(body[0])|);
    }
  }

  lemma {:induction false} ExpectedItemIsWhole(i: Item, n: int)
    requires |RenderItem(i)| <= n
    ensures ExpectedItem(i, n) == WholeItem(i)
    decreases i
  {
    if i.Child? {
      ExpectedIsWhole(i.call.body, if SilentTrace(i.call) then n else n - 1);
    }
  }

  lemma {:induction false} ParseCut(ts: seq<Trace>, text: seq<Log>, n: nat, marker: Log, junk: seq<Log>)
    requires ValidTransaction(ts) && marker.Truncated?
    ensures var body := Calls(ts);
      Structure(FlatAll(CallsOf(body)), Cut(RenderBody(body) + text, n, marker, junk)) == Done(ExpectedBody(body, n))
  {
    var body := Calls(ts);
    StructureOfForest(CallsOf(body), Cut(RenderBody(body) + text, n, marker, junk));
    ReadBody([], body, false, text, n, marker, junk);
  }

  /** The parser inverts rendering: the forest comes back, every logging instruction holding
      exactly its invoke line, own lines and success line, and nothing panics. */
  lemma {:induction false} ParserInvertsRendering(ts: seq<Trace>)
    requires ValidTransaction(ts)
    ensures Structure(FlatAll(CallsOf(Calls(ts))), RenderBody(Calls(ts))) == Done(WholeBody(Calls(ts)))
  {
    var body := Calls(ts);
    assert RenderBody(body) + [] == RenderBody(body);
    ParseCut(ts, [], |RenderBody(body)|, Truncated(""), []);
    ExpectedIsWhole(body, |RenderBody(body)|);
  }

  /** Truncation is clean: with the stream cut anywhere by the marker, instructions closed
      before it keep exactly their logs, later logging ones get none, the forest keeps its
      shape, and nothing after the marker is read. */
  lemma {:induction false} TruncationIsClean(ts: seq<Trace>, n: nat, marker: Log, junk: seq<Log>)
    requires ValidTransaction(ts) && marker.Truncated? && n <= |RenderBody(Calls(ts))|
    ensures var body := Calls(ts);
      && Structure(FlatAll(CallsOf(body)), RenderBody(body)[..n] + [marker] + junk) == Done(ExpectedBody(body, n))
      && EraseAll(ExpectedBody(body, n)) == CallsOf(body)
  {
    var body := Calls(ts);
    var logs := RenderBody(body)[..n] + [marker] + junk;
    ParseCut(ts, [marker], n, marker, junk);
    assert Cut(RenderBody(body) + [marker], n, marker, junk) == logs by {
      assert (RenderBody(body) + [marker])[..n] == RenderBody(body)[..n];
    }
    StructureOfForest(CallsOf(body), logs);
    DescendKeepsForest(Start(logs).logs, CallsOf(body));
  }

  // ---------------------------------------------------------------- heights by depth

  /** Heights as the runtime reports them: one for top-level instructions, one more per call. */
  predicate DepthHeights(t: Trace, depth: nat)
    decreases t
  {
    t.instruction.stackHeight == Some(depth) && DepthHeightsBody(t.body, depth + 1)
  }

  predicate DepthHeightsBody(body: seq<Item>, depth: nat)
    decreases body
  {
    body == [] || (DepthHeightsItem(body[0], depth) && DepthHeightsBody(body[1..], depth))
  }

  predicate DepthHeightsItem(i: Item, depth: nat)
    decreases i
  {
    match i case Line(_) => true case Child(t) => DepthHeights(t, depth)
  }

  /** Such heights always describe the forest they come from. */
  lemma {:induction false} DepthHeightsAreWellHeighted(body: seq<Item>, depth: nat)
    requires DepthHeightsBody(body, depth)
    ensures WellHeighted(CallsOf(body))
    ensures forall i :: 0 <= i < |CallsOf(body)| ==> Level(CallsOf(body)[i].instruction) == depth + 1
    decreases body
  {
    if body != [] {
      DepthHeightsAreWellHeighted(body[1..], depth);
      var others := CallsOf(body[1..]);
      if body[0].Child? {
        DepthHeightsItemWellHeighted(body[0], depth);
        JoinForest(CallsIn(body[0])[0], others);
      } else {
        assert CallsOf(body) == others;
      }
    }
  }

  lemma {:induction false} DepthHeightsItemWellHeighted(i: Item, depth: nat)
    requires DepthHeightsItem(i, depth) && i.Child?
    ensures var c := CallOf(i.call);
      Level(c.instruction) == depth + 1 && WellHeighted(c.inner) && AllAbove(c.inner, depth + 1)
    decreases i
  {
    DepthHeightsAreWellHeighted(i.call.body, depth + 1);
  }
}
