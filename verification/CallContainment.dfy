/** What the parsed forest says: every instruction sits inside the nearest earlier one of
    smaller height, and listing the forest gives the input back. */
module CallContainment {
  import opened Wrappers
  import opened CallLogs
  import opened CallParser
  import opened CallForest

  function Erase(t: Tree): Call
    decreases t, 1
  {
    Call(t.instruction, EraseAll(t.inner))
  }

  function EraseAll(ts: seq<Tree>): (r: seq<Call>)
    ensures |r| == |ts|
    decreases ts, 0
  {
    if ts == [] then [] else [Erase(ts[0])] + EraseAll(ts[1..])
  }

  lemma {:induction false} DescendKeepsCall(s: LogState, c: Call)
    ensures Descend(s, c).Done? ==> Erase(Descend(s, c).value.1) == c
    decreases c, 1
  {
    if Descend(s, c).Done? {
      DescendKeepsForest(OpenLog(s, c.instruction.programId).value, c.inner);
    }
  }

  lemma {:induction false} DescendKeepsForest(s: LogState, cs: seq<Call>)
    ensures DescendAll(s, cs).Done? ==> EraseAll(DescendAll(s, cs).value.1) == cs
    decreases cs, 0
  {
    if cs != [] && DescendAll(s, cs).Done? {
      var t := Descend(s, cs[0]).value.0;
      DescendKeepsCall(s, cs[0]);
      DescendKeepsForest(t, cs[1..]);
      var ts := DescendAll(s, cs).value.1;
      assert ts[1..] == DescendAll(t, cs[1..]).value.1;
    }
  }

  /** An answered parse is the forest of the heights, with logs added. */
  lemma {:induction false} StructureErases(instructions: seq<Instruction>, logs: seq<Log>)
    requires Structure(instructions, logs).Done?
    ensures EraseAll(Structure(instructions, logs).value) == ForestOf(instructions)
  {
    StructureIsDescent(instructions, logs);
    DescendKeepsForest(Start(logs).logs, ForestOf(instructions));
  }

  // ---------------------------------------------------------------- nearest smaller height

  /** `q` is the nearest earlier instruction of strictly smaller height, if there is one; a missing
      height is smaller than every present one. */
  ghost predicate NearestLower(s: seq<Instruction>, j: nat, q: Option<nat>)
    requires j < |s|
  {
    match q
    case None => forall m :: 0 <= m < j ==> !Below(s[m].stackHeight, s[j].stackHeight)
    case Some(i) =>
      && i < j && Below(s[i].stackHeight, s[j].stackHeight)
      && forall m :: i < m < j ==> !Below(s[m].stackHeight, s[j].stackHeight)
  }

  /** The listing index of each instruction's container, in listing order. */
  function Owners(cs: seq<Call>, base: nat, up: Option<nat>): (r: seq<Option<nat>>)
    ensures |r| == |FlatAll(cs)|
    decreases cs
  {
    if cs == [] then []
    else
      [up] + Owners(cs[0].inner, base + 1, Some(base)) + Owners(cs[1..], base + |Flat(cs[0])|, up)
  }

  /** The container is lower than these calls, and nothing since it is lower than them. */
  ghost predicate Encloses(s: seq<Instruction>, base: nat, up: Option<nat>, cs: seq<Call>)
    requires base <= |s|
  {
    cs != [] ==>
      var first := Level(cs[0].instruction);
      match up
      case None => forall m :: 0 <= m < base ==> Level(s[m]) >= first
      case Some(i) =>
        && i < base && AllAbove(cs, Level(s[i]))
        && forall m :: i < m < base ==> Level(s[m]) >= first
  }

  lemma {:induction false} FlatIsHigh(cs: seq<Call>, level: nat)
    requires WellHeighted(cs) && AllAbove(cs, level - 1)
    ensures forall i :: 0 <= i < |FlatAll(cs)| ==> Level(FlatAll(cs)[i]) >= level
    decreases cs
  {
    if cs != [] {
      FlatIsHigh(cs[0].inner, level);
      FlatIsHigh(cs[1..], level);
      var inside, others := FlatAll(cs[0].inner), FlatAll(cs[1..]);
      forall i | 0 <= i < |FlatAll(cs)| ensures Level(FlatAll(cs)[i]) >= level {
        assert FlatAll(cs) == [cs[0].instruction] + inside + others;
      }
    }
  }

  lemma {:induction false} SplitInThree<T>(s: seq<T>, base: nat, x: T, a: seq<T>, b: seq<T>)
    requires base + 1 + |a| + |b| <= |s| && s[base..base + 1 + |a| + |b|] == [x] + a + b
    ensures var next := base + 1 + |a|;
      s[base] == x && s[base + 1..next] == a && s[next..next + |b|] == b
  {
    var t := s[base..base + 1 + |a| + |b|];
    var next := base + 1 + |a|;
    forall i | 0 <= i < |t| ensures s[base + i] == ([x] + a + b)[i] {
      assert s[base + i] == t[i];
    }
    assert s[base + 0] == x;
    forall i | 0 <= i < |a| ensures s[base + 1..next][i] == a[i] {
      assert s[base + 1..next][i] == s[base + (1 + i)];
    }
    forall i | 0 <= i < |b| ensures s[next..next + |b|][i] == b[i] {
      assert s[next..next + |b|][i] == s[base + (1 + |a| + i)];
    }
  }

  lemma {:induction false} JoinNearest(s: seq<Instruction>, base: nat, up: Option<nat>, a: seq<Option<nat>>,
                                       b: seq<Option<nat>>)
    requires base + 1 + |a| + |b| <= |s|
    requires NearestLower(s, base, up)
    requires forall k :: 0 <= k < |a| ==> NearestLower(s, base + 1 + k, a[k])
    requires forall k :: 0 <= k < |b| ==> NearestLower(s, base + 1 + |a| + k, b[k])
    ensures forall j :: 0 <= j < 1 + |a| + |b| ==> NearestLower(s, base + j, ([up] + a + b)[j])
  {
  }

  /** Everything the induction needs to know about the first call of a forest. */
  lemma {:induction false} FirstCall(s: seq<Instruction>, cs: seq<Call>, base: nat, up: Option<nat>)
    requires cs != [] && WellHeighted(cs)
    requires base + |FlatAll(cs)| <= |s| && s[base..base + |FlatAll(cs)|] == FlatAll(cs)
    requires Encloses(s, base, up, cs)
    ensures var inside, others := FlatAll(cs[0].inner), FlatAll(cs[1..]);
      var next := base + 1 + |inside|;
      && |FlatAll(cs)| == 1 + |inside| + |others|
      && s[base + 1..next] == inside && s[next..next + |others|] == others
      && WellHeighted(cs[0].inner) && WellHeighted(cs[1..])
      && NearestLower(s, base, up)
      && Encloses(s, base + 1, Some(base), cs[0].inner)
      && Encloses(s, next, up, cs[1..])
      && Owners(cs, base, up) == [up] + Owners(cs[0].inner, base + 1, Some(base)) + Owners(cs[1..], next, up)
  {
    hide Owners, Encloses, NearestLower, WellHeighted;
    var inside, others := FlatAll(cs[0].inner), FlatAll(cs[1..]);
    assert FlatAll(cs) == [cs[0].instruction] + inside + others;
    assert |Flat(cs[0])| == 1 + |inside|;
    SplitInThree(s, base, cs[0].instruction, inside, others);
    FirstOfWellHeighted(cs);
    FirstIsNearest(s, cs, base, up);
    InnerEnclosed(s, base, cs[0].inner);
    SiblingsEnclosed(s, cs, base, up);
    OwnersByPart(cs, base, up);
  }

  lemma {:induction false} FirstIsNearest(s: seq<Instruction>, cs: seq<Call>, base: nat, up: Option<nat>)
    requires cs != [] && base < |s| && s[base] == cs[0].instruction && Encloses(s, base, up, cs)
    ensures NearestLower(s, base, up)
  {
    hide Level, Below;
    forall m | 0 <= m < base
      ensures Level(s[m]) < Level(s[base]) <==> Below(s[m].stackHeight, s[base].stackHeight)
    {
      LevelIsHeightOrder(s[m], s[base]);
    }
  }

  lemma {:induction false} InnerEnclosed(s: seq<Instruction>, base: nat, inner: seq<Call>)
    requires base < |s| && AllAbove(inner, Level(s[base]))
    ensures Encloses(s, base + 1, Some(base), inner)
  {
  }

  lemma {:induction false} OwnersByPart(cs: seq<Call>, base: nat, up: Option<nat>)
    requires cs != []
    ensures Owners(cs, base, up) == [up] + Owners(cs[0].inner, base + 1, Some(base))
      + Owners(cs[1..], base + 1 + |FlatAll(cs[0].inner)|, up)
  {
    hide FlatAll;
    assert base + |Flat(cs[0])| == base + 1 + |FlatAll(cs[0].inner)|;
  }

  lemma {:induction false} OwnersAreNearest(s: seq<Instruction>, cs: seq<Call>, base: nat, up: Option<nat>)
    requires WellHeighted(cs) && base + |FlatAll(cs)| <= |s| && s[base..base + |FlatAll(cs)|] == FlatAll(cs)
    requires Encloses(s, base, up, cs)
    ensures forall j :: 0 <= j < |FlatAll(cs)| ==> NearestLower(s, base + j, Owners(cs, base, up)[j])
    decreases cs
  {
    hide *;
    if cs == [] {
      NothingCalled();
    } else {
      FirstCall(s, cs, base, up);
      var next := base + 1 + |FlatAll(cs[0].inner)|;
      OwnersAreNearest(s, cs[0].inner, base + 1, Some(base));
      OwnersAreNearest(s, cs[1..], next, up);
      JoinNearest(s, base, up, Owners(cs[0].inner, base + 1, Some(base)), Owners(cs[1..], next, up));
    }
  }

  /** Having passed one call and its callees, the container still encloses the siblings. */
  lemma {:induction false} SiblingsEnclosed(s: seq<Instruction>, cs: seq<Call>, base: nat, up: Option<nat>)
    requires cs != [] && WellHeighted(cs) && base + |Flat(cs[0])| <= |s|
    requires s[base] == cs[0].instruction && s[base + 1..base + |Flat(cs[0])|] == FlatAll(cs[0].inner)
    requires Encloses(s, base, up, cs)
    ensures Encloses(s, base + |Flat(cs[0])|, up, cs[1..])
  {
    var c, next := cs[0], base + |Flat(cs[0])|;
    FlatIsHigh(c.inner, Level(c.instruction));
    forall m | base <= m < next ensures Level(s[m]) >= Level(c.instruction) {
      if m > base {
        assert s[m] == s[base + 1..next][m - base - 1];
      }
    }
  }

  /** Whatever the heights and the logs: if the parser answers, each instruction lies in the
      inner list of the nearest earlier instruction of strictly smaller height (a missing
      height being smallest), or at top level if there is none. */
  lemma {:induction false} ContainedInNearestLower(instructions: seq<Instruction>, logs: seq<Log>)
    requires Structure(instructions, logs).Done?
    ensures var forest := EraseAll(Structure(instructions, logs).value);
      && FlatAll(forest) == instructions
      && forall j :: 0 <= j < |instructions| ==> NearestLower(instructions, j, Owners(forest, 0, None)[j])
  {
    var cs := ForestOf(instructions);
    StructureErases(instructions, logs);
    ForestOfIsFaithful(instructions);
    assert instructions[0..|instructions|] == instructions;
    OwnersAreNearest(instructions, cs, 0, None);
    forall j | 0 <= j < |instructions| ensures NearestLower(instructions, j, Owners(cs, 0, None)[j]) {
      assert NearestLower(instructions, 0 + j, Owners(cs, 0, None)[j]);
    }
  }

  lemma {:induction false} RunAboveEnds(s: seq<Instruction>, from: nat, level: nat, k: nat)
    requires from <= k <= |s| && (forall i :: from <= i < k ==> Level(s[i]) > level)
    requires k < |s| ==> Level(s[k]) <= level
    ensures RunAbove(s, from, level) == k
    decreases k - from
  {
  }

  lemma {:induction false} ListingRunsOut(cs: seq<Call>)
    requires WellHeighted(cs) && cs != []
    ensures var s, k := FlatAll(cs), 1 + |FlatAll(cs[0].inner)|;
      && k <= |s| && s[0] == cs[0].instruction && s[1..k] == FlatAll(cs[0].inner) && s[k..] == FlatAll(cs[1..])
      && RunAbove(s, 1, Level(s[0])) == k
  {
    hide WellHeighted, FlatAll;
    var c, inside, others := cs[0], FlatAll(cs[0].inner), FlatAll(cs[1..]);
    FirstOfWellHeighted(cs);
    FlatSplit(cs);
    var s := FlatAll(cs);
    assert s == [c.instruction] + inside + others;
    FlatIsHigh(c.inner, Level(c.instruction) + 1);
    forall i | 1 <= i < 1 + |inside| ensures Level(s[i]) > Level(c.instruction) {
      assert s[i] == inside[i - 1];
    }
    RunAboveEnds(s, 1, Level(c.instruction), 1 + |inside|);
  }

  /** The forest read from a listing with its own heights is the forest that was listed: heights
      describe one forest only. */
  lemma {:induction false} HeightsDescribeOneForest(cs: seq<Call>)
    requires WellHeighted(cs)
    ensures ForestOf(FlatAll(cs)) == cs
    decreases cs
  {
    hide ForestOf, WellHeighted, FlatAll, RunAbove;
    if cs == [] {
      NothingCalled();
    } else {
      FirstOfWellHeighted(cs);
      HeightsDescribeOneForest(cs[0].inner);
      HeightsDescribeOneForest(cs[1..]);
      ListingRunsOut(cs);
      ForestUnfold(FlatAll(cs));
      assert cs[0] == Call(cs[0].instruction, cs[0].inner);
    }
  }

  lemma {:induction false} FirstOfWellHeighted(cs: seq<Call>)
    requires WellHeighted(cs) && cs != []
    ensures WellHeighted(cs[0].inner) && WellHeighted(cs[1..])
    ensures AllAbove(cs[0].inner, Level(cs[0].instruction))
    ensures FlatAll(cs[1..]) != [] ==> Level(FlatAll(cs[1..])[0]) <= Level(cs[0].instruction)
  {
  }

  // ---------------------------------------------------------------- flattened()

  function Preorder(ts: seq<Tree>): seq<Tree>
    decreases ts
  {
    if ts == [] then [] else [ts[0]] + Preorder(ts[0].inner) + Preorder(ts[1..])
  }

  lemma {:induction false} PreorderSnoc(ts: seq<Tree>, t: Tree)
    ensures Preorder(ts + [t]) == Preorder(ts) + [t] + Preorder(t.inner)
    decreases |ts|
  {
    hide Preorder;
    PreorderUnfold(ts + [t]);
    if ts == [] {
      assert ts + [t] == [t] && [t][1..] == [];
      PreorderNothing();
    } else {
      PreorderSnoc(ts[1..], t);
      PreorderUnfold(ts);
      assert (ts + [t])[1..] == ts[1..] + [t];
    }
  }

  lemma {:induction false} PreorderNothing()
    ensures Preorder([]) == []
  {
  }

  lemma {:induction false} PreorderUnfold(ts: seq<Tree>)
    requires ts != []
    ensures Preorder(ts) == [ts[0]] + Preorder(ts[0].inner) + Preorder(ts[1..])
  {
  }

  method Flattened(ts: seq<Tree>) returns (instructions: seq<Tree>)
    ensures instructions == Preorder(ts)
    decreases ts
  {
    instructions := [];
    for i := 0 to |ts|
      invariant instructions == Preorder(ts[..i])
    {
      instructions := instructions + [ts[i]];
      var inner := Flattened(ts[i].inner);
      instructions := instructions + inner;
      PreorderSnoc(ts[..i], ts[i]);
      assert ts[..i + 1] == ts[..i] + [ts[i]];
    }
    assert ts[..|ts|] == ts;
  }

  function InstructionsOf(ts: seq<Tree>): (r: seq<Instruction>)
    ensures |r| == |ts|
  {
    seq(|ts|, i requires 0 <= i < |ts| => ts[i].instruction)
  }

  lemma {:induction false} PreorderListsForest(ts: seq<Tree>)
    ensures InstructionsOf(Preorder(ts)) == FlatAll(EraseAll(ts))
    decreases ts
  {
    if ts != [] {
      PreorderListsForest(ts[0].inner);
      PreorderListsForest(ts[1..]);
      var inner, others := Preorder(ts[0].inner), Preorder(ts[1..]);
      assert InstructionsOf([ts[0]] + inner + others)
        == [ts[0].instruction] + InstructionsOf(inner) + InstructionsOf(others);
      assert EraseAll(ts)[1..] == EraseAll(ts[1..]);
    }
  }

  /** Flattening what was structured gives the input order back: nothing lost, nothing repeated. */
  lemma {:induction false} FlattenedUndoesStructure(instructions: seq<Instruction>, logs: seq<Log>)
    requires Structure(instructions, logs).Done?
    ensures InstructionsOf(Preorder(Structure(instructions, logs).value)) == instructions
  {
    PreorderListsForest(Structure(instructions, logs).value);
    ContainedInNearestLower(instructions, logs);
  }
}
