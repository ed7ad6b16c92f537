/** `get_flattened_instructions`: weaving the inner-instruction sets of a transaction into
    its compiled instructions, and what the parser makes of the result. */
module CallListing {
  import opened Wrappers
  import opened CallLogs
  import opened CallParser
  import opened CallForest
  import opened CallContainment

  datatype Compiled = Compiled(id: nat, programId: Pubkey)

  /** The inner instructions recorded for one compiled instruction. */
  datatype InnerSet = InnerSet(index: nat, instructions: seq<Instruction>)

  /** A compiled instruction always reports height 1. */
  function Wrapped(c: Compiled): Instruction {
    Instruction(c.id, c.programId, Some(1))
  }

  /** The list built from compiled instruction `i` and set `j` on. */
  function Woven(compiled: seq<Compiled>, sets: seq<InnerSet>, i: nat, j: nat): seq<Instruction>
    decreases |compiled| - i
  {
    if i >= |compiled| then []
    else if j < |sets| && sets[j].index == i then
      [Wrapped(compiled[i])] + sets[j].instructions + Woven(compiled, sets, i + 1, j + 1)
    else [Wrapped(compiled[i])] + Woven(compiled, sets, i + 1, j)
  }

  /** How many sets that pass uses. */
  function Used(n: nat, sets: seq<InnerSet>, i: nat, j: nat): nat
    decreases n - i
  {
    if i >= n then j
    else Used(n, sets, i + 1, if j < |sets| && sets[j].index == i then j + 1 else j)
  }

  lemma {:induction false} WovenUnfold(compiled: seq<Compiled>, sets: seq<InnerSet>, i: nat, j: nat)
    requires i <= |compiled|
    ensures Woven(compiled, sets, |compiled|, j) == []
    ensures i < |compiled| ==>
      Woven(compiled, sets, i, j) == [Wrapped(compiled[i])]
        + (if j < |sets| && sets[j].index == i then sets[j].instructions + Woven(compiled, sets, i + 1, j + 1)
           else Woven(compiled, sets, i + 1, j))
  {
  }

  method GetFlattenedInstructions(compiled: seq<Compiled>, sets: seq<InnerSet>) returns (wrapped: seq<Instruction>)
    ensures wrapped == Woven(compiled, sets, 0, 0)
  {
    hide Woven, Wrapped;
    wrapped := [];
    var j := 0;
    for i := 0 to |compiled|
      invariant wrapped + Woven(compiled, sets, i, j) == Woven(compiled, sets, 0, 0)
    {
      WovenUnfold(compiled, sets, i, j);
      wrapped := wrapped + [Wrapped(compiled[i])];
      if j < |sets| {
        if sets[j].index == i {
          wrapped := wrapped + sets[j].instructions;
          j := j + 1;
        }
      }
    }
    WovenUnfold(compiled, sets, |compiled|, j);
  }

  /** Sets `j..` have strictly increasing indices of compiled instructions from `i` on. */
  ghost predicate InOrder(n: nat, sets: seq<InnerSet>, i: nat, j: nat) {
    && (forall a :: j <= a < |sets| ==> i <= sets[a].index < n)
    && (forall a, b :: j <= a < b < |sets| ==> sets[a].index < sets[b].index)
  }

  /** No set is dropped exactly when the sets come in strictly increasing, valid order: one
      set out of order hides itself and every set after it. */
  lemma {:induction false} NoSetDropped(n: nat, sets: seq<InnerSet>, i: nat, j: nat)
    requires j <= |sets| && i <= n
    ensures j <= Used(n, sets, i, j) <= |sets|
    ensures Used(n, sets, i, j) == |sets| <==> InOrder(n, sets, i, j)
    decreases n - i
  {
    if i < n {
      NoSetDropped(n, sets, i + 1, if j < |sets| && sets[j].index == i then j + 1 else j);
      if j < |sets| && sets[j].index != i && InOrder(n, sets, i, j) {
        forall a | j <= a < |sets| ensures i + 1 <= sets[a].index {
          assert j < a ==> sets[j].index < sets[a].index;
        }
      }
    } else if j < |sets| && InOrder(n, sets, i, j) {
      assert n <= sets[j].index;
    }
  }

  /** The inner instructions that belong to compiled instruction `i`. */
  function InnerOf(sets: seq<InnerSet>, i: nat): seq<Instruction> {
    if sets == [] then []
    else (if sets[0].index == i then sets[0].instructions else []) + InnerOf(sets[1..], i)
  }

  function Listing(compiled: seq<Compiled>, sets: seq<InnerSet>, i: nat): seq<Instruction>
    decreases |compiled| - i
  {
    if i >= |compiled| then []
    else [Wrapped(compiled[i])] + InnerOf(sets, i) + Listing(compiled, sets, i + 1)
  }

  lemma {:induction false} InnerOfSplit(sets: seq<InnerSet>, j: nat, i: nat)
    requires j <= |sets|
    ensures InnerOf(sets, i) == InnerOf(sets[..j], i) + InnerOf(sets[j..], i)
  {
    if j > 0 {
      InnerOfSplit(sets[1..], j - 1, i);
      assert sets[..j][1..] == sets[1..][..j - 1] && sets[j..] == sets[1..][j - 1..];
    } else {
      assert sets[0..] == sets;
    }
  }

  lemma {:induction false} InnerOfElsewhere(sets: seq<InnerSet>, i: nat)
    requires forall a :: 0 <= a < |sets| ==> sets[a].index != i
    ensures InnerOf(sets, i) == []
  {
    if sets != [] {
      InnerOfElsewhere(sets[1..], i);
    }
  }

  lemma {:induction false} InnerAt(n: nat, sets: seq<InnerSet>, i: nat, j: nat)
    requires j <= |sets| && InOrder(n, sets, i, j) && forall a :: 0 <= a < j ==> sets[a].index < i
    ensures var here := j < |sets| && sets[j].index == i;
      && InnerOf(sets, i) == (if here then sets[j].instructions else [])
      && InOrder(n, sets, i + 1, if here then j + 1 else j)
  {
    hide InnerOf;
    var here := j < |sets| && sets[j].index == i;
    var k := if here then j + 1 else j;
    forall a | k <= a < |sets| ensures i < sets[a].index {
      assert j < a ==> sets[j].index < sets[a].index;
    }
    InnerOfSplit(sets, j, i);
    InnerOfElsewhere(sets[..j], i);
    InnerOfElsewhere(sets[k..], i);
    if here {
      InnerOfHead(sets[j..], i);
      assert sets[j..][1..] == sets[k..];
    }
  }

  lemma {:induction false} InnerOfHead(sets: seq<InnerSet>, i: nat)
    requires sets != [] && sets[0].index == i
    ensures InnerOf(sets, i) == sets[0].instructions + InnerOf(sets[1..], i)
  {
  }

  /** In that order every compiled instruction is followed by exactly its own inner ones. */
  lemma {:induction false} WovenInOrder(compiled: seq<Compiled>, sets: seq<InnerSet>, i: nat, j: nat)
    requires j <= |sets| && InOrder(|compiled|, sets, i, j)
    requires forall a :: 0 <= a < j ==> sets[a].index < i
    ensures Woven(compiled, sets, i, j) == Listing(compiled, sets, i)
    decreases |compiled| - i
  {
    hide InOrder, InnerOf;
    if i < |compiled| {
      InnerAt(|compiled|, sets, i, j);
      if j < |sets| && sets[j].index == i {
        WovenInOrder(compiled, sets, i + 1, j + 1);
      } else {
        WovenInOrder(compiled, sets, i + 1, j);
        assert [Wrapped(compiled[i])] + [] == [Wrapped(compiled[i])];
      }
    }
  }

  // ---------------------------------------------------------------- parsing the woven list

  /** The inner instructions that the weaving puts behind each compiled instruction. */
  function InnerLists(n: nat, sets: seq<InnerSet>, i: nat, j: nat): (r: seq<seq<Instruction>>)
    requires i <= n
    ensures |r| == n - i
    decreases n - i
  {
    if i >= n then []
    else if j < |sets| && sets[j].index == i then [sets[j].instructions] + InnerLists(n, sets, i + 1, j + 1)
    else [[]] + InnerLists(n, sets, i + 1, j)
  }

  /** In valid order they are the instruction's own. */
  lemma {:induction false} InnerListsInOrder(n: nat, sets: seq<InnerSet>, i: nat, j: nat)
    requires i <= n && j <= |sets| && InOrder(n, sets, i, j)
    requires forall a :: 0 <= a < j ==> sets[a].index < i
    ensures forall k :: 0 <= k < n - i ==> InnerLists(n, sets, i, j)[k] == InnerOf(sets, i + k)
    decreases n - i
  {
    hide InOrder, InnerOf;
    if i < n {
      var next := if j < |sets| && sets[j].index == i then j + 1 else j;
      InnerAt(n, sets, i, j);
      InnerListsInOrder(n, sets, i + 1, next);
      var later := InnerLists(n, sets, i + 1, next);
      forall k | 0 < k < n - i ensures InnerLists(n, sets, i, j)[k] == InnerOf(sets, i + k) {
        assert InnerLists(n, sets, i, j)[k] == later[k - 1] == InnerOf(sets, i + 1 + (k - 1));
      }
    }
  }

  /** Each head followed by what is under it. */
  function Listed(heads: seq<Instruction>, under: seq<seq<Instruction>>): seq<Instruction>
    requires |heads| == |under|
  {
    if heads == [] then [] else [heads[0]] + under[0] + Listed(heads[1..], under[1..])
  }

  function Heads(compiled: seq<Compiled>): (r: seq<Instruction>)
    ensures |r| == |compiled|
  {
    seq(|compiled|, i requires 0 <= i < |compiled| => Wrapped(compiled[i]))
  }

  lemma {:induction false} WovenIsListed(compiled: seq<Compiled>, sets: seq<InnerSet>, i: nat, j: nat)
    requires i <= |compiled|
    ensures Woven(compiled, sets, i, j) == Listed(Heads(compiled)[i..], InnerLists(|compiled|, sets, i, j))
    decreases |compiled| - i
  {
    hide Listed, Wrapped;
    if i < |compiled| {
      var heads := Heads(compiled)[i..];
      var here := j < |sets| && sets[j].index == i;
      var under := InnerLists(|compiled|, sets, i, j);
      ListedUnfold(heads, under);
      assert heads[1..] == Heads(compiled)[i + 1..] && heads[0] == Wrapped(compiled[i]);
      WovenIsListed(compiled, sets, i + 1, if here then j + 1 else j);
      assert under[1..] == InnerLists(|compiled|, sets, i + 1, if here then j + 1 else j);
      assert [heads[0]] + [] == [heads[0]];
    } else {
      ListedNothing();
      assert Heads(compiled)[i..] == [] && InnerLists(|compiled|, sets, i, j) == [];
    }
  }

  lemma {:induction false} ListedNothing()
    ensures Listed([], []) == []
  {
  }

  lemma {:induction false} ListedUnfold(heads: seq<Instruction>, under: seq<seq<Instruction>>)
    requires |heads| == |under| > 0
    ensures Listed(heads, under) == [heads[0]] + under[0] + Listed(heads[1..], under[1..])
  {
  }

  /** The roots of the forest are these heads, each over exactly these instructions. */
  ghost predicate Groups(forest: seq<Call>, heads: seq<Instruction>, under: seq<seq<Instruction>>)
    requires |heads| == |under|
  {
    && |forest| == |heads|
    && forall k :: 0 <= k < |heads| ==> forest[k].instruction == heads[k] && FlatAll(forest[k].inner) == under[k]
  }

  predicate AllHigher(instructions: seq<Instruction>, level: nat) {
    forall m :: 0 <= m < |instructions| ==> Level(instructions[m]) > level
  }

  lemma {:induction false} FirstHeadRuns(heads: seq<Instruction>, under: seq<seq<Instruction>>, level: nat)
    requires |heads| == |under| > 0 && (forall k :: 0 <= k < |heads| ==> Level(heads[k]) == level)
    requires AllHigher(under[0], level)
    ensures var s, k := Listed(heads, under), 1 + |under[0]|;
      && k <= |s| && s[0] == heads[0] && s[1..k] == under[0] && s[k..] == Listed(heads[1..], under[1..])
      && RunAbove(s, 1, Level(s[0])) == k
  {
    hide RunAbove;
    var s, k, later := Listed(heads, under), 1 + |under[0]|, Listed(heads[1..], under[1..]);
    assert s == [heads[0]] + under[0] + later;
    forall i | 1 <= i < k ensures Level(s[i]) > level {
      assert s[i] == under[0][i - 1];
    }
    if k < |s| {
      assert s[k] == later[0] == heads[1];
    }
    RunAboveEnds(s, 1, level, k);
  }

  lemma {:induction false} HigherInnerGroups(heads: seq<Instruction>, under: seq<seq<Instruction>>, level: nat)
    requires |heads| == |under| && (forall k :: 0 <= k < |heads| ==> Level(heads[k]) == level)
    requires forall k :: 0 <= k < |under| ==> AllHigher(under[k], level)
    ensures Groups(ForestOf(Listed(heads, under)), heads, under)
    decreases |heads|
  {
    hide ForestOf, RunAbove, FlatAll, AllHigher;
    if heads == [] {
      NothingCalled();
    } else {
      var s := Listed(heads, under);
      FirstHeadRuns(heads, under, level);
      ForestUnfold(s);
      ForestOfIsFaithful(under[0]);
      HigherInnerGroups(heads[1..], under[1..], level);
      var later := ForestOf(Listed(heads[1..], under[1..]));
      forall k | 0 < k < |heads|
        ensures ForestOf(s)[k].instruction == heads[k] && FlatAll(ForestOf(s)[k].inner) == under[k]
      {
        assert ForestOf(s)[k] == later[k - 1] && heads[k] == heads[1..][k - 1] && under[k] == under[1..][k - 1];
      }
    }
  }

  lemma {:induction false} WellHeightedAt(cs: seq<Call>, k: nat)
    requires WellHeighted(cs) && k < |cs|
    ensures WellHeighted(cs[k].inner) && AllAbove(cs[k].inner, Level(cs[k].instruction))
  {
    hide AllAbove;
    if k > 0 {
      WellHeightedAt(cs[1..], k - 1);
    }
  }

  /** Heads of one level are the roots, each over its own list, exactly if everything listed under them
      is higher. */
  lemma {:induction false} GroupsIffHigher(heads: seq<Instruction>, under: seq<seq<Instruction>>, level: nat)
    requires |heads| == |under| && (forall k :: 0 <= k < |heads| ==> Level(heads[k]) == level)
    ensures Groups(ForestOf(Listed(heads, under)), heads, under)
      <==> forall k :: 0 <= k < |under| ==> AllHigher(under[k], level)
  {
    hide ForestOf, Listed, WellHeighted, FlatAll;
    var forest := ForestOf(Listed(heads, under));
    if Groups(forest, heads, under) {
      ForestOfIsFaithful(Listed(heads, under));
      forall k | 0 <= k < |under| ensures AllHigher(under[k], level) {
        WellHeightedAt(forest, k);
        FlatIsHigh(forest[k].inner, level + 1);
      }
    }
    if forall k :: 0 <= k < |under| ==> AllHigher(under[k], level) {
      HigherInnerGroups(heads, under, level);
    }
  }

  predicate HeightsAboveOne(instructions: seq<Instruction>) {
    forall m :: 0 <= m < |instructions| ==>
      instructions[m].stackHeight.Some? && instructions[m].stackHeight.value > 1
  }

  lemma {:induction false} HigherThanCompiled(instructions: seq<Instruction>)
    ensures HeightsAboveOne(instructions) <==> AllHigher(instructions, 2)
  {
  }

  /** What a transaction parses to: its compiled instructions, at height 1, are the roots, each over
      exactly the inner ones woven in behind it, precisely if every inner instruction reports a height
      and one above 1. With the sets in valid order those are the instruction's own. */
  lemma {:induction false} CompiledAreRoots(compiled: seq<Compiled>, sets: seq<InnerSet>, logs: seq<Log>)
    requires Structure(Woven(compiled, sets, 0, 0), logs).Done?
    ensures var under := InnerLists(|compiled|, sets, 0, 0);
      && (Groups(EraseAll(Structure(Woven(compiled, sets, 0, 0), logs).value), Heads(compiled), under)
          <==> forall k :: 0 <= k < |compiled| ==> HeightsAboveOne(under[k]))
      && (forall k :: 0 <= k < |compiled| ==>
            Heads(compiled)[k] == Instruction(compiled[k].id, compiled[k].programId, Some(1)))
      && (InOrder(|compiled|, sets, 0, 0) ==> forall k :: 0 <= k < |compiled| ==> under[k] == InnerOf(sets, k))
  {
    hide Structure, Woven, Groups, InOrder, Listed, InnerLists, InnerOf, ForestOf, EraseAll, AllHigher,
      HeightsAboveOne;
    var woven, under := Woven(compiled, sets, 0, 0), InnerLists(|compiled|, sets, 0, 0);
    StructureErases(woven, logs);
    WovenIsListed(compiled, sets, 0, 0);
    assert Heads(compiled)[0..] == Heads(compiled);
    GroupsIffHigher(Heads(compiled), under, 2);
    forall k | 0 <= k < |compiled| ensures HeightsAboveOne(under[k]) <==> AllHigher(under[k], 2) {
      HigherThanCompiled(under[k]);
    }
    if InOrder(|compiled|, sets, 0, 0) {
      InnerListsInOrder(|compiled|, sets, 0, 0);
      forall k | 0 <= k < |compiled| ensures under[k] == InnerOf(sets, k) {
        assert under[k] == InnerOf(sets, 0 + k);
      }
    }
  }
}
