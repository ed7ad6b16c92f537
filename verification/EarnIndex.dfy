/** The index side of every run: doubles decide as integers would, and the emitted events
    are what the yield walk needs. */
module EarnIndex {
  import opened Numbers
  import opened Float64
  import opened EarnProgram
  import opened EarnRuns
  import C = Conversion
  import YieldWalk
  import YieldBounds

  // ---------------------------------------------------------------- the machine on integers

  datatype Machine<D> = Machine(maxIndex: int, root: D)

  datatype Update<D> = Update(index: int, root: D, ts: int)

  /** What an update should do: ignore anything below the largest index seen. */
  function Tick<D(==)>(zeroRoot: D, m: Machine<D>, u: Update<D>): Machine<D> {
    if u.index < m.maxIndex then m
    else Machine(u.index, if u.root != zeroRoot then u.root else m.root)
  }

  function Ticks<D(==)>(zeroRoot: D, m: Machine<D>, updates: seq<Update<D>>): Machine<D> {
    if updates == [] then m
    else Tick(zeroRoot, Ticks(zeroRoot, m, updates[..|updates| - 1]), updates[|updates| - 1])
  }

  function UpdateOf<D>(a: Action<D>): Update<D>
    requires a.PropagateIndex?
  {
    Update(a.newIndex, a.root, a.now)
  }

  /** The updates among the actions, in order. */
  function UpdatesOf<D>(actions: seq<Action<D>>): seq<Update<D>> {
    if actions == [] then []
    else
      var n := |actions| - 1;
      var before := UpdatesOf(actions[..n]);
      if actions[n].PropagateIndex? then before + [UpdateOf(actions[n])] else before
  }

  /** Update `k` is above the starting index and above every update before it. */
  ghost predicate IsRecord<D>(m: Machine<D>, updates: seq<Update<D>>, k: nat)
    requires k < |updates|
  {
    updates[k].index > m.maxIndex && forall i :: 0 <= i < k ==> updates[k].index > updates[i].index
  }

  /** Index and time of every record, in order. */
  ghost function Records<D>(m: Machine<D>, updates: seq<Update<D>>): seq<(int, int)> {
    if updates == [] then []
    else
      var n := |updates| - 1;
      var before := Records(m, updates[..n]);
      if IsRecord(m, updates, n) then before + [(updates[n].index, updates[n].ts)] else before
  }

  /** Index and time of every event, in order. */
  function Stamps(events: seq<IndexUpdate>): (r: seq<(int, int)>)
    ensures |r| == |events|
  {
    seq(|events|, i requires 0 <= i < |events| => (events[i].index, events[i].ts))
  }

  ghost predicate Matches<D>(e: Env<D>, s: State<D>, m: Machine<D>) {
    && 0 <= m.maxIndex < TWO_52
    && s.global.Some? && s.global.value.earnerMerkleRoot == m.root
    && s.multiplier == C.IndexToMultiplier(e.fl, m.maxIndex)
  }

  /** Where a run starts: from the index given, or from the old program's index and root. */
  function StartOf<D>(zeroRoot: D, a: Action<D>): Machine<D>
    requires a.Initialize?
  {
    match a.migration
    case None => Machine(a.currentIndex, zeroRoot)
    case Some(m) => Machine(m.index, m.root)
  }

  /** A successful initialization leaves exactly the multiplier of its index, whatever the mint
      carried before, and the initial root. */
  lemma {:induction false} InitializeMatches<D>(e: Env<D>, s: State<D>, a: Action<D>)
    requires Ieee(e.fl) && a.Initialize? && Step(e, s, a).Accepted?
    requires StartOf(e.zeroRoot, a).maxIndex < TWO_52
    ensures Matches(e, Step(e, s, a).value, StartOf(e.zeroRoot, a))
    ensures Step(e, s, a).value.events == s.events
  {
    hide C.IndexToMultiplier;
  }

  /** A migration never creates more scaled supply than the old mint had: with every accepted one, supply
      times the old program's index, or the index below it, is at most the old supply times the scale. */
  lemma {:induction false} MigrationKeepsSupply<D>(e: Env<D>, s: State<D>, a: Action<D>)
    requires Ieee(e.fl) && a.Initialize? && a.migration.Some? && Step(e, s, a).Accepted?
    ensures var m := a.migration.value;
      && s.supply * C.IndexOf(e.fl, C.IndexToMultiplier(e.fl, m.index)) <= m.oldSupply * C.INDEX_SCALE
      && (m.index < TWO_52 ==> s.supply * (m.index - 1) <= m.oldSupply * C.INDEX_SCALE)
  {
    hide *;
    var m := a.migration.value;
    var index := C.IndexOf(e.fl, C.IndexToMultiplier(e.fl, m.index));
    InitializeAcceptedIff(e, s, a);
    if m.index < TWO_52 {
      C.IndexOfMultiplier(e.fl, m.index);
      ScaleUp(m.index - 1, index, s.supply);
      assert s.supply * (m.index - 1) == (m.index - 1) * s.supply && s.supply * index == index * s.supply;
    }
  }

  /** ... and a supply that stays within it at the old program's index is never the reason to refuse one. */
  lemma {:induction false} FittingSupplyMigrates(fl: real -> real, supply: u64, index: u64, oldSupply: u64)
    requires Ieee(fl) && index < TWO_52 && supply * index <= oldSupply * C.INDEX_SCALE
    ensures SupplyFits(fl, supply, C.IndexToMultiplier(fl, index), oldSupply)
  {
    hide *;
    var multiplier := C.IndexToMultiplier(fl, index);
    C.IndexOfMultiplier(fl, index);
    SupplyFitsIff(fl, supply, multiplier, oldSupply);
    ScaleUp(C.IndexOf(fl, multiplier), index, supply);
    assert supply * index == index * supply && supply * C.IndexOf(fl, multiplier) == C.IndexOf(fl, multiplier) * supply;
  }

  // ---------------------------------------------------------------- where the machine ends

  /** Update `k` carries a root and is at least as recent as everything before it. */
  ghost predicate Current<D>(zeroRoot: D, m: Machine<D>, updates: seq<Update<D>>, k: nat)
    requires k < |updates|
  {
    && updates[k].root != zeroRoot
    && updates[k].index >= m.maxIndex
    && forall i :: 0 <= i < k ==> updates[k].index >= updates[i].index
  }

  ghost predicate IsLargest<D>(m: Machine<D>, updates: seq<Update<D>>, x: int) {
    && x >= m.maxIndex && (forall i :: 0 <= i < |updates| ==> x >= updates[i].index)
    && (x == m.maxIndex || exists i :: 0 <= i < |updates| && x == updates[i].index)
  }

  ghost predicate IsLastCurrentRoot<D>(zeroRoot: D, m: Machine<D>, updates: seq<Update<D>>, root: D) {
    || (root == m.root && forall k :: 0 <= k < |updates| ==> !Current(zeroRoot, m, updates, k))
    || (exists k :: 0 <= k < |updates| && Current(zeroRoot, m, updates, k) && root == updates[k].root
          && forall j :: k < j < |updates| ==> !Current(zeroRoot, m, updates, j))
  }

  lemma {:induction false} CurrentInPrefix<D>(zeroRoot: D, m: Machine<D>, updates: seq<Update<D>>, u: Update<D>, k: nat)
    requires k < |updates|
    ensures Current(zeroRoot, m, updates + [u], k) <==> Current(zeroRoot, m, updates, k)
  {
    var all := updates + [u];
    assert forall i :: 0 <= i <= k ==> all[i] == updates[i];
  }

  lemma {:induction false} LargestGrows<D>(zeroRoot: D, m: Machine<D>, updates: seq<Update<D>>, u: Update<D>,
                                           t: Machine<D>)
    requires IsLargest(m, updates, t.maxIndex)
    ensures IsLargest(m, updates + [u], Tick(zeroRoot, t, u).maxIndex)
  {
    var all := updates + [u];
    assert all[|updates|] == u;
    assert forall i :: 0 <= i < |updates| ==> all[i] == updates[i];
  }

  lemma {:induction false} LastRootGrows<D>(zeroRoot: D, m: Machine<D>, updates: seq<Update<D>>, u: Update<D>,
                                            t: Machine<D>)
    requires IsLargest(m, updates, t.maxIndex) && IsLastCurrentRoot(zeroRoot, m, updates, t.root)
    ensures IsLastCurrentRoot(zeroRoot, m, updates + [u], Tick(zeroRoot, t, u).root)
  {
    var all, n := updates + [u], |updates|;
    assert all[n] == u && forall i :: 0 <= i < n ==> all[i] == updates[i];
    assert Current(zeroRoot, m, all, n) <==> u.root != zeroRoot && u.index >= t.maxIndex;
    forall k | 0 <= k < n ensures Current(zeroRoot, m, all, k) <==> Current(zeroRoot, m, updates, k) {
      CurrentInPrefix(zeroRoot, m, updates, u, k);
    }
    if !Current(zeroRoot, m, all, n) && exists k :: 0 <= k < n && Current(zeroRoot, m, updates, k) {
      var k :| 0 <= k < n && Current(zeroRoot, m, updates, k) && t.root == updates[k].root
        && forall j :: k < j < n ==> !Current(zeroRoot, m, updates, j);
      assert Current(zeroRoot, m, all, k) && all[k] == updates[k];
    }
  }

  /** A run ends at the largest index seen, and at the root of the last update that carried one
      and was at least as recent as everything before it, or at the initial root if none did. */
  lemma {:induction false} MachineEndsAtLatest<D>(zeroRoot: D, m: Machine<D>, updates: seq<Update<D>>)
    ensures var t := Ticks(zeroRoot, m, updates);
      IsLargest(m, updates, t.maxIndex) && IsLastCurrentRoot(zeroRoot, m, updates, t.root)
    decreases |updates|
  {
    hide IsLargest, IsLastCurrentRoot, Tick;
    if updates == [] {
      NothingSeen(zeroRoot, m);
    } else {
      var n := |updates| - 1;
      MachineEndsAtLatest(zeroRoot, m, updates[..n]);
      var t := Ticks(zeroRoot, m, updates[..n]);
      LargestGrows(zeroRoot, m, updates[..n], updates[n], t);
      LastRootGrows(zeroRoot, m, updates[..n], updates[n], t);
      assert updates[..n] + [updates[n]] == updates;
    }
  }

  lemma {:induction false} NothingSeen<D>(zeroRoot: D, m: Machine<D>)
    ensures IsLargest(m, [], m.maxIndex) && IsLastCurrentRoot(zeroRoot, m, [], m.root)
  {
  }

  // ---------------------------------------------------------------- doubles against integers

  /** One propagation on doubles decides as the integer rule does, and emits an event exactly for a
      larger index. */
  lemma {:induction false} PropagateMatches<D>(e: Env<D>, s: State<D>, a: Action<D>, m: Machine<D>)
    requires Ieee(e.fl) && Matches(e, s, m) && a.PropagateIndex? && a.newIndex < TWO_52 && Step(e, s, a).Accepted?
    ensures Matches(e, Step(e, s, a).value, Tick(e.zeroRoot, m, UpdateOf(a)))
    ensures Stamps(Step(e, s, a).value.events)
      == if a.newIndex > m.maxIndex then Stamps(s.events) + [(a.newIndex, a.now)] else Stamps(s.events)
  {
    hide C.IndexToMultiplier;
    C.MultiplierOrderIsIndexOrder(e.fl, m.maxIndex, a.newIndex);
    C.MultiplierOrderIsIndexOrder(e.fl, a.newIndex, m.maxIndex);
  }

  lemma {:induction false} OthersMatch<D>(e: Env<D>, s: State<D>, a: Action<D>, m: Machine<D>)
    requires Matches(e, s, m) && !a.PropagateIndex? && Step(e, s, a).Accepted?
    ensures Matches(e, Step(e, s, a).value, m)
    ensures Step(e, s, a).value.events == s.events
  {
  }

  lemma {:induction false} RecordIffLarger<D>(zeroRoot: D, m: Machine<D>, updates: seq<Update<D>>, u: Update<D>)
    ensures IsRecord(m, updates + [u], |updates|) <==> u.index > Ticks(zeroRoot, m, updates).maxIndex
  {
    var all := updates + [u];
    MachineEndsAtLatest(zeroRoot, m, updates);
    assert forall i :: 0 <= i < |updates| ==> all[i] == updates[i];
  }

  /** Every run on doubles is a run on integers: same multiplier and same root at every point, and
      the events emitted are those of the strict records among the updates, in order. */
  lemma {:induction false} RunRefinesIntegers<D>(e: Env<D>, states: seq<State<D>>, actions: seq<Action<D>>,
                                                 m: Machine<D>)
    requires Ieee(e.fl) && IsRun(e, states, actions) && Matches(e, states[0], m)
    requires forall i :: 0 <= i < |actions| && actions[i].PropagateIndex? ==> actions[i].newIndex < TWO_52
    ensures Matches(e, states[|actions|], Ticks(e.zeroRoot, m, UpdatesOf(actions)))
    ensures Stamps(states[|actions|].events) == Stamps(states[0].events) + Records(m, UpdatesOf(actions))
    decreases |actions|
  {
    hide Step, Matches, IsRecord, Stamps;
    if actions != [] {
      var n := |actions| - 1;
      var before := UpdatesOf(actions[..n]);
      assert IsRun(e, states[..n + 1], actions[..n]);
      RunRefinesIntegers(e, states[..n + 1], actions[..n], m);
      assert Step(e, states[n], actions[n]) == Accepted(states[n + 1]);
      if actions[n].PropagateIndex? {
        PropagateMatches(e, states[n], actions[n], Ticks(e.zeroRoot, m, before));
        RecordIffLarger(e.zeroRoot, m, before, UpdateOf(actions[n]));
        assert (before + [UpdateOf(actions[n])])[..|before|] == before;
      } else {
        OthersMatch(e, states[n], actions[n], Ticks(e.zeroRoot, m, before));
      }
    }
  }

  /** From initialization on: every run on doubles ends with the multiplier of the largest index
      seen, with the root of the last update that carried one and was not stale, or the initial root
      if there was none, and with one event for every update above all indices before it. */
  lemma {:induction false} InitializedRunEndsAtLatest<D>(e: Env<D>, states: seq<State<D>>, actions: seq<Action<D>>)
    requires Ieee(e.fl) && IsRun(e, states, actions) && actions != [] && actions[0].Initialize?
    requires StartOf(e.zeroRoot, actions[0]).maxIndex < TWO_52
    requires forall i :: 0 <= i < |actions| && actions[i].PropagateIndex? ==> actions[i].newIndex < TWO_52
    ensures var start := StartOf(e.zeroRoot, actions[0]);
      var updates, last := UpdatesOf(actions[1..]), states[|actions|];
      exists index :: 0 <= index < TWO_52
        && last.multiplier == C.IndexToMultiplier(e.fl, index) && IsLargest(start, updates, index)
        && last.global.Some? && IsLastCurrentRoot(e.zeroRoot, start, updates, last.global.value.earnerMerkleRoot)
        && Stamps(last.events) == Stamps(states[0].events) + Records(start, updates)
  {
    hide Step, IsLargest, IsLastCurrentRoot, C.IndexToMultiplier, Records, Stamps;
    var start := StartOf(e.zeroRoot, actions[0]);
    assert Step(e, states[0], actions[0]) == Accepted(states[0 + 1]);
    InitializeMatches(e, states[0], actions[0]);
    assert IsRun(e, states[1..], actions[1..]) by {
      forall i | 0 <= i < |actions[1..]|
        ensures Step(e, states[1..][i], actions[1..][i]) == Accepted(states[1..][i + 1])
      {
        assert Step(e, states[i + 1], actions[i + 1]) == Accepted(states[i + 1 + 1]);
      }
    }
    RunRefinesIntegers(e, states[1..], actions[1..], start);
    MachineEndsAtLatest(e.zeroRoot, start, UpdatesOf(actions[1..]));
    var end := Ticks(e.zeroRoot, start, UpdatesOf(actions[1..]));
    assert states[1..][|actions[1..]|] == states[|actions|];
    assert Matches(e, states[|actions|], end);
  }

  // ---------------------------------------------------------------- events

  /** Each event records a rise to its own index's multiplier, starting where the one before
      it ended, and the last one ended at the present multiplier. */
  ghost predicate Chained(fl: real -> real, events: seq<IndexUpdate>, multiplier: real) {
    && (forall i :: 0 <= i < |events| ==> Rise(fl, events[i]))
    && (forall i, j :: 0 <= i && j == i + 1 && j < |events| ==> events[j].currentMultiplier == events[i].newMultiplier)
    && (events != [] ==> events[|events| - 1].newMultiplier == multiplier && events[0].currentMultiplier >= 0.0)
    && multiplier >= 0.0
  }

  predicate Rise(fl: real -> real, u: IndexUpdate) {
    u.currentMultiplier < u.newMultiplier && u.newMultiplier == C.IndexToMultiplier(fl, u.index)
  }

  lemma {:induction false} StepKeepsChain<D>(e: Env<D>, s: State<D>, a: Action<D>)
    requires Step(e, s, a).Accepted? && Chained(e.fl, s.events, s.multiplier)
    requires s.global.None? ==> s.events == []
    ensures var t := Step(e, s, a).value;
      && Chained(e.fl, t.events, t.multiplier)
      && (t.global.None? ==> t.events == [])
      && (t.events == s.events
          || (a.PropagateIndex? && t.events == s.events + [t.events[|s.events|]] && t.events[|s.events|].ts == a.now))
  {
    hide C.IndexToMultiplier;
    if a.PropagateIndex? {
      var t := Step(e, s, a).value;
      if t.events != s.events {
        var u := t.events[|s.events|];
        assert t.events == s.events + [u] && Rise(e.fl, u);
        assert forall i :: 0 <= i < |s.events| ==> t.events[i] == s.events[i];
      }
    }
  }

  /** The clock never goes back between two propagations. */
  ghost predicate ClockRuns<D>(actions: seq<Action<D>>) {
    forall i, j :: 0 <= i < j < |actions| && actions[i].PropagateIndex? && actions[j].PropagateIndex? ==>
      actions[i].now <= actions[j].now
  }

  ghost predicate InTimeOrder(events: seq<IndexUpdate>) {
    forall i, j :: 0 <= i < j < |events| ==> events[i].ts <= events[j].ts
  }

  ghost predicate AllBefore(events: seq<IndexUpdate>, time: int) {
    forall i :: 0 <= i < |events| ==> events[i].ts <= time
  }

  /** Over every run the events form one chain in time order. */
  lemma {:induction false} RunKeepsChain<D>(e: Env<D>, states: seq<State<D>>, actions: seq<Action<D>>, n: nat)
    requires IsRun(e, states, actions) && ClockRuns(actions) && n <= |actions|
    requires states[0].events == [] && states[0].multiplier >= 0.0
    ensures Chained(e.fl, states[n].events, states[n].multiplier) && InTimeOrder(states[n].events)
    ensures states[n].global.None? ==> states[n].events == []
    ensures forall m :: n <= m < |actions| && actions[m].PropagateIndex? ==> AllBefore(states[n].events, actions[m].now)
    decreases n
  {
    hide Step, Chained;
    if n == 0 {
      EmptyChain(e.fl, states[0].multiplier);
    } else {
      var s, a, t := states[n - 1], actions[n - 1], states[n];
      RunKeepsChain(e, states, actions, n - 1);
      assert Step(e, s, a) == Accepted(states[n - 1 + 1]);
      StepKeepsChain(e, s, a);
      forall m | n <= m < |actions| && actions[m].PropagateIndex? ensures AllBefore(t.events, actions[m].now) {
        assert AllBefore(s.events, actions[m].now);
      }
      if t.events != s.events {
        assert AllBefore(s.events, a.now);
      }
    }
  }

  lemma {:induction false} EmptyChain(fl: real -> real, multiplier: real)
    requires multiplier >= 0.0
    ensures Chained(fl, [], multiplier)
  {
  }

  /** Events have strictly increasing, positive indices. */
  lemma {:induction false} ChainIndicesIncrease(fl: real -> real, events: seq<IndexUpdate>, multiplier: real, i: nat,
                                                j: nat)
    requires Ieee(fl) && Chained(fl, events, multiplier) && i < j < |events|
    ensures events[i].newMultiplier < events[j].newMultiplier && events[i].index < events[j].index
    decreases j - i
  {
    hide C.IndexToMultiplier;
    var k := j - 1;
    assert Rise(fl, events[j]) && events[j].currentMultiplier == events[k].newMultiplier;
    if i < k {
      ChainIndicesIncrease(fl, events, multiplier, i, k);
    }
    assert Rise(fl, events[i]);
    if events[j].index <= events[i].index {
      C.MultiplierMonotone(fl, events[j].index, events[i].index);
      assert false;
    }
  }

  lemma {:induction false} ChainIndicesPositive(fl: real -> real, events: seq<IndexUpdate>, multiplier: real, i: nat)
    requires Ieee(fl) && Chained(fl, events, multiplier) && i < |events|
    ensures events[i].index > 0
  {
    hide C.IndexToMultiplier;
    assert Rise(fl, events[0]);
    ZeroIndexMultiplier(fl);
    if i > 0 {
      ChainIndicesIncrease(fl, events, multiplier, 0, i);
    }
  }

  lemma {:induction false} ZeroIndexMultiplier(fl: real -> real)
    requires Ieee(fl)
    ensures C.IndexToMultiplier(fl, 0) == 0.0
  {
  }

  /** Events as the yield walk sees them. */
  function AsUpdates(events: seq<IndexUpdate>): (r: seq<YieldWalk.Update>)
    ensures |r| == |events|
  {
    seq(|events|, i requires 0 <= i < |events| => YieldWalk.Update(events[i].index, events[i].ts))
  }

  lemma {:induction false} ChainRises(fl: real -> real, events: seq<IndexUpdate>, multiplier: real, lo: nat, hi: nat)
    requires Ieee(fl) && Chained(fl, events, multiplier) && InTimeOrder(events) && lo < hi <= |events|
    ensures var window := AsUpdates(events)[lo..hi];
      YieldBounds.Rising(window[0], window[1..])
    decreases hi - lo
  {
    hide Chained;
    var window := AsUpdates(events)[lo..hi];
    ChainIndicesPositive(fl, events, multiplier, lo);
    if lo + 1 < hi {
      ChainIndicesIncrease(fl, events, multiplier, lo, lo + 1);
      ChainRises(fl, events, multiplier, lo + 1, hi);
      assert window[1..] == AsUpdates(events)[lo + 1..hi];
    }
  }

  /** Whatever the run and whatever window of its events a claim reads, the walk's check on
      indices and times never fires, also where updates of one second are skipped. */
  lemma {:induction false} EventsFeedTheWalk<D>(e: Env<D>, states: seq<State<D>>, actions: seq<Action<D>>, lo: nat,
                                                hi: nat, balances: seq<nat>)
    requires Ieee(e.fl) && IsRun(e, states, actions) && ClockRuns(actions)
    requires states[0].events == [] && states[0].multiplier >= 0.0
    requires lo <= hi <= |states[|actions|].events| && |balances| == hi - lo
    ensures YieldWalk.YieldOf(AsUpdates(states[|actions|].events)[lo..hi], balances).Walked?
  {
    hide Step, Chained, InTimeOrder;
    var events := states[|actions|].events;
    RunKeepsChain(e, states, actions, |actions|);
    if lo < hi {
      var window := AsUpdates(events)[lo..hi];
      ChainRises(e.fl, events, states[|actions|].multiplier, lo, hi);
      YieldBounds.RisingUpdatesAccepted(YieldWalk.Progress(0, window[0]), window[1..], balances[1..]);
    }
  }
}
