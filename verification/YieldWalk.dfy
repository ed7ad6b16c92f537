/** The yield arithmetic of a claim: an iterated floor recurrence along the index updates,
    and the snapshot balance that a claim sends on chain. */
module YieldWalk {
  /** An index update as the database returns it; times are whole seconds. */
  datatype Update = Update(index: nat, ts: int)

  datatype Outcome<+T> = Walked(value: T) | InvalidUpdate | DivisionByZero

  /** The yield so far and the update it was last computed at. */
  datatype Progress = Progress(claimYield: int, last: Update)

  /** Big-number division truncates toward zero. */
  function TruncDiv(a: int, d: int): int
    requires d > 0
  {
    if a >= 0 then a / d else -((-a) / d)
  }

  /** One step: y' = (y + b) * I' / I - b, rounded. */
  function NextYield(y: int, balance: nat, from: nat, to: nat): int
    requires from > 0
  {
    TruncDiv((y + balance) * to, from) - balance
  }

  /** The loop from a given point on; `balances[i]` is the balance held at `updates[i].ts`. */
  function Walk(p: Progress, updates: seq<Update>, balances: seq<nat>): Outcome<Progress>
    requires |balances| == |updates|
    decreases |updates|
  {
    if updates == [] then Walked(p)
    else
      var current := updates[0];
      if current.ts == p.last.ts then Walk(p, updates[1..], balances[1..])
      else if current.index < p.last.index || current.ts < p.last.ts then InvalidUpdate
      else if p.last.index == 0 then DivisionByZero
      else
        Walk(Progress(NextYield(p.claimYield, balances[0], p.last.index, current.index), current),
             updates[1..], balances[1..])
  }

  datatype Claim = AlreadyClaimed | NoYield | Failed | ClaimFor(balance: int)

  /** The yield of a whole list of updates, oldest first. */
  function YieldOf(updates: seq<Update>, balances: seq<nat>): Outcome<int>
    requires |balances| == |updates|
  {
    if updates == [] then Walked(0)
    else
      match Walk(Progress(0, updates[0]), updates[1..], balances[1..])
      case Walked(p) => Walked(p.claimYield)
      case InvalidUpdate => InvalidUpdate
      case DivisionByZero => DivisionByZero
  }

  function Snapshot(claimYield: int, lastClaimIndex: nat, latestIndex: nat): int
    requires lastClaimIndex < latestIndex
  {
    TruncDiv(claimYield * lastClaimIndex, latestIndex - lastClaimIndex)
  }

  function ClaimOf(lastClaimIndex: nat, latestIndex: nat, updates: seq<Update>, balances: seq<nat>): Claim
    requires |balances| == |updates|
  {
    if lastClaimIndex >= latestIndex then AlreadyClaimed
    else
      match YieldOf(updates, balances)
      case InvalidUpdate => Failed
      case DivisionByZero => Failed
      case Walked(y) =>
        var s := Snapshot(y, lastClaimIndex, latestIndex);
        if s <= 0 then NoYield else ClaimFor(s)
  }

  lemma {:induction false} WalkDropsNothing(p: Progress, updates: seq<Update>, balances: seq<nat>, k: nat)
    requires |balances| == |updates| && k <= |updates|
    ensures Walk(p, updates, balances) ==
      match Walk(p, updates[..k], balances[..k])
      case Walked(q) => Walk(q, updates[k..], balances[k..])
      case InvalidUpdate => InvalidUpdate
      case DivisionByZero => DivisionByZero
    decreases k
  {
    if k > 0 {
      assert updates[..k][1..] == updates[1..][..k - 1] && updates[k..] == updates[1..][k - 1..];
      assert balances[..k][1..] == balances[1..][..k - 1] && balances[k..] == balances[1..][k - 1..];
      if updates[0].ts == p.last.ts {
        WalkDropsNothing(p, updates[1..], balances[1..], k - 1);
      } else if updates[0].index >= p.last.index && updates[0].ts > p.last.ts && p.last.index > 0 {
        var y := NextYield(p.claimYield, balances[0], p.last.index, updates[0].index);
        WalkDropsNothing(Progress(y, updates[0]), updates[1..], balances[1..], k - 1);
      }
    }
  }
}

/** What the recurrence guarantees. */
module YieldBounds {
  import opened Numbers
  import opened YieldWalk

  // ---------------------------------------------------------------- one step

  lemma {:induction false} StepQuotient(y: nat, b: nat, from: nat, to: nat) returns (q: nat)
    requires 0 < from <= to
    ensures NextYield(y, b, from, to) == q - b && q >= y + b
    ensures q * from <= (y + b) * to < (q + 1) * from
  {
    q := (y + b) * to / from;
    FloorBetween((y + b) * to, from);
    StepGrows(y, b, from, to);
  }

  /** Yield never falls over a step of non-decreasing index. */
  lemma {:induction false} StepGrows(y: nat, b: nat, from: nat, to: nat)
    requires 0 < from <= to
    ensures NextYield(y, b, from, to) >= y
  {
    assert (y + b) * (to - from) >= 0;
    FloorAtLeast((y + b) * to, from, y + b);
  }

  /** More balance and more yield so far give at least as much yield. */
  lemma {:induction false} StepMonotone(y: nat, b: nat, y': nat, b': nat, from: nat, to: nat)
    requires 0 < from <= to && y <= y' && b <= b'
    ensures NextYield(y, b, from, to) <= NextYield(y', b', from, to)
  {
    var q := (y + b) * to / from;
    FloorBetween((y + b) * to, from);
    MoreLeavesRoom(y + b, q, b' - b, (y' + b') - (y + b), from, to);
    FloorAtLeast((y' + b') * to, from, q + (b' - b));
  }

  lemma {:induction false} MoreLeavesRoom(x: nat, q: nat, db: nat, dx: nat, from: nat, to: nat)
    requires from <= to && db <= dx && q * from <= x * to
    ensures (q + db) * from <= (x + dx) * to
  {
    ScaleUp(db, dx, from);
    ScaleUp(from, to, dx);
    assert (q + db) * from == q * from + db * from;
    assert (x + dx) * to == x * to + to * dx;
  }

  /** Two separate accounts earn at most what their pool earns. */
  lemma {:induction false} StepSuperadditive(y: nat, b: nat, y': nat, b': nat, from: nat, to: nat)
    requires 0 < from <= to
    ensures NextYield(y, b, from, to) + NextYield(y', b', from, to) <= NextYield(y + y', b + b', from, to)
  {
    var q, q' := (y + b) * to / from, (y' + b') * to / from;
    FloorBetween((y + b) * to, from);
    FloorBetween((y' + b') * to, from);
    assert (y + y' + (b + b')) * to == (y + b) * to + (y' + b') * to;
    assert (q + q') * from == q * from + q' * from;
    FloorAtLeast((y + y' + (b + b')) * to, from, q + q');
  }

  /** Division drops the fraction whatever the signs. */
  lemma {:induction false} DivisionTruncates(a: int, d: int)
    requires d > 0
    ensures var q := TruncDiv(a, d);
      if a >= 0 then q * d <= a < (q + 1) * d else (q - 1) * d < a <= q * d
  {
    FloorBetween(if a >= 0 then a else -a, d);
  }

  // ---------------------------------------------------------------- whole walks

  /** Yield is a natural number that never decreases along the walk. */
  lemma {:induction false} WalkNeverDecreases(p: Progress, updates: seq<Update>, balances: seq<nat>)
    requires |balances| == |updates| && p.claimYield >= 0 && Walk(p, updates, balances).Walked?
    ensures Walk(p, updates, balances).value.claimYield >= p.claimYield
    decreases |updates|
  {
    if updates != [] {
      if updates[0].ts == p.last.ts {
        WalkNeverDecreases(p, updates[1..], balances[1..]);
      } else {
        var y := NextYield(p.claimYield, balances[0], p.last.index, updates[0].index);
        StepGrows(p.claimYield, balances[0], p.last.index, updates[0].index);
        WalkNeverDecreases(Progress(y, updates[0]), updates[1..], balances[1..]);
      }
    }
  }

  ghost predicate AtMost(a: seq<nat>, b: seq<nat>) {
    |a| == |b| && forall i :: 0 <= i < |a| ==> a[i] <= b[i]
  }

  /** The same updates with larger balances: accepted alike, and at least as much yield. */
  lemma {:induction false} WalkMonotone(p: Progress, q: Progress, updates: seq<Update>, a: seq<nat>, b: seq<nat>)
    requires |a| == |updates| && AtMost(a, b)
    requires p.last == q.last && 0 <= p.claimYield <= q.claimYield
    ensures Walk(p, updates, a).Walked? <==> Walk(q, updates, b).Walked?
    ensures Walk(p, updates, a).Walked? ==>
      && Walk(p, updates, a).value.last == Walk(q, updates, b).value.last
      && Walk(p, updates, a).value.claimYield <= Walk(q, updates, b).value.claimYield
    decreases |updates|
  {
    if updates != [] {
      var u := updates[0];
      if u.ts == p.last.ts {
        WalkMonotone(p, q, updates[1..], a[1..], b[1..]);
      } else if u.index >= p.last.index && u.ts > p.last.ts && p.last.index > 0 {
        StepGrows(p.claimYield, a[0], p.last.index, u.index);
        StepMonotone(p.claimYield, a[0], q.claimYield, b[0], p.last.index, u.index);
        WalkMonotone(Progress(NextYield(p.claimYield, a[0], p.last.index, u.index), u),
                     Progress(NextYield(q.claimYield, b[0], p.last.index, u.index), u), updates[1..], a[1..], b[1..]);
      }
    }
  }

  function Pool(a: seq<nat>, b: seq<nat>): (r: seq<nat>)
    requires |a| == |b|
    ensures |r| == |a|
  {
    seq(|a|, i requires 0 <= i < |a| => a[i] + b[i])
  }

  lemma {:induction false} WalkSuperadditive(p: Progress, q: Progress, updates: seq<Update>, a: seq<nat>, b: seq<nat>,
                                             r: Progress)
    requires |a| == |b| == |updates| && p.last == q.last == r.last
    requires p.claimYield >= 0 && q.claimYield >= 0 && p.claimYield + q.claimYield <= r.claimYield
    requires Walk(r, updates, Pool(a, b)).Walked?
    ensures Walk(p, updates, a).Walked? && Walk(q, updates, b).Walked?
    ensures Walk(p, updates, a).value.claimYield + Walk(q, updates, b).value.claimYield
      <= Walk(r, updates, Pool(a, b)).value.claimYield
    decreases |updates|
  {
    if updates != [] {
      var u, from := updates[0], p.last.index;
      assert Pool(a, b)[1..] == Pool(a[1..], b[1..]);
      if u.ts == p.last.ts {
        WalkSuperadditive(p, q, updates[1..], a[1..], b[1..], r);
      } else {
        StepGrows(p.claimYield, a[0], from, u.index);
        StepGrows(q.claimYield, b[0], from, u.index);
        StepSuperadditive(p.claimYield, a[0], q.claimYield, b[0], from, u.index);
        StepMonotone(p.claimYield + q.claimYield, a[0] + b[0], r.claimYield, a[0] + b[0], from, u.index);
        WalkSuperadditive(Progress(NextYield(p.claimYield, a[0], from, u.index), u),
                          Progress(NextYield(q.claimYield, b[0], from, u.index), u), updates[1..], a[1..], b[1..],
                          Progress(NextYield(r.claimYield, a[0] + b[0], from, u.index), u));
      }
    }
  }

  /** The balances of many earners, and of all of them together. */
  function PoolAll(n: nat, earners: seq<seq<nat>>): (r: seq<nat>)
    requires forall i :: 0 <= i < |earners| ==> |earners[i]| == n
    ensures |r| == n
  {
    if earners == [] then seq(n, _ => 0) else Pool(earners[0], PoolAll(n, earners[1..]))
  }

  function SumOfYields(p: Progress, updates: seq<Update>, earners: seq<seq<nat>>): int
    requires forall i :: 0 <= i < |earners| ==> |earners[i]| == |updates|
  {
    if earners == [] then 0
    else
      (match Walk(p, updates, earners[0])
       case Walked(q) => q.claimYield
       case InvalidUpdate => 0
       case DivisionByZero => 0)
      + SumOfYields(p, updates, earners[1..])
  }

  /** Splitting never pays: whatever the number of earners, the sum of their yields over the
      same updates is at most the yield of their pooled balances. */
  lemma {:induction false} SplittingNeverPays(first: Update, updates: seq<Update>, earners: seq<seq<nat>>)
    requires forall i :: 0 <= i < |earners| ==> |earners[i]| == |updates|
    requires Walk(Progress(0, first), updates, PoolAll(|updates|, earners)).Walked?
    ensures SumOfYields(Progress(0, first), updates, earners)
      <= Walk(Progress(0, first), updates, PoolAll(|updates|, earners)).value.claimYield
    decreases |earners|
  {
    var p := Progress(0, first);
    if earners == [] {
      WalkNeverDecreases(p, updates, PoolAll(|updates|, earners));
    } else {
      WalkSuperadditive(p, p, updates, earners[0], PoolAll(|updates|, earners[1..]), p);
      SplittingNeverPays(first, updates, earners[1..]);
    }
  }

  // ---------------------------------------------------------------- snapshot balance

  /** The last update a walk used. */
  function LastOf(last: Update, updates: seq<Update>): Update
    decreases |updates|
  {
    if updates == [] then last
    else if updates[0].ts == last.ts then LastOf(last, updates[1..])
    else LastOf(updates[0], updates[1..])
  }

  lemma {:induction false} WalkEndsAtLast(p: Progress, updates: seq<Update>, balances: seq<nat>)
    requires |balances| == |updates| && Walk(p, updates, balances).Walked?
    ensures Walk(p, updates, balances).value.last == LastOf(p.last, updates)
    ensures Walk(p, updates, balances).value.last.index >= p.last.index
    decreases |updates|
  {
    if updates != [] {
      if updates[0].ts == p.last.ts {
        WalkEndsAtLast(p, updates[1..], balances[1..]);
      } else {
        var y := NextYield(p.claimYield, balances[0], p.last.index, updates[0].index);
        WalkEndsAtLast(Progress(y, updates[0]), updates[1..], balances[1..]);
      }
    }
  }

  /** One step keeps y * I_0 <= B * (I - I_0). */
  lemma {:induction false} StepWithinCap(y: nat, b: nat, start: nat, from: nat, to: nat, cap: nat)
    requires 0 < start <= from <= to && b <= cap && y * start <= cap * (from - start)
    ensures NextYield(y, b, from, to) * start <= cap * (to - start)
  {
    hide NextYield;
    var q := StepQuotient(y, b, from, to);
    CapStep(y, b, q, start, from, to, cap);
  }

  lemma {:induction false} CapStep(y: nat, b: nat, q: nat, start: nat, from: nat, to: nat, cap: nat)
    requires 0 < start <= from <= to && b <= cap && y * start <= cap * (from - start)
    requires q * from <= (y + b) * to
    ensures (q - b) * start <= cap * (to - start)
  {
  }

  lemma {:induction false} WalkWithinCap(p: Progress, updates: seq<Update>, balances: seq<nat>, start: nat, cap: nat)
    requires |balances| == |updates| && Walk(p, updates, balances).Walked?
    requires 0 < start <= p.last.index && 0 <= p.claimYield && p.claimYield * start <= cap * (p.last.index - start)
    requires forall i :: 0 <= i < |balances| ==> balances[i] <= cap
    ensures var q := Walk(p, updates, balances).value;
      0 <= q.claimYield && q.claimYield * start <= cap * (q.last.index - start)
    decreases |updates|
  {
    if updates != [] {
      var u := updates[0];
      if u.ts == p.last.ts {
        WalkWithinCap(p, updates[1..], balances[1..], start, cap);
      } else {
        StepGrows(p.claimYield, balances[0], p.last.index, u.index);
        StepWithinCap(p.claimYield, balances[0], start, p.last.index, u.index, cap);
        WalkWithinCap(Progress(NextYield(p.claimYield, balances[0], p.last.index, u.index), u),
                      updates[1..], balances[1..], start, cap);
      }
    }
  }

  /** The snapshot is at most the largest balance held, and multiplying it back by the index
      growth since the last claim never exceeds the computed yield, provided the walk starts
      at or after the last claim and ends at or before the index claimed up to. */
  lemma {:induction false} SnapshotIsAnAverage(first: Update, updates: seq<Update>, balances: seq<nat>, cap: nat,
                                               lastClaimIndex: nat, latestIndex: nat)
    requires |balances| == |updates| && Walk(Progress(0, first), updates, balances).Walked?
    requires forall i :: 0 <= i < |balances| ==> balances[i] <= cap
    requires 0 < lastClaimIndex < latestIndex
    requires lastClaimIndex <= first.index && LastOf(first, updates).index <= latestIndex
    ensures var y := Walk(Progress(0, first), updates, balances).value.claimYield;
      var snapshot, growth := Snapshot(y, lastClaimIndex, latestIndex), latestIndex - lastClaimIndex;
      && 0 <= snapshot <= cap
      && snapshot * growth <= y * lastClaimIndex < (snapshot + 1) * growth
  {
    var q := Walk(Progress(0, first), updates, balances).value;
    WalkWithinCap(Progress(0, first), updates, balances, first.index, cap);
    WalkEndsAtLast(Progress(0, first), updates, balances);
    SnapshotBounds(q.claimYield, cap, first.index, q.last.index, lastClaimIndex, latestIndex);
  }

  /** A claim built from well-ordered updates that start no earlier than the last claim and end
      no later than the index claimed up to is never refused, asks for a positive balance no
      larger than any cap on what was held, and is worth at most the computed yield. */
  lemma {:induction false} ClaimNeverOverpays(lastClaimIndex: nat, latestIndex: nat, updates: seq<Update>,
                                              balances: seq<nat>, cap: nat)
    requires |balances| == |updates| && updates != [] && Rising(updates[0], updates[1..])
    requires 0 < lastClaimIndex < latestIndex
    requires lastClaimIndex <= updates[0].index && LastOf(updates[0], updates[1..]).index <= latestIndex
    requires forall i :: 0 <= i < |balances| ==> balances[i] <= cap
    ensures YieldOf(updates, balances).Walked? && YieldOf(updates, balances).value >= 0
    ensures match ClaimOf(lastClaimIndex, latestIndex, updates, balances)
      case ClaimFor(b) =>
        var due := YieldOf(updates, balances).value * lastClaimIndex;
        && 0 < b <= cap
        && b * (latestIndex - lastClaimIndex) <= due < (b + 1) * (latestIndex - lastClaimIndex)
      case NoYield => YieldOf(updates, balances).value * lastClaimIndex < latestIndex - lastClaimIndex
      case _ => false
  {
    var first, later := updates[0], updates[1..];
    RisingUpdatesAccepted(Progress(0, first), later, balances[1..]);
    WalkNeverDecreases(Progress(0, first), later, balances[1..]);
    SnapshotIsAnAverage(first, later, balances[1..], cap, lastClaimIndex, latestIndex);
    var y := YieldOf(updates, balances).value;
    FloorBetween(y * lastClaimIndex, latestIndex - lastClaimIndex);
  }

  lemma {:induction false} SnapshotBounds(y: nat, cap: nat, start: nat, end: nat, lastClaim: nat, latest: nat)
    requires 0 < lastClaim < latest && lastClaim <= start <= end <= latest
    requires y * start <= cap * (end - start)
    ensures var s := Snapshot(y, lastClaim, latest);
      0 <= s <= cap && s * (latest - lastClaim) <= y * lastClaim < (s + 1) * (latest - lastClaim)
  {
    hide Snapshot;
    CapOverGap(y, cap, start, end, lastClaim, latest);
    SnapshotDivides(y, cap, lastClaim, latest);
  }

  /** y * L <= B * (N - L), from y * I_0 <= B * (I_n - I_0). */
  lemma {:induction false} CapOverGap(y: nat, cap: nat, start: nat, end: nat, lastClaim: nat, latest: nat)
    requires 0 < lastClaim < latest && lastClaim <= start <= end <= latest
    requires y * start <= cap * (end - start)
    ensures y * lastClaim <= cap * (latest - lastClaim)
  {
  }

  lemma {:induction false} SnapshotDivides(y: nat, cap: nat, lastClaim: nat, latest: nat)
    requires 0 < lastClaim < latest && y * lastClaim <= cap * (latest - lastClaim)
    ensures var s := Snapshot(y, lastClaim, latest);
      0 <= s <= cap && s * (latest - lastClaim) <= y * lastClaim < (s + 1) * (latest - lastClaim)
  {
  }

  // ---------------------------------------------------------------- against the exact value

  function PerIndex(y: int, index: nat): real
    requires index > 0
  {
    y as real / index as real
  }

  /** The exact contribution of one step, per unit of final index: b * (1/I - 1/I'). */
  function StepGain(balance: nat, from: nat, to: nat): real
    requires from > 0 && to > 0
  {
    balance as real * (1.0 / from as real - 1.0 / to as real)
  }

  /** The exact yield per unit of final index: the sum of b * (1/I - 1/I') over the steps used. */
  ghost function Gain(last: Update, updates: seq<Update>, balances: seq<nat>): real
    requires |balances| == |updates| && last.index > 0
    decreases |updates|
  {
    if updates == [] then 0.0
    else
      var u := updates[0];
      if u.ts == last.ts || u.index == 0 then Gain(last, updates[1..], balances[1..])
      else StepGain(balances[0], last.index, u.index) + Gain(u, updates[1..], balances[1..])
  }

  /** What rounding can cost per unit of final index: the sum of 1/I' over the steps used. */
  ghost function Slack(last: Update, updates: seq<Update>): real
    decreases |updates|
  {
    if updates == [] then 0.0
    else
      var u := updates[0];
      if u.ts == last.ts || u.index == 0 then Slack(last, updates[1..])
      else PerIndex(1, u.index) + Slack(u, updates[1..])
  }

  /** One step: the yield per unit of index grows by the exact gain, less under one unit lost to rounding. */
  lemma {:induction false} StepTracksGain(y: nat, b: nat, from: nat, to: nat)
    requires 0 < from <= to
    ensures var now := PerIndex(NextYield(y, b, from, to), to);
      now <= PerIndex(y, from) + StepGain(b, from, to) < now + PerIndex(1, to)
  {
  }

  lemma {:induction false} WalkTracksGain(p: Progress, updates: seq<Update>, balances: seq<nat>)
    requires |balances| == |updates| && Walk(p, updates, balances).Walked?
    requires p.claimYield >= 0 && p.last.index > 0
    ensures var q := Walk(p, updates, balances).value;
      && q.last.index > 0 && Slack(p.last, updates) >= 0.0
      && Tracks(PerIndex(p.claimYield, p.last.index), Gain(p.last, updates, balances),
                PerIndex(q.claimYield, q.last.index), Slack(p.last, updates))
    decreases |updates|
  {
    hide NextYield, Tracks, PerIndex, StepGain;
    if updates == [] {
      TracksNothing(PerIndex(p.claimYield, p.last.index));
    } else {
      var u := updates[0];
      if u.ts == p.last.ts {
        WalkTracksGain(p, updates[1..], balances[1..]);
      } else {
        var y := NextYield(p.claimYield, balances[0], p.last.index, u.index);
        StepGrows(p.claimYield, balances[0], p.last.index, u.index);
        StepTracksGain(p.claimYield, balances[0], p.last.index, u.index);
        var q := Progress(y, u);
        WalkTracksGain(q, updates[1..], balances[1..]);
        var r := Walk(q, updates[1..], balances[1..]).value;
        TracksStep(PerIndex(p.claimYield, p.last.index), StepGain(balances[0], p.last.index, u.index),
                   PerIndex(y, u.index), PerIndex(1, u.index), Gain(u, updates[1..], balances[1..]),
                   PerIndex(r.claimYield, r.last.index), Slack(u, updates[1..]));
      }
    }
  }

  lemma {:induction false} TracksNothing(x: real)
    ensures Tracks(x, 0.0, x, 0.0)
  {
  }

  lemma {:induction false} TracksStep(before: real, g: real, mid: real, w: real, gain: real, now: real, slack: real)
    requires mid <= before + g < mid + w && Tracks(mid, gain, now, slack) && slack >= 0.0
    ensures Tracks(before, g + gain, now, w + slack) && w > 0.0
  {
  }

  /** The yield per unit of index rises by the gain, less at most the slack, and less than it if there is any. */
  ghost predicate Tracks(before: real, gain: real, now: real, slack: real) {
    now <= before + gain <= now + slack && (slack > 0.0 ==> before + gain < now + slack)
  }

  /** The computed yield is at most the exact value I_n * sum b * (1/I - 1/I'), and short of it
      by less than the sum of I_n / I' over the steps used. */
  lemma {:induction false} YieldBoundedByExact(first: Update, updates: seq<Update>, balances: seq<nat>)
    requires |balances| == |updates| && first.index > 0
    requires Walk(Progress(0, first), updates, balances).Walked?
    ensures var q := Walk(Progress(0, first), updates, balances).value;
      var y, end := q.claimYield as real, q.last.index as real;
      && y <= end * Gain(first, updates, balances) <= y + end * Slack(first, updates)
      && (Slack(first, updates) > 0.0 ==> end * Gain(first, updates, balances) < y + end * Slack(first, updates))
  {
    WalkTracksGain(Progress(0, first), updates, balances);
    assert PerIndex(0, first.index) == 0.0;
    var q := Walk(Progress(0, first), updates, balances).value;
    ScaleBounds(q.claimYield as real, q.last.index as real, Gain(first, updates, balances), Slack(first, updates));
  }

  lemma {:induction false} ScaleBounds(y: real, end: real, gain: real, slack: real)
    requires end > 0.0 && y / end <= gain <= y / end + slack
    ensures y <= end * gain <= y + end * slack
    ensures gain < y / end + slack ==> end * gain < y + end * slack
  {
  }

  /** With a constant balance the exact value is the textbook b * (I_n / I_0 - 1): the gain telescopes. */
  lemma {:induction false} ConstantBalanceTelescopes(p: Progress, updates: seq<Update>, balances: seq<nat>, b: nat)
    requires |balances| == |updates| && p.last.index > 0
    requires forall i :: 0 <= i < |balances| ==> balances[i] == b
    requires Walk(p, updates, balances).Walked?
    ensures LastOf(p.last, updates).index > 0
    ensures Gain(p.last, updates, balances) == StepGain(b, p.last.index, LastOf(p.last, updates).index)
    decreases |updates|
  {
    hide NextYield, StepGain;
    if updates == [] {
      TelescopeTerms(b, p.last.index, p.last.index, p.last.index);
    } else {
      var u := updates[0];
      if u.ts == p.last.ts {
        ConstantBalanceTelescopes(p, updates[1..], balances[1..], b);
      } else {
        var q := Progress(NextYield(p.claimYield, balances[0], p.last.index, u.index), u);
        ConstantBalanceTelescopes(q, updates[1..], balances[1..], b);
        TelescopeTerms(b, p.last.index, u.index, LastOf(u, updates[1..]).index);
      }
    }
  }

  lemma {:induction false} TelescopeTerms(b: nat, i: nat, j: nat, n: nat)
    requires i > 0 && j > 0 && n > 0
    ensures StepGain(b, i, j) + StepGain(b, j, n) == StepGain(b, i, n)
    ensures StepGain(b, i, i) == 0.0
  {
  }

  // ---------------------------------------------------------------- acceptance

  predicate Rising(last: Update, updates: seq<Update>)
    decreases |updates|
  {
    last.index > 0 &&
    (updates == [] ||
     (last.index <= updates[0].index && last.ts <= updates[0].ts && Rising(updates[0], updates[1..])))
  }

  /** Updates with positive, never falling indices and times are never refused, whichever of
      them are skipped for sharing a second. */
  lemma {:induction false} RisingUpdatesAccepted(p: Progress, updates: seq<Update>, balances: seq<nat>)
    requires |balances| == |updates| && Rising(p.last, updates)
    ensures Walk(p, updates, balances).Walked?
    decreases |updates|
  {
    if updates != [] {
      var u := updates[0];
      if u.ts == p.last.ts {
        assert Rising(u, updates[1..]);
        RisingUpdatesAccepted(p, updates[1..], balances[1..]);
      } else {
        RisingUpdatesAccepted(Progress(NextYield(p.claimYield, balances[0], p.last.index, u.index), u),
                              updates[1..], balances[1..]);
      }
    }
  }

  /** An update is skipped exactly for sharing a second with the one before it: leaving it out changes
      nothing, whatever the other updates are. */
  lemma {:induction false} SameSecondSkipped(p: Progress, updates: seq<Update>, balances: seq<nat>, k: nat)
    requires |balances| == |updates| && k < |updates|
    requires updates[k].ts == if k == 0 then p.last.ts else updates[k - 1].ts
    ensures Walk(p, updates, balances)
      == Walk(p, updates[..k] + updates[k + 1..], balances[..k] + balances[k + 1..])
  {
    hide Walk;
    var rest, held := updates[..k] + updates[k + 1..], balances[..k] + balances[k + 1..];
    assert rest[..k] == updates[..k] && held[..k] == balances[..k];
    assert rest[k..] == updates[k + 1..] && held[k..] == balances[k + 1..];
    WalkDropsNothing(p, updates, balances, k);
    WalkDropsNothing(p, rest, held, k);
    if Walk(p, updates[..k], balances[..k]).Walked? {
      var q := Walk(p, updates[..k], balances[..k]).value;
      WalkEndsAtSecond(p, updates[..k], balances[..k]);
      assert updates[k..][1..] == updates[k + 1..] && balances[k..][1..] == balances[k + 1..];
      SkipFirst(q, updates[k..], balances[k..]);
    }
  }

  lemma {:induction false} SkipFirst(p: Progress, updates: seq<Update>, balances: seq<nat>)
    requires |balances| == |updates| > 0 && updates[0].ts == p.last.ts
    ensures Walk(p, updates, balances) == Walk(p, updates[1..], balances[1..])
  {
  }

  lemma {:induction false} WalkEndsAtSecond(p: Progress, updates: seq<Update>, balances: seq<nat>)
    requires |balances| == |updates| && Walk(p, updates, balances).Walked?
    ensures Walk(p, updates, balances).value.last.ts
      == if updates == [] then p.last.ts else updates[|updates| - 1].ts
    decreases |updates|
  {
    if updates != [] {
      var u := updates[0];
      if u.ts == p.last.ts {
        WalkEndsAtSecond(p, updates[1..], balances[1..]);
      } else {
        var y := NextYield(p.claimYield, balances[0], p.last.index, u.index);
        WalkEndsAtSecond(Progress(y, u), updates[1..], balances[1..]);
      }
    }
  }

  /** Where no two neighbours share a second, the walk accepts exactly rising times with positive, never
      falling indices. */
  lemma {:induction false} AcceptedIffOrdered(p: Progress, updates: seq<Update>, balances: seq<nat>)
    requires |balances| == |updates|
    requires forall i :: 0 <= i < |updates| ==> Before(p, updates, i).ts != updates[i].ts
    ensures Walk(p, updates, balances).Walked? <==>
      forall i :: 0 <= i < |updates| ==>
        && Before(p, updates, i).ts < updates[i].ts
        && 0 < Before(p, updates, i).index <= updates[i].index
    decreases |updates|
  {
    if updates != [] {
      assert Before(p, updates, 0) == p.last;
      var u := updates[0];
      if u.ts > p.last.ts && 0 < p.last.index <= u.index {
        var q := Progress(NextYield(p.claimYield, balances[0], p.last.index, u.index), u);
        forall i | 0 <= i < |updates| - 1 ensures Before(q, updates[1..], i) == Before(p, updates, i + 1) {
        }
        AcceptedIffOrdered(q, updates[1..], balances[1..]);
        forall i | 0 < i < |updates| ensures Before(p, updates, i) == Before(q, updates[1..], i - 1) {
        }
        assert forall i :: 0 < i < |updates| ==> updates[i] == updates[1..][i - 1];
      }
    }
  }

  /** The update before this one, the walk's own starting point included. */
  function Before(p: Progress, updates: seq<Update>, i: nat): Update
    requires i < |updates|
  {
    if i == 0 then p.last else updates[i - 1]
  }
}
