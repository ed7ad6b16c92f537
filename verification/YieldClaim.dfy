/** The claim itself: the database lists index updates newest first. */
module YieldClaim {
  import opened YieldWalk
  import opened YieldBounds

  function Reversed<T>(s: seq<T>): (r: seq<T>)
    ensures |r| == |s|
  {
    if s == [] then [] else Reversed(s[1..]) + [s[0]]
  }

  /** The element that stood k places from the end. */
  lemma {:induction false} ReversedAt<T>(s: seq<T>, k: nat)
    requires k < |s|
    ensures Reversed(s)[k] == s[|s| - 1 - k]
  {
    if k < |s| - 1 {
      ReversedAt(s[1..], k);
    }
  }

  /** A list as the database sorts it: positive indices, and neither indices nor times rise. */
  ghost predicate NeverRises(newestFirst: seq<Update>) {
    && (forall i :: 0 <= i < |newestFirst| ==> newestFirst[i].index > 0)
    && (forall i, j :: 0 <= i < j < |newestFirst| ==>
          newestFirst[i].index >= newestFirst[j].index && newestFirst[i].ts >= newestFirst[j].ts)
  }

  /** Such a list reaches from the last claim at the earliest to the index claimed up to at the latest. */
  ghost predicate Covers(newestFirst: seq<Update>, lastClaimIndex: nat, latestIndex: nat) {
    && NeverRises(newestFirst) && newestFirst != []
    && 0 < lastClaimIndex < latestIndex
    && lastClaimIndex <= newestFirst[|newestFirst| - 1].index && newestFirst[0].index <= latestIndex
  }

  /** The yield over the list, computed from its oldest update on. */
  ghost function PendingYield(newestFirst: seq<Update>, balanceAt: seq<nat>): (y: int)
    requires |balanceAt| == |newestFirst| && NeverRises(newestFirst)
    ensures YieldOf(Reversed(newestFirst), Reversed(balanceAt)) == Walked(y)
  {
    ReversedRises(newestFirst);
    YieldAccepted(Reversed(newestFirst), Reversed(balanceAt));
    YieldOf(Reversed(newestFirst), Reversed(balanceAt)).value
  }

  /** Claiming asks for a positive balance that is at most any bound on the balances held and that,
      multiplied by the index growth since the last claim, is the yield less than one unit short of it;
      nothing is claimed only if the yield is less than one such unit. */
  ghost predicate FairClaim(claim: Claim, y: int, lastClaimIndex: nat, latestIndex: nat, balanceAt: seq<nat>)
    requires lastClaimIndex < latestIndex
  {
    var growth := latestIndex - lastClaimIndex;
    match claim
    case ClaimFor(b) =>
      && 0 < b && b * growth <= y * lastClaimIndex < (b + 1) * growth
      && forall cap: nat :: AllAtMost(balanceAt, cap) ==> b <= cap
    case NoYield => 0 <= y * lastClaimIndex < growth
    case _ => false
  }

  ghost predicate AllAtMost(balances: seq<nat>, cap: nat) {
    forall i :: 0 <= i < |balances| ==> balances[i] <= cap
  }

  lemma {:induction false} RisingByPairs(last: Update, updates: seq<Update>)
    requires last.index > 0
    requires forall i :: 0 <= i < |updates| ==> last.index <= updates[i].index && last.ts <= updates[i].ts
    requires forall i, j :: 0 <= i < j < |updates| ==>
      updates[i].index <= updates[j].index && updates[i].ts <= updates[j].ts
    ensures Rising(last, updates)
    decreases |updates|
  {
    if updates != [] {
      RisingByPairs(updates[0], updates[1..]);
    }
  }

  lemma {:induction false} ReversedRises(newestFirst: seq<Update>)
    requires NeverRises(newestFirst)
    ensures newestFirst != [] ==> Rising(Reversed(newestFirst)[0], Reversed(newestFirst)[1..])
  {
    hide Reversed;
    var s, n := Reversed(newestFirst), |newestFirst|;
    forall i | 0 <= i < n ensures s[i] == newestFirst[n - 1 - i] {
      ReversedAt(newestFirst, i);
    }
    if newestFirst != [] {
      RisingByPairs(s[0], s[1..]);
    }
  }

  lemma {:induction false} YieldAccepted(updates: seq<Update>, balances: seq<nat>)
    requires |balances| == |updates| && (updates != [] ==> Rising(updates[0], updates[1..]))
    ensures YieldOf(updates, balances).Walked?
  {
    if updates != [] {
      RisingUpdatesAccepted(Progress(0, updates[0]), updates[1..], balances[1..]);
    }
  }

  lemma {:induction false} NeverRisesNeverFails(lastClaimIndex: nat, latestIndex: nat, newestFirst: seq<Update>,
                                                balanceAt: seq<nat>)
    requires |balanceAt| == |newestFirst| && NeverRises(newestFirst)
    ensures ClaimOf(lastClaimIndex, latestIndex, Reversed(newestFirst), Reversed(balanceAt)) != Failed
  {
    ReversedRises(newestFirst);
    YieldAccepted(Reversed(newestFirst), Reversed(balanceAt));
  }

  lemma {:induction false} LastOfMember(last: Update, updates: seq<Update>)
    ensures LastOf(last, updates) == last || LastOf(last, updates) in updates
    decreases |updates|
  {
    if updates != [] {
      LastOfMember(if updates[0].ts == last.ts then last else updates[0], updates[1..]);
    }
  }

  lemma {:induction false} ReversedMembers<T>(s: seq<T>, x: T)
    requires x in Reversed(s)
    ensures x in s
  {
    var k :| 0 <= k < |Reversed(s)| && Reversed(s)[k] == x;
    ReversedAt(s, k);
  }

  lemma {:induction false} CoveredEnds(newestFirst: seq<Update>, lastClaimIndex: nat, latestIndex: nat)
    requires Covers(newestFirst, lastClaimIndex, latestIndex)
    ensures var s := Reversed(newestFirst);
      lastClaimIndex <= s[0].index && LastOf(s[0], s[1..]).index <= latestIndex
  {
    hide Reversed, LastOf;
    var s := Reversed(newestFirst);
    ReversedAt(newestFirst, 0);
    LastOfMember(s[0], s[1..]);
    assert LastOf(s[0], s[1..]) in s;
    ReversedMembers(newestFirst, LastOf(s[0], s[1..]));
  }

  /** What a claim over a newest-first list is worth. */
  lemma {:induction false} NewestFirstClaim(lastClaimIndex: nat, latestIndex: nat, newestFirst: seq<Update>,
                                            balanceAt: seq<nat>)
    requires |balanceAt| == |newestFirst| && Covers(newestFirst, lastClaimIndex, latestIndex)
    ensures FairClaim(ClaimOf(lastClaimIndex, latestIndex, Reversed(newestFirst), Reversed(balanceAt)),
                      PendingYield(newestFirst, balanceAt), lastClaimIndex, latestIndex, balanceAt)
  {
    hide Reversed, ClaimOf, Rising, YieldOf, LastOf;
    var updates, balances := Reversed(newestFirst), Reversed(balanceAt);
    var claim := ClaimOf(lastClaimIndex, latestIndex, updates, balances);
    ReversedRises(newestFirst);
    CoveredEnds(newestFirst, lastClaimIndex, latestIndex);
    forall cap: nat | AllAtMost(balanceAt, cap) ensures claim.ClaimFor? ==> claim.balance <= cap {
      ReversedAtMost(balanceAt, cap);
      ClaimNeverOverpays(lastClaimIndex, latestIndex, updates, balances, cap);
    }
    var cap := Bound(balanceAt);
    ReversedAtMost(balanceAt, cap);
    ClaimNeverOverpays(lastClaimIndex, latestIndex, updates, balances, cap);
  }

  lemma {:induction false} ReversedAtMost(balances: seq<nat>, cap: nat)
    requires AllAtMost(balances, cap)
    ensures AllAtMost(Reversed(balances), cap)
  {
    forall i | 0 <= i < |balances| ensures Reversed(balances)[i] <= cap {
      ReversedAt(balances, i);
    }
  }

  function Bound(balances: seq<nat>): (r: nat)
    ensures AllAtMost(balances, r)
  {
    if balances == [] then 0
    else
      var later := Bound(balances[1..]);
      if balances[0] > later then balances[0] else later
  }

  /** Over two updates the claim is priced with the balance held at the newer one. */
  lemma {:induction false} TwoUpdates(lastClaimIndex: nat, latestIndex: nat, newer: Update, older: Update,
                                      atNewer: nat, atOlder: nat)
    requires lastClaimIndex < latestIndex && older.ts < newer.ts && 0 < older.index <= newer.index
    ensures var y := atNewer * newer.index / older.index - atNewer;
      var b := y * lastClaimIndex / (latestIndex - lastClaimIndex);
      ClaimOf(lastClaimIndex, latestIndex, Reversed([newer, older]), Reversed([atNewer, atOlder]))
        == if b == 0 then NoYield else ClaimFor(b)
  {
    hide Walk, NextYield, TruncDiv, Reversed;
    ReversedPair(newer, older);
    ReversedPair(atNewer, atOlder);
    assert [older, newer][1..] == [newer] && [atOlder, atNewer][1..] == [atNewer];
    OneStep(older, newer, atNewer);
    var y := NextYield(0, atNewer, older.index, newer.index);
    FirstYield(atNewer, older.index, newer.index);
    assert y * lastClaimIndex >= 0;
    TruncDivNatural(y * lastClaimIndex, latestIndex - lastClaimIndex);
  }

  lemma {:induction false} OneStep(older: Update, newer: Update, balance: nat)
    requires older.ts < newer.ts && 0 < older.index <= newer.index
    ensures Walk(Progress(0, older), [newer], [balance])
      == Walked(Progress(NextYield(0, balance, older.index, newer.index), newer))
  {
    assert [newer][1..] == [] && [balance][1..] == [];
  }

  lemma {:induction false} FirstYield(balance: nat, from: nat, to: nat)
    requires 0 < from <= to
    ensures NextYield(0, balance, from, to) == balance * to / from - balance >= 0
  {
    StepGrows(0, balance, from, to);
  }

  lemma {:induction false} TruncDivNatural(a: nat, d: nat)
    requires d > 0
    ensures TruncDiv(a, d) == a / d >= 0
  {
  }

  lemma {:induction false} ReversedPair<T>(x: T, y: T)
    ensures Reversed([x, y]) == [y, x]
  {
    assert [x, y][1..] == [y] && [y][1..] == [];
    assert Reversed([y]) == [y];
  }

  /** The arithmetic of `buildClaimInstruction`: the database lists updates newest first. */
  method BuildClaim(lastClaimIndex: nat, latestIndex: nat, newestFirst: seq<Update>, balanceAt: seq<nat>)
    returns (claim: Claim)
    requires |balanceAt| == |newestFirst|
    ensures claim == ClaimOf(lastClaimIndex, latestIndex, Reversed(newestFirst), Reversed(balanceAt))
    ensures claim == AlreadyClaimed <==> lastClaimIndex >= latestIndex
    ensures NeverRises(newestFirst) ==> claim != Failed
    ensures Covers(newestFirst, lastClaimIndex, latestIndex) ==>
      FairClaim(claim, PendingYield(newestFirst, balanceAt), lastClaimIndex, latestIndex, balanceAt)
  {
    if NeverRises(newestFirst) {
      NeverRisesNeverFails(lastClaimIndex, latestIndex, newestFirst, balanceAt);
      if Covers(newestFirst, lastClaimIndex, latestIndex) {
        NewestFirstClaim(lastClaimIndex, latestIndex, newestFirst, balanceAt);
      }
    }
    if lastClaimIndex >= latestIndex {
      return AlreadyClaimed;
    }
    var claimYield: int := 0;
    var steps, balances := Reversed(newestFirst), Reversed(balanceAt);
    if steps != [] {
      var last := steps[0];
      ghost var start := Progress(0, steps[0]);
      assert steps[1..][|steps| - 1..] == [];
      for i := 1 to |steps|
        invariant Walk(Progress(claimYield, last), steps[i..], balances[i..]) == Walk(start, steps[1..], balances[1..])
      {
        var current := steps[i];
        assert steps[i..][1..] == steps[i + 1..] && balances[i..][1..] == balances[i + 1..];
        if current.ts == last.ts {
          continue;
        }
        if current.index < last.index || current.ts < last.ts {
          return Failed;
        }
        if last.index == 0 {
          return Failed;
        }
        var indexBalance := balances[i];
        claimYield := TruncDiv((claimYield + indexBalance) * current.index, last.index) - indexBalance;
        last := current;
      }
    }
    var claimBalance := TruncDiv(claimYield * lastClaimIndex, latestIndex - lastClaimIndex);
    if claimBalance <= 0 {
      return NoYield;
    }
    return ClaimFor(claimBalance);
  }
}
