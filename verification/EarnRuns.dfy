/** Properties of every run of the earn program. */
module EarnRuns {
  import opened Wrappers
  import opened MerkleLevels
  import opened MerkleVerifier
  import opened MerklePaths
  import opened MerkleExclusion
  import opened EarnProgram
  import C = Conversion

  /** A run: each action is accepted in its state and leads to the next. Rejected instructions
      change nothing, so they need no place in it. */
  ghost predicate IsRun<D>(e: Env<D>, states: seq<State<D>>, actions: seq<Action<D>>) {
    && |states| == |actions| + 1
    && forall i :: 0 <= i < |actions| ==> Step(e, states[i], actions[i]) == Accepted(states[i + 1])
  }

  // ---------------------------------------------------------------- who may hold tokens

  /** The reasons an action can have to thaw an account of this owner. */
  ghost predicate Grants<D>(e: Env<D>, s: State<D>, a: Action<D>, k: Key, owner: Key) {
    match a
    case Initialize(_, _, portal, ext, portalAccount, extAccount, _) =>
      (k == portalAccount && owner == portal) || (k == extAccount && owner == ext)
    case UpdatePortalAuthority(_, authority, account) => k == account && owner == authority
    case AddRegistrarEarner(account, user, proof) =>
      && k == account && owner == user && s.global.Some?
      && VerdictInTree(e.h, s.global.value.earnerMerkleRoot, user, proof).Ok?
    case RecoverM(_, _, destination, _) => k == destination
    case _ => false
  }

  /** An account thawed after a step was thawed before, with its owner fixed if it was fixed,
      or the step had a reason. */
  ghost predicate Explained<D>(e: Env<D>, s: State<D>, a: Action<D>, t: State<D>, k: Key)
    requires Thawed(t, k)
  {
    || (Thawed(s, k) &&
        (s.accounts[k].immutableOwner ==> t.accounts[k].immutableOwner && t.accounts[k].owner == s.accounts[k].owner))
    || (Grants(e, s, a, k, t.accounts[k].owner) && (a.RecoverM? || t.accounts[k].immutableOwner))
  }

  lemma {:induction false} InitializeExplained<D>(e: Env<D>, s: State<D>, a: Action<D>, k: Key)
    requires a.Initialize? && Step(e, s, a).Accepted? && Thawed(Step(e, s, a).value, k)
    ensures Explained(e, s, a, Step(e, s, a).value, k)
  {
  }

  lemma {:induction false} PortalExplained<D>(e: Env<D>, s: State<D>, a: Action<D>, k: Key)
    requires a.UpdatePortalAuthority? && Step(e, s, a).Accepted? && Thawed(Step(e, s, a).value, k)
    ensures Explained(e, s, a, Step(e, s, a).value, k)
  {
  }

  lemma {:induction false} AddExplained<D>(e: Env<D>, s: State<D>, a: Action<D>, k: Key)
    requires a.AddRegistrarEarner? && Step(e, s, a).Accepted? && Thawed(Step(e, s, a).value, k)
    ensures Explained(e, s, a, Step(e, s, a).value, k)
  {
  }

  lemma {:induction false} RecoverExplained<D>(e: Env<D>, s: State<D>, a: Action<D>, k: Key)
    requires a.RecoverM? && Step(e, s, a).Accepted? && Thawed(Step(e, s, a).value, k)
    ensures Explained(e, s, a, Step(e, s, a).value, k)
  {
  }

  lemma {:induction false} OtherExplained<D>(e: Env<D>, s: State<D>, a: Action<D>, k: Key)
    requires !a.Initialize? && !a.UpdatePortalAuthority? && !a.AddRegistrarEarner? && !a.RecoverM?
    requires e.mint.defaultFrozen == Some(true)
    requires Step(e, s, a).Accepted? && Thawed(Step(e, s, a).value, k)
    ensures Explained(e, s, a, Step(e, s, a).value, k)
  {
  }

  lemma {:induction false} StepExplained<D>(e: Env<D>, s: State<D>, a: Action<D>, k: Key)
    requires e.mint.defaultFrozen == Some(true)
    requires Step(e, s, a).Accepted? && Thawed(Step(e, s, a).value, k)
    ensures Explained(e, s, a, Step(e, s, a).value, k)
  {
    hide *;
    match a
    case Initialize(_, _, _, _, _, _, _) => InitializeExplained(e, s, a, k);
    case UpdatePortalAuthority(_, _, _) => PortalExplained(e, s, a, k);
    case AddRegistrarEarner(_, _, _) => AddExplained(e, s, a, k);
    case RecoverM(_, _, _, _) => RecoverExplained(e, s, a, k);
    case _ => OtherExplained(e, s, a, k);
  }

  /** Step `j` had a reason to thaw the account for its present owner, and it stayed thawed since. */
  ghost predicate JustifiedBy<D>(e: Env<D>, states: seq<State<D>>, actions: seq<Action<D>>, n: nat, k: Key, j: nat)
    requires |states| == |actions| + 1 && n <= |actions| && Thawed(states[n], k)
  {
    && j < n
    && Grants(e, states[j], actions[j], k, states[n].accounts[k].owner)
    && (actions[j].RecoverM? || states[n].accounts[k].immutableOwner)
    && forall m :: j < m <= n ==> Thawed(states[m], k)
  }

  /** From an all-frozen start, over a mint that opens accounts frozen (initialization accepts no
      other), every account thawed at any point of any run was thawed by a
      step with a reason and never frozen since: it belongs to the portal or swap authority of
      that step, or its owner proved membership in that step's root, or it was the destination
      of an admin recover. Except for the last kind its owner can no longer change. */
  lemma {:induction false} ThawedIsJustified<D>(e: Env<D>, states: seq<State<D>>, actions: seq<Action<D>>, n: nat,
                                                k: Key)
      returns (j: nat)
    requires IsRun(e, states, actions) && n <= |actions| && Thawed(states[n], k)
    requires e.mint.defaultFrozen == Some(true) && forall x :: !Thawed(states[0], x)
    ensures JustifiedBy(e, states, actions, n, k, j)
    decreases n
  {
    hide Step;
    var s, a, t := states[n - 1], actions[n - 1], states[n];
    assert Step(e, s, a) == Accepted(states[n - 1 + 1]);
    StepExplained(e, s, a, k);
    if Grants(e, s, a, k, t.accounts[k].owner) && (a.RecoverM? || t.accounts[k].immutableOwner) {
      j := n - 1;
    } else {
      j := ThawedIsJustified(e, states, actions, n - 1, k);
    }
  }

  /** A reason by membership is real membership, in every key set that has the step's root. */
  lemma {:induction false} GrantedMembersBelong<D(!new)>(e: Env<D>, s: State<D>, a: Action<D>, k: Key, owner: Key,
                                                         keys: seq<Key>)
    requires CollisionFree(e.h) && a.AddRegistrarEarner? && Grants(e, s, a, k, owner)
    requires s.global.value.earnerMerkleRoot == Root(e.h, keys)
    ensures owner in Members(keys)
  {
    InclusionSound(e.h, keys, owner, a.proof);
  }

  // ---------------------------------------------------------------- who controls what

  /** An action that puts this root in force: the portal authority's, with a root that is not zero and
      an index that is not stale, or the initialization. */
  ghost predicate PutsInForce<D>(e: Env<D>, s: State<D>, a: Action<D>, root: D) {
    match a
    case PropagateIndex(signer, index, sent, _) =>
      && s.global.Some? && signer == s.global.value.portalAuthority
      && sent == root != e.zeroRoot && C.IndexToMultiplier(e.fl, index) >= s.multiplier
    case Initialize(_, _, _, _, _, _, migration) =>
      s.global.None? && root == (match migration case None => e.zeroRoot case Some(m) => m.root)
    case _ => false
  }

  /** An action that may write the multiplier, and what it writes: a propagation by the portal authority
      in force, or the initialization, which takes a migrated index from the old program. */
  ghost predicate MaySet<D>(e: Env<D>, s: State<D>, a: Action<D>, multiplier: real) {
    match a
    case PropagateIndex(signer, index, _, _) =>
      && s.global.Some? && signer == s.global.value.portalAuthority
      && multiplier == C.IndexToMultiplier(e.fl, index)
    case Initialize(_, index, _, _, _, _, migration) =>
      && s.global.None?
      && multiplier == C.IndexToMultiplier(e.fl, (match migration case None => index case Some(m) => m.index))
    case _ => false
  }

  /** What one step can do to the settings: the multiplier never falls, and rises only by an action that
      may set it; events come only from such propagations; nothing is ever uninitialized; admin and
      swap authority are fixed for good; only the admin replaces the portal authority; and another root
      is in force only after an action that put it there. */
  ghost predicate KeepsControl<D>(e: Env<D>, s: State<D>, a: Action<D>, t: State<D>) {
    && s.multiplier <= t.multiplier
    && (t.multiplier != s.multiplier ==> MaySet(e, s, a, t.multiplier))
    && (t.events != s.events ==>
          && a.PropagateIndex? && MaySet(e, s, a, t.multiplier)
          && t.events == s.events + [IndexUpdate(a.newIndex, a.now, s.supply, s.multiplier, t.multiplier)])
    && (s.global.Some? ==>
          && t.global.Some?
          && t.global.value.admin == s.global.value.admin
          && t.global.value.extSwapGlobalAccount == s.global.value.extSwapGlobalAccount
          && (t.global.value.portalAuthority != s.global.value.portalAuthority ==>
                a.UpdatePortalAuthority? && a.signer == s.global.value.admin
                && t.global.value.portalAuthority == a.newAuthority))
    && (t.global.Some? ==>
          (s.global.Some? && t.global.value.earnerMerkleRoot == s.global.value.earnerMerkleRoot)
          || PutsInForce(e, s, a, t.global.value.earnerMerkleRoot))
  }

  lemma {:induction false} StepKeepsControl<D>(e: Env<D>, s: State<D>, a: Action<D>)
    requires Step(e, s, a).Accepted?
    ensures KeepsControl(e, s, a, Step(e, s, a).value)
  {
    hide C.IndexToMultiplier, VerdictInTree, VerdictNotInTree, SupplyFits;
  }

  /** Step `j` put the root of state `n` in force, and it has been in force ever since. */
  ghost predicate InForceSince<D>(e: Env<D>, states: seq<State<D>>, actions: seq<Action<D>>, n: nat, j: nat)
    requires |states| == |actions| + 1 && n <= |actions| && states[n].global.Some?
  {
    var root := states[n].global.value.earnerMerkleRoot;
    && j < n
    && PutsInForce(e, states[j], actions[j], root)
    && forall m :: j < m <= n ==> states[m].global.Some? && states[m].global.value.earnerMerkleRoot == root
  }

  /** Over every run of a fresh program the root in force comes from initialization or from the portal
      authority of its time, with an index that was not stale then, and has stayed since. */
  lemma {:induction false} RootHasSource<D>(e: Env<D>, states: seq<State<D>>, actions: seq<Action<D>>, n: nat)
      returns (j: nat)
    requires IsRun(e, states, actions) && n <= |actions|
    requires states[0].global.None? && states[n].global.Some?
    ensures InForceSince(e, states, actions, n, j)
    decreases n
  {
    hide Step, PutsInForce;
    var s, a, t := states[n - 1], actions[n - 1], states[n];
    assert Step(e, s, a) == Accepted(states[n - 1 + 1]);
    StepKeepsControl(e, s, a);
    if PutsInForce(e, s, a, t.global.value.earnerMerkleRoot) {
      j := n - 1;
    } else {
      j := RootHasSource(e, states, actions, n - 1);
    }
  }

  /** Step `j` wrote the multiplier of state `n`, and nothing has moved it since. */
  ghost predicate SetSince<D>(e: Env<D>, states: seq<State<D>>, actions: seq<Action<D>>, n: nat, j: nat)
    requires |states| == |actions| + 1 && n <= |actions|
  {
    && j < n
    && states[j].multiplier < states[n].multiplier
    && MaySet(e, states[j], actions[j], states[n].multiplier)
    && forall m :: j < m <= n ==> states[m].multiplier == states[n].multiplier
  }

  /** Over every run, a multiplier above the initial one was written by initialization or by the portal
      authority of its time, from that action's index, and has stayed since. */
  lemma {:induction false} RiseHasSource<D>(e: Env<D>, states: seq<State<D>>, actions: seq<Action<D>>, n: nat)
      returns (j: nat)
    requires IsRun(e, states, actions) && n <= |actions|
    requires states[n].multiplier != states[0].multiplier
    ensures SetSince(e, states, actions, n, j)
    decreases n
  {
    hide Step, MaySet;
    var s, a, t := states[n - 1], actions[n - 1], states[n];
    assert Step(e, s, a) == Accepted(states[n - 1 + 1]);
    StepKeepsControl(e, s, a);
    if t.multiplier != s.multiplier {
      j := n - 1;
    } else {
      j := RiseHasSource(e, states, actions, n - 1);
    }
  }

  /** Event `k` of a run was emitted by a propagation of the portal authority of its time, and reports
      that step's index, clock, supply and multipliers. */
  lemma {:induction false} EventHasSource<D>(e: Env<D>, states: seq<State<D>>, actions: seq<Action<D>>, n: nat, k: nat)
      returns (j: nat)
    requires IsRun(e, states, actions) && n <= |actions| && states[0].events == [] && k < |states[n].events|
    ensures j < n && actions[j].PropagateIndex? && |states[j].events| == k
    ensures states[j].global.Some? && actions[j].signer == states[j].global.value.portalAuthority
    ensures states[n].events[k] == IndexUpdate(actions[j].newIndex, actions[j].now, states[j].supply,
                                               states[j].multiplier, states[j + 1].multiplier)
    decreases n
  {
    hide Step;
    var s, a, t := states[n - 1], actions[n - 1], states[n];
    assert Step(e, s, a) == Accepted(states[n - 1 + 1]);
    StepKeepsControl(e, s, a);
    if k < |s.events| {
      j := EventHasSource(e, states, actions, n - 1, k);
    } else {
      j := n - 1;
    }
  }

  /** Over every run the multiplier never falls, and admin and swap authority never change. */
  lemma {:induction false} RunKeepsControl<D>(e: Env<D>, states: seq<State<D>>, actions: seq<Action<D>>, i: nat, n: nat)
    requires IsRun(e, states, actions) && i <= n <= |actions|
    ensures states[i].multiplier <= states[n].multiplier
    ensures states[i].global.Some? ==>
      && states[n].global.Some?
      && states[n].global.value.admin == states[i].global.value.admin
      && states[n].global.value.extSwapGlobalAccount == states[i].global.value.extSwapGlobalAccount
    decreases n
  {
    hide Step;
    if i < n {
      RunKeepsControl(e, states, actions, i, n - 1);
      assert Step(e, states[n - 1], actions[n - 1]) == Accepted(states[n - 1 + 1]);
      StepKeepsControl(e, states[n - 1], actions[n - 1]);
    }
  }

  // ---------------------------------------------------------------- what the root decides

  /** A root built honestly from these keys is in force. */
  ghost predicate Honest<D>(e: Env<D>, s: State<D>, keys: seq<Key>) {
    && s.global.Some? && s.global.value.earnerMerkleRoot == Root(e.h, keys)
    && Sorted(keys) && |TreeOf(e.h, keys)| - 1 < MAX_LEVELS
  }

  ghost predicate CanAdd<D(!new)>(e: Env<D>, s: State<D>, account: Key, user: Key) {
    exists proof :: Step(e, s, AddRegistrarEarner(account, user, proof)).Accepted?
  }

  ghost predicate CanRemove<D(!new)>(e: Env<D>, s: State<D>, account: Key) {
    exists proofs, neighbors :: Step(e, s, RemoveRegistrarEarner(account, proofs, neighbors)).Accepted?
  }

  lemma {:induction false} AddNeedsProof<D(!new)>(e: Env<D>, s: State<D>, account: Key, user: Key)
    requires s.global.Some?
    ensures CanAdd(e, s, account, user) <==>
      && account in s.accounts && s.accounts[account].owner == user && s.accounts[account].immutableOwner
      && s.accounts[account].frozen && user != ZERO_KEY
      && Includable(e.h, s.global.value.earnerMerkleRoot, user)
  {
    hide VerdictInTree;
    var root := s.global.value.earnerMerkleRoot;
    if CanAdd(e, s, account, user) {
      var proof :| Step(e, s, AddRegistrarEarner(account, user, proof)).Accepted?;
      assert VerdictInTree(e.h, root, user, proof).Ok?;
    }
    if Includable(e.h, root, user) {
      var proof :| VerdictInTree(e.h, root, user, proof).Ok?;
      assert Step(e, s, AddRegistrarEarner(account, user, proof)) == DoAdd(e, s, account, user, proof);
    }
  }

  /** Under an honest root exactly the members' frozen accounts can be thawed by anyone. */
  lemma {:induction false} AddIffMember<D(!new)>(e: Env<D>, s: State<D>, account: Key, user: Key, keys: seq<Key>)
    requires CollisionFree(e.h) && Honest(e, s, keys)
    ensures CanAdd(e, s, account, user) <==>
      && account in s.accounts && s.accounts[account].owner == user && s.accounts[account].immutableOwner
      && s.accounts[account].frozen && user != ZERO_KEY
      && user in Members(keys)
  {
    hide CollisionFree, CanAdd, Includable, Excludable;
    AddNeedsProof(e, s, account, user);
    ChecksDecideMembership(e.h, keys, user);
  }

  lemma {:induction false} RemoveNeedsProof<D(!new)>(e: Env<D>, s: State<D>, account: Key)
    requires s.global.Some?
    ensures CanRemove(e, s, account) <==>
      && Thawed(s, account)
      && s.accounts[account].owner != s.global.value.portalAuthority
      && s.accounts[account].owner != s.global.value.extSwapGlobalAccount
      && Excludable(e.h, s.global.value.earnerMerkleRoot, s.accounts[account].owner)
  {
    hide VerdictNotInTree;
    var root := s.global.value.earnerMerkleRoot;
    if CanRemove(e, s, account) {
      var proofs, neighbors :| Step(e, s, RemoveRegistrarEarner(account, proofs, neighbors)).Accepted?;
      var verdict := VerdictNotInTree(e.h, root, s.accounts[account].owner, proofs, neighbors);
      assert verdict.Ok? && verdict.value == ();
    }
    if account in s.accounts && Excludable(e.h, root, s.accounts[account].owner) {
      var proofs, neighbors :| VerdictNotInTree(e.h, root, s.accounts[account].owner, proofs, neighbors) == Ok(());
      assert Step(e, s, RemoveRegistrarEarner(account, proofs, neighbors))
        == DoRemove(e, s, account, proofs, neighbors);
    }
  }

  /** ... and exactly the unprotected accounts of non-members can be frozen by anyone. */
  lemma {:induction false} RemoveIffNotMember<D(!new)>(e: Env<D>, s: State<D>, account: Key, keys: seq<Key>)
    requires CollisionFree(e.h) && Honest(e, s, keys)
    ensures CanRemove(e, s, account) <==>
      && Thawed(s, account)
      && s.accounts[account].owner != s.global.value.portalAuthority
      && s.accounts[account].owner != s.global.value.extSwapGlobalAccount
      && s.accounts[account].owner !in Members(keys)
  {
    hide CollisionFree, CanRemove, Includable, Excludable;
    RemoveNeedsProof(e, s, account);
    if account in s.accounts {
      ChecksDecideMembership(e.h, keys, s.accounts[account].owner);
    }
  }

  /** Until a root has been propagated nobody can be added or removed: no proof folds to the
      zero root when it is not a hash. */
  lemma {:induction false} ZeroRootDecidesNothing<D(!new)>(e: Env<D>, s: State<D>, account: Key, user: Key)
    requires s.global.Some? && s.global.value.earnerMerkleRoot == e.zeroRoot
    requires (forall k :: e.h.leaf(k) != e.zeroRoot) && (forall l, r :: e.h.node(l, r) != e.zeroRoot)
    ensures !CanAdd(e, s, account, user) && !CanRemove(e, s, account)
  {
  }

  // ---------------------------------------------------------------- balances

  /** What all accounts hold together. */
  ghost function Total(accounts: map<Key, TokenAccount>): nat
    decreases |accounts|
  {
    if accounts == map[] then 0
    else
      var k :| k in accounts;
      accounts[k].amount + Total(accounts - {k})
  }

  lemma {:induction false} TotalWithout(accounts: map<Key, TokenAccount>, k: Key)
    requires k in accounts
    ensures Total(accounts) == accounts[k].amount + Total(accounts - {k})
    decreases |accounts|
  {
    var j :| j in accounts && Total(accounts) == accounts[j].amount + Total(accounts - {j});
    if j != k {
      TotalWithout(accounts - {j}, k);
      TotalWithout(accounts - {k}, j);
      assert accounts - {j} - {k} == accounts - {k} - {j};
    }
  }

  lemma {:induction false} TotalUpdated(accounts: map<Key, TokenAccount>, k: Key, a: TokenAccount)
    ensures Total(accounts[k := a]) == a.amount + Total(accounts - {k})
    ensures Total(accounts) == (if k in accounts then accounts[k].amount else 0) + Total(accounts - {k})
  {
    TotalWithout(accounts[k := a], k);
    assert accounts[k := a] - {k} == accounts - {k};
    if k in accounts {
      TotalWithout(accounts, k);
    } else {
      assert accounts - {k} == accounts;
    }
  }

  /** No call of the token program that the steps are made of changes the total. */
  lemma {:induction false} CallsKeepTotal(mint: MintConfig, accounts: map<Key, TokenAccount>, a: Key, b: Key,
                                          owner: Key, amount: nat)
    ensures Freeze(accounts, a).Accepted? ==> Total(Freeze(accounts, a).value) == Total(accounts)
    ensures Thaw(accounts, a).Accepted? ==> Total(Thaw(accounts, a).value) == Total(accounts)
    ensures EnsureAssociated(mint, accounts, a, owner).Accepted? ==>
      Total(EnsureAssociated(mint, accounts, a, owner).value) == Total(accounts)
    ensures EnsureAssociated(mint, accounts, a, owner).Accepted? ==>
      EnsureAssociated(mint, accounts, a, owner).value.Keys == accounts.Keys + {a}
    ensures Move(accounts, a, b, amount).Accepted? ==> Total(Move(accounts, a, b, amount).value) == Total(accounts)
  {
    hide Total;
    if a in accounts {
      TotalUpdated(accounts, a, accounts[a].(frozen := true));
      TotalUpdated(accounts, a, accounts[a].(frozen := false));
    } else {
      TotalUpdated(accounts, a, TokenAccount(owner, OpensFrozen(mint), 0, true));
    }
    if Move(accounts, a, b, amount).Accepted? {
      var debited := accounts[a := accounts[a].(amount := accounts[a].amount - amount)];
      TotalUpdated(accounts, a, debited[a]);
      TotalUpdated(debited, b, debited[b].(amount := debited[b].amount + amount));
    }
  }

  lemma {:induction false} InitializeKeepsTotal<D>(e: Env<D>, s: State<D>, a: Action<D>)
    requires a.Initialize? && Step(e, s, a).Accepted?
    ensures Total(Step(e, s, a).value.accounts) == Total(s.accounts)
  {
    hide Total, Thaw, EnsureAssociated, C.IndexToMultiplier, SupplyFits, MintReady, DecimalsFit;
    var a1 := EnsureAssociated(e.mint, s.accounts, a.portalAccount, a.portal).value;
    var a2 := EnsureAssociated(e.mint, a1, a.extSwapAccount, a.extSwap).value;
    CallsKeepTotal(e.mint, s.accounts, a.portalAccount, 0, a.portal, 0);
    CallsKeepTotal(e.mint, a1, a.extSwapAccount, 0, a.extSwap, 0);
    CallsKeepTotal(e.mint, a2, a.portalAccount, 0, 0, 0);
    CallsKeepTotal(e.mint, ThawIfFrozen(a2, a.portalAccount).value, a.extSwapAccount, 0, 0, 0);
  }

  lemma {:induction false} RecoverKeepsTotal<D>(e: Env<D>, s: State<D>, a: Action<D>)
    requires a.RecoverM? && Step(e, s, a).Accepted?
    ensures Total(Step(e, s, a).value.accounts) == Total(s.accounts)
  {
    hide Total, DoRecover;
    RecoverMovesBalance(s, a.signer, a.source, a.destination, a.amount);
    var x, y := s.accounts[a.source], s.accounts[a.destination];
    var moved := match a.amount case None => x.amount case Some(n) => n;
    var debited := s.accounts[a.source := x.(amount := x.amount - moved)];
    TotalUpdated(s.accounts, a.source, debited[a.source]);
    TotalUpdated(debited, a.destination, y.(amount := y.amount + moved, frozen := false));
  }

  lemma {:induction false} AuthorityKeepsTotal<D>(e: Env<D>, s: State<D>, a: Action<D>)
    requires a.UpdatePortalAuthority? && Step(e, s, a).Accepted?
    ensures Total(Step(e, s, a).value.accounts) == Total(s.accounts)
  {
    hide Total, Thaw, EnsureAssociated;
    var a1 := EnsureAssociated(e.mint, s.accounts, a.portalAccount, a.newAuthority).value;
    CallsKeepTotal(e.mint, s.accounts, a.portalAccount, 0, a.newAuthority, 0);
    CallsKeepTotal(e.mint, a1, a.portalAccount, 0, 0, 0);
  }

  lemma {:induction false} TokenKeepsTotal<D>(e: Env<D>, s: State<D>, a: Action<D>)
    requires a.OpenAccount? || a.CloseAccount? || a.SetOwner? || a.Transfer?
    requires Step(e, s, a).Accepted?
    ensures Total(Step(e, s, a).value.accounts) == Total(s.accounts)
  {
    hide Total, Move;
    match a
    case OpenAccount(k, owner, fixed) =>
      TotalUpdated(s.accounts, k, TokenAccount(owner, OpensFrozen(e.mint), 0, fixed));
    case CloseAccount(k) => TotalWithout(s.accounts, k);
    case SetOwner(k, owner) => TotalUpdated(s.accounts, k, s.accounts[k].(owner := owner));
    case Transfer(x, y, n) => CallsKeepTotal(e.mint, s.accounts, x, y, 0, n);
  }

  lemma {:induction false} EarnerKeepsTotal<D>(e: Env<D>, s: State<D>, a: Action<D>)
    requires a.PropagateIndex? || a.AddRegistrarEarner? || a.RemoveRegistrarEarner?
    requires Step(e, s, a).Accepted?
    ensures Total(Step(e, s, a).value.accounts) == Total(s.accounts)
  {
    hide Total, Freeze, Thaw, VerdictInTree, VerdictNotInTree;
    if !a.PropagateIndex? {
      CallsKeepTotal(e.mint, s.accounts, a.account, 0, 0, 0);
    }
  }

  /** Over every run, with transfers, recoveries, openings and closings in between, the accounts together
      hold what they held: tokens are moved, never made or lost. */
  lemma {:induction false} RunKeepsTotal<D>(e: Env<D>, states: seq<State<D>>, actions: seq<Action<D>>, n: nat)
    requires IsRun(e, states, actions) && n <= |actions|
    ensures Total(states[n].accounts) == Total(states[0].accounts)
    decreases n
  {
    hide Step, Total;
    if n > 0 {
      var s, a := states[n - 1], actions[n - 1];
      RunKeepsTotal(e, states, actions, n - 1);
      assert Step(e, s, a) == Accepted(states[n - 1 + 1]);
      match a
      case Initialize(_, _, _, _, _, _, _) => InitializeKeepsTotal(e, s, a);
      case RecoverM(_, _, _, _) => RecoverKeepsTotal(e, s, a);
      case UpdatePortalAuthority(_, _, _) => AuthorityKeepsTotal(e, s, a);
      case PropagateIndex(_, _, _, _) => EarnerKeepsTotal(e, s, a);
      case AddRegistrarEarner(_, _, _) => EarnerKeepsTotal(e, s, a);
      case RemoveRegistrarEarner(_, _, _) => EarnerKeepsTotal(e, s, a);
      case _ => TokenKeepsTotal(e, s, a);
    }
  }

  /** A new account is empty, belongs to whom it was opened for, and starts in the mint's default state. */
  lemma {:induction false} OpenedAccount<D>(e: Env<D>, s: State<D>, k: Key, owner: Key, fixed: bool)
    requires Step(e, s, OpenAccount(k, owner, fixed)).Accepted?
    ensures k !in s.accounts
    ensures Step(e, s, OpenAccount(k, owner, fixed)).value
      == s.(accounts := s.accounts[k := TokenAccount(owner, e.mint.defaultFrozen == Some(true), 0, fixed)])
  {
  }

  /** A frozen account keeps its owner, and its tokens move only by an admin recover. */
  lemma {:induction false} FrozenBalanceStays<D>(e: Env<D>, s: State<D>, a: Action<D>, k: Key)
    requires Step(e, s, a).Accepted? && k in s.accounts && s.accounts[k].frozen && !a.RecoverM?
    ensures var t := Step(e, s, a).value;
      k in t.accounts ==>
        && t.accounts[k].amount == s.accounts[k].amount
        && t.accounts[k].owner == s.accounts[k].owner
        && t.accounts[k].immutableOwner == s.accounts[k].immutableOwner
    ensures k !in Step(e, s, a).value.accounts ==> s.accounts[k].amount == 0
  {
    hide VerdictInTree, VerdictNotInTree;
    match a
    case Initialize(_, _, _, _, _, _, _) =>
    case _ =>
  }
}
