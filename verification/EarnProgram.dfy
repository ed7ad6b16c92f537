/** The earn program: its six instructions on global state, mint and token accounts, and the
    token-program steps anybody may take in between. */
module EarnProgram {
  import opened Wrappers
  import opened MerkleLevels
  import opened MerkleVerifier
  import opened Float64
  import C = Conversion

  type u64 = C.u64

  datatype TokenAccount = TokenAccount(owner: Key, frozen: bool, amount: nat, immutableOwner: bool)

  datatype IndexUpdate = IndexUpdate(index: u64, ts: int, supply: u64, currentMultiplier: real, newMultiplier: real)

  /** How the mint was set up: its extensions' authorities (None without the extension), the state
      that new accounts start in, and its freeze authority. */
  datatype MintConfig = MintConfig(decimals: nat, scaledUiAuthority: Option<Key>, defaultFrozen: Option<bool>,
                                   freezeAuthority: Option<Key>, permanentDelegate: Option<Key>)

  /** Hash functions, the all-zero root, the rounding of doubles, the mint and the program's own address. */
  datatype Env<!D> = Env(h: Hasher<D>, zeroRoot: D, fl: real -> real, mint: MintConfig, globalKey: Key)

  datatype Global<+D> = Global(admin: Key, portalAuthority: Key, extSwapGlobalAccount: Key, earnerMerkleRoot: D)

  /** `global` is None until the program is initialized. */
  datatype State<D> = State(global: Option<Global<D>>, multiplier: real, supply: u64,
                            accounts: map<Key, TokenAccount>, events: seq<IndexUpdate>)

  datatype Error = NotAuthorized | InvalidParam | InvalidAccount | MutableOwner | InvalidMint | BadProof | Aborted
                 | TokenProgramError | AccountConstraint

  datatype Result<+T> = Accepted(value: T) | Rejected(error: Error)

  /** The migrate build takes index, time, root and supply from the old program. */
  datatype Migration<D> = Migration(root: D, index: u64, timestamp: int, oldSupply: u64, oldDecimals: nat)

  datatype Action<D> =
    | Initialize(signer: Key, currentIndex: u64, portal: Key, extSwap: Key, portalAccount: Key, extSwapAccount: Key,
                 migration: Option<Migration<D>>)
    | PropagateIndex(signer: Key, newIndex: u64, root: D, now: int)
    | AddRegistrarEarner(account: Key, user: Key, proof: seq<ProofElement<D>>)
    | RemoveRegistrarEarner(account: Key, proofs: seq<seq<ProofElement<D>>>, neighbors: seq<Key>)
    | RecoverM(signer: Key, source: Key, destination: Key, amount: Option<u64>)
    | UpdatePortalAuthority(signer: Key, newAuthority: Key, portalAccount: Key)
    | OpenAccount(account: Key, owner: Key, immutableOwner: bool)
    | CloseAccount(account: Key)
    | SetOwner(account: Key, newOwner: Key)
    | Transfer(source: Key, destination: Key, moved: nat)

  // ---------------------------------------------------------------- token program

  function Freeze(accounts: map<Key, TokenAccount>, a: Key): Result<map<Key, TokenAccount>> {
    if a !in accounts || accounts[a].frozen then Rejected(TokenProgramError)
    else Accepted(accounts[a := accounts[a].(frozen := true)])
  }

  function Thaw(accounts: map<Key, TokenAccount>, a: Key): Result<map<Key, TokenAccount>> {
    if a !in accounts || !accounts[a].frozen then Rejected(TokenProgramError)
    else Accepted(accounts[a := accounts[a].(frozen := false)])
  }

  function Move(accounts: map<Key, TokenAccount>, source: Key, destination: Key,
                amount: nat): Result<map<Key, TokenAccount>>
  {
    if source !in accounts || destination !in accounts || accounts[source].frozen || accounts[destination].frozen
       || amount > accounts[source].amount then Rejected(TokenProgramError)
    else
      var debited := accounts[source := accounts[source].(amount := accounts[source].amount - amount)];
      Accepted(debited[destination := debited[destination].(amount := debited[destination].amount + amount)])
  }

  /** New accounts start frozen only if the mint says so. */
  predicate OpensFrozen(mint: MintConfig) {
    mint.defaultFrozen == Some(true)
  }

  /** `init_if_needed` on an associated account: created in the mint's default state and with an
      immutable owner, as associated accounts are. */
  function EnsureAssociated(mint: MintConfig, accounts: map<Key, TokenAccount>, a: Key,
                            owner: Key): Result<map<Key, TokenAccount>>
  {
    if a !in accounts then Accepted(accounts[a := TokenAccount(owner, OpensFrozen(mint), 0, true)])
    else if accounts[a].owner != owner || !accounts[a].immutableOwner then Rejected(AccountConstraint)
    else Accepted(accounts)
  }

  function ThawIfFrozen(accounts: map<Key, TokenAccount>, a: Key): Result<map<Key, TokenAccount>>
    requires a in accounts
  {
    if accounts[a].frozen then Thaw(accounts, a) else Accepted(accounts)
  }

  /** Both accounts of an initialization. */
  function EnsureBoth(mint: MintConfig, accounts: map<Key, TokenAccount>, a: Key, ownerOfA: Key, b: Key,
                      ownerOfB: Key): (r: Result<map<Key, TokenAccount>>)
    ensures r.Rejected? ==> r.error == AccountConstraint
  {
    match EnsureAssociated(mint, accounts, a, ownerOfA)
    case Rejected(x) => Rejected(x)
    case Accepted(first) => EnsureAssociated(mint, first, b, ownerOfB)
  }

  /** Both account states are loaded before the first thaw. */
  function ThawBoth(accounts: map<Key, TokenAccount>, a: Key, b: Key): (r: Result<map<Key, TokenAccount>>)
    requires a in accounts && b in accounts
    ensures r.Rejected? ==> r.error == TokenProgramError
  {
    match ThawIfFrozen(accounts, a)
    case Rejected(x) => Rejected(x)
    case Accepted(thawed) => if accounts[b].frozen then Thaw(thawed, b) else Accepted(thawed)
  }

  // ---------------------------------------------------------------- instructions

  /** Only a strictly larger multiplier is written. */
  function UpdateMultiplier(current: real, multiplier: real): real {
    if multiplier > current then multiplier else current
  }

  function InitialIndex<D>(currentIndex: u64, migration: Option<Migration<D>>): u64 {
    match migration case None => currentIndex case Some(m) => m.index
  }

  const DECIMALS: nat := 6

  /** The account constraints on the mint, and on the old one when migrating. */
  predicate DecimalsFit<D>(mint: MintConfig, migration: Option<Migration<D>>) {
    mint.decimals == DECIMALS && (migration.Some? ==> migration.value.oldDecimals == mint.decimals)
  }

  /** The program must control multiplier, freezing and transfers, and accounts must start frozen. */
  predicate MintReady<D>(e: Env<D>) {
    && e.mint.scaledUiAuthority == Some(e.globalKey)
    && e.mint.defaultFrozen == Some(true)
    && e.mint.freezeAuthority == Some(e.globalKey)
    && e.mint.permanentDelegate == Some(e.globalKey)
  }

  function DoInitialize<D>(e: Env<D>, s: State<D>, signer: Key, currentIndex: u64, portal: Key, extSwap: Key,
                           portalAccount: Key, extSwapAccount: Key, migration: Option<Migration<D>>): Result<State<D>>
  {
    if s.global.Some? || !DecimalsFit(e.mint, migration) then Rejected(AccountConstraint)
    else
      match EnsureBoth(e.mint, s.accounts, portalAccount, portal, extSwapAccount, extSwap)
      case Rejected(x) => Rejected(x)
      case Accepted(ready) =>
        var target := C.IndexToMultiplier(e.fl, InitialIndex(currentIndex, migration));
        if !MintReady(e) || s.multiplier > target then Rejected(InvalidMint)
        else
          var root := match migration case None => e.zeroRoot case Some(m) => m.root;
          var multiplier := UpdateMultiplier(s.multiplier, target);
          if migration.Some? && !SupplyFits(e.fl, s.supply, multiplier, migration.value.oldSupply)
          then Rejected(InvalidMint)
          else
            match ThawBoth(ready, portalAccount, extSwapAccount)
            case Rejected(x) => Rejected(x)
            case Accepted(thawed) =>
              Accepted(State(Some(Global(signer, portal, extSwap, root)), multiplier, s.supply, thawed, s.events))
  }

  /** The migrated supply, scaled up, must not exceed the old one; a failed conversion rejects too. */
  predicate SupplyFits(fl: real -> real, supply: u64, multiplier: real, oldSupply: u64) {
    match C.PrincipalToAmountUp(fl, supply, multiplier)
    case Ok(amount) => amount <= oldSupply
    case _ => false
  }

  function DoPropagateIndex<D(==)>(e: Env<D>, s: State<D>, signer: Key, newIndex: u64, root: D,
                                   now: int): Result<State<D>>
  {
    if s.global.None? then Rejected(AccountConstraint)
    else if signer != s.global.value.portalAuthority then Rejected(NotAuthorized)
    else
      var newMultiplier := C.IndexToMultiplier(e.fl, newIndex);
      if newMultiplier >= s.multiplier then
        var g := if root != e.zeroRoot then s.global.value.(earnerMerkleRoot := root) else s.global.value;
        if newMultiplier > s.multiplier then
          var written := UpdateMultiplier(s.multiplier, newMultiplier);
          Accepted(s.(global := Some(g), multiplier := written,
                      events := s.events + [IndexUpdate(newIndex, now, s.supply, s.multiplier, written)]))
        else Accepted(s.(global := Some(g)))
      else Accepted(s)
  }

  function DoAdd<D(==)>(e: Env<D>, s: State<D>, account: Key, user: Key,
                        proof: seq<ProofElement<D>>): Result<State<D>>
  {
    if s.global.None? || account !in s.accounts || s.accounts[account].owner != user then Rejected(AccountConstraint)
    else if !s.accounts[account].immutableOwner then Rejected(MutableOwner)
    else if !s.accounts[account].frozen then Rejected(InvalidAccount)
    else if user == ZERO_KEY then Rejected(InvalidParam)
    else
      match VerdictInTree(e.h, s.global.value.earnerMerkleRoot, user, proof)
      case InvalidProof => Rejected(BadProof)
      case Abort => Rejected(Aborted)
      case Ok(_) =>
        match Thaw(s.accounts, account)
        case Rejected(x) => Rejected(x)
        case Accepted(accounts) => Accepted(s.(accounts := accounts))
  }

  function DoRemove<D(==)>(e: Env<D>, s: State<D>, account: Key, proofs: seq<seq<ProofElement<D>>>,
                           neighbors: seq<Key>): Result<State<D>>
  {
    if s.global.None? || account !in s.accounts then Rejected(AccountConstraint)
    else if s.accounts[account].frozen then Rejected(InvalidAccount)
    else
      var g, owner := s.global.value, s.accounts[account].owner;
      match VerdictNotInTree(e.h, g.earnerMerkleRoot, owner, proofs, neighbors)
      case InvalidProof => Rejected(BadProof)
      case Abort => Rejected(Aborted)
      case Ok(_) =>
        if owner == g.portalAuthority || owner == g.extSwapGlobalAccount then Rejected(NotAuthorized)
        else
          match Freeze(s.accounts, account)
          case Rejected(x) => Rejected(x)
          case Accepted(accounts) => Accepted(s.(accounts := accounts))
  }

  function DoRecover<D>(s: State<D>, signer: Key, source: Key, destination: Key,
                        amount: Option<u64>): Result<State<D>>
  {
    if s.global.None? then Rejected(AccountConstraint)
    else if signer != s.global.value.admin then Rejected(NotAuthorized)
    else if source !in s.accounts || destination !in s.accounts then Rejected(AccountConstraint)
    else if !s.accounts[source].frozen then Rejected(InvalidAccount)
    else
      var recovered := match amount case None => s.accounts[source].amount case Some(x) => x;
      match Thaw(s.accounts, source)
      case Rejected(x) => Rejected(x)
      case Accepted(a1) =>
        // the destination's state was loaded before the source was thawed
        match (if s.accounts[destination].frozen then Thaw(a1, destination) else Accepted(a1))
        case Rejected(x) => Rejected(x)
        case Accepted(a2) =>
          match Move(a2, source, destination, recovered)
          case Rejected(x) => Rejected(x)
          case Accepted(a3) =>
            match Freeze(a3, source)
            case Rejected(x) => Rejected(x)
            case Accepted(a4) => Accepted(s.(accounts := a4))
  }

  function DoUpdatePortalAuthority<D>(e: Env<D>, s: State<D>, signer: Key, newAuthority: Key,
                                      portalAccount: Key): Result<State<D>>
  {
    if s.global.None? then Rejected(AccountConstraint)
    else if signer != s.global.value.admin then Rejected(NotAuthorized)
    else
      match EnsureAssociated(e.mint, s.accounts, portalAccount, newAuthority)
      case Rejected(x) => Rejected(x)
      case Accepted(a1) =>
        match ThawIfFrozen(a1, portalAccount)
        case Rejected(x) => Rejected(x)
        case Accepted(a2) =>
          Accepted(s.(global := Some(s.global.value.(portalAuthority := newAuthority)), accounts := a2))
  }

  /** What the token program lets account owners do on their own. */
  function DoToken<D>(e: Env<D>, s: State<D>, a: Action<D>): Result<State<D>>
    requires a.OpenAccount? || a.CloseAccount? || a.SetOwner? || a.Transfer?
  {
    match a
    case OpenAccount(k, owner, fixed) =>
      if k in s.accounts then Rejected(TokenProgramError)
      else Accepted(s.(accounts := s.accounts[k := TokenAccount(owner, OpensFrozen(e.mint), 0, fixed)]))
    case CloseAccount(k) =>
      if k !in s.accounts || s.accounts[k].amount != 0 then Rejected(TokenProgramError)
      else Accepted(s.(accounts := s.accounts - {k}))
    case SetOwner(k, owner) =>
      if k !in s.accounts || s.accounts[k].frozen || s.accounts[k].immutableOwner then Rejected(TokenProgramError)
      else Accepted(s.(accounts := s.accounts[k := s.accounts[k].(owner := owner)]))
    case Transfer(x, y, n) =>
      match Move(s.accounts, x, y, n)
      case Rejected(err) => Rejected(err)
      case Accepted(accounts) => Accepted(s.(accounts := accounts))
  }

  function Step<D(==)>(e: Env<D>, s: State<D>, a: Action<D>): Result<State<D>> {
    match a
    case Initialize(signer, index, portal, ext, pa, ea, m) => DoInitialize(e, s, signer, index, portal, ext, pa, ea, m)
    case PropagateIndex(signer, index, root, now) => DoPropagateIndex(e, s, signer, index, root, now)
    case AddRegistrarEarner(account, user, proof) => DoAdd(e, s, account, user, proof)
    case RemoveRegistrarEarner(account, proofs, neighbors) => DoRemove(e, s, account, proofs, neighbors)
    case RecoverM(signer, source, destination, amount) => DoRecover(s, signer, source, destination, amount)
    case UpdatePortalAuthority(signer, authority, account) => DoUpdatePortalAuthority(e, s, signer, authority, account)
    case _ => DoToken(e, s, a)
  }

  // ---------------------------------------------------------------- when instructions succeed

  predicate Thawed<D>(s: State<D>, k: Key) {
    k in s.accounts && !s.accounts[k].frozen
  }

  /** An accepted recover moves the amount between two different accounts, leaves the source
      frozen and the destination thawed, and touches nothing else. */
  lemma {:induction false} RecoverMovesBalance<D>(s: State<D>, signer: Key, source: Key, destination: Key,
                                                  amount: Option<u64>)
    requires DoRecover(s, signer, source, destination, amount).Accepted?
    ensures source != destination && source in s.accounts && destination in s.accounts
    ensures var x, y := s.accounts[source], s.accounts[destination];
      var moved := match amount case None => x.amount case Some(n) => n;
      && x.frozen && moved <= x.amount
      && DoRecover(s, signer, source, destination, amount).value
        == s.(accounts := s.accounts[source := x.(amount := x.amount - moved)]
                                    [destination := y.(amount := y.amount + moved, frozen := false)])
  {
  }

  /** Recover is accepted for the admin alone, from a frozen account to a different one, up to its balance. */
  lemma {:induction false} RecoverAcceptedIff<D>(s: State<D>, signer: Key, source: Key, destination: Key,
                                                 amount: Option<u64>)
    ensures DoRecover(s, signer, source, destination, amount).Accepted? <==>
      && s.global.Some? && signer == s.global.value.admin
      && source in s.accounts && destination in s.accounts && source != destination
      && s.accounts[source].frozen
      && (amount.Some? ==> amount.value <= s.accounts[source].amount)
  {
  }

  /** An associated account that can be created or reused for this owner. */
  predicate Available(accounts: map<Key, TokenAccount>, a: Key, owner: Key) {
    a in accounts ==> accounts[a].owner == owner && accounts[a].immutableOwner
  }

  ghost predicate OnlyThaws(before: map<Key, TokenAccount>, after: map<Key, TokenAccount>, granted: map<Key, Key>) {
    && after.Keys == before.Keys + granted.Keys
    && (forall k :: k in granted ==>
          after[k] == TokenAccount(granted[k], false, if k in before then before[k].amount else 0, true))
    && (forall k :: k in before && k !in granted ==> after[k] == before[k])
  }

  /** The admin alone replaces the portal authority; its account is then thawed, and nothing
      else changes. */
  lemma {:induction false} UpdatePortalAuthorityEffect<D>(e: Env<D>, s: State<D>, signer: Key, authority: Key,
                                                          account: Key)
    ensures var r := DoUpdatePortalAuthority(e, s, signer, authority, account);
      && (r.Accepted? <==>
            s.global.Some? && signer == s.global.value.admin && Available(s.accounts, account, authority))
      && (r.Accepted? ==>
        && r.value == s.(global := Some(s.global.value.(portalAuthority := authority)), accounts := r.value.accounts)
        && OnlyThaws(s.accounts, r.value.accounts, map[account := authority]))
  {
  }

  /** The check on a migrated supply: scaled up by the index it must stay within the old supply. */
  lemma {:induction false} SupplyFitsIff(fl: real -> real, supply: u64, multiplier: real, oldSupply: u64)
    requires Ieee(fl)
    ensures SupplyFits(fl, supply, multiplier, oldSupply)
      <==> supply * C.IndexOf(fl, multiplier) <= oldSupply * C.INDEX_SCALE
  {
    hide Ieee, C.IndexOf;
    C.ScaledWithin(fl, supply, multiplier, oldSupply);
  }

  /** Initialization happens once, only over a mint that the program controls, that opens accounts
      frozen and whose multiplier is not ahead of the index, which a migration takes from the old
      program, and only if a migrated supply fits. The two accounts may be one only if it is thawed
      already. */
  lemma {:induction false} InitializeAcceptedIff<D>(e: Env<D>, s: State<D>, a: Action<D>)
    requires Ieee(e.fl) && a.Initialize?
    ensures var index := match a.migration case None => a.currentIndex case Some(m) => m.index;
      var target := C.IndexToMultiplier(e.fl, index);
      Step(e, s, a).Accepted? <==>
        && s.global.None? && s.multiplier <= target && MintReady(e) && DecimalsFit(e.mint, a.migration)
        && Available(s.accounts, a.portalAccount, a.portal) && Available(s.accounts, a.extSwapAccount, a.extSwap)
        && (a.portalAccount == a.extSwapAccount ==> a.portal == a.extSwap && Thawed(s, a.portalAccount))
        && (a.migration.Some? ==>
              s.supply * C.IndexOf(e.fl, target) <= a.migration.value.oldSupply * C.INDEX_SCALE)
  {
    hide Ieee, C.IndexToMultiplier, C.IndexOf, SupplyFits, DoPropagateIndex, DoAdd, DoRemove, DoRecover,
      DoUpdatePortalAuthority, DoToken;
    if a.migration.Some? {
      SupplyFitsIff(e.fl, s.supply, C.IndexToMultiplier(e.fl, a.migration.value.index), a.migration.value.oldSupply);
    }
  }

  lemma {:induction false} InitializeOnRightMint<D>(e: Env<D>, migration: Option<Migration<D>>)
    ensures MintReady(e) <==>
      && e.mint.scaledUiAuthority == Some(e.globalKey) && e.mint.defaultFrozen == Some(true)
      && e.mint.freezeAuthority == Some(e.globalKey) && e.mint.permanentDelegate == Some(e.globalKey)
    ensures DecimalsFit(e.mint, migration) <==>
      e.mint.decimals == 6 && (migration.Some? ==> migration.value.oldDecimals == 6)
  {
  }

  /** It sets the multiplier to the index's, and leaves exactly the portal and swap accounts
      thawed besides what was thawed before. */
  lemma {:induction false} InitializeEffect<D>(e: Env<D>, s: State<D>, a: Action<D>)
    requires a.Initialize? && Step(e, s, a).Accepted?
    ensures var t := Step(e, s, a).value;
      && t.multiplier
        == C.IndexToMultiplier(e.fl, match a.migration case None => a.currentIndex case Some(m) => m.index)
      && t.supply == s.supply && t.events == s.events
      && t.global == Some(Global(a.signer, a.portal, a.extSwap,
                                 match a.migration case None => e.zeroRoot case Some(m) => m.root))
      && OnlyThaws(s.accounts, t.accounts, map[a.portalAccount := a.portal, a.extSwapAccount := a.extSwap])
  {
    hide C.IndexToMultiplier, SupplyFits, DoPropagateIndex, DoAdd, DoRemove, DoRecover, DoUpdatePortalAuthority,
      DoToken;
  }

  // ---------------------------------------------------------------- the program as an object

  /** The accounts an instruction runs on. An instruction that fails leaves all of them as they were. */
  class Earn<D(==)> {
    const env: Env<D>
    var global: Option<Global<D>>
    var multiplier: real
    var supply: u64
    var accounts: map<Key, TokenAccount>
    var events: seq<IndexUpdate>

    ghost function Fields(): State<D>
      reads this
    {
      State(global, multiplier, supply, accounts, events)
    }

    constructor (env: Env<D>, multiplier: real, supply: u64, accounts: map<Key, TokenAccount>)
      ensures this.env == env && Fields() == State(None, multiplier, supply, accounts, [])
    {
      this.env := env;
      global := None;
      this.multiplier := multiplier;
      this.supply := supply;
      this.accounts := accounts;
      events := [];
    }

    /** The effect that a run of `Step` prescribes: its result, or an error and no change. */
    ghost predicate Answers(before: State<D>, a: Action<D>, r: Option<Error>)
      reads this
    {
      match Step(env, before, a)
      case Accepted(after) => r == None && Fields() == after
      case Rejected(error) => r == Some(error) && Fields() == before
    }

    method FreezeTokenAccount(a: Key) returns (ok: bool)
      modifies `accounts
      ensures ok <==> Freeze(old(accounts), a).Accepted?
      ensures accounts == if ok then Freeze(old(accounts), a).value else old(accounts)
    {
      if a !in accounts || accounts[a].frozen {
        return false;
      }
      accounts := accounts[a := accounts[a].(frozen := true)];
      return true;
    }

    method ThawTokenAccount(a: Key) returns (ok: bool)
      modifies `accounts
      ensures ok <==> Thaw(old(accounts), a).Accepted?
      ensures accounts == if ok then Thaw(old(accounts), a).value else old(accounts)
    {
      if a !in accounts || !accounts[a].frozen {
        return false;
      }
      accounts := accounts[a := accounts[a].(frozen := false)];
      return true;
    }

    method TransferTokens(source: Key, destination: Key, amount: nat) returns (ok: bool)
      modifies `accounts
      ensures ok <==> Move(old(accounts), source, destination, amount).Accepted?
      ensures accounts == if ok then Move(old(accounts), source, destination, amount).value else old(accounts)
    {
      if source !in accounts || destination !in accounts || accounts[source].frozen || accounts[destination].frozen
         || amount > accounts[source].amount {
        return false;
      }
      accounts := accounts[source := accounts[source].(amount := accounts[source].amount - amount)];
      accounts := accounts[destination := accounts[destination].(amount := accounts[destination].amount + amount)];
      return true;
    }

    method InitIfNeeded(a: Key, owner: Key) returns (ok: bool)
      modifies `accounts
      ensures ok <==> EnsureAssociated(env.mint, old(accounts), a, owner).Accepted?
      ensures accounts == if ok then EnsureAssociated(env.mint, old(accounts), a, owner).value else old(accounts)
    {
      if a !in accounts {
        accounts := accounts[a := TokenAccount(owner, OpensFrozen(env.mint), 0, true)];
      } else if accounts[a].owner != owner || !accounts[a].immutableOwner {
        return false;
      }
      return true;
    }

    method InitBothIfNeeded(a: Key, ownerOfA: Key, b: Key, ownerOfB: Key) returns (ok: bool)
      modifies `accounts
      ensures ok <==> EnsureBoth(env.mint, old(accounts), a, ownerOfA, b, ownerOfB).Accepted?
      ensures ok ==> a in accounts && b in accounts
      ensures accounts ==
        if ok then EnsureBoth(env.mint, old(accounts), a, ownerOfA, b, ownerOfB).value else old(accounts)
    {
      var saved := accounts;
      ok := InitIfNeeded(a, ownerOfA);
      if ok {
        ok := InitIfNeeded(b, ownerOfB);
      }
      if !ok {
        accounts := saved;
      }
    }

    method ThawBothIfFrozen(a: Key, b: Key) returns (ok: bool)
      requires a in accounts && b in accounts
      modifies `accounts
      ensures ok <==> ThawBoth(old(accounts), a, b).Accepted?
      ensures ok ==> accounts == ThawBoth(old(accounts), a, b).value
    {
      ok := true;
      var frozen := accounts[b].frozen;
      if accounts[a].frozen {
        ok := ThawTokenAccount(a);
      }
      if frozen {
        ok := ThawTokenAccount(b);
      }
    }

    /** `update_multiplier` on the mint: afterwards the multiplier is at least what was asked for, it
        has not fallen, and it is one of the two. */
    method SetMultiplier(target: real)
      modifies `multiplier
      ensures multiplier >= old(multiplier) && multiplier >= target
      ensures multiplier == old(multiplier) || multiplier == target
    {
      if target > multiplier {
        multiplier := target;
      }
    }

    method HandlePropagateIndex(signer: Key, newIndex: u64, root: D, now: int) returns (r: Option<Error>)
      modifies this
      ensures Answers(old(Fields()), PropagateIndex(signer, newIndex, root, now), r)
      ensures r.None? <==> old(global).Some? && signer == old(global).value.portalAuthority
      ensures r.Some? ==> Fields() == old(Fields())
      ensures Fields() == old(Fields()).(global := global, multiplier := multiplier, events := events)
      ensures r.None? ==>
        var asked := C.IndexToMultiplier(env.fl, newIndex);
        && multiplier >= old(multiplier) && multiplier >= asked && multiplier in {old(multiplier), asked}
        && global == if root != env.zeroRoot && asked >= old(multiplier)
                     then Some(old(global).value.(earnerMerkleRoot := root)) else old(global)
      ensures if multiplier == old(multiplier) then events == old(events)
              else events == old(events) + [IndexUpdate(newIndex, now, supply, old(multiplier), multiplier)]
    {
      if global.None? {
        return Some(AccountConstraint);
      }
      if signer != global.value.portalAuthority {
        return Some(NotAuthorized);
      }
      var currentMultiplier := multiplier;
      var newMultiplier := C.IndexToMultiplier(env.fl, newIndex);
      if newMultiplier >= currentMultiplier {
        if root != env.zeroRoot {
          global := Some(global.value.(earnerMerkleRoot := root));
        }
        if newMultiplier > currentMultiplier {
          SetMultiplier(newMultiplier);
          events := events + [IndexUpdate(newIndex, now, supply, currentMultiplier, multiplier)];
        }
      }
      return None;
    }

    method HandleAdd(account: Key, user: Key, proof: seq<ProofElement<D>>) returns (r: Option<Error>)
      modifies this
      ensures Answers(old(Fields()), AddRegistrarEarner(account, user, proof), r)
      ensures Fields() == old(Fields()).(accounts := accounts)
      ensures accounts == if r.Some? || account !in old(accounts) then old(accounts)
                          else old(accounts)[account := old(accounts)[account].(frozen := false)]
      ensures r.None? <==>
        && account in old(accounts) && old(accounts)[account].frozen
        && old(accounts)[account].owner == user != ZERO_KEY && old(accounts)[account].immutableOwner
        && global.Some? && VerdictInTree(env.h, global.value.earnerMerkleRoot, user, proof).Ok?
    {
      if global.None? || account !in accounts || accounts[account].owner != user {
        return Some(AccountConstraint);
      }
      if !accounts[account].immutableOwner {
        return Some(MutableOwner);
      }
      if !accounts[account].frozen {
        return Some(InvalidAccount);
      }
      if user == ZERO_KEY {
        return Some(InvalidParam);
      }
      var verdict := VerifyInTree(env.h, global.value.earnerMerkleRoot, user, proof);
      if verdict.InvalidProof? {
        return Some(BadProof);
      }
      if verdict.Abort? {
        return Some(Aborted);
      }
      var ok := ThawTokenAccount(account);
      return None;
    }

    method HandleRemove(account: Key, proofs: seq<seq<ProofElement<D>>>, neighbors: seq<Key>) returns (r: Option<Error>)
      modifies this
      ensures Answers(old(Fields()), RemoveRegistrarEarner(account, proofs, neighbors), r)
      ensures Fields() == old(Fields()).(accounts := accounts)
      ensures accounts == if r.Some? || account !in old(accounts) then old(accounts)
                          else old(accounts)[account := old(accounts)[account].(frozen := true)]
      ensures r.None? <==>
        && account in old(accounts) && !old(accounts)[account].frozen && global.Some?
        && old(accounts)[account].owner !in {global.value.portalAuthority, global.value.extSwapGlobalAccount}
        && VerdictNotInTree(env.h, global.value.earnerMerkleRoot, old(accounts)[account].owner,
                            proofs, neighbors) == Ok(())
    {
      if global.None? || account !in accounts {
        return Some(AccountConstraint);
      }
      if accounts[account].frozen {
        return Some(InvalidAccount);
      }
      var owner := accounts[account].owner;
      var verdict := VerdictNotInTree(env.h, global.value.earnerMerkleRoot, owner, proofs, neighbors);
      if verdict.InvalidProof? {
        return Some(BadProof);
      }
      if verdict.Abort? {
        return Some(Aborted);
      }
      if owner == global.value.portalAuthority || owner == global.value.extSwapGlobalAccount {
        return Some(NotAuthorized);
      }
      var ok := FreezeTokenAccount(account);
      return None;
    }

    /** Thaw, transfer, freeze again; a failure anywhere undoes the steps before it. */
    method HandleRecover(signer: Key, source: Key, destination: Key, amount: Option<u64>) returns (r: Option<Error>)
      modifies this
      ensures Answers(old(Fields()), RecoverM(signer, source, destination, amount), r)
      ensures Fields() == old(Fields()).(accounts := accounts)
      ensures r.Some? ==> accounts == old(accounts)
      ensures r.None? <==>
        && global.Some? && signer == global.value.admin
        && source in old(accounts) && destination in old(accounts) && source != destination
        && old(accounts)[source].frozen && (amount.Some? ==> amount.value <= old(accounts)[source].amount)
      ensures r.None? ==>
        var x, y := old(accounts)[source], old(accounts)[destination];
        var moved := match amount case None => x.amount case Some(n) => n;
        accounts == old(accounts)[source := x.(amount := x.amount - moved)]
                                 [destination := y.(amount := y.amount + moved, frozen := false)]
    {
      RecoverAcceptedIff(Fields(), signer, source, destination, amount);
      if DoRecover(Fields(), signer, source, destination, amount).Accepted? {
        RecoverMovesBalance(Fields(), signer, source, destination, amount);
      }
      if global.None? {
        return Some(AccountConstraint);
      }
      if signer != global.value.admin {
        return Some(NotAuthorized);
      }
      if source !in accounts || destination !in accounts {
        return Some(AccountConstraint);
      }
      if !accounts[source].frozen {
        return Some(InvalidAccount);
      }
      var saved := accounts;
      var recovered := if amount.None? then accounts[source].amount else amount.value;
      var destinationFrozen := accounts[destination].frozen;
      var ok := ThawTokenAccount(source);
      if ok && destinationFrozen {
        ok := ThawTokenAccount(destination);
      }
      if ok {
        ok := TransferTokens(source, destination, recovered);
      }
      if ok {
        ok := FreezeTokenAccount(source);
      }
      if !ok {
        accounts := saved;
        return Some(TokenProgramError);
      }
      return None;
    }

    method HandleUpdatePortalAuthority(signer: Key, newAuthority: Key, portalAccount: Key) returns (r: Option<Error>)
      modifies this
      ensures Answers(old(Fields()), UpdatePortalAuthority(signer, newAuthority, portalAccount), r)
      ensures Fields() == old(Fields()).(global := global, accounts := accounts)
      ensures r.Some? ==> global == old(global) && accounts == old(accounts)
      ensures r.None? <==>
        old(global).Some? && signer == old(global).value.admin && Available(old(accounts), portalAccount, newAuthority)
      ensures r.None? ==>
        && global == Some(old(global).value.(portalAuthority := newAuthority))
        && OnlyThaws(old(accounts), accounts, map[portalAccount := newAuthority])
    {
      hide OnlyThaws, Available;
      UpdatePortalAuthorityEffect(env, Fields(), signer, newAuthority, portalAccount);
      if global.None? {
        return Some(AccountConstraint);
      }
      if signer != global.value.admin {
        return Some(NotAuthorized);
      }
      var ok := InitIfNeeded(portalAccount, newAuthority);
      if !ok {
        return Some(AccountConstraint);
      }
      global := Some(global.value.(portalAuthority := newAuthority));
      if accounts[portalAccount].frozen {
        ok := ThawTokenAccount(portalAccount);
      }
      return None;
    }

    /** `Initialize::validate`; every failing check is the same error. */
    method ValidateMint(target: real) returns (ok: bool)
      ensures ok <==> MintReady(env) && multiplier <= target
    {
      if env.mint.scaledUiAuthority != Some(env.globalKey) {
        return false;
      }
      if multiplier > target {
        return false;
      }
      if env.mint.defaultFrozen != Some(true) {
        return false;
      }
      if env.mint.freezeAuthority != Some(env.globalKey) {
        return false;
      }
      return env.mint.permanentDelegate == Some(env.globalKey);
    }

    method HandleInitialize(signer: Key, currentIndex: u64, portal: Key, extSwap: Key, portalAccount: Key,
                            extSwapAccount: Key, migration: Option<Migration<D>>) returns (r: Option<Error>)
      modifies this
      ensures Answers(old(Fields()),
                      Initialize(signer, currentIndex, portal, extSwap, portalAccount, extSwapAccount, migration), r)
      ensures r.Some? ==> Fields() == old(Fields())
      ensures Ieee(env.fl) ==> (r.None? <==>
        var index := match migration case None => currentIndex case Some(m) => m.index;
        var target := C.IndexToMultiplier(env.fl, index);
        && old(global).None? && old(multiplier) <= target
        && env.mint.decimals == 6 && (migration.Some? ==> migration.value.oldDecimals == 6)
        && env.mint.scaledUiAuthority == Some(env.globalKey) && env.mint.defaultFrozen == Some(true)
        && env.mint.freezeAuthority == Some(env.globalKey) && env.mint.permanentDelegate == Some(env.globalKey)
        && Available(old(accounts), portalAccount, portal) && Available(old(accounts), extSwapAccount, extSwap)
        && (portalAccount == extSwapAccount ==> portal == extSwap && Thawed(old(Fields()), portalAccount))
        && (migration.Some? ==>
              supply * C.IndexOf(env.fl, target) <= migration.value.oldSupply * C.INDEX_SCALE))
      ensures r.None? ==>
        && multiplier
          == C.IndexToMultiplier(env.fl, match migration case None => currentIndex case Some(m) => m.index)
        && supply == old(supply) && events == old(events)
        && global == Some(Global(signer, portal, extSwap,
                                 match migration case None => env.zeroRoot case Some(m) => m.root))
        && OnlyThaws(old(accounts), accounts, map[portalAccount := portal, extSwapAccount := extSwap])
    {
      hide OnlyThaws, Available, SupplyFits, DecimalsFit, Ieee, C.IndexOf, C.IndexToMultiplier, DoPropagateIndex,
        DoAdd, DoRemove, DoRecover, DoUpdatePortalAuthority, DoToken, Move, Freeze, Thawed, InitialIndex,
        OpensFrozen, MintReady, EnsureBoth, EnsureAssociated, ThawBoth, ThawIfFrozen, Thaw;
      ghost var call := Initialize(signer, currentIndex, portal, extSwap, portalAccount, extSwapAccount, migration);
      InitializeOnRightMint(env, migration);
      if Ieee(env.fl) {
        InitializeAcceptedIff(env, Fields(), call);
      }
      if Step(env, Fields(), call).Accepted? {
        InitializeEffect(env, Fields(), call);
      }
      if global.Some? || !DecimalsFit(env.mint, migration) {
        return Some(AccountConstraint);
      }
      var savedAccounts, savedMultiplier := accounts, multiplier;
      var ok := InitBothIfNeeded(portalAccount, portal, extSwapAccount, extSwap);
      if !ok {
        return Some(AccountConstraint);
      }
      var target := C.IndexToMultiplier(env.fl, InitialIndex(currentIndex, migration));
      var valid := ValidateMint(target);
      if !valid {
        accounts := savedAccounts;
        return Some(InvalidMint);
      }
      global := Some(Global(signer, portal, extSwap, if migration.Some? then migration.value.root else env.zeroRoot));
      SetMultiplier(target);
      if migration.Some? && !SupplyFits(env.fl, supply, multiplier, migration.value.oldSupply) {
        global, multiplier, accounts := None, savedMultiplier, savedAccounts;
        return Some(InvalidMint);
      }
      ok := ThawBothIfFrozen(portalAccount, extSwapAccount);
      if !ok {
        global, multiplier, accounts := None, savedMultiplier, savedAccounts;
        return Some(TokenProgramError);
      }
      return None;
    }
  }
}
