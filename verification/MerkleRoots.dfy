/** What the chain accepts against the root of any tree that keys and edits can lead to, and when the
    proofs that tree offers are among it. */
module MerkleRoots {
  import opened Numbers
  import opened MerkleLevels
  import opened MerkleVerifier
  import opened MerklePaths
  import opened MerkleExclusion
  import opened MerkleProver
  import opened MerkleSdk
  import opened MerkleEdits

  // ---------------------------------------------------------------- membership

  lemma {:induction false} NoRoomForMembers(held: seq<Key>, m: Key)
    requires Sorted(held) && m in held
    ensures !HasRoom(held, m)
  {
    var j :| 0 <= j < |held| && held[j] == m;
    forall i | 0 <= i < |held| - 1 ensures !StrictlyInside(held, i, m) {
      assert j <= i || i + 1 <= j;
    }
  }

  lemma {:induction false} RoomInside(raw: seq<Key>, value: Key)
    requires Sorted(raw) && raw != [] && value !in raw && raw[0] < value < raw[|raw| - 1]
    ensures exists i :: 0 <= i < |raw| - 1 && StrictlyInside(raw, i, value)
  {
    var i := FindGap(raw, value);
    assert StrictlyInside(raw, i, value);
  }

  lemma {:induction false} MoreRoom(raw: seq<Key>, stale: seq<Key>, value: Key, i: nat)
    requires i + 1 < |raw| && StrictlyInside(raw, i, value)
    ensures HasRoom(raw + stale, value)
  {
    assert StrictlyInside(raw + stale, i, value);
  }

  /** Behind sorted keys, copies of one key leave room for everything above that key, close the gap for
      the key itself if it is above the others, and change nothing else. */
  lemma {:induction false} RoomBesideStale(raw: seq<Key>, stale: seq<Key>, value: Key)
    requires Sorted(raw) && raw != [] && OneKey(stale)
    ensures HasRoom(raw + stale, value) <==>
      if stale == [] then value !in raw
      else value > stale[0] || (value !in raw && (value != stale[0] || value < raw[|raw| - 1]))
  {
    var held, n := raw + stale, |raw|;
    if value in raw {
      NoRoomForMembers(raw, value);
    } else if raw[0] < value < raw[n - 1] {
      RoomInside(raw, value);
      var i :| 0 <= i < n - 1 && StrictlyInside(raw, i, value);
      MoreRoom(raw, stale, value, i);
    }
    forall i | 0 <= i < |held| - 1
      ensures StrictlyInside(held, i, value) <==>
        if i < n - 1 then StrictlyInside(raw, i, value) else i == n - 1 && raw[n - 1] < value < stale[0]
    {
    }
    if stale != [] && raw[n - 1] < value < stale[0] {
      assert StrictlyInside(held, n - 1, value);
    }
  }

  /** What the root of any tree proves, stale padding included: present are the keys its leaf level
      holds, absent are the values for which that level leaves room. */
  lemma {:induction false} TreeDecides<D(!new)>(h: Hasher<D>, s: TreeState<D>, stale: seq<Key>, value: Key)
    requires CollisionFree(h) && Carries(h, s, stale) && |TreeOf(h, s.rawLeaves + stale)| - 1 < MAX_LEVELS
    ensures Includable(h, s.root, value) <==> value in Members(s.rawLeaves + stale)
    ensures Excludable(h, s.root, value) <==> HasRoom(Members(s.rawLeaves + stale), value)
  {
    hide CollisionFree, TreeOf, Root, Includable, Excludable, HasRoom, Sorted;
    var held := s.rawLeaves + stale;
    assert s.root == Root(h, held);
    PaddedCases(Members(held));
    IncludableIffHeld(h, held, value);
    ExcludableIffRoom(h, held, value);
  }

  lemma {:induction false} HeldOneKey(raw: seq<Key>, stale: seq<Key>, value: Key)
    requires OneKey(stale)
    ensures value in raw + stale <==> value in raw || (stale != [] && value == stale[0])
  {
  }

  lemma {:induction false} RoomBesideOne(stale: seq<Key>, value: Key)
    requires OneKey(stale)
    ensures HasRoom(Members(stale), value) <==> value !in Members(stale)
  {
  }

  /** All that can be wrong about a reachable root is one stale key. It is proved present although it may
      have been removed; and everything above it is proved absent, members included. Where nothing
      is stale the two checks decide membership. */
  lemma {:induction false} DecidesButForStaleKey<D(!new)>(h: Hasher<D>, s: TreeState<D>, stale: seq<Key>, value: Key)
    requires CollisionFree(h) && Carries(h, s, stale) && OneKey(stale)
    requires |TreeOf(h, s.rawLeaves + stale)| - 1 < MAX_LEVELS
    ensures Includable(h, s.root, value) <==>
      value in s.rawLeaves || (if stale == [] then s.rawLeaves == [] && value == ZERO_KEY else value == stale[0])
    ensures Excludable(h, s.root, value) <==>
      if s.rawLeaves == [] then value != (if stale == [] then ZERO_KEY else stale[0])
      else if stale == [] then value !in s.rawLeaves
      else value > stale[0]
           || (value !in s.rawLeaves && (value != stale[0] || value < s.rawLeaves[|s.rawLeaves| - 1]))
  {
    hide CollisionFree, TreeOf, Includable, Excludable, HasRoom, OneKey, Root, HashLeaves;
    var raw := s.rawLeaves;
    TreeDecides(h, s, stale, value);
    HeldOneKey(raw, stale, value);
    if raw == [] {
      assert raw + stale == stale;
      RoomBesideOne(stale, value);
      HeldOneKey([], stale, value);
    } else {
      RoomBesideStale(raw, stale, value);
    }
  }

  lemma {:induction false} StaleAfterAdd(raw: seq<Key>, stale: seq<Key>, k: Key)
    ensures var keys, held := SortKeys(raw + [k]), Padded(HeldAfterAdd(raw, stale, k));
      && keys != [] && keys <= held
      && var later := held[|keys|..];
      if stale != [] then later != [] && later[0] == stale[0]
      else later == [] || later[0] == keys[|keys| - 1]
  {
    hide Padded, Padding, SortKeys;
    var keys, kept := SortKeys(raw + [k]), HeldAfterAdd(raw, stale, k);
    assert k in multiset(keys);
    PaddedCases(kept);
    var held := Padded(kept);
    if |held| > |keys| {
      assert held[|keys|..][0] == held[|keys|];
      assert stale != [] ==> kept[|keys|] == stale[0];
    }
  }

  lemma {:induction false} SortedMaximum(keys: seq<Key>, m: Key)
    requires Sorted(keys) && m in keys
    ensures m <= keys[|keys| - 1]
  {
  }

  /** Adding to a tree can turn its root against members: exactly those above the stale key can then be
      proved absent. On a well-formed tree that is at most the added key, and only when it is added
      at an unsafe size above all the keys there were. */
  lemma {:induction false} AddMayExcludeMember<D(!new)>(h: Hasher<D>, s: TreeState<D>, k: Key, stale: seq<Key>, m: Key)
    requires CollisionFree(h) && Carries(h, s, stale) && OneKey(stale) && k !in s.rawLeaves
    requires m in Added(h, s, k).rawLeaves && |Added(h, s, k).tree| - 1 < MAX_LEVELS
    ensures Excludable(h, Added(h, s, k).root, m) <==> stale != [] && m > stale[0]
    ensures Built(h, s) ==>
      var n := |s.rawLeaves|;
      (stale != [] && m > stale[0] <==> m == k && !AddsCleanly(n) && n > 0 && k > s.rawLeaves[n - 1])
  {
    hide CollisionFree, Added, HeldAfterAdd, Root, TreeOf, Built, Sorted, Padded, SortKeys, OneKey, Excludable,
      Includable, AddsCleanly, HashLeaves;
    var t, keys, held := Added(h, s, k), SortKeys(s.rawLeaves + [k]), Padded(HeldAfterAdd(s.rawLeaves, stale, k));
    AddedCarries(h, s, k, stale);
    StaleAfterAdd(s.rawLeaves, stale, k);
    assert keys + held[|keys|..] == held;
    DecidesButForStaleKey(h, t, held[|keys|..], m);
    SortedMaximum(keys, m);
    if Built(h, s) {
      StaleOfBuilt(h, s, stale);
      WellFormedStale(s.rawLeaves, k, m);
    }
  }

  lemma {:induction false} StaleAfterRemove(raw: seq<Key>, stale: seq<Key>, k: Key)
    requires k in raw
    ensures var rest, held := SpliceOut(raw, IndexOf(raw, k)), Padded(HeldAfterRemove(raw, stale, k));
      && rest <= held
      && var later := held[|rest|..];
      if |stale| > |raw| % 2 then later != [] && later[0] == stale[0]
      else later == [] || (rest != [] && later[0] == rest[|rest| - 1])
  {
    hide Padded, Padding, IndexOf;
    var rest, kept := SpliceOut(raw, IndexOf(raw, k)), HeldAfterRemove(raw, stale, k);
    assert IndexOf(raw, k) < |raw|;
    PaddedCases(kept);
    var held := Padded(kept);
    if |held| > |rest| {
      assert held[|rest|..][0] == held[|rest|];
    }
  }

  /** When a removed key can still be proved present: exactly when it is the stale key and a copy of it
      stays behind, or when it is the zero key and was the last key there was. */
  lemma {:induction false} RemovedKeyProvable<D(!new)>(h: Hasher<D>, s: TreeState<D>, k: Key, stale: seq<Key>)
    requires CollisionFree(h) && Carries(h, s, stale) && OneKey(stale) && StrictlySorted(s.rawLeaves)
    requires k in s.rawLeaves && |Removed(h, s, k).tree| - 1 < MAX_LEVELS
    ensures k !in Removed(h, s, k).rawLeaves
    ensures Includable(h, Removed(h, s, k).root, k) <==>
      if |stale| > |s.rawLeaves| % 2 then k == stale[0] else |s.rawLeaves| == 1 && k == ZERO_KEY
  {
    hide *;
    var t, raw, held := Removed(h, s, k), s.rawLeaves, Padded(HeldAfterRemove(s.rawLeaves, stale, k));
    RemovedCarries(h, s, k, stale);
    StaleAfterRemove(raw, stale, k);
    RemovedSize(raw, k);
    SpliceOutSorted(raw, k);
    assert t.rawLeaves + held[|t.rawLeaves|..] == held;
    CarriesDepth(h, t, held[|t.rawLeaves|..]);
    DecidesButForStaleKey(h, t, held[|t.rawLeaves|..], k);
  }

  lemma {:induction false} RemovedSize(raw: seq<Key>, k: Key)
    requires k in raw
    ensures |SpliceOut(raw, IndexOf(raw, k))| == |raw| - 1
  {
    assert IndexOf(raw, k) < |raw|;
  }

  lemma {:induction false} CarriesDepth<D>(h: Hasher<D>, s: TreeState<D>, stale: seq<Key>)
    requires Carries(h, s, stale) && |s.tree| - 1 < MAX_LEVELS
    ensures |TreeOf(h, s.rawLeaves + stale)| - 1 < MAX_LEVELS
  {
    if s.rawLeaves + stale == [] {
      EmptyTree(h);
    }
  }

  /** Behind the keys of a well-formed tree there is nothing but the padding. */
  lemma {:induction false} StaleOfBuilt<D(!new)>(h: Hasher<D>, s: TreeState<D>, stale: seq<Key>)
    requires CollisionFree(h) && Built(h, s) && Carries(h, s, stale)
    ensures stale == Padding(s.rawLeaves)
  {
    hide TreeOf, Root, Sorted, StrictlySorted, Built, CollisionFree;
    var a, b := s.rawLeaves + stale, s.rawLeaves + Padding(s.rawLeaves);
    BuiltIffPadded(h, s);
    HashesInjective(h, a, b);
    assert a[|s.rawLeaves|..] == stale && b[|s.rawLeaves|..] == Padding(s.rawLeaves);
  }

  lemma {:induction false} HashesInjective<D(!new)>(h: Hasher<D>, a: seq<Key>, b: seq<Key>)
    requires CollisionFree(h) && HashLeaves(h, a) == HashLeaves(h, b)
    ensures a == b
  {
    assert |HashLeaves(h, a)| == |a| && |HashLeaves(h, b)| == |b|;
    forall i | 0 <= i < |a| ensures a[i] == b[i] {
      assert HashLeaves(h, a)[i] == h.leaf(a[i]) && HashLeaves(h, b)[i] == h.leaf(b[i]);
    }
  }

  lemma {:induction false} WellFormedStale(raw: seq<Key>, k: Key, m: Key)
    requires Sorted(raw) && k !in raw && m in SortKeys(raw + [k])
    ensures var n := |raw|;
      (Padding(raw) != [] && m > Padding(raw)[0] <==> m == k && !AddsCleanly(n) && n > 0 && k > raw[n - 1])
  {
    hide Sorted, SortKeys, Padding, Padded;
    PaddedCases(raw);
    SortedInsertion(raw, k);
    if m in raw {
      SortedMaximum(raw, m);
    }
  }

  /** A tree built from no keys keeps the zero placeholder as a member: its first added key
      yields the root of two keys, not of one. */
  lemma {:induction false} PlaceholderStays<D(!new)>(h: Hasher<D>, k: Key)
    requires CollisionFree(h) && k != ZERO_KEY
    ensures var t := Added(h, Constructed(h, []), k);
      t.root == Root(h, [ZERO_KEY, k]) && t.root != Root(h, [k])
  {
    hide Constructed, Added, Built, Root;
    var s := Constructed(h, []);
    ConstructorBuilds(h, []);
    BuiltRoot(h, s);
    assert s.rawLeaves == [ZERO_KEY] by {
      SameMembersSameList(s.rawLeaves, [ZERO_KEY]);
    }
    AddToWellFormed(h, s, k);
    SameMembersSameList(Added(h, s, k).rawLeaves, [ZERO_KEY, k]);
    RootBindsSet(h, [ZERO_KEY, k], [k]);
  }

  // ---------------------------------------------------------------- repeated keys

  lemma {:induction false} CountOfAlone(before: seq<Key>, k: Key, after: seq<Key>)
    requires k !in before && k !in after
    ensures multiset(before + [k] + after)[k] == 1
  {
    assert multiset(before)[k] == 0 && multiset(after)[k] == 0;
  }

  lemma {:induction false} SortedAlone(keys: seq<Key>, i: nat)
    requires Sorted(keys) && i < |keys|
    requires (i > 0 ==> keys[i - 1] < keys[i]) && (i + 1 < |keys| ==> keys[i] < keys[i + 1])
    ensures keys[i] !in keys[..i] && keys[i] !in keys[i + 1..]
  {
  }

  /** A key of a sorted list stands alone exactly if it was given once. */
  lemma {:induction false} AloneIffOnce(keys: seq<Key>, i: nat)
    requires Sorted(keys) && i < |keys| && (i + 1 < |keys| ==> keys[i] < keys[i + 1])
    ensures i == 0 || keys[i - 1] < keys[i] <==> multiset(keys)[keys[i]] == 1
  {
    hide Sorted;
    if i > 0 && keys[i - 1] >= keys[i] {
      SortedPair(keys, i - 1, i);
      TwiceCounted(keys, i - 1, i);
    } else {
      SortedAlone(keys, i);
      CountOfAlone(keys[..i], keys[i], keys[i + 1..]);
      assert keys == keys[..i] + [keys[i]] + keys[i + 1..];
    }
  }

  lemma {:induction false} SortedPair(keys: seq<Key>, i: nat, j: nat)
    requires Sorted(keys) && i < j < |keys|
    ensures keys[i] <= keys[j]
  {
  }

  /** The verifier accepts what the prover of this tree offers for the value. */
  ghost predicate OfferConvinces<D>(h: Hasher<D>, s: TreeState<D>, value: Key)
    requires s.rawLeaves != [] ==> IsTree(h, s.tree)
  {
    var offer := Offered(h, s.tree, s.rawLeaves, value);
    VerdictNotInTree(h, s.root, value, offer.0, offer.1) == Ok(())
  }

  /** The verdict on the offered exclusion proof, for every tree that keys and edits can lead to. Below
      the first key the offer always convinces. Otherwise the next key below must be there only once;
      and above the last key no stale padding but that key's own copy may follow, and the leaf level
      must be as wide as a power of two. */
  lemma {:induction false} OfferVerdict<D(!new)>(h: Hasher<D>, s: TreeState<D>, stale: seq<Key>, value: Key)
    requires Carries(h, s, stale) && value !in s.rawLeaves && |s.tree| - 1 < MAX_LEVELS
    requires CollisionFree(h) || stale == Padding(s.rawLeaves)
    ensures OfferConvinces(h, s, value) <==>
      var keys, n, g := s.rawLeaves, |s.rawLeaves|, GapOf(s.rawLeaves, value);
      if n == 0 then value != ZERO_KEY && (stale == [] || stale == [ZERO_KEY])
      else g == 0 || ((g == 1 || keys[g - 2] < keys[g - 1])
                      && (g < n || ((stale == [] || stale == [keys[n - 1]]) && IsPow2(|s.leaves|))))
  {
    hide *;
    var keys, held := s.rawLeaves, s.rawLeaves + stale;
    CarriesWidth(h, s, stale);
    CarriesDepth(h, s, stale);
    OfferOfTree(h, s, stale, value);
    BehindKeys(keys, stale);
    OfferedExclusionVerdict(h, keys, held, value);
  }

  /** What a tree offers is what its leaf level makes of the keys. */
  lemma {:induction false} OfferOfTree<D>(h: Hasher<D>, s: TreeState<D>, stale: seq<Key>, value: Key)
    requires Carries(h, s, stale)
    ensures s.rawLeaves != [] ==> IsTree(h, s.tree)
    ensures OfferConvinces(h, s, value) <==> Convinces(h, s.rawLeaves, s.rawLeaves + stale, value)
  {
    hide VerdictNotInTree, Sorted, GapOf, ProofFor, TreeOf, Root, HashLeaves;
  }

  lemma {:induction false} BehindKeys(keys: seq<Key>, stale: seq<Key>)
    ensures keys <= keys + stale && (keys + stale == Padded(keys) <==> stale == Padding(keys))
    ensures keys + stale == keys <==> stale == []
    ensures keys != [] ==> (keys + stale == keys + [keys[|keys| - 1]] <==> stale == [keys[|keys| - 1]])
    ensures keys == [] ==> keys + stale == stale
  {
    hide Padded, Padding;
    assert (keys + stale)[|keys|..] == stale;
    assert keys + Padding(keys) == Padded(keys) && Padded(keys)[|keys|..] == Padding(keys);
    assert keys != [] ==> (keys + [keys[|keys| - 1]])[|keys|..] == [keys[|keys| - 1]];
  }

  lemma {:induction false} EmptyTree<D>(h: Hasher<D>)
    ensures |TreeOf(h, [])| == 1
  {
  }

  /** Equal keys given as separate objects survive the constructor's `new Set`, and the prover then
      proves the first copy. Whatever keys the constructor was given, the exclusion proof offered for
      an absent value convinces the verifier exactly if no key is below the value, or the next key
      below was given only once and another key is above or the width is a power of two. */
  lemma {:induction false} DuplicateKeysDefeatTheProver<D(!new)>(h: Hasher<D>, given: seq<Key>, value: Key)
    requires value !in Constructed(h, given).rawLeaves && |Constructed(h, given).tree| - 1 < MAX_LEVELS
    ensures var s := Constructed(h, given);
      var g := GapOf(s.rawLeaves, value);
      && multiset(s.rawLeaves) == multiset(Members(given)) && IsTree(h, s.tree)
      && (OfferConvinces(h, s, value) <==>
            g == 0 || (multiset(Members(given))[s.rawLeaves[g - 1]] == 1
                       && (g < |s.rawLeaves| || IsPow2(|s.leaves|))))
  {
    hide *;
    var s, raw := Constructed(h, given), SortKeys(Members(given));
    ConstructorKeeps(h, given);
    CarriesWidth(h, s, Padding(raw));
    NoKeyLost(given);
    OfferOfTree(h, s, Padding(raw), value);
    OfferVerdict(h, s, Padding(raw), value);
    PaddingIsLast(raw);
    var g := GapOf(raw, value);
    if g > 0 {
      assert raw[g - 1] in raw;
      AloneIffOnce(raw, g - 1);
    }
  }

  lemma {:induction false} NoKeyLost(given: seq<Key>)
    ensures var raw := SortKeys(Members(given)); raw != [] && multiset(raw) == multiset(Members(given))
  {
    hide SortKeys;
    var raw := SortKeys(Members(given));
    assert |raw| == |multiset(raw)| == |multiset(Members(given))| > 0;
  }

  lemma {:induction false} PaddingIsLast(raw: seq<Key>)
    requires raw != []
    ensures Padding(raw) == [] || Padding(raw) == [raw[|raw| - 1]]
  {
    PaddedCases(raw);
  }
}
