/** Facts the proof generators rely on: parents can be found by searching for a hash, and
    an in-range index names its own position. */
module MerkleProver {
  import opened Numbers
  import opened MerkleLevels
  import opened MerkleVerifier
  import opened MerklePaths
  import opened MerkleExclusion

  function IndexOf(keys: seq<Key>, k: Key): (r: nat)
    ensures r <= |keys|
    ensures forall i :: 0 <= i < r ==> keys[i] != k
    ensures r < |keys| ==> keys[r] == k
  {
    if keys == [] || keys[0] == k then 0 else 1 + IndexOf(keys[1..], k)
  }

  /** In a sorted list the first copy of a key is the one with a smaller key, or none, before it. */
  lemma {:induction false} FirstCopy(keys: seq<Key>, i: nat)
    requires Sorted(keys) && i < |keys|
    ensures IndexOf(keys, keys[i]) <= i
    ensures IndexOf(keys, keys[i]) == i <==> i == 0 || keys[i - 1] < keys[i]
  {
  }

  // ---------------------------------------------------------------- searching for parents

  /** No node before this one has the same digest. */
  ghost predicate IsFirst<D(!new)>(level: seq<D>, q: nat)
    requires q < |level|
  {
    forall j :: 0 <= j < q ==> level[j] != level[q]
  }

  /** This node, or the left child of the same parent, is the first with its digest. */
  ghost predicate LeadsFirst<D(!new)>(level: seq<D>, index: nat)
    requires index < |level|
  {
    IsFirst(level, index) || IsFirst(level, index - index % 2)
  }

  /** The sibling the prover picks for an in-range index. */
  function SiblingOf<D>(level: seq<D>, index: nat): (e: ProofElement<D>)
    requires index < |level|
  {
    if index % 2 == 0 then ProofElement(level[if index == |level| - 1 then index else index + 1], true)
    else ProofElement(level[index - 1], false)
  }

  lemma {:induction false} SiblingStep<D>(h: Hasher<D>, L: seq<seq<D>>, i: nat, index: nat)
    requires IsTree(h, L) && i < |L| - 1 && index < |L[i]|
    ensures index / 2 < |L[i + 1]|
    ensures FoldStep(h, L[i][index], SiblingOf(L[i], index)) == L[i + 1][index / 2]
    ensures PathFrom(h, L, i, index) == [SiblingOf(L[i], index)] + PathFrom(h, L, i + 1, index / 2)
  {
    TreeSizes(h, L, i);
    SlotInRange(h, L, i + 1, index / 2);
    SlotStep(h, L, i, index);
  }

  lemma {:induction false} EqualParents<D(!new)>(h: Hasher<D>, L: seq<seq<D>>, i: nat, a: nat, b: nat)
    requires CollisionFree(h) && IsTree(h, L) && i < |L| - 1
    requires a < |L[i + 1]| && b < |L[i + 1]| && L[i + 1][a] == L[i + 1][b]
    ensures 2 * a < |L[i]| && 2 * b < |L[i]|
    ensures L[i][2 * a] == L[i][2 * b] && L[i][RightOf(a, |L[i]|)] == L[i][RightOf(b, |L[i]|)]
  {
    assert Stacked(h, L, i);
    assert L[i + 1][a] == h.node(L[i][2 * a], L[i][RightOf(a, |L[i]|)]);
    assert L[i + 1][b] == h.node(L[i][2 * b], L[i][RightOf(b, |L[i]|)]);
  }

  /** Equal parents have equal children, so a parent is the first with its digest as soon as one of
      its children is: the search by hash then finds it, at half the index. */
  lemma {:induction false} SearchFindsParent<D(!new)>(h: Hasher<D>, L: seq<seq<D>>, i: nat, index: nat, found: nat)
    requires CollisionFree(h) && IsTree(h, L) && i < |L| - 1
    requires index < |L[i]| && LeadsFirst(L[i], index)
    requires found < |L[i + 1]| && IsFirst(L[i + 1], found)
    requires L[i + 1][found] == FoldStep(h, L[i][index], SiblingOf(L[i], index))
    ensures found == index / 2
  {
    SiblingStep(h, L, i, index);
    EqualParents(h, L, i, found, index / 2);
  }

  /** How far the prover's loop has come: the siblings so far fold to the current node, and under
      a collision-free hash, from a first copy, they begin the path of the starting position. */
  ghost predicate Climbed<D(!new)>(h: Hasher<D>, L: seq<seq<D>>, start: nat, i: nat, index: nat,
                                   proof: seq<ProofElement<D>>)
    requires IsTree(h, L) && i < |L| && start < |L[0]|
  {
    && |proof| == i && index < |L[i]|
    && Fold(h, L[0][start], proof) == L[i][index]
    && (CollisionFree(h) && LeadsFirst(L[0], start) ==>
          LeadsFirst(L[i], index) && proof + PathFrom(h, L, i, index) == PathFrom(h, L, 0, start))
  }

  lemma {:induction false} ClimbStep<D(!new)>(h: Hasher<D>, L: seq<seq<D>>, start: nat, i: nat, index: nat,
                                              found: nat, proof: seq<ProofElement<D>>, e: ProofElement<D>)
    requires IsTree(h, L) && i < |L| - 1 && start < |L[0]| && Climbed(h, L, start, i, index, proof)
    requires found < |L[i + 1]| && IsFirst(L[i + 1], found)
    requires e == SiblingOf(L[i], index) && L[i + 1][found] == FoldStep(h, L[i][index], e)
    ensures Climbed(h, L, start, i + 1, found, proof + [e])
  {
    hide Slot, PathFrom, Fold, IsTree, IsFirst, CollisionFree;
    FoldSnoc(h, L[0][start], proof, e);
    if CollisionFree(h) && LeadsFirst(L[0], start) {
      SiblingStep(h, L, i, index);
      SearchFindsParent(h, L, i, index, found);
      assert proof + [e] + PathFrom(h, L, i + 1, found) == proof + PathFrom(h, L, i, index);
    }
  }

  /** The index that `getInclusionProof` climbs from, for a key first found at `index` among
      `count` keys over a leaf level of this width: one more only for the last of an odd count. */
  function ProvenIndex(width: nat, index: nat, count: nat, useDuplicate: bool): nat {
    if width > 1 && count % 2 != 0 && index + 1 == count && useDuplicate then index + 1 else index
  }

  /** Keys in the order of the leaf level: the sorted keys, then whatever padding follows them. */
  ghost predicate IsLeafLevel(keys: seq<Key>, held: seq<Key>) {
    keys <= held && held != [] && (|held| == 1 || |held| % 2 == 0)
  }

  lemma {:induction false} LeafLevelIsPadded(keys: seq<Key>, held: seq<Key>)
    requires IsLeafLevel(keys, held)
    ensures Padded(Members(held)) == held
  {
  }

  /** The index climbed from leads to the first parent with its digest, even where leaves repeat. */
  lemma {:induction false} ProvenIndexLeads<D(!new)>(h: Hasher<D>, keys: seq<Key>, held: seq<Key>, k: Key,
                                                     useDuplicate: bool)
    requires CollisionFree(h) && IsLeafLevel(keys, held) && k in keys
    ensures var p := ProvenIndex(|held|, IndexOf(keys, k), |keys|, useDuplicate);
      p < |held| && LeadsFirst(HashLeaves(h, held), p)
  {
    var first := IndexOf(keys, k);
    assert first < |keys| && held[first] == k;
    assert IsFirst(HashLeaves(h, held), first);
  }

  /** Sizes strictly between consecutive powers of two are not powers of two. */
  lemma {:induction false} PowerBetween(size: nat, d: nat)
    requires size <= Pow2(d) && (d > 0 ==> Pow2(d - 1) < size)
    ensures IsPow2(size) <==> size == Pow2(d)
  {
    if IsPow2(size) {
      var e: nat :| Pow2(e) == size;
      if e < d {
        if e < d - 1 {
          Pow2Monotone(e, d - 1);
        }
      } else if e > d {
        Pow2Monotone(d, e);
      }
    }
  }

  lemma {:induction false} AboveNeighbourVerdict<D>(h: Hasher<D>, root: D, value: Key, neighbor: Key,
                                                    proof: seq<ProofElement<D>>)
    requires neighbor < value && |proof| < MAX_LEVELS && VerdictInTree(h, root, neighbor, proof).Ok?
    ensures (VerdictNotInTree(h, root, value, [proof], [neighbor]) == Ok(()))
      <==> VerdictInTree(h, root, neighbor, proof).value == Pow2(|proof|) - 1
  {
  }

  /** What `getInclusionProof` returns for the i-th sorted key, found by its first copy. */
  ghost function ProofFor<D>(h: Hasher<D>, L: seq<seq<D>>, keys: seq<Key>, i: nat,
                             useDuplicate: bool): seq<ProofElement<D>>
    requires IsTree(h, L) && i < |keys|
  {
    PathFrom(h, L, 0, ProvenIndex(|L[0]|, IndexOf(keys, keys[i]), |keys|, useDuplicate))
  }

  /** The verifier reads the prover's proof for the j-th key back as the position of its first
      copy, which is j in a set, or as the padding's position when the copy of the last key was
      asked for. */
  lemma {:induction false} PositionsAgree<D>(h: Hasher<D>, keys: seq<Key>, j: nat, useDuplicate: bool)
    requires j < |keys| && |TreeOf(h, keys)| - 1 < MAX_LEVELS
    ensures var p := ProvenIndex(|Padded(keys)|, IndexOf(keys, keys[j]), |keys|, useDuplicate);
      && VerdictInTree(h, Root(h, keys), keys[j], ProofFor(h, TreeOf(h, keys), keys, j, useDuplicate)) == Ok(p)
      && (StrictlySorted(keys) ==> p == j || (useDuplicate && j == |keys| - 1 && p == |Padded(keys)| - 1))
  {
    hide VerdictInTree, PathFrom, TreeOf;
    IndexAccepted(h, keys, ProvenIndex(|Padded(keys)|, IndexOf(keys, keys[j]), |keys|, useDuplicate));
  }

  /** How many keys lie below an absent key. */
  function GapOf(keys: seq<Key>, value: Key): (r: nat)
    ensures r <= |keys|
    ensures r < |keys| ==> value < keys[r]
    ensures forall i :: 0 <= i < r ==> keys[i] <= value
  {
    if keys == [] || value < keys[0] then 0 else 1 + GapOf(keys[1..], value)
  }

  /** The proofs and neighbours that `getExclusionProof` offers for an absent key. */
  ghost function Offered<D>(h: Hasher<D>, L: seq<seq<D>>, keys: seq<Key>,
                            value: Key): (seq<seq<ProofElement<D>>>, seq<Key>)
    requires keys != [] ==> IsTree(h, L)
  {
    var n, g := |keys|, GapOf(keys, value);
    if n == 0 then ([[]], [ZERO_KEY])
    else if g == 0 then ([ProofFor(h, L, keys, 0, false)], [keys[0]])
    else if g == n then ([ProofFor(h, L, keys, n - 1, true)], [keys[n - 1]])
    else ([ProofFor(h, L, keys, g - 1, false), ProofFor(h, L, keys, g, false)], [keys[g - 1], keys[g]])
  }

  /** The verifier accepts what the prover offers over this leaf level. */
  ghost predicate Convinces<D>(h: Hasher<D>, keys: seq<Key>, held: seq<Key>, value: Key) {
    var offer := Offered(h, TreeOf(h, held), keys, value);
    VerdictNotInTree(h, Root(h, held), value, offer.0, offer.1) == Ok(())
  }

  /** The first copy's proof is accepted over any leaf level that begins with the keys. */
  lemma {:induction false} FirstCopyAccepted<D>(h: Hasher<D>, keys: seq<Key>, held: seq<Key>, i: nat)
    requires IsLeafLevel(keys, held) && |TreeOf(h, held)| - 1 < MAX_LEVELS && i < |keys|
    ensures VerdictInTree(h, Root(h, held), keys[i], ProofFor(h, TreeOf(h, held), keys, i, false))
      == Ok(IndexOf(keys, keys[i]))
    ensures IndexOf(keys, keys[i]) < U64_LIMIT
  {
    hide VerdictInTree, TreeOf, PathFrom;
    LeafLevelIsPadded(keys, held);
    IndexAccepted(h, held, IndexOf(keys, keys[i]));
  }

  lemma {:induction false} OfferBelowConvinces<D>(h: Hasher<D>, keys: seq<Key>, held: seq<Key>, value: Key)
    requires IsLeafLevel(keys, held) && |TreeOf(h, held)| - 1 < MAX_LEVELS
    requires keys != [] && GapOf(keys, value) == 0
    ensures Convinces(h, keys, held, value)
  {
    FirstCopyAccepted(h, keys, held, 0);
  }

  lemma {:induction false} OfferBetweenConvinces<D>(h: Hasher<D>, keys: seq<Key>, held: seq<Key>, value: Key)
    requires IsLeafLevel(keys, held) && |TreeOf(h, held)| - 1 < MAX_LEVELS
    requires Sorted(keys) && 0 < GapOf(keys, value) < |keys| && value !in keys
    ensures var g := GapOf(keys, value);
      Convinces(h, keys, held, value) <==> g == 1 || keys[g - 2] < keys[g - 1]
  {
    hide VerdictInTree, TreeOf, ProofFor, Sorted;
    var g := GapOf(keys, value);
    assert keys[g - 1] in keys;
    FirstCopyAccepted(h, keys, held, g - 1);
    FirstCopyAccepted(h, keys, held, g);
    FirstCopy(keys, g - 1);
    FirstCopy(keys, g);
  }

  /** The path of one position proves no other key than the one held there. */
  lemma {:induction false} OtherKeyRejected<D(!new)>(h: Hasher<D>, held: seq<Key>, k: Key, p: nat)
    requires CollisionFree(h) && Padded(Members(held)) == held && p < |held| && held[p] != k
    ensures !VerdictInTree(h, Root(h, held), k, PathFrom(h, TreeOf(h, held), 0, p)).Ok?
  {
    hide CollisionFree, TreeOf, PathFrom, Slot, Padded, Members;
    var L := TreeOf(h, held);
    LevelSizeBounds(h, L, 0);
    SlotInRange(h, L, 0, p);
    PathPosition(h, L, 0, p);
    FoldsFromLeafExactlyPaths(h, L, held, k, PathFrom(h, L, 0, p));
  }

  /** One proof for a smaller neighbour is accepted exactly if it belongs to the last position of a
      full leaf level: the last position of the expanded tree, which the verifier asks for. */
  lemma {:induction false} LastLeafProofAccepted<D(!new)>(h: Hasher<D>, held: seq<Key>, neighbor: Key, value: Key,
                                                          p: nat)
    requires Padded(Members(held)) == held && |TreeOf(h, held)| - 1 < MAX_LEVELS
    requires p < |held| && neighbor < value && (CollisionFree(h) || held[p] == neighbor)
    ensures VerdictNotInTree(h, Root(h, held), value, [PathFrom(h, TreeOf(h, held), 0, p)], [neighbor]) == Ok(())
      <==> held[p] == neighbor && p == |held| - 1 && IsPow2(|held|)
  {
    hide VerdictInTree, TreeOf, PathFrom;
    var L := TreeOf(h, held);
    if held[p] == neighbor {
      LevelSizeBounds(h, L, 0);
      PowerBetween(|held|, |L| - 1);
      IndexAccepted(h, held, p);
      AboveNeighbourVerdict(h, Root(h, held), value, neighbor, PathFrom(h, L, 0, p));
    } else {
      OtherKeyRejected(h, held, neighbor, p);
    }
  }

  /** The prover climbs from the last leaf exactly if the last key is there only once and at most
      its own copy follows the keys. */
  lemma {:induction false} ClimbsFromLast(keys: seq<Key>, held: seq<Key>)
    requires IsLeafLevel(keys, held) && Sorted(keys) && keys != []
    ensures var n, last := |keys|, keys[|keys| - 1];
      var p := ProvenIndex(|held|, IndexOf(keys, last), n, true);
      && p < |held|
      && (p == |held| - 1 && held[p] == last
          <==> (n == 1 || keys[n - 2] < last) && (held == keys || held == keys + [last]))
      && (held == Padded(keys) ==> held[p] == last)
  {
    hide Sorted;
    FirstCopy(keys, |keys| - 1);
    if |held| == |keys| + 1 {
      assert held == keys + [held[|keys|]];
    }
  }

  /** Above the last key the offer convinces exactly if that key is there only once, nothing but
      its own copy follows the keys, and the leaf level is as wide as a power of two. */
  lemma {:induction false} OfferAboveConvinces<D(!new)>(h: Hasher<D>, keys: seq<Key>, held: seq<Key>, value: Key)
    requires IsLeafLevel(keys, held) && |TreeOf(h, held)| - 1 < MAX_LEVELS
    requires CollisionFree(h) || held == Padded(keys)
    requires Sorted(keys) && keys != [] && GapOf(keys, value) == |keys| && value !in keys
    ensures var n := |keys|;
      Convinces(h, keys, held, value) <==>
        && (n == 1 || keys[n - 2] < keys[n - 1])
        && (held == keys || held == keys + [keys[n - 1]]) && IsPow2(|held|)
  {
    hide VerdictInTree, VerdictNotInTree, TreeOf, PathFrom, IsPow2, Sorted, CollisionFree;
    var n, last := |keys|, keys[|keys| - 1];
    assert last in keys;
    LeafLevelIsPadded(keys, held);
    ClimbsFromLast(keys, held);
    LastLeafProofAccepted(h, held, last, value, ProvenIndex(|held|, IndexOf(keys, last), n, true));
  }

  lemma {:induction false} OfferEmptyConvinces<D(!new)>(h: Hasher<D>, held: seq<Key>, value: Key)
    requires CollisionFree(h) || held == []
    requires held != [] ==> Padded(held) == held
    ensures Convinces(h, [], held, value) <==> value != ZERO_KEY && (held == [] || held == [ZERO_KEY])
  {
    hide CollisionFree, TreeOf, Padded;
    ZeroRootOnlyEmpty(h, held);
  }

  /** Only an empty tree, or one over the zero key alone, has the zero key's digest as its root. */
  lemma {:induction false} ZeroRootOnlyEmpty<D(!new)>(h: Hasher<D>, held: seq<Key>)
    requires CollisionFree(h) || held == []
    ensures Root(h, held) == h.leaf(ZERO_KEY) <==> held == [] || held == [ZERO_KEY]
  {
    var L := TreeOf(h, held);
    if |held| > 1 {
      LeavesAreNotNodes(h, L, |L| - 1, 0, ZERO_KEY);
    }
  }

  /** When what the prover offers convinces the verifier, for every leaf level that begins with the
      sorted keys, repeated keys and stale padding included. Below the first key it always does.
      Otherwise the key below must be there only once; and above the last key nothing but that
      key's own copy may follow, and the leaf level must be as wide as a power of two. */
  lemma {:induction false} OfferedExclusionVerdict<D(!new)>(h: Hasher<D>, keys: seq<Key>, held: seq<Key>, value: Key)
    requires Sorted(keys) && value !in keys && |TreeOf(h, held)| - 1 < MAX_LEVELS
    requires keys <= held && (|held| <= 1 || |held| % 2 == 0)
    requires CollisionFree(h) || held == Padded(keys)
    ensures Convinces(h, keys, held, value) <==>
      var n, g := |keys|, GapOf(keys, value);
      if n == 0 then value != ZERO_KEY && (held == [] || held == [ZERO_KEY])
      else g == 0 || ((g == 1 || keys[g - 2] < keys[g - 1])
                      && (g < n || ((held == keys || held == keys + [keys[n - 1]]) && IsPow2(|held|))))
  {
    hide Convinces, IsPow2, TreeOf, Sorted, CollisionFree;
    if keys == [] {
      OfferEmptyConvinces(h, held, value);
    } else if GapOf(keys, value) == 0 {
      OfferBelowConvinces(h, keys, held, value);
    } else if GapOf(keys, value) == |keys| {
      OfferAboveConvinces(h, keys, held, value);
    } else {
      OfferBetweenConvinces(h, keys, held, value);
    }
  }

  /** The same over a tree built from a set: between two of its keys and below the first the offer
      always convinces, above the last key exactly when the width is a power of two. */
  lemma {:induction false} OfferOverASet<D(!new)>(h: Hasher<D>, keys: seq<Key>, value: Key)
    requires StrictlySorted(keys) && value !in keys && |TreeOf(h, keys)| - 1 < MAX_LEVELS
    ensures Convinces(h, keys, Padded(keys), value) <==>
      if keys == [] then value != ZERO_KEY
      else value < keys[|keys| - 1] || IsPow2(|Padded(keys)|)
  {
    hide Convinces, IsPow2;
    OfferedExclusionVerdict(h, keys, Padded(keys), value);
  }
}
