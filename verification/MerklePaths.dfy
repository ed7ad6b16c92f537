/** Which inclusion proofs the verifier accepts: exactly one per position. */
module MerklePaths {
  import opened Numbers
  import opened MerkleLevels
  import opened MerkleVerifier

  lemma {:induction false} FoldCons<D>(h: Hasher<D>, x: D, proof: seq<ProofElement<D>>)
    requires proof != []
    ensures Fold(h, x, proof) == Fold(h, FoldStep(h, x, proof[0]), proof[1..])
  {
    var n := |proof| - 1;
    if n > 0 {
      FoldCons(h, x, proof[..n]);
      assert proof[..n][1..] == proof[1..][..n - 1];
    }
  }

  lemma {:induction false} FoldSnoc<D>(h: Hasher<D>, x: D, proof: seq<ProofElement<D>>, e: ProofElement<D>)
    ensures Fold(h, x, proof + [e]) == FoldStep(h, Fold(h, x, proof), e)
  {
  }

  /** The verifier's sum of powers, read from the leaf upwards. */
  lemma {:induction false} PositionCons<D>(proof: seq<ProofElement<D>>)
    requires proof != []
    ensures Position(proof) == (if proof[0].onRight then 0 else 1) + 2 * Position(proof[1..])
  {
    var n := |proof| - 1;
    if n > 0 {
      PositionCons(proof[..n]);
      assert proof[..n][1..] == proof[1..][..n - 1];
    } else {
      assert proof[..0] == [];
    }
  }

  /** The siblings met on the way from position `p` of level `i` up to the root. */
  ghost function PathFrom<D>(h: Hasher<D>, L: seq<seq<D>>, i: nat, p: nat): (r: seq<ProofElement<D>>)
    requires IsTree(h, L) && i < |L|
    ensures |r| == |L| - 1 - i
    decreases |L| - i
  {
    if i == |L| - 1 then []
    else
      var q := Slot(L, i + 1, p / 2);
      assert Stacked(h, L, i);
      var sibling := if p % 2 == 0 then ProofElement(L[i][RightOf(q, |L[i]|)], true)
                     else ProofElement(L[i][2 * q], false);
      [sibling] + PathFrom(h, L, i + 1, p / 2)
  }

  lemma {:induction false} SlotStep<D>(h: Hasher<D>, L: seq<seq<D>>, i: nat, p: nat)
    requires IsTree(h, L) && i < |L| - 1
    ensures var q := Slot(L, i + 1, p / 2);
      && 2 * q < |L[i]|
      && L[i + 1][q] == h.node(L[i][2 * q], L[i][RightOf(q, |L[i]|)])
      && Slot(L, i, p) == if p % 2 == 0 then 2 * q else RightOf(q, |L[i]|)
  {
    assert Stacked(h, L, i);
  }

  /** Every position has a proof, whatever the hash: it folds to the root. */
  lemma {:induction false} PathReachesRoot<D>(h: Hasher<D>, L: seq<seq<D>>, i: nat, p: nat)
    requires IsTree(h, L) && i < |L|
    ensures Fold(h, L[i][Slot(L, i, p)], PathFrom(h, L, i, p)) == L[|L| - 1][0]
    decreases |L| - i
  {
    if i < |L| - 1 {
      var x, path := L[i][Slot(L, i, p)], PathFrom(h, L, i, p);
      PathReachesRoot(h, L, i + 1, p / 2);
      FoldCons(h, x, path);
      assert path[1..] == PathFrom(h, L, i + 1, p / 2);
      PathFirstStep(h, L, i, p);
    }
  }

  lemma {:induction false} PathFirstStep<D>(h: Hasher<D>, L: seq<seq<D>>, i: nat, p: nat)
    requires IsTree(h, L) && i < |L| - 1
    ensures FoldStep(h, L[i][Slot(L, i, p)], PathFrom(h, L, i, p)[0]) == L[i + 1][Slot(L, i + 1, p / 2)]
  {
    SlotStep(h, L, i, p);
  }

  /** ... and reads back as that position. */
  lemma {:induction false} PathPosition<D>(h: Hasher<D>, L: seq<seq<D>>, i: nat, p: nat)
    requires IsTree(h, L) && i < |L| && p < Pow2(|L| - 1 - i)
    ensures Position(PathFrom(h, L, i, p)) == p
    decreases |L| - i
  {
    if i < |L| - 1 {
      var path := PathFrom(h, L, i, p);
      PathPosition(h, L, i + 1, p / 2);
      PositionCons(path);
      assert path[1..] == PathFrom(h, L, i + 1, p / 2);
    }
  }

  lemma {:induction false} FoldNothing<D>(h: Hasher<D>, x: D)
    ensures Fold(h, x, []) == x && Position<D>([]) == 0
  {
  }

  /** Anything that folds to the root in at most `depth` steps is a node of the tree at the
      matching level, and its proof is that node's path. */
  lemma {:induction false} FoldToRootIsPath<D(!new)>(h: Hasher<D>, L: seq<seq<D>>, x: D, proof: seq<ProofElement<D>>)
    requires CollisionFree(h) && IsTree(h, L) && |proof| < |L|
    requires Fold(h, x, proof) == L[|L| - 1][0]
    ensures var i, p := |L| - 1 - |proof|, Position(proof);
      x == L[i][Slot(L, i, p)] && proof == PathFrom(h, L, i, p)
    decreases |proof|
  {
    hide Fold, Position, Stacked;
    if proof == [] {
      FoldNothing(h, x);
    } else {
      var i, rest := |L| - 1 - |proof|, proof[1..];
      FoldCons(h, x, proof);
      PositionCons(proof);
      FoldToRootIsPath(h, L, FoldStep(h, x, proof[0]), rest);
      SlotStep(h, L, i, Position(proof));
      assert Position(proof) / 2 == Position(rest);
      assert proof == [proof[0]] + rest;
    }
  }

  lemma {:induction false} LeavesAreNotNodes<D(!new)>(h: Hasher<D>, L: seq<seq<D>>, i: nat, q: nat, k: Key)
    requires CollisionFree(h) && IsTree(h, L) && 0 < i < |L| && q < |L[i]|
    ensures L[i][q] != h.leaf(k)
  {
    var j := i - 1;
    assert Stacked(h, L, j);
    assert L[i][q] == h.node(L[j][2 * q], L[j][RightOf(q, |L[j]|)]);
  }

  /** Domain separation fixes the length: a leaf folds to the root only over the full depth. */
  lemma {:induction false} FoldFromLeafHasFullLength<D(!new)>(h: Hasher<D>, L: seq<seq<D>>, leaves: seq<Key>,
                                                              value: Key, proof: seq<ProofElement<D>>)
    requires CollisionFree(h) && IsTreeOver(h, L, leaves)
    requires Fold(h, h.leaf(value), proof) == L[|L| - 1][0]
    ensures |proof| == |L| - 1
  {
    if |proof| < |L| - 1 {
      FoldToRootIsPath(h, L, h.leaf(value), proof);
      var i := |L| - 1 - |proof|;
      LeavesAreNotNodes(h, L, i, Slot(L, i, Position(proof)), value);
    } else if |proof| >= |L| {
      LongFoldMissesRoot(h, L, leaves, h.leaf(value), proof);
    }
  }

  lemma {:induction false} LongFoldMissesRoot<D(!new)>(h: Hasher<D>, L: seq<seq<D>>, leaves: seq<Key>, x: D,
                                                       proof: seq<ProofElement<D>>)
    requires CollisionFree(h) && IsTreeOver(h, L, leaves) && |proof| >= |L|
    ensures Fold(h, x, proof) != L[|L| - 1][0]
    decreases |proof|
  {
    var y := FoldStep(h, x, proof[0]);
    FoldCons(h, x, proof);
    if |proof| > |L| {
      LongFoldMissesRoot(h, L, leaves, y, proof[1..]);
    } else if Fold(h, y, proof[1..]) == L[|L| - 1][0] {
      FoldToRootIsPath(h, L, y, proof[1..]);
      assert false;
    }
  }

  /** A leaf folds to the root exactly along the path of a position that holds its key. */
  lemma {:induction false} FoldsFromLeafExactlyPaths<D(!new)>(h: Hasher<D>, L: seq<seq<D>>, leaves: seq<Key>,
                                                              value: Key, proof: seq<ProofElement<D>>)
    requires CollisionFree(h) && IsTreeOver(h, L, leaves)
    ensures Fold(h, h.leaf(value), proof) == L[|L| - 1][0] <==>
      proof == PathFrom(h, L, 0, Position(proof)) && leaves[Slot(L, 0, Position(proof))] == value
  {
    PathReachesRoot(h, L, 0, Position(proof));
    if Fold(h, h.leaf(value), proof) == L[|L| - 1][0] {
      FoldFromLeafHasFullLength(h, L, leaves, value, proof);
      FoldToRootIsPath(h, L, h.leaf(value), proof);
    }
  }

  /** The key that position `p` of the expanded tree holds. */
  ghost function KeyAt<D>(h: Hasher<D>, keys: seq<Key>, p: nat): Key {
    Padded(Members(keys))[Slot(TreeOf(h, keys), 0, p)]
  }

  /** The verifier accepts at position `p` exactly the path of `p`, and exactly for the key
      held there: nothing else, for any value and any proof whatsoever. */
  lemma {:induction false} AcceptedExactlyPaths<D(!new)>(h: Hasher<D>, keys: seq<Key>, value: Key,
                                                         proof: seq<ProofElement<D>>, p: nat)
    requires CollisionFree(h)
    ensures var L := TreeOf(h, keys);
      VerdictInTree(h, Root(h, keys), value, proof) == Ok(p) <==>
        && p < Pow2(|L| - 1)
        && proof == PathFrom(h, L, 0, p)
        && !Overflows(proof)
        && value == KeyAt(h, keys, p)
  {
    var L := TreeOf(h, keys);
    FoldsFromLeafExactlyPaths(h, L, Padded(Members(keys)), value, proof);
    if p < Pow2(|L| - 1) {
      PathPosition(h, L, 0, p);
    }
  }

  lemma {:induction false} PaddedKeepsMembers(keys: seq<Key>)
    ensures forall k :: k in Padded(keys) <==> k in keys
  {
  }

  /** Inclusion soundness. */
  lemma {:induction false} InclusionSound<D(!new)>(h: Hasher<D>, keys: seq<Key>, value: Key,
                                                   proof: seq<ProofElement<D>>)
    requires CollisionFree(h)
    requires VerdictInTree(h, Root(h, keys), value, proof).Ok?
    ensures value in Members(keys)
    ensures |proof| == |TreeOf(h, keys)| - 1
  {
    var p := VerdictInTree(h, Root(h, keys), value, proof).value;
    AcceptedExactlyPaths(h, keys, value, proof, p);
    PaddedKeepsMembers(Members(keys));
  }

  /** Inclusion completeness, for any hash at all. */
  lemma {:induction false} InclusionComplete<D>(h: Hasher<D>, keys: seq<Key>, j: nat)
    requires j < |Members(keys)|
    ensures var L := TreeOf(h, keys);
      |L| - 1 <= MAX_LEVELS ==>
        VerdictInTree(h, Root(h, keys), Members(keys)[j], PathFrom(h, L, 0, j)) == Ok(j)
  {
    var L := TreeOf(h, keys);
    LevelSizeBounds(h, L, 0);
    SlotInRange(h, L, 0, j);
    PathReachesRoot(h, L, 0, j);
    if |L| - 1 <= MAX_LEVELS {
      PathPosition(h, L, 0, j);
    }
  }

  /** Two key lists with the same root have the same members: the root binds the set. */
  lemma {:induction false} RootBindsMembers<D(!new)>(h: Hasher<D>, a: seq<Key>, b: seq<Key>)
    requires CollisionFree(h) && Root(h, a) == Root(h, b)
    ensures forall k :: k in Members(a) <==> k in Members(b)
  {
    RootCarriesMembers(h, a, b);
    RootCarriesMembers(h, b, a);
  }

  lemma {:induction false} RootCarriesMembers<D(!new)>(h: Hasher<D>, a: seq<Key>, b: seq<Key>)
    requires CollisionFree(h) && Root(h, a) == Root(h, b)
    ensures forall k :: k in Members(a) ==> k in Members(b)
  {
    forall k | k in Members(a) ensures k in Members(b) {
      var j :| 0 <= j < |Members(a)| && Members(a)[j] == k;
      RootCarriesMember(h, a, b, j);
    }
  }

  lemma {:induction false} RootCarriesMember<D(!new)>(h: Hasher<D>, a: seq<Key>, b: seq<Key>, j: nat)
    requires CollisionFree(h) && Root(h, a) == Root(h, b) && j < |Members(a)|
    ensures Members(a)[j] in Members(b)
  {
    var L := TreeOf(h, a);
    SlotInRange(h, L, 0, j);
    PathReachesRoot(h, L, 0, j);
    FoldsFromLeafExactlyPaths(h, TreeOf(h, b), Padded(Members(b)), Members(a)[j], PathFrom(h, L, 0, j));
    PaddedKeepsMembers(Members(b));
  }

  // ---------------------------------------------------------------- what a root stands for

  /** Equally deep trees with the same key at every position. */
  ghost predicate SameExpansion<D>(h: Hasher<D>, a: seq<Key>, b: seq<Key>) {
    && |TreeOf(h, a)| == |TreeOf(h, b)|
    && forall p :: 0 <= p < Pow2(|TreeOf(h, a)| - 1) ==> KeyAt(h, a, p) == KeyAt(h, b, p)
  }

  /** A node is the hash of the nodes at its two child positions. */
  lemma {:induction false} ParentOfPositions<D>(h: Hasher<D>, L: seq<seq<D>>, i: nat, p: nat)
    requires IsTree(h, L) && i < |L| - 1
    ensures L[i + 1][Slot(L, i + 1, p)] == h.node(L[i][Slot(L, i, 2 * p)], L[i][Slot(L, i, 2 * p + 1)])
  {
    hide Slot;
    assert (2 * p) / 2 == p && (2 * p) % 2 == 0 && (2 * p + 1) / 2 == p && (2 * p + 1) % 2 == 1;
    SlotStep(h, L, i, 2 * p);
    SlotStep(h, L, i, 2 * p + 1);
  }

  lemma {:induction false} LeafAtPosition<D>(h: Hasher<D>, keys: seq<Key>, p: nat)
    ensures var L := TreeOf(h, keys); L[0][Slot(L, 0, p)] == h.leaf(KeyAt(h, keys, p))
  {
  }

  lemma {:induction false} SameNodes<D>(h: Hasher<D>, a: seq<Key>, b: seq<Key>, i: nat, p: nat)
    requires SameExpansion(h, a, b) && i < |TreeOf(h, a)| && p < Pow2(|TreeOf(h, a)| - 1 - i)
    ensures var L, M := TreeOf(h, a), TreeOf(h, b);
      L[i][Slot(L, i, p)] == M[i][Slot(M, i, p)]
    decreases i
  {
    hide TreeOf, Slot, Stacked, Padded, Members, KeyAt;
    if i == 0 {
      LeafAtPosition(h, a, p);
      LeafAtPosition(h, b, p);
    } else {
      SameNodes(h, a, b, i - 1, 2 * p);
      SameNodes(h, a, b, i - 1, 2 * p + 1);
      ParentOfPositions(h, TreeOf(h, a), i - 1, p);
      ParentOfPositions(h, TreeOf(h, b), i - 1, p);
    }
  }

  lemma {:induction false} SameKeyAt<D(!new)>(h: Hasher<D>, a: seq<Key>, b: seq<Key>, p: nat)
    requires CollisionFree(h) && Root(h, a) == Root(h, b) && p < Pow2(|TreeOf(h, a)| - 1)
    ensures |TreeOf(h, a)| == |TreeOf(h, b)| && KeyAt(h, a, p) == KeyAt(h, b, p)
  {
    hide CollisionFree, TreeOf, Slot, PathFrom, Fold, Padded;
    var L, path := TreeOf(h, a), PathFrom(h, TreeOf(h, a), 0, p);
    PathReachesRoot(h, L, 0, p);
    PathPosition(h, L, 0, p);
    FoldFromLeafHasFullLength(h, TreeOf(h, b), Padded(Members(b)), KeyAt(h, a, p), path);
    FoldsFromLeafExactlyPaths(h, TreeOf(h, b), Padded(Members(b)), KeyAt(h, a, p), path);
  }

  /** Two key lists, in any order, have one root exactly if their trees expand to the same keys. */
  lemma {:induction false} RootsEqualIffSameExpansion<D(!new)>(h: Hasher<D>, a: seq<Key>, b: seq<Key>)
    requires CollisionFree(h)
    ensures Root(h, a) == Root(h, b) <==> SameExpansion(h, a, b)
  {
    hide *;
    if Root(h, a) == Root(h, b) {
      SameRootSameExpansion(h, a, b);
    }
    if SameExpansion(h, a, b) {
      SameExpansionSameRoot(h, a, b);
    }
  }

  lemma {:induction false} SameRootSameExpansion<D(!new)>(h: Hasher<D>, a: seq<Key>, b: seq<Key>)
    requires CollisionFree(h) && Root(h, a) == Root(h, b)
    ensures SameExpansion(h, a, b)
  {
    hide CollisionFree, TreeOf, KeyAt, Stacked, Root;
    SameKeyAt(h, a, b, 0);
    forall p | 0 <= p < Pow2(|TreeOf(h, a)| - 1) ensures KeyAt(h, a, p) == KeyAt(h, b, p) {
      SameKeyAt(h, a, b, p);
    }
  }

  lemma {:induction false} SameExpansionSameRoot<D>(h: Hasher<D>, a: seq<Key>, b: seq<Key>)
    requires SameExpansion(h, a, b)
    ensures Root(h, a) == Root(h, b)
  {
    hide *;
    TopSlot(h, a);
    TopSlot(h, b);
    EquallyDeep(h, a, b);
    SameNodes(h, a, b, |TreeOf(h, a)| - 1, 0);
  }

  lemma {:induction false} EquallyDeep<D>(h: Hasher<D>, a: seq<Key>, b: seq<Key>)
    requires SameExpansion(h, a, b)
    ensures |TreeOf(h, a)| == |TreeOf(h, b)| > 0 && Pow2(0) == 1
  {
    hide TreeOf, KeyAt;
  }

  lemma {:induction false} TopSlot<D>(h: Hasher<D>, keys: seq<Key>)
    ensures var L := TreeOf(h, keys); Root(h, keys) == L[|L| - 1][Slot(L, |L| - 1, 0)]
  {
  }

  lemma {:induction false} TailMembers(a: seq<Key>, k: Key)
    requires StrictlySorted(a) && a != []
    ensures k in a[1..] <==> k in a && k != a[0]
  {
  }

  lemma {:induction false} SameMembersSameList(a: seq<Key>, b: seq<Key>)
    requires StrictlySorted(a) && StrictlySorted(b)
    requires forall k :: k in a <==> k in b
    ensures a == b
  {
    if a != [] {
      assert a[0] in b;
    }
    if b != [] {
      assert b[0] in a;
    }
    if a != [] {
      assert a[0] in b && b[0] in a;
      assert a[0] == b[0];
      forall k ensures k in a[1..] <==> k in b[1..] {
        TailMembers(a, k);
        TailMembers(b, k);
      }
      SameMembersSameList(a[1..], b[1..]);
      assert a == [a[0]] + a[1..] && b == [b[0]] + b[1..];
    }
  }

  /** For sorted sets the root determines the whole tree. */
  lemma {:induction false} RootBindsSet<D(!new)>(h: Hasher<D>, a: seq<Key>, b: seq<Key>)
    requires CollisionFree(h) && StrictlySorted(a) && StrictlySorted(b)
    ensures Root(h, a) == Root(h, b) <==> Members(a) == Members(b)
  {
    if Root(h, a) == Root(h, b) {
      RootBindsMembers(h, a, b);
      SameMembersSameList(Members(a), Members(b));
    }
  }
}
