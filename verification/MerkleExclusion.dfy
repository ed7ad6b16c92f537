/** The verifier's absence check says exactly that a key is not in the set. */
module MerkleExclusion {
  import opened Numbers
  import opened MerkleLevels
  import opened MerkleVerifier
  import opened MerklePaths

  /** In a sorted list every member is on one side of a gap. */
  lemma {:induction false} SortedSplit(s: seq<Key>, i: nat)
    requires Sorted(s) && i < |s|
    ensures forall k :: k in s ==> k <= s[i] || (i + 1 < |s| && s[i + 1] <= k)
    ensures forall k :: k in s ==> s[0] <= k
  {
  }

  /** Padding repeats the maximum, which keeps the list sorted. */
  lemma {:induction false} PaddedAt(keys: seq<Key>, i: nat)
    requires i < |Padded(keys)|
    ensures Padded(keys)[i] == keys[if i < |keys| then i else |keys| - 1]
    ensures i < |keys| || i == |keys|
  {
  }

  /** Where neighbouring positions hold different keys, either nothing lies between the
      keys or the left one is the maximum. */
  lemma {:induction false} GapBetweenPositions<D>(h: Hasher<D>, keys: seq<Key>, p: nat, value: Key)
    requires Sorted(keys) && p + 1 < Pow2(|TreeOf(h, keys)| - 1)
    requires KeyAt(h, keys, p) < value < KeyAt(h, keys, p + 1)
    ensures value !in Members(keys)
  {
    var L, members := TreeOf(h, keys), Members(keys);
    var i, j := Slot(L, 0, p), Slot(L, 0, p + 1);
    SlotNeighbours(h, L, 0, p);
    PaddedAt(members, i);
    PaddedAt(members, j);
    SortedSplit(members, if i < |members| then i else |members| - 1);
  }

  lemma {:induction false} FirstPositionHoldsMinimum<D>(h: Hasher<D>, keys: seq<Key>, value: Key)
    requires Sorted(keys) && value < KeyAt(h, keys, 0)
    ensures value !in Members(keys)
  {
    SlotInRange(h, TreeOf(h, keys), 0, 0);
    SortedSplit(Members(keys), 0);
  }

  lemma {:induction false} LastPositionHoldsMaximum<D>(h: Hasher<D>, keys: seq<Key>, value: Key)
    requires Sorted(keys) && KeyAt(h, keys, Pow2(|TreeOf(h, keys)| - 1) - 1) < value
    ensures value !in Members(keys)
  {
    hide TreeOf, Slot, Pow2, Sorted;
    SlotLast(h, TreeOf(h, keys), 0);
    PaddedAt(Members(keys), |Padded(Members(keys))| - 1);
    SortedSplit(Members(keys), |Members(keys)| - 1);
  }

  /** The three ways to be accepted. */
  datatype Grounds = Below | Above | Between(p: nat)

  ghost predicate Supports<D>(h: Hasher<D>, root: D, value: Key, proofs: seq<seq<ProofElement<D>>>,
                              neighbors: seq<Key>, g: Grounds)
  {
    && |proofs| == |neighbors|
    && match g
       case Below =>
         && |proofs| == 1 && value < neighbors[0]
         && VerdictInTree(h, root, neighbors[0], proofs[0]) == Ok(0)
       case Above =>
         && |proofs| == 1 && neighbors[0] < value && |proofs[0]| < MAX_LEVELS
         && VerdictInTree(h, root, neighbors[0], proofs[0]) == Ok(Pow2(|proofs[0]|) - 1)
       case Between(p) =>
         && |proofs| == 2 && neighbors[0] < value < neighbors[1] && p + 1 < U64_LIMIT
         && VerdictInTree(h, root, neighbors[0], proofs[0]) == Ok(p)
         && VerdictInTree(h, root, neighbors[1], proofs[1]) == Ok(p + 1)
  }

  lemma {:induction false} AcceptanceHasGrounds<D>(h: Hasher<D>, root: D, value: Key,
                                                   proofs: seq<seq<ProofElement<D>>>, neighbors: seq<Key>)
    ensures VerdictNotInTree(h, root, value, proofs, neighbors) == Ok(())
      <==> exists g :: Supports(h, root, value, proofs, neighbors, g)
  {
    if VerdictNotInTree(h, root, value, proofs, neighbors) == Ok(()) {
      if |proofs| == 2 {
        var p := VerdictInTree(h, root, neighbors[0], proofs[0]).value;
        IndexFitsU64(proofs[1]);
        assert Supports(h, root, value, proofs, neighbors, Between(p));
      } else if value < neighbors[0] {
        assert Supports(h, root, value, proofs, neighbors, Below);
      } else {
        assert Supports(h, root, value, proofs, neighbors, Above);
      }
    }
  }

  /** Exclusion soundness: no choice of proofs and neighbours removes a member. */
  lemma {:induction false} ExclusionSound<D(!new)>(h: Hasher<D>, keys: seq<Key>, value: Key,
                                                   proofs: seq<seq<ProofElement<D>>>, neighbors: seq<Key>)
    requires CollisionFree(h) && Sorted(keys)
    requires VerdictNotInTree(h, Root(h, keys), value, proofs, neighbors) == Ok(())
    ensures value !in Members(keys)
  {
    hide VerdictInTree, VerdictNotInTree, TreeOf, PathFrom, KeyAt, CollisionFree, Sorted;
    var root := Root(h, keys);
    AcceptanceHasGrounds(h, root, value, proofs, neighbors);
    var g :| Supports(h, root, value, proofs, neighbors, g);
    match g
    case Below =>
      AcceptedExactlyPaths(h, keys, neighbors[0], proofs[0], 0);
      FirstPositionHoldsMinimum(h, keys, value);
    case Above =>
      AcceptedExactlyPaths(h, keys, neighbors[0], proofs[0], Pow2(|proofs[0]|) - 1);
      LastPositionHoldsMaximum(h, keys, value);
    case Between(p) =>
      AcceptedExactlyPaths(h, keys, neighbors[0], proofs[0], p);
      AcceptedExactlyPaths(h, keys, neighbors[1], proofs[1], p + 1);
      GapBetweenPositions(h, keys, p, value);
  }

  /** No value has both an accepted inclusion proof and an accepted exclusion proof. */
  lemma {:induction false} NeverBothProvable<D(!new)>(h: Hasher<D>, keys: seq<Key>, value: Key,
                                                      proof: seq<ProofElement<D>>, proofs: seq<seq<ProofElement<D>>>,
                                                      neighbors: seq<Key>)
    requires CollisionFree(h) && Sorted(keys)
    ensures !(VerdictInTree(h, Root(h, keys), value, proof).Ok?
              && VerdictNotInTree(h, Root(h, keys), value, proofs, neighbors) == Ok(()))
  {
    if VerdictInTree(h, Root(h, keys), value, proof).Ok?
       && VerdictNotInTree(h, Root(h, keys), value, proofs, neighbors) == Ok(()) {
      InclusionSound(h, keys, value, proof);
      ExclusionSound(h, keys, value, proofs, neighbors);
    }
  }

  lemma {:induction false} PathAccepted<D>(h: Hasher<D>, keys: seq<Key>, p: nat)
    requires |TreeOf(h, keys)| - 1 < MAX_LEVELS && p < Pow2(|TreeOf(h, keys)| - 1)
    ensures VerdictInTree(h, Root(h, keys), KeyAt(h, keys, p), PathFrom(h, TreeOf(h, keys), 0, p)) == Ok(p)
  {
    hide PathFrom, TreeOf, Position, Fold, Slot, Padded, Members;
    PathReachesRoot(h, TreeOf(h, keys), 0, p);
    PathPosition(h, TreeOf(h, keys), 0, p);
  }

  /** The path of an in-range index proves the leaf of that index, padding included. */
  lemma {:induction false} IndexAccepted<D>(h: Hasher<D>, keys: seq<Key>, i: nat)
    requires |TreeOf(h, keys)| - 1 < MAX_LEVELS && i < |Padded(Members(keys))|
    ensures i < U64_LIMIT
    ensures var k := if i < |Members(keys)| then i else i - 1;
      VerdictInTree(h, Root(h, keys), Members(keys)[k], PathFrom(h, TreeOf(h, keys), 0, i)) == Ok(i)
  {
    hide VerdictInTree, PathFrom, TreeOf, Slot, Pow2;
    var L := TreeOf(h, keys);
    LevelSizeBounds(h, L, 0);
    Pow2Monotone(|L| - 1, MAX_LEVELS);
    U64LimitIsPow2();
    SlotInRange(h, L, 0, i);
    PathAccepted(h, keys, i);
    PaddedAt(Members(keys), i);
  }

  lemma {:induction false} BelowFirstAccepted<D>(h: Hasher<D>, keys: seq<Key>, value: Key)
    requires |TreeOf(h, keys)| - 1 < MAX_LEVELS && value < Members(keys)[0]
    ensures VerdictNotInTree(h, Root(h, keys), value, [PathFrom(h, TreeOf(h, keys), 0, 0)],
                             [Members(keys)[0]]) == Ok(())
  {
    IndexAccepted(h, keys, 0);
  }

  lemma {:induction false} AboveLastAccepted<D>(h: Hasher<D>, keys: seq<Key>, value: Key)
    requires |TreeOf(h, keys)| - 1 < MAX_LEVELS
    requires Members(keys)[|Members(keys)| - 1] < value
    ensures var L, members := TreeOf(h, keys), Members(keys);
      VerdictNotInTree(h, Root(h, keys), value, [PathFrom(h, L, 0, Pow2(|L| - 1) - 1)],
                       [members[|members| - 1]]) == Ok(())
  {
    hide VerdictInTree, PathFrom, TreeOf, Slot, Pow2;
    var L, members := TreeOf(h, keys), Members(keys);
    PathAccepted(h, keys, Pow2(|L| - 1) - 1);
    SlotLast(h, L, 0);
    PaddedAt(members, |Padded(members)| - 1);
  }

  lemma {:induction false} BetweenNeighboursAccepted<D>(h: Hasher<D>, keys: seq<Key>, value: Key, i: nat)
    requires |TreeOf(h, keys)| - 1 < MAX_LEVELS && i + 1 < |Members(keys)|
    requires Members(keys)[i] < value < Members(keys)[i + 1]
    ensures var L, members := TreeOf(h, keys), Members(keys);
      VerdictNotInTree(h, Root(h, keys), value, [PathFrom(h, L, 0, i), PathFrom(h, L, 0, i + 1)],
                       [members[i], members[i + 1]]) == Ok(())
  {
    IndexAccepted(h, keys, i);
    IndexAccepted(h, keys, i + 1);
  }

  lemma {:induction false} FindGap(s: seq<Key>, value: Key) returns (i: nat)
    requires s != [] && value !in s && s[0] < value < s[|s| - 1]
    ensures i + 1 < |s| && s[i] < value < s[i + 1]
  {
    i := 0;
    while s[i + 1] < value
      invariant i + 1 < |s| && s[i] < value
      decreases |s| - i
    {
      i := i + 1;
    }
    assert s[i + 1] in s;
  }

  /** Exclusion completeness, for any hash: an absent key always has an accepted proof. */
  lemma {:induction false} ExclusionComplete<D>(h: Hasher<D>, keys: seq<Key>, value: Key)
      returns (proofs: seq<seq<ProofElement<D>>>, neighbors: seq<Key>)
    requires |TreeOf(h, keys)| - 1 < MAX_LEVELS
    requires value !in Members(keys)
    ensures VerdictNotInTree(h, Root(h, keys), value, proofs, neighbors) == Ok(())
  {
    hide VerdictInTree, VerdictNotInTree, TreeOf, PathFrom;
    var L, members := TreeOf(h, keys), Members(keys);
    assert members[0] in members && members[|members| - 1] in members;
    if value < members[0] {
      BelowFirstAccepted(h, keys, value);
      proofs, neighbors := [PathFrom(h, L, 0, 0)], [members[0]];
    } else if members[|members| - 1] < value {
      AboveLastAccepted(h, keys, value);
      proofs, neighbors := [PathFrom(h, L, 0, Pow2(|L| - 1) - 1)], [members[|members| - 1]];
    } else {
      var i := FindGap(members, value);
      BetweenNeighboursAccepted(h, keys, value, i);
      proofs, neighbors := [PathFrom(h, L, 0, i), PathFrom(h, L, 0, i + 1)], [members[i], members[i + 1]];
    }
  }

  ghost predicate Includable<D(!new)>(h: Hasher<D>, root: D, value: Key) {
    exists proof :: VerdictInTree(h, root, value, proof).Ok?
  }

  ghost predicate Excludable<D(!new)>(h: Hasher<D>, root: D, value: Key) {
    exists proofs, neighbors :: VerdictNotInTree(h, root, value, proofs, neighbors) == Ok(())
  }

  /** What any root proves present, for keys in any order. */
  lemma {:induction false} IncludableIffHeld<D(!new)>(h: Hasher<D>, keys: seq<Key>, value: Key)
    requires CollisionFree(h) && |TreeOf(h, keys)| - 1 < MAX_LEVELS
    ensures Includable(h, Root(h, keys), value) <==> value in Members(keys)
  {
    hide CollisionFree, TreeOf, Root;
    if value in Members(keys) {
      var j :| 0 <= j < |Members(keys)| && Members(keys)[j] == value;
      InclusionComplete(h, keys, j);
    }
    if Includable(h, Root(h, keys), value) {
      var proof :| VerdictInTree(h, Root(h, keys), value, proof).Ok?;
      InclusionSound(h, keys, value, proof);
    }
  }

  /** A value for which the leaf level, in whatever order it is, leaves room: before its first
      key, after its last one, or between two that stand next to each other. */
  ghost predicate HasRoom(held: seq<Key>, value: Key)
    requires held != []
  {
    || value < held[0]
    || held[|held| - 1] < value
    || exists i :: 0 <= i < |held| - 1 && StrictlyInside(held, i, value)
  }

  predicate StrictlyInside(held: seq<Key>, i: nat, value: Key)
    requires i + 1 < |held|
  {
    held[i] < value < held[i + 1]
  }

  lemma {:induction false} RoomWasLeft<D>(h: Hasher<D>, keys: seq<Key>, value: Key, p: nat)
    requires p + 1 < Pow2(|TreeOf(h, keys)| - 1) && KeyAt(h, keys, p) < value < KeyAt(h, keys, p + 1)
    ensures HasRoom(Padded(Members(keys)), value)
  {
    var L, held := TreeOf(h, keys), Padded(Members(keys));
    SlotNeighbours(h, L, 0, p);
    if Slot(L, 0, p) < |held| - 1 {
      assert StrictlyInside(held, Slot(L, 0, p), value);
    }
  }

  lemma {:induction false} ExcludableHasRoom<D(!new)>(h: Hasher<D>, keys: seq<Key>, value: Key)
    requires CollisionFree(h) && Excludable(h, Root(h, keys), value)
    ensures HasRoom(Padded(Members(keys)), value)
  {
    hide VerdictInTree, VerdictNotInTree, TreeOf, PathFrom, CollisionFree, HasRoom;
    var root, L := Root(h, keys), TreeOf(h, keys);
    var proofs, neighbors :| VerdictNotInTree(h, root, value, proofs, neighbors) == Ok(());
    AcceptanceHasGrounds(h, root, value, proofs, neighbors);
    var g :| Supports(h, root, value, proofs, neighbors, g);
    match g
    case Below =>
      AcceptedExactlyPaths(h, keys, neighbors[0], proofs[0], 0);
      SlotInRange(h, L, 0, 0);
      EndsHaveRoom(Padded(Members(keys)), value);
    case Above =>
      AcceptedExactlyPaths(h, keys, neighbors[0], proofs[0], Pow2(|proofs[0]|) - 1);
      SlotLast(h, L, 0);
      EndsHaveRoom(Padded(Members(keys)), value);
    case Between(p) =>
      AcceptedExactlyPaths(h, keys, neighbors[0], proofs[0], p);
      AcceptedExactlyPaths(h, keys, neighbors[1], proofs[1], p + 1);
      RoomWasLeft(h, keys, value, p);
  }

  lemma {:induction false} EndsHaveRoom(held: seq<Key>, value: Key)
    requires held != [] && (value < held[0] || held[|held| - 1] < value)
    ensures HasRoom(held, value)
  {
  }

  lemma {:induction false} InsideAccepted<D(!new)>(h: Hasher<D>, keys: seq<Key>, value: Key, i: nat)
    requires |TreeOf(h, keys)| - 1 < MAX_LEVELS && i + 1 < |Padded(Members(keys))|
    requires StrictlyInside(Padded(Members(keys)), i, value)
    ensures Excludable(h, Root(h, keys), value)
  {
    hide VerdictInTree, VerdictNotInTree, PathFrom, TreeOf;
    PaddedAt(Members(keys), i);
    PaddedAt(Members(keys), i + 1);
    BetweenNeighboursAccepted(h, keys, value, i);
  }

  /** What any root proves absent, for keys in any order, repeated or not: exactly the values for
      which its leaf level leaves room. */
  lemma {:induction false} ExcludableIffRoom<D(!new)>(h: Hasher<D>, keys: seq<Key>, value: Key)
    requires CollisionFree(h) && |TreeOf(h, keys)| - 1 < MAX_LEVELS
    ensures Excludable(h, Root(h, keys), value) <==> HasRoom(Padded(Members(keys)), value)
  {
    hide CollisionFree, TreeOf, Root, Excludable;
    var members, held := Members(keys), Padded(Members(keys));
    PaddedAt(members, |held| - 1);
    if Excludable(h, Root(h, keys), value) {
      ExcludableHasRoom(h, keys, value);
    } else if value < held[0] {
      BelowFirstAccepted(h, keys, value);
      ExcludedBy(h, Root(h, keys), value, [PathFrom(h, TreeOf(h, keys), 0, 0)], [members[0]]);
    } else if held[|held| - 1] < value {
      AboveLastAccepted(h, keys, value);
      ExcludedBy(h, Root(h, keys), value, [PathFrom(h, TreeOf(h, keys), 0, Pow2(|TreeOf(h, keys)| - 1) - 1)],
                 [members[|members| - 1]]);
    } else if HasRoom(held, value) {
      var i :| 0 <= i < |held| - 1 && StrictlyInside(held, i, value);
      InsideAccepted(h, keys, value, i);
    }
  }

  lemma {:induction false} ExcludedBy<D(!new)>(h: Hasher<D>, root: D, value: Key, proofs: seq<seq<ProofElement<D>>>,
                                               neighbors: seq<Key>)
    requires VerdictNotInTree(h, root, value, proofs, neighbors) == Ok(())
    ensures Excludable(h, root, value)
  {
  }

  /** Against an honestly built root the two checks decide membership, and disagree on every key. */
  lemma {:induction false} ChecksDecideMembership<D(!new)>(h: Hasher<D>, keys: seq<Key>, value: Key)
    requires CollisionFree(h) && Sorted(keys) && |TreeOf(h, keys)| - 1 < MAX_LEVELS
    ensures Includable(h, Root(h, keys), value) <==> value in Members(keys)
    ensures Excludable(h, Root(h, keys), value) <==> value !in Members(keys)
  {
    IncludableIffHeld(h, keys, value);
    if value !in Members(keys) {
      var proofs, neighbors := ExclusionComplete(h, keys, value);
    }
    if Excludable(h, Root(h, keys), value) {
      var proofs, neighbors :| VerdictNotInTree(h, Root(h, keys), value, proofs, neighbors) == Ok(());
      ExclusionSound(h, keys, value, proofs, neighbors);
    }
  }
}
