/** Small inputs on which the promises fail whose exact conditions the other modules state. */
module MerkleExamples {
  import opened Numbers
  import opened MerkleLevels
  import opened MerklePaths
  import opened MerkleExclusion
  import opened MerkleProver
  import opened MerkleSdk
  import opened MerkleEdits
  import opened MerkleRoots

  // ---------------------------------------------------------------- reading small trees

  lemma {:induction false} SmallPowers()
    ensures Pow2(2) == 4 && Pow2(3) == 8 && Pow2(4) == 16
  {
    assert Pow2(1) == 2;
  }

  /** Up to sixteen leaves there are at most four levels above, and three where five to eight leaves are. */
  lemma {:induction false} SmallDepth<D>(h: Hasher<D>, keys: seq<Key>)
    requires keys != [] && Padded(keys) == keys && |keys| <= 16
    ensures var d := |TreeOf(h, keys)| - 1;
      d <= 4 && (|keys| > 8 ==> d == 4) && (4 < |keys| <= 8 ==> d == 3)
  {
    hide Pow2, TreeOf, Stacked;
    LevelSizeBounds(h, TreeOf(h, keys), 0);
    DoublingsThatFit(|keys|, |TreeOf(h, keys)| - 1);
  }

  lemma {:induction false} DoublingsThatFit(size: nat, d: nat)
    requires size <= 16 && size <= Pow2(d) && (d > 0 ==> Pow2(d - 1) < size)
    ensures d <= 4 && (size > 8 ==> d == 4) && (4 < size <= 8 ==> d == 3)
  {
    hide Pow2;
    SmallPowers();
    if d > 5 {
      Pow2Monotone(4, d - 1);
    } else if d == 4 {
      assert Pow2(d - 1) == 8;
    } else if d < 2 {
      Pow2Monotone(d, 2);
    }
  }

  /** Distinct keys that are given in order stay as they are. */
  lemma {:induction false} BuiltFrom<D(!new)>(h: Hasher<D>, keys: seq<Key>)
    requires StrictlySorted(keys) && keys != []
    ensures var s := Constructed(h, keys);
      s.rawLeaves == keys && Built(h, s) && Carries(h, s, Padding(keys)) && OneKey(Padding(keys))
  {
    hide Constructed, Built, Carries, OneKey;
    ConstructorKeeps(h, keys);
    ConstructorBuilds(h, keys);
    SortingSorted(keys);
  }

  lemma {:induction false} InsertionOf(raw: seq<Key>, k: Key)
    requires StrictlySorted(raw + [k])
    ensures SortKeys(raw + [k]) == raw + [k] && k !in raw
  {
    SortingSorted(raw + [k]);
  }

  // ---------------------------------------------------------------- additions

  const THREE: seq<Key> := [1, 2, 3]
  const FOUR: seq<Key> := [1, 2, 3, 4]

  lemma {:induction false} OneToFour()
    ensures StrictlySorted(THREE) && StrictlySorted(FOUR) && THREE + [4] == FOUR
    ensures Padding(THREE) == [3] && Padded(FOUR + [3, 3]) == FOUR + [3, 3] && !AddsCleanly(|THREE|)
    ensures THREE[|THREE| - 1] == 3 && |FOUR + [3, 3]| == 6 && 4 in FOUR && THREE != []
  {
    hide Padded, Padding;
    PaddedCases(THREE);
    PaddedCases(FOUR + [3, 3]);
  }

  /** Adding 4 to the tree of 1, 2, 3: the root is wrong, and proves 4 absent. */
  lemma {:induction false} AddingAFourthKey<D(!new)>(h: Hasher<D>)
    requires CollisionFree(h)
    ensures var t := Added(h, Constructed(h, THREE), 4);
      && t.rawLeaves == FOUR
      && !RootIsRight(h, t)
      && Excludable(h, t.root, 4)
  {
    hide Constructed, Built, Carries, Added, Excludable, RootIsRight, CollisionFree, Padding, TreeOf, HeldAfterAdd,
      SortKeys, Padded, StrictlySorted, Sorted, Root, OneKey, AddsCleanly, Rebuilt, SameExpansion;
    OneToFour();
    BuiltFrom(h, THREE);
    BuiltRoot(h, Constructed(h, THREE));
    InsertionOf(THREE, 4);
    AddedHeld(h, Constructed(h, THREE), 4);
    HeldAfterCleanTree(THREE, 4);
    SmallDepth(h, FOUR + [3, 3]);
    AddRefinesRebuild(h, Constructed(h, THREE), 4, Padding(THREE));
    AddMayExcludeMember(h, Constructed(h, THREE), 4, Padding(THREE), 4);
  }

  const FIVE: seq<Key> := [1, 2, 3, 4, 5]
  const SIX: seq<Key> := [1, 2, 3, 4, 5, 6]
  const SEVEN: seq<Key> := [1, 2, 3, 4, 5, 6, 7]

  lemma {:induction false} OneToSeven()
    ensures StrictlySorted(FIVE) && StrictlySorted(SIX) && StrictlySorted(SEVEN)
    ensures FIVE + [6] == SIX && SIX + [7] == SEVEN && (SIX + [5, 5])[|SIX|..] == [5, 5]
  {
  }

  lemma {:induction false} SixHeld<D(!new)>(h: Hasher<D>)
    ensures var t := Added(h, Constructed(h, FIVE), 6);
      t.rawLeaves == SIX && Carries(h, t, [5, 5])
  {
    hide Constructed, Built, Carries, Added, Padding, TreeOf, HeldAfterAdd, SortKeys, Padded, StrictlySorted, Sorted,
      Root;
    OneToSeven();
    BuiltFrom(h, FIVE);
    BuiltRoot(h, Constructed(h, FIVE));
    InsertionOf(FIVE, 6);
    AddedHeld(h, Constructed(h, FIVE), 6);
    HeldAfterCleanTree(FIVE, 6);
  }

  lemma {:induction false} OtherDepth<D>(h: Hasher<D>, held: seq<Key>, keys: seq<Key>)
    requires |held| == 10 && |keys| == 7
    ensures !SameExpansion(h, held, keys)
  {
    hide TreeOf, Padded;
    PaddedCases(held);
    PaddedCases(keys);
    PaddedCases(Padded(keys));
    PaddedTree(h, keys);
    SmallDepth(h, held);
    SmallDepth(h, Padded(keys));
  }

  lemma {:induction false} SevenHeld()
    ensures SortKeys(SIX + [7]) == SEVEN && 7 !in SIX
    ensures |Padded(HeldAfterAdd(SIX, [5, 5], 7))| == 10
  {
    hide SortKeys, Padded, StrictlySorted;
    OneToSeven();
    InsertionOf(SIX, 7);
    assert |HeldAfterAdd(SIX, [5, 5], 7)| == 10;
    PaddedCases(HeldAfterAdd(SIX, [5, 5], 7));
  }

  /** Adding 6 and then 7 to the tree of 1 to 5: the second addition finds an even number of keys, and the
      root is wrong all the same. */
  lemma {:induction false} AddingTwice<D(!new)>(h: Hasher<D>)
    requires CollisionFree(h)
    ensures var t := Added(h, Constructed(h, FIVE), 6);
      && t.rawLeaves == SIX && AddsCleanly(|SIX|)
      && Added(h, t, 7).rawLeaves == SEVEN
      && !RootIsRight(h, Added(h, t, 7))
  {
    hide Constructed, Carries, Added, RootIsRight, CollisionFree, TreeOf, SortKeys, Padded, HeldAfterAdd, Rebuilt,
      Built, SameExpansion, OneKey;
    var t := Added(h, Constructed(h, FIVE), 6);
    SixHeld(h);
    SevenHeld();
    AddedCarries(h, t, 7, [5, 5]);
    AddRefinesRebuild(h, t, 7, [5, 5]);
    OtherDepth(h, Padded(HeldAfterAdd(t.rawLeaves, [5, 5], 7)), Added(h, t, 7).rawLeaves);
  }

  lemma {:induction false} PaddedTree<D>(h: Hasher<D>, keys: seq<Key>)
    requires keys != []
    ensures TreeOf(h, Padded(keys)) == TreeOf(h, keys)
  {
    PaddedCases(keys);
    PaddedCases(Padded(keys));
  }

  // ---------------------------------------------------------------- removal

  /** Adding 6 to the tree of 1 to 5 and then removing 5: the root still proves 5 present. */
  lemma {:induction false} RemovingAStaleKey<D(!new)>(h: Hasher<D>)
    requires CollisionFree(h)
    ensures var t := Removed(h, Added(h, Constructed(h, FIVE), 6), 5);
      5 !in t.rawLeaves && Includable(h, t.root, 5)
  {
    hide Constructed, Added, Removed, CollisionFree, TreeOf, Padded, Includable, IndexOf, Carries, SpliceOut,
      HeldAfterRemove;
    var s := Added(h, Constructed(h, FIVE), 6);
    SixHeld(h);
    RemovedCarries(h, s, 5, [5, 5]);
    WithoutFifth();
    CarriesHeld(h, Removed(h, s, 5), [1, 2, 3, 4, 6, 5, 5, 5]);
    PaddedCases([1, 2, 3, 4, 6, 5, 5, 5]);
    SmallDepth(h, [1, 2, 3, 4, 6, 5, 5, 5]);
    RemovedKeyProvable(h, s, 5, [5, 5]);
  }

  lemma {:induction false} WithoutFifth()
    ensures var raw: seq<Key> := [1, 2, 3, 4, 5, 6];
      && SpliceOut(raw, IndexOf(raw, 5)) == [1, 2, 3, 4, 6]
      && Padded(HeldAfterRemove(raw, [5, 5], 5)) == [1, 2, 3, 4, 6, 5, 5, 5]
  {
    hide Padded;
    var raw: seq<Key> := [1, 2, 3, 4, 5, 6];
    IndexOfFifth();
    assert SpliceOut(raw, 4) == [1, 2, 3, 4, 6];
    PaddedCases(HeldAfterRemove(raw, [5, 5], 5));
  }

  lemma {:induction false} IndexOfFifth()
    ensures IndexOf([1, 2, 3, 4, 5, 6], 5) == 4
  {
  }

  // ---------------------------------------------------------------- the prover's offer

  lemma {:induction false} SixIsNoPower()
    ensures !IsPow2(6)
  {
    SmallPowers();
    PowerBetween(6, 3);
  }

  /** Over the tree of 1 to 5 the proof offered for the absence of 6 is rejected. */
  lemma {:induction false} OfferAboveFive<D(!new)>(h: Hasher<D>)
    ensures var s := Constructed(h, FIVE);
      s.rawLeaves == FIVE && IsTree(h, s.tree) && !OfferConvinces(h, s, 6)
  {
    hide Constructed, OfferConvinces, TreeOf, Padded, IsPow2, GapOf, Built, Root, Padding, HashLeaves;
    var s, raw: seq<Key> := Constructed(h, FIVE), FIVE;
    BuiltFrom(h, raw);
    PaddedCases(raw);
    PaddedCases([1, 2, 3, 4, 5, 5]);
    SmallDepth(h, [1, 2, 3, 4, 5, 5]);
    assert raw + Padding(raw) == [1, 2, 3, 4, 5, 5];
    OfferVerdict(h, s, Padding(raw), 6);
    assert GapOf(raw, 6) == 5;
    SixIsNoPower();
  }
}
