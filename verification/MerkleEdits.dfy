/** In-place edits against rebuilding from scratch. */
module MerkleEdits {
  import opened MerkleLevels
  import opened MerklePaths
  import opened MerkleProver
  import opened MerkleSdk

  ghost predicate Distinct(keys: seq<Key>) {
    forall i, j :: 0 <= i < j < |keys| ==> keys[i] != keys[j]
  }

  lemma {:induction false} DistinctCount(keys: seq<Key>, k: Key)
    requires Distinct(keys)
    ensures multiset(keys)[k] <= 1
  {
    if keys != [] {
      assert keys == [keys[0]] + keys[1..];
      DistinctCount(keys[1..], k);
      if keys[0] == k {
        assert k !in keys[1..];
        assert multiset(keys[1..])[k] == 0;
      }
    }
  }

  lemma {:induction false} TwiceCounted(s: seq<Key>, i: nat, j: nat)
    requires i < j < |s| && s[i] == s[j]
    ensures multiset(s)[s[i]] >= 2
  {
    assert s == s[..i] + [s[i]] + s[i + 1..j] + [s[j]] + s[j + 1..];
  }

  lemma {:induction false} SortKeysStrict(keys: seq<Key>)
    requires Distinct(keys)
    ensures StrictlySorted(SortKeys(keys))
    ensures forall k :: k in SortKeys(keys) <==> k in keys
  {
    var r := SortKeys(keys);
    forall i, j | 0 <= i < j < |r| ensures r[i] < r[j] {
      if r[i] == r[j] {
        TwiceCounted(r, i, j);
        DistinctCount(keys, r[i]);
        assert false;
      }
    }
    forall k ensures k in r <==> k in keys {
      assert k in r <==> k in multiset(r);
      assert k in keys <==> k in multiset(keys);
    }
  }

  // ---------------------------------------------------------------- what every tree keeps

  lemma {:induction false} PaddedHashes<D>(h: Hasher<D>, keys: seq<Key>)
    ensures Padded(HashLeaves(h, keys)) == HashLeaves(h, Padded(keys))
  {
  }

  /** The copy that an odd count of three or more is padded with. */
  function Padding(keys: seq<Key>): (r: seq<Key>)
    ensures keys + r == Padded(keys)
  {
    Padded(keys)[|keys|..]
  }

  lemma {:induction false} PaddedCases(s: seq<Key>)
    ensures |s| % 2 == 0 || |s| <= 1 ==> Padded(s) == s && Padding(s) == []
    ensures |s| % 2 == 1 && |s| > 1 ==> Padded(s) == s + [s[|s| - 1]] && Padding(s) == [s[|s| - 1]]
  {
  }

  /** A state is well formed exactly if nothing but the padding follows its distinct keys. */
  lemma {:induction false} BuiltIffPadded<D>(h: Hasher<D>, s: TreeState<D>)
    ensures Built(h, s) <==> StrictlySorted(s.rawLeaves) && Carries(h, s, Padding(s.rawLeaves))
  {
    hide Levels, HashLeaves, IsTreeOver;
    var raw := s.rawLeaves;
    PaddedCases(raw);
    PaddedCases(Padded(raw));
    assert raw == [] ==> HashLeaves(h, raw + Padding(raw)) == [];
  }

  lemma {:induction false} EmptyRoot<D>(h: Hasher<D>)
    ensures Root(h, []) == h.leaf(ZERO_KEY)
  {
  }

  /** What `_updateTree` leaves when the hashed leaves begin with the sorted keys. */
  lemma {:induction false} UpdatedCarries<D>(h: Hasher<D>, raw: seq<Key>, held: seq<Key>, depth: nat)
    requires Sorted(raw) && raw <= held
    ensures Carries(h, Updated(h, raw, HashLeaves(h, held), depth), Padded(held)[|raw|..])
  {
    hide Sorted, IsTree;
    PaddedHashes(h, held);
    PaddedCases(held);
    PaddedCases(Padded(held));
    assert raw + Padded(held)[|raw|..] == Padded(held);
    if held != [] {
      assert TreeOf(h, Padded(held)) == Levels(h, HashLeaves(h, Padded(held)));
    } else {
      assert HashLeaves(h, held) == [];
      EmptyRoot(h);
    }
  }

  /** Padding once more copies the last key there is. */
  lemma {:induction false} PaddedOneKey(raw: seq<Key>, held: seq<Key>)
    requires raw <= held && OneKey(held[|raw|..])
    ensures OneKey(Padded(held)[|raw|..])
  {
    PaddedCases(held);
    if |held| % 2 == 1 && |held| > 1 {
      assert Padded(held)[|raw|..] == held[|raw|..] + [held[|held| - 1]];
      assert |held| > |raw| ==> held[|held| - 1] == held[|raw|..][|held| - |raw| - 1];
    }
  }

  lemma {:induction false} UpdatedRaw<D>(h: Hasher<D>, raw: seq<Key>, leaves: seq<D>, depth: nat)
    ensures Updated(h, raw, leaves, depth).rawLeaves == raw
  {
  }

  /** Any list of keys, repeated ones included, is sorted, padded and hashed by the constructor. */
  lemma {:induction false} ConstructorKeeps<D>(h: Hasher<D>, keys: seq<Key>)
    ensures var s := Constructed(h, keys);
      && s.rawLeaves == SortKeys(Members(keys))
      && Carries(h, s, Padding(s.rawLeaves)) && OneKey(Padding(s.rawLeaves))
  {
    hide Updated, Carries;
    var raw := SortKeys(Members(keys));
    PaddedCases(raw);
    UpdatedRaw(h, raw, HashLeaves(h, raw), 0);
    UpdatedCarries(h, raw, raw, 0);
  }

  /** Building from distinct keys in any order. */
  lemma {:induction false} ConstructorBuilds<D>(h: Hasher<D>, keys: seq<Key>)
    requires Distinct(keys)
    ensures var s := Constructed(h, keys);
      && Built(h, s)
      && (forall k :: k in s.rawLeaves <==> k in Members(keys))
      && s.root == Root(h, s.rawLeaves)
  {
    hide Built, Constructed, Carries, Root;
    ConstructorKeeps(h, keys);
    assert Distinct(Members(keys));
    SortKeysStrict(Members(keys));
    BuiltIffPadded(h, Constructed(h, keys));
    BuiltRoot(h, Constructed(h, keys));
  }

  lemma {:induction false} BuiltRoot<D>(h: Hasher<D>, s: TreeState<D>)
    requires Built(h, s)
    ensures s.root == Root(h, s.rawLeaves) && RootIsRight(h, s)
    ensures StrictlySorted(s.rawLeaves) && Sorted(s.rawLeaves)
  {
  }

  // ---------------------------------------------------------------- removal

  lemma {:induction false} SpliceOutHashes<D>(h: Hasher<D>, keys: seq<Key>, i: nat)
    ensures SpliceOut(HashLeaves(h, keys), i) == HashLeaves(h, SpliceOut(keys, i))
  {
  }

  lemma {:induction false} SpliceOutAppend<T>(s: seq<T>, t: seq<T>, i: nat)
    requires i < |s|
    ensures SpliceOut(s + t, i) == SpliceOut(s, i) + t
  {
  }

  lemma {:induction false} HashLeavesPrefix<D>(h: Hasher<D>, keys: seq<Key>, n: nat)
    requires n <= |keys|
    ensures HashLeaves(h, keys)[..n] == HashLeaves(h, keys[..n])
  {
  }

  lemma {:induction false} SpliceOutSorted(keys: seq<Key>, k: Key)
    requires StrictlySorted(keys) && k in keys
    ensures var rest := SpliceOut(keys, IndexOf(keys, k));
      StrictlySorted(rest) && forall x :: x in rest <==> x in keys && x != k
  {
    hide IndexOf, SpliceOut, StrictlySorted;
    assert IndexOf(keys, k) < |keys|;
    WithoutOne(keys, IndexOf(keys, k));
  }

  lemma {:induction false} WithoutOne(keys: seq<Key>, i: nat)
    requires StrictlySorted(keys) && i < |keys|
    ensures StrictlySorted(SpliceOut(keys, i))
    ensures forall x :: x in SpliceOut(keys, i) <==> x in keys && x != keys[i]
  {
    assert SpliceOut(keys, i) == keys[..i] + keys[i + 1..];
    assert keys == keys[..i] + [keys[i]] + keys[i + 1..];
    assert keys[i] !in keys[..i] && keys[i] !in keys[i + 1..];
  }

  /** The keys behind the leaf hashes after `removeLeaf`, before `_updateTree` pads again: the last
      padding goes with an odd count. */
  function HeldAfterRemove(raw: seq<Key>, stale: seq<Key>, k: Key): seq<Key> {
    SpliceOut(raw, IndexOf(raw, k)) + (if |raw| % 2 != 0 && stale != [] then stale[..|stale| - 1] else stale)
  }

  lemma {:induction false} RemovedHolds<D>(h: Hasher<D>, s: TreeState<D>, k: Key, stale: seq<Key>)
    requires Carries(h, s, stale) && k in s.rawLeaves
    ensures Removed(h, s, k) == Updated(h, SpliceOut(s.rawLeaves, IndexOf(s.rawLeaves, k)),
                                        HashLeaves(h, HeldAfterRemove(s.rawLeaves, stale, k)), s.depth)
  {
    hide Updated, TreeOf, Root, Sorted, HashLeaves;
    var raw, held, i := s.rawLeaves, s.rawLeaves + stale, IndexOf(s.rawLeaves, k);
    var popped := if |raw| % 2 != 0 then held[..|held| - 1] else held;
    var kept := if |raw| % 2 != 0 && stale != [] then stale[..|stale| - 1] else stale;
    assert i < |raw|;
    if |raw| % 2 == 0 || stale != [] {
      assert popped == raw + kept;
      SpliceOutAppend(raw, kept, i);
    }
    HashLeavesPrefix(h, held, |held| - 1);
    SpliceOutHashes(h, popped, i);
    assert SpliceOut(popped, i) == HeldAfterRemove(raw, stale, k);
  }

  lemma {:induction false} SpliceOutKeepsSorted(keys: seq<Key>, i: nat)
    requires Sorted(keys)
    ensures Sorted(SpliceOut(keys, i))
  {
  }

  lemma {:induction false} RemovedCarries<D>(h: Hasher<D>, s: TreeState<D>, k: Key, stale: seq<Key>)
    requires Carries(h, s, stale) && k in s.rawLeaves
    ensures var t, held := Removed(h, s, k), HeldAfterRemove(s.rawLeaves, stale, k);
      && t.rawLeaves == SpliceOut(s.rawLeaves, IndexOf(s.rawLeaves, k))
      && t.rawLeaves <= held
      && Carries(h, t, Padded(held)[|t.rawLeaves|..])
      && (OneKey(stale) ==> OneKey(Padded(held)[|t.rawLeaves|..]))
  {
    hide Updated, Root, TreeOf, HashLeaves, Removed, Sorted, HeldAfterRemove, SpliceOut, IndexOf, OneKey, Padded;
    var rest, held := SpliceOut(s.rawLeaves, IndexOf(s.rawLeaves, k)), HeldAfterRemove(s.rawLeaves, stale, k);
    RemovedHolds(h, s, k, stale);
    SpliceOutKeepsSorted(s.rawLeaves, IndexOf(s.rawLeaves, k));
    UpdatedRaw(h, rest, HashLeaves(h, held), s.depth);
    BehindRemoved(s.rawLeaves, stale, k);
    UpdatedCarries(h, rest, held, s.depth);
    if OneKey(stale) {
      PaddedOneKey(rest, held);
    }
  }

  lemma {:induction false} BehindRemoved(raw: seq<Key>, stale: seq<Key>, k: Key)
    ensures var rest, held := SpliceOut(raw, IndexOf(raw, k)), HeldAfterRemove(raw, stale, k);
      rest <= held && (OneKey(stale) ==> OneKey(held[|rest|..]))
  {
    hide SpliceOut, IndexOf;
    var rest, held := SpliceOut(raw, IndexOf(raw, k)), HeldAfterRemove(raw, stale, k);
    assert held[|rest|..] == if |raw| % 2 != 0 && stale != [] then stale[..|stale| - 1] else stale;
  }

  /** What rebuilding from the present keys would leave. */
  ghost predicate Rebuilt<D>(h: Hasher<D>, s: TreeState<D>) {
    Carries(h, s, Padding(s.rawLeaves))
  }

  /** The root is the one the constructor would compute for the present keys. */
  ghost predicate RootIsRight<D>(h: Hasher<D>, s: TreeState<D>) {
    s.root == Root(h, s.rawLeaves)
  }

  /** Unless the last key is gone, that is the constructor's own result. */
  lemma {:induction false} RebuiltIsConstructed<D>(h: Hasher<D>, s: TreeState<D>)
    requires Rebuilt(h, s) && s.rawLeaves != []
    ensures var c := Constructed(h, s.rawLeaves);
      && (s.rawLeaves, s.leaves, s.tree, s.root) == (c.rawLeaves, c.leaves, c.tree, c.root)
      && (|s.tree| > 1 ==> s.depth == c.depth)
  {
    hide Constructed, TreeOf, Root, SortKeys, Padding, Sorted;
    ConstructorKeeps(h, s.rawLeaves);
    SortingSorted(s.rawLeaves);
  }

  lemma {:induction false} CarriesWidth<D>(h: Hasher<D>, s: TreeState<D>, stale: seq<Key>)
    requires Carries(h, s, stale)
    ensures Sorted(s.rawLeaves) && |s.leaves| == |s.rawLeaves| + |stale|
    ensures |s.rawLeaves + stale| <= 1 || |s.rawLeaves + stale| % 2 == 0
  {
  }

  /** Where the leaves end decides it: a leaf level of another width is not the rebuilt one. */
  lemma {:induction false} RebuiltByWidth<D>(h: Hasher<D>, s: TreeState<D>, held: seq<Key>)
    requires s.rawLeaves <= held && Carries(h, s, held[|s.rawLeaves|..])
    requires held == Padded(s.rawLeaves) || |held| != |Padded(s.rawLeaves)|
    ensures Rebuilt(h, s) <==> held == Padded(s.rawLeaves)
  {
    hide TreeOf, Root, Sorted, Padded;
  }

  /** The exact condition for a right root, for every tree: what is held expands to the same leaves as
      the keys alone. */
  lemma {:induction false} RootIsRightIff<D(!new)>(h: Hasher<D>, s: TreeState<D>, stale: seq<Key>)
    requires CollisionFree(h) && Carries(h, s, stale)
    ensures RootIsRight(h, s) <==> SameExpansion(h, s.rawLeaves + stale, s.rawLeaves)
  {
    hide CollisionFree, SameExpansion, Root, TreeOf;
    RootsEqualIffSameExpansion(h, s.rawLeaves + stale, s.rawLeaves);
  }

  lemma {:induction false} RemoveFromWellFormed<D>(h: Hasher<D>, s: TreeState<D>, k: Key)
    requires Built(h, s) && k in s.rawLeaves
    ensures var t := Removed(h, s, k);
      Built(h, t) && forall x :: x in t.rawLeaves <==> x in s.rawLeaves && x != k
  {
    hide Built, Removed, Carries, Sorted, StrictlySorted;
    var raw, rest := s.rawLeaves, SpliceOut(s.rawLeaves, IndexOf(s.rawLeaves, k));
    BuiltIffPadded(h, s);
    RemovedCarries(h, s, k, Padding(raw));
    SpliceOutSorted(raw, k);
    PaddedCases(raw);
    assert HeldAfterRemove(raw, Padding(raw), k) == rest;
    BuiltIffPadded(h, Removed(h, s, k));
  }

  lemma {:induction false} HeldAfterRemoveWidth(raw: seq<Key>, stale: seq<Key>, k: Key)
    requires k in raw && (|raw + stale| <= 1 || |raw + stale| % 2 == 0)
    ensures var rest, held := SpliceOut(raw, IndexOf(raw, k)), Padded(HeldAfterRemove(raw, stale, k));
      && rest <= held
      && (held == Padded(rest) <==> |stale| <= |raw| % 2)
      && (held == Padded(rest) <==> |held| == |Padded(rest)|)
  {
    hide Padded, Padding, IndexOf;
    var rest, kept := SpliceOut(raw, IndexOf(raw, k)), HeldAfterRemove(raw, stale, k);
    assert IndexOf(raw, k) < |raw|;
    PaddedCases(rest);
    PaddedCases(kept);
    if |stale| <= |raw| % 2 {
      assert kept == rest;
    }
  }

  lemma {:induction false} SpliceOutCount(keys: seq<Key>, k: Key)
    requires k in keys
    ensures multiset(SpliceOut(keys, IndexOf(keys, k))) == multiset(keys) - multiset{k}
  {
    hide IndexOf;
    var i := IndexOf(keys, k);
    assert i < |keys| && keys[i] == k;
    assert keys == keys[..i] + [k] + keys[i + 1..];
  }

  /** Removing a key from any tree: what stays is the rebuilt tree exactly if there was no stale padding,
      or one copy behind an odd count, whatever that copy was; and the root is right exactly if what
      is held then expands like the keys. From a well-formed tree the result always is well formed. */
  lemma {:induction false} RemoveRefinesRebuild<D(!new)>(h: Hasher<D>, s: TreeState<D>, k: Key, stale: seq<Key>)
    requires Carries(h, s, stale) && k in s.rawLeaves
    ensures var t, n := Removed(h, s, k), |s.rawLeaves|;
      && Sorted(t.rawLeaves) && multiset(t.rawLeaves) == multiset(s.rawLeaves) - multiset{k}
      && (Rebuilt(h, t) <==> |s.leaves| <= n + n % 2)
      && (CollisionFree(h) ==>
            (RootIsRight(h, t) <==> SameExpansion(h, Padded(HeldAfterRemove(s.rawLeaves, stale, k)), t.rawLeaves)))
      && (Built(h, s) ==> Built(h, t) && forall x :: x in t.rawLeaves <==> x in s.rawLeaves && x != k)
  {
    hide *;
    CarriesWidth(h, s, stale);
    var t, raw, held := Removed(h, s, k), s.rawLeaves, Padded(HeldAfterRemove(s.rawLeaves, stale, k));
    RemovedCarries(h, s, k, stale);
    SpliceOutCount(raw, k);
    HeldAfterRemoveWidth(raw, stale, k);
    RebuiltByWidth(h, t, held);
    CarriesWidth(h, t, held[|t.rawLeaves|..]);
    assert t.rawLeaves + held[|t.rawLeaves|..] == held;
    if CollisionFree(h) {
      RootIsRightIff(h, t, held[|t.rawLeaves|..]);
    }
    if Built(h, s) {
      RemoveFromWellFormed(h, s, k);
    }
  }

  // ---------------------------------------------------------------- addition

  lemma {:induction false} HashLeavesConcat<D>(h: Hasher<D>, a: seq<Key>, b: seq<Key>)
    ensures HashLeaves(h, a + b) == HashLeaves(h, a) + HashLeaves(h, b)
  {
  }

  lemma {:induction false} HashedKey<D>(h: Hasher<D>, k: Key)
    ensures HashLeaves(h, [k]) == [h.leaf(k)]
  {
  }

  lemma {:induction false} SpliceInHashes<D>(h: Hasher<D>, keys: seq<Key>, i: nat, k: Key)
    ensures SpliceIn(HashLeaves(h, keys), i, h.leaf(k)) == HashLeaves(h, SpliceIn(keys, i, k))
  {
    hide HashLeaves;
    HashedKey(h, k);
    if i < |keys| {
      HashLeavesConcat(h, keys[..i], keys[i..]);
      HashLeavesConcat(h, keys[..i], [k]);
      HashLeavesConcat(h, keys[..i] + [k], keys[i..]);
      assert keys == keys[..i] + keys[i..];
    } else {
      HashLeavesConcat(h, keys, [k]);
    }
  }

  lemma {:induction false} IndexOfHead(keys: seq<Key>, k: Key)
    requires keys != []
    ensures IndexOf(keys, k) == if keys[0] == k then 0 else 1 + IndexOf(keys[1..], k)
  {
  }

  lemma {:induction false} SpliceIntoEmpty(k: Key)
    ensures SpliceIn([], 0, k) == [k]
  {
  }

  lemma {:induction false} SpliceInTail(keys: seq<Key>, i: nat, k: Key)
    requires keys != [] && i < |keys|
    ensures SpliceIn(keys, 0, k) == [k] + keys
    ensures SpliceIn(keys, i + 1, k) == [keys[0]] + SpliceIn(keys[1..], i, k)
  {
  }

  lemma {:induction false} InsertSplices(keys: seq<Key>, k: Key)
    requires k !in keys
    ensures var r := Insert(keys, k);
      IndexOf(r, k) <= |keys| && r == SpliceIn(keys, IndexOf(r, k), k)
  {
    hide IndexOf, SpliceIn;
    IndexOfHead(Insert(keys, k), k);
    if keys == [] {
      SpliceIntoEmpty(k);
    } else if keys[0] > k {
      SpliceInTail(keys, 0, k);
    } else {
      InsertSplices(keys[1..], k);
      assert Insert(keys, k)[1..] == Insert(keys[1..], k);
      SpliceInTail(keys, IndexOf(Insert(keys[1..], k), k), k);
    }
  }

  lemma {:induction false} InsertAtEnd(keys: seq<Key>, k: Key)
    requires forall i :: 0 <= i < |keys| ==> keys[i] <= k
    ensures Insert(keys, k) == keys + [k]
  {
    if keys != [] {
      InsertAtEnd(keys[1..], k);
    }
  }

  lemma {:induction false} SortingSorted(keys: seq<Key>)
    requires Sorted(keys)
    ensures SortKeys(keys) == keys
  {
    if keys != [] {
      var n := |keys| - 1;
      SortingSorted(keys[..n]);
      InsertAtEnd(keys[..n], keys[n]);
    }
  }

  /** The sorted list with one more key is the old list with the key spliced in. */
  lemma {:induction false} SortedInsertion(raw: seq<Key>, k: Key)
    requires Sorted(raw) && k !in raw
    ensures var keys := SortKeys(raw + [k]);
      && IndexOf(keys, k) <= |raw|
      && keys == SpliceIn(raw, IndexOf(keys, k), k)
      && |keys| == |raw| + 1
      && (forall x :: x in keys <==> x in raw || x == k)
  {
    assert (raw + [k])[..|raw|] == raw;
    SortingSorted(raw);
    InsertSplices(raw, k);
    SplicedMembers(raw, IndexOf(SortKeys(raw + [k]), k), k);
  }

  lemma {:induction false} SplicedMembers(raw: seq<Key>, i: nat, k: Key)
    requires i <= |raw|
    ensures var keys := SpliceIn(raw, i, k);
      |keys| == |raw| + 1 && forall x :: x in keys <==> x in raw || x == k
  {
    assert raw == raw[..i] + raw[i..];
  }

  lemma {:induction false} StrictInsertion(raw: seq<Key>, k: Key)
    requires StrictlySorted(raw) && k !in raw
    ensures StrictlySorted(SortKeys(raw + [k]))
  {
    SortKeysStrict(raw + [k]);
  }

  /** An odd count gets one more copy of the last leaf, whatever that leaf is. */
  function WithCopy(keys: seq<Key>, held: seq<Key>): seq<Key>
    requires held != []
  {
    if |keys| % 2 != 0 then held + [held[|held| - 1]] else held
  }

  /** The keys behind the leaf hashes after `addLeaf`, before `_updateTree` pads again. */
  function HeldAfterAdd(raw: seq<Key>, stale: seq<Key>, k: Key): (r: seq<Key>)
    ensures SortKeys(raw + [k]) <= r
  {
    var keys := SortKeys(raw + [k]);
    assert k in multiset(keys);
    WithCopy(keys, keys + stale)
  }

  lemma {:induction false} WithCopyHashes<D>(h: Hasher<D>, keys: seq<Key>, held: seq<Key>)
    requires held != []
    ensures HashLeaves(h, WithCopy(keys, held))
      == if |keys| % 2 != 0 then HashLeaves(h, held) + [HashLeaves(h, held)[|held| - 1]] else HashLeaves(h, held)
  {
  }

  lemma {:induction false} SpliceInAppend(s: seq<Key>, t: seq<Key>, i: nat, k: Key)
    requires i <= |s|
    ensures SpliceIn(s + t, i, k) == SpliceIn(s, i, k) + t
  {
    assert (s + t)[..i] == s[..i] && (s + t)[i..] == s[i..] + t;
    assert SpliceIn(s, i, k) == s[..i] + [k] + s[i..];
  }

  lemma {:induction false} AddedHolds<D>(h: Hasher<D>, s: TreeState<D>, k: Key, stale: seq<Key>)
    requires Carries(h, s, stale) && k !in s.rawLeaves
    ensures Added(h, s, k) ==
      Updated(h, SortKeys(s.rawLeaves + [k]), HashLeaves(h, HeldAfterAdd(s.rawLeaves, stale, k)), s.depth)
  {
    hide Updated, TreeOf, Root, Sorted, SortKeys, IndexOf, SpliceIn, HashLeaves, WithCopy;
    var raw, keys := s.rawLeaves, SortKeys(s.rawLeaves + [k]);
    var i := IndexOf(keys, k);
    SortedInsertion(raw, k);
    SpliceInHashes(h, raw + stale, i, k);
    SpliceInAppend(raw, stale, i, k);
    WithCopyHashes(h, keys, keys + stale);
  }

  lemma {:induction false} AddedCarries<D>(h: Hasher<D>, s: TreeState<D>, k: Key, stale: seq<Key>)
    requires Carries(h, s, stale) && k !in s.rawLeaves
    ensures var t, held := Added(h, s, k), HeldAfterAdd(s.rawLeaves, stale, k);
      && t.rawLeaves == SortKeys(s.rawLeaves + [k])
      && Carries(h, t, Padded(held)[|t.rawLeaves|..])
      && (OneKey(stale) ==> OneKey(Padded(held)[|t.rawLeaves|..]))
  {
    hide Updated, Root, TreeOf, HashLeaves, Added, HeldAfterAdd, SortKeys, Carries, Sorted, OneKey, Padded;
    var keys, held := SortKeys(s.rawLeaves + [k]), HeldAfterAdd(s.rawLeaves, stale, k);
    AddedHolds(h, s, k, stale);
    UpdatedRaw(h, keys, HashLeaves(h, held), s.depth);
    UpdatedCarries(h, keys, held, s.depth);
    if OneKey(stale) {
      CopyOneKey(s.rawLeaves, stale, k);
      PaddedOneKey(keys, held);
    }
  }

  lemma {:induction false} CopyOneKey(raw: seq<Key>, stale: seq<Key>, k: Key)
    requires OneKey(stale)
    ensures OneKey(HeldAfterAdd(raw, stale, k)[|SortKeys(raw + [k])|..])
  {
    hide SortKeys;
    var keys := SortKeys(raw + [k]);
    assert k in multiset(keys);
    var held := keys + stale;
    assert WithCopy(keys, held)[|keys|..] == if |keys| % 2 != 0 then stale + [held[|held| - 1]] else stale;
  }

  /** The sizes at which adding a key is safe. */
  predicate AddsCleanly(n: nat) {
    n == 1 || (n > 0 && n % 2 == 0)
  }

  lemma {:induction false} CopyBehind(raw: seq<Key>, keys: seq<Key>)
    requires |keys| == |raw| + 1
    ensures Padded(WithCopy(keys, keys + Padding(raw))) ==
      if AddsCleanly(|raw|) then Padded(keys)
      else if raw == [] then [keys[0], keys[0]]
      else keys + [raw[|raw| - 1], raw[|raw| - 1]]
  {
    hide Padded, Padding;
    PaddedCases(raw);
    PaddedCases(keys);
    assert keys + [] == keys;
    if |raw| % 2 == 0 {
      PaddedCases(keys + [keys[|keys| - 1]]);
    } else if |raw| > 1 {
      PaddedCases(keys + [raw[|raw| - 1]]);
    }
  }

  /** What the leaf level holds after adding to a well-formed tree: at unsafe sizes the stale padding
      stays, and one more copy is added. */
  lemma {:induction false} HeldAfterCleanTree(raw: seq<Key>, k: Key)
    requires Sorted(raw) && k !in raw
    ensures var keys, held := SortKeys(raw + [k]), Padded(HeldAfterAdd(raw, Padding(raw), k));
      && |keys| == |raw| + 1
      && held == if AddsCleanly(|raw|) then Padded(keys)
                 else if raw == [] then [k, k]
                 else keys + [raw[|raw| - 1], raw[|raw| - 1]]
    ensures raw == [] ==> SortKeys(raw + [k]) == [k]
  {
    hide Sorted, SortKeys, Padded, Padding, IndexOf, WithCopy, SpliceIn;
    var keys := SortKeys(raw + [k]);
    SortedInsertion(raw, k);
    CopyBehind(raw, keys);
    assert raw == [] ==> keys[0] in keys;
  }

  /** Leaf levels with one root hold the same key at every position they share. */
  lemma {:induction false} SameRootSameKeys<D(!new)>(h: Hasher<D>, a: seq<Key>, b: seq<Key>, p: nat)
    requires CollisionFree(h) && Padded(Members(a)) == a && Padded(Members(b)) == b
    requires Root(h, a) == Root(h, b) && p < |b|
    ensures a[Slot(TreeOf(h, a), 0, p)] == b[p]
  {
    LevelSizeBounds(h, TreeOf(h, b), 0);
    SlotInRange(h, TreeOf(h, b), 0, p);
    SameKeyAt(h, b, a, p);
  }

  lemma {:induction false} StrictDiffers(keys: seq<Key>, i: nat, j: nat)
    requires StrictlySorted(keys) && i < |keys| && j < |keys| && i != j
    ensures keys[i] != keys[j]
  {
  }

  /** Over an even leaf level a position of the other parity holds another key. */
  lemma {:induction false} OtherParityHoldsOther<D>(h: Hasher<D>, keys: seq<Key>, i: nat, p: nat)
    requires Padded(Members(keys)) == keys && StrictlySorted(keys) && |keys| > 1
    requires i < |keys| && i % 2 != p % 2
    ensures keys[Slot(TreeOf(h, keys), 0, p)] != keys[i]
  {
    hide StrictlySorted, Slot;
    SlotParity(h, TreeOf(h, keys), 0, p);
    StrictDiffers(keys, Slot(TreeOf(h, keys), 0, p), i);
  }

  lemma {:induction false} EvenLeafLevel(keys: seq<Key>)
    requires keys != [] && |keys| % 2 == 0
    ensures Padded(Members(keys)) == keys
  {
  }

  /** With the stale padding the root is wrong: expansion repeats a block of the true leaf
      level, never the lone key the padding repeats. */
  lemma {:induction false} StalePaddingBreaksRoot<D(!new)>(h: Hasher<D>, keys: seq<Key>, i: nat, stale: Key)
    requires CollisionFree(h) && StrictlySorted(keys) && |keys| > 1 && |keys| % 2 == 0
    requires i < |keys| && keys[i] == stale && i >= |keys| - 2
    ensures Root(h, keys + [stale, stale]) != Root(h, keys)
  {
    hide *;
    var wrong := keys + [stale, stale];
    var p := if i % 2 == 0 then |keys| + 1 else |keys|;
    assert wrong[p] == stale;
    EvenLeafLevel(keys);
    EvenLeafLevel(wrong);
    OtherParityHoldsOther(h, keys, i, p);
    if Root(h, wrong) == Root(h, keys) {
      SameRootSameKeys(h, keys, wrong, p);
    }
  }

  lemma {:induction false} TwinRoot<D(!new)>(h: Hasher<D>, k: Key)
    requires CollisionFree(h)
    ensures Root(h, [k, k]) != Root(h, [k])
  {
    var M := TreeOf(h, [k, k]);
    LeavesAreNotNodes(h, M, |M| - 1, 0, k);
    assert TreeOf(h, [k]) == [HashLeaves(h, [k])];
  }

  /** The old maximum is last, or next to last under a new maximum. */
  lemma {:induction false} SpliceKeepsLast(raw: seq<Key>, i: nat, k: Key) returns (j: nat)
    requires raw != [] && i <= |raw|
    ensures var keys := SpliceIn(raw, i, k);
      |keys| == |raw| + 1 && |keys| - 2 <= j < |keys| && keys[j] == raw[|raw| - 1]
  {
    j := if i < |raw| then |raw| else |raw| - 1;
  }

  lemma {:induction false} StaleRoot<D(!new)>(h: Hasher<D>, raw: seq<Key>, k: Key)
    requires CollisionFree(h) && StrictlySorted(raw) && Sorted(raw) && k !in raw && !AddsCleanly(|raw|)
    ensures Root(h, Padded(HeldAfterAdd(raw, Padding(raw), k))) != Root(h, SortKeys(raw + [k]))
  {
    hide CollisionFree, StrictlySorted, Sorted, SortKeys, Padded, Root, IndexOf, HeldAfterAdd;
    var keys := SortKeys(raw + [k]);
    HeldAfterCleanTree(raw, k);
    SortedInsertion(raw, k);
    StrictInsertion(raw, k);
    if raw == [] {
      TwinRoot(h, k);
    } else {
      var j := SpliceKeepsLast(raw, IndexOf(keys, k), k);
      StalePaddingBreaksRoot(h, keys, j, raw[|raw| - 1]);
    }
  }

  lemma {:induction false} CarriesHeld<D>(h: Hasher<D>, s: TreeState<D>, held: seq<Key>)
    requires s.rawLeaves <= held && Carries(h, s, held[|s.rawLeaves|..])
    ensures s.root == Root(h, held) && |s.leaves| == |held|
    ensures held != [] ==> s.tree == TreeOf(h, held)
  {
    hide TreeOf, Root, Sorted;
    assert s.rawLeaves + held[|s.rawLeaves|..] == held;
  }

  lemma {:induction false} AddedHeld<D>(h: Hasher<D>, s: TreeState<D>, k: Key)
    requires Built(h, s) && k !in s.rawLeaves
    ensures var t, held := Added(h, s, k), Padded(HeldAfterAdd(s.rawLeaves, Padding(s.rawLeaves), k));
      && t.rawLeaves == SortKeys(s.rawLeaves + [k]) && t.rawLeaves <= held
      && Carries(h, t, held[|t.rawLeaves|..])
      && t.root == Root(h, held) && |t.leaves| == |held| && t.tree == TreeOf(h, held)
  {
    hide Built, Carries, Added, SortKeys, HeldAfterAdd, Padded, Root, TreeOf;
    var raw := s.rawLeaves;
    BuiltIffPadded(h, s);
    AddedCarries(h, s, k, Padding(raw));
    BuiltRoot(h, s);
    HeldAfterCleanTree(raw, k);
    PaddedCases(HeldAfterAdd(raw, Padding(raw), k));
    CarriesHeld(h, Added(h, s, k), Padded(HeldAfterAdd(raw, Padding(raw), k)));
  }

  lemma {:induction false} AddToWellFormed<D(!new)>(h: Hasher<D>, s: TreeState<D>, k: Key)
    requires Built(h, s) && k !in s.rawLeaves
    ensures var t, n := Added(h, s, k), |s.rawLeaves|;
      && StrictlySorted(t.rawLeaves) && (forall x :: x in t.rawLeaves <==> x in s.rawLeaves || x == k)
      && (Built(h, t) <==> AddsCleanly(n))
      && (CollisionFree(h) ==> (RootIsRight(h, t) <==> AddsCleanly(n)))
  {
    hide *;
    var raw, keys, t := s.rawLeaves, SortKeys(s.rawLeaves + [k]), Added(h, s, k);
    BuiltRoot(h, s);
    SortedInsertion(raw, k);
    StrictInsertion(raw, k);
    HeldAfterCleanTree(raw, k);
    AddedHeld(h, s, k);
    PaddedCases(keys);
    BuiltIffPadded(h, t);
    if AddsCleanly(|raw|) {
      BuiltRoot(h, t);
    } else {
      BuiltWidth(h, t);
      if CollisionFree(h) {
        StaleRoot(h, raw, k);
        WrongRoot(h, t);
      }
    }
  }

  lemma {:induction false} WrongRoot<D>(h: Hasher<D>, s: TreeState<D>)
    ensures RootIsRight(h, s) <==> s.root == Root(h, s.rawLeaves)
  {
  }

  lemma {:induction false} BuiltWidth<D>(h: Hasher<D>, s: TreeState<D>)
    ensures Built(h, s) ==> |s.leaves| == |Padded(s.rawLeaves)|
  {
  }

  lemma {:induction false} HeldAfterAddWidth(raw: seq<Key>, stale: seq<Key>, k: Key)
    requires Sorted(raw) && k !in raw && (|raw + stale| <= 1 || |raw + stale| % 2 == 0)
    ensures var keys, held := SortKeys(raw + [k]), Padded(HeldAfterAdd(raw, stale, k));
      && keys <= held
      && (held == Padded(keys) <==> raw != [] && stale == [])
      && (held == Padded(keys) <==> |held| == |Padded(keys)|)
  {
    hide Padded, Padding, SortKeys, Sorted, IndexOf, SpliceIn;
    var keys, kept := SortKeys(raw + [k]), HeldAfterAdd(raw, stale, k);
    SortedInsertion(raw, k);
    PaddedCases(keys);
    PaddedCases(kept);
    if raw != [] && stale == [] {
      assert keys + stale == keys;
      assert kept == if |keys| % 2 != 0 then keys + [keys[|keys| - 1]] else keys;
    }
  }

  lemma {:induction false} InsertionCount(raw: seq<Key>, k: Key)
    ensures Sorted(SortKeys(raw + [k])) && multiset(SortKeys(raw + [k])) == multiset(raw) + multiset{k}
  {
  }

  /** Adding a key to any tree: what stays is the rebuilt tree exactly if there were keys and no padding
      behind them; and the root is right exactly if what is held then expands like the keys. On a
      well-formed tree both come down to the size: one key, or a positive even number of keys. */
  lemma {:induction false} AddRefinesRebuild<D(!new)>(h: Hasher<D>, s: TreeState<D>, k: Key, stale: seq<Key>)
    requires Carries(h, s, stale) && k !in s.rawLeaves
    ensures var t, n := Added(h, s, k), |s.rawLeaves|;
      && Sorted(t.rawLeaves) && multiset(t.rawLeaves) == multiset(s.rawLeaves) + multiset{k}
      && (Rebuilt(h, t) <==> |s.leaves| == n > 0)
      && (CollisionFree(h) ==>
            (RootIsRight(h, t) <==> SameExpansion(h, Padded(HeldAfterAdd(s.rawLeaves, stale, k)), t.rawLeaves)))
      && (Built(h, s) ==>
            && (Built(h, t) <==> AddsCleanly(n))
            && (CollisionFree(h) ==> (RootIsRight(h, t) <==> AddsCleanly(n))))
  {
    hide *;
    CarriesWidth(h, s, stale);
    var t, raw, held := Added(h, s, k), s.rawLeaves, Padded(HeldAfterAdd(s.rawLeaves, stale, k));
    AddedCarries(h, s, k, stale);
    InsertionCount(raw, k);
    HeldAfterAddWidth(raw, stale, k);
    RebuiltByWidth(h, t, held);
    assert t.rawLeaves + held[|t.rawLeaves|..] == held;
    if CollisionFree(h) {
      RootIsRightIff(h, t, held[|t.rawLeaves|..]);
    }
    if Built(h, s) {
      AddToWellFormed(h, s, k);
    }
  }
}
