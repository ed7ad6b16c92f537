/** Any number of edits in a row. */
module MerkleRuns {
  import opened MerkleLevels
  import opened MerkleProver
  import opened MerkleSdk
  import opened MerkleEdits

  datatype Edit = Add(key: Key) | Remove(key: Key)

  /** `addLeaf` and `removeLeaf` as calls: a refused call changes nothing. */
  function Apply<D>(h: Hasher<D>, s: TreeState<D>, e: Edit): TreeState<D> {
    match e
    case Add(k) => if k in s.rawLeaves || k == ZERO_KEY then s else Added(h, s, k)
    case Remove(k) => if k in s.rawLeaves then Removed(h, s, k) else s
  }

  function Run<D>(h: Hasher<D>, s: TreeState<D>, edits: seq<Edit>): TreeState<D>
    decreases |edits|
  {
    if edits == [] then s else Run(h, Apply(h, s, edits[0]), edits[1..])
  }

  /** The same calls on a plain set; every addition must find a safe number of keys. */
  function SetRun(keys: set<Key>, edits: seq<Edit>): set<Key>
    decreases |edits|
  {
    if edits == [] then keys
    else SetRun(match edits[0] case Add(k) => if k == ZERO_KEY then keys else keys + {k} case Remove(k) => keys - {k},
                edits[1..])
  }

  predicate CleanRun(keys: set<Key>, edits: seq<Edit>)
    decreases |edits|
  {
    edits == [] ||
    match edits[0]
    case Add(k) =>
      if k == ZERO_KEY then CleanRun(keys, edits[1..])
      else (k in keys || AddsCleanly(|keys|)) && CleanRun(keys + {k}, edits[1..])
    case Remove(k) => CleanRun(keys - {k}, edits[1..])
  }

  function KeySet(keys: seq<Key>): set<Key> {
    set k | k in keys
  }

  lemma {:induction false} StrictKeySetSize(keys: seq<Key>)
    requires StrictlySorted(keys)
    ensures |KeySet(keys)| == |keys|
  {
    if keys != [] {
      StrictKeySetSize(keys[1..]);
      assert KeySet(keys) == {keys[0]} + KeySet(keys[1..]) by {
        assert keys == [keys[0]] + keys[1..];
      }
      assert keys[0] !in keys[1..];
    }
  }

  lemma {:induction false} ApplyKeepsBuilt<D(!new)>(h: Hasher<D>, s: TreeState<D>, e: Edit)
    requires Built(h, s)
    requires e.Add? && e.key !in s.rawLeaves && e.key != ZERO_KEY ==> AddsCleanly(|s.rawLeaves|)
    ensures Built(h, Apply(h, s, e))
    ensures KeySet(Apply(h, s, e).rawLeaves) == SetRun(KeySet(s.rawLeaves), [e])
  {
    hide Built, Added, Removed;
    if e.Add? && e.key !in s.rawLeaves && e.key != ZERO_KEY {
      AddToWellFormed(h, s, e.key);
    } else if e.Remove? && e.key in s.rawLeaves {
      RemoveFromWellFormed(h, s, e.key);
    }
    assert SetRun(KeySet(s.rawLeaves), [e]) ==
      match e case Add(k) => if k == ZERO_KEY then KeySet(s.rawLeaves) else KeySet(s.rawLeaves) + {k}
              case Remove(k) => KeySet(s.rawLeaves) - {k};
  }

  /** Every tree, whatever keys it was built from and however it was edited, begins with the hashes of
      its sorted keys, followed at most by copies of one key, and carries the levels and root of those
      leaves: its proofs can be generated. */
  lemma {:induction false} EveryTreeIsKept<D>(h: Hasher<D>, given: seq<Key>, edits: seq<Edit>)
    ensures Kept(h, Run(h, Constructed(h, given), edits))
  {
    hide Carries, Constructed, OneKey;
    ConstructorKeeps(h, given);
    RunKeeps(h, Constructed(h, given), edits);
  }

  lemma {:induction false} RunKeeps<D>(h: Hasher<D>, s: TreeState<D>, edits: seq<Edit>)
    requires Kept(h, s)
    ensures Kept(h, Run(h, s, edits))
    decreases |edits|
  {
    hide Kept, Apply;
    if edits != [] {
      ApplyKeeps(h, s, edits[0]);
      RunKeeps(h, Apply(h, s, edits[0]), edits[1..]);
    }
  }

  lemma {:induction false} ApplyKeeps<D>(h: Hasher<D>, s: TreeState<D>, e: Edit)
    requires Kept(h, s)
    ensures Kept(h, Apply(h, s, e))
  {
    hide Carries, Added, Removed, OneKey, Padded, HeldAfterAdd, HeldAfterRemove, IndexOf, SpliceOut, SortKeys;
    var stale :| Carries(h, s, stale) && OneKey(stale);
    if e.Add? && e.key !in s.rawLeaves && e.key != ZERO_KEY {
      AddedCarries(h, s, e.key, stale);
    } else if e.Remove? && e.key in s.rawLeaves {
      RemovedCarries(h, s, e.key, stale);
    }
  }

  /** Any number of edits that only add at safe sizes leaves the tree that the constructor
      builds for the resulting set. */
  lemma {:induction false} EditRunRefinesRebuild<D(!new)>(h: Hasher<D>, s: TreeState<D>, edits: seq<Edit>)
    requires Built(h, s) && CleanRun(KeySet(s.rawLeaves), edits)
    ensures var t := Run(h, s, edits);
      Built(h, t) && KeySet(t.rawLeaves) == SetRun(KeySet(s.rawLeaves), edits)
    decreases |edits|
  {
    hide Built, Apply, KeySet;
    if edits != [] {
      BuiltRoot(h, s);
      StrictKeySetSize(s.rawLeaves);
      KeySetMember(s.rawLeaves, edits[0].key);
      ApplyKeepsBuilt(h, s, edits[0]);
      EditRunRefinesRebuild(h, Apply(h, s, edits[0]), edits[1..]);
    }
  }

  lemma {:induction false} KeySetMember(keys: seq<Key>, k: Key)
    ensures k in KeySet(keys) <==> k in keys
  {
  }

  lemma {:induction false} UncleanAddBreaksRoot<D(!new)>(h: Hasher<D>, s: TreeState<D>, k: Key)
    requires CollisionFree(h) && Built(h, s)
    requires k !in s.rawLeaves && k != ZERO_KEY && !AddsCleanly(|s.rawLeaves|)
    ensures !RootIsRight(h, Apply(h, s, Add(k)))
  {
    hide Built, Added, Root;
    AddToWellFormed(h, s, k);
  }

  /** Running a prefix of a longer run. */
  lemma {:induction false} RunOfPrefix<D>(h: Hasher<D>, s: TreeState<D>, edits: seq<Edit>, j: nat)
    requires 0 < j <= |edits|
    ensures Run(h, s, edits[..j]) == Run(h, Apply(h, s, edits[0]), edits[1..][..j - 1])
  {
    assert edits[..j][1..] == edits[1..][..j - 1];
  }

  /** The root is right at every point of a run exactly if the run only adds at safe sizes. */
  lemma {:induction false} RootsRightIffClean<D(!new)>(h: Hasher<D>, s: TreeState<D>, edits: seq<Edit>)
    requires CollisionFree(h) && Built(h, s)
    ensures CleanRun(KeySet(s.rawLeaves), edits)
      <==> forall j :: 0 <= j <= |edits| ==> RootIsRight(h, Run(h, s, edits[..j]))
    decreases |edits|
  {
    hide Built, Apply, KeySet, CollisionFree, RootIsRight;
    assert RootIsRight(h, Run(h, s, edits[..0])) by {
      BuiltRoot(h, s);
    }
    if edits != [] {
      var e, t := edits[0], Apply(h, s, edits[0]);
      BuiltRoot(h, s);
      StrictKeySetSize(s.rawLeaves);
      KeySetMember(s.rawLeaves, e.key);
      RunOfPrefix(h, s, edits, 1);
      if e.Add? && e.key !in s.rawLeaves && e.key != ZERO_KEY && !AddsCleanly(|s.rawLeaves|) {
        UncleanAddBreaksRoot(h, s, e.key);
      } else {
        ApplyKeepsBuilt(h, s, e);
        RootsRightIffClean(h, t, edits[1..]);
        forall j | 0 < j <= |edits| ensures Run(h, s, edits[..j]) == Run(h, t, edits[1..][..j - 1]) {
          RunOfPrefix(h, s, edits, j);
        }
        assert (forall j :: 0 <= j <= |edits| ==> RootIsRight(h, Run(h, s, edits[..j]))) ==>
          forall i :: 0 <= i <= |edits[1..]| ==> RootIsRight(h, Run(h, t, edits[1..][..i])) by {
          forall i | 0 <= i <= |edits[1..]| ensures Run(h, t, edits[1..][..i]) == Run(h, s, edits[..i + 1]) {
          }
        }
      }
    }
  }
}
