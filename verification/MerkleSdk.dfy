/** The TypeScript tree: a mutable object kept in step by `_updateTree`, with its edits
    and the two proof generators. */
module MerkleSdk {
  import opened MerkleLevels
  import opened MerkleVerifier
  import opened MerklePaths
  import opened MerkleProver

  datatype TreeError = LeafExists | ZeroLeaf | LeafNotFound | LeafFound | ParentNotFound

  datatype Outcome<+T> = Returned(value: T) | Thrown(error: TreeError)

  // ---------------------------------------------------------------- values

  function Insert(keys: seq<Key>, k: Key): (r: seq<Key>)
    ensures multiset(r) == multiset(keys) + multiset{k}
  {
    if keys == [] then [k]
    else if keys[0] > k then [k] + keys
    else
      assert keys == [keys[0]] + keys[1..];
      [keys[0]] + Insert(keys[1..], k)
  }

  lemma {:induction false} InsertKeepsSorted(keys: seq<Key>, k: Key)
    requires Sorted(keys)
    ensures Sorted(Insert(keys, k))
  {
    if keys != [] && keys[0] <= k {
      var rest := Insert(keys[1..], k);
      InsertKeepsSorted(keys[1..], k);
      forall i | 0 <= i < |rest| ensures keys[0] <= rest[i] {
        assert rest[i] in multiset(rest);
        assert rest[i] == k || rest[i] in keys[1..];
      }
    }
  }

  /** `Array.sort(bufferSort)`. */
  function SortKeys(keys: seq<Key>): (r: seq<Key>)
    ensures Sorted(r) && multiset(r) == multiset(keys)
  {
    if keys == [] then []
    else
      var n := |keys| - 1;
      assert keys == keys[..n] + [keys[n]];
      InsertKeepsSorted(SortKeys(keys[..n]), keys[n]);
      Insert(SortKeys(keys[..n]), keys[n])
  }

  /** The fields of the object. */
  datatype TreeState<D> = TreeState(rawLeaves: seq<Key>, leaves: seq<D>, tree: seq<seq<D>>, root: D, depth: nat)

  /** What `_updateTree` makes of the hashed leaves; the depth survives from before when
      there are fewer than two. */
  function Updated<D>(h: Hasher<D>, rawLeaves: seq<Key>, leaves: seq<D>, depth: nat): TreeState<D> {
    if leaves == [] then TreeState(rawLeaves, [], [], h.leaf(ZERO_KEY), depth)
    else
      var L := Levels(h, Padded(leaves));
      TreeState(rawLeaves, Padded(leaves), L, L[|L| - 1][0], if |leaves| == 1 then depth else |L| - 1)
  }

  function Constructed<D>(h: Hasher<D>, keys: seq<Key>): TreeState<D> {
    var raw := SortKeys(Members(keys));
    Updated(h, raw, HashLeaves(h, raw), 0)
  }

  /** `splice(i, 0, x)`. */
  function SpliceIn<T>(s: seq<T>, i: nat, x: T): (r: seq<T>)
    ensures |r| == |s| + 1
  {
    if i < |s| then s[..i] + [x] + s[i..] else s + [x]
  }

  /** `splice(i, 1)`. */
  function SpliceOut<T>(s: seq<T>, i: nat): seq<T> {
    if i < |s| then s[..i] + s[i + 1..] else s
  }

  function Added<D>(h: Hasher<D>, s: TreeState<D>, k: Key): TreeState<D> {
    var raw := SortKeys(s.rawLeaves + [k]);
    var leaves := SpliceIn(s.leaves, IndexOf(raw, k), h.leaf(k));
    Updated(h, raw, if |raw| % 2 != 0 then leaves + [leaves[|leaves| - 1]] else leaves, s.depth)
  }

  function Removed<D>(h: Hasher<D>, s: TreeState<D>, k: Key): TreeState<D> {
    var i := IndexOf(s.rawLeaves, k);
    var leaves := if |s.rawLeaves| % 2 != 0 && s.leaves != [] then s.leaves[..|s.leaves| - 1] else s.leaves;
    Updated(h, SpliceOut(s.rawLeaves, i), SpliceOut(leaves, i), s.depth)
  }

  /** The state is what the constructor would leave for these keys (a set that became
      empty keeps no placeholder, only its root). */
  ghost predicate Built<D>(h: Hasher<D>, s: TreeState<D>) {
    && StrictlySorted(s.rawLeaves)
    && s.root == Root(h, s.rawLeaves)
    && (s.rawLeaves == [] ==> s.leaves == [] && s.tree == [])
    && (s.rawLeaves != [] ==> s.leaves == HashLeaves(h, Padded(s.rawLeaves)) && s.tree == TreeOf(h, s.rawLeaves))
    && (|s.tree| > 1 ==> s.depth == |s.tree| - 1)
  }

  /** What every tree keeps, whatever was done to it: the hashed leaves begin with the hashes of the
      sorted keys, stale padding may follow, and levels, root and depth are those of the leaves. */
  ghost predicate Carries<D>(h: Hasher<D>, s: TreeState<D>, stale: seq<Key>) {
    var held := s.rawLeaves + stale;
    && Sorted(s.rawLeaves)
    && (|held| <= 1 || |held| % 2 == 0)
    && s.leaves == HashLeaves(h, held)
    && s.root == Root(h, held)
    && s.tree == (if held == [] then [] else TreeOf(h, held))
    && (|s.tree| > 1 ==> s.depth == |s.tree| - 1)
  }

  /** All stale padding is copies of one key. */
  ghost predicate OneKey(stale: seq<Key>) {
    forall i, j :: 0 <= i < j < |stale| ==> stale[i] == stale[j]
  }

  ghost predicate Kept<D>(h: Hasher<D>, s: TreeState<D>) {
    exists stale :: Carries(h, s, stale) && OneKey(stale)
  }

  /** The index at which `getInclusionProof` starts to climb for a key. */
  function StartOf<D>(s: TreeState<D>, k: Key, useDuplicate: bool): nat {
    ProvenIndex(|s.leaves|, IndexOf(s.rawLeaves, k), |s.rawLeaves|, useDuplicate)
  }

  lemma {:induction false} KeptTree<D(!new)>(h: Hasher<D>, s: TreeState<D>, k: Key, useDuplicate: bool)
    requires Kept(h, s) && k in s.rawLeaves
    ensures IsTree(h, s.tree) && s.tree[0] == s.leaves && s.root == s.tree[|s.tree| - 1][0]
    ensures |s.tree| > 1 ==> s.depth == |s.tree| - 1
    ensures |s.tree| <= 1 <==> |s.leaves| == 1
    ensures IndexOf(s.rawLeaves, k) < |s.rawLeaves| <= |s.leaves|
    ensures s.leaves[IndexOf(s.rawLeaves, k)] == h.leaf(k)
    ensures StartOf(s, k, useDuplicate) < |s.leaves|
    ensures CollisionFree(h) ==> LeadsFirst(s.leaves, StartOf(s, k, useDuplicate))
  {
    hide CollisionFree, LeadsFirst, Sorted, Levels, Padded, OneKey, Stacked;
    var stale :| Carries(h, s, stale) && OneKey(stale);
    var held := s.rawLeaves + stale;
    assert s.rawLeaves <= held;
    assert IsLeafLevel(s.rawLeaves, held);
    LeafLevelIsPadded(s.rawLeaves, held);
    assert held[IndexOf(s.rawLeaves, k)] == k;
    if |s.tree| > 1 {
      TreeSizes(h, s.tree, 0);
    }
    if CollisionFree(h) {
      ProvenIndexLeads(h, s.rawLeaves, held, k, useDuplicate);
    }
  }

  // ---------------------------------------------------------------- the object

  class MerkleTree<D(==,!new)> {
    const h: Hasher<D>
    var rawLeaves: seq<Key>
    var leaves: seq<D>
    var tree: seq<seq<D>>
    var root: D
    var depth: nat

    ghost function Fields(): TreeState<D>
      reads this
    {
      TreeState(rawLeaves, leaves, tree, root, depth)
    }

    /** `new Set` on key objects drops none of them: equal keys are distinct objects. */
    constructor (h: Hasher<D>, keys: seq<Key>)
      ensures this.h == h && Fields() == Constructed(h, keys)
    {
      this.h := h;
      rawLeaves := SortKeys(Members(keys));
      leaves := HashLeaves(h, SortKeys(Members(keys)));
      tree := [];
      root := h.leaf(ZERO_KEY);
      depth := 0;
      new;
      UpdateTree();
    }

    method UpdateTree()
      modifies this
      ensures Fields() == Updated(h, old(rawLeaves), old(leaves), old(depth))
      ensures rawLeaves == old(rawLeaves)
      ensures |old(leaves)| <= 1 ==> leaves == old(leaves) && depth == old(depth) && |tree| == |leaves|
      ensures |old(leaves)| > 1 ==> IsTree(h, tree) && depth == |tree| - 1 && root == tree[depth][0]
    {
      tree := [];
      var len := |leaves|;
      if len == 0 {
        root := h.leaf(ZERO_KEY);
        return;
      }
      if len == 1 {
        tree := [leaves];
        root := tree[0][0];
        return;
      }
      if len % 2 != 0 {
        leaves := leaves + [leaves[len - 1]];
        len := len + 1;
      }
      tree := BuildLevels(leaves);
      depth := |tree| - 1;
      root := tree[depth][0];
    }

    /** The level loop of `_updateTree`. */
    method BuildLevels(bottom: seq<D>) returns (levels: seq<seq<D>>)
      requires |bottom| > 1
      ensures levels == Levels(h, bottom)
    {
      hide IsTree, Stacked;
      levels := [bottom];
      var level, len := 0, |bottom|;
      while len > 1
        invariant |levels| == level + 1 && len == |levels[level]| >= 1
        invariant levels[..level] + Levels(h, levels[level]) == Levels(h, bottom)
        decreases len
      {
        level := level + 1;
        var nodes := NextLevel(levels[level - 1]);
        ghost var below := levels[..level - 1];
        levels := levels + [nodes];
        assert levels[..level] == below + [levels[level - 1]];
        assert Levels(h, levels[level - 1]) == [levels[level - 1]] + Levels(h, nodes);
        len := (len + 1) / 2;
      }
      assert levels == levels[..level] + [levels[level]];
    }

    /** The pair loop of `_updateTree`. */
    method NextLevel(lastNodes: seq<D>) returns (nodes: seq<D>)
      requires |lastNodes| > 1
      ensures nodes == Up(h, lastNodes)
    {
      var len := |lastNodes|;
      nodes := [];
      var i := 0;
      while i < len - 1
        invariant i % 2 == 0 && i <= len && |nodes| == i / 2
        invariant forall q :: 0 <= q < i / 2 ==> nodes[q] == Up(h, lastNodes)[q]
      {
        ghost var q := i / 2;
        assert i == 2 * q && Up(h, lastNodes)[q] == h.node(lastNodes[2 * q], lastNodes[RightOf(q, len)]);
        nodes := nodes + [h.node(lastNodes[i], lastNodes[i + 1])];
        i := i + 2;
      }
      if len % 2 != 0 {
        ghost var q := i / 2;
        assert i == 2 * q && Up(h, lastNodes)[q] == h.node(lastNodes[2 * q], lastNodes[RightOf(q, len)]);
        nodes := nodes + [h.node(lastNodes[len - 1], lastNodes[len - 1])];
      }
    }

    method GetLeafIndex(leaf: Key) returns (r: int)
      ensures r == if leaf in rawLeaves then IndexOf(rawLeaves, leaf) else -1
    {
      for i := 0 to |rawLeaves|
        invariant leaf !in rawLeaves[..i]
      {
        if rawLeaves[i] == leaf {
          return i;
        }
      }
      return -1;
    }

    method GetTreeIndex(level: nat, node: D) returns (r: int)
      requires level < |tree|
      ensures if node in tree[level]
        then 0 <= r < |tree[level]| && tree[level][r] == node && node !in tree[level][..r]
        else r == -1
    {
      for i := 0 to |tree[level]|
        invariant node !in tree[level][..i]
      {
        if tree[level][i] == node {
          return i;
        }
      }
      return -1;
    }

    method AddLeaf(leaf: Key) returns (r: Outcome<()>)
      modifies this
      ensures r == if leaf in old(rawLeaves) then Thrown(LeafExists)
                   else if leaf == ZERO_KEY then Thrown(ZeroLeaf) else Returned(())
      ensures Fields() == if r.Returned? then Added(h, old(Fields()), leaf) else old(Fields())
    {
      hide Updated, SortKeys, IndexOf, SpliceIn;
      var leafIndex := GetLeafIndex(leaf);
      if leafIndex != -1 {
        return Thrown(LeafExists);
      }
      if leaf == ZERO_KEY {
        return Thrown(ZeroLeaf);
      }
      rawLeaves := SortKeys(rawLeaves + [leaf]);
      var index := IndexOf(rawLeaves, leaf);
      leaves := SpliceIn(leaves, index, h.leaf(leaf));
      if |rawLeaves| % 2 != 0 {
        leaves := leaves + [leaves[|leaves| - 1]];
      }
      UpdateTree();
      return Returned(());
    }

    method RemoveLeaf(leaf: Key) returns (r: Outcome<()>)
      modifies this
      ensures r == if leaf in old(rawLeaves) then Returned(()) else Thrown(LeafNotFound)
      ensures Fields() == if r.Returned? then Removed(h, old(Fields()), leaf) else old(Fields())
    {
      var index := GetLeafIndex(leaf);
      if index == -1 {
        return Thrown(LeafNotFound);
      }
      if |rawLeaves| % 2 != 0 && leaves != [] {
        leaves := leaves[..|leaves| - 1];
      }
      leaves := SpliceOut(leaves, index);
      rawLeaves := SpliceOut(rawLeaves, index);
      UpdateTree();
      return Returned(());
    }

    /** Stated for every tree that edits can leave behind. Only a climb that starts at padding, asked
        for by `useDuplicate`, may begin at another key's digest. */
    method GetInclusionProof(leaf: Key, useDuplicate: bool) returns (r: Outcome<seq<ProofElement<D>>>)
      requires Kept(h, Fields())
      ensures leaf !in rawLeaves ==> r == Thrown(LeafNotFound)
      ensures leaf in rawLeaves ==>
        var p := StartOf(Fields(), leaf, useDuplicate);
        && r.Returned? && p < |leaves| && |r.value| == |tree| - 1
        && Fold(h, leaves[p], r.value) == root
        && (!useDuplicate ==> leaves[p] == h.leaf(leaf))
        && (CollisionFree(h) ==> IsTree(h, tree) && r.value == PathFrom(h, tree, 0, p))
    {
      hide Kept, CollisionFree, LeadsFirst, IndexOf;
      var leafIndex := GetLeafIndex(leaf);
      if leafIndex == -1 {
        return Thrown(LeafNotFound);
      }
      var index: nat := leafIndex;
      KeptTree(h, Fields(), leaf, useDuplicate);
      if |tree| <= 1 {
        return Returned([]);
      }
      var rawLen := |rawLeaves|;
      if rawLen % 2 != 0 && index == rawLen - 1 && useDuplicate {
        index := index + 1;
      }
      r := Climb(index);
    }

    /** The sibling loop of `getInclusionProof`. */
    method Climb(start: nat) returns (r: Outcome<seq<ProofElement<D>>>)
      requires IsTree(h, tree) && depth == |tree| - 1 && start < |tree[0]|
      ensures r.Returned? && |r.value| == depth
      ensures Fold(h, tree[0][start], r.value) == tree[depth][0]
      ensures CollisionFree(h) && LeadsFirst(tree[0], start) ==> r.value == PathFrom(h, tree, 0, start)
    {
      hide CollisionFree, LeadsFirst;
      ghost var L := tree;
      var index: nat := start;
      var proof: seq<ProofElement<D>> := [];
      for i := 0 to depth
        invariant Climbed(h, L, start, i, index, proof)
      {
        var siblingOnRight := index % 2 == 0;
        var siblingIndex := if siblingOnRight then (if index == |tree[i]| - 1 then index else index + 1) else index - 1;
        var sibling := tree[i][siblingIndex];
        var element := ProofElement(sibling, siblingOnRight);
        var parent := if siblingOnRight then h.node(tree[i][index], sibling) else h.node(sibling, tree[i][index]);
        SiblingStep(h, L, i, index);
        assert parent == FoldStep(h, L[i][index], SiblingOf(L[i], index)) == L[i + 1][index / 2];
        var parentIndex := GetTreeIndex(i + 1, parent);
        if parentIndex == -1 {
          return Thrown(ParentNotFound);
        }
        ClimbStep(h, L, start, i, index, parentIndex, proof, element);
        proof := proof + [element];
        index := parentIndex;
      }
      return Returned(proof);
    }

    method VerifyInclusionProof(leaf: Key, proof: seq<ProofElement<D>>) returns (r: bool)
      ensures r == (Fold(h, h.leaf(leaf), proof) == root)
    {
      var currentHash := h.leaf(leaf);
      for i := 0 to |proof|
        invariant currentHash == Fold(h, h.leaf(leaf), proof[..i])
      {
        assert proof[..i + 1][..i] == proof[..i];
        if proof[i].onRight {
          currentHash := h.node(currentHash, proof[i].node);
        } else {
          currentHash := h.node(proof[i].node, currentHash);
        }
      }
      assert proof[..|proof|] == proof;
      return currentHash == root;
    }

    method GetExclusionProof(leaf: Key)
      returns (r: Outcome<(seq<seq<ProofElement<D>>>, seq<Key>)>)
      requires Kept(h, Fields())
      ensures leaf in rawLeaves ==> r == Thrown(LeafFound)
      ensures leaf !in rawLeaves ==> r.Returned?
      ensures leaf !in rawLeaves && CollisionFree(h) ==>
        (rawLeaves != [] ==> IsTree(h, tree)) && r.value == Offered(h, tree, rawLeaves, leaf)
    {
      hide Kept, CollisionFree, IsTree, ProofFor, GapOf;
      var leafIndex := GetLeafIndex(leaf);
      if leafIndex != -1 {
        return Thrown(LeafFound);
      }
      var index := GapIndex(leaf);
      var len := |rawLeaves|;
      if index == 0 {
        if len == 0 {
          return Returned(([[]], [ZERO_KEY]));
        }
        var proof := ProofOf(0, false);
        return Returned(([proof], [rawLeaves[0]]));
      }
      if index >= len {
        var proof := ProofOf(len - 1, true);
        return Returned(([proof], [rawLeaves[len - 1]]));
      }
      var leftProof := ProofOf(index - 1, false);
      var rightProof := ProofOf(index, false);
      return Returned(([leftProof, rightProof], [rawLeaves[index - 1], rawLeaves[index]]));
    }

    /** The call `getInclusionProof` makes for one of the sorted leaves, which it never refuses. */
    method ProofOf(i: nat, useDuplicate: bool) returns (proof: seq<ProofElement<D>>)
      requires Kept(h, Fields()) && i < |rawLeaves|
      ensures CollisionFree(h) ==> IsTree(h, tree) && proof == ProofFor(h, tree, rawLeaves, i, useDuplicate)
    {
      hide Kept, CollisionFree, PathFrom;
      KeptTree(h, Fields(), rawLeaves[i], useDuplicate);
      var r := GetInclusionProof(rawLeaves[i], useDuplicate);
      return r.value;
    }

    /** The search loop of `getExclusionProof`; past the end an odd list counts its padding. */
    method GapIndex(leaf: Key) returns (index: nat)
      requires leaf !in rawLeaves
      ensures var g := GapOf(rawLeaves, leaf);
        index == if g == |rawLeaves| then |rawLeaves| + |rawLeaves| % 2 else g
    {
      index := 0;
      var len := |rawLeaves|;
      for i := 0 to len
        invariant forall j :: 0 <= j < i ==> rawLeaves[j] <= leaf
        invariant index == if i == len then len + len % 2 else 0
      {
        if leaf < rawLeaves[i] {
          index := i;
          break;
        }
        if i == len - 1 {
          index := if len % 2 == 0 then len else len + 1;
        }
      }
    }
  }
}
