/** The levels of the sorted Merkle tree: what the builder computes, and which leaf
    sits at which position once the self-hashed right edges are expanded. */
module MerkleLevels {
  import opened Numbers
  import KeyOrder

  /** A 32-byte key, as the integer its bytes spell (see module KeyOrder). */
  type Key = nat

  /** The all-zero key, `PublicKey.default`. */
  const ZERO_KEY: Key := 0

  /** ... which is what thirty-two zero bytes spell, and no other bytes do. */
  lemma {:induction false} ZeroBytesSpellZeroKey(s: seq<KeyOrder.Byte>)
    ensures KeyOrder.BigEndian(s) == ZERO_KEY <==> forall i :: 0 <= i < |s| ==> s[i] == 0
  {
    if s != [] {
      var n := |s| - 1;
      ZeroBytesSpellZeroKey(s[..n]);
      assert forall i :: 0 <= i < n ==> s[..n][i] == s[i];
    }
  }

  /** The two tagged hash functions; nothing is assumed about them unless a lemma says so. */
  datatype Hasher<!D> = Hasher(leaf: Key -> D, node: (D, D) -> D)

  /** What the 0x00 / 0x01 tags and collision resistance are there for. */
  ghost predicate CollisionFree<D(!new)>(h: Hasher<D>) {
    && (forall a, b :: h.leaf(a) == h.leaf(b) ==> a == b)
    && (forall a, b, c, d :: h.node(a, b) == h.node(c, d) ==> a == c && b == d)
    && (forall k, a, b :: h.leaf(k) != h.node(a, b))
  }

  /** Digests as terms: an ideal hash. `Raw` stands for bytes that hash nothing known,
      such as the zero root a fresh program starts with. */
  datatype Term = Leaf(key: Key) | Node(left: Term, right: Term) | Raw(id: nat)

  const IDEAL: Hasher<Term> := Hasher(k => Leaf(k), (l, r) => Node(l, r))

  lemma {:induction false} IdealHashIsCollisionFree()
    ensures CollisionFree(IDEAL)
    ensures forall id, k :: Raw(id) != IDEAL.leaf(k)
    ensures forall id, l, r :: Raw(id) != IDEAL.node(l, r)
  {
  }

  /** The sibling of an even index: the next node, or the node itself on the right edge. */
  function RightOf(q: nat, size: nat): (r: nat)
    requires 2 * q < size
    ensures r < size
  {
    if 2 * q + 1 < size then 2 * q + 1 else size - 1
  }

  /** One level up: neighbours are hashed in pairs, a lone last node with itself. */
  function Up<D>(h: Hasher<D>, level: seq<D>): (r: seq<D>)
    ensures |r| == (|level| + 1) / 2
  {
    seq((|level| + 1) / 2, q requires 0 <= q < (|level| + 1) / 2 =>
      h.node(level[2 * q], level[RightOf(q, |level|)]))
  }

  function HashLeaves<D>(h: Hasher<D>, keys: seq<Key>): (r: seq<D>)
    ensures |r| == |keys|
  {
    seq(|keys|, i requires 0 <= i < |keys| => h.leaf(keys[i]))
  }

  /** The leaf level as a list of keys: an odd count of three or more repeats its last key. */
  function Padded<T>(s: seq<T>): (r: seq<T>)
    ensures |r| >= |s|
    ensures |r| > 1 ==> |r| % 2 == 0
  {
    if |s| > 1 && |s| % 2 == 1 then s + [s[|s| - 1]] else s
  }

  /** All levels, leaves first. */
  function Levels<D>(h: Hasher<D>, level: seq<D>): (r: seq<seq<D>>)
    requires level != []
    ensures IsTree(h, r) && r[0] == level
    decreases |level|
  {
    if |level| == 1 then [level]
    else
      var above := Levels(h, Up(h, level));
      LevelBelow(h, level, above);
      [level] + above
  }

  lemma {:induction false} LevelBelow<D>(h: Hasher<D>, level: seq<D>, above: seq<seq<D>>)
    requires |level| > 1 && IsTree(h, above) && above[0] == Up(h, level)
    ensures IsTree(h, [level] + above)
  {
    hide Up;
    var r := [level] + above;
    forall i | 0 <= i < |r| - 1 ensures Stacked(h, r, i) {
      if i > 0 {
        assert Stacked(h, above, i - 1);
      }
    }
  }

  ghost predicate IsTree<D>(h: Hasher<D>, L: seq<seq<D>>) {
    && |L| > 0
    && |L[|L| - 1]| == 1
    && (forall i :: 0 <= i < |L| ==> |L[i]| > 0)
    && (forall i :: 0 <= i < |L| - 1 ==> Stacked(h, L, i))
  }

  /** Level `i` is no root yet, and the next level is computed from it. */
  ghost predicate Stacked<D>(h: Hasher<D>, L: seq<seq<D>>, i: nat)
    requires i < |L| - 1
  {
    |L[i]| > 1 && L[i + 1] == Up(h, L[i])
  }

  /** A tree whose leaf level hashes exactly these keys, padding included. */
  ghost predicate IsTreeOver<D>(h: Hasher<D>, L: seq<seq<D>>, leaves: seq<Key>) {
    IsTree(h, L) && L[0] == HashLeaves(h, leaves)
  }

  /** The levels over a key list; no keys at all count as the zero key alone. */
  function TreeOf<D>(h: Hasher<D>, keys: seq<Key>): (r: seq<seq<D>>)
    ensures IsTreeOver(h, r, Padded(Members(keys)))
  {
    Levels(h, HashLeaves(h, Padded(Members(keys))))
  }

  function Members(keys: seq<Key>): (r: seq<Key>)
    ensures r != []
  {
    if keys == [] then [ZERO_KEY] else keys
  }

  function Root<D>(h: Hasher<D>, keys: seq<Key>): D {
    var L := TreeOf(h, keys);
    L[|L| - 1][0]
  }

  /** Position `p` of level `i`, counted as if the tree were perfect, is held by this node. */
  function Slot<D>(L: seq<seq<D>>, i: nat, p: nat): (r: nat)
    requires i < |L| && forall k :: 0 <= k < |L| ==> |L[k]| > 0
    ensures r < |L[i]|
    decreases |L| - i
  {
    if i == |L| - 1 then 0
    else
      var q := 2 * Slot(L, i + 1, p / 2) + p % 2;
      if q < |L[i]| then q else |L[i]| - 1
  }

  ghost predicate Sorted(keys: seq<Key>) {
    forall i, j :: 0 <= i < j < |keys| ==> keys[i] <= keys[j]
  }

  ghost predicate StrictlySorted(keys: seq<Key>) {
    forall i, j :: 0 <= i < j < |keys| ==> keys[i] < keys[j]
  }

  // ---------------------------------------------------------------- sizes

  lemma {:induction false} TreeSizes<D>(h: Hasher<D>, L: seq<seq<D>>, i: nat)
    requires IsTree(h, L) && i + 1 < |L|
    ensures |L[i + 1]| == (|L[i]| + 1) / 2 && |L[i]| > 1
  {
    assert Stacked(h, L, i);
  }

  lemma {:induction false} LevelSizeBounds<D>(h: Hasher<D>, L: seq<seq<D>>, i: nat)
    requires IsTree(h, L) && i < |L|
    ensures |L[i]| <= Pow2(|L| - 1 - i)
    ensures i < |L| - 1 ==> Pow2(|L| - 2 - i) < |L[i]|
    decreases |L| - i
  {
    if i < |L| - 1 {
      TreeSizes(h, L, i);
      LevelSizeBounds(h, L, i + 1);
    }
  }

  /** The tree over n keys has ceil(log2 n) levels above the leaves. */
  lemma {:induction false} DepthIsCeilLog2<D>(h: Hasher<D>, keys: seq<Key>)
    requires keys != []
    ensures var d := |TreeOf(h, keys)| - 1;
      |keys| <= Pow2(d) && (d > 0 ==> Pow2(d - 1) < |keys|)
  {
    LevelSizeBounds(h, TreeOf(h, keys), 0);
  }

  // ---------------------------------------------------------------- positions

  /** Within a level's real width, a position is held by the node of that index. */
  lemma {:induction false} SlotInRange<D>(h: Hasher<D>, L: seq<seq<D>>, i: nat, p: nat)
    requires IsTree(h, L) && i < |L| && p < |L[i]|
    ensures Slot(L, i, p) == p
    decreases |L| - i
  {
    if i < |L| - 1 {
      TreeSizes(h, L, i);
      SlotInRange(h, L, i + 1, p / 2);
    }
  }

  /** Neighbouring positions hold neighbouring nodes, except that the last node of the
      level may be followed by a copy of an earlier block. */
  lemma {:induction false} SlotNeighbours<D>(h: Hasher<D>, L: seq<seq<D>>, i: nat, p: nat)
    requires IsTree(h, L) && i < |L| && p + 1 < Pow2(|L| - 1 - i)
    ensures Slot(L, i, p + 1) == Slot(L, i, p) + 1 || Slot(L, i, p) == |L[i]| - 1
    decreases |L| - i
  {
    if i < |L| - 1 {
      TreeSizes(h, L, i);
      if p % 2 == 1 {
        assert (p + 1) / 2 == p / 2 + 1 && (p + 1) % 2 == 0;
        SlotNeighbours(h, L, i + 1, p / 2);
      } else {
        assert (p + 1) / 2 == p / 2 && (p + 1) % 2 == 1;
      }
    }
  }

  /** The last position of a level is always held by its last node. */
  lemma {:induction false} SlotLast<D>(h: Hasher<D>, L: seq<seq<D>>, i: nat)
    requires IsTree(h, L) && i < |L|
    ensures Slot(L, i, Pow2(|L| - 1 - i) - 1) == |L[i]| - 1
    decreases |L| - i
  {
    if i < |L| - 1 {
      TreeSizes(h, L, i);
      SlotLast(h, L, i + 1);
      var m := Pow2(|L| - 2 - i);
      assert (2 * m - 1) / 2 == m - 1 && (2 * m - 1) % 2 == 1;
    }
  }

  /** Over a level of even width, expansion keeps left children left and right children right. */
  lemma {:induction false} SlotParity<D>(h: Hasher<D>, L: seq<seq<D>>, i: nat, p: nat)
    requires IsTree(h, L) && i < |L| - 1 && |L[i]| % 2 == 0
    ensures Slot(L, i, p) % 2 == p % 2
  {
    TreeSizes(h, L, i);
  }
}
