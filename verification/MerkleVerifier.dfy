/** The on-chain verifier: folding a proof to a root, and the two acceptance checks. */
module MerkleVerifier {
  import opened Numbers
  import opened MerkleLevels

  datatype ProofElement<D> = ProofElement(node: D, onRight: bool)

  /** `Abort` is the arithmetic panic that release builds keep (Cargo.toml turns on overflow checks). */
  datatype Verdict<+T> = Ok(value: T) | InvalidProof | Abort

  /** 2u64.pow overflows from the 64th power on. */
  const MAX_LEVELS: nat := 64
  const U64_LIMIT: nat := 0x1_0000_0000_0000_0000

  function FoldStep<D>(h: Hasher<D>, x: D, e: ProofElement<D>): D {
    if e.onRight then h.node(x, e.node) else h.node(e.node, x)
  }

  function Fold<D>(h: Hasher<D>, x: D, proof: seq<ProofElement<D>>): D {
    if proof == [] then x
    else FoldStep(h, Fold(h, x, proof[..|proof| - 1]), proof[|proof| - 1])
  }

  /** What the running index adds up to: 2^i for every sibling on the left. */
  function Position<D>(proof: seq<ProofElement<D>>): (r: nat)
    ensures r < Pow2(|proof|)
  {
    if proof == [] then 0
    else
      var n := |proof| - 1;
      Position(proof[..n]) + (if proof[n].onRight then 0 else Pow2(n))
  }

  predicate Overflows<D>(proof: seq<ProofElement<D>>) {
    exists i :: MAX_LEVELS <= i < |proof| && !proof[i].onRight
  }

  function VerdictInTree<D(==)>(h: Hasher<D>, root: D, value: Key, proof: seq<ProofElement<D>>): Verdict<nat> {
    if Overflows(proof) then Abort
    else if Fold(h, h.leaf(value), proof) != root then InvalidProof
    else Ok(Position(proof))
  }

  method VerifyInTree<D(==)>(h: Hasher<D>, root: D, value: Key, proof: seq<ProofElement<D>>) returns (r: Verdict<nat>)
    ensures r == VerdictInTree(h, root, value, proof)
  {
    var computedHash := h.leaf(value);
    var index := 0;
    for i := 0 to |proof|
      invariant computedHash == Fold(h, h.leaf(value), proof[..i])
      invariant index == Position(proof[..i])
      invariant !Overflows(proof[..i])
    {
      assert proof[..i + 1][..i] == proof[..i];
      if proof[i].onRight {
        computedHash := h.node(computedHash, proof[i].node);
      } else {
        computedHash := h.node(proof[i].node, computedHash);
        if i >= MAX_LEVELS {
          return Abort;
        }
        index := index + Pow2(i);
      }
    }
    assert proof[..|proof|] == proof;
    if computedHash != root {
      return InvalidProof;
    }
    return Ok(index);
  }

  lemma {:induction false} U64LimitIsPow2()
    ensures Pow2(MAX_LEVELS) == U64_LIMIT
  {
    hide Pow2;
    Pow2OfTwo();
    Pow2Add(2, 2);
    Pow2Add(4, 4);
    Pow2Add(8, 8);
    Pow2Add(16, 16);
    Pow2Add(32, 32);
  }

  /** The number an accepted index may be compared with: it still fits 64 bits. */
  lemma {:induction false} IndexFitsU64<D>(proof: seq<ProofElement<D>>)
    requires !Overflows(proof)
    ensures Position(proof) < U64_LIMIT
  {
    U64LimitIsPow2();
    if |proof| < MAX_LEVELS {
      Pow2Monotone(|proof|, MAX_LEVELS);
    } else if |proof| > MAX_LEVELS {
      var n := |proof| - 1;
      assert proof[n].onRight;
      forall i | MAX_LEVELS <= i < n ensures proof[..n][i].onRight {
        assert proof[i].onRight;
      }
      IndexFitsU64(proof[..n]);
    }
  }

  lemma {:induction false} PositionAtLeast<D>(proof: seq<ProofElement<D>>, i: nat)
    requires i < |proof| && !proof[i].onRight
    ensures Position(proof) >= Pow2(i)
  {
    var n := |proof| - 1;
    if i < n {
      PositionAtLeast(proof[..n], i);
    }
  }

  /** The verifier aborts exactly when the position spelled by the left/right bits does not fit 64 bits;
      otherwise it answers with that position or finds another root. */
  lemma {:induction false} AbortIffIndexOverflows<D>(h: Hasher<D>, root: D, value: Key, proof: seq<ProofElement<D>>)
    ensures VerdictInTree(h, root, value, proof) == Abort <==> Position(proof) >= U64_LIMIT
    ensures VerdictInTree(h, root, value, proof) == InvalidProof <==>
      Position(proof) < U64_LIMIT && Fold(h, h.leaf(value), proof) != root
  {
    hide Position, Pow2, Fold;
    if Overflows(proof) {
      var i :| MAX_LEVELS <= i < |proof| && !proof[i].onRight;
      PositionAtLeast(proof, i);
      U64LimitIsPow2();
      if i > MAX_LEVELS {
        Pow2Monotone(MAX_LEVELS, i);
      }
    } else {
      IndexFitsU64(proof);
    }
  }

  function VerdictNotInTree<D(==)>(h: Hasher<D>, root: D, value: Key, proofs: seq<seq<ProofElement<D>>>,
                                   neighbors: seq<Key>): Verdict<()>
  {
    if |neighbors| != |proofs| || |proofs| < 1 || |proofs| > 2 then InvalidProof
    else if |proofs| == 1 then
      if value < neighbors[0] then
        match VerdictInTree(h, root, neighbors[0], proofs[0])
        case Ok(index) => if index == 0 then Ok(()) else InvalidProof
        case InvalidProof => InvalidProof
        case Abort => Abort
      else if value > neighbors[0] then
        if |proofs[0]| >= MAX_LEVELS then Abort
        else
          match VerdictInTree(h, root, neighbors[0], proofs[0])
          case Ok(index) => if index == Pow2(|proofs[0]|) - 1 then Ok(()) else InvalidProof
          case InvalidProof => InvalidProof
          case Abort => Abort
      else InvalidProof
    else if neighbors[0] >= neighbors[1] || value <= neighbors[0] || value >= neighbors[1] then InvalidProof
    else
      match VerdictInTree(h, root, neighbors[0], proofs[0])
      case InvalidProof => InvalidProof
      case Abort => Abort
      case Ok(left) =>
        match VerdictInTree(h, root, neighbors[1], proofs[1])
        case InvalidProof => InvalidProof
        case Abort => Abort
        case Ok(right) =>
          // The largest index leaves no room for a successor.
          if left + 1 >= U64_LIMIT then Abort
          else if left + 1 == right then Ok(()) else InvalidProof
  }

  /** Proofs shorter than 64 levels never make the absence check abort. */
  lemma {:induction false} ShortProofsNeverAbort<D>(h: Hasher<D>, root: D, value: Key,
                                                    proofs: seq<seq<ProofElement<D>>>, neighbors: seq<Key>)
    requires forall i :: 0 <= i < |proofs| ==> |proofs[i]| < MAX_LEVELS
    ensures VerdictNotInTree(h, root, value, proofs, neighbors) != Abort
  {
    hide Position, Fold;
    if |proofs| == 2 {
      U64LimitIsPow2();
      Pow2Monotone(|proofs[0]|, MAX_LEVELS);
    }
  }
}
