/** The Merkle inclusion proof of a Roughtime response (src/time.rs) and the tree it speaks about. */
module Merkle {
  import opened Bytes

  type Digest = s: seq<byte> | |s| == 64 witness Zeros(64)
  type Node = s: seq<byte> | |s| == 32 witness Zeros(32)
  type Nonce = s: seq<byte> | |s| == 64 witness Zeros(64)

  /** SHA-512, about which only the length of its output is known. */
  type Hash = seq<byte> -> Digest

  /** A hash cut to its first 32 bytes. */
  function Cut(h: Hash, input: seq<byte>): Node {
    h(input)[0..32]
  }

  function LeafInput(nonce: Nonce): seq<byte> {
    [0x00] + nonce
  }

  function PairInput(left: Node, right: Node): seq<byte> {
    [0x01] + left + right
  }

  // ----- The client: folding a path -----

  /** The index after k levels have consumed a bit each. */
  function Shift(index: nat, k: nat): nat {
    if k == 0 then index else Shift(index, k - 1) / 2
  }

  function StepInput(current: Node, sibling: Node, bit: nat): seq<byte> {
    if bit % 2 == 0 then PairInput(current, sibling) else PairInput(sibling, current)
  }

  /** The root that the path leads to from the leaf of the nonce. */
  function Climb(h: Hash, nonce: Nonce, index: nat, path: seq<Node>): Node {
    if path == [] then Cut(h, LeafInput(nonce))
    else
      var k := |path| - 1;
      Cut(h, StepInput(Climb(h, nonce, index, path[..k]), path[k], Shift(index, k)))
  }

  function Chunks(bytes: seq<byte>): (path: seq<Node>)
    ensures |path| == |bytes| / 32
  {
    seq<Node>(|bytes| / 32, k requires 0 <= k < |bytes| / 32 => bytes[32 * k..32 * k + 32])
  }

  lemma LeafClimb(h: Hash, nonce: Nonce, index: nat)
    ensures Climb(h, nonce, index, []) == Cut(h, LeafInput(nonce))
  {
  }

  lemma ClimbStep(h: Hash, nonce: Nonce, index: nat, path: seq<Node>, k: nat)
    requires k < |path|
    ensures Climb(h, nonce, index, path[..k + 1])
         == Cut(h, StepInput(Climb(h, nonce, index, path[..k]), path[k], Shift(index, k)))
  {
    assert path[..k + 1][..k] == path[..k];
  }

  method FoldPath(h: Hash, nonce: Nonce, index: u32, pathBytes: seq<byte>) returns (root: Node, rest: nat)
    ensures root == Climb(h, nonce, index, Chunks(pathBytes))
    ensures rest == Shift(index, |Chunks(pathBytes)|)
  {
    hide Climb;
    var fullHash := h([0x00] + nonce);
    var currentHash := fullHash[0..32];
    var idx := index;
    ghost var path := Chunks(pathBytes);
    assert currentHash == Climb(h, nonce, index, path[..0]) by {
      LeafClimb(h, nonce, index);
    }
    for k := 0 to |pathBytes| / 32
      invariant currentHash == Climb(h, nonce, index, path[..k])
      invariant idx == Shift(index, k)
    {
      var sibling := pathBytes[32 * k..32 * k + 32];
      ClimbStep(h, nonce, index, path, k);
      var stepHash;
      if idx % 2 == 0 {
        stepHash := h([0x01] + currentHash + sibling);
      } else {
        stepHash := h([0x01] + sibling + currentHash);
      }
      currentHash := stepHash[0..32];
      idx := idx / 2;
    }
    assert path[..|path|] == path;
    root, rest := currentHash, idx;
  }

  lemma {:induction false} ShiftHalf(index: nat, k: nat)
    requires k > 0
    ensures Shift(index, k) == Shift(index / 2, k - 1)
  {
    if k > 1 {
      ShiftHalf(index, k - 1);
    }
  }

  /** The index is used up after k levels exactly when it has at most k bits. */
  lemma {:induction false} ShiftConsumes(index: nat, k: nat)
    ensures Shift(index, k) == 0 <==> index < Pow2(k)
  {
    if k > 0 {
      ShiftHalf(index, k);
      ShiftConsumes(index / 2, k - 1);
    }
  }

  lemma {:induction false} ShiftBit(index: nat, k: nat)
    ensures Shift(index, k) % 2 == Bit(index, k)
  {
    if k > 0 {
      ShiftHalf(index, k);
      ShiftBit(index / 2, k - 1);
    }
  }

  lemma StepBytes(current: Node, sibling: Node, bit: nat)
    ensures StepInput(current, sibling, bit) ==
            [0x01] + if bit % 2 == 0 then current + sibling else sibling + current
  {
  }

  /**
   What a path is folded to, byte for byte: the leaf is marked 0x00, and level k hashes 0x01, then what is
   below it before or behind the sibling as bit k of the index says, all cut to 32 bytes.
   */
  lemma ClimbBytes(h: Hash, nonce: Nonce, index: nat, path: seq<Node>)
    ensures path == [] ==> Climb(h, nonce, index, path) == h([0x00] + nonce)[..32]
    ensures path != [] ==>
              var k := |path| - 1;
              var below := Climb(h, nonce, index, path[..k]);
              Climb(h, nonce, index, path) ==
              h([0x01] + if Bit(index, k) == 0 then below + path[k] else path[k] + below)[..32]
  {
    hide Shift, Bit, StepInput;
    if path != [] {
      var k := |path| - 1;
      ShiftBit(index, k);
      StepBytes(Climb(h, nonce, index, path[..k]), path[k], Shift(index, k));
    }
  }

  /** A path of one sibling, with the node to its left and to its right. */
  lemma OneSibling(h: Hash, nonce: Nonce, sibling: Node)
    ensures Climb(h, nonce, 0, [sibling]) == h([0x01] + h([0x00] + nonce)[..32] + sibling)[..32]
    ensures Climb(h, nonce, 1, [sibling]) == h([0x01] + sibling + h([0x00] + nonce)[..32])[..32]
  {
    hide Climb;
    var leaf := h([0x00] + nonce)[..32];
    assert [sibling][..0] == [];
    ClimbBytes(h, nonce, 0, [sibling]);
    ClimbBytes(h, nonce, 1, [sibling]);
    ClimbBytes(h, nonce, 0, []);
    ClimbBytes(h, nonce, 1, []);
    assert [0x01] + leaf + sibling == [0x01] + (leaf + sibling);
    assert [0x01] + sibling + leaf == [0x01] + (sibling + leaf);
  }

  // ----- The server: a perfect tree over a batch of nonces -----

  function Half(depth: nat, leaves: seq<Nonce>, right: bool): (half: seq<Nonce>)
    requires depth > 0 && |leaves| == Pow2(depth)
    ensures |half| == Pow2(depth - 1)
  {
    if right then leaves[Pow2(depth - 1)..] else leaves[..Pow2(depth - 1)]
  }

  function TreeRoot(h: Hash, depth: nat, leaves: seq<Nonce>): Node
    requires |leaves| == Pow2(depth)
  {
    if depth == 0 then Cut(h, LeafInput(leaves[0]))
    else
      Cut(h, PairInput(TreeRoot(h, depth - 1, Half(depth, leaves, false)),
                       TreeRoot(h, depth - 1, Half(depth, leaves, true))))
  }

  /** The root of a tree, byte for byte: leaves are marked 0x00, inner nodes 0x01, the left half comes first. */
  lemma TreeRootBytes(h: Hash, depth: nat, leaves: seq<Nonce>)
    requires |leaves| == Pow2(depth)
    ensures depth == 0 ==> TreeRoot(h, depth, leaves) == h([0x00] + leaves[0])[..32]
    ensures depth > 0 ==>
              var n := |leaves| / 2;
              n == Pow2(depth - 1) &&
              TreeRoot(h, depth, leaves) ==
              h([0x01] + TreeRoot(h, depth - 1, leaves[..n]) + TreeRoot(h, depth - 1, leaves[n..]))[..32]
  {
  }

  /** Whether the index lies in the right half of a tree with 2^(k+1) leaves. */
  predicate IsRight(index: nat, k: nat) {
    index >= Pow2(k)
  }

  /** The position of the index within its half of a tree with 2^(k+1) leaves. */
  function Within(index: nat, k: nat): nat {
    if IsRight(index, k) then index - Pow2(k) else index
  }

  lemma WithinHalf(index: nat, k: nat)
    ensures index < Pow2(k + 1) <==> Within(index, k) < Pow2(k)
  {
  }

  lemma LeafInHalf(depth: nat, leaves: seq<Nonce>, index: nat)
    requires depth > 0 && |leaves| == Pow2(depth)
    ensures
      var half := Half(depth, leaves, IsRight(index, depth - 1));
      var within := Within(index, depth - 1);
      && (within < |half| <==> index < |leaves|)
      && (within < |half| ==> half[within] == leaves[index])
  {
  }

  /** The siblings from the leaf at `index` up to the root. */
  function TreePath(h: Hash, depth: nat, leaves: seq<Nonce>, index: nat): (path: seq<Node>)
    requires |leaves| == Pow2(depth) && index < |leaves|
    ensures |path| == depth
  {
    if depth == 0 then []
    else
      var right := IsRight(index, depth - 1);
      TreePath(h, depth - 1, Half(depth, leaves, right), Within(index, depth - 1))
      + [TreeRoot(h, depth - 1, Half(depth, leaves, !right))]
  }

  /** A bit above level k does not reach the first k levels. */
  lemma {:induction false} ShiftLowBits(index: nat, n: nat, k: nat)
    requires k <= n
    ensures Shift(index + Pow2(n), k) == Shift(index, k) + Pow2(n - k)
  {
    if k > 0 {
      ShiftLowBits(index, n, k - 1);
      assert Pow2(n - (k - 1)) == 2 * Pow2(n - k);
    }
  }

  lemma SameStep(current: Node, sibling: Node, x: nat, y: nat)
    ensures StepInput(current, sibling, x + 2 * y) == StepInput(current, sibling, x)
  {
    assert (x + 2 * y) % 2 == x % 2;
  }

  lemma {:induction false} ClimbLowBits(h: Hash, nonce: Nonce, index: nat, path: seq<Node>, n: nat)
    requires |path| <= n
    ensures Climb(h, nonce, index + Pow2(n), path) == Climb(h, nonce, index, path)
  {
    hide Shift, StepInput, Cut;
    if path != [] {
      var k := |path| - 1;
      ClimbLowBits(h, nonce, index, path[..k], n);
      ShiftLowBits(index, n, k);
      SameStep(Climb(h, nonce, index, path[..k]), path[k], Shift(index, k), Pow2(n - k - 1));
    }
  }

  /** Below 2^(k+1), the bit consumed last says in which half of the tree the index lies. */
  lemma TopBit(index: nat, k: nat)
    requires index < Pow2(k + 1)
    ensures Shift(index, k) == if index < Pow2(k) then 0 else 1
  {
    ShiftConsumes(index, k);
    if index >= Pow2(k) {
      ShiftLowBits(index - Pow2(k), k, k);
      ShiftConsumes(index - Pow2(k), k);
    }
  }

  function ParentInput(below: Node, sibling: Node, right: bool): seq<byte> {
    if right then PairInput(sibling, below) else PairInput(below, sibling)
  }

  lemma ParentInputInjective(a: Node, b: Node, c: Node, d: Node, right: bool)
    requires ParentInput(a, b, right) == ParentInput(c, d, right)
    ensures a == c && b == d
  {
    var x := ParentInput(a, b, right);
    assert x[1..33] == (if right then b else a) == (if right then d else c);
    assert x[33..] == (if right then a else b) == (if right then c else d);
  }

  /** What the proof hashes last, with the bit of the index that decides it. */
  function ProofInput(h: Hash, nonce: Nonce, index: nat, path: seq<Node>): seq<byte> {
    if path == [] then LeafInput(nonce)
    else
      var k := |path| - 1;
      ParentInput(Climb(h, nonce, Within(index, k), path[..k]), path[k], IsRight(index, k))
  }

  /** What the tree hashes last. */
  function TreeInput(h: Hash, depth: nat, leaves: seq<Nonce>): seq<byte>
    requires |leaves| == Pow2(depth)
  {
    if depth == 0 then LeafInput(leaves[0])
    else
      PairInput(TreeRoot(h, depth - 1, Half(depth, leaves, false)), TreeRoot(h, depth - 1, Half(depth, leaves, true)))
  }

  lemma StepIsParent(below: Node, sibling: Node, right: bool)
    ensures StepInput(below, sibling, if right then 1 else 0) == ParentInput(below, sibling, right)
  {
  }

  /** The fold seen from the top: the bits below the last one only matter for what is folded first. */
  lemma ClimbTop(h: Hash, nonce: Nonce, index: nat, path: seq<Node>)
    requires index < Pow2(|path|)
    ensures Climb(h, nonce, index, path) == Cut(h, ProofInput(h, nonce, index, path))
  {
    hide Cut, Shift, StepInput, ParentInput, Pow2;
    if path != [] {
      var k := |path| - 1;
      TopBit(index, k);
      StepIsParent(Climb(h, nonce, index, path[..k]), path[k], IsRight(index, k));
      if IsRight(index, k) {
        ClimbLowBits(h, nonce, index - Pow2(k), path[..k], k);
      }
    }
  }

  lemma PathTop(h: Hash, depth: nat, leaves: seq<Nonce>, index: nat)
    requires depth > 0 && |leaves| == Pow2(depth) && index < |leaves|
    ensures Within(index, depth - 1) < Pow2(depth - 1)
    ensures
      var right := IsRight(index, depth - 1);
      var path := TreePath(h, depth, leaves, index);
      && path[..depth - 1] == TreePath(h, depth - 1, Half(depth, leaves, right), Within(index, depth - 1))
      && path[depth - 1] == TreeRoot(h, depth - 1, Half(depth, leaves, !right))
  {
    hide TreeRoot, Half;
  }

  /** Completeness: the path of a leaf leads to the root of its tree. */
  lemma {:induction false} PathLeadsToRoot(h: Hash, depth: nat, leaves: seq<Nonce>, index: nat)
    requires |leaves| == Pow2(depth) && index < |leaves|
    ensures Climb(h, leaves[index], index, TreePath(h, depth, leaves, index)) == TreeRoot(h, depth, leaves)
  {
    hide Climb, Cut, PairInput, TreeRoot, TreePath, Half, IsRight, Within;
    var path := TreePath(h, depth, leaves, index);
    ClimbTop(h, leaves[index], index, path);
    RootOfTreeInput(h, depth, leaves);
    if depth > 0 {
      PathTop(h, depth, leaves, index);
      LeafInHalf(depth, leaves, index);
      PathLeadsToRoot(h, depth - 1, Half(depth, leaves, IsRight(index, depth - 1)), Within(index, depth - 1));
    }
  }

  lemma RootOfTreeInput(h: Hash, depth: nat, leaves: seq<Nonce>)
    requires |leaves| == Pow2(depth)
    ensures TreeRoot(h, depth, leaves) == Cut(h, TreeInput(h, depth, leaves))
  {
  }

  // ----- Soundness by extraction -----

  /**
   Walks from the root down both the tree and the proof, and returns the first pair of different
   hash inputs it meets.
   */
  function Disagreement(h: Hash, depth: nat, leaves: seq<Nonce>, nonce: Nonce, index: nat, path: seq<Node>)
    : Option<(seq<byte>, seq<byte>)>
    requires |leaves| == Pow2(depth)
    decreases depth
  {
    hide TreeRoot, Climb, Cut, ParentInput, LeafInput, PairInput;
    var proved := ProofInput(h, nonce, index, path);
    var built := TreeInput(h, depth, leaves);
    if proved != built then Some((proved, built))
    else if path == [] || depth == 0 then None
    else
      var k := |path| - 1;
      Disagreement(h, depth - 1, Half(depth, leaves, IsRight(index, k)), nonce, Within(index, k), path[..k])
  }

  /** Leaves and inner nodes never hash the same input, and equal leaf inputs are equal nonces. */
  lemma DomainsApart(h: Hash, depth: nat, leaves: seq<Nonce>, nonce: Nonce, index: nat, path: seq<Node>)
    requires |leaves| == Pow2(depth)
    requires ProofInput(h, nonce, index, path) == TreeInput(h, depth, leaves) && index < Pow2(|path|)
    ensures path == [] <==> depth == 0
    ensures path == [] ==> index == 0 && |leaves| == 1 && nonce == leaves[0]
  {
    var input := ProofInput(h, nonce, index, path);
    assert path == [] <==> input[0] == 0x00;
    assert depth == 0 <==> input[0] == 0x00;
    if path == [] {
      assert nonce == input[1..] == leaves[0];
    }
  }

  /** The proof without its last sibling folds to the root of one half of the tree; that sibling is the other root. */
  ghost predicate FoldsBelow(h: Hash, depth: nat, leaves: seq<Nonce>, nonce: Nonce, index: nat, path: seq<Node>)
    requires |leaves| == Pow2(depth) && depth > 0 && path != []
  {
    var k := |path| - 1;
    var right := IsRight(index, k);
    && Climb(h, nonce, Within(index, k), path[..k]) == TreeRoot(h, depth - 1, Half(depth, leaves, right))
    && path[k] == TreeRoot(h, depth - 1, Half(depth, leaves, !right))
  }

  lemma AgreeBelow(h: Hash, depth: nat, leaves: seq<Nonce>, nonce: Nonce, index: nat, path: seq<Node>)
    requires |leaves| == Pow2(depth) && depth > 0 && path != []
    requires ProofInput(h, nonce, index, path) == TreeInput(h, depth, leaves)
    ensures FoldsBelow(h, depth, leaves, nonce, index, path)
  {
    hide Cut, Climb;
    var k := |path| - 1;
    var right := IsRight(index, k);
    var below := Climb(h, nonce, Within(index, k), path[..k]);
    ParentInputInjective(below, path[k], TreeRoot(h, depth - 1, Half(depth, leaves, right)),
                  TreeRoot(h, depth - 1, Half(depth, leaves, !right)), right);
  }

  /**
   A proof that folds to the root of a batch either is the path of the leaf at its index, which holds
   its nonce, or it hands over two different inputs with the same truncated hash.
   */
  lemma {:induction false} Soundness(
      h: Hash, depth: nat, leaves: seq<Nonce>, nonce: Nonce, index: nat, path: seq<Node>)
    requires |leaves| == Pow2(depth)
    requires Climb(h, nonce, index, path) == TreeRoot(h, depth, leaves) && index < Pow2(|path|)
    ensures
      match Disagreement(h, depth, leaves, nonce, index, path)
      case None => index < |leaves| && leaves[index] == nonce && path == TreePath(h, depth, leaves, index)
      case Some((x, y)) => x != y && Cut(h, x) == Cut(h, y)
    decreases |path|
  {
    hide Climb, TreeInput, ProofInput, ParentInput, TreeRoot, Cut, Half, Within, IsRight, Pow2;
    ClimbTop(h, nonce, index, path);
    RootOfTreeInput(h, depth, leaves);
    if ProofInput(h, nonce, index, path) == TreeInput(h, depth, leaves) {
      DomainsApart(h, depth, leaves, nonce, index, path);
      if path != [] {
        var k := |path| - 1;
        AgreeBelow(h, depth, leaves, nonce, index, path);
        WithinHalf(index, k);
        LeafInHalf(depth, leaves, index);
        Soundness(h, depth - 1, Half(depth, leaves, IsRight(index, k)), nonce, Within(index, k), path[..k]);
        assert path == path[..k] + [path[k]];
      }
    }
  }
}
