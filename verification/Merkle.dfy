/** Merkle trees in a flat array: construction with promotion of odd nodes, proofs, and tree comparison. */
module MerkleTheory {
  import opened Bytes

  type Hash = bytes

  /** The hash of two concatenated hashes; nothing is assumed about it. */
  type Combine = (Hash, Hash) -> Hash

  function ParentCount(n: nat): nat {
    (n + 1) / 2
  }

  /** The level above: pairs are combined, an odd last node is promoted. */
  function Parents(combine: Combine, level: seq<Hash>): (up: seq<Hash>)
    ensures |up| == ParentCount(|level|)
  {
    seq(ParentCount(|level|), i requires 0 <= i < ParentCount(|level|) =>
      if 2 * i + 1 < |level| then combine(level[2 * i], level[2 * i + 1]) else level[2 * i])
  }

  function Root(combine: Combine, level: seq<Hash>): Hash
    requires level != []
    decreases |level|
  {
    if |level| == 1 then level[0] else Root(combine, Parents(combine, level))
  }

  /** The largest power of two below `n`. */
  function SplitPoint(n: nat): (p: nat)
    requires n > 1
    ensures p < n <= 2 * p
    decreases n
  {
    if n == 2 then 1 else 2 * SplitPoint(ParentCount(n))
  }

  lemma {:induction false} SplitPointIsPower(n: nat) returns (k: nat)
    requires n > 1
    ensures SplitPoint(n) == Power2(k)
    decreases n
  {
    if n == 2 {
      k := 0;
    } else {
      k := SplitPointIsPower(ParentCount(n));
      k := k + 1;
    }
  }

  function Power2(k: nat): nat {
    if k == 0 then 1 else 2 * Power2(k - 1)
  }

  lemma ParentsSplit(combine: Combine, level: seq<Hash>, p: nat)
    requires p <= |level| && p % 2 == 0
    ensures Parents(combine, level) == Parents(combine, level[..p]) + Parents(combine, level[p..])
  {
    var up, left, right := Parents(combine, level), Parents(combine, level[..p]), Parents(combine, level[p..]);
    forall i | 0 <= i < |up|
      ensures up[i] == (left + right)[i]
    {
      if i >= |left| {
        assert level[p..][2 * (i - |left|)] == level[2 * i];
        assert 2 * i + 1 < |level| ==> level[p..][2 * (i - |left|) + 1] == level[2 * i + 1];
      }
    }
  }

  lemma RootOfParents(combine: Combine, level: seq<Hash>)
    requires level != []
    ensures Root(combine, Parents(combine, level)) == Root(combine, level)
  {
    if |level| == 1 {
      assert Parents(combine, level) == level;
    }
  }

  /** Building level by level with promotion gives the tree in which each node splits its leaves at the largest power of
      two below their number, as in section 2.1 of RFC 6962. */
  lemma {:induction false} RootSplits(combine: Combine, level: seq<Hash>)
    requires level != []
    ensures |level| == 1 ==> Root(combine, level) == level[0]
    ensures |level| > 1 ==>
              var p := SplitPoint(|level|);
              Root(combine, level) == combine(Root(combine, level[..p]), Root(combine, level[p..]))
    decreases |level|
  {
    hide Parents, Root;
    if |level| > 1 {
      var p, up := SplitPoint(|level|), Parents(combine, level);
      RootOfParents(combine, level);
      if |level| == 2 {
        RootOfTwo(combine, level);
      } else {
        RootSplits(combine, up);
        ParentsSplit(combine, level, p);
        assert up[..p / 2] == Parents(combine, level[..p]) && up[p / 2..] == Parents(combine, level[p..]);
        RootOfParents(combine, level[..p]);
        RootOfParents(combine, level[p..]);
      }
    } else {
      RootOfOne(combine, level);
    }
  }

  lemma RootOfOne(combine: Combine, level: seq<Hash>)
    requires |level| == 1
    ensures Root(combine, level) == level[0]
  {
  }

  lemma RootOfTwo(combine: Combine, level: seq<Hash>)
    requires |level| == 2
    ensures Root(combine, level) == combine(level[0], level[1])
    ensures Root(combine, level[..1]) == level[0] && Root(combine, level[1..]) == level[1]
  {
    assert Parents(combine, level) == [combine(level[0], level[1])];
  }

  datatype Side = Left | Right

  /** A proof step: the sibling's hash and on which side it stands. */
  datatype ProofStep = ProofStep(hash: Hash, side: Side)

  function PathStep(level: seq<Hash>, i: nat): seq<ProofStep>
    requires i < |level|
  {
    if i % 2 == 0 && i + 1 < |level| then [ProofStep(level[i + 1], Right)]
    else if i % 2 == 1 then [ProofStep(level[i - 1], Left)]
    else []
  }

  /** The siblings from leaf `i` up to the root. */
  function Path(combine: Combine, level: seq<Hash>, i: nat): seq<ProofStep>
    requires i < |level|
    decreases |level|
  {
    if |level| <= 1 then [] else PathStep(level, i) + Path(combine, Parents(combine, level), i / 2)
  }

  function Apply(combine: Combine, h: Hash, step: ProofStep): Hash {
    if step.side == Left then combine(step.hash, h) else combine(h, step.hash)
  }

  function Fold(combine: Combine, h: Hash, proof: seq<ProofStep>): Hash
    decreases |proof|
  {
    if proof == [] then h else Fold(combine, Apply(combine, h, proof[0]), proof[1..])
  }

  lemma {:induction false} FoldSplit(combine: Combine, h: Hash, a: seq<ProofStep>, b: seq<ProofStep>)
    ensures Fold(combine, h, a + b) == Fold(combine, Fold(combine, h, a), b)
    decreases |a|
  {
    if a == [] {
      assert a + b == b;
    } else {
      assert (a + b)[1..] == a[1..] + b;
      FoldSplit(combine, Apply(combine, h, a[0]), a[1..], b);
    }
  }

  /** Every leaf's path leads to the root. */
  lemma {:induction false} PathVerifies(combine: Combine, level: seq<Hash>, i: nat)
    requires i < |level|
    ensures Fold(combine, level[i], Path(combine, level, i)) == Root(combine, level)
    decreases |level|
  {
    if |level| > 1 {
      var up, step := Parents(combine, level), PathStep(level, i);
      StepVerifies(combine, level, i);
      hide Parents, PathStep, Fold;
      FoldSplit(combine, level[i], step, Path(combine, up, i / 2));
      PathVerifies(combine, up, i / 2);
    }
  }

  /** One step of the path leads to the parent. */
  lemma StepVerifies(combine: Combine, level: seq<Hash>, i: nat)
    requires i < |level| && |level| > 1
    ensures Fold(combine, level[i], PathStep(level, i)) == Parents(combine, level)[i / 2]
  {
    var step := PathStep(level, i);
    if step != [] {
      assert step[1..] == [];
      assert Fold(combine, level[i], step) == Apply(combine, level[i], step[0]);
    }
  }

  // ---------- Binding ----------

  predicate SameSides(p: seq<ProofStep>, q: seq<ProofStep>) {
    |p| == |q| && forall k :: 0 <= k < |p| ==> p[k].side == q[k].side
  }

  /** The pair of hashes that a step combines. */
  function Operands(h: Hash, step: ProofStep): (Hash, Hash) {
    if step.side == Left then (step.hash, h) else (h, step.hash)
  }

  /** Two proofs collide on the way: at some step they combine different pairs to the same hash. */
  predicate ChainsCollide(combine: Combine, h: Hash, p: seq<ProofStep>, g: Hash, q: seq<ProofStep>)
    requires |p| == |q|
    decreases |p|
  {
    p != [] &&
    var h', g' := Apply(combine, h, p[0]), Apply(combine, g, q[0]);
    (h' == g' && Operands(h, p[0]) != Operands(g, q[0])) || ChainsCollide(combine, h', p[1..], g', q[1..])
  }

  /** Two proofs of the same shape that end in the same hash are the same from the start, or they collide on the way. */
  lemma {:induction false} FoldBinds(combine: Combine, h: Hash, p: seq<ProofStep>, g: Hash, q: seq<ProofStep>)
    requires SameSides(p, q) && Fold(combine, h, p) == Fold(combine, g, q)
    ensures (h == g && p == q) || ChainsCollide(combine, h, p, g, q)
    decreases |p|
  {
    if p != [] {
      FoldBinds(combine, Apply(combine, h, p[0]), p[1..], Apply(combine, g, q[0]), q[1..]);
      assert p == [p[0]] + p[1..] && q == [q[0]] + q[1..];
    }
  }

  /** Once two hashes collide on the way along one proof, they end in the same hash. */
  lemma {:induction false} CollidedMeet(combine: Combine, h: Hash, g: Hash, p: seq<ProofStep>)
    ensures ChainsCollide(combine, h, p, g, p) ==> Fold(combine, h, p) == Fold(combine, g, p)
    decreases |p|
  {
    if p != [] {
      CollidedMeet(combine, Apply(combine, h, p[0]), Apply(combine, g, p[0]), p[1..]);
    }
  }

  /** A proof with leaf `i`'s directions that verifies is for leaf `i`'s hash and has exactly its siblings,
      unless it collides with leaf `i`'s own path. */
  lemma ProofBinds(combine: Combine, level: seq<Hash>, i: nat, h: Hash, proof: seq<ProofStep>)
    requires i < |level| && SameSides(proof, Path(combine, level, i))
    requires Fold(combine, h, proof) == Root(combine, level)
    ensures (h == level[i] && proof == Path(combine, level, i)) ||
            ChainsCollide(combine, h, proof, level[i], Path(combine, level, i))
  {
    PathVerifies(combine, level, i);
    FoldBinds(combine, h, proof, level[i], Path(combine, level, i));
  }

  /** The pairs at place `i` of two levels differ and have the same parent. */
  predicate PairsCollide(combine: Combine, a: seq<Hash>, b: seq<Hash>, i: nat)
    requires |a| == |b|
  {
    2 * i + 1 < |a| && (a[2 * i], a[2 * i + 1]) != (b[2 * i], b[2 * i + 1])
    && combine(a[2 * i], a[2 * i + 1]) == combine(b[2 * i], b[2 * i + 1])
  }

  /** Two trees collide: at some level different pairs at the same place have the same parent. */
  predicate TreesCollide(combine: Combine, a: seq<Hash>, b: seq<Hash>)
    requires |a| == |b|
    decreases |a|
  {
    |a| > 1 &&
    ((exists i :: 0 <= i < |a| && PairsCollide(combine, a, b, i)) || TreesCollide(combine, Parents(combine, a), Parents(combine, b)))
  }

  lemma ParentsBind(combine: Combine, a: seq<Hash>, b: seq<Hash>)
    requires |a| == |b| && Parents(combine, a) == Parents(combine, b)
    ensures a == b || exists i :: 0 <= i < |a| && PairsCollide(combine, a, b, i)
  {
    var up := Parents(combine, a);
    if k :| 0 <= k < |a| && a[k] != b[k] {
      var i := k / 2;
      assert up[i] == Parents(combine, b)[i];
      assert 2 * i + 1 < |a| ==> PairsCollide(combine, a, b, i);
    }
  }

  /** Trees over equally many leaves with the same root have the same leaves, unless they collide. */
  lemma {:induction false} RootBinds(combine: Combine, a: seq<Hash>, b: seq<Hash>)
    requires |a| == |b| > 0 && Root(combine, a) == Root(combine, b)
    ensures a == b || TreesCollide(combine, a, b)
    decreases |a|
  {
    if |a| > 1 {
      RootBinds(combine, Parents(combine, a), Parents(combine, b));
      if Parents(combine, a) == Parents(combine, b) {
        ParentsBind(combine, a, b);
      }
    }
  }

  /** Over different leaf counts different leaves can have the same root, with no collision on the way. */
  lemma RootHidesCount(combine: Combine, x: Hash, y: Hash)
    ensures Root(combine, [x, y]) == Root(combine, [combine(x, y)])
  {
    assert Parents(combine, [x, y]) == [combine(x, y)];
  }

  // ---------- Sizes ----------

  /** How many nodes a tree over `n` leaves has. */
  function TotalNodes(n: nat): (t: nat)
    ensures t >= n
  {
    if n <= 1 then n else n + TotalNodes(ParentCount(n))
  }

  function Levels(n: nat): nat {
    if n <= 1 then 1 else 1 + Levels(ParentCount(n))
  }

  lemma {:induction false} SizesMonotone(m: nat, n: nat)
    requires m <= n
    ensures TotalNodes(m) <= TotalNodes(n) && Levels(m) <= Levels(n)
  {
    if m > 1 {
      SizesMonotone(ParentCount(m), ParentCount(n));
    } else if n > 1 {
      SizesMonotone(m, ParentCount(n));
    }
  }

  lemma FullSizes()
    ensures TotalNodes(256) == 511 && Levels(256) == 9
  {
    assert TotalNodes(4) == 7 && Levels(4) == 3;
    assert TotalNodes(16) == 31 && Levels(16) == 5;
    assert TotalNodes(64) == 127 && Levels(64) == 7;
    assert TotalNodes(128) == 255 && Levels(128) == 8;
  }

  lemma {:induction false} PathFits(combine: Combine, level: seq<Hash>, i: nat)
    requires i < |level|
    ensures |Path(combine, level, i)| < Levels(|level|)
    decreases |level|
  {
    if |level| > 1 {
      PathFits(combine, Parents(combine, level), i / 2);
    }
  }
}

/** The flat array of nodes. */
module MerkleTrees {
  import opened Bytes
  import opened MerkleTheory
  import opened Options

  const MAX_LEAVES := 256
  const MAX_NODES := 512
  const MAX_PATH := 16

  datatype Node = Node(hash: Hash, isLeaf: bool, left: int, right: int)

  datatype Leaf = Leaf(key: bytes, hash: Hash)

  function LeafNodes(leaves: seq<Hash>): (level: seq<Node>)
    ensures |level| == |leaves|
  {
    seq(|leaves|, i requires 0 <= i < |leaves| => Node(leaves[i], true, -1, -1))
  }

  function LeafHashesOf(leaves: seq<Leaf>): (hashes: seq<Hash>)
    ensures |hashes| == |leaves| && forall i :: 0 <= i < |leaves| ==> hashes[i] == leaves[i].hash
  {
    seq(|leaves|, i requires 0 <= i < |leaves| => leaves[i].hash)
  }

  function HashesOf(level: seq<Node>): (hashes: seq<Hash>)
    ensures |hashes| == |level|
  {
    seq(|level|, i requires 0 <= i < |level| => level[i].hash)
  }

  /** The nodes above a level that starts at array position `start`. */
  function ParentNodes(combine: Combine, level: seq<Node>, start: nat): (up: seq<Node>)
    ensures |up| == ParentCount(|level|)
  {
    seq(ParentCount(|level|), i requires 0 <= i < ParentCount(|level|) =>
      if 2 * i + 1 < |level| then Node(combine(level[2 * i].hash, level[2 * i + 1].hash), false, start + 2 * i, start + 2 * i + 1)
      else Node(level[2 * i].hash, level[2 * i].isLeaf, start + 2 * i, -1))
  }

  /** A level and everything above it. */
  function TreeNodes(combine: Combine, level: seq<Node>, start: nat): (nodes: seq<Node>)
    ensures |nodes| == TotalNodes(|level|)
    decreases |level|
  {
    if |level| <= 1 then level
    else level + TreeNodes(combine, ParentNodes(combine, level, start), start + |level|)
  }

  lemma ParentHashes(combine: Combine, level: seq<Node>, start: nat)
    ensures HashesOf(ParentNodes(combine, level, start)) == Parents(combine, HashesOf(level))
  {
  }

  lemma TreeStep(combine: Combine, level: seq<Node>, start: nat)
    requires |level| > 1
    ensures var up := ParentNodes(combine, level, start);
            && up != [] && |up| < |level|
            && TreeNodes(combine, level, start) == level + TreeNodes(combine, up, start + |level|)
            && TotalNodes(|level|) == |level| + TotalNodes(|up|)
  {
  }

  lemma TreeTop(combine: Combine, level: seq<Node>, start: nat)
    requires |level| <= 1
    ensures TreeNodes(combine, level, start) == level
    ensures |level| == 1 ==> Root(combine, HashesOf(level)) == level[0].hash
    ensures TotalNodes(|level|) == |level|
  {
  }

  lemma RootStep(combine: Combine, level: seq<Hash>)
    requires |level| > 1
    ensures Root(combine, level) == Root(combine, Parents(combine, level))
  {
  }

  /** The last node is the root. */
  lemma {:induction false} LastIsRoot(combine: Combine, level: seq<Node>, start: nat)
    requires level != []
    ensures var nodes := TreeNodes(combine, level, start);
            nodes != [] && nodes[|nodes| - 1].hash == Root(combine, HashesOf(level))
    decreases |level|
  {
    hide ParentNodes, HashesOf, Parents, TotalNodes, TreeNodes, Root;
    if |level| > 1 {
      TreeStep(combine, level, start);
      RootStep(combine, HashesOf(level));
      ParentHashes(combine, level, start);
      LastIsRoot(combine, ParentNodes(combine, level, start), start + |level|);
    } else {
      TreeTop(combine, level, start);
    }
  }

  /** A leaf has no children, an inner node combines its two children, a promoted node repeats its only child. */
  predicate NodeOk(combine: Combine, nodes: seq<Node>, leafCount: nat, k: nat)
    requires k < |nodes|
  {
    var n := nodes[k];
    if n.left < 0 then k < leafCount && n.right < 0 && n.isLeaf
    else if n.right < 0 then n.left < k && n.hash == nodes[n.left].hash && n.isLeaf == nodes[n.left].isLeaf
    else n.left < n.right < k && !n.isLeaf && n.hash == combine(nodes[n.left].hash, nodes[n.right].hash)
  }

  /** Every node above a consistent lower part is consistent. */
  lemma {:induction false} UpperNodesOk(combine: Combine, nodes: seq<Node>, level: seq<Node>, start: nat, leafCount: nat)
    requires |nodes| == start + TotalNodes(|level|) && nodes[start..] == TreeNodes(combine, level, start)
    requires forall k: nat :: k < start + |level| ==> NodeOk(combine, nodes, leafCount, k)
    ensures forall k: nat :: k < |nodes| ==> NodeOk(combine, nodes, leafCount, k)
    decreases |level|
  {
    hide TreeNodes, TotalNodes, NodeOk, ParentNodes;
    if |level| <= 1 {
      TreeTop(combine, level, start);
    } else {
      TreeStep(combine, level, start);
      var next, up := start + |level|, ParentNodes(combine, level, start);
      assert nodes[next..] == nodes[start..][|level|..] == TreeNodes(combine, up, next);
      assert nodes[start..next] == nodes[start..][..|level|] == level;
      PrefixOfTree(combine, up, next);
      assert nodes[next..next + |up|] == nodes[next..][..|up|] == up;
      forall k: nat | next <= k < next + |up|
        ensures NodeOk(combine, nodes, leafCount, k)
      {
        LevelNodesOk(combine, nodes, level, start, leafCount, k);
      }
      UpperNodesOk(combine, nodes, up, next, leafCount);
    }
  }

  lemma PrefixOfTree(combine: Combine, level: seq<Node>, start: nat)
    ensures |TreeNodes(combine, level, start)| >= |level| && TreeNodes(combine, level, start)[..|level|] == level
  {
  }

  lemma LevelNodesOk(combine: Combine, nodes: seq<Node>, level: seq<Node>, start: nat, leafCount: nat, k: nat)
    requires var next, up := start + |level|, ParentNodes(combine, level, start);
             next <= k < next + |up| <= |nodes| && nodes[start..next] == level && nodes[next..next + |up|] == up
    ensures NodeOk(combine, nodes, leafCount, k)
  {
    var next, up := start + |level|, ParentNodes(combine, level, start);
    var i := 2 * (k - next);
    assert nodes[k] == nodes[next..next + |up|][k - next] == up[k - next];
    assert nodes[start + i] == nodes[start..next][i] == level[i];
    if i + 1 < |level| {
      assert nodes[start + i + 1] == nodes[start..next][i + 1] == level[i + 1];
      assert up[k - next] == Node(combine(level[i].hash, level[i + 1].hash), false, start + i, start + i + 1);
    } else {
      assert up[k - next] == Node(level[i].hash, level[i].isLeaf, start + i, -1);
    }
  }

  lemma TreeIsConsistent(combine: Combine, leaves: seq<Hash>)
    ensures var nodes := TreeNodes(combine, LeafNodes(leaves), 0);
            forall k: nat :: k < |nodes| ==> NodeOk(combine, nodes, |leaves|, k)
  {
    var nodes, level := TreeNodes(combine, LeafNodes(leaves), 0), LeafNodes(leaves);
    assert forall k: nat :: k < |level| ==> nodes[k] == level[k];
    assert nodes[0..] == nodes;
    UpperNodesOk(combine, nodes, level, 0, |leaves|);
  }

  /** The siblings from a position upwards as they are read out of the node array, level after level. */
  function ArrayPath(nodes: seq<Node>, start: nat, size: nat, pos: nat): seq<ProofStep>
    requires pos < size && start + TotalNodes(size) <= |nodes|
    decreases size
  {
    if size <= 1 then []
    else PathStep(HashesOf(nodes[start..start + size]), pos) + ArrayPath(nodes, start + size, ParentCount(size), pos / 2)
  }

  lemma {:induction false} ArrayPathFits(nodes: seq<Node>, start: nat, size: nat, pos: nat)
    requires pos < size && start + TotalNodes(size) <= |nodes|
    ensures |ArrayPath(nodes, start, size, pos)| < Levels(size)
    decreases size
  {
    hide ArrayPath, TotalNodes, HashesOf;
    ArrayPathStep(nodes, start, size, pos);
    if size > 1 {
      ArrayPathFits(nodes, start + size, ParentCount(size), pos / 2);
    }
  }

  /** Out of a tree that was built over the level this is the path to the root. */
  lemma {:induction false} ArrayPathIsPath(combine: Combine, nodes: seq<Node>, level: seq<Node>, start: nat, pos: nat)
    requires pos < |level| && start + TotalNodes(|level|) <= |nodes|
    requires nodes[start..start + TotalNodes(|level|)] == TreeNodes(combine, level, start)
    ensures ArrayPath(nodes, start, |level|, pos) == Path(combine, HashesOf(level), pos)
    decreases |level|
  {
    hide TreeNodes, TotalNodes, ParentNodes, HashesOf, PathStep, Parents, Path, ArrayPath;
    ArrayPathStep(nodes, start, |level|, pos);
    if |level| > 1 {
      var next, up := start + |level|, ParentNodes(combine, level, start);
      var all := nodes[start..start + TotalNodes(|level|)];
      TreeStep(combine, level, start);
      PathUnfolds(combine, level, start, pos);
      assert nodes[start..next] == all[..|level|] == level;
      assert nodes[next..next + TotalNodes(|up|)] == all[|level|..];
      ArrayPathIsPath(combine, nodes, up, next, pos / 2);
    } else {
      PathEnds(combine, level, pos);
    }
  }

  lemma ArrayPathStep(nodes: seq<Node>, start: nat, size: nat, pos: nat)
    requires pos < size && start + TotalNodes(size) <= |nodes|
    ensures if size <= 1 then ArrayPath(nodes, start, size, pos) == []
            else && TotalNodes(size) == size + TotalNodes(ParentCount(size))
                 && ArrayPath(nodes, start, size, pos) ==
                    PathStep(HashesOf(nodes[start..start + size]), pos) + ArrayPath(nodes, start + size, ParentCount(size), pos / 2)
  {
  }

  lemma PathUnfolds(combine: Combine, level: seq<Node>, start: nat, pos: nat)
    requires pos < |level| && |level| > 1
    ensures Path(combine, HashesOf(level), pos) ==
            PathStep(HashesOf(level), pos) + Path(combine, HashesOf(ParentNodes(combine, level, start)), pos / 2)
  {
    ParentHashes(combine, level, start);
    hide ParentNodes, Parents;
  }

  lemma PathEnds(combine: Combine, level: seq<Node>, pos: nat)
    requires pos < |level| <= 1
    ensures Path(combine, HashesOf(level), pos) == []
  {
  }

  datatype ProofResult = BadIndex | NotBuilt | Proof(steps: seq<ProofStep>)

  class MerkleTree {
    const combine: Combine
    const leaves: array<Leaf>
    const nodes: array<Node>
    var leafCount: nat
    var nodeCount: nat
    var height: nat
    /** The leaf hashes of the last build. */
    ghost var built: seq<Hash>

    ghost predicate Valid()
      reads this, leaves, nodes
    {
      && leaves.Length == MAX_LEAVES && nodes.Length == MAX_NODES && |built| <= leafCount <= MAX_LEAVES
      && nodeCount == TotalNodes(|built|) <= MAX_NODES
      && nodes[..nodeCount] == TreeNodes(combine, LeafNodes(built), 0)
      && (built != [] ==> height == Levels(|built|))
    }

    ghost function LeafHashes(): (hashes: seq<Hash>)
      requires leafCount <= leaves.Length
      reads this, leaves
      ensures |hashes| == leafCount && forall i :: 0 <= i < leafCount ==> hashes[i] == leaves[i].hash
    {
      LeafHashesOf(leaves[..leafCount])
    }

    constructor (combine: Combine)
      ensures Valid() && this.combine == combine && leafCount == 0 && built == []
      ensures fresh(leaves) && fresh(nodes)
    {
      this.combine := combine;
      leaves := new Leaf[MAX_LEAVES](_ => Leaf([], []));
      nodes := new Node[MAX_NODES](_ => Node([], false, 0, 0));
      leafCount, nodeCount, height := 0, 0, 0;
      built := [];
    }

    /** Appends a leaf; the nodes stay those of the last build. */
    method AddLeaf(key: bytes, hash: Hash) returns (r: int)
      requires Valid()
      modifies this`leafCount, leaves
      ensures Valid()
      ensures if old(leafCount) < 256 then r == leafCount && LeafHashes() == old(LeafHashes()) + [hash]
              else r == -1 && LeafHashes() == old(LeafHashes())
    {
      hide TreeNodes, LeafNodes, TotalNodes;
      if leafCount >= MAX_LEAVES {
        return -1;
      }
      leaves[leafCount] := Leaf(if |key| > 63 then key[..63] else key, hash);
      leafCount := leafCount + 1;
      r := leafCount;
    }

    /** Builds the nodes above one level, which lies at `start`. */
    method BuildLevel(start: nat, size: nat, ghost level: seq<Node>) returns (parents: nat)
      requires nodes.Length == MAX_NODES && start + size + ParentCount(size) <= MAX_NODES
      requires nodes[start..start + size] == level
      modifies nodes
      ensures parents == ParentCount(size)
      ensures nodes[..start + size] == old(nodes[..start + size])
      ensures nodes[start + size..start + size + parents] == ParentNodes(combine, level, start)
    {
      hide ParentNodes;
      ghost var up := ParentNodes(combine, level, start);
      var nextFree := start + size;
      parents := 0;
      var i := 0;
      while i < size
        invariant 0 <= parents <= ParentCount(size) && nextFree == start + size + parents
        invariant i == 2 * parents
        invariant nodes[..start + size] == old(nodes[..start + size])
        invariant nodes[start + size..nextFree] == up[..parents]
        decreases size - i
      {
        ParentAt(level, start, parents);
        assert nodes[start + i] == nodes[..start + size][start + i] == level[i];
        if i + 1 < size {
          assert nodes[start + i + 1] == nodes[..start + size][start + i + 1] == level[i + 1];
          nodes[nextFree] := Node(combine(nodes[start + i].hash, nodes[start + i + 1].hash), false, start + i, start + i + 1);
        } else {
          nodes[nextFree] := nodes[start + i].(left := start + i, right := -1);
        }
        nextFree := nextFree + 1;
        parents := parents + 1;
        i := i + 2;
      }
    }

    lemma ParentAt(level: seq<Node>, start: nat, k: nat)
      requires 2 * k < |level|
      ensures k < ParentCount(|level|)
      ensures ParentNodes(combine, level, start)[k] ==
              if 2 * k + 1 < |level| then Node(combine(level[2 * k].hash, level[2 * k + 1].hash), false, start + 2 * k, start + 2 * k + 1)
              else level[2 * k].(left := start + 2 * k, right := -1)
    {
    }

    /** The leaf nodes, one for each leaf. */
    method PlaceLeaves()
      requires leaves.Length == MAX_LEAVES && nodes.Length == MAX_NODES && leafCount <= MAX_LEAVES
      modifies nodes
      ensures nodes[..leafCount] == LeafNodes(LeafHashes())
    {
      var i := 0;
      while i < leafCount
        invariant 0 <= i <= leafCount
        invariant forall k :: 0 <= k < i ==> nodes[k] == Node(leaves[k].hash, true, -1, -1)
      {
        nodes[i] := Node(leaves[i].hash, true, -1, -1);
        i := i + 1;
      }
    }

    lemma Sizes(n: nat)
      requires n <= MAX_LEAVES
      ensures TotalNodes(n) <= MAX_NODES - 1
    {
      SizesMonotone(n, MAX_LEAVES);
      FullSizes();
    }

    /** Builds level after level on top of the leaf nodes. */
    method BuildLevels(ghost bottom: seq<Node>) returns (count: nat, height: nat)
      requires nodes.Length == MAX_NODES && 0 < leafCount <= MAX_LEAVES
      requires |bottom| == leafCount && nodes[..leafCount] == bottom
      modifies nodes
      ensures count == TotalNodes(leafCount) <= MAX_NODES && height == Levels(leafCount)
      ensures nodes[..count] == TreeNodes(combine, bottom, 0)
    {
      hide ParentNodes, TreeNodes, TotalNodes, Levels;
      Sizes(leafCount);
      var levelStart: nat, levelSize: nat, nextFree: nat := 0, leafCount, leafCount;
      height := 1;
      ghost var level := bottom;
      assert nodes[..0] + TreeNodes(combine, bottom, 0) == TreeNodes(combine, bottom, 0);
      while levelSize > 1
        invariant levelSize == |level| > 0 && nextFree == levelStart + levelSize
        invariant levelStart + TotalNodes(levelSize) == TotalNodes(leafCount) && nextFree <= MAX_NODES
        invariant height - 1 + Levels(levelSize) == Levels(leafCount)
        invariant nodes[levelStart..nextFree] == level
        invariant TreeNodes(combine, bottom, 0) == nodes[..levelStart] + TreeNodes(combine, level, levelStart)
        decreases levelSize
      {
        LevelsStep(levelSize);
        var parents := NextLevel(levelStart, levelSize, level, TreeNodes(combine, bottom, 0));
        levelStart, nextFree, level := nextFree, nextFree + parents, ParentNodes(combine, level, levelStart);
        levelSize := parents;
        height := height + 1;
      }
      TreeTop(combine, level, levelStart);
      LevelsTop();
      count := nextFree;
      assert nodes[..count] == nodes[..levelStart] + nodes[levelStart..nextFree];
    }

    /** Builds a level's parents; the level goes over to the finished part of the tree. */
    method NextLevel(start: nat, size: nat, ghost level: seq<Node>, ghost tree: seq<Node>) returns (parents: nat)
      requires nodes.Length == MAX_NODES && size == |level| > 1 && start + TotalNodes(size) <= MAX_NODES
      requires nodes[start..start + size] == level && tree == nodes[..start] + TreeNodes(combine, level, start)
      modifies nodes
      ensures parents == ParentCount(size) == |ParentNodes(combine, level, start)| && 0 < parents < size
      ensures TotalNodes(size) == size + TotalNodes(parents) && start + size + parents <= MAX_NODES
      ensures nodes[start + size..start + size + parents] == ParentNodes(combine, level, start)
      ensures tree == nodes[..start + size] + TreeNodes(combine, ParentNodes(combine, level, start), start + size)
    {
      hide ParentNodes, TreeNodes, TotalNodes;
      TreeStep(combine, level, start);
      ghost var before := nodes[..];
      parents := BuildLevel(start, size, level);
      assert nodes[..][..start + size] == before[..start + size] by {
        assert nodes[..][..start + size] == nodes[..start + size];
      }
      Regroup(before, nodes[..], start, start + size, level, TreeNodes(combine, ParentNodes(combine, level, start), start + size));
    }

    /** A finished level goes over to the finished part of the array. */
    lemma Regroup(before: seq<Node>, after: seq<Node>, start: nat, next: nat, level: seq<Node>, rest: seq<Node>)
      requires start <= next <= |before| == |after| && before[start..next] == level && after[..next] == before[..next]
      ensures before[..start] + (level + rest) == after[..next] + rest
    {
      assert before[..next] == before[..start] + level;
    }

    lemma LevelsStep(n: nat)
      requires n > 1
      ensures Levels(n) == 1 + Levels(ParentCount(n))
    {
    }

    lemma LevelsTop()
      ensures Levels(1) == 1 && TotalNodes(1) == 1
    {
    }

    lemma OneLeaf(hashes: seq<Hash>)
      requires |hashes| == 1
      ensures TreeNodes(combine, LeafNodes(hashes), 0) == [Node(hashes[0], true, -1, -1)]
      ensures Levels(1) == 1 && TotalNodes(1) == 1
    {
    }

    /** Builds the tree over the leaves. */
    method Build() returns (ok: bool)
      requires Valid()
      modifies this`nodeCount, this`height, this`built, nodes
      ensures Valid() && ok == (leafCount > 0)
      ensures built == if ok then LeafHashes() else old(built)
    {
      hide ParentNodes, TreeNodes, TotalNodes, LeafNodes, Levels;
      if leafCount == 0 {
        return false;
      }
      ghost var hashes := LeafHashes();
      Sizes(leafCount);
      if leafCount == 1 {
        nodes[0] := Node(leaves[0].hash, true, -1, -1);
        nodeCount, height := 1, 1;
        OneLeaf(hashes);
      } else {
        PlaceLeaves();
        nodeCount, height := BuildLevels(LeafNodes(hashes));
      }
      built := hashes;
      ok := true;
    }

    /** The root hash, if the tree was built. */
    method RootHash() returns (r: Option<Hash>)
      requires Valid()
      ensures r == if built == [] then None else Some(Root(combine, built))
    {
      hide TreeNodes, LeafNodes, Root, TotalNodes;
      RootFacts();
      if nodeCount == 0 {
        return None;
      }
      assert nodes[..nodeCount][nodeCount - 1] == nodes[nodeCount - 1];
      r := Some(nodes[nodeCount - 1].hash);
    }

    lemma RootFacts()
      requires Valid()
      ensures built == [] <==> nodeCount == 0
      ensures built != [] ==> nodes[..nodeCount][nodeCount - 1].hash == Root(combine, built)
    {
      assert HashesOf(LeafNodes(built)) == built;
      if built != [] {
        LastIsRoot(combine, LeafNodes(built), 0);
      }
    }

    /** Whether the tree was built after the last leaf was added. */
    ghost predicate Current()
      requires leafCount <= leaves.Length
      reads this, leaves
    {
      built == LeafHashes()
    }

    /** Collects the siblings on the way from a leaf to the root: the leaf's path if the tree is current, otherwise
        whatever the array holds in those places. */
    method GenerateProof(leafIndex: int) returns (r: ProofResult)
      requires Valid()
      ensures r.BadIndex? <==> leafIndex < 0 || leafIndex >= leafCount
      ensures r.NotBuilt? <==> 0 <= leafIndex < leafCount && nodeCount == 0
      ensures r.Proof? ==> TotalNodes(leafCount) <= MAX_NODES && r.steps == ArrayPath(nodes[..], 0, leafCount, leafIndex)
      ensures r.Proof? ==> |r.steps| <= MAX_PATH
      ensures r.Proof? && Current() ==> r.steps == Path(combine, built, leafIndex)
    {
      hide TreeNodes, LeafNodes, Root, TotalNodes, Path, PathStep, ArrayPath, HashesOf;
      if leafIndex < 0 || leafIndex >= leafCount {
        return BadIndex;
      }
      if nodeCount == 0 {
        return NotBuilt;
      }
      Sizes(leafCount);
      DepthBound(leafIndex);
      ghost var whole := ArrayPath(nodes[..], 0, leafCount, leafIndex);
      var path := new ProofStep[MAX_PATH](_ => ProofStep([], Left));
      var nodeIdx: nat, pathIdx: nat, levelStart: nat, levelSize: nat := leafIndex, 0, 0, leafCount;
      assert path[..0] + whole == whole;
      while levelSize > 1
        invariant levelStart <= nodeIdx < levelStart + levelSize && levelStart + TotalNodes(levelSize) <= nodes.Length
        invariant pathIdx <= MAX_PATH
        invariant whole == path[..pathIdx] + ArrayPath(nodes[..], levelStart, levelSize, nodeIdx - levelStart)
        decreases levelSize
      {
        var nextLevelStart := levelStart + levelSize;
        var pos := nodeIdx - levelStart;
        ArrayPathStep(nodes[..], levelStart, levelSize, pos);
        pathIdx := AddStep(path, pathIdx, nodes[..][levelStart..nextLevelStart], levelStart, levelSize, pos);
        nodeIdx := nextLevelStart + pos / 2;
        levelStart := nextLevelStart;
        levelSize := CountByTwos(levelSize);
      }
      ArrayPathStep(nodes[..], levelStart, levelSize, nodeIdx - levelStart);
      if Current() {
        CurrentPath(leafIndex);
      }
      r := Proof(path[..pathIdx]);
    }

    lemma CurrentPath(i: nat)
      requires Valid() && nodeCount > 0 && Current() && i < leafCount
      ensures ArrayPath(nodes[..], 0, leafCount, i) == Path(combine, built, i)
    {
      assert HashesOf(LeafNodes(built)) == built;
      assert nodes[..][0..nodeCount] == nodes[..nodeCount];
      ArrayPathIsPath(combine, nodes[..], LeafNodes(built), 0, i);
    }

    lemma DepthBound(i: nat)
      requires Valid() && i < leafCount && TotalNodes(leafCount) <= nodes.Length
      ensures |ArrayPath(nodes[..], 0, leafCount, i)| <= MAX_PATH
    {
      ArrayPathFits(nodes[..], 0, leafCount, i);
      SizesMonotone(leafCount, MAX_LEAVES);
      FullSizes();
    }

    /** Adds the sibling at one level to the path, if there is one. */
    method AddStep(path: array<ProofStep>, pathIdx0: nat, ghost level: seq<Node>, levelStart: nat, levelSize: nat, pos: nat)
      returns (pathIdx: nat)
      requires pos < levelSize == |level| && levelStart + levelSize <= nodes.Length
      requires forall k :: 0 <= k < |level| ==> nodes[levelStart + k] == level[k]
      requires pathIdx0 + |PathStep(HashesOf(level), pos)| <= path.Length
      modifies path
      ensures pathIdx == pathIdx0 + |PathStep(HashesOf(level), pos)|
      ensures path[..pathIdx] == old(path[..pathIdx0]) + PathStep(HashesOf(level), pos)
    {
      pathIdx := pathIdx0;
      if pos % 2 == 0 && pos + 1 < levelSize {
        path[pathIdx] := ProofStep(nodes[levelStart + pos + 1].hash, Right);
        pathIdx := pathIdx + 1;
      } else if pos % 2 == 1 {
        path[pathIdx] := ProofStep(nodes[levelStart + pos - 1].hash, Left);
        pathIdx := pathIdx + 1;
      }
    }

    /** The length of the next level, counted in steps of two. */
    method CountByTwos(size: nat) returns (n: nat)
      ensures n == ParentCount(size)
    {
      n := 0;
      var i := 0;
      while i < size
        invariant i == 2 * n && n <= ParentCount(size)
        decreases size - i
      {
        n := n + 1;
        i := i + 2;
      }
    }
  }

  /** Recomputes the root from a leaf's hash and a proof. */
  method VerifyProof(combine: Combine, root: Hash, leaf: Hash, proof: seq<ProofStep>) returns (ok: bool)
    ensures ok == (Fold(combine, leaf, proof) == root)
  {
    var current := leaf;
    var i := 0;
    while i < |proof|
      invariant 0 <= i <= |proof| && Fold(combine, leaf, proof) == Fold(combine, current, proof[i..])
    {
      current := if proof[i].side == Left then combine(proof[i].hash, current) else combine(current, proof[i].hash);
      i := i + 1;
    }
    ok := current == root;
  }

  /** A generated proof verifies its leaf against the root, and another hash exactly if it collides with the leaf on the way. */
  method ProveAndVerify(t: MerkleTree, i: nat, h: Hash) returns (ok: bool)
    requires t.Valid() && t.nodeCount > 0 && t.Current() && i < t.leafCount
    ensures var own, path := t.LeafHashes(), Path(t.combine, t.LeafHashes(), i);
            ok <==> h == own[i] || ChainsCollide(t.combine, h, path, own[i], path)
  {
    hide MerkleTree.Valid, ChainsCollide;
    t.RootFacts();
    var root := t.RootHash();
    var proof := t.GenerateProof(i);
    ok := VerifyProof(t.combine, root.value, h, proof.steps);
    PathVerifies(t.combine, t.built, i);
    if ok {
      ProofBinds(t.combine, t.built, i, h, proof.steps);
    }
    CollidedMeet(t.combine, h, t.built[i], proof.steps);
  }

  /** For any number of leaves when the tree was built and any number now: the proof for a leaf verifies exactly if the
      hashes in the places where a tree over all leaves would have its siblings lead from it to the old root. */
  method ProveLeaf(t: MerkleTree, i: nat) returns (ok: bool)
    requires t.Valid() && t.nodeCount > 0 && i < t.leafCount
    ensures TotalNodes(t.leafCount) <= t.nodes.Length && t.built != [] && t.leafCount <= t.leaves.Length
    ensures ok <==> Fold(t.combine, t.LeafHashes()[i], ArrayPath(t.nodes[..], 0, t.leafCount, i)) == Root(t.combine, t.built)
    ensures t.Current() ==> ok
  {
    hide TreeNodes, LeafNodes, ArrayPath, Root, Path, TotalNodes;
    t.RootFacts();
    LeafCounts(t);
    var root := t.RootHash();
    var proof := t.GenerateProof(i);
    ok := VerifyProof(t.combine, root.value, t.leaves[i].hash, proof.steps);
    PathVerifies(t.combine, t.built, if i < |t.built| then i else 0);
  }

  /** A leaf that was added after the build: its proof combines it with the first leaf, which gives the old root only
      if that combination is the first leaf's own hash. */
  method StaleProof(combine: Combine, x: Hash, y: Hash) returns (ok: bool)
    ensures ok <==> combine(x, y) == x
  {
    hide TreeNodes, LeafNodes, TotalNodes, ArrayPath, Root;
    var t := new MerkleTree(combine);
    var r := t.AddLeaf([], x);
    assert t.LeafHashes() == [x];
    var built := t.Build();
    t.RootFacts();
    r := t.AddLeaf([], y);
    var root := t.RootHash();
    var proof := t.GenerateProof(1);
    SecondLeafPath(t, x, y);
    ok := VerifyProof(combine, root.value, y, proof.steps);
  }

  lemma SecondLeafPath(t: MerkleTree, x: Hash, y: Hash)
    requires t.Valid() && t.built == [x] && t.leafCount == 2
    ensures TotalNodes(2) == 3 && ArrayPath(t.nodes[..], 0, 2, 1) == [ProofStep(x, Left)]
    ensures Root(t.combine, [x]) == x && Fold(t.combine, y, [ProofStep(x, Left)]) == t.combine(x, y)
  {
    assert TotalNodes(1) == 1 && TotalNodes(2) == 3;
    assert t.nodes[..1] == TreeNodes(t.combine, LeafNodes([x]), 0) == LeafNodes([x]);
    assert t.nodes[..1][0] == t.nodes[0];
    var two := t.nodes[..][0..2];
    assert HashesOf(two)[0] == x;
    assert ArrayPath(t.nodes[..], 2, 1, 0) == [];
    assert PathStep(HashesOf(two), 1) == [ProofStep(x, Left)];
    assert [ProofStep(x, Left)][1..] == [];
  }

  // ---------- Comparing two trees ----------

  predicate Differs(a: seq<Hash>, b: seq<Hash>, i: nat) {
    i >= |a| || i >= |b| || a[i] != b[i]
  }

  /** The positions below `n` where the two leaf lists differ, in order. */
  function Differences(a: seq<Hash>, b: seq<Hash>, n: nat): seq<int> {
    if n == 0 then [] else Differences(a, b, n - 1) + if Differs(a, b, n - 1) then [n - 1] else []
  }

  function Longer(a: seq<Hash>, b: seq<Hash>): nat {
    if |a| < |b| then |b| else |a|
  }

  function Take(s: seq<int>, n: nat): (first: seq<int>)
    ensures first <= s && |first| <= n && (|first| < n ==> first == s)
  {
    if |s| <= n then s else s[..n]
  }

  /** The differences in ascending order: places where the hashes differ, and places that only one list has. */
  lemma {:induction false} DifferencesExactly(a: seq<Hash>, b: seq<Hash>, n: nat)
    ensures var ds := Differences(a, b, n);
            && (forall i, j :: 0 <= i < j < |ds| ==> ds[i] < ds[j])
            && (forall i :: i in ds <==> 0 <= i < n && !(i < |a| && i < |b| && a[i] == b[i]))
  {
    if n > 0 {
      DifferencesExactly(a, b, n - 1);
      var before := Differences(a, b, n - 1);
      assert forall i :: 0 <= i < |before| ==> before[i] in before;
    }
  }

  lemma {:induction false} NoDifferences(a: seq<Hash>, n: nat)
    requires n <= |a|
    ensures Differences(a, a, n) == []
  {
    if n > 0 {
      NoDifferences(a, n - 1);
    }
  }

  lemma {:induction false} SomeDifference(a: seq<Hash>, b: seq<Hash>, n: nat, i: nat)
    requires i < n && Differs(a, b, i)
    ensures Differences(a, b, n) != []
  {
    if i < n - 1 {
      SomeDifference(a, b, n - 1, i);
    }
  }

  /** Appends position `i` to the found differences if there is room and it is one. */
  lemma TakeStep(a: seq<Hash>, b: seq<Hash>, i: nat, n: nat)
    ensures var s := Take(Differences(a, b, i), n);
            Take(Differences(a, b, i + 1), n) == if |s| < n && Differs(a, b, i) then s + [i] else s
  {
  }

  lemma {:induction false} TakeFull(a: seq<Hash>, b: seq<Hash>, i: nat, m: nat, n: nat)
    requires i <= m && |Take(Differences(a, b, i), n)| == n
    ensures Take(Differences(a, b, m), n) == Take(Differences(a, b, i), n)
  {
    if i < m {
      TakeFull(a, b, i, m - 1, n);
      TakeStep(a, b, m - 1, n);
    }
  }

  /** Lists the leaf positions at which two trees differ, unless their roots agree. */
  method TreeDiff(a: MerkleTree, b: MerkleTree, out: array<int>, maxDiffs: int) returns (count: nat)
    requires a.Valid() && b.Valid() && a.combine == b.combine && maxDiffs <= out.Length
    modifies out
    ensures a.Valid() && b.Valid() && count <= out.Length
    ensures var la, lb := a.LeafHashes(), b.LeafHashes();
            out[..count] == if maxDiffs <= 0 || a.built == [] || b.built == [] || Root(a.combine, a.built) == Root(b.combine, b.built) then []
                            else Take(Differences(la, lb, Longer(la, lb)), maxDiffs)
  {
    hide MerkleTree.Valid, MerkleTree.LeafHashes, Root, Take, Differences;
    LeafCounts(a);
    LeafCounts(b);
    ghost var la, lb := a.LeafHashes(), b.LeafHashes();
    count := 0;
    if maxDiffs <= 0 {
      return;
    }
    var rootA := a.RootHash();
    var rootB := b.RootHash();
    if rootA == None || rootB == None || rootA == rootB {
      return;
    }
    var minLeaves := if a.leafCount < b.leafCount then a.leafCount else b.leafCount;
    count := CompareLeaves(a, b, minLeaves, out, maxDiffs);
    var total := if a.leafCount > minLeaves then a.leafCount else b.leafCount;
    count := ListExtra(la, lb, minLeaves, total, out, count, maxDiffs);
  }

  lemma LeafCounts(t: MerkleTree)
    requires t.Valid()
    ensures t.leafCount <= t.leaves.Length
  {
  }

  method CompareLeaves(a: MerkleTree, b: MerkleTree, n: nat, out: array<int>, maxDiffs: nat) returns (count: nat)
    requires a.leafCount <= a.leaves.Length && b.leafCount <= b.leaves.Length && n <= a.leafCount && n <= b.leafCount
    requires maxDiffs <= out.Length
    modifies out
    ensures count <= maxDiffs && out[..count] == Take(Differences(a.LeafHashes(), b.LeafHashes(), n), maxDiffs)
  {
    hide Take, Differences;
    ghost var la, lb := a.LeafHashes(), b.LeafHashes();
    count := 0;
    var i := 0;
    NoneYet(la, lb, maxDiffs);
    while i < n && count < maxDiffs
      invariant i <= n && count <= maxDiffs && out[..count] == Take(Differences(la, lb, i), maxDiffs)
    {
      TakeStep(la, lb, i, maxDiffs);
      if a.leaves[i].hash != b.leaves[i].hash {
        out[count] := i;
        count := count + 1;
      }
      i := i + 1;
    }
    if i < n {
      TakeFull(la, lb, i, n, maxDiffs);
    }
  }

  lemma NoneYet(a: seq<Hash>, b: seq<Hash>, n: nat)
    ensures Take(Differences(a, b, 0), n) == []
  {
  }

  /** The leaves that only the larger tree has all count as differences. */
  method ListExtra(ghost la: seq<Hash>, ghost lb: seq<Hash>, from: nat, total: nat, out: array<int>, count0: nat, maxDiffs: nat)
    returns (count: nat)
    requires from <= total && (from >= |la| || from >= |lb|) && count0 <= maxDiffs <= out.Length
    requires out[..count0] == Take(Differences(la, lb, from), maxDiffs)
    modifies out
    ensures count <= maxDiffs && out[..count] == Take(Differences(la, lb, total), maxDiffs)
  {
    hide Take, Differences;
    count := count0;
    var i := from;
    while i < total && count < maxDiffs
      invariant from <= i <= total && count <= maxDiffs && out[..count] == Take(Differences(la, lb, i), maxDiffs)
    {
      TakeStep(la, lb, i, maxDiffs);
      out[count] := i;
      count := count + 1;
      i := i + 1;
    }
    if i < total {
      TakeFull(la, lb, i, total, maxDiffs);
    }
  }

  /** For built trees the comparison lists exactly the first differences if and only if the roots differ or there are none. */
  lemma DiffExact(combine: Combine, la: seq<Hash>, lb: seq<Hash>, maxDiffs: nat)
    requires la != [] && lb != [] && maxDiffs > 0
    ensures var found := if Root(combine, la) == Root(combine, lb) then [] else Take(Differences(la, lb, Longer(la, lb)), maxDiffs);
            found == Take(Differences(la, lb, Longer(la, lb)), maxDiffs) <==> (Root(combine, la) != Root(combine, lb) || la == lb)
  {
    hide Root;
    if la == lb {
      NoDifferences(la, |la|);
    } else {
      var i: nat := Longer(la, lb) - 1;
      if |la| == |lb| {
        i := FirstDifference(la, lb);
      }
      SomeDifference(la, lb, Longer(la, lb), i);
    }
  }

  lemma FirstDifference(a: seq<Hash>, b: seq<Hash>) returns (i: nat)
    requires |a| == |b| && a != b
    ensures i < |a| && a[i] != b[i]
  {
    var k :| 0 <= k < |a| && a[k] != b[k];
    i := k;
  }

  /** Over equally many leaves the comparison is exact unless the two trees collide. */
  lemma EqualCountsExact(combine: Combine, la: seq<Hash>, lb: seq<Hash>)
    requires |la| == |lb| > 0 && !TreesCollide(combine, la, lb)
    ensures Root(combine, la) != Root(combine, lb) || la == lb
  {
    if Root(combine, la) == Root(combine, lb) {
      RootBinds(combine, la, lb);
    }
  }

  /** Comparing two trees that are both built over their present leaves: the list is exact if and only if the roots differ
      or the leaves are the same, so over equally many leaves it is wrong only if the two trees collide. */
  method CompareReplicas(a: MerkleTree, b: MerkleTree, out: array<int>, maxDiffs: int) returns (count: nat)
    requires a.Valid() && b.Valid() && a.combine == b.combine && a.leafCount > 0 && b.leafCount > 0
    requires a.Current() && b.Current() && 0 < maxDiffs <= out.Length
    modifies out
    ensures count <= out.Length && a.leafCount <= a.leaves.Length && b.leafCount <= b.leaves.Length
    ensures var la, lb := a.LeafHashes(), b.LeafHashes();
            var exact := out[..count] == Take(Differences(la, lb, Longer(la, lb)), maxDiffs);
            && (exact <==> Root(a.combine, la) != Root(b.combine, lb) || la == lb)
            && (!exact && |la| == |lb| ==> TreesCollide(a.combine, la, lb))
  {
    hide MerkleTree.Valid, Take, Differences, Root, TreesCollide;
    LeafCounts(a);
    LeafCounts(b);
    count := TreeDiff(a, b, out, maxDiffs);
    DiffExact(a.combine, a.LeafHashes(), b.LeafHashes(), maxDiffs);
    if a.leafCount == b.leafCount && !TreesCollide(a.combine, a.LeafHashes(), b.LeafHashes()) {
      EqualCountsExact(a.combine, a.LeafHashes(), b.LeafHashes());
    }
  }
}
