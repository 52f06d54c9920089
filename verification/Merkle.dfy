/** The Merkle tree of ulpf/integrity/merkle.py: roots, authentication paths, verification.

    The loops are methods; each is tied to a function on sequences, and the lemmas below say
    what those functions guarantee: every honest path verifies, and a root binds its leaves. */
module Merkle {
  import opened Core

  datatype Side = Left | Right | Other(text: string)

  datatype Step = Step(sibling: Bytes, side: Side)

  datatype MerkleError = EmptyTree | IndexOutOfRange | InvalidSide(text: string)

  // ----- specification -----

  function HashPair(h: Hash, left: Bytes, right: Bytes): Digest {
    h(left + right)
  }

  /** Index of the right-hand child of node i in a level of n nodes: a lone last node pairs
      with itself. */
  function RightChild(n: nat, i: nat): nat {
    if 2 * i + 1 < n then 2 * i + 1 else 2 * i
  }

  /** One level up: neighbours are hashed in pairs. */
  function Up(h: Hash, level: seq<Bytes>): (up: seq<Bytes>)
    ensures |up| == (|level| + 1) / 2 && AllDigests(up)
  {
    if level == [] then []
    else if |level| == 1 then [HashPair(h, level[0], level[0])]
    else [HashPair(h, level[0], level[1])] + Up(h, level[2..])
  }

  lemma {:induction false} UpAt(h: Hash, level: seq<Bytes>, i: nat)
    requires i < (|level| + 1) / 2
    ensures Up(h, level)[i] == HashPair(h, level[2 * i], level[RightChild(|level|, i)])
  {
    if i > 0 {
      UpAt(h, level[2..], i - 1);
    }
  }

  function Root(h: Hash, leaves: seq<Bytes>): Bytes
    decreases |leaves|
  {
    if leaves == [] then h([])
    else if |leaves| == 1 then leaves[0]
    else Root(h, Up(h, leaves))
  }

  /** Position of the sibling of node i among n nodes (`i ^ 1` after padding). */
  function SiblingIndex(n: nat, i: nat): (s: nat)
    requires i < n
    ensures s < n
  {
    if i % 2 == 1 then i - 1 else RightChild(n, i / 2)
  }

  function Path(h: Hash, leaves: seq<Bytes>, i: nat): seq<Step>
    requires i < |leaves|
    decreases |leaves|
  {
    if |leaves| == 1 then []
    else
      [Step(leaves[SiblingIndex(|leaves|, i)], if i % 2 == 0 then Right else Left)]
      + Path(h, Up(h, leaves), i / 2)
  }

  /** The bytes hashed when `computed` meets one path step. */
  function Joined(computed: Bytes, step: Step): Bytes {
    if step.side == Left then step.sibling + computed else computed + step.sibling
  }

  function Fold(h: Hash, computed: Bytes, path: seq<Step>): Bytes
    decreases |path|
  {
    if path == [] then computed else Fold(h, h(Joined(computed, path[0])), path[1..])
  }

  function FirstInvalid(path: seq<Step>): Option<string> {
    if path == [] then None
    else if path[0].side.Other? then Some(path[0].side.text)
    else FirstInvalid(path[1..])
  }

  /** Binary digit k of i. */
  function Bit(i: nat, k: nat): nat {
    if k == 0 then i % 2 else Bit(i / 2, k - 1)
  }

  predicate SidesOf(path: seq<Step>, i: nat) {
    forall k :: 0 <= k < |path| ==> path[k].side == if Bit(i, k) == 0 then Right else Left
  }

  function Height(n: nat): nat {
    if n <= 1 then 0 else 1 + Height((n + 1) / 2)
  }

  // ----- the code -----

  method HashLevel(h: Hash, level: seq<Bytes>) returns (up: seq<Bytes>)
    requires level != []
    ensures up == Up(h, level)
  {
    var padded := level;
    if |padded| % 2 == 1 {
      padded := padded + [padded[|padded| - 1]];
    }
    up := [];
    var i := 0;
    while i < |padded|
      invariant 0 <= i <= |padded| && i % 2 == 0
      invariant |up| == i / 2
      invariant forall k :: 0 <= k < |up| ==> up[k] == Up(h, level)[k]
    {
      UpAt(h, level, i / 2);
      up := up + [HashPair(h, padded[i], padded[i + 1])];
      i := i + 2;
    }
  }

  method MerkleRoot(h: Hash, leaves: seq<Bytes>) returns (root: Bytes)
    ensures root == Root(h, leaves)
    ensures leaves == [] ==> root == h([])
    ensures |leaves| == 1 ==> root == leaves[0]
    ensures |leaves| == 2 ==> root == h(leaves[0] + leaves[1])
    ensures |leaves| == 3 ==> root == h(h(leaves[0] + leaves[1]) + h(leaves[2] + leaves[2]))
  {
    SmallRoots(h, leaves);
    if leaves == [] {
      return h([]);
    }
    var level := leaves;
    while |level| > 1
      invariant level != []
      invariant Root(h, level) == Root(h, leaves)
      decreases |level|
    {
      level := HashLevel(h, level);
    }
    return level[0];
  }

  lemma SmallRoots(h: Hash, leaves: seq<Bytes>)
    ensures leaves == [] ==> Root(h, leaves) == h([])
    ensures |leaves| == 1 ==> Root(h, leaves) == leaves[0]
    ensures |leaves| == 2 ==> Root(h, leaves) == h(leaves[0] + leaves[1])
    ensures |leaves| == 3 ==> Root(h, leaves) == h(h(leaves[0] + leaves[1]) + h(leaves[2] + leaves[2]))
  {
    hide Up;
    if |leaves| == 2 {
      RootOfTwo(h, leaves);
    } else if |leaves| == 3 {
      UpAt(h, leaves, 0);
      UpAt(h, leaves, 1);
      RootOfTwo(h, Up(h, leaves));
    }
  }

  lemma RootOfTwo(h: Hash, leaves: seq<Bytes>)
    requires |leaves| == 2
    ensures Root(h, leaves) == h(leaves[0] + leaves[1])
  {
    hide Up;
    UpAt(h, leaves, 0);
    assert Root(h, Up(h, leaves)) == Up(h, leaves)[0];
  }

  method MerkleProof(h: Hash, leaves: seq<Bytes>, index: int) returns (r: Result<seq<Step>, MerkleError>)
    ensures leaves == [] ==> r == Err(EmptyTree)
    ensures leaves != [] && !(0 <= index < |leaves|) ==> r == Err(IndexOutOfRange)
    ensures 0 <= index < |leaves| ==> r == Ok(Path(h, leaves, index))
  {
    hide Path, Up;
    if leaves == [] {
      return Err(EmptyTree);
    }
    if !(0 <= index < |leaves|) {
      return Err(IndexOutOfRange);
    }
    var proof := [];
    var level := leaves;
    var idx := index;
    while |level| > 1
      invariant 0 <= idx < |level|
      invariant proof + Path(h, level, idx) == Path(h, leaves, index)
      decreases |level|
    {
      var padded := if |level| % 2 == 1 then level + [level[|level| - 1]] else level;
      var sibling := padded[if idx % 2 == 0 then idx + 1 else idx - 1];
      var step := Step(sibling, if idx % 2 == 0 then Right else Left);
      PathStep(h, level, idx, padded, step);
      SeqAssoc(proof, [step], Path(h, Up(h, level), idx / 2));
      proof := proof + [step];
      level := HashLevel(h, level);
      idx := idx / 2;
    }
    PathOfOne(h, level);
    assert proof + [] == proof;
    return Ok(proof);
  }

  lemma PathOfOne(h: Hash, level: seq<Bytes>)
    requires |level| == 1
    ensures Path(h, level, 0) == []
  {}

  lemma PathStep(h: Hash, level: seq<Bytes>, i: nat, padded: seq<Bytes>, step: Step)
    requires |level| > 1 && i < |level|
    requires padded == if |level| % 2 == 1 then level + [level[|level| - 1]] else level
    requires step == Step(padded[if i % 2 == 0 then i + 1 else i - 1], if i % 2 == 0 then Right else Left)
    ensures Path(h, level, i) == [step] + Path(h, Up(h, level), i / 2)
  {
    assert step.sibling == level[SiblingIndex(|level|, i)];
  }

  method VerifyProof(h: Hash, leaf: Bytes, proof: seq<Step>, root: Bytes)
    returns (r: Result<bool, MerkleError>)
    ensures FirstInvalid(proof).Some? ==> r == Err(InvalidSide(FirstInvalid(proof).value))
    ensures FirstInvalid(proof).None? ==> r == Ok(Fold(h, leaf, proof) == root)
  {
    var computed := leaf;
    for i := 0 to |proof|
      invariant Fold(h, computed, proof[i..]) == Fold(h, leaf, proof)
      invariant FirstInvalid(proof[i..]) == FirstInvalid(proof)
    {
      assert proof[i..][1..] == proof[i + 1..];
      var Step(sibling, side) := proof[i];
      if side == Left {
        computed := HashPair(h, sibling, computed);
      } else if side == Right {
        computed := HashPair(h, computed, sibling);
      } else {
        return Err(InvalidSide(side.text));
      }
    }
    return Ok(computed == root);
  }

  // ----- completeness -----

  /** Every path the code builds leads to the root the code builds, and never carries an
      invalid side. */
  lemma {:induction false} PathVerifies(h: Hash, leaves: seq<Bytes>, i: nat)
    requires i < |leaves|
    ensures Fold(h, leaves[i], Path(h, leaves, i)) == Root(h, leaves)
    ensures FirstInvalid(Path(h, leaves, i)) == None
    decreases |leaves|
  {
    if |leaves| > 1 {
      var up := Up(h, leaves);
      var path := Path(h, leaves, i);
      assert path[1..] == Path(h, up, i / 2);
      UpAt(h, leaves, i / 2);
      assert h(Joined(leaves[i], path[0])) == up[i / 2];
      PathVerifies(h, up, i / 2);
    }
  }

  /** The k-th side is the k-th binary digit of the index; the length is the tree's height. */
  lemma {:induction false} PathShape(h: Hash, leaves: seq<Bytes>, i: nat)
    requires i < |leaves|
    ensures |Path(h, leaves, i)| == Height(|leaves|)
    ensures SidesOf(Path(h, leaves, i), i)
    decreases |leaves|
  {
    if |leaves| > 1 {
      var up := Up(h, leaves);
      var path := Path(h, leaves, i);
      PathShape(h, up, i / 2);
      forall k | 0 <= k < |path|
        ensures path[k].side == if Bit(i, k) == 0 then Right else Left
      {
        if k > 0 {
          assert path[k] == Path(h, up, i / 2)[k - 1];
        }
      }
    }
  }

  /** The height is the exact binary logarithm of the leaf count, rounded up. */
  lemma {:induction false} HeightIsLog(n: nat)
    requires n > 1
    ensures Height(n) >= 1
    ensures Pow2(Height(n) - 1) < n <= Pow2(Height(n))
  {
    var m := (n + 1) / 2;
    if m > 1 {
      HeightIsLog(m);
    } else {
      assert n == 2;
      assert Height(2) == 1 + Height(1);
    }
  }

  // ----- what gets hashed -----

  /** The string hashed for node i of the level above. */
  function PairAt(level: seq<Bytes>, i: nat): Bytes
    requires i < (|level| + 1) / 2
  {
    level[2 * i] + level[RightChild(|level|, i)]
  }

  /** Every string hashed while the root of `leaves` is computed. */
  function Hashed(h: Hash, leaves: seq<Bytes>): set<Bytes>
    decreases |leaves|
  {
    if |leaves| <= 1 then {}
    else
      (set i | 0 <= i < (|leaves| + 1) / 2 :: PairAt(leaves, i))
      + Hashed(h, Up(h, leaves))
  }

  /** Every string hashed while `path` is folded onto `computed`. */
  function FoldHashed(h: Hash, computed: Bytes, path: seq<Step>): set<Bytes>
    decreases |path|
  {
    if path == [] then {}
    else {Joined(computed, path[0])} + FoldHashed(h, h(Joined(computed, path[0])), path[1..])
  }

  lemma SplitConcat(a: Bytes, b: Bytes, c: Bytes, d: Bytes)
    requires a + b == c + d
    requires |a| == |c| || |b| == |d|
    ensures a == c && b == d
  {
    assert |a| == |c|;
    assert a == (a + b)[..|a|] == (c + d)[..|c|] == c;
    assert b == (a + b)[|a|..] == (c + d)[|c|..] == d;
  }

  // ----- binding -----

  /** A path with the sides of index i, folded from any 32-byte leaf onto the root, is the
      honest path and starts at the honest leaf -- or a collision is on the table. Siblings in
      the offered path may have any length. */
  lemma {:induction false} PathBinds(h: Hash, leaves: seq<Bytes>, i: nat, leaf: Bytes, path: seq<Step>)
    requires i < |leaves| && AllDigests(leaves)
    requires |leaf| == HASH_LEN
    requires |path| == Height(|leaves|)
    requires SidesOf(path, i)
    requires Fold(h, leaf, path) == Root(h, leaves)
    ensures (leaf == leaves[i] && path == Path(h, leaves, i))
         || Collision(h, FoldHashed(h, leaf, path) + Hashed(h, leaves))
    decreases |leaves|
  {
    hide Up, SiblingIndex;
    if |leaves| > 1 {
      var up := Up(h, leaves);
      var n := |leaves|;
      var rest := path[1..];
      assert Bit(i, 0) == i % 2;
      assert SidesOf(rest, i / 2) by {
        forall k | 0 <= k < |rest|
          ensures rest[k] == path[k + 1] && Bit(i, k + 1) == Bit(i / 2, k)
        {}
      }
      var mine := Joined(leaf, path[0]);
      var theirs := leaves[2 * (i / 2)] + leaves[RightChild(n, i / 2)];
      UpAt(h, leaves, i / 2);
      PathBinds(h, up, i / 2, h(mine), rest);
      var all := FoldHashed(h, leaf, path) + Hashed(h, leaves);
      assert theirs == PairAt(leaves, i / 2);
      assert mine in all && theirs in all;
      if Collision(h, FoldHashed(h, h(mine), rest) + Hashed(h, up)) {
        CollisionGrows(h, FoldHashed(h, h(mine), rest) + Hashed(h, up), all);
      } else if mine == theirs {
        StepBinds(leaves, i, leaf, path[0]);
        assert path == [path[0]] + rest;
      } else {
        assert h(mine) == up[i / 2] == h(theirs);
      }
    }
  }

  lemma StepBinds(leaves: seq<Bytes>, i: nat, leaf: Bytes, step: Step)
    requires |leaves| > 1 && i < |leaves| && AllDigests(leaves) && |leaf| == HASH_LEN
    requires step.side == if i % 2 == 0 then Right else Left
    requires Joined(leaf, step) == leaves[2 * (i / 2)] + leaves[RightChild(|leaves|, i / 2)]
    ensures leaf == leaves[i] && step.sibling == leaves[SiblingIndex(|leaves|, i)]
  {
    if i % 2 == 0 {
      SplitConcat(leaf, step.sibling, leaves[i], leaves[RightChild(|leaves|, i / 2)]);
    } else {
      SplitConcat(step.sibling, leaf, leaves[i - 1], leaves[i]);
    }
  }

  // ----- which leaf lists share a root -----

  /** Replace each node of a level by its two children in the level of n nodes below. */
  function Children(n: nat, nodes: seq<nat>): (c: seq<nat>)
    ensures |c| == 2 * |nodes|
  {
    if nodes == [] then [] else [2 * nodes[0], RightChild(n, nodes[0])] + Children(n, nodes[1..])
  }

  lemma {:induction false} ChildrenAt(n: nat, nodes: seq<nat>, j: nat)
    requires j < |nodes|
    ensures Children(n, nodes)[2 * j] == 2 * nodes[j]
    ensures Children(n, nodes)[2 * j + 1] == RightChild(n, nodes[j])
  {
    if j > 0 {
      ChildrenAt(n, nodes[1..], j - 1);
    }
  }

  /** The leaf positions of the padded, perfect tree over n leaves: the tree that results when
      every duplication is written out. */
  function Layout(n: nat): (p: seq<nat>)
    requires n >= 1
    ensures |p| == Pow2(Height(n))
  {
    if n == 1 then [0] else Children(n, Layout((n + 1) / 2))
  }

  lemma {:induction false} LayoutInRange(n: nat, j: nat)
    requires n >= 1 && j < |Layout(n)|
    ensures Layout(n)[j] < n
  {
    if n > 1 {
      LayoutInRange((n + 1) / 2, j / 2);
      ChildrenAt(n, Layout((n + 1) / 2), j / 2);
      assert j == 2 * (j / 2) || j == 2 * (j / 2) + 1;
    }
  }

  function Pick(leaves: seq<Bytes>, at: seq<nat>): (p: seq<Bytes>)
    requires forall j :: 0 <= j < |at| ==> at[j] < |leaves|
    ensures |p| == |at|
    ensures forall j :: 0 <= j < |at| ==> p[j] == leaves[at[j]]
  {
    if at == [] then [] else [leaves[at[0]]] + Pick(leaves, at[1..])
  }

  function Padded(leaves: seq<Bytes>): (p: seq<Bytes>)
    requires leaves != []
    ensures |p| == Pow2(Height(|leaves|))
  {
    assert forall j :: 0 <= j < |Layout(|leaves|)| ==> Layout(|leaves|)[j] < |leaves| by {
      forall j | 0 <= j < |Layout(|leaves|)| ensures Layout(|leaves|)[j] < |leaves| {
        LayoutInRange(|leaves|, j);
      }
    }
    Pick(leaves, Layout(|leaves|))
  }

  lemma PaddedAt(leaves: seq<Bytes>, j: nat)
    requires leaves != [] && j < |Padded(leaves)|
    ensures j < |Layout(|leaves|)| && Layout(|leaves|)[j] < |leaves|
    ensures Padded(leaves)[j] == leaves[Layout(|leaves|)[j]]
  {
    LayoutInRange(|leaves|, j);
  }

  /** Every real leaf occurs in the padded tree. */
  lemma {:induction false} LayoutCovers(n: nat, i: nat) returns (j: nat)
    requires i < n
    ensures j < |Layout(n)| && Layout(n)[j] == i
  {
    if n == 1 {
      j := 0;
    } else {
      var k := LayoutCovers((n + 1) / 2, i / 2);
      j := 2 * k + i % 2;
      ChildrenAt(n, Layout((n + 1) / 2), k);
    }
  }

  /** Padding commutes with going one level up. */
  lemma PaddedUp(h: Hash, leaves: seq<Bytes>, j: nat)
    requires |leaves| > 1 && j < |Padded(Up(h, leaves))|
    ensures |Padded(leaves)| == 2 * |Padded(Up(h, leaves))|
    ensures Padded(Up(h, leaves))[j] == h(Padded(leaves)[2 * j] + Padded(leaves)[2 * j + 1])
    ensures Padded(leaves)[2 * j] + Padded(leaves)[2 * j + 1] in Hashed(h, leaves)
  {
    var n := |leaves|;
    var i := Layout((n + 1) / 2)[j];
    PaddedAt(Up(h, leaves), j);
    PaddedAt(leaves, 2 * j);
    PaddedAt(leaves, 2 * j + 1);
    ChildrenAt(n, Layout((n + 1) / 2), j);
    UpAt(h, leaves, i);
    assert PairAt(leaves, i) in Hashed(h, leaves);
  }

  lemma PaddedSingle(leaf: Bytes)
    ensures Padded([leaf]) == [leaf]
  {
    assert Layout(1) == [0];
    PaddedAt([leaf], 0);
  }

  /** Lists of equal tree height share a root exactly when their padded trees agree, barring a
      collision. */
  lemma {:induction false} SameRootIffSamePadding(h: Hash, a: seq<Bytes>, b: seq<Bytes>)
    requires a != [] && b != [] && AllDigests(a) && AllDigests(b)
    requires Height(|a|) == Height(|b|)
    ensures Padded(a) == Padded(b) ==> Root(h, a) == Root(h, b)
    ensures Root(h, a) == Root(h, b) ==>
      Padded(a) == Padded(b) || Collision(h, Hashed(h, a) + Hashed(h, b))
    decreases |a|
  {
    if |a| == 1 || |b| == 1 {
      assert Height(|a|) == 0 && |a| == 1 && |b| == 1;
      assert a == [a[0]] && b == [b[0]];
      PaddedSingle(a[0]);
      PaddedSingle(b[0]);
    } else {
      var ua, ub := Up(h, a), Up(h, b);
      SameRootIffSamePadding(h, ua, ub);
      var all := Hashed(h, a) + Hashed(h, b);
      if Padded(a) == Padded(b) {
        forall j | 0 <= j < |Padded(ua)|
          ensures Padded(ua)[j] == Padded(ub)[j]
        {
          PaddedUp(h, a, j);
          PaddedUp(h, b, j);
        }
        assert Padded(ua) == Padded(ub);
      }
      if Root(h, a) == Root(h, b) && !Collision(h, all) {
        assert !Collision(h, Hashed(h, ua) + Hashed(h, ub)) by {
          assert Hashed(h, ua) <= Hashed(h, a) && Hashed(h, ub) <= Hashed(h, b);
        }
        forall k | 0 <= k < |Padded(a)|
          ensures Padded(a)[k] == Padded(b)[k]
        {
          SamePair(h, a, b, k / 2);
          assert k == 2 * (k / 2) || k == 2 * (k / 2) + 1;
        }
        assert Padded(a) == Padded(b);
      }
    }
  }

  lemma SamePair(h: Hash, a: seq<Bytes>, b: seq<Bytes>, j: nat)
    requires |a| > 1 && |b| > 1 && AllDigests(a) && AllDigests(b)
    requires Height(|a|) == Height(|b|)
    requires Padded(Up(h, a)) == Padded(Up(h, b)) && j < |Padded(Up(h, a))|
    requires !Collision(h, Hashed(h, a) + Hashed(h, b))
    ensures Padded(a)[2 * j] == Padded(b)[2 * j] && Padded(a)[2 * j + 1] == Padded(b)[2 * j + 1]
  {
    PaddedUp(h, a, j);
    PaddedUp(h, b, j);
    var all := Hashed(h, a) + Hashed(h, b);
    var x := Padded(a)[2 * j] + Padded(a)[2 * j + 1];
    var y := Padded(b)[2 * j] + Padded(b)[2 * j + 1];
    assert x in all && y in all && h(x) == h(y);
    PaddedAt(a, 2 * j);
    PaddedAt(b, 2 * j);
    SplitConcat(Padded(a)[2 * j], Padded(a)[2 * j + 1], Padded(b)[2 * j], Padded(b)[2 * j + 1]);
  }

  /** The d-th level above. */
  function Lift(h: Hash, level: seq<Bytes>, d: nat): seq<Bytes>
    decreases d
  {
    if d == 0 then level else Lift(h, Up(h, level), d - 1)
  }

  lemma {:induction false} LiftKeeps(h: Hash, level: seq<Bytes>, d: nat)
    requires level != [] && d <= Height(|level|)
    ensures Lift(h, level, d) != []
    ensures Height(|Lift(h, level, d)|) == Height(|level|) - d
    ensures Root(h, Lift(h, level, d)) == Root(h, level)
    ensures Hashed(h, Lift(h, level, d)) <= Hashed(h, level)
    ensures AllDigests(level) ==> AllDigests(Lift(h, level, d))
    decreases d
  {
    if d > 0 {
      LiftKeeps(h, Up(h, level), d - 1);
    }
  }

  /** What a shared root means in general: take the taller list up until the heights agree; the
      lists share a root exactly when the padded trees then agree, barring a collision. */
  lemma SameRootIffLiftedPadding(h: Hash, a: seq<Bytes>, b: seq<Bytes>)
    requires a != [] && b != [] && AllDigests(a) && AllDigests(b)
    requires Height(|a|) >= Height(|b|)
    ensures Lift(h, a, Height(|a|) - Height(|b|)) != []
    ensures Padded(Lift(h, a, Height(|a|) - Height(|b|))) == Padded(b) ==> Root(h, a) == Root(h, b)
    ensures Root(h, a) == Root(h, b) ==>
      || Padded(Lift(h, a, Height(|a|) - Height(|b|))) == Padded(b)
      || Collision(h, Hashed(h, a) + Hashed(h, b))
  {
    hide Lift, Padded, Hashed, Root, Height, Collision;
    var d := Height(|a|) - Height(|b|);
    LiftKeeps(h, a, d);
    SameRootIffSamePadding(h, Lift(h, a, d), b);
    if Collision(h, Hashed(h, Lift(h, a, d)) + Hashed(h, b)) {
      CollisionGrows(h, Hashed(h, Lift(h, a, d)) + Hashed(h, b), Hashed(h, a) + Hashed(h, b));
    }
  }

  // ----- folding a leaf that is not there -----

  lemma {:induction false} HeightMono(m: nat, n: nat)
    requires m <= n
    ensures Height(m) <= Height(n)
  {
    if m > 1 {
      HeightMono((m + 1) / 2, (n + 1) / 2);
    }
  }

  lemma {:induction false} HeightOfPower(k: nat)
    ensures Height(Pow2(k)) == k
  {
    if k > 0 {
      HeightOfPower(k - 1);
      assert (Pow2(k) + 1) / 2 == Pow2(k - 1);
    }
  }

  /** The padded tree starts with the leaves themselves. */
  lemma {:induction false} LayoutFront(n: nat, i: nat)
    requires i < n
    ensures i < |Layout(n)| && Layout(n)[i] == i
  {
    if n > 1 {
      LayoutFront((n + 1) / 2, i / 2);
      ChildrenAt(n, Layout((n + 1) / 2), i / 2);
      assert i == 2 * (i / 2) || i == 2 * (i / 2) + 1;
    }
  }

  lemma PerfectIsPadded(leaves: seq<Bytes>, k: nat)
    requires |leaves| == Pow2(k)
    ensures Height(|leaves|) == k && Padded(leaves) == leaves
  {
    HeightOfPower(k);
    forall j | 0 <= j < |leaves|
      ensures Padded(leaves)[j] == leaves[j]
    {
      LayoutFront(|leaves|, j);
      PaddedAt(leaves, j);
    }
  }

  /** One level of `FoldReplaces`: both children of the node above leaf i. */
  lemma ReplacedPair(h: Hash, leaves: seq<Bytes>, i: nat, x: Bytes, j: nat)
    requires |leaves| > 1 && i < |leaves| && j < |Padded(Up(h, leaves))|
    ensures i < |Padded(leaves)| == 2 * |Padded(Up(h, leaves))|
    ensures var put, step := Padded(leaves)[i := x], Path(h, leaves, i)[0];
      put[2 * j] + put[2 * j + 1] ==
        if j == i / 2 then Joined(x, step) else Padded(leaves)[2 * j] + Padded(leaves)[2 * j + 1]
  {
    PaddedUp(h, leaves, j);
    LayoutFront(|leaves|, i);
    if j == i / 2 {
      LayoutFront((|leaves| + 1) / 2, j);
      ChildrenAt(|leaves|, Layout((|leaves| + 1) / 2), j);
      PaddedAt(leaves, 2 * j);
      PaddedAt(leaves, 2 * j + 1);
      assert i == 2 * j || i == 2 * j + 1;
    }
  }

  lemma ReplacedUp(h: Hash, leaves: seq<Bytes>, i: nat, x: Bytes)
    requires |leaves| > 1 && i < |leaves|
    ensures i < |Padded(leaves)| && i / 2 < |Padded(Up(h, leaves))|
    ensures var put, step := Padded(leaves)[i := x], Path(h, leaves, i)[0];
      && |put| > 1 && Up(h, put) == Padded(Up(h, leaves))[i / 2 := h(Joined(x, step))]
      && (forall j :: 0 <= j < (|put| + 1) / 2 ==> PairAt(put, j) == Joined(x, step) || PairAt(put, j) in Hashed(h, leaves))
  {
    hide Padded, Hashed, Joined;
    LayoutFront((|leaves| + 1) / 2, i / 2);
    PaddedUp(h, leaves, i / 2);
    ReplacedPair(h, leaves, i, x, i / 2);
    var put, above := Padded(leaves)[i := x], Padded(Up(h, leaves));
    forall j | 0 <= j < |above|
      ensures Up(h, put)[j] == above[i / 2 := h(Joined(x, Path(h, leaves, i)[0]))][j]
      ensures PairAt(put, j) == Joined(x, Path(h, leaves, i)[0]) || PairAt(put, j) in Hashed(h, leaves)
    {
      ReplacedPair(h, leaves, i, x, j);
      PaddedUp(h, leaves, j);
      UpAt(h, put, j);
    }
  }

  /** Folding any string along the path of leaf i gives the root of the padded tree with that string in
      place of the leaf, and hashes nothing else. */
  lemma {:induction false} FoldReplaces(h: Hash, leaves: seq<Bytes>, i: nat, x: Bytes)
    requires i < |leaves|
    ensures i < |Padded(leaves)|
    ensures Root(h, Padded(leaves)[i := x]) == Fold(h, x, Path(h, leaves, i))
    ensures Hashed(h, Padded(leaves)[i := x]) <= Hashed(h, leaves) + FoldHashed(h, x, Path(h, leaves, i))
    decreases |leaves|
  {
    LayoutFront(|leaves|, i);
    var put, path := Padded(leaves)[i := x], Path(h, leaves, i);
    if |leaves| == 1 {
      assert put == [x];
    } else {
      hide Padded, Joined, Up;
      ReplacedUp(h, leaves, i, x);
      FoldReplaces(h, Up(h, leaves), i / 2, h(Joined(x, path[0])));
      assert path[1..] == Path(h, Up(h, leaves), i / 2);
      assert Hashed(h, Up(h, leaves)) <= Hashed(h, leaves);
    }
  }

  lemma ReplacedIsPerfect(leaves: seq<Bytes>, i: nat, x: Bytes)
    requires i < |leaves| && AllDigests(leaves) && |x| == HASH_LEN
    ensures i < |Padded(leaves)|
    ensures var put := Padded(leaves)[i := x];
      put != [] && Height(|put|) == Height(|leaves|) && AllDigests(put) && Padded(put) == put
  {
    LayoutFront(|leaves|, i);
    var put := Padded(leaves)[i := x];
    forall j | 0 <= j < |put|
      ensures |put[j]| == HASH_LEN
    {
      PaddedAt(leaves, j);
    }
    PerfectIsPadded(put, Height(|leaves|));
  }

  /** A string folded along the path of leaf i among the first list reaches the root of the second, no
      shorter one, exactly when both have the same padded tree once the string is put in place of leaf i and
      the second list is taken up to the height of the first, barring a collision. */
  lemma FoldReachesExactly(h: Hash, leaves: seq<Bytes>, i: nat, x: Bytes, whole: seq<Bytes>)
    requires i < |leaves| <= |whole| && AllDigests(leaves) && AllDigests(whole) && |x| == HASH_LEN
    ensures i < |Padded(leaves)| && Height(|leaves|) <= Height(|whole|)
    ensures Lift(h, whole, Height(|whole|) - Height(|leaves|)) != []
    ensures var put := Padded(leaves)[i := x];
      var sealed := Padded(Lift(h, whole, Height(|whole|) - Height(|leaves|)));
      && (sealed == put ==> Fold(h, x, Path(h, leaves, i)) == Root(h, whole))
      && (Fold(h, x, Path(h, leaves, i)) == Root(h, whole) ==>
        sealed == put || Collision(h, Hashed(h, whole) + Hashed(h, leaves) + FoldHashed(h, x, Path(h, leaves, i))))
  {
    hide Lift, Padded, Hashed, Root, Height, Collision, Fold, FoldHashed, Path, AllDigests;
    HeightMono(|leaves|, |whole|);
    FoldReplaces(h, leaves, i, x);
    ReplacedIsPerfect(leaves, i, x);
    LiftKeeps(h, whole, Height(|whole|) - Height(|leaves|));
    var put := Padded(leaves)[i := x];
    SameRootIffLiftedPadding(h, whole, put);
    var all := Hashed(h, whole) + Hashed(h, leaves) + FoldHashed(h, x, Path(h, leaves, i));
    if Collision(h, Hashed(h, whole) + Hashed(h, put)) {
      CollisionGrows(h, Hashed(h, whole) + Hashed(h, put), all);
    }
  }

  /** Leaves and inner nodes are hashed alike: any list shares its root with each level above it. */
  lemma InnerLevelSharesRoot(h: Hash, leaves: seq<Bytes>)
    requires |leaves| > 1
    ensures Root(h, Up(h, leaves)) == Root(h, leaves) && |Up(h, leaves)| < |leaves|
    ensures |leaves| == 2 ==> Root(h, [h(leaves[0] + leaves[1])]) == Root(h, leaves)
  {
    if |leaves| == 2 {
      assert Up(h, leaves) == [h(leaves[0] + leaves[1])];
    }
  }

  /** Binding: lists of equal length with one root are equal, or a collision is on the table. */
  lemma RootBinds(h: Hash, a: seq<Bytes>, b: seq<Bytes>)
    requires |a| == |b| && AllDigests(a) && AllDigests(b)
    requires Root(h, a) == Root(h, b)
    ensures a == b || Collision(h, Hashed(h, a) + Hashed(h, b))
  {
    if a != [] && !Collision(h, Hashed(h, a) + Hashed(h, b)) {
      SameRootIffSamePadding(h, a, b);
      forall i | 0 <= i < |a|
        ensures a[i] == b[i]
      {
        var j := LayoutCovers(|a|, i);
        PaddedAt(a, j);
        PaddedAt(b, j);
      }
    }
  }

  /** Why equal lengths are needed: repeating the last leaf of an odd list of three or more
      leaves the root unchanged, so the root alone does not fix the leaf count. */
  lemma OddDuplicateSharesRoot(h: Hash, leaves: seq<Bytes>)
    requires |leaves| % 2 == 1 && |leaves| >= 3
    ensures Root(h, leaves + [leaves[|leaves| - 1]]) == Root(h, leaves)
  {
    OddDuplicateSharesLevel(h, leaves);
  }

  lemma {:induction false} OddDuplicateSharesLevel(h: Hash, leaves: seq<Bytes>)
    requires |leaves| % 2 == 1
    ensures Up(h, leaves + [leaves[|leaves| - 1]]) == Up(h, leaves)
  {
    var longer := leaves + [leaves[|leaves| - 1]];
    if |leaves| == 1 {
      assert longer[2..] == [];
    } else {
      assert longer[2..] == leaves[2..] + [leaves[2..][|leaves[2..]| - 1]];
      OddDuplicateSharesLevel(h, leaves[2..]);
    }
  }
}
