/** The RFC 9162 Merkle tree of `traigent_schema/example_identity.py`. */
module MerkleTree {
  // The tree hash and the audit path are built by recursive splitting; the verifier's loop runs
  // over the bits of the leaf index.
  //
  // SHA-256 is symbolic.  A digest is the term that was hashed, so hashing is injective and the
  // empty, leaf (0x00) and node (0x01) prefixes never collide.  `RawHash` stands for the 32-byte
  // strings an audit path may carry that are not the hash of anything in the tree.

  import opened Outcomes
  import opened Sorting

  /** One distinct (example id, example version) pair and its multiplicity. */
  datatype Member = Member(exampleId: Text, exampleVersion: Text, count: int)

  datatype Digest =
    | EmptyHash
    | LeafHash(data: Member)
    | NodeHash(left: Digest, right: Digest)
    | RawHash(bytes: seq<bv8>)

  /** k is 1, 2, 4, 8, ... */
  ghost predicate IsPowerOfTwo(k: nat) {
    k == 1 || (k > 1 && k % 2 == 0 && IsPowerOfTwo(k / 2))
  }

  /** Where a tree of n leaves is split: the largest power of two strictly below n. */
  function SplitPoint(n: nat): (k: nat)
    requires n >= 2
    ensures k < n <= 2 * k
  {
    if n == 2 then 1 else 2 * SplitPoint((n + 1) / 2)
  }

  /** The split point is the one power of two k with k < n <= 2k. */
  lemma {:induction false} SplitPointIsUnique(n: nat, k: nat)
    requires n >= 2
    ensures IsPowerOfTwo(k) && k < n <= 2 * k <==> k == SplitPoint(n)
  {
    if n > 2 {
      SplitPointIsUnique((n + 1) / 2, k / 2);
    }
  }

  /** The doubling loop finds the split point. */
  method Split(n: nat) returns (k: nat)
    requires n >= 2
    ensures k == SplitPoint(n)
    ensures IsPowerOfTwo(k) && k < n <= 2 * k
  {
    k := 1;
    while k * 2 < n
      invariant IsPowerOfTwo(k) && k < n
      decreases n - k
    {
      assert k * 2 / 2 == k;
      k := k * 2;
    }
    SplitPointIsUnique(n, k);
  }

  /** The Merkle Tree Hash, section 2.1.1 of RFC 9162, over leaf hashes. */
  function Mth(leaves: seq<Digest>): Digest
    decreases |leaves|
  {
    if leaves == [] then EmptyHash
    else if |leaves| == 1 then leaves[0]
    else
      var k := SplitPoint(|leaves|);
      NodeHash(Mth(leaves[..k]), Mth(leaves[k..]))
  }

  /** The audit path of leaf m, section 2.1.3.1 of RFC 9162, nearest sibling first. */
  function Path(m: nat, leaves: seq<Digest>): seq<Digest>
    requires m < |leaves|
    decreases |leaves|
  {
    if |leaves| == 1 then []
    else
      var k := SplitPoint(|leaves|);
      if m < k then Path(m, leaves[..k]) + [Mth(leaves[k..])]
      else Path(m - k, leaves[k..]) + [Mth(leaves[..k])]
  }

  /**
   The root that the siblings path[lo..hi] give a digest r placed at leaf m of a tree of n
   leaves, read top down along the splits; None when there are too few or too many of them
   for (m, n).  This is what verification should compute, stated without bits.
   */
  function RootAlong(m: nat, n: nat, r: Digest, path: seq<Digest>, lo: nat, hi: nat): Option<Digest>
    requires m < n && lo <= hi <= |path|
    decreases n
  {
    if n == 1 then if lo == hi then Some(r) else None
    else if lo == hi then None
    else
      var k := SplitPoint(n);
      if m < k then Joined(RootAlong(m, k, r, path, lo, hi - 1), path[hi - 1], false)
      else Joined(RootAlong(m - k, n - k, r, path, lo, hi - 1), path[hi - 1], true)
  }

  /** A subtree's root joined with its sibling, which may stand on the left. */
  function Joined(sub: Option<Digest>, sibling: Digest, onLeft: bool): Option<Digest> {
    if sub.None? then None
    else if onLeft then Some(NodeHash(sibling, sub.value))
    else Some(NodeHash(sub.value, sibling))
  }

  /** Number of siblings on the way from leaf m to the root of a tree of n leaves. */
  function PathLength(m: nat, n: nat): nat
    requires m < n
    decreases n
  {
    if n == 1 then 0
    else
      var k := SplitPoint(n);
      1 + if m < k then PathLength(m, k) else PathLength(m - k, n - k)
  }

  // ----- one level of the tree, seen from the leaves

  /** One level of a climb. */
  lemma RootStep(m: nat, n: nat, r: Digest, path: seq<Digest>, lo: nat, hi: nat)
    requires m < n && lo <= hi <= |path|
    ensures n == 1 ==> RootAlong(m, n, r, path, lo, hi) == if lo == hi then Some(r) else None
    ensures n >= 2 && lo == hi ==> RootAlong(m, n, r, path, lo, hi) == None
    ensures n >= 2 && lo < hi && m < SplitPoint(n) ==>
              RootAlong(m, n, r, path, lo, hi) == Joined(RootAlong(m, SplitPoint(n), r, path, lo, hi - 1), path[hi - 1], false)
    ensures n >= 2 && lo < hi && m >= SplitPoint(n) ==>
              RootAlong(m, n, r, path, lo, hi)
              == Joined(RootAlong(m - SplitPoint(n), n - SplitPoint(n), r, path, lo, hi - 1), path[hi - 1], true)
  {
  }

  /** A level of 2n or 2n - 1 digests splits at twice the split point of the level above it. */
  lemma SplitHalves(n: nat, c: nat)
    requires n >= 2 && c <= 1
    ensures SplitPoint(2 * n - c) == 2 * SplitPoint(n)
  {
    assert (2 * n - c + 1) / 2 == n;
  }

  function Pair(odd: bool, r: Digest, sibling: Digest): Digest {
    if odd then NodeHash(sibling, r) else NodeHash(r, sibling)
  }

  /**
   A digest with a sibling on its level of 2n - c digests joins it, and the tree of pairs is
   climbed from there.
   */
  lemma {:induction false} ClimbPaired(
    m: nat, odd: nat, n: nat, c: nat, r: Digest, path: seq<Digest>, lo: nat, hi: nat)
    requires m < n && odd <= 1 && c <= 1 && 2 * m + 1 < 2 * n - c && lo < hi <= |path|
    ensures RootAlong(2 * m + odd, 2 * n - c, r, path, lo, hi)
         == RootAlong(m, n, Pair(odd == 1, r, path[lo]), path, lo + 1, hi)
    decreases n
  {
    hide RootAlong, SplitPoint, Pair;
    if n == 1 {
      PairOfLeaves(odd, r, path, lo, hi);
    } else if lo + 1 == hi {
      PairIsNotEnough(m, odd, n, c, r, path, lo, hi);
    } else {
      SplitHalves(n, c);
      var k, x, p := SplitPoint(n), 2 * m + odd, Pair(odd == 1, r, path[lo]);
      RootStep(x, 2 * n - c, r, path, lo, hi);
      RootStep(m, n, p, path, lo + 1, hi);
      if m < k {
        ClimbPaired(m, odd, k, 0, r, path, lo, hi - 1);
      } else {
        ClimbPaired(m - k, odd, n - k, c, r, path, lo, hi - 1);
      }
    }
  }

  lemma PairOfLeaves(odd: nat, r: Digest, path: seq<Digest>, lo: nat, hi: nat)
    requires odd <= 1 && lo < hi <= |path|
    ensures RootAlong(odd, 2, r, path, lo, hi) == RootAlong(0, 1, Pair(odd == 1, r, path[lo]), path, lo + 1, hi)
  {
    assert SplitPoint(2) == 1;
  }

  /** One sibling is not enough for more than two digests. */
  lemma PairIsNotEnough(m: nat, odd: nat, n: nat, c: nat, r: Digest, path: seq<Digest>, lo: nat, hi: nat)
    requires 1 < n && m < n && odd <= 1 && c <= 1 && 2 * m + 1 < 2 * n - c && lo + 1 == hi <= |path|
    ensures RootAlong(2 * m + odd, 2 * n - c, r, path, lo, hi) == None
    ensures RootAlong(m, n, Pair(odd == 1, r, path[lo]), path, lo + 1, hi) == None
  {
    SplitHalves(n, c);
    hide RootAlong, SplitPoint;
    var k, x := SplitPoint(n), 2 * m + odd;
    RootStep(x, 2 * n - c, r, path, lo, hi);
    RootStep(m, n, Pair(odd == 1, r, path[lo]), path, hi, hi);
    if m < k {
      RootStep(x, 2 * k, r, path, lo, lo);
    } else {
      RootStep(x - 2 * k, 2 * (n - k) - c, r, path, lo, lo);
    }
  }

  /** The last digest of a level of 2n - 1 digests is carried up unchanged. */
  lemma {:induction false} ClimbPromoted(n: nat, r: Digest, path: seq<Digest>, lo: nat, hi: nat)
    requires n >= 2 && lo <= hi <= |path|
    ensures RootAlong(2 * n - 2, 2 * n - 1, r, path, lo, hi) == RootAlong(n - 1, n, r, path, lo, hi)
    decreases n
  {
    SplitHalves(n, 1);
    var k := SplitPoint(n);
    if lo < hi && n - k > 1 {
      ClimbPromoted(n - k, r, path, lo, hi - 1);
    }
  }

  /** One round of the verifier's loop, in terms of the last index instead of the size. */
  lemma FoldStep(fn: nat, sn: nat, r: Digest, path: seq<Digest>, i: nat)
    requires fn <= sn && sn > 0 && (fn % 2 == 1 || fn < sn) && i < |path|
    ensures RootAlong(fn, sn + 1, r, path, i, |path|)
         == RootAlong(fn / 2, sn / 2 + 1, Pair(fn % 2 == 1, r, path[i]), path, i + 1, |path|)
  {
    ClimbPaired(fn / 2, fn % 2, sn / 2 + 1, 1 - sn % 2, r, path, i, |path|);
  }

  // ----- the verifier's loops

  /** What the right-edge loop leaves behind: no audit node is spent on promoted levels. */
  method SkipRightEdgeLevels(fn: nat, sn: nat, ghost r: Digest, ghost path: seq<Digest>, ghost lo: nat)
    returns (fn': nat, sn': nat)
    requires 0 < fn == sn && lo <= |path|
    ensures 0 < fn' == sn' && fn' % 2 == 1
    ensures RootAlong(fn', sn' + 1, r, path, lo, |path|) == RootAlong(fn, sn + 1, r, path, lo, |path|)
  {
    fn', sn' := fn, sn;
    while fn' % 2 == 0 && fn' != 0
      invariant 0 < fn' == sn'
      invariant RootAlong(fn', sn' + 1, r, path, lo, |path|) == RootAlong(fn, sn + 1, r, path, lo, |path|)
      decreases fn'
    {
      ClimbPromoted(fn' / 2 + 1, r, path, lo, |path|);
      fn', sn' := fn' / 2, sn' / 2;
    }
  }

  /**
   Verification, section 2.1.3.2 of RFC 9162: the bottom-up loop over the bits of the leaf
   index `first` and of the last index `last` computes the top-down root, and accepts a path
   exactly when the top-down reading does.
   */
  method FoldAuditPath(leaf: Digest, path: seq<Digest>, first: nat, last: nat)
    returns (root: Option<Digest>)
    requires first <= last
    ensures root == RootAlong(first, last + 1, leaf, path, 0, |path|)
  {
    hide RootAlong, SplitPoint;
    ghost var target := RootAlong(first, last + 1, leaf, path, 0, |path|);
    var r, fn, sn := leaf, first, last;
    for i := 0 to |path|
      invariant fn <= sn
      invariant RootAlong(fn, sn + 1, r, path, i, |path|) == target
    {
      RootStep(fn, sn + 1, r, path, i, |path|);
      if sn == 0 {
        return None;
      }
      if fn % 2 == 1 || fn == sn {
        if fn % 2 == 0 {
          fn, sn := SkipRightEdgeLevels(fn, sn, r, path, i);
        }
        FoldStep(fn, sn, r, path, i);
        r := NodeHash(path[i], r);
      } else {
        FoldStep(fn, sn, r, path, i);
        r := NodeHash(r, path[i]);
      }
      fn, sn := fn / 2, sn / 2;
    }
    RootStep(fn, sn + 1, r, path, |path|, |path|);
    root := if sn == 0 then Some(r) else None;
  }

  // ----- completeness and soundness

  /**
   Completeness and soundness under a collision-free hash: against the true number of leaves,
   the true leaf with its own audit path reaches the tree hash, and nothing else does.
   */
  lemma {:induction false} OnlyTruePathReachesRoot(m: nat, leaves: seq<Digest>, r: Digest, path: seq<Digest>, hi: nat)
    requires m < |leaves| && hi <= |path|
    ensures RootAlong(m, |leaves|, r, path, 0, hi) == Some(Mth(leaves)) <==>
            r == leaves[m] && path[..hi] == Path(m, leaves)
    decreases |leaves|
  {
    hide RootAlong, SplitPoint, Mth, Path, Joined;
    RootStep(m, |leaves|, r, path, 0, hi);
    MthStep(leaves);
    PathStep(m, leaves);
    if |leaves| > 1 {
      if hi > 0 {
        var k := SplitPoint(|leaves|);
        var left, right := leaves[..k], leaves[k..];
        if m < k {
          OnlyTruePathReachesRoot(m, left, r, path, hi - 1);
          assert left[m] == leaves[m];
          JoinReaches(RootAlong(m, |left|, r, path, 0, hi - 1), Mth(left), Mth(right), false, path, hi, Path(m, left), r == left[m]);
        } else {
          var i := m - k;
          OnlyTruePathReachesRoot(i, right, r, path, hi - 1);
          assert right[i] == leaves[m];
          JoinReaches(RootAlong(i, |right|, r, path, 0, hi - 1), Mth(right), Mth(left), true, path, hi, Path(i, right), r == right[i]);
        }
      }
    }
  }

  /** One join keeps the equivalence between reaching the root and carrying the true path. */
  lemma JoinReaches(sub: Option<Digest>, mine: Digest, other: Digest, onLeft: bool,
                    path: seq<Digest>, hi: nat, truePath: seq<Digest>, trueLeaf: bool)
    requires 0 < hi <= |path| && (sub == Some(mine) <==> trueLeaf && path[..hi - 1] == truePath)
    ensures Joined(sub, path[hi - 1], onLeft) == Some(if onLeft then NodeHash(other, mine) else NodeHash(mine, other)) <==>
            trueLeaf && path[..hi] == truePath + [other]
  {
    assert path[..hi] == path[..hi - 1] + [path[hi - 1]];
    SameSnoc(path[..hi - 1], path[hi - 1], truePath, other);
  }

  lemma MthStep(leaves: seq<Digest>)
    requires leaves != []
    ensures |leaves| == 1 ==> Mth(leaves) == leaves[0]
    ensures |leaves| > 1 ==>
              var k := SplitPoint(|leaves|); Mth(leaves) == NodeHash(Mth(leaves[..k]), Mth(leaves[k..]))
  {
  }

  lemma PathStep(m: nat, leaves: seq<Digest>)
    requires m < |leaves|
    ensures |leaves| == 1 ==> Path(m, leaves) == []
    ensures |leaves| > 1 ==>
              && Path(m, leaves) != []
              && var k := SplitPoint(|leaves|);
                 Path(m, leaves) == if m < k then Path(m, leaves[..k]) + [Mth(leaves[k..])]
                                    else Path(m - k, leaves[k..]) + [Mth(leaves[..k])]
  {
  }

  lemma SameSnoc<T>(a: seq<T>, x: T, b: seq<T>, y: T)
    ensures a + [x] == b + [y] <==> a == b && x == y
  {
    if a + [x] == b + [y] {
      assert a == (a + [x])[..|a|] && b == (b + [y])[..|b|];
    }
  }

  /** A path is accepted, whatever it holds, exactly when it has the length (m, n) dictates. */
  lemma {:induction false} AcceptedIffRightLength(
    m: nat, n: nat, r: Digest, path: seq<Digest>, hi: nat)
    requires m < n && hi <= |path|
    ensures RootAlong(m, n, r, path, 0, hi).Some? <==> hi == PathLength(m, n)
    decreases n
  {
    if n > 1 && hi > 0 {
      var k := SplitPoint(n);
      if m < k {
        AcceptedIffRightLength(m, k, r, path, hi - 1);
      } else {
        AcceptedIffRightLength(m - k, n - k, r, path, hi - 1);
      }
    }
  }

  /** The data hashed into the leaves of a digest. */
  ghost function LeafData(d: Digest): set<Member> {
    match d
    case LeafHash(x) => {x}
    case NodeHash(l, r) => LeafData(l) + LeafData(r)
    case _ => {}
  }

  /** A tree hash holds the data of its leaves and nothing else. */
  lemma {:induction false} LeafDataOfTree(data: seq<Member>)
    ensures LeafData(Mth(LeafHashes(data))) == set x | x in data
    decreases |data|
  {
    if |data| > 1 {
      var k := SplitPoint(|data|);
      TreeHashSplits(data, k);
      LeafDataOfTree(data[..k]);
      LeafDataOfTree(data[k..]);
      assert data == data[..k] + data[k..];
    } else if |data| == 1 {
      assert (set x | x in data) == {data[0]};
    }
  }

  /** The data of a digest's leaves, left to right. */
  ghost function InOrder(d: Digest): seq<Member> {
    match d
    case LeafHash(x) => [x]
    case NodeHash(l, r) => InOrder(l) + InOrder(r)
    case _ => []
  }

  /** Read left to right, the leaves of a tree hash are the list that was hashed. */
  lemma {:induction false} LeavesStandInOrder(data: seq<Member>)
    ensures InOrder(Mth(LeafHashes(data))) == data
    decreases |data|
  {
    if |data| > 1 {
      var k := SplitPoint(|data|);
      TreeHashSplits(data, k);
      LeavesStandInOrder(data[..k]);
      LeavesStandInOrder(data[k..]);
      assert data == data[..k] + data[k..];
    }
  }

  function LeafHashes(data: seq<Member>): seq<Digest> {
    seq(|data|, i requires 0 <= i < |data| => LeafHash(data[i]))
  }

  /** Whatever is placed at a leaf is still in the digest its path leads to. */
  lemma {:induction false} RootKeepsLeaf(m: nat, n: nat, r: Digest, path: seq<Digest>, hi: nat)
    requires m < n && hi <= |path| && RootAlong(m, n, r, path, 0, hi).Some?
    ensures LeafData(r) <= LeafData(RootAlong(m, n, r, path, 0, hi).value)
    decreases n
  {
    if n > 1 {
      var k := SplitPoint(n);
      if m < k {
        RootKeepsLeaf(m, k, r, path, hi - 1);
      } else {
        RootKeepsLeaf(m - k, n - k, r, path, hi - 1);
      }
    }
  }

  /** The tree hash of a list of leaves determines the list. */
  lemma {:induction false} TreeHashIsInjective(a: seq<Member>, b: seq<Member>)
    requires Mth(LeafHashes(a)) == Mth(LeafHashes(b))
    ensures a == b
    decreases |a| + |b|
  {
    if |a| <= 1 || |b| <= 1 {
      LeafDataOfTree(a);
      LeafDataOfTree(b);
    } else {
      var i, j := SplitPoint(|a|), SplitPoint(|b|);
      TreeHashSplits(a, i);
      TreeHashSplits(b, j);
      TreeHashIsInjective(a[..i], b[..j]);
      TreeHashIsInjective(a[i..], b[j..]);
      assert a == a[..i] + a[i..] && b == b[..j] + b[j..];
    }
  }

  lemma TreeHashSplits(a: seq<Member>, k: nat)
    requires |a| > 1 && k == SplitPoint(|a|)
    ensures Mth(LeafHashes(a)) == NodeHash(Mth(LeafHashes(a[..k])), Mth(LeafHashes(a[k..])))
  {
    var leaves := LeafHashes(a);
    assert leaves[..k] == LeafHashes(a[..k]) && leaves[k..] == LeafHashes(a[k..]);
  }

  // ----- which claims a path can carry

  /** The turns from leaf m up to the root of a tree of n leaves: whether each sibling stands on the left. */
  function Turns(m: nat, n: nat): seq<bool>
    requires m < n
    decreases n
  {
    if n == 1 then []
    else
      var k := SplitPoint(n);
      if m < k then Turns(m, k) + [false] else Turns(m - k, n - k) + [true]
  }

  /** The root a digest and its siblings make along the given turns. */
  function RootByTurns(turns: seq<bool>, r: Digest, path: seq<Digest>): Digest
    requires |turns| <= |path|
  {
    if turns == [] then r
    else
      var hi := |turns| - 1;
      var sub := RootByTurns(turns[..hi], r, path);
      if turns[hi] then NodeHash(path[hi], sub) else NodeHash(sub, path[hi])
  }

  /** The last turn is the one at the root. */
  lemma TurnsStep(m: nat, n: nat)
    requires m < n
    ensures n == 1 ==> Turns(m, n) == []
    ensures n >= 2 && m < SplitPoint(n) ==> Turns(m, n) == Turns(m, SplitPoint(n)) + [false]
    ensures n >= 2 && m >= SplitPoint(n) ==> Turns(m, n) == Turns(m - SplitPoint(n), n - SplitPoint(n)) + [true]
  {
  }

  lemma RootByTurnsStep(turns: seq<bool>, turn: bool, r: Digest, path: seq<Digest>)
    requires |turns| < |path|
    ensures var sub := RootByTurns(turns, r, path);
            RootByTurns(turns + [turn], r, path)
            == if turn then NodeHash(path[|turns|], sub) else NodeHash(sub, path[|turns|])
  {
    assert (turns + [turn])[..|turns|] == turns;
  }

  /** What a climb gives when its turns are these: a root only for as many siblings. */
  function RootIfFits(turns: seq<bool>, r: Digest, path: seq<Digest>, hi: nat): Option<Digest>
    requires hi <= |path|
  {
    if hi == |turns| then Some(RootByTurns(turns, r, path)) else None
  }

  lemma JoinedFits(turns: seq<bool>, turn: bool, r: Digest, path: seq<Digest>, hi: nat)
    requires 0 < hi <= |path|
    ensures Joined(RootIfFits(turns, r, path, hi - 1), path[hi - 1], turn) == RootIfFits(turns + [turn], r, path, hi)
  {
    if hi - 1 == |turns| {
      RootByTurnsStep(turns, turn, r, path);
    }
  }

  /** Index and size matter to verification only through the turns. */
  lemma {:induction false} OnlyTurnsMatter(m: nat, n: nat, r: Digest, path: seq<Digest>, hi: nat)
    requires m < n && hi <= |path|
    ensures RootAlong(m, n, r, path, 0, hi) == RootIfFits(Turns(m, n), r, path, hi)
    decreases n
  {
    hide RootAlong, Turns, SplitPoint, RootIfFits, Joined;
    RootStep(m, n, r, path, 0, hi);
    TurnsStep(m, n);
    if n == 1 || hi == 0 {
      FitsAtEnd(Turns(m, n), r, path, hi);
    } else {
      var k := SplitPoint(n);
      if m < k {
        OnlyTurnsMatter(m, k, r, path, hi - 1);
        JoinedFits(Turns(m, k), false, r, path, hi);
      } else {
        OnlyTurnsMatter(m - k, n - k, r, path, hi - 1);
        JoinedFits(Turns(m - k, n - k), true, r, path, hi);
      }
    }
  }

  lemma FitsAtEnd(turns: seq<bool>, r: Digest, path: seq<Digest>, hi: nat)
    requires hi <= |path|
    ensures turns == [] ==> RootIfFits(turns, r, path, hi) == if hi == 0 then Some(r) else None
    ensures turns != [] && hi == 0 ==> RootIfFits(turns, r, path, hi) == None
  {
  }

  /** m is the place in data that x, its siblings and its turns name. */
  ghost predicate Names(data: seq<Member>, m: nat, x: Member, path: seq<Digest>, turns: seq<bool>) {
    m < |data| && data[m] == x && path == Path(m, LeafHashes(data)) && turns == Turns(m, |data|)
  }

  /** Whatever turns lead to a tree hash are the turns of the leaf they started from. */
  lemma {:induction false} TurnsNameLeaf(data: seq<Member>, x: Member, path: seq<Digest>, turns: seq<bool>) returns (m: nat)
    requires |path| == |turns| && RootByTurns(turns, LeafHash(x), path) == Mth(LeafHashes(data))
    ensures Names(data, m, x, path, turns)
    decreases |turns|
  {
    if |data| > 1 && turns != [] {
      TreeHashSplits(data, SplitPoint(|data|));
      var hi := |turns| - 1;
      var front, turn, rest := turns[..hi], turns[hi], path[..hi];
      assert turns == front + [turn] && path == rest + [path[hi]];
      RootByTurnsStep(front, turn, LeafHash(x), path);
      TurnsReadPrefix(front, LeafHash(x), path, rest);
      hide RootByTurns, Names, Mth;
      if turn {
        m := TurnsNameLeaf(data[SplitPoint(|data|)..], x, rest, front);
      } else {
        m := TurnsNameLeaf(data[..SplitPoint(|data|)], x, rest, front);
      }
      m := NamedAbove(data, m, x, rest, front, turn, path[hi]);
    } else {
      m := 0;
    }
  }

  /** A place in one half of the leaves, seen from the whole. */
  lemma NamedAbove(data: seq<Member>, i: nat, x: Member, rest: seq<Digest>, front: seq<bool>, turn: bool, sibling: Digest) returns (m: nat)
    requires |data| > 1
    requires var k := SplitPoint(|data|);
             && Names(if turn then data[k..] else data[..k], i, x, rest, front)
             && sibling == Mth(LeafHashes(if turn then data[..k] else data[k..]))
    ensures Names(data, m, x, rest + [sibling], front + [turn])
  {
    hide Turns, SplitPoint, Mth, Path;
    var k := SplitPoint(|data|);
    var left, right := data[..k], data[k..];
    m := if turn then k + i else i;
    TurnsStep(m, |data|);
    PathStep(m, LeafHashes(data));
    assert LeafHashes(data)[..k] == LeafHashes(left) && LeafHashes(data)[k..] == LeafHashes(right);
    assert data[m] == if turn then right[i] else left[i];
  }

  /** Siblings beyond the turns are not read. */
  lemma {:induction false} TurnsReadPrefix(turns: seq<bool>, r: Digest, path: seq<Digest>, path': seq<Digest>)
    requires |turns| <= |path'| <= |path| && path' == path[..|path'|]
    ensures RootByTurns(turns, r, path) == RootByTurns(turns, r, path')
    decreases |turns|
  {
    if turns != [] {
      TurnsReadPrefix(turns[..|turns| - 1], r, path, path');
    }
  }

  /**
   The exact theorem: a leaf placed at index m' of a claimed size n' reaches the tree hash exactly
   when some true place holds that leaf, the path is that place's audit path, and the claim takes
   the same turns.
   */
  lemma ClaimReachesRootIff(m': nat, n': nat, x: Member, path: seq<Digest>, data: seq<Member>)
    requires m' < n'
    ensures RootAlong(m', n', LeafHash(x), path, 0, |path|) == Some(Mth(LeafHashes(data))) <==>
            exists m :: Names(data, m, x, path, Turns(m', n'))
  {
    if RootAlong(m', n', LeafHash(x), path, 0, |path|) == Some(Mth(LeafHashes(data))) {
      var m := ReachedIsNamed(m', n', x, path, data);
    }
    if m: nat :| Names(data, m, x, path, Turns(m', n')) {
      NamedReachesRoot(m, m', n', x, path, data);
    }
  }

  lemma ReachedIsNamed(m': nat, n': nat, x: Member, path: seq<Digest>, data: seq<Member>) returns (m: nat)
    requires m' < n' && RootAlong(m', n', LeafHash(x), path, 0, |path|) == Some(Mth(LeafHashes(data)))
    ensures Names(data, m, x, path, Turns(m', n'))
  {
    hide Names, RootAlong, Turns, Mth;
    OnlyTurnsMatter(m', n', LeafHash(x), path, |path|);
    m := TurnsNameLeaf(data, x, path, Turns(m', n'));
  }

  lemma NamedReachesRoot(m: nat, m': nat, n': nat, x: Member, path: seq<Digest>, data: seq<Member>)
    requires m' < n' && Names(data, m, x, path, Turns(m', n'))
    ensures RootAlong(m', n', LeafHash(x), path, 0, |path|) == Some(Mth(LeafHashes(data)))
  {
    hide RootAlong, Turns, Mth, Path;
    OnlyTurnsMatter(m', n', LeafHash(x), path, |path|);
    OnlyTurnsMatter(m, |data|, LeafHash(x), path, |path|);
    OnlyTruePathReachesRoot(m, LeafHashes(data), LeafHash(x), path, |path|);
    assert path[..|path|] == path;
  }

  /** For one size the turns determine the index. */
  lemma {:induction false} TurnsDetermineIndex(m: nat, m': nat, n: nat)
    requires m < n && m' < n
    ensures Turns(m, n) == Turns(m', n) <==> m == m'
    decreases n
  {
    if n > 1 {
      var k := SplitPoint(n);
      var top, top' := Turns(m, n), Turns(m', n);
      if m < k && m' < k {
        TurnsDetermineIndex(m, m', k);
        SameSnoc(Turns(m, k), false, Turns(m', k), false);
      } else if m >= k && m' >= k {
        TurnsDetermineIndex(m - k, m' - k, n - k);
        SameSnoc(Turns(m - k, n - k), true, Turns(m' - k, n - k), true);
      } else {
        assert top[|top| - 1] != top'[|top'| - 1];
      }
    }
  }

  lemma {:induction false} SplitPointIsPower(n: nat)
    requires n >= 2
    ensures IsPowerOfTwo(SplitPoint(n))
  {
    SplitPointIsUnique(n, SplitPoint(n));
  }

  /** In a full tree every leaf takes equally many turns, and that number tells its size. */
  lemma {:induction false} FullTreesDiffer(m: nat, k: nat, m': nat, k': nat)
    requires IsPowerOfTwo(k) && IsPowerOfTwo(k') && m < k && m' < k' && |Turns(m, k)| == |Turns(m', k')|
    ensures k == k'
    decreases k
  {
    if k > 1 && k' > 1 {
      HalfOfFullTree(m, k);
      HalfOfFullTree(m', k');
      hide Turns, SplitPoint, IsPowerOfTwo;
      FullTreesDiffer(if m < k / 2 then m else m - k / 2, k / 2, if m' < k' / 2 then m' else m' - k' / 2, k' / 2);
    }
  }

  lemma HalfOfFullTree(m: nat, k: nat)
    requires IsPowerOfTwo(k) && k > 1 && m < k
    ensures IsPowerOfTwo(k / 2) && k == k / 2 * 2
    ensures |Turns(m, k)| == 1 + |Turns(if m < k / 2 then m else m - k / 2, k / 2)|
  {
    SplitPointIsUnique(k, k / 2);
    TurnsStep(m, k);
  }

  /**
   A leaf left of the split: only its own index is ever claimed with its turns, under exactly the
   sizes that split at the same point.
   */
  lemma LeftClaims(m: nat, n: nat, m': nat, n': nat)
    requires n >= 2 && m < SplitPoint(n) && m' < n'
    ensures Turns(m', n') == Turns(m, n) <==> n' >= 2 && m' == m && SplitPoint(n') == SplitPoint(n)
  {
    var k, turns, turns' := SplitPoint(n), Turns(m, n), Turns(m', n');
    if turns' == turns {
      var k' := SplitPoint(n');
      assert turns[|turns| - 1] == false;
      SameSnoc(Turns(m, k), false, Turns(m', k'), false);
      SplitPointIsPower(n);
      SplitPointIsPower(n');
      FullTreesDiffer(m, k, m', k');
      TurnsDetermineIndex(m, m', k);
    }
  }

  /**
   A leaf right of the split: a claim takes its turns exactly when it stands right of its own
   split and takes the rest of them there, so the split may be any power of two that is large
   enough.
   */
  lemma RightClaims(m: nat, n: nat, m': nat, n': nat)
    requires n >= 2 && SplitPoint(n) <= m < n && m' < n'
    ensures Turns(m', n') == Turns(m, n) <==>
            n' >= 2 && SplitPoint(n') <= m'
            && Turns(m' - SplitPoint(n'), n' - SplitPoint(n')) == Turns(m - SplitPoint(n), n - SplitPoint(n))
  {
    hide Turns, SplitPoint;
    TurnsStep(m, n);
    TurnsStep(m', n');
    var k, turns, turns' := SplitPoint(n), Turns(m, n), Turns(m', n');
    if n' >= 2 {
      var k' := SplitPoint(n');
      if m' < k' {
        assert turns[|turns| - 1] != turns'[|turns'| - 1];
      } else {
        SameSnoc(Turns(m - k, n - k), true, Turns(m' - k', n' - k'), true);
      }
    }
  }

  /** Two sizes split alike on the way to leaf m, down to where it turns left. */
  predicate SameSplits(m: nat, n: nat, n': nat)
    requires m < n && m < n'
    decreases n
  {
    if n == 1 || n' == 1 then n == n'
    else
      var k := SplitPoint(n);
      SplitPoint(n') == k && (m >= k ==> SameSplits(m - k, n - k, n' - k))
  }

  /** A claim of the true index takes the true turns exactly when its size splits alike. */
  lemma {:induction false} SameIndexClaims(m: nat, n: nat, n': nat)
    requires m < n && m < n'
    ensures Turns(m, n') == Turns(m, n) <==> SameSplits(m, n, n')
    decreases n
  {
    hide Turns, SplitPoint, SameSplits;
    TurnsStep(m, n);
    TurnsStep(m, n');
    SplitsStep(m, n, n');
    if n >= 2 && n' >= 2 {
      var k, k' := SplitPoint(n), SplitPoint(n');
      if m < k {
        LeftClaims(m, n, m, n');
      } else {
        RightClaims(m, n, m, n');
        if k' == k {
          SameIndexClaims(m - k, n - k, n' - k);
        } else if k' <= m {
          SplitOfIndex(m, n);
          SplitOfIndex(m, n');
        }
      }
    }
  }

  lemma SplitsStep(m: nat, n: nat, n': nat)
    requires m < n && m < n'
    ensures n == 1 || n' == 1 ==> (SameSplits(m, n, n') <==> n == n')
    ensures n >= 2 && n' >= 2 && SplitPoint(n') != SplitPoint(n) ==> !SameSplits(m, n, n')
    ensures n >= 2 && n' >= 2 && SplitPoint(n') == SplitPoint(n) && m < SplitPoint(n) ==> SameSplits(m, n, n')
    ensures n >= 2 && n' >= 2 && SplitPoint(n') == SplitPoint(n) <= m ==>
              (SameSplits(m, n, n') <==> SameSplits(m - SplitPoint(n), n - SplitPoint(n), n' - SplitPoint(n)))
  {
    hide SplitPoint;
  }

  /** A leaf at or right of the split tells the split point. */
  lemma SplitOfIndex(m: nat, n: nat)
    requires n >= 2 && SplitPoint(n) <= m < n
    ensures SplitPoint(m + 1) == SplitPoint(n)
  {
    hide SplitPoint;
    SplitPointIsPower(n);
    SplitPointIsUnique(m + 1, SplitPoint(n));
  }

  lemma ShiftedClaim(m: nat, n: nat, k': nat)
    requires n >= 2 && SplitPoint(n) <= m < n && IsPowerOfTwo(k') && n - SplitPoint(n) <= k'
    ensures m - SplitPoint(n) + k' < n - SplitPoint(n) + k'
    ensures Turns(m - SplitPoint(n) + k', n - SplitPoint(n) + k') == Turns(m, n)
  {
    hide SplitPoint, IsPowerOfTwo, Turns;
    var k := SplitPoint(n);
    SplitPointIsUnique(n - k + k', k');
    RightClaims(m, n, m - k + k', n - k + k');
  }
}
