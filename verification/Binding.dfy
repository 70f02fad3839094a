/** What a Merkle root says about streams of any lengths, when one hash serves chunks and pairs. */
module Binding {
  import opened Slicing
  import opened Merkle

  /** The parent of two hashes is the hash of the two written one after the other. */
  function ParentOf<E, H>(hash: seq<E> -> H, enc: H -> seq<E>): (H, H) -> H {
    (a, b) => hash(enc(a) + enc(b))
  }

  /** Hashes are written in `w` entries each, different hashes differently. */
  ghost predicate Encodes<E, H(!new)>(enc: H -> seq<E>, w: nat) {
    && w > 0
    && (forall h :: |enc(h)| == w)
    && forall g, h :: enc(g) == enc(h) ==> g == h
  }

  lemma PairsEncode<E, H(!new)>(enc: H -> seq<E>, w: nat, a: H, b: H, c: H, d: H)
    requires Encodes(enc, w) && enc(a) + enc(b) == enc(c) + enc(d)
    ensures a == c && b == d
  {
    assert enc(a) == (enc(a) + enc(b))[..w] && enc(c) == (enc(c) + enc(d))[..w];
    assert enc(b) == (enc(a) + enc(b))[w..] && enc(d) == (enc(c) + enc(d))[w..];
  }

  // ----- the tree behind the levels

  /** Leaves of the left subtree at the top: the largest power of two below `n`. */
  ghost function LeftCount(n: nat): (k: nat)
    requires n >= 2
    ensures 0 < k < n <= 2 * k
  {
    if n == 2 then 1 else 2 * LeftCount((n + 1) / 2)
  }

  lemma FirstPair<H>(parent: (H, H) -> H, x: H, y: H, rest: seq<H>)
    ensures NextLevel(parent, [x, y] + rest) == [parent(x, y)] + NextLevel(parent, rest)
  {
    assert ([x, y] + rest)[2..] == rest;
  }

  /** An even number of leaves is reduced without looking at what follows. */
  lemma {:induction false} LevelAppend<H>(parent: (H, H) -> H, a: seq<H>, b: seq<H>, k: nat)
    requires |a| == 2 * k
    ensures NextLevel(parent, a + b) == NextLevel(parent, a) + NextLevel(parent, b)
    decreases k
  {
    if k == 0 {
      assert a + b == b;
    } else {
      hide NextLevel;
      var x, y, rest := a[0], a[1], a[2..];
      LevelAppend(parent, rest, b, k - 1);
      assert a == [x, y] + rest && a + b == [x, y] + (rest + b);
      FirstPair(parent, x, y, rest);
      FirstPair(parent, x, y, rest + b);
      Associative([parent(x, y)], NextLevel(parent, rest), NextLevel(parent, b));
    }
  }

  lemma Associative<T>(a: seq<T>, b: seq<T>, c: seq<T>)
    ensures (a + b) + c == a + (b + c)
  {
  }

  /** The left half of a level is what the left half of the leaves is reduced to. */
  lemma HalvesOfLevel<H>(parent: (H, H) -> H, leaves: seq<H>)
    requires |leaves| > 2
    ensures var next := NextLevel(parent, leaves);
      var k := LeftCount(|next|);
      && LeftCount(|leaves|) == 2 * k
      && next[..k] == NextLevel(parent, leaves[..2 * k]) && next[k..] == NextLevel(parent, leaves[2 * k..])
  {
    var next := NextLevel(parent, leaves);
    var k := LeftCount(|next|);
    assert LeftCount(|leaves|) == 2 * k;
    hide NextLevel, LeftCount;
    assert leaves == leaves[..2 * k] + leaves[2 * k..];
    LevelAppend(parent, leaves[..2 * k], leaves[2 * k..], k);
  }

  /** The reduction by levels is a tree: the root joins the roots of the first `LeftCount` leaves and of the rest. */
  lemma {:induction false} RootSplit<H>(parent: (H, H) -> H, leaves: seq<H>)
    requires |leaves| >= 2
    ensures var k := LeftCount(|leaves|);
      Root(parent, leaves) == parent(Root(parent, leaves[..k]), Root(parent, leaves[k..]))
    decreases |leaves|
  {
    if |leaves| == 2 {
      assert NextLevel(parent, leaves[2..]) == [];
    } else {
      HalvesOfLevel(parent, leaves);
      RootSplit(parent, NextLevel(parent, leaves));
    }
  }

  // ----- everything that is hashed

  ghost function LevelInputs<E, H>(enc: H -> seq<E>, leaves: seq<H>): set<seq<E>> {
    if |leaves| < 2 then {} else {enc(leaves[0]) + enc(leaves[1])} + LevelInputs(enc, leaves[2..])
  }

  /** The pairs hashed on the way from the leaves to the root. */
  ghost function TreeInputs<E, H>(hash: seq<E> -> H, enc: H -> seq<E>, leaves: seq<H>): set<seq<E>>
    decreases |leaves|
  {
    if |leaves| < 2 then {}
    else LevelInputs(enc, leaves) + TreeInputs(hash, enc, NextLevel(ParentOf(hash, enc), leaves))
  }

  lemma {:induction false} LevelInputsAppend<E, H>(enc: H -> seq<E>, a: seq<H>, b: seq<H>, k: nat)
    requires |a| == 2 * k
    ensures LevelInputs(enc, a + b) == LevelInputs(enc, a) + LevelInputs(enc, b)
    decreases k
  {
    if k == 0 {
      assert a + b == b;
    } else {
      LevelInputsAppend(enc, a[2..], b, k - 1);
      assert (a + b)[2..] == a[2..] + b;
    }
  }

  lemma RegroupSets<T>(a: set<T>, b: set<T>, c: set<T>, d: set<T>, e: set<T>)
    ensures (a + b) + (c + d + e) == (a + c) + (b + d) + e
  {
  }

  lemma OneLevel<E, H>(hash: seq<E> -> H, enc: H -> seq<E>, leaves: seq<H>)
    requires leaves != []
    ensures var next := NextLevel(ParentOf(hash, enc), leaves);
      && TreeInputs(hash, enc, leaves) == LevelInputs(enc, leaves) + TreeInputs(hash, enc, next)
      && next != [] && Root(ParentOf(hash, enc), leaves) == Root(ParentOf(hash, enc), next)
  {
  }

  lemma {:induction false} TreeInputsSplit<E, H>(hash: seq<E> -> H, enc: H -> seq<E>, leaves: seq<H>)
    requires |leaves| >= 2
    ensures var k, parent := LeftCount(|leaves|), ParentOf(hash, enc);
      TreeInputs(hash, enc, leaves)
      == TreeInputs(hash, enc, leaves[..k]) + TreeInputs(hash, enc, leaves[k..])
         + {enc(Root(parent, leaves[..k])) + enc(Root(parent, leaves[k..]))}
    decreases |leaves|
  {
    var parent := ParentOf(hash, enc);
    if |leaves| == 2 {
      assert LevelInputs(enc, leaves[2..]) == {};
      assert NextLevel(parent, leaves[2..]) == [];
    } else {
      var next := NextLevel(parent, leaves);
      var k := LeftCount(|next|);
      HalvesOfLevel(parent, leaves);
      hide NextLevel, LevelInputs, TreeInputs, Root, LeftCount;
      var l, r := leaves[..2 * k], leaves[2 * k..];
      assert leaves == l + r;
      LevelInputsAppend(enc, l, r, k);
      TreeInputsSplit(hash, enc, next);
      OneLevel(hash, enc, leaves);
      OneLevel(hash, enc, l);
      OneLevel(hash, enc, r);
      RegroupSets(LevelInputs(enc, l), LevelInputs(enc, r), TreeInputs(hash, enc, next[..k]),
                  TreeInputs(hash, enc, next[k..]), {enc(Root(parent, l)) + enc(Root(parent, r))});
    }
  }

  /** The input is a pair joined at this level. */
  ghost predicate JoinedPair<E, H(!new)>(enc: H -> seq<E>, leaves: seq<H>, u: seq<E>) {
    exists a, b :: Joined(leaves, a, b) && u == enc(a) + enc(b)
  }

  /** The input is a pair combined somewhere in the reduction. */
  ghost predicate CombinedPair<E, H(!new)>(hash: seq<E> -> H, enc: H -> seq<E>, leaves: seq<H>, u: seq<E>) {
    exists a, b :: Combined(ParentOf(hash, enc), leaves, a, b) && u == enc(a) + enc(b)
  }

  /** Every pair combined somewhere in the reduction is hashed, and nothing else is. */
  lemma {:induction false} CombinedIff<E, H(!new)>(hash: seq<E> -> H, enc: H -> seq<E>, leaves: seq<H>, u: seq<E>)
    ensures u in TreeInputs(hash, enc, leaves) <==> CombinedPair(hash, enc, leaves, u)
    decreases |leaves|
  {
    if |leaves| > 1 {
      CombinedStep(hash, enc, leaves, u);
      JoinedIff(enc, leaves, u);
      hide JoinedPair, CombinedPair, LevelInputs, NextLevel;
      CombinedIff(hash, enc, NextLevel(ParentOf(hash, enc), leaves), u);
    }
  }

  lemma CombinedStep<E, H(!new)>(hash: seq<E> -> H, enc: H -> seq<E>, leaves: seq<H>, u: seq<E>)
    requires |leaves| > 1
    ensures CombinedPair(hash, enc, leaves, u) <==>
      JoinedPair(enc, leaves, u) || CombinedPair(hash, enc, NextLevel(ParentOf(hash, enc), leaves), u)
  {
    hide Joined, NextLevel;
    var parent := ParentOf(hash, enc);
    var next := NextLevel(parent, leaves);
    if a, b :| Joined(leaves, a, b) && u == enc(a) + enc(b) {
      assert Combined(parent, leaves, a, b);
    }
    if a, b :| Combined(parent, next, a, b) && u == enc(a) + enc(b) {
      assert Combined(parent, leaves, a, b);
    }
  }

  lemma {:induction false} JoinedIff<E, H(!new)>(enc: H -> seq<E>, leaves: seq<H>, u: seq<E>)
    ensures u in LevelInputs(enc, leaves) <==> JoinedPair(enc, leaves, u)
  {
    if |leaves| >= 2 {
      JoinedIff(enc, leaves[2..], u);
      if a, b :| Joined(leaves[2..], a, b) && u == enc(a) + enc(b) {
        JoinedLater(leaves, a, b);
      }
      assert Joined(leaves, leaves[0], leaves[1]);
      if a, b :| Joined(leaves, a, b) && u == enc(a) + enc(b) {
        JoinedHereOrLater(leaves, a, b);
      }
    }
  }

  lemma JoinedHereOrLater<H>(leaves: seq<H>, a: H, b: H)
    requires |leaves| >= 2 && Joined(leaves, a, b)
    ensures (a == leaves[0] && b == leaves[1]) || Joined(leaves[2..], a, b)
  {
    var i: nat, j: nat :| i % 2 == 0 && j == i + 1 < |leaves| && leaves[i] == a && leaves[j] == b;
    if i > 0 {
      assert leaves[2..][i - 2] == a && leaves[2..][j - 2] == b;
    }
  }

  ghost function BlockRoot<E, H>(hash: seq<E> -> H, enc: H -> seq<E>, blocks: seq<seq<E>>): H
    requires blocks != []
  {
    Root(ParentOf(hash, enc), HashAll(hash, blocks))
  }

  /** Everything hashed for a list of blocks: the blocks and the pairs. */
  ghost function Inputs<E, H>(hash: seq<E> -> H, enc: H -> seq<E>, blocks: seq<seq<E>>): set<seq<E>> {
    (set i | 0 <= i < |blocks| :: blocks[i]) + TreeInputs(hash, enc, HashAll(hash, blocks))
  }

  /** The pair hashed last. */
  ghost function TopPair<E, H>(hash: seq<E> -> H, enc: H -> seq<E>, blocks: seq<seq<E>>): seq<E>
    requires |blocks| >= 2
  {
    var k := LeftCount(|blocks|);
    enc(BlockRoot(hash, enc, blocks[..k])) + enc(BlockRoot(hash, enc, blocks[k..]))
  }

  lemma SingleBlock<E, H>(hash: seq<E> -> H, enc: H -> seq<E>, blocks: seq<seq<E>>)
    requires |blocks| == 1
    ensures BlockRoot(hash, enc, blocks) == hash(blocks[0]) && Inputs(hash, enc, blocks) == {blocks[0]}
  {
    assert TreeInputs(hash, enc, HashAll(hash, blocks)) == {};
  }

  lemma BlockSplit<E, H>(hash: seq<E> -> H, enc: H -> seq<E>, blocks: seq<seq<E>>)
    requires |blocks| >= 2
    ensures var k := LeftCount(|blocks|);
      && BlockRoot(hash, enc, blocks) == hash(TopPair(hash, enc, blocks))
      && Inputs(hash, enc, blocks)
         == Inputs(hash, enc, blocks[..k]) + Inputs(hash, enc, blocks[k..]) + {TopPair(hash, enc, blocks)}
  {
    hide Root, TreeInputs, LeftCount;
    var leaves, k := HashAll(hash, blocks), LeftCount(|blocks|);
    RootSplit(ParentOf(hash, enc), leaves);
    TreeInputsSplit(hash, enc, leaves);
    assert leaves[..k] == HashAll(hash, blocks[..k]);
    assert leaves[k..] == HashAll(hash, blocks[k..]);
    assert blocks == blocks[..k] + blocks[k..];
    BlockSet(blocks[..k], blocks[k..]);
  }

  lemma BlockSet<T>(a: seq<T>, b: seq<T>)
    ensures (set i | 0 <= i < |a + b| :: (a + b)[i]) == (set i | 0 <= i < |a| :: a[i]) + (set i | 0 <= i < |b| :: b[i])
  {
    var l := set i | 0 <= i < |a + b| :: (a + b)[i];
    var r := (set i | 0 <= i < |a| :: a[i]) + (set i | 0 <= i < |b| :: b[i]);
    forall x | x in r
      ensures x in l
    {
      if x in (set i | 0 <= i < |a| :: a[i]) {
        var i :| 0 <= i < |a| && a[i] == x;
        assert (a + b)[i] == x;
      } else {
        var i :| 0 <= i < |b| && b[i] == x;
        assert (a + b)[|a| + i] == x;
      }
    }
  }

  // ----- equal roots, for lists of blocks

  /** Two different inputs with one hash. */
  ghost predicate Collide<E, H>(hash: seq<E> -> H, inputs: set<seq<E>>) {
    exists u, v :: u in inputs && v in inputs && u != v && hash(u) == hash(v)
  }

  /** The two trees are equal where both go on, and where one ends in a block that block is the other's top pair. */
  ghost predicate Matches<E, H>(hash: seq<E> -> H, enc: H -> seq<E>, a: seq<seq<E>>, b: seq<seq<E>>)
    requires a != [] && b != []
    decreases |a|
  {
    if |a| == 1 && |b| == 1 then a == b
    else if |a| == 1 then a[0] == TopPair(hash, enc, b)
    else if |b| == 1 then b[0] == TopPair(hash, enc, a)
    else
      var k, l := LeftCount(|a|), LeftCount(|b|);
      Matches(hash, enc, a[..k], b[..l]) && Matches(hash, enc, a[k..], b[l..])
  }

  /** Lists of blocks that match have one root; lists with one root match or collide. */
  lemma {:induction false} SameRootIff<E, H(!new)>(hash: seq<E> -> H, enc: H -> seq<E>, w: nat,
                                                   a: seq<seq<E>>, b: seq<seq<E>>)
    requires Encodes(enc, w) && a != [] && b != []
    ensures Matches(hash, enc, a, b) ==> BlockRoot(hash, enc, a) == BlockRoot(hash, enc, b)
    ensures BlockRoot(hash, enc, a) == BlockRoot(hash, enc, b) ==>
      Matches(hash, enc, a, b) || Collide(hash, Inputs(hash, enc, a) + Inputs(hash, enc, b))
    decreases |a|
  {
    hide BlockRoot, Inputs, TopPair, LeftCount, Encodes;
    if |a| == 1 { SingleBlock(hash, enc, a); } else { BlockSplit(hash, enc, a); }
    if |b| == 1 { SingleBlock(hash, enc, b); } else { BlockSplit(hash, enc, b); }
    if |a| > 1 && |b| > 1 {
      var k, l := LeftCount(|a|), LeftCount(|b|);
      SameRootIff(hash, enc, w, a[..k], b[..l]);
      SameRootIff(hash, enc, w, a[k..], b[l..]);
      SameTopPair(hash, enc, w, a, b);
    }
  }

  lemma SameTopPair<E, H(!new)>(hash: seq<E> -> H, enc: H -> seq<E>, w: nat, a: seq<seq<E>>, b: seq<seq<E>>)
    requires Encodes(enc, w) && |a| >= 2 && |b| >= 2
    ensures var k, l := LeftCount(|a|), LeftCount(|b|);
      TopPair(hash, enc, a) == TopPair(hash, enc, b) <==>
        && BlockRoot(hash, enc, a[..k]) == BlockRoot(hash, enc, b[..l])
        && BlockRoot(hash, enc, a[k..]) == BlockRoot(hash, enc, b[l..])
  {
    hide BlockRoot, LeftCount, Encodes;
    var k, l := LeftCount(|a|), LeftCount(|b|);
    if TopPair(hash, enc, a) == TopPair(hash, enc, b) {
      PairsEncode(enc, w, BlockRoot(hash, enc, a[..k]), BlockRoot(hash, enc, a[k..]),
                  BlockRoot(hash, enc, b[..l]), BlockRoot(hash, enc, b[l..]));
    }
  }

  // ----- folded tails

  /** In the tree over `n` leaves, those from `j` on are a subtree. */
  ghost predicate SubtreeStart(n: nat, j: nat) {
    j == 0 || (n >= 2 && j >= LeftCount(n) && SubtreeStart(n - LeftCount(n), j - LeftCount(n)))
  }

  /** `b` starts as `a` does and has `x` in place of what follows. */
  ghost predicate TailReplaced<T>(a: seq<T>, b: seq<T>, x: T) {
    0 < |b| <= |a| && b == a[..|b| - 1] + [x]
  }

  /** `b` has the blocks of `a` up to a subtree of two or more, and the top pair of that subtree as its last block. */
  ghost predicate Folds<E, H>(hash: seq<E> -> H, enc: H -> seq<E>, a: seq<seq<E>>, b: seq<seq<E>>) {
    && 0 < |b| < |a| && SubtreeStart(|a|, |b| - 1)
    && TailReplaced(a, b, TopPair(hash, enc, a[|b| - 1..]))
  }

  lemma {:induction false} SameLeftCount(n: nat, m: nat)
    requires n >= 2 && LeftCount(n) < m <= n
    ensures m >= 2 && LeftCount(m) == LeftCount(n)
  {
    if n > 2 {
      SameLeftCount((n + 1) / 2, (m + 1) / 2);
    }
  }

  lemma SubtreeStep(n: nat, j: nat)
    requires n >= 2 && j > 0
    ensures SubtreeStart(n, j) <==> j >= LeftCount(n) && SubtreeStart(n - LeftCount(n), j - LeftCount(n))
  {
  }

  /** Seen from `k` on alone, the replaced tail is the same one. */
  lemma TailFrom<T>(a: seq<T>, b: seq<T>, k: nat, x: T)
    requires k < |b| <= |a|
    ensures a[k..][|b[k..]| - 1..] == a[|b| - 1..]
    ensures TailReplaced(a, b, x) <==> b[..k] == a[..k] && TailReplaced(a[k..], b[k..], x)
  {
    var j := |b| - 1;
    assert a[..j] == a[..k] + a[k..][..j - k];
    var whole, tail := a[..j] + [x], a[k..][..j - k] + [x];
    assert whole[..k] == a[..k] && whole[k..] == tail;
    assert b == b[..k] + b[k..] && whole == whole[..k] + whole[k..];
  }

  /** A list with at least two blocks is a fold exactly when the left subtree is kept and the right one folded. */
  lemma FoldsRight<E, H>(hash: seq<E> -> H, enc: H -> seq<E>, a: seq<seq<E>>, b: seq<seq<E>>)
    requires 2 <= |b| < |a|
    ensures var k := LeftCount(|a|);
      Folds(hash, enc, a, b) <==> k < |b| && b[..k] == a[..k] && Folds(hash, enc, a[k..], b[k..])
  {
    hide TopPair, LeftCount, SubtreeStart;
    var k := LeftCount(|a|);
    SubtreeStep(|a|, |b| - 1);
    if k < |b| {
      hide TailReplaced;
      TailFrom(a, b, k, TopPair(hash, enc, a[|b| - 1..]));
    }
  }

  /** A fold keeps the root and hashes nothing new. */
  lemma {:induction false} FoldKeepsRoot<E, H>(hash: seq<E> -> H, enc: H -> seq<E>, a: seq<seq<E>>, b: seq<seq<E>>)
    requires Folds(hash, enc, a, b)
    ensures BlockRoot(hash, enc, a) == BlockRoot(hash, enc, b)
    ensures Inputs(hash, enc, b) <= Inputs(hash, enc, a)
    decreases |a|
  {
    hide BlockRoot, Inputs, LeftCount;
    BlockSplit(hash, enc, a);
    if |b| == 1 {
      assert a[0..] == a;
      SingleBlock(hash, enc, b);
    } else {
      var k := LeftCount(|a|);
      FoldsRight(hash, enc, a, b);
      SameLeftCount(|a|, |b|);
      FoldKeepsRoot(hash, enc, a[k..], b[k..]);
      BlockSplit(hash, enc, b);
      hide Folds;
    }
  }

  /** Blocks of a stream: all but the last have `c` entries, the last no more. */
  ghost predicate FullButLast<E>(a: seq<seq<E>>, c: nat) {
    && a != []
    && (forall i :: 0 <= i < |a| - 1 ==> |a[i]| == c)
    && |a[|a| - 1]| <= c
  }

  lemma SplitBlocks<E>(a: seq<seq<E>>, c: nat, k: nat)
    requires FullButLast(a, c) && 0 < k < |a|
    ensures FullButLast(a[..k], c) && FullButLast(a[k..], c) && |a[..k][k - 1]| == c
    ensures a == a[..k] + a[k..]
  {
    assert a[k..][|a| - k - 1] == a[|a| - 1];
  }

  /** A single block that is the top pair of a list is a fold of it. */
  lemma FoldsToOne<E, H>(hash: seq<E> -> H, enc: H -> seq<E>, a: seq<seq<E>>, b: seq<seq<E>>)
    requires |a| >= 2 && |b| == 1 && b[0] == TopPair(hash, enc, a)
    ensures Folds(hash, enc, a, b)
  {
    hide TopPair, LeftCount;
    assert a[0..] == a;
    assert b == a[..0] + [TopPair(hash, enc, a)];
  }

  /** A folded list ends in a block of the size of a pair. */
  lemma FoldEndsInPair<E, H(!new)>(hash: seq<E> -> H, enc: H -> seq<E>, w: nat, a: seq<seq<E>>, b: seq<seq<E>>)
    requires Encodes(enc, w) && Folds(hash, enc, a, b)
    ensures |b[|b| - 1]| == 2 * w
  {
    hide BlockRoot, LeftCount, SubtreeStart;
  }

  /** When no full block has the size of a pair, blocks that match are equal but for a folded tail. */
  lemma {:induction false} MatchesShape<E, H(!new)>(hash: seq<E> -> H, enc: H -> seq<E>, w: nat,
                                                    a: seq<seq<E>>, b: seq<seq<E>>, c: nat)
    requires Encodes(enc, w) && c != 2 * w && FullButLast(a, c) && FullButLast(b, c)
    requires Matches(hash, enc, a, b)
    ensures a == b || Folds(hash, enc, a, b) || Folds(hash, enc, b, a)
    decreases |a|
  {
    assert a != [] && b != [];
    hide TopPair, LeftCount, Encodes, FullButLast, Folds;
    if |a| == 1 && |b| == 1 {
    } else if |a| == 1 {
      FoldsToOne(hash, enc, b, a);
    } else if |b| == 1 {
      FoldsToOne(hash, enc, a, b);
    } else {
      var k, l := LeftCount(|a|), LeftCount(|b|);
      SplitBlocks(a, c, k);
      SplitBlocks(b, c, l);
      var a1, b1, a2, b2 := a[..k], b[..l], a[k..], b[l..];
      assert Matches(hash, enc, a1, b1) && Matches(hash, enc, a2, b2);
      hide Matches;
      MatchesShape(hash, enc, w, a1, b1, c);
      MatchesShape(hash, enc, w, a2, b2, c);
      if Folds(hash, enc, a1, b1) { FoldEndsInPair(hash, enc, w, a1, b1); }
      if Folds(hash, enc, b1, a1) { FoldEndsInPair(hash, enc, w, b1, a1); }
      assert a1 == b1 && k == |a1| == |b1| == l;
      FoldsWhole(hash, enc, a, b);
      FoldsWhole(hash, enc, b, a);
    }
  }

  lemma FoldsWhole<E, H>(hash: seq<E> -> H, enc: H -> seq<E>, a: seq<seq<E>>, b: seq<seq<E>>)
    requires |a| >= 2 && |b| >= 2 && LeftCount(|a|) == LeftCount(|b|)
    ensures var k := LeftCount(|a|);
      a[..k] == b[..k] && Folds(hash, enc, a[k..], b[k..]) ==> Folds(hash, enc, a, b)
  {
    hide LeftCount, TopPair, SubtreeStart;
    var k := LeftCount(|a|);
    if a[..k] == b[..k] && Folds(hash, enc, a[k..], b[k..]) {
      assert |b| < |a|;
      FoldsRight(hash, enc, a, b);
    }
  }

  // ----- equal roots, for streams

  ghost function StreamRoot<E, H>(hash: seq<E> -> H, enc: H -> seq<E>, xs: seq<E>, c: nat): H
    requires c > 0
  {
    ChunkRoot(hash, ParentOf(hash, enc), xs, c)
  }

  /** Everything hashed for a stream. */
  ghost function StreamInputs<E, H>(hash: seq<E> -> H, enc: H -> seq<E>, xs: seq<E>, c: nat): set<seq<E>>
    requires c > 0
  {
    Inputs(hash, enc, Blocks(xs, c))
  }

  /** Two different inputs with one hash among everything hashed for the two streams. */
  ghost predicate Evident<E, H>(hash: seq<E> -> H, enc: H -> seq<E>, xs: seq<E>, ys: seq<E>, c: nat)
    requires c > 0
  {
    Collide(hash, StreamInputs(hash, enc, xs, c) + StreamInputs(hash, enc, ys, c))
  }

  lemma StreamBlocks<E>(xs: seq<E>, c: nat)
    requires c > 0
    ensures FullButLast(Blocks(xs, c), c) && Flatten(Blocks(xs, c)) == xs
  {
    hide Chunks;
    FlattenChunks(xs, c);
    var r := Blocks(xs, c);
    forall i | 0 <= i < |r| - 1
      ensures |r[i]| == c
    {
      NeighbouringChunks(xs, c, i);
    }
  }

  lemma BlocksOf<E>(xs: seq<E>, c: nat)
    requires c > 0
    ensures |Blocks(xs, c)| == BlockCount(|xs|, c)
  {
    hide Chunks, ChunkOf, OffsetIn;
    if xs != [] {
      var k := ChunkOf(|xs| - 1, c);
      HomeChunk(xs, c, |xs| - 1);
      PositionParts(|xs| - 1, c);
      ChunkAt(xs, c, k + 1);
      Scale(k + 1, 1, c);
    }
  }

  function BlockCount(n: nat, c: nat): nat
    requires c > 0
  {
    if n == 0 then 1 else ChunkOf(n - 1, c) + 1
  }

  lemma FirstChunk<T>(xs: seq<T>, c: nat)
    requires 0 < c <= |xs|
    ensures Chunks(xs, c) == [xs[..c]] + Chunks(xs[c..], c)
  {
    assert |xs| == c ==> xs[..c] == xs && xs[c..] == [];
  }

  /** A few full chunks of a stream and a last one of another make up the stream of just these. */
  lemma {:induction false} ChunksAppend<T>(xs: seq<T>, c: nat, j: nat, t: seq<T>)
    requires c > 0 && j * c <= |xs| && 0 < |t| <= c
    ensures j <= |Chunks(xs, c)| && Chunks(xs[..j * c] + t, c) == Chunks(xs, c)[..j] + [t]
    decreases j
  {
    if j == 0 {
      assert xs[..0] + t == t;
    } else {
      Scale(j, 1, c);
      var i := (j - 1) * c;
      var ys := xs[..i + c] + t;
      assert ys[..c] == xs[..c] && ys[c..] == xs[c..][..i] + t;
      FirstChunk(xs, c);
      FirstChunk(ys, c);
      hide Chunks;
      ChunksAppend(xs[c..], c, j - 1, t);
    }
  }

  function ChunkStart(j: nat, c: nat): nat {
    j * c
  }

  /** The chunks from `j` on are a subtree of two or more. */
  ghost predicate FoldPoint<E>(xs: seq<E>, c: nat, j: nat)
    requires c > 0
  {
    j + 2 <= |Blocks(xs, c)| && SubtreeStart(|Blocks(xs, c)|, j)
  }

  /** The top pair of that subtree. */
  ghost function TailPair<E, H>(hash: seq<E> -> H, enc: H -> seq<E>, xs: seq<E>, c: nat, j: nat): seq<E>
    requires c > 0 && FoldPoint(xs, c, j)
  {
    TopPair(hash, enc, Blocks(xs, c)[j..])
  }

  /** `ys` is `xs` with the chunks from `j` on, a subtree of two or more, replaced by the top pair of the subtree. */
  ghost predicate FoldedAt<E, H>(hash: seq<E> -> H, enc: H -> seq<E>, xs: seq<E>, ys: seq<E>, c: nat, j: nat)
    requires c > 0
  {
    && FoldPoint(xs, c, j) && |TailPair(hash, enc, xs, c, j)| <= c
    && ChunkStart(j, c) <= |xs| && ys == xs[..ChunkStart(j, c)] + TailPair(hash, enc, xs, c, j)
  }

  ghost predicate Folded<E, H>(hash: seq<E> -> H, enc: H -> seq<E>, xs: seq<E>, ys: seq<E>, c: nat)
    requires c > 0
  {
    exists j: nat :: FoldedAt(hash, enc, xs, ys, c, j)
  }

  /** The blocks of a stream cut at a fold point and continued with the pair. */
  lemma FoldBlocks<E, H(!new)>(hash: seq<E> -> H, enc: H -> seq<E>, w: nat, xs: seq<E>, c: nat, j: nat)
    requires Encodes(enc, w) && c > 0 && FoldPoint(xs, c, j) && |TailPair(hash, enc, xs, c, j)| <= c
    ensures ChunkStart(j, c) <= |xs|
    ensures var pair := TailPair(hash, enc, xs, c, j);
      Blocks(xs[..ChunkStart(j, c)] + pair, c) == Blocks(xs, c)[..j] + [pair]
  {
    hide BlockRoot, LeftCount, SubtreeStart, Chunks;
    ChunkAt(xs, c, j + 1);
    Scale(j + 1, 1, c);
    var pair := TailPair(hash, enc, xs, c, j);
    assert |pair| == 2 * w;
    hide TailPair;
    ChunksAppend(xs, c, j, pair);
  }

  /** Folded streams are those with folded blocks. */
  lemma FoldedBlocks<E, H(!new)>(hash: seq<E> -> H, enc: H -> seq<E>, w: nat, xs: seq<E>, ys: seq<E>, c: nat, j: nat)
    requires Encodes(enc, w) && c > 0
    ensures FoldedAt(hash, enc, xs, ys, c, j) <==>
      |Blocks(ys, c)| == j + 1 && Folds(hash, enc, Blocks(xs, c), Blocks(ys, c))
  {
    hide BlockRoot, LeftCount, SubtreeStart, Blocks, TopPair, ChunkStart, Encodes;
    StreamBlocks(ys, c);
    if FoldPoint(xs, c, j) && |TailPair(hash, enc, xs, c, j)| <= c {
      FoldBlocks(hash, enc, w, xs, c, j);
      StreamBlocks(xs[..ChunkStart(j, c)] + TailPair(hash, enc, xs, c, j), c);
    }
  }

  lemma {:induction false} MatchingCounts<E, H>(hash: seq<E> -> H, enc: H -> seq<E>, a: seq<seq<E>>, b: seq<seq<E>>)
    requires |a| == |b| > 0 && Matches(hash, enc, a, b)
    ensures a == b
    decreases |a|
  {
    if |a| > 1 {
      hide TopPair, LeftCount;
      var k := LeftCount(|a|);
      MatchingCounts(hash, enc, a[..k], b[..k]);
      MatchingCounts(hash, enc, a[k..], b[k..]);
      assert a == a[..k] + a[k..] && b == b[..k] + b[k..];
    }
  }

  /** Streams with one root are equal, or one is a fold of the other, or a collision has been hashed. */
  lemma RootsTellStreams<E, H(!new)>(hash: seq<E> -> H, enc: H -> seq<E>, w: nat, xs: seq<E>, ys: seq<E>, c: nat)
    requires Encodes(enc, w) && c > 0 && (c != 2 * w || |xs| == |ys|)
    requires StreamRoot(hash, enc, xs, c) == StreamRoot(hash, enc, ys, c)
    ensures || xs == ys || Folded(hash, enc, xs, ys, c) || Folded(hash, enc, ys, xs, c)
            || Evident(hash, enc, xs, ys, c)
  {
    hide Encodes, Matches, Root, Inputs, Folds, FullButLast, FoldedAt, Blocks, BlockCount;
    var a, b := Blocks(xs, c), Blocks(ys, c);
    StreamBlocks(xs, c);
    StreamBlocks(ys, c);
    SameRootIff(hash, enc, w, a, b);
    if Matches(hash, enc, a, b) {
      if |xs| == |ys| {
        BlocksOf(xs, c);
        BlocksOf(ys, c);
        MatchingCounts(hash, enc, a, b);
      } else {
        MatchesShape(hash, enc, w, a, b, c);
        FoldedBlocks(hash, enc, w, xs, ys, c, |b| - 1);
        FoldedBlocks(hash, enc, w, ys, xs, c, |a| - 1);
      }
    }
  }

  /** A fold is a shorter stream with the same root for which nothing new is hashed. */
  lemma FoldedSharesRoot<E, H(!new)>(hash: seq<E> -> H, enc: H -> seq<E>, w: nat,
                                     xs: seq<E>, ys: seq<E>, c: nat, j: nat)
    requires Encodes(enc, w) && c > 0 && FoldedAt(hash, enc, xs, ys, c, j)
    ensures |ys| == j * c + 2 * w < |xs| && 2 * w <= c && (j + 1) * c < |xs|
    ensures StreamRoot(hash, enc, ys, c) == StreamRoot(hash, enc, xs, c)
    ensures StreamInputs(hash, enc, ys, c) <= StreamInputs(hash, enc, xs, c)
  {
    FoldedBlocks(hash, enc, w, xs, ys, c, j);
    hide BlockRoot, LeftCount, SubtreeStart, Chunks, Folds, Inputs, Root;
    FoldKeepsRoot(hash, enc, Blocks(xs, c), Blocks(ys, c));
    ChunkAt(xs, c, j + 1);
    Scale(j + 1, 1, c);
  }

  /** With a hash that is injective on what is hashed, roots are equal exactly for equal streams and for folds. */
  lemma RootsEqualIff<E, H(!new)>(hash: seq<E> -> H, enc: H -> seq<E>, w: nat, xs: seq<E>, ys: seq<E>, c: nat)
    requires Encodes(enc, w) && c > 0 && (c != 2 * w || |xs| == |ys|)
    requires var inputs := StreamInputs(hash, enc, xs, c) + StreamInputs(hash, enc, ys, c);
      forall u, v | u in inputs && v in inputs :: hash(u) == hash(v) ==> u == v
    ensures StreamRoot(hash, enc, xs, c) == StreamRoot(hash, enc, ys, c) <==>
      xs == ys || Folded(hash, enc, xs, ys, c) || Folded(hash, enc, ys, xs, c)
  {
    hide StreamRoot, StreamInputs, FoldedAt, Encodes;
    if StreamRoot(hash, enc, xs, c) == StreamRoot(hash, enc, ys, c) {
      RootsTellStreams(hash, enc, w, xs, ys, c);
    }
    if j: nat :| FoldedAt(hash, enc, xs, ys, c, j) {
      FoldedSharesRoot(hash, enc, w, xs, ys, c, j);
    }
    if j: nat :| FoldedAt(hash, enc, ys, xs, c, j) {
      FoldedSharesRoot(hash, enc, w, ys, xs, c, j);
    }
  }

  /**
   * Every stream longer than one chunk shares its root with a stream the size of a
   * pair, for which nothing new is hashed.
   */
  lemma LongStreamsAreFolded<E, H(!new)>(hash: seq<E> -> H, enc: H -> seq<E>, w: nat, xs: seq<E>, c: nat)
    returns (ys: seq<E>)
    requires Encodes(enc, w) && c >= 2 * w && |xs| > c
    ensures |ys| == 2 * w < |xs|
    ensures StreamRoot(hash, enc, ys, c) == StreamRoot(hash, enc, xs, c)
    ensures StreamInputs(hash, enc, ys, c) <= StreamInputs(hash, enc, xs, c)
  {
    ys := FoldAt(hash, enc, w, xs, c, 0);
  }

  /** A fold exists wherever the lengths allow one. */
  lemma FoldAt<E, H(!new)>(hash: seq<E> -> H, enc: H -> seq<E>, w: nat, xs: seq<E>, c: nat, j: nat) returns (ys: seq<E>)
    requires Encodes(enc, w) && c >= 2 * w && (j + 1) * c < |xs| && SubtreeStart(BlockCount(|xs|, c), j)
    ensures FoldedAt(hash, enc, xs, ys, c, j)
    ensures |ys| == j * c + 2 * w < |xs|
    ensures StreamRoot(hash, enc, ys, c) == StreamRoot(hash, enc, xs, c)
    ensures StreamInputs(hash, enc, ys, c) <= StreamInputs(hash, enc, xs, c)
  {
    hide BlockRoot, LeftCount, SubtreeStart, Chunks, Inputs, Root;
    ChunkAt(xs, c, j + 1);
    Scale(j + 1, 1, c);
    BlocksOf(xs, c);
    ys := xs[..j * c] + TopPair(hash, enc, Blocks(xs, c)[j..]);
    FoldedSharesRoot(hash, enc, w, xs, ys, c, j);
  }

  /** Something hashed for the stream alone is a collision. */
  ghost predicate SelfColliding<E, H>(hash: seq<E> -> H, enc: H -> seq<E>, xs: seq<E>, c: nat)
    requires c > 0
  {
    Collide(hash, StreamInputs(hash, enc, xs, c))
  }

  /** Streams of `n` entries have folds of `m` entries. */
  ghost predicate FoldLengths(n: nat, m: nat, w: nat, c: nat)
    requires c > 0
  {
    2 * w <= c && exists j: nat :: (j + 1) * c < n && SubtreeStart(BlockCount(n, c), j) && m == j * c + 2 * w
  }

  /** Different streams of these lengths have different roots, unless a collision has been hashed. */
  ghost predicate LengthsBind<E(!new), H>(hash: seq<E> -> H, enc: H -> seq<E>, n: nat, m: nat, c: nat)
    requires c > 0
  {
    forall xs: seq<E>, ys: seq<E> | |xs| == n && |ys| == m && xs != ys ::
      StreamRoot(hash, enc, xs, c) == StreamRoot(hash, enc, ys, c) ==> Evident(hash, enc, xs, ys, c)
  }

  ghost predicate AllSelfColliding<E(!new), H>(hash: seq<E> -> H, enc: H -> seq<E>, n: nat, c: nat)
    requires c > 0
  {
    forall xs: seq<E> :: |xs| == n ==> SelfColliding(hash, enc, xs, c)
  }

  /**
   * For any two lengths, equal ones included: roots bind streams of these lengths
   * up to a collision exactly when no fold leads from one length to the other, or
   * every stream of the longer length collides with itself.
   */
  lemma LengthsBindIff<E(!new), H(!new)>(hash: seq<E> -> H, enc: H -> seq<E>, w: nat, n: nat, m: nat, c: nat)
    requires Encodes(enc, w) && c > 0 && m <= n && (c != 2 * w || m == n)
    ensures LengthsBind(hash, enc, n, m, c) <==> !FoldLengths(n, m, w, c) || AllSelfColliding(hash, enc, n, c)
  {
    hide Encodes, StreamRoot, StreamInputs, FoldedAt, SubtreeStart, BlockCount;
    if LengthsBind(hash, enc, n, m, c) && FoldLengths(n, m, w, c) {
      var j: nat :| (j + 1) * c < n && SubtreeStart(BlockCount(n, c), j) && m == j * c + 2 * w;
      forall xs: seq<E> | |xs| == n
        ensures SelfColliding(hash, enc, xs, c)
      {
        var ys := FoldAt(hash, enc, w, xs, c, j);
        assert Evident(hash, enc, xs, ys, c);
        assert StreamInputs(hash, enc, xs, c) + StreamInputs(hash, enc, ys, c) == StreamInputs(hash, enc, xs, c);
      }
    }
    forall xs: seq<E>, ys: seq<E> | |xs| == n && |ys| == m && xs != ys
      && StreamRoot(hash, enc, xs, c) == StreamRoot(hash, enc, ys, c)
      && (!FoldLengths(n, m, w, c) || AllSelfColliding(hash, enc, n, c))
      ensures Evident(hash, enc, xs, ys, c)
    {
      if AllSelfColliding(hash, enc, n, c) {
        assert SelfColliding(hash, enc, xs, c);
      } else {
        RootsTellStreams(hash, enc, w, xs, ys, c);
        if Folded(hash, enc, xs, ys, c) {
          var j: nat :| FoldedAt(hash, enc, xs, ys, c, j);
          FoldLengthsOf(hash, enc, w, xs, ys, c, j);
        }
        if Folded(hash, enc, ys, xs, c) {
          var j: nat :| FoldedAt(hash, enc, ys, xs, c, j);
          FoldedSharesRoot(hash, enc, w, ys, xs, c, j);
        }
      }
    }
  }

  lemma FoldLengthsOf<E, H(!new)>(hash: seq<E> -> H, enc: H -> seq<E>, w: nat, xs: seq<E>, ys: seq<E>, c: nat, j: nat)
    requires Encodes(enc, w) && c > 0 && FoldedAt(hash, enc, xs, ys, c, j)
    ensures FoldLengths(|xs|, |ys|, w, c)
  {
    hide SubtreeStart, Blocks, BlockCount, TailPair, StreamRoot, StreamInputs;
    FoldedSharesRoot(hash, enc, w, xs, ys, c, j);
    BlocksOf(xs, c);
  }

  /** Different streams of up to `top` entries have different roots, unless a collision has been hashed. */
  ghost predicate BindsUpTo<E(!new), H>(hash: seq<E> -> H, enc: H -> seq<E>, top: nat, c: nat)
    requires c > 0
  {
    forall xs: seq<E>, ys: seq<E> | |xs| <= top && |ys| <= top && xs != ys ::
      StreamRoot(hash, enc, xs, c) == StreamRoot(hash, enc, ys, c) ==> Evident(hash, enc, xs, ys, c)
  }

  /**
   * Where a chunk has room for a pair, roots bind all streams of up to `top`
   * entries exactly when these fit one chunk, or every longer one collides with itself.
   */
  lemma BindsUpToIff<E(!new), H(!new)>(hash: seq<E> -> H, enc: H -> seq<E>, w: nat, top: nat, c: nat)
    requires Encodes(enc, w) && c >= 2 * w
    ensures BindsUpTo(hash, enc, top, c) <==>
      top <= c || forall xs: seq<E> :: c < |xs| <= top ==> SelfColliding(hash, enc, xs, c)
  {
    hide StreamRoot, StreamInputs;
    if BindsUpTo(hash, enc, top, c) {
      forall xs: seq<E> | c < |xs| <= top
        ensures SelfColliding(hash, enc, xs, c)
      {
        var ys := LongStreamsAreFolded(hash, enc, w, xs, c);
        assert Evident(hash, enc, xs, ys, c);
        assert StreamInputs(hash, enc, xs, c) + StreamInputs(hash, enc, ys, c) == StreamInputs(hash, enc, xs, c);
      }
    }
    forall xs: seq<E>, ys: seq<E> | |xs| <= top && |ys| <= top && xs != ys
      && StreamRoot(hash, enc, xs, c) == StreamRoot(hash, enc, ys, c)
      && (top <= c || forall xs: seq<E> :: c < |xs| <= top ==> SelfColliding(hash, enc, xs, c))
      ensures Evident(hash, enc, xs, ys, c)
    {
      if |xs| <= c && |ys| <= c {
        ShortStream(hash, enc, xs, c);
        ShortStream(hash, enc, ys, c);
      } else if |xs| > c {
        assert SelfColliding(hash, enc, xs, c);
      } else {
        assert SelfColliding(hash, enc, ys, c);
      }
    }
  }

  /** The root of a stream that fits one chunk is its hash. */
  lemma ShortStream<E, H>(hash: seq<E> -> H, enc: H -> seq<E>, xs: seq<E>, c: nat)
    requires |xs| <= c && c > 0
    ensures StreamRoot(hash, enc, xs, c) == hash(xs) && StreamInputs(hash, enc, xs, c) == {xs}
  {
    SingleBlock(hash, enc, Blocks(xs, c));
  }

  /** Chunks too small for a pair: streams of any lengths with one root are equal or give a collision. */
  lemma SmallChunksBind<E, H(!new)>(hash: seq<E> -> H, enc: H -> seq<E>, w: nat, xs: seq<E>, ys: seq<E>, c: nat)
    requires Encodes(enc, w) && 0 < c < 2 * w && xs != ys
    requires StreamRoot(hash, enc, xs, c) == StreamRoot(hash, enc, ys, c)
    ensures Evident(hash, enc, xs, ys, c)
  {
    hide StreamRoot, FoldedAt;
    RootsTellStreams(hash, enc, w, xs, ys, c);
    forall j: nat | FoldedAt(hash, enc, xs, ys, c, j) || FoldedAt(hash, enc, ys, xs, c, j)
      ensures false
    {
      if FoldedAt(hash, enc, xs, ys, c, j) {
        FoldedSharesRoot(hash, enc, w, xs, ys, c, j);
      } else {
        FoldedSharesRoot(hash, enc, w, ys, xs, c, j);
      }
    }
  }
}
