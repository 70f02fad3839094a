/** The Merkle baseline: pairwise reduction of chunk hashes, an odd last hash promoted unchanged. */
module Merkle {
  import opened Slicing

  /** One level up: neighbours are combined, a last one without a partner is kept. */
  function NextLevel<H>(parent: (H, H) -> H, leaves: seq<H>): (next: seq<H>)
    ensures |next| == (|leaves| + 1) / 2
  {
    if |leaves| < 2 then leaves
    else [parent(leaves[0], leaves[1])] + NextLevel(parent, leaves[2..])
  }

  function Root<H>(parent: (H, H) -> H, leaves: seq<H>): H
    requires leaves != []
    decreases |leaves|
  {
    if |leaves| == 1 then leaves[0] else Root(parent, NextLevel(parent, leaves))
  }

  /** What one round over the hashes from `i` on adds to the level above. */
  lemma NextPair<H>(parent: (H, H) -> H, leaves: seq<H>, i: nat)
    requires i < |leaves|
    ensures i + 1 < |leaves| ==>
      NextLevel(parent, leaves[i..]) == [parent(leaves[i], leaves[i + 1])] + NextLevel(parent, leaves[i + 2..])
    ensures i + 1 == |leaves| ==> NextLevel(parent, leaves[i..]) == [leaves[i]]
  {
    if i + 1 < |leaves| {
      assert leaves[i..][2..] == leaves[i + 2..];
    }
  }

  lemma NothingLeft<H>(parent: (H, H) -> H, next: seq<H>)
    ensures next + NextLevel(parent, []) == next
  {
  }

  lemma RootOfLevel<H>(parent: (H, H) -> H, leaves: seq<H>)
    requires |leaves| > 1
    ensures NextLevel(parent, leaves) != [] && Root(parent, leaves) == Root(parent, NextLevel(parent, leaves))
  {
  }

  lemma RootOfOne<H>(parent: (H, H) -> H, h: H)
    ensures Root(parent, [h]) == h
  {
  }

  method MerkleRoot<H>(parent: (H, H) -> H, input: seq<H>) returns (root: H)
    requires input != []
    ensures root == Root(parent, input)
  {
    hide NextLevel, Root;
    var leaves := input;
    while |leaves| > 1
      invariant leaves != [] && Root(parent, leaves) == Root(parent, input)
      decreases |leaves|
    {
      var next: seq<H> := [];
      ghost var rest := leaves;
      var i := 0;
      while i < |leaves|
        invariant 0 <= i <= |leaves| + 1
        invariant rest == if i <= |leaves| then leaves[i..] else []
        invariant next + NextLevel(parent, rest) == NextLevel(parent, leaves)
      {
        NextPair(parent, leaves, i);
        if i + 1 < |leaves| {
          next := next + [parent(leaves[i], leaves[i + 1])];
          rest := leaves[i + 2..];
        } else {
          next := next + [leaves[i]];
          rest := [];
        }
        i := i + 2;
      }
      NothingLeft(parent, next);
      assert rest == [] && next == NextLevel(parent, leaves);
      RootOfLevel(parent, leaves);
      leaves := next;
    }
    root := leaves[0];
    assert leaves == [root];
    RootOfOne(parent, root);
  }

  /** What is hashed into leaves: the chunks, or one empty chunk for an empty stream. */
  function Blocks<E>(events: seq<E>, chunkSize: nat): (r: seq<seq<E>>)
    requires chunkSize > 0
    ensures r != []
  {
    if events == [] then [[]] else Chunks(events, chunkSize)
  }

  /** Root over the chunks of an event stream; an empty stream is one empty chunk. */
  method MerkleChunks<E, H>(hash: seq<E> -> H, parent: (H, H) -> H, events: seq<E>, chunkSize: nat) returns (root: H)
    requires chunkSize > 0
    ensures root == ChunkRoot(hash, parent, events, chunkSize)
  {
    hide Root;
    var leaves: seq<H> := [];
    var chunks := Chunks(events, chunkSize);
    for i := 0 to |chunks|
      invariant leaves == HashAll(hash, chunks[..i])
    {
      leaves := leaves + [hash(chunks[i])];
    }
    assert chunks[..|chunks|] == chunks;
    if |leaves| == 0 {
      leaves := [hash([])];
    }
    assert leaves == HashAll(hash, Blocks(events, chunkSize));
    root := MerkleRoot(parent, leaves);
  }

  function HashAll<E, H>(hash: seq<E> -> H, chunks: seq<seq<E>>): (r: seq<H>)
    ensures |r| == |chunks| && forall i :: 0 <= i < |r| ==> r[i] == hash(chunks[i])
  {
    seq(|chunks|, i requires 0 <= i < |chunks| => hash(chunks[i]))
  }

  function ChunkRoot<E, H>(hash: seq<E> -> H, parent: (H, H) -> H, events: seq<E>, chunkSize: nat): H
    requires chunkSize > 0
  {
    Root(parent, HashAll(hash, Blocks(events, chunkSize)))
  }

  // ----- what equal roots say

  /** The pair is joined at this level. */
  ghost predicate Joined<H>(leaves: seq<H>, a: H, b: H) {
    exists i: nat, j: nat :: i % 2 == 0 && j == i + 1 < |leaves| && leaves[i] == a && leaves[j] == b
  }

  /** The pair is joined at some level of the reduction of the leaves. */
  ghost predicate Combined<H>(parent: (H, H) -> H, leaves: seq<H>, a: H, b: H)
    decreases |leaves|
  {
    |leaves| > 1 && (Joined(leaves, a, b) || Combined(parent, NextLevel(parent, leaves), a, b))
  }

  lemma {:induction false} JoinedLater<H>(leaves: seq<H>, a: H, b: H)
    requires |leaves| >= 2 && Joined(leaves[2..], a, b)
    ensures Joined(leaves, a, b)
  {
    var i: nat, j: nat :| i % 2 == 0 && j == i + 1 < |leaves[2..]| && leaves[2..][i] == a && leaves[2..][j] == b;
    assert leaves[i + 2] == a && leaves[j + 2] == b;
  }

  /** Different hashes with one level above: the first pair that differs is a collision. */
  lemma {:induction false} LevelCollision<H>(parent: (H, H) -> H, l: seq<H>, m: seq<H>) returns (a: H, b: H, c: H, d: H)
    requires |l| == |m| && l != m && NextLevel(parent, l) == NextLevel(parent, m)
    ensures Joined(l, a, b) && Joined(m, c, d) && (a, b) != (c, d) && parent(a, b) == parent(c, d)
  {
    var u, v := NextLevel(parent, l), NextLevel(parent, m);
    assert |l| >= 2 && u[0] == v[0] && u[1..] == v[1..];
    if (l[0], l[1]) != (m[0], m[1]) {
      a, b, c, d := l[0], l[1], m[0], m[1];
    } else {
      assert u[1..] == NextLevel(parent, l[2..]) && v[1..] == NextLevel(parent, m[2..]);
      assert l == [l[0], l[1]] + l[2..] && m == [m[0], m[1]] + m[2..];
      a, b, c, d := LevelCollision(parent, l[2..], m[2..]);
      JoinedLater(l, a, b);
      JoinedLater(m, c, d);
    }
  }

  /**
   * Equal roots over equally many but different leaves: the two trees hold a
   * collision of the parent function, promotion of odd leaves included.
   */
  lemma {:induction false} RootCollision<H>(parent: (H, H) -> H, l: seq<H>, m: seq<H>) returns (a: H, b: H, c: H, d: H)
    requires |l| == |m| > 0 && Root(parent, l) == Root(parent, m) && l != m
    ensures Combined(parent, l, a, b) && Combined(parent, m, c, d)
    ensures (a, b) != (c, d) && parent(a, b) == parent(c, d)
    decreases |l|
  {
    assert |l| > 1;
    if NextLevel(parent, l) == NextLevel(parent, m) {
      a, b, c, d := LevelCollision(parent, l, m);
    } else {
      a, b, c, d := RootCollision(parent, NextLevel(parent, l), NextLevel(parent, m));
    }
  }

  /** What two different streams with one root give away. */
  datatype Evidence<E, H> =
    | ChunkPair(x: seq<E>, y: seq<E>)
    | HashPairs(a: H, b: H, c: H, d: H)

  /**
   * Equal roots of equally long but different streams: either two different
   * chunks at one place have one hash, or the trees hold a collision of the
   * parent function.
   */
  lemma StreamCollision<E, H>(hash: seq<E> -> H, parent: (H, H) -> H, xs: seq<E>, ys: seq<E>, c: nat)
    returns (found: Evidence<E, H>, i: nat)
    requires c > 0 && |xs| == |ys| && xs != ys
    requires ChunkRoot(hash, parent, xs, c) == ChunkRoot(hash, parent, ys, c)
    ensures found.ChunkPair? ==>
      && i < |Chunks(xs, c)| && i < |Chunks(ys, c)| && found.x == Chunks(xs, c)[i] && found.y == Chunks(ys, c)[i]
      && found.x != found.y && hash(found.x) == hash(found.y)
    ensures found.HashPairs? ==>
      && Combined(parent, HashAll(hash, Chunks(xs, c)), found.a, found.b)
      && Combined(parent, HashAll(hash, Chunks(ys, c)), found.c, found.d)
      && (found.a, found.b) != (found.c, found.d) && parent(found.a, found.b) == parent(found.c, found.d)
  {
    SameChunkCount(xs, ys, c);
    FlattenChunks(xs, c);
    FlattenChunks(ys, c);
    var x, y := Chunks(xs, c), Chunks(ys, c);
    hide Chunks, Root;
    assert x != y;
    i :| 0 <= i < |x| && x[i] != y[i];
    if HashAll(hash, x) != HashAll(hash, y) {
      var a, b, a', b' := RootCollision(parent, HashAll(hash, x), HashAll(hash, y));
      found := HashPairs(a, b, a', b');
    } else {
      assert HashAll(hash, x)[i] == HashAll(hash, y)[i];
      found := ChunkPair(x[i], y[i]);
    }
  }
}
