/**
 * The Merkle root reduction of the server utilities (getMerkleRoot).
 *
 * A level of the tree is a sequence of strings. The next level pairs
 * adjacent nodes left to right, hashing the string concatenation of each
 * pair; an odd trailing node is carried up unhashed. The reduction repeats
 * until one node is left, and that node is the root.
 *
 * The hash function is a parameter: nothing is assumed about it, so
 * every statement below holds for any total function on strings.
 */
module Merkle {

  /** The hash function the reduction is built on, left uninterpreted. */
  type Hasher = string -> string

  /** The level above `level`: one hashed node per adjacent pair, then the
    * unpaired last node, if any, as it is. */
  function NextLevel(hash: Hasher, level: seq<string>): (r: seq<string>)
    ensures |r| <= |level|
    ensures |level| >= 2 ==> 0 < |r| < |level|
    ensures |r| == 0 <==> |level| == 0
    decreases |level|
  {
    if |level| < 2 then level
    else [hash(level[0] + level[1])] + NextLevel(hash, level[2..])
  }

  /** The level above has ceil(n / 2) nodes, so it is strictly shorter than
    * any level of two or more nodes and never empty when `level` is not. */
  lemma {:induction false} NextLevelLength(hash: Hasher, level: seq<string>)
    ensures |NextLevel(hash, level)| == (|level| + 1) / 2
    ensures |level| >= 2 ==> 0 < |NextLevel(hash, level)| < |level|
    decreases |level|
  {
    if |level| >= 2 {
      NextLevelLength(hash, level[2..]);
    }
  }

  /** Node i of the level above, for i < n / 2, is the hash of nodes 2i and
    * 2i + 1 concatenated, in that order. */
  lemma {:induction false} NextLevelPair(hash: Hasher, level: seq<string>, i: nat)
    requires i < |level| / 2
    ensures i < |NextLevel(hash, level)|
    ensures NextLevel(hash, level)[i] == hash(level[2 * i] + level[2 * i + 1])
    decreases i
  {
    NextLevelLength(hash, level);
    if i > 0 {
      NextLevelPair(hash, level[2..], i - 1);
      assert level[2..][2 * (i - 1)] == level[2 * i];
      assert level[2..][2 * (i - 1) + 1] == level[2 * i + 1];
    }
  }

  /** On a level of odd length, the last node of the level above is the last
    * node of `level` itself, not hashed. */
  lemma {:induction false} NextLevelCarry(hash: Hasher, level: seq<string>)
    requires |level| % 2 == 1
    ensures |NextLevel(hash, level)| > 0
    ensures NextLevel(hash, level)[|NextLevel(hash, level)| - 1] == level[|level| - 1]
    decreases |level|
  {
    if |level| >= 3 {
      NextLevelCarry(hash, level[2..]);
    }
  }

  /** Node i of any sequence with the length, pairs and carried node of the
    * level above is node i of the level above. */
  lemma NextLevelNode(hash: Hasher, level: seq<string>, parent: seq<string>, i: int)
    requires |parent| == (|level| + 1) / 2
    requires forall i :: 0 <= i < |level| / 2 ==> parent[i] == hash(level[2 * i] + level[2 * i + 1])
    requires |level| % 2 == 1 ==> parent[|parent| - 1] == level[|level| - 1]
    requires 0 <= i < |parent|
    ensures i < |NextLevel(hash, level)| && parent[i] == NextLevel(hash, level)[i]
  {
    NextLevelLength(hash, level);
    if i < |level| / 2 {
      NextLevelPair(hash, level, i);
    } else {
      NextLevelCarry(hash, level);
    }
  }

  /** The three facts above determine the level above completely: any
    * sequence with that length, those pairs and that carried node is it. */
  lemma NextLevelUnique(hash: Hasher, level: seq<string>, parent: seq<string>)
    requires |parent| == (|level| + 1) / 2
    requires forall i :: 0 <= i < |level| / 2 ==> parent[i] == hash(level[2 * i] + level[2 * i + 1])
    requires |level| % 2 == 1 ==> parent[|parent| - 1] == level[|level| - 1]
    ensures parent == NextLevel(hash, level)
  {
    var next := NextLevel(hash, level);
    NextLevelLength(hash, level);
    forall i | 0 <= i < |parent|
      ensures parent[i] == next[i]
    {
      NextLevelNode(hash, level, parent, i);
    }
  }

  /** Only the empty level has an empty level above it, so on empty input the
    * source's recursion would call itself on [] for ever; Root and
    * GetMerkleRoot therefore require a non-empty level. */
  lemma NextLevelEmpty(hash: Hasher, level: seq<string>)
    ensures NextLevel(hash, level) == [] <==> level == []
  {
    NextLevelLength(hash, level);
  }

  /** The root: a single node is its own root, at every height; otherwise the
    * root of the level above. The root of two or more leaves is always a
    * hash output: a carried node is hashed again at some level above. */
  function Root(hash: Hasher, level: seq<string>): (r: string)
    requires |level| > 0
    ensures |level| == 1 ==> r == level[0]
    ensures |level| >= 2 ==> exists s :: r == hash(s)
    decreases |level|
  {
    if |level| == 1 then level[0]
    else
      NextLevelLength(hash, level);
      Root(hash, NextLevel(hash, level))
  }

  /** getMerkleRoot: one level is built by a loop in steps of two that appends
    * to `parentNodes`, a trailing odd node is appended unhashed, and the
    * method recurses on the new level. The root it returns is Root's. The
    * ghost `calls` counts the hash calls the method makes over all its
    * levels, and the ghost `depth` counts its nested recursive calls. */
  method GetMerkleRoot(hash: Hasher, properties: seq<string>) returns (root: string, ghost calls: nat, ghost depth: nat)
    requires |properties| > 0
    ensures root == Root(hash, properties)
    ensures calls == HashCalls(hash, properties)
    ensures depth == Height(hash, properties)
    decreases |properties|
  {
    if |properties| == 1 {
      root, calls, depth := properties[0], 0, 0;
      return;
    }
    var parentNodes: seq<string> := [];
    var i := 0;
    calls := 0;
    while i < |properties| - 1
      invariant i % 2 == 0 && i <= |properties|
      invariant |parentNodes| == i / 2 && calls == i / 2
      invariant forall k :: 0 <= k < i / 2 ==> parentNodes[k] == hash(properties[2 * k] + properties[2 * k + 1])
    {
      parentNodes := parentNodes + [hash(properties[i] + properties[i + 1])];
      calls := calls + 1;
      i := i + 2;
    }
    if |properties| % 2 == 1 {
      parentNodes := parentNodes + [properties[|properties| - 1]];
    }
    NextLevelUnique(hash, properties, parentNodes);
    NextLevelLength(hash, properties);
    ghost var callsAbove, depthAbove;
    root, callsAbove, depthAbove := GetMerkleRoot(hash, parentNodes);
    calls := calls + callsAbove;
    depth := 1 + depthAbove;
  }

  /** The number of hash calls the whole reduction makes: one per pair, on
    * every level. */
  function HashCalls(hash: Hasher, level: seq<string>): nat
    requires |level| > 0
    decreases |level|
  {
    if |level| == 1 then 0
    else
      NextLevelLength(hash, level);
      |level| / 2 + HashCalls(hash, NextLevel(hash, level))
  }

  /** A reduction over n leaves calls the hash exactly n - 1 times. */
  lemma {:induction false} HashCallsTotal(hash: Hasher, level: seq<string>)
    requires |level| > 0
    ensures HashCalls(hash, level) == |level| - 1
    decreases |level|
  {
    if |level| > 1 {
      NextLevelLength(hash, level);
      HashCallsTotal(hash, NextLevel(hash, level));
    }
  }

  /** The number of levels built above `level` before one node is left: the
    * recursion depth of getMerkleRoot (see GetMerkleRoot's `depth`). */
  function Height(hash: Hasher, level: seq<string>): nat
    requires |level| > 0
    decreases |level|
  {
    if |level| == 1 then 0
    else
      NextLevelLength(hash, level);
      1 + Height(hash, NextLevel(hash, level))
  }

  function Pow2(d: nat): nat
  {
    if d == 0 then 1 else 2 * Pow2(d - 1)
  }

  /** The height is ceil(log2 n): the least d with n <= 2^d. */
  lemma {:induction false} HeightIsCeilLog2(hash: Hasher, level: seq<string>)
    requires |level| > 0
    ensures |level| <= Pow2(Height(hash, level))
    ensures Height(hash, level) > 0 ==> Pow2(Height(hash, level) - 1) < |level|
    decreases |level|
  {
    if |level| > 1 {
      var next := NextLevel(hash, level);
      NextLevelLength(hash, level);
      HeightIsCeilLog2(hash, next);
    }
  }

  /** A single leaf is the root, unchanged. */
  lemma RootOfOne(hash: Hasher, a: string)
    ensures Root(hash, [a]) == a
  {
  }

  /** Two leaves: the root is the hash of their concatenation. */
  lemma RootOfTwo(hash: Hasher, a: string, b: string)
    ensures Root(hash, [a, b]) == hash(a + b)
  {
    assert NextLevel(hash, [a, b]) == [hash(a + b)];
  }

  /** Three leaves: the first level is [hash(a + b), c], with c carried up
    * unhashed, and the root hashes that pair. */
  lemma RootOfThree(hash: Hasher, a: string, b: string, c: string)
    ensures NextLevel(hash, [a, b, c]) == [hash(a + b), c]
    ensures Root(hash, [a, b, c]) == hash(hash(a + b) + c)
  {
    assert [a, b, c][2..] == [c];
    assert NextLevel(hash, [a, b, c]) == [hash(a + b), c];
    RootOfTwo(hash, hash(a + b), c);
  }

  /** Pairs are joined by plain concatenation, with no separator and no
    * length prefix, so different leaf orders can give the same root for
    * every hash: ["x", "xx"] and ["xx", "x"] both reduce to hash("xxx"). */
  lemma RootNotOrderSensitive(hash: Hasher)
    ensures ["x", "xx"] != ["xx", "x"]
    ensures Root(hash, ["x", "xx"]) == hash("xxx")
    ensures Root(hash, ["xx", "x"]) == hash("xxx")
  {
    RootOfTwo(hash, "x", "xx");
    RootOfTwo(hash, "xx", "x");
    assert "x" + "xx" == "xxx" == "xx" + "x";
  }

  /** The same happens one level up: ["p", "qr", "pq", "r"] and
    * ["pq", "r", "p", "qr"] both have the level [hash("pqr"), hash("pqr")]
    * above them, and so the same root. */
  lemma RootNotOrderSensitiveFour(hash: Hasher)
    ensures ["p", "qr", "pq", "r"] != ["pq", "r", "p", "qr"]
    ensures NextLevel(hash, ["p", "qr", "pq", "r"]) == [hash("pqr"), hash("pqr")]
    ensures NextLevel(hash, ["pq", "r", "p", "qr"]) == [hash("pqr"), hash("pqr")]
    ensures Root(hash, ["p", "qr", "pq", "r"]) == Root(hash, ["pq", "r", "p", "qr"])
  {
    var h := hash("pqr");
    assert "p" + "qr" == "pqr" && "pq" + "r" == "pqr";
    assert ["p", "qr", "pq", "r"][2..] == ["pq", "r"];
    assert ["pq", "r", "p", "qr"][2..] == ["p", "qr"];
    assert NextLevel(hash, ["pq", "r"]) == [h];
    assert NextLevel(hash, ["p", "qr"]) == [h];
    assert NextLevel(hash, ["p", "qr", "pq", "r"]) == [h, h];
    assert NextLevel(hash, ["pq", "r", "p", "qr"]) == [h, h];
  }

  /** Where order does matter: when two distinct leaves of equal length are
    * swapped and the root stays the same, the hash has a collision, since
    * the two concatenations differ but hash alike. */
  lemma {:induction false} RootSwapNeedsCollision(hash: Hasher, a: string, b: string)
    requires |a| == |b| && a != b
    requires Root(hash, [a, b]) == Root(hash, [b, a])
    ensures a + b != b + a
    ensures hash(a + b) == hash(b + a)
  {
    RootOfTwo(hash, a, b);
    RootOfTwo(hash, b, a);
    assert (a + b)[..|a|] == a && (b + a)[..|b|] == b;
  }
}
