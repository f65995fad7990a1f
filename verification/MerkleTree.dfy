/**
The Merkle tree over a list of transaction ids, and the traversals that write
and read a part of it.

A node is given by its height and its position at that height. It exists when
its leftmost leaf does. The hash that joins two children is an unknown function.
*/
module MerkleTree {
  import opened Powers

  type Digest = nat
  const NULL: Digest := 0

  type Joiner = (Digest, Digest) -> Digest

  /** How many nodes there are at a height over n leaves. */
  function Width(n: nat, height: nat): nat {
    (n + Pow2(height) - 1) / Pow2(height)
  }

  /** A node exists when it has a leaf. */
  predicate Exists(n: nat, height: nat, pos: nat) {
    pos * Pow2(height) < n
  }

  /** The width counts the existing nodes of a height. */
  lemma WidthCounts(n: nat, height: nat, pos: nat)
    ensures pos < Width(n, height) <==> Exists(n, height, pos)
  {
    var p := Pow2(height);
    var w := Width(n, height);
    assert w * p <= n + p - 1 < (w + 1) * p;
    if pos < w {
      assert (pos + 1) * p <= w * p;
    } else {
      assert w * p <= pos * p;
    }
  }

  /** The left child of an existing node exists, and has the same leftmost leaf. */
  lemma Children(n: nat, height: nat, pos: nat)
    requires height > 0
    ensures 2 * pos * Pow2(height - 1) == pos * Pow2(height)
    ensures (2 * pos + 1) * Pow2(height - 1) == pos * Pow2(height) + Pow2(height - 1)
    ensures Exists(n, height, pos) <==> Exists(n, height - 1, 2 * pos)
    ensures (pos + 1) * Pow2(height) == (2 * pos + 1 + 1) * Pow2(height - 1)
  {
  }

  predicate HasRight(n: nat, height: nat, pos: nat)
    requires height > 0
  {
    2 * pos + 1 < Width(n, height - 1)
  }

  /** The hash of a node: a transaction id, or its children's hashes joined, a lone child with itself. */
  function CalcHash(join: Joiner, txids: seq<Digest>, height: nat, pos: nat): Digest
    requires Exists(|txids|, height, pos)
  {
    if height == 0 then txids[pos] else
    Children(|txids|, height, pos);
    WidthCounts(|txids|, height - 1, 2 * pos + 1);
    var left := CalcHash(join, txids, height - 1, 2 * pos);
    var right := if HasRight(|txids|, height, pos) then CalcHash(join, txids, height - 1, 2 * pos + 1) else left;
    join(left, right)
  }

  // ----- the leaves of a node -----

  function First(height: nat, pos: nat): nat {
    pos * Pow2(height)
  }

  /** One past the last leaf of a node. */
  function Past(n: nat, height: nat, pos: nat): (r: nat)
    ensures r <= n
  {
    var p := (pos + 1) * Pow2(height);
    if p < n then p else n
  }

  /** Whether a leaf is selected between two positions. */
  predicate AnyMatch(wanted: seq<bool>, lo: nat, hi: nat)
    requires hi <= |wanted|
    decreases hi - lo
  {
    lo < hi && (wanted[lo] || AnyMatch(wanted, lo + 1, hi))
  }

  lemma {:induction false} AnyMatchSplit(wanted: seq<bool>, lo: nat, mid: nat, hi: nat)
    requires lo <= mid <= hi <= |wanted|
    ensures AnyMatch(wanted, lo, hi) <==> AnyMatch(wanted, lo, mid) || AnyMatch(wanted, mid, hi)
    decreases mid - lo
  {
    if lo < mid {
      AnyMatchSplit(wanted, lo + 1, mid, hi);
    }
  }

  predicate Selected(wanted: seq<bool>, height: nat, pos: nat) {
    AnyMatch(wanted, First(height, pos), Past(|wanted|, height, pos))
  }

  /** The leaves of a node are those of its children in order. */
  lemma LeavesSplit(n: nat, height: nat, pos: nat)
    requires height > 0 && Exists(n, height, pos)
    ensures First(height - 1, 2 * pos) == First(height, pos)
    ensures HasRight(n, height, pos) ==>
              Exists(n, height - 1, 2 * pos + 1) &&
              Past(n, height - 1, 2 * pos) == First(height - 1, 2 * pos + 1) &&
              Past(n, height - 1, 2 * pos + 1) == Past(n, height, pos)
    ensures !HasRight(n, height, pos) ==> Past(n, height - 1, 2 * pos) == Past(n, height, pos)
    ensures First(height, pos) < Past(n, height, pos) <= n
    ensures Exists(n, height - 1, 2 * pos)
  {
    Children(n, height, pos);
    WidthCounts(n, height - 1, 2 * pos + 1);
  }

  // ----- the height of the tree -----

  /** The positions of a height that have a left child are those at twice the position below. */
  lemma WidthHalves(n: nat, height: nat)
    ensures Width(n, height + 1) == (Width(n, height) + 1) / 2
  {
    hide Width, Exists;
    var w, v := Width(n, height), Width(n, height + 1);
    var half := (w + 1) / 2;
    Below(n, height, half);
    if half > 0 { Below(n, height, half - 1); }
  }

  lemma Below(n: nat, height: nat, pos: nat)
    ensures pos < Width(n, height + 1) <==> 2 * pos < Width(n, height)
  {
    WidthCounts(n, height + 1, pos);
    WidthCounts(n, height, 2 * pos);
    Children(n, height + 1, pos);
  }

  /** The least height from the given one on with at most one node. */
  function HeightFrom(n: nat, height: nat): (h: nat)
    ensures h >= height && Width(n, h) <= 1
    decreases Width(n, height)
  {
    WidthHalves(n, height);
    if Width(n, height) > 1 then HeightFrom(n, height + 1) else height
  }

  function Height(n: nat): nat {
    HeightFrom(n, 0)
  }

  /** The node at the top covers all leaves. */
  lemma RootCovers(n: nat)
    requires n > 0
    ensures Exists(n, Height(n), 0)
    ensures First(Height(n), 0) == 0 && Past(n, Height(n), 0) == n
  {
    WidthCounts(n, Height(n), 1);
  }

  /** Every height below the top has more than one node. */
  lemma {:induction false} HeightIsLeast(n: nat, height: nat)
    ensures HeightFrom(n, height) > height ==> Width(n, HeightFrom(n, height) - 1) > 1
    decreases Width(n, height)
  {
    hide Width;
    WidthHalves(n, height);
    if Width(n, height) > 1 {
      HeightIsLeast(n, height + 1);
    }
  }

  lemma {:induction false} Pow2Exceeds(n: nat)
    ensures Pow2(n) > n
  {
    if n > 0 {
      Pow2Exceeds(n - 1);
    }
  }

  /** A tree has at most as many levels above its leaves as it has leaves. */
  lemma HeightBound(n: nat)
    ensures Height(n) <= n
  {
    HeightIsLeast(n, 0);
    if Height(n) > 0 {
      WidthCounts(n, Height(n) - 1, 1);
      Pow2Exceeds(Height(n) - 1);
    }
  }
}
