/**
Writing and reading a part of a Merkle tree: what a proof that checks out says,
that a written proof checks out, and how long it is.
*/
module MerkleProof {
  import opened MerkleTree
  import opened Powers

  // ----- writing -----

  /** The flag bits and hashes written for a node. */
  datatype Written = Written(bits: seq<bool>, hashes: seq<Digest>)

  function Build(join: Joiner, txids: seq<Digest>, wanted: seq<bool>, height: nat, pos: nat): Written
    requires |wanted| == |txids| && Exists(|txids|, height, pos)
  {
    var n := |txids|;
    var below := Selected(wanted, height, pos);
    if height == 0 || !below then Written([below], [CalcHash(join, txids, height, pos)]) else
    LeavesSplit(n, height, pos);
    var left := Build(join, txids, wanted, height - 1, 2 * pos);
    if HasRight(n, height, pos) then
      var right := Build(join, txids, wanted, height - 1, 2 * pos + 1);
      Written([below] + left.bits + right.bits, left.hashes + right.hashes)
    else Written([below] + left.bits, left.hashes)
  }

  // ----- reading -----

  /** How far a reader is, what it has found, and whether it has met something wrong. */
  datatype Cursor = Cursor(bits: nat, hashes: nat, matches: seq<Digest>, indices: seq<nat>, bad: bool)

  const START := Cursor(0, 0, [], [], false)

  function Extract(join: Joiner, n: nat, w: Written, height: nat, pos: nat, c: Cursor): (r: (Digest, Cursor))
    ensures r.1.bits >= c.bits && r.1.hashes >= c.hashes
    ensures c.bad ==> r.1.bad
    ensures c.matches <= r.1.matches && c.indices <= r.1.indices
    ensures |r.1.matches| - |c.matches| == |r.1.indices| - |c.indices|
  {
    if c.bits >= |w.bits| then (NULL, c.(bad := true)) else
    var below := w.bits[c.bits];
    var c1 := c.(bits := c.bits + 1);
    if height == 0 || !below then
      if c1.hashes >= |w.hashes| then (NULL, c1.(bad := true)) else
      var hash := w.hashes[c1.hashes];
      var c2 := c1.(hashes := c1.hashes + 1);
      (hash, if height == 0 && below then c2.(matches := c2.matches + [hash], indices := c2.indices + [pos]) else c2)
    else
      var (left, c2) := Extract(join, n, w, height - 1, 2 * pos, c1);
      if HasRight(n, height, pos) then
        var (right, c3) := Extract(join, n, w, height - 1, 2 * pos + 1, c2);
        (join(left, right), if right == left then c3.(bad := true) else c3)
      else (join(left, left), c2)
  }

  /** One step of the reading. */
  lemma ExtractStep(join: Joiner, n: nat, w: Written, height: nat, pos: nat, c: Cursor)
    requires c.bits < |w.bits| && height > 0 && w.bits[c.bits]
    ensures var (left, c2) := Extract(join, n, w, height - 1, 2 * pos, c.(bits := c.bits + 1));
      Extract(join, n, w, height, pos, c) ==
        if HasRight(n, height, pos) then
          var (right, c3) := Extract(join, n, w, height - 1, 2 * pos + 1, c2);
          (join(left, right), if right == left then c3.(bad := true) else c3)
        else (join(left, left), c2)
  {
    hide HasRight;
  }

  /** A node that is not descended into. */
  lemma ExtractEnd(join: Joiner, n: nat, w: Written, height: nat, pos: nat, c: Cursor)
    requires c.bits >= |w.bits| || height == 0 || !w.bits[c.bits]
    ensures Extract(join, n, w, height, pos, c) ==
      if c.bits >= |w.bits| then (NULL, c.(bad := true))
      else if c.hashes >= |w.hashes| then (NULL, c.(bits := c.bits + 1, bad := true))
      else
        var hash, c2 := w.hashes[c.hashes], c.(bits := c.bits + 1, hashes := c.hashes + 1);
        (hash, if height == 0 && w.bits[c.bits]
               then c2.(matches := c2.matches + [hash], indices := c2.indices + [pos]) else c2)
  {
  }

  /** A reading that meets nothing wrong does not depend on what follows the bits and hashes it uses. */
  lemma {:induction false} ExtractPrefix(
      join: Joiner, n: nat, w: Written, u: Written, height: nat, pos: nat, c: Cursor)
    requires w.bits <= u.bits && w.hashes <= u.hashes
    requires !Extract(join, n, w, height, pos, c).1.bad
    ensures Extract(join, n, u, height, pos, c) == Extract(join, n, w, height, pos, c)
  {
    hide Extract, HasRight;
    if c.bits >= |w.bits| || height == 0 || !w.bits[c.bits] {
      ExtractEnd(join, n, w, height, pos, c);
      ExtractEnd(join, n, u, height, pos, c);
    } else {
      ExtractStep(join, n, w, height, pos, c);
      ExtractStep(join, n, u, height, pos, c);
      var c1 := c.(bits := c.bits + 1);
      ExtractPrefix(join, n, w, u, height - 1, 2 * pos, c1);
      if HasRight(n, height, pos) {
        ExtractPrefix(join, n, w, u, height - 1, 2 * pos + 1, Extract(join, n, w, height - 1, 2 * pos, c1).1);
      }
    }
  }

  // ----- a proof that gives the root gives the truth -----

  /** Two different pairs of hashes that join to the same hash. */
  predicate Collides(join: Joiner, left: Digest, right: Digest, trueLeft: Digest, trueRight: Digest) {
    (left, right) != (trueLeft, trueRight) && join(left, right) == join(trueLeft, trueRight)
  }

  /**
  The reading of a node exhibits a collision: at some inner node that is read on the way, the hashes
  read for its children are not those of the block and yet join to the same hash.
  */
  predicate Broken(join: Joiner, txids: seq<Digest>, w: Written, height: nat, pos: nat, c: Cursor)
    requires Exists(|txids|, height, pos)
    decreases height
  {
    height > 0 && c.bits < |w.bits| && w.bits[c.bits] &&
    (LeavesSplit(|txids|, height, pos);
     var n, c1 := |txids|, c.(bits := c.bits + 1);
     var (left, c2) := Extract(join, n, w, height - 1, 2 * pos, c1);
     var trueLeft := CalcHash(join, txids, height - 1, 2 * pos);
     || Broken(join, txids, w, height - 1, 2 * pos, c1)
     || (if HasRight(n, height, pos) then
           || Broken(join, txids, w, height - 1, 2 * pos + 1, c2)
           || Collides(join, left, Extract(join, n, w, height - 1, 2 * pos + 1, c2).0,
                       trueLeft, CalcHash(join, txids, height - 1, 2 * pos + 1))
         else Collides(join, left, left, trueLeft, trueLeft)))
  }

  /** The reports from place k on are leaves of a node, in ascending order, with the ids that are there. */
  ghost predicate Truthful(txids: seq<Digest>, c: Cursor, k: nat, lo: nat, hi: nat) {
    && |c.matches| == |c.indices|
    && (forall i :: k <= i < |c.indices| ==> lo <= c.indices[i] < hi <= |txids| && c.matches[i] == txids[c.indices[i]])
    && (forall i, j :: k <= i < j < |c.indices| ==> c.indices[i] < c.indices[j])
  }

  lemma TruthfulJoin(txids: seq<Digest>, c: Cursor, c': Cursor, k: nat, lo: nat, mid: nat, hi: nat)
    requires k <= |c.indices| && Truthful(txids, c, k, lo, mid)
    requires Truthful(txids, c', |c.indices|, mid, hi) && c.indices <= c'.indices && c.matches <= c'.matches
    requires lo <= mid <= hi <= |txids|
    ensures Truthful(txids, c', k, lo, hi)
  {
    forall i | k <= i < |c.indices|
      ensures c'.indices[i] == c.indices[i] && c'.matches[i] == c.matches[i]
    {
    }
  }

  /** Whatever the bits and hashes, a node read to its true hash reports only true leaves, or exhibits a collision. */
  lemma {:induction false} ExtractSound(join: Joiner, txids: seq<Digest>, w: Written, height: nat, pos: nat, c: Cursor)
    requires Exists(|txids|, height, pos) && |c.matches| == |c.indices|
    requires var (hash, c') := Extract(join, |txids|, w, height, pos, c);
      !c'.bad && hash == CalcHash(join, txids, height, pos)
    ensures var (hash, c') := Extract(join, |txids|, w, height, pos, c);
      || Broken(join, txids, w, height, pos, c)
      || Truthful(txids, c', |c.indices|, First(height, pos), Past(|txids|, height, pos))
  {
    hide CalcHash, Exists, Width, Pow2, Truthful, Extract;
    var n := |txids|;
    var c1 := c.(bits := c.bits + 1);
    if c.bits >= |w.bits| || height == 0 || !w.bits[c.bits] {
      ExtractEnd(join, n, w, height, pos, c);
      LeafTruthful(join, txids, w, height, pos, c);
    } else {
      ExtractStep(join, n, w, height, pos, c);
      LeavesSplit(n, height, pos);
      HashChildren(join, txids, height, pos);
      var (left, c2) := Extract(join, n, w, height - 1, 2 * pos, c1);
      var trueLeft := CalcHash(join, txids, height - 1, 2 * pos);
      if HasRight(n, height, pos) {
        var (right, c3) := Extract(join, n, w, height - 1, 2 * pos + 1, c2);
        var trueRight := CalcHash(join, txids, height - 1, 2 * pos + 1);
        assert join(left, right) == join(trueLeft, trueRight);
        if left == trueLeft && right == trueRight {
          ExtractSound(join, txids, w, height - 1, 2 * pos, c1);
          ExtractSound(join, txids, w, height - 1, 2 * pos + 1, c2);
          if !Broken(join, txids, w, height, pos, c) {
            TruthfulJoin(txids, c2, c3, |c.indices|, First(height, pos), Past(n, height - 1, 2 * pos),
              Past(n, height, pos));
          }
        }
      } else {
        assert join(left, left) == join(trueLeft, trueLeft);
        if left == trueLeft {
          ExtractSound(join, txids, w, height - 1, 2 * pos, c1);
        }
      }
    }
  }

  lemma LeafTruthful(join: Joiner, txids: seq<Digest>, w: Written, height: nat, pos: nat, c: Cursor)
    requires Exists(|txids|, height, pos) && |c.matches| == |c.indices|
    requires c.bits < |w.bits| && (height == 0 || !w.bits[c.bits])
    requires var (hash, c') := Extract(join, |txids|, w, height, pos, c);
      !c'.bad && hash == CalcHash(join, txids, height, pos)
    ensures var (hash, c') := Extract(join, |txids|, w, height, pos, c);
      Truthful(txids, c', |c.indices|, First(height, pos), Past(|txids|, height, pos))
  {
  }

  // ----- a written proof reads back -----

  /** The selected positions from lo to hi, ascending. */
  function Picks(wanted: seq<bool>, lo: nat, hi: nat): (q: seq<nat>)
    requires hi <= |wanted|
    ensures forall i :: 0 <= i < |q| ==> lo <= q[i] < hi && wanted[q[i]]
    decreases hi - lo
  {
    if lo >= hi then [] else
    (if wanted[lo] then [lo] else []) + Picks(wanted, lo + 1, hi)
  }

  /** The ids at the given positions. */
  function IdsAt(txids: seq<Digest>, q: seq<nat>): (r: seq<Digest>)
    requires forall i :: 0 <= i < |q| ==> q[i] < |txids|
    ensures |r| == |q| && forall i :: 0 <= i < |q| ==> r[i] == txids[q[i]]
  {
    seq(|q|, i requires 0 <= i < |q| => txids[q[i]])
  }

  lemma {:induction false} PicksSplit(wanted: seq<bool>, lo: nat, mid: nat, hi: nat)
    requires lo <= mid <= hi <= |wanted|
    ensures Picks(wanted, lo, hi) == Picks(wanted, lo, mid) + Picks(wanted, mid, hi)
    decreases mid - lo
  {
    if lo < mid {
      PicksSplit(wanted, lo + 1, mid, hi);
    }
  }

  lemma {:induction false} NoPicks(wanted: seq<bool>, lo: nat, hi: nat)
    requires hi <= |wanted|
    ensures Picks(wanted, lo, hi) == [] <==> !AnyMatch(wanted, lo, hi)
    decreases hi - lo
  {
    if lo < hi {
      NoPicks(wanted, lo + 1, hi);
    }
  }

  /** Some node above a selected leaf has two children with the same hash. */
  predicate Twins(join: Joiner, txids: seq<Digest>, wanted: seq<bool>, height: nat, pos: nat)
    requires |wanted| == |txids| && Exists(|txids|, height, pos)
  {
    height > 0 && Selected(wanted, height, pos) &&
    (LeavesSplit(|txids|, height, pos);
     || Twins(join, txids, wanted, height - 1, 2 * pos)
     || (HasRight(|txids|, height, pos) &&
         (Twins(join, txids, wanted, height - 1, 2 * pos + 1) ||
          CalcHash(join, txids, height - 1, 2 * pos) == CalcHash(join, txids, height - 1, 2 * pos + 1))))
  }

  /** What reading a whole written node does to a cursor. */
  function ReadOff(join: Joiner, txids: seq<Digest>, wanted: seq<bool>, height: nat, pos: nat, c: Cursor): Cursor
    requires |wanted| == |txids| && Exists(|txids|, height, pos)
  {
    var b := Build(join, txids, wanted, height, pos);
    var picks := Picks(wanted, First(height, pos), Past(|txids|, height, pos));
    Cursor(c.bits + |b.bits|, c.hashes + |b.hashes|, c.matches + IdsAt(txids, picks), c.indices + picks,
           c.bad || Twins(join, txids, wanted, height, pos))
  }

  /** The bits and hashes at a cursor start with those of a node. */
  predicate Ahead(w: Written, c: Cursor, b: Written) {
    c.bits <= |w.bits| && c.hashes <= |w.hashes| && b.bits <= w.bits[c.bits..] && b.hashes <= w.hashes[c.hashes..]
  }

  lemma AheadLeft(w: Written, c: Cursor, b: Written, left: Written, bits: seq<bool>, hashes: seq<Digest>)
    requires Ahead(w, c, b) && |b.bits| > 0
    requires b.bits == [b.bits[0]] + left.bits + bits && b.hashes == left.hashes + hashes
    ensures c.bits < |w.bits| && w.bits[c.bits] == b.bits[0]
    ensures Ahead(w, c.(bits := c.bits + 1), left)
    ensures Ahead(w, c.(bits := c.bits + 1 + |left.bits|, hashes := c.hashes + |left.hashes|), Written(bits, hashes))
  {
    PartsAhead(w.bits, c.bits, [b.bits[0]], left.bits + bits);
    PartsAhead(w.bits, c.bits + 1, left.bits, bits);
    PartsAhead(w.hashes, c.hashes, left.hashes, hashes);
    assert b.bits == [b.bits[0]] + (left.bits + bits);
  }

  /** What starts with two parts goes on with the second after the first. */
  lemma PartsAhead<T>(q: seq<T>, k: nat, a: seq<T>, b: seq<T>)
    ensures k <= |q| && a + b <= q[k..] ==> k + |a| <= |q| && a <= q[k..] && b <= q[k + |a|..]
  {
    if k <= |q| && a + b <= q[k..] {
      assert forall i :: 0 <= i < |a| ==> a[i] == (a + b)[i] == q[k..][i];
      assert forall i :: 0 <= i < |b| ==> b[i] == (a + b)[|a| + i] == q[k..][|a| + i] == q[k + |a|..][i];
    }
  }

  lemma IdsAtJoin(txids: seq<Digest>, p: seq<nat>, q: seq<nat>)
    requires (forall i :: 0 <= i < |p| ==> p[i] < |txids|) && (forall i :: 0 <= i < |q| ==> q[i] < |txids|)
    ensures IdsAt(txids, p + q) == IdsAt(txids, p) + IdsAt(txids, q)
  {
  }

  /** What a node reports that is not descended into. */
  lemma LeafPicks(txids: seq<Digest>, wanted: seq<bool>, height: nat, pos: nat)
    requires |wanted| == |txids| && Exists(|txids|, height, pos)
    requires height == 0 || !Selected(wanted, height, pos)
    ensures var picks := Picks(wanted, First(height, pos), Past(|txids|, height, pos));
      if height == 0 && Selected(wanted, height, pos) then picks == [pos] && IdsAt(txids, picks) == [txids[pos]]
      else picks == [] && IdsAt(txids, picks) == []
  {
    NoPicks(wanted, First(height, pos), Past(|txids|, height, pos));
  }

  lemma LeafBuilt(join: Joiner, txids: seq<Digest>, wanted: seq<bool>, w: Written, height: nat, pos: nat, c: Cursor)
    requires |wanted| == |txids| && Exists(|txids|, height, pos)
    requires Ahead(w, c, Build(join, txids, wanted, height, pos))
    requires height == 0 || !Selected(wanted, height, pos)
    ensures Extract(join, |txids|, w, height, pos, c) ==
              (CalcHash(join, txids, height, pos), ReadOff(join, txids, wanted, height, pos, c))
  {
    hide CalcHash, Selected, Picks, IdsAt, First, Past;
    var b := Build(join, txids, wanted, height, pos);
    LeafPicks(txids, wanted, height, pos);
    assert w.bits[c.bits] == w.bits[c.bits..][0] == b.bits[0];
    assert w.hashes[c.hashes] == w.hashes[c.hashes..][0] == b.hashes[0];
    LeafHash(join, txids, pos, height);
    assert c.matches + [] == c.matches && c.indices + [] == c.indices;
  }

  lemma LeafHash(join: Joiner, txids: seq<Digest>, pos: nat, height: nat)
    requires Exists(|txids|, height, pos)
    ensures height == 0 ==> pos < |txids| && CalcHash(join, txids, height, pos) == txids[pos]
  {
  }

  /** The cursor after an inner node is the cursor after its children, but for its flag and the test for twins. */
  lemma ReadOffChildren(join: Joiner, txids: seq<Digest>, wanted: seq<bool>, height: nat, pos: nat, c: Cursor)
    requires |wanted| == |txids| && Exists(|txids|, height, pos)
    requires height > 0 && Selected(wanted, height, pos)
    ensures Exists(|txids|, height - 1, 2 * pos)
    ensures var n, whole := |txids|, ReadOff(join, txids, wanted, height, pos, c);
      var c1 := ReadOff(join, txids, wanted, height - 1, 2 * pos, c.(bits := c.bits + 1));
      if HasRight(n, height, pos) then
        Exists(n, height - 1, 2 * pos + 1) &&
        var c2 := ReadOff(join, txids, wanted, height - 1, 2 * pos + 1, c1);
        whole == c2.(bad := c2.bad ||
          CalcHash(join, txids, height - 1, 2 * pos + 1) == CalcHash(join, txids, height - 1, 2 * pos))
      else whole == c1
  {
    hide CalcHash, Selected, Picks, IdsAt, First, Past, Width, Pow2;
    var n := |txids|;
    LeavesSplit(n, height, pos);
    if HasRight(n, height, pos) {
      PicksChildren(txids, wanted, height, pos);
    }
  }

  lemma PicksChildren(txids: seq<Digest>, wanted: seq<bool>, height: nat, pos: nat)
    requires |wanted| == |txids| && Exists(|txids|, height, pos) && height > 0 && HasRight(|txids|, height, pos)
    ensures var n := |txids|;
      var left := Picks(wanted, First(height - 1, 2 * pos), Past(n, height - 1, 2 * pos));
      var right := Picks(wanted, First(height - 1, 2 * pos + 1), Past(n, height - 1, 2 * pos + 1));
      var picks := Picks(wanted, First(height, pos), Past(n, height, pos));
      picks == left + right && IdsAt(txids, picks) == IdsAt(txids, left) + IdsAt(txids, right)
  {
    var n := |txids|;
    LeavesSplit(n, height, pos);
    hide First, Past, Width, Pow2, Picks;
    var lo, mid, hi := First(height, pos), Past(n, height - 1, 2 * pos), Past(n, height, pos);
    PicksSplit(wanted, lo, mid, hi);
    IdsAtJoin(txids, Picks(wanted, lo, mid), Picks(wanted, mid, hi));
  }

  /**
  Reading what was written of a node gives its hash, its selected leaves, and an objection exactly if it has
  twins.
  */
  lemma {:induction false} ExtractBuilt(
      join: Joiner, txids: seq<Digest>, wanted: seq<bool>, w: Written, height: nat, pos: nat, c: Cursor)
    requires |wanted| == |txids| && Exists(|txids|, height, pos)
    requires Ahead(w, c, Build(join, txids, wanted, height, pos))
    ensures Extract(join, |txids|, w, height, pos, c) ==
              (CalcHash(join, txids, height, pos), ReadOff(join, txids, wanted, height, pos, c))
  {
    hide Selected, ReadOff, Ahead, CalcHash, Build, Exists, Width, Pow2, Extract;
    var n := |txids|;
    if height == 0 || !Selected(wanted, height, pos) {
      LeafBuilt(join, txids, wanted, w, height, pos, c);
    } else {
      LeavesSplit(n, height, pos);
      ReadOffChildren(join, txids, wanted, height, pos, c);
      HashChildren(join, txids, height, pos);
      BuildChildren(join, txids, wanted, height, pos);
      var b := Build(join, txids, wanted, height, pos);
      var left := Build(join, txids, wanted, height - 1, 2 * pos);
      var c1 := c.(bits := c.bits + 1);
      if HasRight(n, height, pos) {
        var right := Build(join, txids, wanted, height - 1, 2 * pos + 1);
        AheadLeft(w, c, b, left, right.bits, right.hashes);
        ExtractStep(join, n, w, height, pos, c);
        ExtractBuilt(join, txids, wanted, w, height - 1, 2 * pos, c1);
        ReadOffMoves(join, txids, wanted, height - 1, 2 * pos, c1, w, right);
        ExtractBuilt(join, txids, wanted, w, height - 1, 2 * pos + 1,
          ReadOff(join, txids, wanted, height - 1, 2 * pos, c1));
      } else {
        AheadLeft(w, c, b, left, [], []);
        ExtractStep(join, n, w, height, pos, c);
        ExtractBuilt(join, txids, wanted, w, height - 1, 2 * pos, c1);
      }
    }
  }

  /** Reading what was written of a node never exhibits a collision. */
  lemma {:induction false} BuiltNotBroken(
      join: Joiner, txids: seq<Digest>, wanted: seq<bool>, w: Written, height: nat, pos: nat, c: Cursor)
    requires |wanted| == |txids| && Exists(|txids|, height, pos)
    requires Ahead(w, c, Build(join, txids, wanted, height, pos))
    ensures !Broken(join, txids, w, height, pos, c)
  {
    hide Selected, ReadOff, Ahead, CalcHash, Build, Exists, Width, Pow2, Extract;
    var n := |txids|;
    if height == 0 || !Selected(wanted, height, pos) {
      LeafFlag(join, txids, wanted, w, height, pos, c);
    } else {
      LeavesSplit(n, height, pos);
      BuildChildren(join, txids, wanted, height, pos);
      var b := Build(join, txids, wanted, height, pos);
      var left := Build(join, txids, wanted, height - 1, 2 * pos);
      var c1 := c.(bits := c.bits + 1);
      if HasRight(n, height, pos) {
        var right := Build(join, txids, wanted, height - 1, 2 * pos + 1);
        AheadLeft(w, c, b, left, right.bits, right.hashes);
        ExtractBuilt(join, txids, wanted, w, height - 1, 2 * pos, c1);
        BuiltNotBroken(join, txids, wanted, w, height - 1, 2 * pos, c1);
        var c2 := ReadOff(join, txids, wanted, height - 1, 2 * pos, c1);
        ReadOffMoves(join, txids, wanted, height - 1, 2 * pos, c1, w, right);
        ExtractBuilt(join, txids, wanted, w, height - 1, 2 * pos + 1, c2);
        BuiltNotBroken(join, txids, wanted, w, height - 1, 2 * pos + 1, c2);
      } else {
        AheadLeft(w, c, b, left, [], []);
        ExtractBuilt(join, txids, wanted, w, height - 1, 2 * pos, c1);
        BuiltNotBroken(join, txids, wanted, w, height - 1, 2 * pos, c1);
      }
    }
  }

  lemma LeafFlag(join: Joiner, txids: seq<Digest>, wanted: seq<bool>, w: Written, height: nat, pos: nat, c: Cursor)
    requires |wanted| == |txids| && Exists(|txids|, height, pos)
    requires Ahead(w, c, Build(join, txids, wanted, height, pos))
    requires height == 0 || !Selected(wanted, height, pos)
    ensures height > 0 ==> c.bits < |w.bits| && !w.bits[c.bits]
  {
    var b := Build(join, txids, wanted, height, pos);
    assert w.bits[c.bits] == w.bits[c.bits..][0] == b.bits[0];
  }

  lemma HashChildren(join: Joiner, txids: seq<Digest>, height: nat, pos: nat)
    requires Exists(|txids|, height, pos) && height > 0
    ensures Exists(|txids|, height - 1, 2 * pos)
    ensures HasRight(|txids|, height, pos) ==> Exists(|txids|, height - 1, 2 * pos + 1)
    ensures CalcHash(join, txids, height, pos) ==
              var left := CalcHash(join, txids, height - 1, 2 * pos);
              join(left, if HasRight(|txids|, height, pos) then CalcHash(join, txids, height - 1, 2 * pos + 1)
                else left)
  {
    LeavesSplit(|txids|, height, pos);
  }

  lemma BuildChildren(join: Joiner, txids: seq<Digest>, wanted: seq<bool>, height: nat, pos: nat)
    requires |wanted| == |txids| && Exists(|txids|, height, pos) && height > 0 && Selected(wanted, height, pos)
    ensures Exists(|txids|, height - 1, 2 * pos)
    ensures HasRight(|txids|, height, pos) ==> Exists(|txids|, height - 1, 2 * pos + 1)
    ensures var b, left := Build(join, txids, wanted, height, pos), Build(join, txids, wanted, height - 1, 2 * pos);
      var right := if HasRight(|txids|, height, pos) then Build(join, txids, wanted, height - 1, 2 * pos + 1)
                   else Written([], []);
      b.bits == [true] + left.bits + right.bits && b.hashes == left.hashes + right.hashes
  {
    hide Selected;
    LeavesSplit(|txids|, height, pos);
  }

  lemma ReadOffMoves(
      join: Joiner, txids: seq<Digest>, wanted: seq<bool>, height: nat, pos: nat, c: Cursor, w: Written, next: Written)
    requires |wanted| == |txids| && Exists(|txids|, height, pos)
    requires var b := Build(join, txids, wanted, height, pos);
      Ahead(w, c.(bits := c.bits + |b.bits|, hashes := c.hashes + |b.hashes|), next)
    ensures Ahead(w, ReadOff(join, txids, wanted, height, pos, c), next)
  {
  }

  // ----- how long a proof is -----

  /** How many leaves are selected between two positions. */
  function Count(wanted: seq<bool>, lo: nat, hi: nat): nat
    requires hi <= |wanted|
  {
    |Picks(wanted, lo, hi)|
  }

  lemma CountChildren(wanted: seq<bool>, height: nat, pos: nat)
    requires height > 0 && Exists(|wanted|, height, pos)
    ensures var n := |wanted|;
      Count(wanted, First(height, pos), Past(n, height, pos)) ==
        Count(wanted, First(height - 1, 2 * pos), Past(n, height - 1, 2 * pos)) +
        if HasRight(n, height, pos) then Count(wanted, First(height - 1, 2 * pos + 1), Past(n, height - 1, 2 * pos + 1))
            else 0
  {
    var n := |wanted|;
    LeavesSplit(n, height, pos);
    if HasRight(n, height, pos) {
      PicksSplit(wanted, First(height, pos), Past(n, height - 1, 2 * pos), Past(n, height, pos));
    }
  }

  /** At most one hash is stored per leaf, and at most one per level and selected leaf, plus one. */
  lemma {:induction false} HashesBound(join: Joiner, txids: seq<Digest>, wanted: seq<bool>, height: nat, pos: nat)
    requires |wanted| == |txids| && Exists(|txids|, height, pos)
    ensures var n, hashes := |txids|, |Build(join, txids, wanted, height, pos).hashes|;
      && 1 <= hashes <= Past(n, height, pos) - First(height, pos)
      && hashes <= 1 + Count(wanted, First(height, pos), Past(n, height, pos)) * height
  {
    hide Exists, Width, Pow2, First, Past, CalcHash, Count;
    var n := |txids|;
    if height == 0 || !Selected(wanted, height, pos) {
      LeafHashes(join, txids, wanted, height, pos);
    } else {
      LeavesSplit(n, height, pos);
      BuildChildren(join, txids, wanted, height, pos);
      CountChildren(wanted, height, pos);
      SelectedCounts(wanted, height, pos);
      HashesBound(join, txids, wanted, height - 1, 2 * pos);
      var left := Count(wanted, First(height - 1, 2 * pos), Past(n, height - 1, 2 * pos));
      if HasRight(n, height, pos) {
        HashesBound(join, txids, wanted, height - 1, 2 * pos + 1);
        var right := Count(wanted, First(height - 1, 2 * pos + 1), Past(n, height - 1, 2 * pos + 1));
        Distribute(left, right, height);
      } else {
        Distribute(left, 0, height);
      }
    }
  }

  lemma Distribute(a: nat, b: nat, h: nat)
    requires h > 0
    ensures (a + b) * h == a * (h - 1) + b * (h - 1) + a + b
  {
  }

  lemma LeafHashes(join: Joiner, txids: seq<Digest>, wanted: seq<bool>, height: nat, pos: nat)
    requires |wanted| == |txids| && Exists(|txids|, height, pos)
    requires height == 0 || !Selected(wanted, height, pos)
    ensures |Build(join, txids, wanted, height, pos).hashes| == 1 == |Build(join, txids, wanted, height, pos).bits|
    ensures First(height, pos) < Past(|txids|, height, pos)
    ensures 0 <= Count(wanted, First(height, pos), Past(|txids|, height, pos)) * height
  {
  }

  lemma SelectedCounts(wanted: seq<bool>, height: nat, pos: nat)
    requires Selected(wanted, height, pos)
    ensures Count(wanted, First(height, pos), Past(|wanted|, height, pos)) >= 1
  {
    NoPicks(wanted, First(height, pos), Past(|wanted|, height, pos));
  }

  /** How many nodes with a single child are descended into. */
  function Lone(wanted: seq<bool>, height: nat, pos: nat): nat
    requires Exists(|wanted|, height, pos)
  {
    if height == 0 || !Selected(wanted, height, pos) then 0 else
    LeavesSplit(|wanted|, height, pos);
    if HasRight(|wanted|, height, pos)
    then Lone(wanted, height - 1, 2 * pos) + Lone(wanted, height - 1, 2 * pos + 1)
    else 1 + Lone(wanted, height - 1, 2 * pos)
  }

  /** There are two bits per hash, less one, plus one for every single child. */
  lemma {:induction false} BitsCount(join: Joiner, txids: seq<Digest>, wanted: seq<bool>, height: nat, pos: nat)
    requires |wanted| == |txids| && Exists(|txids|, height, pos)
    ensures var b := Build(join, txids, wanted, height, pos);
      |b.bits| == 2 * |b.hashes| - 1 + Lone(wanted, height, pos)
  {
    hide Exists, Width, Pow2, First, Past, CalcHash, Selected, Build;
    var n := |txids|;
    if height == 0 || !Selected(wanted, height, pos) {
      LeafHashes(join, txids, wanted, height, pos);
    } else {
      LeavesSplit(n, height, pos);
      BuildChildren(join, txids, wanted, height, pos);
      BitsCount(join, txids, wanted, height - 1, 2 * pos);
      if HasRight(n, height, pos) {
        BitsCount(join, txids, wanted, height - 1, 2 * pos + 1);
      }
    }
  }
}
