/**
The Merkle root as a block header has it, computed row by row from the
transaction ids, and what it has to do with the tree that proofs are read from.
*/
module MerkleRoot {
  import opened Powers
  import opened MerkleTree
  import opened MerkleProof
  import opened MerkleBlock

  /** A row's hashes joined in pairs, a last one without a partner with itself. */
  function Joined(join: Joiner, row: seq<Digest>): (r: seq<Digest>)
    ensures |r| == (|row| + 1) / 2
    ensures forall i :: 0 <= i < |r| ==> r[i] == join(row[2 * i], row[if 2 * i + 1 < |row| then 2 * i + 1 else 2 * i])
  {
    seq((|row| + 1) / 2, i requires 0 <= i < (|row| + 1) / 2 =>
      join(row[2 * i], row[if 2 * i + 1 < |row| then 2 * i + 1 else 2 * i]))
  }

  /** The row at a height over the transaction ids. */
  function Row(join: Joiner, txids: seq<Digest>, height: nat): (row: seq<Digest>)
    ensures |row| == Width(|txids|, height)
  {
    if height == 0 then txids else
    WidthHalves(|txids|, height - 1);
    Joined(join, Row(join, txids, height - 1))
  }

  lemma RowStep(join: Joiner, txids: seq<Digest>, height: nat)
    ensures Row(join, txids, 0) == txids && Row(join, txids, height + 1) == Joined(join, Row(join, txids, height))
  {
  }

  /** A row has the hashes of the tree's nodes at its height. */
  lemma {:induction false} RowIsNodes(join: Joiner, txids: seq<Digest>, height: nat, pos: nat)
    requires pos < |Row(join, txids, height)|
    ensures Exists(|txids|, height, pos) && Row(join, txids, height)[pos] == CalcHash(join, txids, height, pos)
  {
    hide Exists, Width;
    WidthCounts(|txids|, height, pos);
    if height == 0 {
      LeafHash(join, txids, pos, height);
    } else {
      var below := Row(join, txids, height - 1);
      WidthHalves(|txids|, height - 1);
      RowIsNodes(join, txids, height - 1, 2 * pos);
      if 2 * pos + 1 < |below| { RowIsNodes(join, txids, height - 1, 2 * pos + 1); }
      LeavesSplit(|txids|, height, pos);
      HashChildren(join, txids, height, pos);
    }
  }

  /** The i-th pair of a row is of two equal hashes. */
  predicate EqualAt(row: seq<Digest>, i: nat) {
    2 * i + 1 < |row| && row[2 * i] == row[2 * i + 1]
  }

  /** A row with two equal hashes that are joined with each other. */
  ghost predicate EqualPair(row: seq<Digest>) {
    exists i: nat :: EqualAt(row, i)
  }

  ghost predicate EqualIn(join: Joiner, txids: seq<Digest>, height: nat) {
    EqualPair(Row(join, txids, height))
  }

  /** Some two children of one node have the same hash. */
  ghost predicate EqualSiblings(join: Joiner, txids: seq<Digest>) {
    exists height: nat :: EqualIn(join, txids, height)
  }

  method JoinRow(join: Joiner, row: seq<Digest>) returns (r: seq<Digest>)
    ensures r == Joined(join, row)
  {
    var hashes := row;
    if |hashes| % 2 == 1 {
      hashes := hashes + [hashes[|hashes| - 1]];
    }
    r := [];
    for i := 0 to |hashes| / 2
      invariant r == Joined(join, row)[..i]
    {
      assert hashes[2 * i] == row[2 * i];
      r := r + [join(hashes[2 * i], hashes[2 * i + 1])];
    }
  }

  method HasEqualPair(hashes: seq<Digest>) returns (found: bool)
    ensures found <==> EqualPair(hashes)
  {
    found := false;
    var pos := 0;
    while pos + 1 < |hashes|
      invariant 0 <= pos && pos % 2 == 0
      invariant found <==> exists i: nat :: 2 * i < pos && EqualAt(hashes, i)
    {
      if hashes[pos] == hashes[pos + 1] {
        assert EqualAt(hashes, pos / 2);
        found := true;
      }
      pos := pos + 2;
    }
  }

  /** Above a row of at most one hash there are only such rows. */
  lemma {:induction false} NarrowAbove(n: nat, height: nat, h: nat)
    requires Width(n, height) <= 1 && height <= h
    ensures Width(n, h) <= 1
    decreases h
  {
    hide Width;
    if height < h {
      NarrowAbove(n, height, h - 1);
      WidthHalves(n, h - 1);
    }
  }

  lemma NarrowRow(join: Joiner, leaves: seq<Digest>, height: nat, h: nat)
    requires |Row(join, leaves, height)| <= 1 && height <= h
    ensures !EqualIn(join, leaves, h)
  {
    hide Row, Width;
    NarrowAbove(|leaves|, height, h);
  }

  lemma LeafExists(n: nat, height: nat)
    ensures Exists(n, height, 0) <==> n > 0
  {
  }

  lemma TopRow(join: Joiner, leaves: seq<Digest>, height: nat)
    requires |Row(join, leaves, height)| <= 1 && HeightFrom(|leaves|, height) == Height(|leaves|)
    ensures leaves != [] ==> |Row(join, leaves, height)| == 1 && Row(join, leaves, height)[0] == Root(join, leaves)
    ensures leaves == [] ==> |Row(join, leaves, height)| == 0
    ensures EqualSiblings(join, leaves) <==> exists h: nat :: h < height && EqualIn(join, leaves, h)
  {
    hide Row, CalcHash, Width, Exists;
    WidthCounts(|leaves|, height, 0);
    LeafExists(|leaves|, height);
    if leaves != [] { RowIsNodes(join, leaves, height, 0); }
    if EqualSiblings(join, leaves) {
      var h: nat :| EqualIn(join, leaves, h);
      if height <= h { NarrowRow(join, leaves, height, h); }
    }
  }

  /** The root of the proof tree is the root of the header, and the flag says whether siblings are equal. */
  method ComputeMerkleRoot(join: Joiner, leaves: seq<Digest>) returns (root: Digest, mutated: bool)
    ensures leaves == [] ==> root == NULL
    ensures leaves != [] ==> root == Root(join, leaves)
    ensures mutated <==> EqualSiblings(join, leaves)
  {
    hide Row, CalcHash, Width, Exists, EqualPair, EqualSiblings, Root;
    var hashes, mutation := leaves, false;
    RowStep(join, leaves, 0);
    ghost var height := 0;
    while |hashes| > 1
      invariant hashes == Row(join, leaves, height) && HeightFrom(|leaves|, height) == Height(|leaves|)
      invariant mutation <==> exists h: nat :: h < height && EqualIn(join, leaves, h)
      decreases |hashes|
    {
      var found := HasEqualPair(hashes);
      assert found <==> EqualIn(join, leaves, height);
      mutation := mutation || found;
      RowStep(join, leaves, height);
      hashes := JoinRow(join, hashes);
      height := height + 1;
    }
    mutated := mutation;
    TopRow(join, leaves, height);
    root := if |hashes| == 0 then NULL else hashes[0];
  }

  // ----- blocks whose proofs can fail -----

  function All(n: nat): (wanted: seq<bool>)
    ensures |wanted| == n && forall i :: 0 <= i < n ==> wanted[i]
  {
    seq(n, i => true)
  }

  /** Two children of one node of the tree have the same hash. */
  lemma SiblingsInRow(join: Joiner, txids: seq<Digest>, height: nat, pos: nat)
    requires height > 0 && Exists(|txids|, height, pos) && HasRight(|txids|, height, pos)
    requires Exists(|txids|, height - 1, 2 * pos) && Exists(|txids|, height - 1, 2 * pos + 1)
    ensures CalcHash(join, txids, height - 1, 2 * pos) == CalcHash(join, txids, height - 1, 2 * pos + 1) ==>
              EqualSiblings(join, txids)
  {
    hide CalcHash, Exists, Width, Row;
    var row := Row(join, txids, height - 1);
    RowIsNodes(join, txids, height - 1, 2 * pos);
    RowIsNodes(join, txids, height - 1, 2 * pos + 1);
    if EqualAt(row, pos) { assert EqualIn(join, txids, height - 1); }
  }

  lemma {:induction false} TwinsAreSiblings(
      join: Joiner, txids: seq<Digest>, wanted: seq<bool>, height: nat, pos: nat)
    requires |wanted| == |txids| && Exists(|txids|, height, pos) && Twins(join, txids, wanted, height, pos)
    ensures EqualSiblings(join, txids)
  {
    hide CalcHash, Exists, Width, Selected, EqualSiblings;
    LeavesSplit(|txids|, height, pos);
    if Twins(join, txids, wanted, height - 1, 2 * pos) {
      TwinsAreSiblings(join, txids, wanted, height - 1, 2 * pos);
    } else if Twins(join, txids, wanted, height - 1, 2 * pos + 1) {
      TwinsAreSiblings(join, txids, wanted, height - 1, 2 * pos + 1);
    } else {
      SiblingsInRow(join, txids, height, pos);
    }
  }

  /** Every node of the tree is above a leaf. */
  lemma AllSelected(n: nat, height: nat, pos: nat)
    requires Exists(n, height, pos)
    ensures Selected(All(n), height, pos)
  {
    assert (pos + 1) * Pow2(height) > pos * Pow2(height);
  }

  lemma {:induction false} TwinsReachTop(join: Joiner, txids: seq<Digest>, height: nat, pos: nat)
    requires Exists(|txids|, height, pos) && Twins(join, txids, All(|txids|), height, pos)
    requires HeightFrom(|txids|, height) == Height(|txids|)
    ensures Ambiguous(join, txids, All(|txids|))
    decreases Width(|txids|, height)
  {
    hide CalcHash, Exists, Width, Selected, Twins;
    var n := |txids|;
    WidthCounts(n, height, pos);
    WidthHalves(n, height);
    if Width(n, height) > 1 {
      Children(n, height + 1, pos / 2);
      WidthCounts(n, height + 1, pos / 2);
      AllSelected(n, height + 1, pos / 2);
      TwinsOneUp(join, txids, height, pos);
      TwinsReachTop(join, txids, height + 1, pos / 2);
    }
  }

  lemma TwinsOneUp(join: Joiner, txids: seq<Digest>, height: nat, pos: nat)
    requires Exists(|txids|, height, pos) && Twins(join, txids, All(|txids|), height, pos)
    requires Exists(|txids|, height + 1, pos / 2)
    ensures Twins(join, txids, All(|txids|), height + 1, pos / 2)
  {
    hide CalcHash, Exists, Width, Selected;
    AllSelected(|txids|, height + 1, pos / 2);
    LeavesSplit(|txids|, height + 1, pos / 2);
    WidthCounts(|txids|, height, pos);
  }

  lemma {:induction false} HeightThrough(n: nat, height: nat, h: nat)
    requires height <= h && Width(n, h) > 1
    ensures HeightFrom(n, height) == HeightFrom(n, h + 1)
    decreases h - height
  {
    hide Width;
    if Width(n, height) <= 1 { NarrowAbove(n, height, h); }
    if height < h { HeightThrough(n, height + 1, h); }
  }

  lemma PairIsRight(n: nat, h: nat, i: nat)
    ensures 2 * i + 1 < Width(n, h) <==> HasRight(n, h + 1, i)
  {
  }

  lemma TopIsHeight(n: nat)
    ensures Height(n) == HeightFrom(n, 0)
  {
  }

  lemma SiblingsMakeTwins(join: Joiner, txids: seq<Digest>)
    requires txids != [] && EqualSiblings(join, txids)
    ensures Ambiguous(join, txids, All(|txids|))
  {
    hide CalcHash, Exists, Width, Selected, Row, HasRight, Ambiguous, Height, HeightFrom;
    var n := |txids|;
    var h: nat :| EqualIn(join, txids, h);
    var row := Row(join, txids, h);
    var i: nat :| EqualAt(row, i);
    RowIsNodes(join, txids, h, 2 * i);
    RowIsNodes(join, txids, h, 2 * i + 1);
    Children(n, h + 1, i);
    AllSelected(n, h + 1, i);
    LeavesSplit(n, h + 1, i);
    PairIsRight(n, h, i);
    assert Twins(join, txids, All(n), h + 1, i);
    TopIsHeight(n);
    HeightThrough(n, 0, h);
    TwinsReachTop(join, txids, h + 1, i);
  }

  /**
  A block whose header root was computed without finding equal siblings has no selection for which its
  proof is refused; one with equal siblings has a selection for which it is.
  */
  lemma RefusedIffMutated(join: Joiner, txids: seq<Digest>)
    requires txids != []
    ensures EqualSiblings(join, txids) <==> Ambiguous(join, txids, All(|txids|))
    ensures forall wanted :: |wanted| == |txids| && Ambiguous(join, txids, wanted) ==> EqualSiblings(join, txids)
  {
    hide CalcHash, Exists, Width, Twins, Height, EqualSiblings;
    RootCovers(|txids|);
    forall wanted | |wanted| == |txids| && Ambiguous(join, txids, wanted)
      ensures EqualSiblings(join, txids)
    {
      TwinsAreSiblings(join, txids, wanted, Height(|txids|), 0);
    }
    if EqualSiblings(join, txids) { SiblingsMakeTwins(join, txids); }
  }
}
