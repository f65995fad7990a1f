/**
The number of flag bits of a partial Merkle tree. The documented bound of two
bits per hash less one leaves out nodes with a single child; it holds exactly
when none of them is above a selected leaf.
*/
module MerkleSize {
  import opened MerkleTree
  import opened Powers
  import opened MerkleProof

  /** Single children occur only at the right edge, at most one per level. */
  lemma {:induction false} LoneBound(wanted: seq<bool>, height: nat, pos: nat)
    requires Exists(|wanted|, height, pos)
    ensures Lone(wanted, height, pos) <= if pos + 1 == Width(|wanted|, height) then height else 0
  {
    hide Width, Exists, Selected;
    var n := |wanted|;
    if height > 0 && Selected(wanted, height, pos) {
      LeavesSplit(n, height, pos);
      WidthHalves(n, height - 1);
      WidthCounts(n, height, pos);
      LoneBound(wanted, height - 1, 2 * pos);
      if HasRight(n, height, pos) {
        LoneBound(wanted, height - 1, 2 * pos + 1);
      }
    }
  }

  /** The last position of a height. */
  function Last(n: nat, height: nat): (pos: nat)
    requires n > 0
    ensures Exists(n, height, pos) && pos + 1 == Width(n, height)
  {
    WidthCounts(n, height, 0);
    WidthCounts(n, height, Width(n, height) - 1);
    Width(n, height) - 1
  }

  /** Up to some height there is a node with a single child above a selected leaf: at the end of an odd level. */
  predicate Ragged(wanted: seq<bool>, height: nat)
    requires |wanted| > 0
  {
    height > 0 &&
    ((Width(|wanted|, height - 1) % 2 == 1 && Selected(wanted, height, Last(|wanted|, height))) ||
     Ragged(wanted, height - 1))
  }

  /** The last node of a level is the last child of the last node above it. */
  lemma LastChild(n: nat, height: nat)
    requires n > 0 && height > 0
    ensures HasRight(n, height, Last(n, height)) <==> Width(n, height - 1) % 2 == 0
    ensures Last(n, height - 1) == 2 * Last(n, height) + if HasRight(n, height, Last(n, height)) then 1 else 0
  {
    WidthHalves(n, height - 1);
    hide Width;
  }

  lemma SelectedAbove(wanted: seq<bool>, height: nat)
    requires |wanted| > 0 && height > 0 && Selected(wanted, height - 1, Last(|wanted|, height - 1))
    ensures Selected(wanted, height, Last(|wanted|, height))
  {
    var n := |wanted|;
    var pos := Last(n, height);
    LastChild(n, height);
    LeavesSplit(n, height, pos);
    hide Width, Last, Pow2;
    if HasRight(n, height, pos) {
      var mid := Past(n, height - 1, 2 * pos);
      FirstBeforePast(n, height - 1, 2 * pos);
      FirstBeforePast(n, height - 1, 2 * pos + 1);
      AnyMatchSplit(wanted, First(height, pos), mid, Past(n, height, pos));
    }
  }

  lemma FirstBeforePast(n: nat, height: nat, pos: nat)
    requires Exists(n, height, pos)
    ensures First(height, pos) <= Past(n, height, pos)
  {
  }

  lemma {:induction false} RaggedIsSelected(wanted: seq<bool>, height: nat)
    requires |wanted| > 0 && Ragged(wanted, height)
    ensures Selected(wanted, height, Last(|wanted|, height))
  {
    hide Selected, Last, Width;
    if Ragged(wanted, height - 1) {
      RaggedIsSelected(wanted, height - 1);
      SelectedAbove(wanted, height);
    }
  }

  lemma {:induction false} LoneIffRagged(wanted: seq<bool>, height: nat)
    requires |wanted| > 0
    ensures Lone(wanted, height, Last(|wanted|, height)) > 0 <==> Ragged(wanted, height)
  {
    hide Selected, Last, Width;
    var n := |wanted|;
    var pos := Last(n, height);
    if height > 0 {
      LastChild(n, height);
      if Selected(wanted, height, pos) {
        LeavesSplit(n, height, pos);
        LoneIffRagged(wanted, height - 1);
        if HasRight(n, height, pos) {
          LoneBound(wanted, height - 1, 2 * pos);
        }
      } else if Ragged(wanted, height) {
        RaggedIsSelected(wanted, height);
      }
    }
  }

  /**
  The flag bits of a whole tree: at most two per hash less one, plus one per level. The documented
  bound without the extra term holds exactly when no single child is above a selected leaf.
  */
  lemma FlagBits(join: Joiner, txids: seq<Digest>, wanted: seq<bool>)
    requires |wanted| == |txids| > 0
    ensures Exists(|txids|, Height(|txids|), 0)
    ensures var b := Build(join, txids, wanted, Height(|txids|), 0);
      && |b.hashes| <= |b.bits| <= 2 * |b.hashes| - 1 + Height(|txids|)
      && (|b.bits| <= 2 * |b.hashes| - 1 <==> !Ragged(wanted, Height(|txids|)))
  {
    var n := |txids|;
    RootCovers(n);
    BitsCount(join, txids, wanted, Height(n), 0);
    HashesBound(join, txids, wanted, Height(n), 0);
    LoneBound(wanted, Height(n), 0);
    assert Last(n, Height(n)) == 0;
    LoneIffRagged(wanted, Height(n));
  }

  lemma ThreeLeaves()
    ensures Width(3, 0) == 3 && Width(3, 1) == 2 && Width(3, 2) == 1 && Height(3) == 2
    ensures Exists(3, 2, 0) && Exists(3, 1, 0) && Exists(3, 1, 1) && Exists(3, 0, 2)
    ensures HasRight(3, 2, 0) && !HasRight(3, 1, 1)
  {
    assert Pow2(0) == 1 && Pow2(1) == 2 && Pow2(2) == 4;
    assert HeightFrom(3, 2) == 2 && HeightFrom(3, 1) == 2;
  }

  lemma ThirdSelected(wanted: seq<bool>)
    requires wanted == [false, false, true]
    ensures Selected(wanted, 2, 0) && !Selected(wanted, 1, 0) && Selected(wanted, 1, 1)
  {
    assert Pow2(0) == 1 && Pow2(1) == 2 && Pow2(2) == 4;
    assert AnyMatch(wanted, 2, 3) && AnyMatch(wanted, 1, 3);
  }

  /** The documented bound fails for three transactions of which the last is selected: four bits, two hashes. */
  lemma DocumentedBoundFails(join: Joiner, txids: seq<Digest>)
    requires |txids| == 3
    ensures Exists(3, 2, 0) && Height(3) == 2
    ensures var b := Build(join, txids, [false, false, true], 2, 0); |b.bits| == 4 && |b.hashes| == 2
  {
    hide Selected, Build, Width, Pow2, Exists, HasRight, Height;
    var wanted := [false, false, true];
    ThreeLeaves();
    ThirdSelected(wanted);
    BuildChildren(join, txids, wanted, 2, 0);
    LeafHashes(join, txids, wanted, 1, 0);
    BuildChildren(join, txids, wanted, 1, 1);
    LeafHashes(join, txids, wanted, 0, 2);
  }

  // ----- the tree in bytes -----

  /** How many bytes the length in front of a list takes. */
  function CompactLength(n: nat): nat {
    if n < 253 then 1 else if n <= 0xFFFF then 3 else if n <= 0xFFFF_FFFF then 5 else 9
  }

  /** The bytes of a tree as sent: the number of transactions, the hashes and the flag bytes. */
  function WireSize(hashes: nat, flagBytes: nat): nat {
    4 + CompactLength(hashes) + 32 * hashes + CompactLength(flagBytes) + flagBytes
  }

  /** The documented limit, 10 + ceil(32.25 N). */
  function DocumentedSize(hashes: nat): nat {
    10 + (129 * hashes + 3) / 4
  }

  /** How many flag bytes the documented limit leaves room for. */
  function RoomForFlags(hashes: nat): nat {
    var quarter := (hashes + 3) / 4;
    if hashes < 253 then quarter + 4
    else if hashes <= 1008 then (if quarter + 2 < 252 then quarter + 2 else 252)
    else if hashes <= 0xFFFF then quarter
    else 0
  }

  lemma RoomIsExact(hashes: nat, flagBytes: nat)
    requires flagBytes >= (hashes + 3) / 4
    ensures WireSize(hashes, flagBytes) <= DocumentedSize(hashes) <==> flagBytes <= RoomForFlags(hashes)
  {
  }

  /**
  The size of a whole tree in bytes. It passes the documented limit by at most a byte for eight levels,
  for blocks of up to 65535 transactions; the documented limit itself holds exactly when the single
  children above selected leaves fit in the flag bytes it leaves room for.
  */
  lemma SizeInBytes(join: Joiner, txids: seq<Digest>, wanted: seq<bool>)
    requires |wanted| == |txids| > 0
    ensures Exists(|txids|, Height(|txids|), 0)
    ensures var b, top := Build(join, txids, wanted, Height(|txids|), 0), Height(|txids|);
      var hashes, flagBytes := |b.hashes|, (|b.bits| + 7) / 8;
      && (|txids| <= 0xFFFF ==>
            WireSize(hashes, flagBytes) <= DocumentedSize(hashes) + (top + 7) / 8)
      && (WireSize(hashes, flagBytes) <= DocumentedSize(hashes) <==>
            Lone(wanted, top, 0) <= 8 * RoomForFlags(hashes) - (2 * hashes - 1))
  {
    hide Build, Lone, Width, Exists, Height, Pow2, Selected, WireSize, DocumentedSize, RoomForFlags, Ragged;
    var n := |txids|;
    RootCovers(n);
    BitsCount(join, txids, wanted, Height(n), 0);
    HashesBound(join, txids, wanted, Height(n), 0);
    FlagBits(join, txids, wanted);
    var b := Build(join, txids, wanted, Height(n), 0);
    HeightBound(n);
    BytesOfBits(|b.hashes|, |b.bits|, Lone(wanted, Height(n), 0), Height(n), n);
  }

  lemma BytesOfBits(hashes: nat, bits: nat, lone: nat, top: nat, n: nat)
    requires 1 <= hashes <= n && bits == 2 * hashes - 1 + lone && lone <= top <= n
    ensures var flagBytes := (bits + 7) / 8;
      && (n <= 0xFFFF ==> WireSize(hashes, flagBytes) <= DocumentedSize(hashes) + (top + 7) / 8)
      && (WireSize(hashes, flagBytes) <= DocumentedSize(hashes) <==>
         lone <= 8 * RoomForFlags(hashes) - (2 * hashes - 1))
  {
    hide WireSize, DocumentedSize, RoomForFlags;
    RoomIsExact(hashes, (bits + 7) / 8);
    WithinLevels(hashes, bits, top);
  }

  lemma WithinLevels(hashes: nat, bits: nat, top: nat)
    requires 1 <= hashes && bits <= 2 * hashes - 1 + top
    ensures hashes <= 0xFFFF && (bits + 7) / 8 <= 0xFFFF ==>
              WireSize(hashes, (bits + 7) / 8) <= DocumentedSize(hashes) + (top + 7) / 8
  {
  }

  // ----- a tree that passes the documented size -----

  /** How many of the levels below a height have an odd number of nodes. */
  function OddLevels(n: nat, height: nat): nat {
    if height == 0 then 0 else OddLevels(n, height - 1) + Width(n, height - 1) % 2
  }

  predicate AllSelected(wanted: seq<bool>) {
    forall i :: 0 <= i < |wanted| ==> wanted[i]
  }

  lemma EverythingSelected(wanted: seq<bool>, height: nat, pos: nat)
    requires AllSelected(wanted) && Exists(|wanted|, height, pos)
    ensures Selected(wanted, height, pos)
  {
    var lo, hi := First(height, pos), Past(|wanted|, height, pos);
    assert (pos + 1) * Pow2(height) == pos * Pow2(height) + Pow2(height);
    assert wanted[lo];
  }

  /** With everything selected, every odd level ends in a single child. */
  lemma {:induction false} LoneOfAll(wanted: seq<bool>, height: nat)
    requires |wanted| > 0 && AllSelected(wanted)
    ensures Lone(wanted, height, Last(|wanted|, height)) == OddLevels(|wanted|, height)
  {
    hide Selected, Last, Width;
    var n := |wanted|;
    var pos := Last(n, height);
    if height > 0 {
      EverythingSelected(wanted, height, pos);
      LastChild(n, height);
      LeavesSplit(n, height, pos);
      LoneOfAll(wanted, height - 1);
      if HasRight(n, height, pos) {
        LoneBound(wanted, height - 1, 2 * pos);
      }
    }
  }

  /** With everything selected, every leaf is stored. */
  lemma {:induction false} HashesOfAll(join: Joiner, txids: seq<Digest>, wanted: seq<bool>, height: nat, pos: nat)
    requires |wanted| == |txids| && Exists(|txids|, height, pos) && AllSelected(wanted)
    ensures |Build(join, txids, wanted, height, pos).hashes| == Past(|txids|, height, pos) - First(height, pos)
  {
    hide Selected, Width, Exists, Build, CalcHash;
    if height == 0 {
      LeafHashes(join, txids, wanted, height, pos);
      LeafSpan(|txids|, pos);
    } else {
      EverythingSelected(wanted, height, pos);
      LeavesSplit(|txids|, height, pos);
      BuildChildren(join, txids, wanted, height, pos);
      HashesOfAll(join, txids, wanted, height - 1, 2 * pos);
      if HasRight(|txids|, height, pos) {
        HashesOfAll(join, txids, wanted, height - 1, 2 * pos + 1);
      }
    }
  }

  lemma LeafSpan(n: nat, pos: nat)
    requires Exists(n, 0, pos)
    ensures First(0, pos) == pos && Past(n, 0, pos) == pos + 1
  {
    assert Pow2(0) == 1;
  }

  lemma {:induction false} OddLevelsGrow(n: nat, h: nat, height: nat)
    requires h <= height
    ensures OddLevels(n, h) <= OddLevels(n, height)
  {
    if h < height {
      OddLevelsGrow(n, h, height - 1);
    }
  }

  lemma Levels1028()
    ensures OddLevels(1028, 4) == 2 && Height(1028) >= 4
  {
    hide Width;
    LeavesCounted(1028);
    WidthHalves(1028, 0);
    WidthHalves(1028, 1);
    WidthHalves(1028, 2);
    assert Width(1028, 1) == 514 && Width(1028, 2) == 257 && Width(1028, 3) == 129;
    assert OddLevels(1028, 2) == 0 && OddLevels(1028, 3) == 1;
    assert HeightFrom(1028, 3) >= 4;
    assert HeightFrom(1028, 0) == HeightFrom(1028, 1) == HeightFrom(1028, 2) == HeightFrom(1028, 3);
  }

  lemma LeavesCounted(n: nat)
    ensures Width(n, 0) == n
  {
    assert Pow2(0) == 1;
  }

  /** The documented size is passed by a block of 1028 transactions that are all selected. */
  lemma DocumentedSizeFails(join: Joiner, txids: seq<Digest>, wanted: seq<bool>)
    requires |txids| == |wanted| == 1028 && AllSelected(wanted)
    ensures Exists(1028, Height(1028), 0)
    ensures var b := Build(join, txids, wanted, Height(1028), 0);
      |b.hashes| == 1028 && WireSize(1028, (|b.bits| + 7) / 8) > DocumentedSize(1028)
  {
    hide Build, Lone, Width, Exists, Height, Pow2, Selected, Last, OddLevels, WireSize;
    var top := Height(1028);
    RootCovers(1028);
    TopIsLast(1028);
    Levels1028();
    OddLevelsGrow(1028, 4, top);
    LoneOfAll(wanted, top);
    HashesOfAll(join, txids, wanted, top, 0);
    SizeInBytes(join, txids, wanted);
  }

  lemma TopIsLast(n: nat)
    requires n > 0
    ensures Last(n, Height(n)) == 0
  {
  }
}
