/**
The partial Merkle tree as an object: built from a block, packed into bytes,
unpacked and checked. The theorems about proofs are stated for whole trees here.
*/
module MerkleBlock {
  import opened MerkleTree
  import opened Powers
  import opened MerkleProof
  import opened MerkleSize

  // ----- flag bits in bytes -----

  /** The byte with one bit set, 1 << k. */
  function Bit(k: nat): bv8
    requires k < 8
  {
    match k
    case 0 => 1
    case 1 => 2
    case 2 => 4
    case 3 => 8
    case 4 => 16
    case 5 => 32
    case 6 => 64
    case _ => 128
  }

  predicate HasBit(b: bv8, k: nat)
    requires k < 8
  {
    b & Bit(k) != 0
  }

  lemma OrBit(b: bv8, k: nat, j: nat)
    requires k < 8 && j < 8
    ensures HasBit(b | Bit(k), j) <==> j == k || HasBit(b, j)
  {
  }

  /** All bits of a byte sequence, least significant first. */
  function Unpacked(bytes: seq<bv8>): (bits: seq<bool>)
    ensures |bits| == 8 * |bytes|
    ensures forall p :: 0 <= p < |bits| ==> bits[p] == HasBit(bytes[p / 8], p % 8)
  {
    seq(8 * |bytes|, p requires 0 <= p < 8 * |bytes| => HasBit(bytes[p / 8], p % 8))
  }

  function Falses(n: nat): (q: seq<bool>)
    ensures |q| == n && forall i :: 0 <= i < n ==> !q[i]
  {
    seq(n, i => false)
  }

  /** Flag bits as they come back from bytes: filled up with zeroes to a multiple of eight. */
  function Padded(bits: seq<bool>): (q: seq<bool>)
    ensures |q| == 8 * ((|bits| + 7) / 8) && bits <= q
  {
    bits + Falses(8 * ((|bits| + 7) / 8) - |bits|)
  }

  method PackBits(vBits: seq<bool>) returns (vBytes: seq<bv8>)
    ensures Unpacked(vBytes) == Padded(vBits)
  {
    var bytes := new bv8[(|vBits| + 7) / 8](_ => 0);
    for p := 0 to |vBits|
      invariant forall i :: 0 <= i < 8 * bytes.Length ==> (HasBit(bytes[i / 8], i % 8) <==> i < p && vBits[i])
    {
      if vBits[p] {
        SetBit(bytes, p);
      }
    }
    vBytes := bytes[..];
  }

  /** Set one bit of a byte array, leaving the others. */
  method SetBit(bytes: array<bv8>, p: nat)
    requires p < 8 * bytes.Length
    modifies bytes
    ensures forall i :: 0 <= i < 8 * bytes.Length ==>
              (HasBit(bytes[i / 8], i % 8) <==> i == p || old(HasBit(bytes[i / 8], i % 8)))
  {
    var was := bytes[p / 8];
    bytes[p / 8] := was | Bit(p % 8);
    forall i | 0 <= i < 8 * bytes.Length
      ensures HasBit(bytes[i / 8], i % 8) <==> i == p || old(HasBit(bytes[i / 8], i % 8))
    {
      if i / 8 == p / 8 {
        OrBit(was, p % 8, i % 8);
      }
    }
  }

  // ----- checking a proof -----

  const MAX_BLOCK_SIZE := 1000000

  /** What a check returns: the root, null if the proof is no good, and the ids and positions found. */
  datatype Answer = Answer(root: Digest, matches: seq<Digest>, indices: seq<nat>)

  /** All bits and hashes were used, but for the filling of the last byte. */
  predicate UsedUp(w: Written, c: Cursor) {
    !c.bad && (c.bits + 7) / 8 == (|w.bits| + 7) / 8 && c.hashes == |w.hashes|
  }

  function Checked(join: Joiner, n: nat, w: Written, bad: bool): Answer {
    if n == 0 || n > MAX_BLOCK_SIZE / 60 || |w.hashes| > n || |w.bits| < |w.hashes| then Answer(NULL, [], []) else
    var (hash, c) := Extract(join, n, w, Height(n), 0, START.(bad := bad));
    Answer(if UsedUp(w, c) then hash else NULL, c.matches, c.indices)
  }

  /** The root of the tree over a block's transaction ids. */
  function Root(join: Joiner, txids: seq<Digest>): Digest
    requires |txids| > 0
  {
    RootCovers(|txids|);
    CalcHash(join, txids, Height(|txids|), 0)
  }

  /** The whole tree as written. */
  function Tree(join: Joiner, txids: seq<Digest>, wanted: seq<bool>): Written
    requires |wanted| == |txids| > 0
  {
    RootCovers(|txids|);
    Build(join, txids, wanted, Height(|txids|), 0)
  }

  /** Some node above a selected transaction has two children with the same hash. */
  predicate Ambiguous(join: Joiner, txids: seq<Digest>, wanted: seq<bool>)
    requires |wanted| == |txids| > 0
  {
    RootCovers(|txids|);
    Twins(join, txids, wanted, Height(|txids|), 0)
  }

  /** Reading a proof from the top meets two different pairs of hashes that join to the same hash. */
  predicate Forged(join: Joiner, txids: seq<Digest>, w: Written, bad: bool)
    requires |txids| > 0
  {
    RootCovers(|txids|);
    Broken(join, txids, w, Height(|txids|), 0, START.(bad := bad))
  }

  /**
  Soundness. Take any bits and hashes whatever. If checking them gives the root of a block with the
  announced number of transactions, every id found is the block's id at the position given, and the
  positions ascend; or else the reading itself exhibits a collision, a node whose children read are
  not the block's and still join to the block's hash.
  */
  lemma ProofIsSound(join: Joiner, txids: seq<Digest>, w: Written, bad: bool)
    requires |txids| > 0
    requires Checked(join, |txids|, w, bad).root == Root(join, txids) != NULL
    ensures var a := Checked(join, |txids|, w, bad);
      || Forged(join, txids, w, bad)
      || (&& |a.matches| == |a.indices|
          && (forall i :: 0 <= i < |a.indices| ==> a.indices[i] < |txids| && a.matches[i] == txids[a.indices[i]])
          && (forall i, j :: 0 <= i < j < |a.indices| ==> a.indices[i] < a.indices[j]))
  {
    hide Extract, CalcHash, Height, Broken;
    var n := |txids|;
    RootCovers(n);
    var c := START.(bad := bad);
    var (hash, c') := Extract(join, n, w, Height(n), 0, c);
    ExtractSound(join, txids, w, Height(n), 0, c);
  }

  /** Sizes that no block of at most a million bytes has, and proofs found bad before, are refused. */
  lemma RefusesSizes(join: Joiner, n: nat, w: Written, bad: bool)
    ensures n == 0 || n > 16666 || |w.hashes| > n || |w.bits| < |w.hashes| || bad ==>
              Checked(join, n, w, bad).root == NULL
  {
    hide Extract, Height;
  }

  /** One sequence starts with the other. */
  predicate Comparable<T(==)>(a: seq<T>, b: seq<T>) {
    a <= b || b <= a
  }

  /**
  No slack. Of two proofs that differ only by bits or hashes added or left out at the end, both are
  accepted only if they have the same hashes and the same number of bytes of bits, and then they say the
  same.
  */
  lemma NoSlack(join: Joiner, n: nat, w: Written, u: Written, bad: bool)
    requires Comparable(w.bits, u.bits) && Comparable(w.hashes, u.hashes)
    requires Checked(join, n, w, bad).root != NULL && Checked(join, n, u, bad).root != NULL
    ensures u.hashes == w.hashes && (|u.bits| + 7) / 8 == (|w.bits| + 7) / 8
    ensures Checked(join, n, u, bad) == Checked(join, n, w, bad)
  {
    hide Extract, Height;
    var bits := if w.bits <= u.bits then u.bits else w.bits;
    var all := Written(bits, if w.hashes <= u.hashes then u.hashes else w.hashes);
    ExtractPrefix(join, n, w, all, Height(n), 0, START.(bad := bad));
    ExtractPrefix(join, n, u, all, Height(n), 0, START.(bad := bad));
  }

  /** So an accepted proof with any hash more, any byte of bits more, or its last hash missing is refused. */
  lemma NoSpareHash(join: Joiner, n: nat, w: Written, bad: bool, more: seq<Digest>)
    requires Checked(join, n, w, bad).root != NULL && more != []
    ensures Checked(join, n, Written(w.bits, w.hashes + more), bad).root == NULL
  {
    hide Checked;
    var u := Written(w.bits, w.hashes + more);
    if Checked(join, n, u, bad).root != NULL { NoSlack(join, n, w, u, bad); }
  }

  lemma NoSpareByte(join: Joiner, n: nat, w: Written, bad: bool, more: seq<bool>)
    requires Checked(join, n, w, bad).root != NULL && (|w.bits + more| + 7) / 8 > (|w.bits| + 7) / 8
    ensures Checked(join, n, Written(w.bits + more, w.hashes), bad).root == NULL
  {
    hide Checked;
    var u := Written(w.bits + more, w.hashes);
    if Checked(join, n, u, bad).root != NULL { NoSlack(join, n, w, u, bad); }
  }

  lemma NoMissingHash(join: Joiner, n: nat, w: Written, bad: bool, k: nat)
    requires Checked(join, n, w, bad).root != NULL && k < |w.hashes|
    ensures Checked(join, n, Written(w.bits, w.hashes[..k]), bad).root == NULL
  {
    hide Checked;
    var u := Written(w.bits, w.hashes[..k]);
    if Checked(join, n, u, bad).root != NULL { NoSlack(join, n, w, u, bad); }
  }

  /** The filling of the last byte does not matter. */
  lemma FillingIgnored(join: Joiner, n: nat, w: Written, bad: bool, more: seq<bool>)
    requires Checked(join, n, w, bad).root != NULL && (|w.bits + more| + 7) / 8 == (|w.bits| + 7) / 8
    ensures Checked(join, n, Written(w.bits + more, w.hashes), bad) == Checked(join, n, w, bad)
  {
    hide Extract, Height;
    ExtractPrefix(join, n, w, Written(w.bits + more, w.hashes), Height(n), 0, START.(bad := bad));
  }

  /**
  Completeness. A tree built for a selection of a block's transactions, packed and unpacked, checks to
  the block's root with exactly the selected ids at their positions; if two children of a node on the
  way have the same hash, the check fails instead.
  */
  lemma ProofIsComplete(join: Joiner, txids: seq<Digest>, wanted: seq<bool>)
    requires |wanted| == |txids| && 0 < |txids| <= MAX_BLOCK_SIZE / 60
    ensures var w := Tree(join, txids, wanted); var picks := Picks(wanted, 0, |wanted|);
      var a := Checked(join, |txids|, Written(Padded(w.bits), w.hashes), false);
      && a.matches == IdsAt(txids, picks) && a.indices == picks
      && a.root == if Ambiguous(join, txids, wanted) then NULL else Root(join, txids)
  {
    hide Extract, CalcHash, Height, Build, Twins, Picks, IdsAt, Exists;
    var n := |txids|;
    RootCovers(n);
    FlagBits(join, txids, wanted);
    HashesBound(join, txids, wanted, Height(n), 0);
    var w := Tree(join, txids, wanted);
    var padded := Written(Padded(w.bits), w.hashes);
    assert padded.bits[0..] == padded.bits && padded.hashes[0..] == padded.hashes;
    ExtractBuilt(join, txids, wanted, padded, Height(n), 0, START);
    assert [] + Picks(wanted, 0, n) == Picks(wanted, 0, n);
  }

  /** What the selected positions are: all of them, once each, ascending. */
  lemma {:induction false} PicksAreTheSelected(wanted: seq<bool>, lo: nat, hi: nat)
    requires hi <= |wanted|
    ensures forall p :: p in Picks(wanted, lo, hi) <==> lo <= p < hi && wanted[p]
    ensures forall i, j :: 0 <= i < j < |Picks(wanted, lo, hi)| ==> Picks(wanted, lo, hi)[i] < Picks(wanted, lo, hi)[j]
    decreases hi - lo
  {
    if lo < hi {
      PicksAreTheSelected(wanted, lo + 1, hi);
    }
  }

  // ----- the object -----

  /** A tree as it travels. */
  datatype Wire = Wire(nTransactions: nat, vHash: seq<Digest>, vBytes: seq<bv8>)

  class PartialMerkleTree {
    const join: Joiner
    var nTransactions: nat
    var vBits: seq<bool>
    var vHash: seq<Digest>
    var fBad: bool

    ghost function View(): Written
      reads this
    {
      Written(vBits, vHash)
    }

    method TraverseAndBuild(height: nat, pos: nat, vTxid: seq<Digest>, vMatch: seq<bool>)
      requires |vMatch| == |vTxid| == nTransactions && Exists(nTransactions, height, pos)
      modifies this
      ensures nTransactions == old(nTransactions) && fBad == old(fBad)
      ensures var b := Build(join, vTxid, vMatch, height, pos);
        vBits == old(vBits) + b.bits && vHash == old(vHash) + b.hashes
      decreases height
    {
      hide Selected, CalcHash, Exists, Width, Pow2, Build;
      var fParentOfMatch := ParentOfMatch(height, pos, vMatch);
      vBits := vBits + [fParentOfMatch];
      if height == 0 || !fParentOfMatch {
        LeafWritten(join, vTxid, vMatch, height, pos);
        vHash := vHash + [CalcHash(join, vTxid, height, pos)];
      } else {
        BuildChildren(join, vTxid, vMatch, height, pos);
        TraverseAndBuild(height - 1, pos * 2, vTxid, vMatch);
        if pos * 2 + 1 < Width(nTransactions, height - 1) {
          TraverseAndBuild(height - 1, pos * 2 + 1, vTxid, vMatch);
        }
      }
    }

    /** Whether a node is above a selected transaction. */
    method ParentOfMatch(height: nat, pos: nat, vMatch: seq<bool>) returns (fParentOfMatch: bool)
      requires |vMatch| == nTransactions
      ensures fParentOfMatch == Selected(vMatch, height, pos)
    {
      fParentOfMatch := false;
      var p := pos * Pow2(height);
      while p < (pos + 1) * Pow2(height) && p < nTransactions
        invariant First(height, pos) <= p
        invariant p <= Past(nTransactions, height, pos) || p == First(height, pos)
        invariant Selected(vMatch, height, pos) ==
                    (fParentOfMatch || AnyMatch(vMatch, p, Past(nTransactions, height, pos)))
      {
        fParentOfMatch := fParentOfMatch || vMatch[p];
        p := p + 1;
      }
    }

    method TreeHeight() returns (nHeight: nat)
      ensures nHeight == Height(nTransactions)
    {
      nHeight := 0;
      while Width(nTransactions, nHeight) > 1
        invariant HeightFrom(nTransactions, nHeight) == Height(nTransactions)
        decreases Width(nTransactions, nHeight)
      {
        WidthHalves(nTransactions, nHeight);
        nHeight := nHeight + 1;
      }
    }

    constructor (joiner: Joiner, vTxid: seq<Digest>, vMatch: seq<bool>)
      requires |vMatch| == |vTxid| > 0
      ensures join == joiner && nTransactions == |vTxid| && !fBad
      ensures View() == Tree(joiner, vTxid, vMatch)
    {
      join, nTransactions, fBad, vBits, vHash := joiner, |vTxid|, false, [], [];
      new;
      RootCovers(|vTxid|);
      var nHeight := TreeHeight();
      hide Build, Height;
      TraverseAndBuild(nHeight, 0, vTxid, vMatch);
      assert [] + Build(join, vTxid, vMatch, nHeight, 0).bits == Build(join, vTxid, vMatch, nHeight, 0).bits;
    }

    method TraverseAndExtract(height: nat, pos: nat, nBitsUsed: nat, nHashUsed: nat, vMatch: seq<Digest>,
                              vnIndex: seq<nat>)
      returns (hash: Digest, nBitsUsed': nat, nHashUsed': nat, vMatch': seq<Digest>, vnIndex': seq<nat>)
      modifies this`fBad
      ensures (hash, Cursor(nBitsUsed', nHashUsed', vMatch', vnIndex', fBad)) ==
                Extract(join, nTransactions, View(), height, pos,
                  Cursor(nBitsUsed, nHashUsed, vMatch, vnIndex, old(fBad)))
      decreases height
    {
      hide Width, Pow2, Extract;
      ghost var c := Cursor(nBitsUsed, nHashUsed, vMatch, vnIndex, fBad);
      if nBitsUsed >= |vBits| || height == 0 || !vBits[nBitsUsed] {
        ExtractEnd(join, nTransactions, View(), height, pos, c);
      } else {
        ExtractStep(join, nTransactions, View(), height, pos, c);
      }
      nBitsUsed', nHashUsed', vMatch', vnIndex' := nBitsUsed, nHashUsed, vMatch, vnIndex;
      if nBitsUsed' >= |vBits| {
        fBad := true;
        return NULL, nBitsUsed', nHashUsed', vMatch', vnIndex';
      }
      var fParentOfMatch := vBits[nBitsUsed'];
      nBitsUsed' := nBitsUsed' + 1;
      if height == 0 || !fParentOfMatch {
        if nHashUsed' >= |vHash| {
          fBad := true;
          return NULL, nBitsUsed', nHashUsed', vMatch', vnIndex';
        }
        hash := vHash[nHashUsed'];
        nHashUsed' := nHashUsed' + 1;
        if height == 0 && fParentOfMatch {
          vMatch' := vMatch' + [hash];
          vnIndex' := vnIndex' + [pos];
        }
      } else {
        var left, right;
        left, nBitsUsed', nHashUsed', vMatch', vnIndex' :=
          TraverseAndExtract(height - 1, pos * 2, nBitsUsed', nHashUsed', vMatch', vnIndex');
        if pos * 2 + 1 < Width(nTransactions, height - 1) {
          right, nBitsUsed', nHashUsed', vMatch', vnIndex' :=
            TraverseAndExtract(height - 1, pos * 2 + 1, nBitsUsed', nHashUsed', vMatch', vnIndex');
          if right == left {
            fBad := true;
          }
        } else {
          right := left;
        }
        hash := join(left, right);
      }
    }

    method ExtractMatches() returns (root: Digest, vMatch: seq<Digest>, vnIndex: seq<nat>)
      modifies this`fBad
      ensures Answer(root, vMatch, vnIndex) == Checked(join, nTransactions, View(), old(fBad))
    {
      hide Extract, Height;
      root, vMatch, vnIndex := NULL, [], [];
      if nTransactions == 0 {
        return;
      }
      if nTransactions > MAX_BLOCK_SIZE / 60 {
        return;
      }
      if |vHash| > nTransactions {
        return;
      }
      if |vBits| < |vHash| {
        return;
      }
      var nHeight := TreeHeight();
      var hashMerkleRoot, nBitsUsed, nHashUsed;
      hashMerkleRoot, nBitsUsed, nHashUsed, vMatch, vnIndex := TraverseAndExtract(nHeight, 0, 0, 0, [], []);
      if fBad {
        return;
      }
      if (nBitsUsed + 7) / 8 != (|vBits| + 7) / 8 {
        return;
      }
      if nHashUsed != |vHash| {
        return;
      }
      root := hashMerkleRoot;
    }

    method Serialize() returns (wire: Wire)
      ensures wire.nTransactions == nTransactions && wire.vHash == vHash && Unpacked(wire.vBytes) == Padded(vBits)
    {
      var vBytes := PackBits(vBits);
      wire := Wire(nTransactions, vHash, vBytes);
    }

    method Unserialize(wire: Wire)
      modifies this
      ensures nTransactions == wire.nTransactions && View() == Written(Unpacked(wire.vBytes), wire.vHash) && !fBad
    {
      nTransactions, vHash := wire.nTransactions, wire.vHash;
      vBits := [];
      for p := 0 to 8 * |wire.vBytes|
        invariant nTransactions == wire.nTransactions && vHash == wire.vHash
        invariant vBits == Unpacked(wire.vBytes)[..p]
      {
        vBits := vBits + [HasBit(wire.vBytes[p / 8], p % 8)];
      }
      fBad := false;
    }
  }

  lemma LeafWritten(join: Joiner, txids: seq<Digest>, wanted: seq<bool>, height: nat, pos: nat)
    requires |wanted| == |txids| && Exists(|txids|, height, pos)
    requires height == 0 || !Selected(wanted, height, pos)
    ensures Build(join, txids, wanted, height, pos) ==
              Written([Selected(wanted, height, pos)], [CalcHash(join, txids, height, pos)])
  {
  }

  /** The selection a merkle block is built with: the transactions whose ids are asked for. */
  function Asked(vTxid: seq<Digest>, txids: set<Digest>): (vMatch: seq<bool>)
    ensures |vMatch| == |vTxid| && forall i :: 0 <= i < |vTxid| ==> (vMatch[i] <==> vTxid[i] in txids)
  {
    seq(|vTxid|, i requires 0 <= i < |vTxid| => vTxid[i] in txids)
  }

  method SelectIds(vTxid: seq<Digest>, txids: set<Digest>) returns (vMatch: seq<bool>)
    ensures vMatch == Asked(vTxid, txids)
  {
    vMatch := [];
    for i := 0 to |vTxid|
      invariant vMatch == Asked(vTxid, txids)[..i]
    {
      vMatch := vMatch + [vTxid[i] in txids];
    }
  }

  /**
  The whole way of a proof: build it for a set of ids, send it, receive it and check it. The check
  finds exactly the ids asked for, and the root unless the selection is ambiguous.
  */
  method ProveAndCheck(join: Joiner, vTxid: seq<Digest>, txids: set<Digest>)
    returns (root: Digest, vMatch: seq<Digest>, vnIndex: seq<nat>)
    requires 0 < |vTxid| <= MAX_BLOCK_SIZE / 60
    ensures |vMatch| == |vnIndex|
    ensures forall p :: p in vnIndex <==> 0 <= p < |vTxid| && vTxid[p] in txids
    ensures forall i :: 0 <= i < |vnIndex| ==> vnIndex[i] < |vTxid| && vMatch[i] == vTxid[vnIndex[i]]
    ensures forall i, j :: 0 <= i < j < |vnIndex| ==> vnIndex[i] < vnIndex[j]
    ensures root == if Ambiguous(join, vTxid, Asked(vTxid, txids)) then NULL else Root(join, vTxid)
  {
    hide Tree, Ambiguous, Root, Checked, Picks, IdsAt, Asked;
    var selection := SelectIds(vTxid, txids);
    var sender := new PartialMerkleTree(join, vTxid, selection);
    var wire := sender.Serialize();
    var receiver := new PartialMerkleTree(join, vTxid, selection);
    receiver.Unserialize(wire);
    root, vMatch, vnIndex := receiver.ExtractMatches();
    ProofIsComplete(join, vTxid, selection);
    PicksAreTheSelected(selection, 0, |vTxid|);
  }
}
