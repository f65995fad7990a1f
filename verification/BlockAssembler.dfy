/** The assembly of a block from the pool, in order of fee rate and dependency. */
module BlockAssembler {
  import opened Basics
  import opened BlockLedger
  import opened BlockSelection
  import opened BlockOrder
  import opened BlockRank

  class Assembler {
    const v: View
    const pool: Pool
    const start: nat
    /** For each transaction with pooled parents, those it still waits for. */
    var waits: map<Hash, set<Hash>>
    /** For each parent, the transactions to tell when it is in. */
    var dependers: map<Hash, seq<Hash>>
    var heap: seq<Candidate>
    var ledger: Ledger
    /** The candidates taken off the heap so far. */
    ghost var tried: set<Hash>

    ghost predicate Settings() {
      Filed(pool) && v.den > 0
    }

    /** What holds of the totals. */
    ghost predicate Balanced()
      reads this
    {
      Summed(v, pool, start, ledger) && ClaimsBound(v, ledger) && OneSideStake(ledger)
    }

    ghost predicate Linked()
      reads this
    {
      && Waiting(v, pool, waits, Hashes(ledger.vtx)) && Depending(v, pool, waits, dependers)
      && AllReady(v, pool, heap, Hashes(ledger.vtx)) && Apart(heap, waits, tried) &&
         Covered(v, pool, heap, waits, tried)
      && InOrder(v, pool, ledger.vtx, tried) && tried <= pool.Keys
    }

    /** Each place in the block was earned, and each refusal has its reason. */
    ghost predicate Justified()
      reads this
    {
      && ledger == Built(v, pool, start, ledger.vtx) && Earned(v, pool, start, ledger.vtx)
      && Accounted(v, pool, start, ledger.vtx, tried) && Ranked(v, pool, ledger.vtx, tried)
    }

    ghost predicate Valid()
      reads this
    {
      Settings() && Balanced() && Linked() && Justified()
    }

    constructor (v: View, pool: Pool, size: nat)
      requires Filed(pool) && v.den > 0
      ensures this.v == v && this.pool == pool && start == size && Settings() && Balanced()
      ensures waits == map[] && dependers == map[] && heap == [] && ledger == Opened(size) && tried == {}
    {
      this.v, this.pool, this.start := v, pool, size;
      waits, dependers, heap, ledger := map[], map[], [], Opened(size);
      tried := {};
      new;
      OpenedKeeps(v, pool, size);
    }

    // ----- collecting -----

    /** The pooled parents of a transaction, unless one of its inputs is nowhere to be found. */
    method Inputs(tx: Tx) returns (missing: bool, parents: set<Hash>)
      ensures missing == !Connected(v, pool, tx)
      ensures !missing ==> parents == Parents(v, pool, tx)
    {
      missing, parents := false, {};
      for i := 0 to |tx.vin|
        invariant forall k :: 0 <= k < i ==> OnDisk(v, tx.vin[k]) || tx.vin[k].hash in pool
        invariant parents == set k | 0 <= k < i && !OnDisk(v, tx.vin[k]) && tx.vin[k].hash in pool :: tx.vin[k].hash
      {
        if !OnDisk(v, tx.vin[i]) {
          if tx.vin[i].hash !in pool {
            return true, {};
          }
          parents := parents + {tx.vin[i].hash};
        }
      }
    }

    ghost predicate Collecting(seen: set<Hash>)
      reads this
    {
      && Settings() && ledger == Opened(start) && tried == {}
      && Sorted(v, pool, heap, waits, seen) && Waiting(v, pool, waits, {}) && Depending(v, pool, waits, dependers)
      && AllReady(v, pool, heap, {})
    }

    /** A transaction that waits is entered with each of its parents. */
    method Enter(h: Hash, parents: set<Hash>, ghost seen: set<Hash>)
      requires Collecting(seen) && h in pool && h !in seen && Offered(v, pool, pool[h])
      requires parents == Parents(v, pool, pool[h]) != {}
      modifies this
      ensures Collecting(seen + {h})
    {
      hide Offered, Parents, Depending, Entering, Sorted, AllReady, Waiting;
      SeenWaiting(v, pool, heap, waits, seen, h, parents);
      NotSeenNotWaiting(v, pool, heap, waits, seen, h);
      EnteringStart(v, pool, waits, dependers, h, parents);
      waits := waits[h := parents];
      var todo := parents;
      while todo != {}
        invariant Settings() && ledger == Opened(start) && tried == {} && heap == old(heap)
        invariant waits == old(waits)[h := parents] && Entering(v, pool, waits, dependers, h, todo)
        decreases todo
      {
        var p :| p in todo;
        EnteringStep(v, pool, waits, dependers, h, todo, p);
        dependers := dependers[p := (if p in dependers then dependers[p] else []) + [h]];
        todo := todo - {p};
      }
      EnteringEnd(v, pool, waits, dependers, h);
    }

    /** A pooled transaction is dropped, made to wait, or put in the heap. */
    method Offer(h: Hash, ghost seen: set<Hash>)
      requires Collecting(seen) && h in pool && h !in seen
      modifies this
      ensures Collecting(seen + {h})
    {
      hide Offered, Parents, Depending, Sorted, AllReady, Waiting, Connected;
      var tx := pool[h];
      var missing, parents := Inputs(tx);
      OfferedIs(v, pool, tx);
      if !Screened(v, tx) || missing {
        SeenSkipped(v, pool, heap, waits, seen, h);
      } else if parents != {} {
        Enter(h, parents, seen);
      } else {
        var c := Candidate(RateOf(v, pool, tx), tx);
        SeenReady(v, pool, heap, waits, seen, c);
        heap := heap + [c];
      }
    }

    method Collect(order: seq<Hash>)
      requires Settings() && waits == map[] && dependers == map[] && heap == [] && ledger == Opened(start) &&
          tried == {}
      requires (forall i :: 0 <= i < |order| ==> order[i] in pool) && (forall h :: h in pool ==> h in order)
      requires forall i, j :: 0 <= i < j < |order| ==> order[i] != order[j]
      modifies this
      ensures Valid() && ledger == old(ledger)
    {
      hide Offered, Parents, Depending, Sorted, AllReady, Waiting, Connected, Filed, Summed, ClaimsBound, OneSideStake,
           Apart, Covered;
      Nothing(v, pool);
      assert Prefix(order, 0) == {};
      for i := 0 to |order|
        invariant Collecting(Prefix(order, i))
      {
        NextOfPrefix(order, i);
        Offer(order[i], Prefix(order, i));
      }
      WholePrefix(order, pool);
      AllCollected(v, pool, heap, waits, Prefix(order, |order|));
      OpenedKeeps(v, pool, start);
      assert Hashes(ledger.vtx) == {};
      assert Justified();
    }

    // ----- selecting -----

    /** Take the greatest candidate off the heap. */
    method TakeGreatest() returns (c: Candidate, ghost at: nat)
      requires heap != [] && forall i :: 0 <= i < |heap| ==> heap[i].rate.size > 0
      modifies this`heap
      ensures at < |old(heap)| && c == old(heap)[at] && heap == Rest(old(heap), at)
      ensures forall i :: 0 <= i < |old(heap)| ==> !Lower(c, old(heap)[i])
    {
      hide Lower;
      var best := 0;
      LowerIsTotal(heap[0], heap[0]);
      for i := 1 to |heap|
        invariant heap == old(heap) && 0 <= best < |heap|
        invariant forall k :: 0 <= k < i ==> !Lower(heap[best], heap[k])
      {
        LowerIsTotal(heap[i], heap[i]);
        if Lower(heap[best], heap[i]) {
          forall k | 0 <= k < i ensures !Lower(heap[i], heap[k]) {
            if Lower(heap[i], heap[k]) {
              LowerIsTransitive(heap[best], heap[i], heap[k]);
            }
          }
          best := i;
        }
      }
      c, at := heap[best], best;
      heap := heap[..best] + heap[best + 1..];
    }

    /** The checks on a candidate, in the order the miner makes them. */
    method Consider(c: Candidate) returns (take: bool)
      requires c.rate.size > 0
      ensures take == Fits(v, pool, ledger, c)
    {
      hide LowerRate, Fee;
      var tx := c.tx;
      if ledger.size + tx.size >= v.maxSize {
        return false;
      }
      if LowerRate(c.rate, FeeRate(v.minTxFee, 1000)) {
        return false;
      }
      if ledger.sigOps + tx.sigOps >= MAX_BLOCK_SIGOPS {
        return false;
      }
      if tx.time > v.blockTime {
        return false;
      }
      var minFee := v.minFee(tx, ledger.size);
      if !v.fetches(tx, ledger.vtx) {
        return false;
      }
      if Fee(v, pool, tx) < minFee {
        return false;
      }
      if ledger.sigOps + tx.sigOps + v.p2sh(tx) >= MAX_BLOCK_SIGOPS {
        return false;
      }
      if !v.connects(tx, ledger.vtx) {
        return false;
      }
      if v.v14 && !v.unlocked(tx) {
        return false;
      }
      var ignore := false;
      if tx.contracts != [] {
        var contract := tx.contracts[0];
        if contract.MrcRequest? {
          ignore := true;
          if |ledger.mrcs| < v.mrcLimit {
            var mrc := contract.mrc;
            if mrc.cpid.Some? {
              if (v.staker.None? || mrc.cpid.value != v.staker.value) && v.mrcValid(mrc) {
                if mrc.cpid.value !in ledger.mrcs {
                  ignore := false;
                }
              }
            }
          }
        }
        if contract.SideStakeUpdate? && ledger.bound {
          ignore := true;
        }
      }
      return !ignore;
    }

    /** The state between putting x in the block and telling those that waited for it. */
    ghost predicate Telling(x: Hash, done: set<Hash>, left: seq<Hash>)
      reads this
    {
      && Settings() && Balanced() && Justified() && Hashes(ledger.vtx) == done + {x} && x !in done
      && Partway(v, pool, waits, done, x, left) && Depending(v, pool, waits, dependers)
      && Listing(v, pool, waits, x, left)
      && AllReady(v, pool, heap, done + {x}) && Apart(heap, waits, tried) && Covered(v, pool, heap, waits, tried)
      && InOrder(v, pool, ledger.vtx, tried) && tried <= pool.Keys
    }

    /** Tell one that its parent is in; with no other parent missing it becomes a candidate. */
    method Tell(x: Hash, ghost done: set<Hash>, left: seq<Hash>)
      requires left != [] && Telling(x, done, left)
      modifies this`waits, this`heap
      ensures Telling(x, done, left[1..])
    {
      hide Offered, Parents, Depending, Summed, ClaimsBound, OneSideStake, InOrder, Covered, Apart, AllReady, Built,
           Earned, Accounted, Ranked;
      var h := left[0];
      ghost var was := waits[h];
      TellFacts(v, pool, waits, done, x, left);
      PartwayStep(v, pool, waits, done, x, left);
      ListingKept(v, pool, waits, dependers, h, waits[h] - {x});
      ListingTail(v, pool, waits, x, left, waits[h] - {x});
      if waits[h] != {} {
        ghost var before := waits;
        waits := waits[h := waits[h] - {x}];
        if waits[h] == {} {
          var c := Candidate(RateOf(v, pool, pool[h]), pool[h]);
          NoLongerWaits(v, pool, before, done, x, left, c);
          Pushed(v, pool, heap, before, tried, done + {x}, c);
          heap := heap + [c];
        } else {
          StillWaiting(v, pool, heap, before, tried, h, waits[h]);
        }
      }
    }

    /** Tell all that waited for x. */
    method Release(x: Hash, ghost done: set<Hash>)
      requires Telling(x, done, if x in dependers then dependers[x] else [])
      modifies this`waits, this`heap
      ensures Valid()
    {
      hide Offered, Parents, Depending, Summed, ClaimsBound, OneSideStake, InOrder, Covered, Apart, AllReady, Partway,
           Listing, Built, Earned, Accounted, Ranked;
      var list := if x in dependers then dependers[x] else [];
      var i := 0;
      assert list[0..] == list;
      while i < |list|
        invariant 0 <= i <= |list| && Telling(x, done, list[i..])
      {
        assert list[i..][1..] == list[i + 1..];
        Tell(x, done, list[i..]);
        i := i + 1;
      }
      assert list[|list|..] == [];
      PartwayEnd(v, pool, waits, done, x);
    }

    /** Put a candidate that fits in the block. */
    method Include(c: Candidate, ghost done: set<Hash>, ghost before: set<Hash>)
      requires Settings() && Balanced() && done == Hashes(ledger.vtx) && Fits0(c)
      requires Waiting(v, pool, waits, done) && Depending(v, pool, waits, dependers)
      requires Off(v, pool, c, heap, waits, tried, done) && InOrder(v, pool, ledger.vtx, before)
      requires c.tx.hash !in before && tried == before + {c.tx.hash} <= pool.Keys
      requires ledger == Built(v, pool, start, ledger.vtx) && Earned(v, pool, start, ledger.vtx)
      requires Accounted(v, pool, start, ledger.vtx, before) && Ranked(v, pool, ledger.vtx + [c.tx], tried)
      modifies this
      ensures Valid() && tried == old(tried)
      ensures ledger == Included(v, pool, old(ledger), c.tx)
    {
      hide Offered, Parents, Depending, Summed, ClaimsBound, OneSideStake, InOrder, Covered, Apart, AllReady, Partway,
           Fits, Waiting, Built, Earned, Accounted, Ranked;
      IncludedSums(v, pool, start, ledger, c);
      IncludedClaims(v, pool, ledger, c);
      IncludedSideStake(v, pool, ledger, c);
      Appended(v, pool, ledger.vtx, before, c);
      NotDone(v, pool, ledger.vtx, before, c.tx.hash);
      MoreDone(v, pool, heap, done, c.tx.hash);
      PartwayStart(v, pool, waits, dependers, done, c.tx.hash);
      ListingOf(v, pool, waits, dependers, c.tx.hash);
      BuiltMore(v, pool, start, ledger.vtx, c.tx);
      PassesIs(v, pool, start, ledger.vtx, c);
      EarnedMore(v, pool, start, ledger.vtx, c.tx);
      AccountedMore(v, pool, start, ledger.vtx, before, c.tx);
      ledger := Included(v, pool, ledger, c.tx);
      Release(c.tx.hash, done);
    }

    ghost predicate Fits0(c: Candidate)
      reads this
    {
      c.rate.size > 0 && Fits(v, pool, ledger, c)
    }

    /** Try the candidates one by one, the greatest first, until none is left. */
    method Select()
      requires Valid()
      modifies this
      ensures Valid() && heap == []
    {
      hide Offered, Parents, Depending, Summed, ClaimsBound, OneSideStake, InOrder, Covered, Apart, Fits, Waiting,
           Built, Earned, Accounted, Ranked;
      while heap != []
        invariant Valid()
        decreases pool.Keys - tried
      {
        ghost var was, done, before := heap, Hashes(ledger.vtx), tried;
        var c, at := TakeGreatest();
        Popped(v, pool, was, at, waits, before, done);
        NotTried(v, pool, was, waits, before, done, at);
        PassesIs(v, pool, start, ledger.vtx, c);
        tried := tried + {c.tx.hash};
        var take := Consider(c);
        if take {
          RankedMore(v, pool, ledger.vtx, before, was, waits, c);
          Include(c, done, before);
        } else {
          MoreTried(v, pool, ledger.vtx, before, c.tx.hash);
          AccountedRefused(v, pool, start, ledger.vtx, before, c.tx);
          RankedRefused(v, pool, ledger.vtx, before, c.tx.hash);
        }
        assert c.tx.hash in pool.Keys - before && tried == before + {c.tx.hash};
      }
    }
  }

  lemma NotDone(v: View, pool: Pool, vtx: seq<Tx>, tried: set<Hash>, x: Hash)
    requires InOrder(v, pool, vtx, tried) && x !in tried
    ensures x !in Hashes(vtx)
  {
  }

  lemma ListingOf(v: View, pool: Pool, waits: map<Hash, set<Hash>>, dependers: map<Hash, seq<Hash>>, x: Hash)
    requires Depending(v, pool, waits, dependers)
    ensures Listing(v, pool, waits, x, if x in dependers then dependers[x] else [])
  {
  }

  lemma PassesIs(v: View, pool: Pool, start: nat, vtx: seq<Tx>, c: Candidate)
    requires v.den > 0 && c.rate == RateOf(v, pool, c.tx) && c.rate.size > 0
    ensures Passes(v, pool, start, vtx, c.tx) <==> Fits(v, pool, Built(v, pool, start, vtx), c)
  {
    hide Fits, Built, Fee;
  }

  lemma NotTried(v: View, pool: Pool, heap: seq<Candidate>, waits: map<Hash, set<Hash>>, tried: set<Hash>,
                 done: set<Hash>, at: nat)
    requires at < |heap| && AllReady(v, pool, heap, done) && Apart(heap, waits, tried)
    ensures heap[at].tx.hash !in tried && Ready(v, pool, heap[at], done)
  {
  }

  lemma MoreTried(v: View, pool: Pool, vtx: seq<Tx>, tried: set<Hash>, x: Hash)
    requires InOrder(v, pool, vtx, tried)
    ensures InOrder(v, pool, vtx, tried + {x})
  {
  }

  /** What has been taken off the heap, with the totals as they were. */
  ghost predicate Off(v: View, pool: Pool, c: Candidate, heap: seq<Candidate>, waits: map<Hash, set<Hash>>,
                      tried: set<Hash>, done: set<Hash>) {
    && Ready(v, pool, c, done) && c.tx.hash in tried
    && AllReady(v, pool, heap, done) && Apart(heap, waits, tried) && Covered(v, pool, heap, waits, tried)
  }

  /** One that is to be told waits for x. */
  lemma TellFacts(v: View, pool: Pool, waits: map<Hash, set<Hash>>, done: set<Hash>, x: Hash, left: seq<Hash>)
    requires left != [] && Partway(v, pool, waits, done, x, left) && Listing(v, pool, waits, x, left) && x !in done
    ensures left[0] in waits && left[0] in pool && x in waits[left[0]] && left[0] !in left[1..]
  {
    hide Offered, Parents;
    assert left[0] in left;
  }

  lemma ListingTail(v: View, pool: Pool, waits: map<Hash, set<Hash>>, x: Hash, left: seq<Hash>, s: set<Hash>)
    requires left != [] && Listing(v, pool, waits, x, left)
    ensures Listing(v, pool, waits[left[0] := s], x, left[1..])
  {
    hide Offered, Parents;
  }

  lemma NoLongerWaits(v: View, pool: Pool, waits: map<Hash, set<Hash>>, done: set<Hash>, x: Hash, left: seq<Hash>,
                      c: Candidate)
    requires left != [] && left[0] in waits && Partway(v, pool, waits, done, x, left) && waits[left[0]] - {x} == {} &&
        Filed(pool)
    requires left[0] in pool && c.tx == pool[left[0]] && v.den > 0 && c.rate == RateOf(v, pool, c.tx)
    ensures c.tx.hash == left[0] && Ready(v, pool, c, done + {x})
  {
    hide Offered, Parents;
    var h := left[0];
    assert h in left;
    forall p | p in Parents(v, pool, pool[h]) ensures p in done + {x} {
      assert p in done || p in waits[h];
      assert p in waits[h] ==> p !in waits[h] - {x} ==> p == x;
    }
  }

  /** The first so many of an order. */
  ghost function Prefix(order: seq<Hash>, i: nat): set<Hash>
    requires i <= |order|
  {
    set k | 0 <= k < i :: order[k]
  }

  lemma NextOfPrefix(order: seq<Hash>, i: nat)
    requires i < |order| && forall j, k :: 0 <= j < k < |order| ==> order[j] != order[k]
    ensures order[i] !in Prefix(order, i) && Prefix(order, i + 1) == Prefix(order, i) + {order[i]}
  {
  }

  lemma WholePrefix(order: seq<Hash>, pool: Pool)
    requires forall h :: h in pool ==> h in order
    ensures pool.Keys <= Prefix(order, |order|)
  {
    forall h | h in pool.Keys ensures h in Prefix(order, |order|) {
      assert h in order;
    }
  }

  lemma OfferedIs(v: View, pool: Pool, tx: Tx)
    ensures Offered(v, pool, tx) <==> Screened(v, tx) && Connected(v, pool, tx)
  {
  }

  lemma NotSeenNotWaiting(v: View, pool: Pool, heap: seq<Candidate>, waits: map<Hash, set<Hash>>, seen: set<Hash>,
                          h: Hash)
    requires Sorted(v, pool, heap, waits, seen) && h !in seen
    ensures h !in waits
  {
  }

  lemma Nothing(v: View, pool: Pool)
    ensures Sorted(v, pool, [], map[], {}) && Waiting(v, pool, map[], {}) && Depending(v, pool, map[], map[]) &&
        AllReady(v, pool, [], {})
  {
  }

  /** Nothing offered is left out without a reason: a check it failed, or a pooled parent that is not in. */
  ghost predicate Reasoned(v: View, pool: Pool, start: nat, vtx: seq<Tx>) {
    forall h :: h in pool && Offered(v, pool, pool[h]) ==>
      || h in Hashes(vtx) || Failed(v, pool, start, vtx, pool[h])
      || exists p :: p in Parents(v, pool, pool[h]) && p !in Hashes(vtx)
  }

  lemma AllReasoned(v: View, pool: Pool, start: nat, vtx: seq<Tx>, waits: map<Hash, set<Hash>>, tried: set<Hash>)
    requires Covered(v, pool, [], waits, tried) && Waiting(v, pool, waits, Hashes(vtx)) &&
        Accounted(v, pool, start, vtx, tried)
    ensures Reasoned(v, pool, start, vtx)
  {
    hide Offered, Parents, Failed;
    forall h | h in pool && Offered(v, pool, pool[h]) && h !in tried
      ensures exists p :: p in Parents(v, pool, pool[h]) && p !in Hashes(vtx)
    {
      assert !InHeap([], h);
      var p :| p in waits[h];
      assert p in Parents(v, pool, pool[h]) && p !in Hashes(vtx);
    }
  }

  /** The bytes of transactions, with one output for each claim among them. */
  function Weight(v: View, txs: seq<Tx>): nat {
    if txs == [] then 0 else
    var tx := txs[|txs| - 1];
    Weight(v, txs[..|txs| - 1]) + tx.size + (if IsMrc(tx) then v.outputSize else 0)
  }

  lemma {:induction false} BuiltSize(v: View, pool: Pool, start: nat, vtx: seq<Tx>)
    ensures Built(v, pool, start, vtx).size == start + Weight(v, vtx)
  {
    if vtx != [] {
      BuiltSize(v, pool, start, vtx[..|vtx| - 1]);
    }
  }

  lemma {:induction false} BuiltSigOps(v: View, pool: Pool, start: nat, vtx: seq<Tx>)
    ensures Built(v, pool, start, vtx).sigOps == 100 + SigOpsOf(v, vtx)
  {
    if vtx != [] {
      BuiltSigOps(v, pool, start, vtx[..|vtx| - 1]);
    }
  }

  /** What a claim earns its staker beside the transaction's own fee. */
  function StakersPart(v: View, tx: Tx): int
    requires v.den > 0
  {
    if IsMrc(tx) then var fee := tx.contracts[0].mrc.fee; fee - TruncDiv(fee * v.num, v.den) else 0
  }

  /**
  What a transaction of the block is known to meet: it is no later than the block, pays the rate of the
  option and the least fee at its place, leaves room within both limits, and passes the checks on top of
  those before it.
  */
  ghost predicate Deserving(v: View, pool: Pool, start: nat, vtx: seq<Tx>, i: nat)
    requires i < |vtx| && v.den > 0
  {
    var tx, before := vtx[i], vtx[..i];
    && tx.time <= v.blockTime
    && (Fee(v, pool, tx) + StakersPart(v, tx)) * 1000 >= v.minTxFee * tx.size
    && Fee(v, pool, tx) >= v.minFee(tx, start + Weight(v, before))
    && start + Weight(v, before) + tx.size < v.maxSize
    && 100 + SigOpsOf(v, before) + tx.sigOps + v.p2sh(tx) < 20000
    && v.fetches(tx, before) && v.connects(tx, before) && (v.v14 ==> v.unlocked(tx))
  }

  lemma {:induction false} BuiltHolds(v: View, pool: Pool, start: nat, vtx: seq<Tx>)
    ensures Built(v, pool, start, vtx).vtx == vtx
  {
    hide Included;
    if vtx != [] {
      var n := |vtx| - 1;
      BuiltHolds(v, pool, start, vtx[..n]);
      IncludedLast(v, pool, Built(v, pool, start, vtx[..n]), vtx[n]);
      assert vtx == vtx[..n] + [vtx[n]];
    }
  }

  lemma IncludedLast(v: View, pool: Pool, l: Ledger, tx: Tx)
    ensures Included(v, pool, l, tx).vtx == l.vtx + [tx]
  {
  }

  lemma AllDeserving(v: View, pool: Pool, start: nat, vtx: seq<Tx>)
    requires v.den > 0 && Earned(v, pool, start, vtx)
    ensures forall i :: 0 <= i < |vtx| ==> Deserving(v, pool, start, vtx, i)
  {
    hide Weight, Built, SigOpsOf, LowerRate, Fee, Binds;
    forall i | 0 <= i < |vtx|
      ensures Deserving(v, pool, start, vtx, i)
    {
      assert Passes(v, pool, start, vtx[..i], vtx[i]);
      BuiltSize(v, pool, start, vtx[..i]);
      BuiltSigOps(v, pool, start, vtx[..i]);
      BuiltHolds(v, pool, start, vtx[..i]);
      LowerRateIsExact(RateOf(v, pool, vtx[i]), FeeRate(v.minTxFee, 1000));
    }
  }

  /**
  The block: each transaction once and after its pooled parents, each earned by the checks on top of
  those before it, in the order of rate where dependencies leave a choice, with totals that are those
  of its transactions and within the limits; and a reason for each offered transaction left out.
  */
  method CreateRestOfTheBlock(v: View, pool: Pool, order: seq<Hash>, size: nat) returns (block: Ledger)
    requires Filed(pool) && v.den > 0
    requires (forall i :: 0 <= i < |order| ==> order[i] in pool) && (forall h :: h in pool ==> h in order)
    requires forall i, j :: 0 <= i < j < |order| ==> order[i] != order[j]
    ensures forall i :: 0 <= i < |block.vtx| ==> Placed(v, pool, block.vtx, i)
    ensures forall i, j :: 0 <= i < j < |block.vtx| ==> block.vtx[i].hash != block.vtx[j].hash
    ensures Earned(v, pool, size, block.vtx) && Reasoned(v, pool, size, block.vtx)
    ensures forall i :: 0 <= i < |block.vtx| ==> Deserving(v, pool, size, block.vtx, i)
    ensures forall i, j :: 0 <= i < j < |block.vtx| && Parents(v, pool, block.vtx[j]) <= Hashes(block.vtx[..i])
                           ==> NotBelow(v, pool, block.vtx[i], block.vtx[j])
    ensures Summed(v, pool, size, block) && ClaimsBound(v, block) && OneSideStake(block)
    ensures block == Built(v, pool, size, block.vtx)
    ensures block.size >= v.maxSize <==> TooLarge(v, size, block.vtx)
  {
    hide Offered, Parents, Depending, Summed, ClaimsBound, OneSideStake, Covered, Apart, Waiting, AllReady, Built,
         Earned, Accounted, NotBelow, Placed, TooLarge, Deserving;
    var a := new Assembler(v, pool, size);
    a.Collect(order);
    a.Select();
    AllReasoned(v, pool, size, a.ledger.vtx, a.waits, a.tried);
    SizeExactly(v, pool, size, a.ledger.vtx);
    AllDeserving(v, pool, size, a.ledger.vtx);
    return a.ledger;
  }

  // ----- the size limit -----

  /**
  The block starts out too large and stays empty, or its last transaction is a claim that fitted without
  the output it needs but not with it.
  */
  predicate TooLarge(v: View, start: nat, vtx: seq<Tx>) {
    if vtx == [] then start >= v.maxSize else
    var n := |vtx| - 1;
    IsMrc(vtx[n]) && start + Weight(v, vtx[..n]) + vtx[n].size + v.outputSize >= v.maxSize
  }

  /** Every transaction fits on top of those before it; with their outputs, the last one alone may pass the limit. */
  lemma SizeExactly(v: View, pool: Pool, start: nat, vtx: seq<Tx>)
    requires Earned(v, pool, start, vtx)
    ensures forall i :: 0 <= i < |vtx| ==> start + Weight(v, vtx[..i]) + vtx[i].size < v.maxSize
    ensures Built(v, pool, start, vtx).size >= v.maxSize <==> TooLarge(v, start, vtx)
  {
    hide Weight, Built;
    forall i | 0 <= i < |vtx| ensures start + Weight(v, vtx[..i]) + vtx[i].size < v.maxSize {
      assert Passes(v, pool, start, vtx[..i], vtx[i]);
      BuiltSize(v, pool, start, vtx[..i]);
    }
    BuiltSize(v, pool, start, vtx);
    LastWeight(v, vtx);
  }

  lemma LastWeight(v: View, vtx: seq<Tx>)
    ensures Weight(v, vtx) == if vtx == [] then 0 else
              var n := |vtx| - 1; Weight(v, vtx[..n]) + vtx[n].size + (if IsMrc(vtx[n]) then v.outputSize else 0)
  {
  }

  /** A claim of 99 bytes that spends ten units on disk and leaves one as a fee, for which everything speaks. */
  ghost predicate Welcome(v: View, tx: Tx) {
    && v.disk == map[3 := [10]] && tx.vin == [Outpoint(3, 0)] && tx.outs == [9]
    && tx.hash == 7 && tx.contracts == [MrcRequest(Mrc(Some(1), 10, 5))]
    && tx.size == 99 && tx.sigOps == 1 && tx.time == 0 && !tx.generated
    && v.minTxFee == 10 && v.num == 4 && v.den == 5 && v.maxSize == 1000 && v.blockTime == 0 && !v.v14
    && v.staker == None && v.mrcLimit == 9 && v.mrcValid(tx.contracts[0].mrc) && v.p2sh(tx) == 0
    && v.fetches(tx, []) && v.connects(tx, []) && v.minFee(tx, 900) == 1
    && v.final(tx) && v.contractsValid(tx) && !v.v15 && v.notes
  }

  lemma ClaimFits(v: View, pool: Pool, tx: Tx)
    requires Welcome(v, tx)
    ensures Passes(v, pool, 900, [], tx)
  {
    hide LowerRate;
    OneUnitLeft(v, pool, tx);
    assert RateOf(v, pool, tx) == FeeRate(2, 99);
    LowerRateIsExact(FeeRate(2, 99), FeeRate(10, 1000));
  }

  lemma OneUnitLeft(v: View, pool: Pool, tx: Tx)
    requires v.disk == map[3 := [10]] && tx.vin == [Outpoint(3, 0)] && tx.outs == [9]
    ensures Fee(v, pool, tx) == 1
  {
    assert tx.vin[..0] == [] && tx.outs[..0] == [];
    assert OnDisk(v, tx.vin[0]) && Spent(v, pool, tx.vin[0]) == 10;
    assert ValueIn(v, pool, []) == 0 && ValueOut([]) == 0;
    assert ValueIn(v, pool, tx.vin) == 10 && ValueOut(tx.outs) == 9;
  }

  lemma ClaimOffered(v: View, pool: Pool, tx: Tx)
    requires Welcome(v, tx)
    ensures Offered(v, pool, tx) && Parents(v, pool, tx) == {} && IsMrc(tx)
  {
  }

  method AssembleOne(v: View, tx: Tx) returns (block: Ledger)
    requires Welcome(v, tx)
    ensures |block.vtx| == 1 && block.size == 999 + v.outputSize
  {
    hide Built, Summed, ClaimsBound, OneSideStake, Earned, TooLarge, NotBelow, Offered, Parents, Placed, Reasoned,
         Passes;
    var pool := map[7 := tx];
    block := CreateRestOfTheBlock(v, pool, [7], 900);
    ClaimFits(v, pool, tx);
    ClaimOffered(v, pool, tx);
    OnlyClaim(v, pool, tx, block.vtx);
    BuiltSize(v, pool, 900, block.vtx);
    assert block.vtx[..0] == [];
  }

  /**
  A block can pass its size limit: the pool holds one claim of 99 bytes, the block has 900 bytes and a limit
  of 1000, and the claim's output of 34 bytes is only counted after the claim is in.
  */
  method PassTheLimit() returns (maxSize: nat, block: Ledger)
    ensures maxSize == 1000 && |block.vtx| == 1 && block.size == 1033
  {
    var tx := Tx(7, 0, false, [Outpoint(3, 0)], [9], [MrcRequest(Mrc(Some(1), 10, 5))], 99, 1);
    var v := View(map[3 := [10]], _ => true, _ => true, false, false, true, (_, _) => true, (_, _) => true, _ => true,
                  (_, _) => 1, _ => 0, _ => true, None, 9, 34, 1000, 10, 0, 4, 5);
    maxSize := v.maxSize;
    block := AssembleOne(v, tx);
  }

  lemma OnlyClaim(v: View, pool: Pool, tx: Tx, vtx: seq<Tx>)
    requires pool == map[7 := tx] && tx.hash == 7 && Passes(v, pool, 900, [], tx) && Reasoned(v, pool, 900, vtx)
    requires Offered(v, pool, tx) && Parents(v, pool, tx) == {}
    requires forall i :: 0 <= i < |vtx| ==> Placed(v, pool, vtx, i)
    requires forall i, j :: 0 <= i < j < |vtx| ==> vtx[i].hash != vtx[j].hash
    ensures vtx == [tx]
  {
    hide Passes, Offered, Parents, Reasoned;
    EmptyNotReasoned(v, pool, tx);
    forall i | 0 <= i < |vtx| ensures vtx[i] == tx {
      assert Placed(v, pool, vtx, i);
    }
    assert vtx != [];
    FirstTwo(vtx);
  }

  lemma FirstTwo(vtx: seq<Tx>)
    requires forall i, j :: 0 <= i < j < |vtx| ==> vtx[i].hash != vtx[j].hash
    ensures |vtx| > 1 ==> vtx[0].hash != vtx[1].hash
  {
  }

  lemma EmptyNotReasoned(v: View, pool: Pool, tx: Tx)
    requires pool == map[7 := tx] && Passes(v, pool, 900, [], tx) && Offered(v, pool, tx) && Parents(v, pool, tx) == {}
    ensures !Reasoned(v, pool, 900, [])
  {
    hide Passes, Offered, Parents;
    var none: seq<Tx> := [];
    assert none[..0] == none;
    assert 7 in pool && 7 !in Hashes(none);
  }
}
