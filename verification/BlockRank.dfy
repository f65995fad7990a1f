/** Why each offered transaction is in the block where it is, or is not in it. */
module BlockRank {
  import opened BlockLedger
  import opened BlockSelection
  import opened BlockOrder

  /** A transaction as the heap ranks it. */
  function Cand(v: View, pool: Pool, tx: Tx): Candidate
    requires v.den > 0
  {
    Candidate(RateOf(v, pool, tx), tx)
  }

  /** The totals after some transactions. */
  ghost function Built(v: View, pool: Pool, start: nat, vtx: seq<Tx>): Ledger {
    if vtx == [] then Opened(start) else Included(v, pool, Built(v, pool, start, vtx[..|vtx| - 1]), vtx[|vtx| - 1])
  }

  ghost predicate Passes(v: View, pool: Pool, start: nat, before: seq<Tx>, tx: Tx) {
    v.den > 0 && tx.size > 0 && Fits(v, pool, Built(v, pool, start, before), Cand(v, pool, tx))
  }

  /** Each transaction of the block passed every check on top of those before it. */
  ghost predicate Earned(v: View, pool: Pool, start: nat, vtx: seq<Tx>) {
    forall i :: 0 <= i < |vtx| ==> Passes(v, pool, start, vtx[..i], vtx[i])
  }

  /** Each one tried is in the block, or failed a check on top of some beginning of it. */
  ghost predicate Accounted(v: View, pool: Pool, start: nat, vtx: seq<Tx>, tried: set<Hash>) {
    forall h :: h in tried && h in pool ==> h in Hashes(vtx) || Failed(v, pool, start, vtx, pool[h])
  }

  ghost predicate Failed(v: View, pool: Pool, start: nat, vtx: seq<Tx>, tx: Tx) {
    exists n :: 0 <= n <= |vtx| && !Passes(v, pool, start, vtx[..n], tx)
  }

  ghost predicate NotBelow(v: View, pool: Pool, a: Tx, b: Tx) {
    v.den > 0 && a.size > 0 && b.size > 0 && !Lower(Cand(v, pool, a), Cand(v, pool, b))
  }

  /** What was ready and untried when a place was filled does not rank above what filled it. */
  ghost predicate Ranked(v: View, pool: Pool, vtx: seq<Tx>, tried: set<Hash>) {
    && (forall i, h ::
          0 <= i < |vtx| && h in pool && h !in tried && Offered(v, pool, pool[h]) &&
            Parents(v, pool, pool[h]) <= Hashes(vtx[..i])
          ==> NotBelow(v, pool, vtx[i], pool[h]))
    && (forall i, j :: 0 <= i < j < |vtx| && Parents(v, pool, vtx[j]) <= Hashes(vtx[..i]) ==>
       NotBelow(v, pool, vtx[i], vtx[j]))
  }

  lemma BuiltMore(v: View, pool: Pool, start: nat, vtx: seq<Tx>, tx: Tx)
    ensures Built(v, pool, start, vtx + [tx]) == Included(v, pool, Built(v, pool, start, vtx), tx)
  {
    assert (vtx + [tx])[..|vtx|] == vtx;
  }

  lemma EarnedMore(v: View, pool: Pool, start: nat, vtx: seq<Tx>, tx: Tx)
    requires Earned(v, pool, start, vtx) && Passes(v, pool, start, vtx, tx)
    ensures Earned(v, pool, start, vtx + [tx])
  {
    hide Passes;
    var next := vtx + [tx];
    forall i | 0 <= i < |next| ensures Passes(v, pool, start, next[..i], next[i]) {
      if i < |vtx| {
        assert next[..i] == vtx[..i] && next[i] == vtx[i];
      } else {
        assert next[..i] == vtx;
      }
    }
  }

  lemma AccountedMore(v: View, pool: Pool, start: nat, vtx: seq<Tx>, tried: set<Hash>, tx: Tx)
    requires Accounted(v, pool, start, vtx, tried)
    ensures Accounted(v, pool, start, vtx + [tx], tried + {tx.hash})
  {
    hide Passes;
    var next := vtx + [tx];
    assert next[|vtx|].hash == tx.hash;
    forall h | h in tried && h in pool ensures h in Hashes(next) || Failed(v, pool, start, next, pool[h]) {
      if h in Hashes(vtx) {
        var k :| 0 <= k < |vtx| && vtx[k].hash == h;
        assert next[k].hash == h;
      } else {
        var n :| 0 <= n <= |vtx| && !Passes(v, pool, start, vtx[..n], pool[h]);
        assert next[..n] == vtx[..n];
      }
    }
  }

  lemma AccountedRefused(v: View, pool: Pool, start: nat, vtx: seq<Tx>, tried: set<Hash>, tx: Tx)
    requires Accounted(v, pool, start, vtx, tried) && !Passes(v, pool, start, vtx, tx)
    requires tx.hash in pool ==> pool[tx.hash] == tx
    ensures Accounted(v, pool, start, vtx, tried + {tx.hash})
  {
    hide Passes;
    assert vtx[..|vtx|] == vtx;
    assert Failed(v, pool, start, vtx, tx);
  }

  lemma RankedRefused(v: View, pool: Pool, vtx: seq<Tx>, tried: set<Hash>, x: Hash)
    requires Ranked(v, pool, vtx, tried)
    ensures Ranked(v, pool, vtx, tried + {x})
  {
    hide Offered, Parents, NotBelow;
  }

  /** Everything ready and untried was in the heap. */
  lemma ReadyInHeap(v: View, pool: Pool, heap: seq<Candidate>, waits: map<Hash, set<Hash>>, tried: set<Hash>,
                    done: set<Hash>, h: Hash)
    requires Covered(v, pool, heap, waits, tried) && Waiting(v, pool, waits, done)
    requires h in pool && h !in tried && Offered(v, pool, pool[h]) && Parents(v, pool, pool[h]) <= done
    ensures InHeap(heap, h)
  {
    hide Offered, Parents, InHeap;
    if h in waits {
      assert forall p :: p in Parents(v, pool, pool[h]) ==> p in done;
      assert waits[h] == {};
    }
  }

  lemma RankedMore(v: View, pool: Pool, vtx: seq<Tx>, tried: set<Hash>, heap: seq<Candidate>,
                   waits: map<Hash, set<Hash>>, c: Candidate)
    requires Ranked(v, pool, vtx, tried) && Filed(pool) && AllReady(v, pool, heap, Hashes(vtx))
    requires Covered(v, pool, heap, waits, tried) && Waiting(v, pool, waits, Hashes(vtx))
    requires Ready(v, pool, c, Hashes(vtx)) && c.tx.hash !in tried
    requires forall i :: 0 <= i < |heap| ==> heap[i].rate.size > 0 && !Lower(c, heap[i])
    ensures Ranked(v, pool, vtx + [c.tx], tried + {c.tx.hash})
  {
    hide Offered, Parents, Lower, RateOf, Covered, Waiting;
    var next, n := vtx + [c.tx], |vtx|;
    assert forall i :: 0 <= i <= n ==> next[..i] == vtx[..i];
    forall h | h in pool && h !in tried && Offered(v, pool, pool[h]) && Parents(v, pool, pool[h]) <= Hashes(vtx)
      ensures NotBelow(v, pool, c.tx, pool[h])
    {
      ReadyInHeap(v, pool, heap, waits, tried, Hashes(vtx), h);
      var k :| 0 <= k < |heap| && heap[k].tx.hash == h;
      assert Ready(v, pool, heap[k], Hashes(vtx));
    }
    assert vtx[..n] == vtx;
    forall i, h | 0 <= i < |next| && h in pool && h !in tried + {c.tx.hash} && Offered(v, pool, pool[h]) &&
        Parents(v, pool, pool[h]) <= Hashes(next[..i])
      ensures NotBelow(v, pool, next[i], pool[h])
    {
      if i < n {
        assert next[i] == vtx[i];
      }
    }
    forall i, j | 0 <= i < j < |next| && Parents(v, pool, next[j]) <= Hashes(next[..i])
      ensures NotBelow(v, pool, next[i], next[j])
    {
      assert next[i] == vtx[i];
      if j < n {
        assert next[j] == vtx[j];
      } else {
        assert next[j] == c.tx == pool[c.tx.hash];
      }
    }
  }
}
