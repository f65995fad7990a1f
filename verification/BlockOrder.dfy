/** Which transactions wait for which, and what every step of the selection keeps of it. */
module BlockOrder {
  import opened BlockLedger
  import opened BlockSelection

  type Pool = map<Hash, Tx>

  /** The pool files each transaction under its hash. */
  ghost predicate Filed(pool: Pool) {
    forall h :: h in pool ==> pool[h].hash == h && pool[h].size > 0
  }

  ghost function Hashes(txs: seq<Tx>): set<Hash> {
    set i | 0 <= i < |txs| :: txs[i].hash
  }

  ghost predicate InHeap(heap: seq<Candidate>, h: Hash) {
    exists i :: 0 <= i < |heap| && heap[i].tx.hash == h
  }

  /** A transaction with pooled parents waits for those of them that are not in the block. */
  ghost predicate Waiting(v: View, pool: Pool, waits: map<Hash, set<Hash>>, done: set<Hash>) {
    forall h :: h in waits ==> h in pool && Offered(v, pool, pool[h]) && waits[h] == Parents(v, pool, pool[h]) - done
  }

  /** A parent knows each transaction that waits for it, once. */
  ghost predicate Depending(v: View, pool: Pool, waits: map<Hash, set<Hash>>, dependers: map<Hash, seq<Hash>>) {
    && (forall p :: p in dependers ==> Listing(v, pool, waits, p, dependers[p]))
    && (forall h, p :: h in waits && h in pool && p in Parents(v, pool, pool[h]) ==>
       p in dependers && h in dependers[p])
  }

  ghost predicate Listing(v: View, pool: Pool, waits: map<Hash, set<Hash>>, p: Hash, hs: seq<Hash>) {
    && (forall i, j :: 0 <= i < j < |hs| ==> hs[i] != hs[j])
    && (forall i :: 0 <= i < |hs| ==> hs[i] in waits && hs[i] in pool && p in Parents(v, pool, pool[hs[i]]))
  }

  /** A candidate in the heap has all its pooled parents in the block. */
  ghost predicate Ready(v: View, pool: Pool, c: Candidate, done: set<Hash>) {
    && c.tx.hash in pool && pool[c.tx.hash] == c.tx && v.den > 0 && c.rate == RateOf(v, pool, c.tx) && c.rate.size > 0
    && Offered(v, pool, c.tx) && Parents(v, pool, c.tx) <= done
  }

  ghost predicate AllReady(v: View, pool: Pool, heap: seq<Candidate>, done: set<Hash>) {
    && (forall i :: 0 <= i < |heap| ==> Ready(v, pool, heap[i], done))
    && (forall i, j :: 0 <= i < j < |heap| ==> heap[i].tx.hash != heap[j].tx.hash)
  }

  /** What is in the heap or still waits has not been tried, and nothing is in both. */
  ghost predicate Apart(heap: seq<Candidate>, waits: map<Hash, set<Hash>>, tried: set<Hash>) {
    && (forall i :: 0 <= i < |heap| ==> heap[i].tx.hash !in tried)
    && (forall h :: h in waits && waits[h] != {} ==> h !in tried && !InHeap(heap, h))
  }

  /** Nothing offered is forgotten. */
  ghost predicate Covered(v: View, pool: Pool, heap: seq<Candidate>, waits: map<Hash, set<Hash>>, tried: set<Hash>) {
    forall h :: h in pool && Offered(v, pool, pool[h]) ==>
        h in tried || InHeap(heap, h) || (h in waits && waits[h] != {})
  }

  /** Each transaction is in the block once, after all its pooled parents, and has been tried. */
  ghost predicate InOrder(v: View, pool: Pool, vtx: seq<Tx>, tried: set<Hash>) {
    && (forall i :: 0 <= i < |vtx| ==> Placed(v, pool, vtx, i) && vtx[i].hash in tried)
    && (forall i, j :: 0 <= i < j < |vtx| ==> vtx[i].hash != vtx[j].hash)
  }

  ghost predicate Placed(v: View, pool: Pool, vtx: seq<Tx>, i: nat)
    requires i < |vtx|
  {
    && vtx[i].hash in pool && pool[vtx[i].hash] == vtx[i] && Offered(v, pool, vtx[i])
    && forall p :: p in Parents(v, pool, vtx[i]) ==> exists k :: 0 <= k < i && vtx[k].hash == p
  }

  // ----- taking a candidate out -----

  /** A heap without one of its places. */
  ghost function Rest(heap: seq<Candidate>, i: nat): seq<Candidate>
    requires i < |heap|
  {
    heap[..i] + heap[i + 1..]
  }

  lemma RestHolds(heap: seq<Candidate>, i: nat, g: Hash)
    requires i < |heap| && forall j, k :: 0 <= j < k < |heap| ==> heap[j].tx.hash != heap[k].tx.hash
    ensures InHeap(Rest(heap, i), g) <==> InHeap(heap, g) && g != heap[i].tx.hash
  {
    var rest := Rest(heap, i);
    if InHeap(rest, g) {
      var k :| 0 <= k < |rest| && rest[k].tx.hash == g;
      assert rest[k] == heap[if k < i then k else k + 1];
    }
    if InHeap(heap, g) && g != heap[i].tx.hash {
      var k :| 0 <= k < |heap| && heap[k].tx.hash == g;
      assert rest[if k < i then k else k - 1] == heap[k];
    }
  }

  lemma RestReady(v: View, pool: Pool, heap: seq<Candidate>, i: nat, done: set<Hash>)
    requires i < |heap| && AllReady(v, pool, heap, done)
    ensures AllReady(v, pool, Rest(heap, i), done)
  {
    hide Ready;
    var rest := Rest(heap, i);
    assert forall k :: 0 <= k < |rest| ==> rest[k] == (if k < i then heap[k] else heap[k + 1]);
  }

  lemma Popped(v: View, pool: Pool, heap: seq<Candidate>, i: nat, waits: map<Hash, set<Hash>>, tried: set<Hash>,
               done: set<Hash>)
    requires i < |heap| && AllReady(v, pool, heap, done) && Apart(heap, waits, tried) &&
        Covered(v, pool, heap, waits, tried)
    ensures var h := heap[i].tx.hash; var rest := Rest(heap, i);
      AllReady(v, pool, rest, done) && Apart(rest, waits, tried + {h}) && Covered(v, pool, rest, waits, tried + {h})
  {
    hide Offered, InHeap, Rest;
    var h, rest := heap[i].tx.hash, Rest(heap, i);
    RestReady(v, pool, heap, i, done);
    forall g ensures InHeap(rest, g) <==> InHeap(heap, g) && g != h {
      RestHolds(heap, i, g);
    }
    InHeapAt(heap, i);
    forall k | 0 <= k < |rest| ensures rest[k].tx.hash !in tried + {h} {
      InHeapAt(rest, k);
      InHeapTried(heap, waits, tried, rest[k].tx.hash);
    }
  }

  lemma InHeapAt(heap: seq<Candidate>, i: nat)
    requires i < |heap|
    ensures InHeap(heap, heap[i].tx.hash)
  {
  }

  lemma InHeapTried(heap: seq<Candidate>, waits: map<Hash, set<Hash>>, tried: set<Hash>, g: Hash)
    requires Apart(heap, waits, tried) && InHeap(heap, g)
    ensures g !in tried
  {
  }

  lemma Appended(v: View, pool: Pool, vtx: seq<Tx>, tried: set<Hash>, c: Candidate)
    requires InOrder(v, pool, vtx, tried) && Ready(v, pool, c, Hashes(vtx)) && c.tx.hash !in tried
    ensures InOrder(v, pool, vtx + [c.tx], tried + {c.tx.hash}) && Hashes(vtx + [c.tx]) == Hashes(vtx) + {c.tx.hash}
  {
    hide Offered, Parents;
    var next := vtx + [c.tx];
    forall i | 0 <= i < |next| ensures Placed(v, pool, next, i) {
      if i < |vtx| {
        assert Placed(v, pool, vtx, i) && next[i] == vtx[i];
      }
      forall p | p in Parents(v, pool, next[i]) ensures exists k :: 0 <= k < i && next[k].hash == p {
        if i < |vtx| {
          var k :| 0 <= k < i && vtx[k].hash == p;
          assert next[k].hash == p;
        } else {
          assert p in Hashes(vtx);
          var k :| 0 <= k < |vtx| && vtx[k].hash == p;
          assert next[k].hash == p;
        }
      }
    }
    forall h ensures h in Hashes(next) <==> h in Hashes(vtx) + {c.tx.hash} {
      if h in Hashes(vtx) {
        var k :| 0 <= k < |vtx| && vtx[k].hash == h;
        assert next[k].hash == h;
      }
      if h == c.tx.hash {
        assert next[|vtx|].hash == h;
      }
      if h in Hashes(next) {
        var k :| 0 <= k < |next| && next[k].hash == h;
        if k < |vtx| { assert vtx[k].hash == h; }
      }
    }
  }

  lemma MoreDone(v: View, pool: Pool, heap: seq<Candidate>, done: set<Hash>, x: Hash)
    requires AllReady(v, pool, heap, done)
    ensures AllReady(v, pool, heap, done + {x})
  {
    hide Offered, Parents;
    forall i | 0 <= i < |heap| ensures Ready(v, pool, heap[i], done + {x}) {
      assert Ready(v, pool, heap[i], done);
    }
  }

  // ----- releasing what waited -----

  /** x has just been put in the block; those left in the list have not been told yet. */
  ghost predicate Partway(v: View, pool: Pool, waits: map<Hash, set<Hash>>, done: set<Hash>, x: Hash, left: seq<Hash>) {
    forall h :: h in waits ==>
      && h in pool && Offered(v, pool, pool[h])
      && waits[h] == if h in left then Parents(v, pool, pool[h]) - done else Parents(v, pool, pool[h]) - done - {x}
  }

  lemma PartwayStart(v: View, pool: Pool, waits: map<Hash, set<Hash>>, dependers: map<Hash, seq<Hash>>,
                     done: set<Hash>, x: Hash)
    requires Waiting(v, pool, waits, done) && Depending(v, pool, waits, dependers)
    ensures Partway(v, pool, waits, done, x, if x in dependers then dependers[x] else [])
  {
    hide Offered, Parents, Listing;
    var left := if x in dependers then dependers[x] else [];
    forall h | h in waits
      ensures h in pool && waits[h] == if h in left then Parents(v, pool, pool[h]) - done
          else Parents(v, pool, pool[h]) - done - {x}
    {
      if h !in left {
        assert x !in Parents(v, pool, pool[h]);
        assert forall p :: p in Parents(v, pool, pool[h]) - done <==> p in Parents(v, pool, pool[h]) - done - {x};
      }
    }
  }

  lemma PartwayEnd(v: View, pool: Pool, waits: map<Hash, set<Hash>>, done: set<Hash>, x: Hash)
    requires Partway(v, pool, waits, done, x, [])
    ensures Waiting(v, pool, waits, done + {x})
  {
    hide Offered, Parents;
    forall h | h in waits ensures waits[h] == Parents(v, pool, pool[h]) - (done + {x}) {
      assert forall p :: p in Parents(v, pool, pool[h]) - done - {x} <==> p in Parents(v, pool, pool[h]) - (done + {x});
    }
  }

  /** Telling one that its parent is in. */
  lemma PartwayStep(v: View, pool: Pool, waits: map<Hash, set<Hash>>, done: set<Hash>, x: Hash, left: seq<Hash>)
    requires left != [] && Partway(v, pool, waits, done, x, left) && left[0] in waits && left[0] !in left[1..]
    ensures Partway(v, pool, waits[left[0] := waits[left[0]] - {x}], done, x, left[1..])
  {
    hide Offered, Parents;
    var h := left[0];
    forall g | g in waits && g != h ensures g in left <==> g in left[1..] {
      assert left == [h] + left[1..];
    }
  }

  lemma ListingKept(v: View, pool: Pool, waits: map<Hash, set<Hash>>, dependers: map<Hash, seq<Hash>>, h: Hash,
                    s: set<Hash>)
    requires Depending(v, pool, waits, dependers) && h in waits
    ensures Depending(v, pool, waits[h := s], dependers)
  {
    hide Offered, Parents;
    forall p | p in dependers ensures Listing(v, pool, waits[h := s], p, dependers[p]) {
      assert Listing(v, pool, waits, p, dependers[p]);
    }
  }

  /** A candidate that no longer waits goes into the heap. */
  lemma Pushed(v: View, pool: Pool, heap: seq<Candidate>, waits: map<Hash, set<Hash>>, tried: set<Hash>,
               done: set<Hash>, c: Candidate)
    requires AllReady(v, pool, heap, done) && Apart(heap, waits, tried) && Covered(v, pool, heap, waits, tried)
    requires Ready(v, pool, c, done) && c.tx.hash in waits && waits[c.tx.hash] != {}
    ensures var h := c.tx.hash; var next := waits[h := {}];
      AllReady(v, pool, heap + [c], done) && Apart(heap + [c], next, tried) && Covered(v, pool, heap + [c], next, tried)
  {
    hide Offered, Parents, Ready;
    var h, more := c.tx.hash, heap + [c];
    forall g ensures InHeap(more, g) <==> InHeap(heap, g) || g == h {
      if InHeap(heap, g) {
        var k :| 0 <= k < |heap| && heap[k].tx.hash == g;
        assert more[k].tx.hash == g;
      }
      assert more[|heap|] == c;
      if InHeap(more, g) {
        var k :| 0 <= k < |more| && more[k].tx.hash == g;
        if k < |heap| { assert heap[k].tx.hash == g; }
      }
    }
    forall i | 0 <= i < |heap| ensures heap[i].tx.hash != h {
      assert !InHeap(heap, h);
    }
  }

  /** One that still waits, for fewer, changes nothing else. */
  lemma StillWaiting(v: View, pool: Pool, heap: seq<Candidate>, waits: map<Hash, set<Hash>>, tried: set<Hash>, h: Hash,
                     s: set<Hash>)
    requires Apart(heap, waits, tried) && Covered(v, pool, heap, waits, tried) && h in waits && waits[h] != {} &&
        s != {}
    ensures Apart(heap, waits[h := s], tried) && Covered(v, pool, heap, waits[h := s], tried)
  {
    hide Offered, InHeap;
  }

  // ----- collecting the candidates -----

  /** Each transaction seen so far is where it belongs. */
  ghost predicate Sorted(v: View, pool: Pool, heap: seq<Candidate>, waits: map<Hash, set<Hash>>, seen: set<Hash>) {
    && (forall h :: h in seen && h in pool && Offered(v, pool, pool[h]) ==>
       InHeap(heap, h) || (h in waits && waits[h] != {}))
    && (forall h :: h in waits ==> h in seen && waits[h] != {})
    && (forall i :: 0 <= i < |heap| ==> heap[i].tx.hash in seen)
    && (forall h :: h in waits ==> !InHeap(heap, h))
  }

  lemma SeenSkipped(v: View, pool: Pool, heap: seq<Candidate>, waits: map<Hash, set<Hash>>, seen: set<Hash>, h: Hash)
    requires Sorted(v, pool, heap, waits, seen) && h in pool && !Offered(v, pool, pool[h])
    ensures Sorted(v, pool, heap, waits, seen + {h})
  {
    hide Offered, InHeap;
  }

  lemma SeenReady(v: View, pool: Pool, heap: seq<Candidate>, waits: map<Hash, set<Hash>>, seen: set<Hash>, c: Candidate)
    requires Sorted(v, pool, heap, waits, seen) && AllReady(v, pool, heap, {}) && Ready(v, pool, c, {}) &&
        c.tx.hash !in seen
    ensures Sorted(v, pool, heap + [c], waits, seen + {c.tx.hash}) && AllReady(v, pool, heap + [c], {})
  {
    hide Offered, Ready;
    var more, h := heap + [c], c.tx.hash;
    forall g ensures InHeap(more, g) <==> InHeap(heap, g) || g == h {
      if InHeap(heap, g) {
        var k :| 0 <= k < |heap| && heap[k].tx.hash == g;
        assert more[k].tx.hash == g;
      }
      assert more[|heap|] == c;
      if InHeap(more, g) {
        var k :| 0 <= k < |more| && more[k].tx.hash == g;
        if k < |heap| { assert heap[k].tx.hash == g; }
      }
    }
  }

  lemma SeenWaiting(v: View, pool: Pool, heap: seq<Candidate>, waits: map<Hash, set<Hash>>, seen: set<Hash>, h: Hash,
                    parents: set<Hash>)
    requires Sorted(v, pool, heap, waits, seen) && Waiting(v, pool, waits, {}) && h in pool && h !in seen
    requires Offered(v, pool, pool[h]) && parents == Parents(v, pool, pool[h]) != {}
    ensures Sorted(v, pool, heap, waits[h := parents], seen + {h}) && Waiting(v, pool, waits[h := parents], {})
  {
    hide Offered, Parents;
    assert parents - {} == parents;
    assert !InHeap(heap, h);
  }

  /** The lists while a new one is being entered with its parents. */
  ghost predicate Entering(v: View, pool: Pool, waits: map<Hash, set<Hash>>, dependers: map<Hash, seq<Hash>>, h: Hash,
                           todo: set<Hash>) {
    && (forall p :: p in dependers ==> Listing(v, pool, waits, p, dependers[p]))
    && (forall g, p :: g in waits && g in pool && p in Parents(v, pool, pool[g]) && !(g == h && p in todo) ==>
       p in dependers && g in dependers[p])
    && (forall p :: p in todo && p in dependers ==> h !in dependers[p])
    && h in waits && h in pool && todo <= Parents(v, pool, pool[h])
  }

  lemma EnteringStart(v: View, pool: Pool, waits: map<Hash, set<Hash>>, dependers: map<Hash, seq<Hash>>, h: Hash,
                      parents: set<Hash>)
    requires Depending(v, pool, waits, dependers) && h !in waits && h in pool && parents == Parents(v, pool, pool[h])
    ensures Entering(v, pool, waits[h := parents], dependers, h, parents)
  {
    hide Parents;
    forall p | p in dependers ensures Listing(v, pool, waits[h := parents], p, dependers[p]) && h !in dependers[p] {
      assert Listing(v, pool, waits, p, dependers[p]);
    }
  }

  lemma EnteringStep(v: View, pool: Pool, waits: map<Hash, set<Hash>>, dependers: map<Hash, seq<Hash>>, h: Hash,
                     todo: set<Hash>, p: Hash)
    requires Entering(v, pool, waits, dependers, h, todo) && p in todo
    ensures Entering(v, pool, waits, dependers[p := (if p in dependers then dependers[p] else []) + [h]], h, todo - {p})
  {
    hide Parents;
    var list := if p in dependers then dependers[p] else [];
    var next := dependers[p := list + [h]];
    forall q | q in next ensures Listing(v, pool, waits, q, next[q]) {
      if q in dependers {
        assert Listing(v, pool, waits, q, dependers[q]);
      }
    }
  }

  lemma EnteringEnd(v: View, pool: Pool, waits: map<Hash, set<Hash>>, dependers: map<Hash, seq<Hash>>, h: Hash)
    requires Entering(v, pool, waits, dependers, h, {})
    ensures Depending(v, pool, waits, dependers)
  {
    hide Parents, Listing;
  }

  lemma AllCollected(v: View, pool: Pool, heap: seq<Candidate>, waits: map<Hash, set<Hash>>, seen: set<Hash>)
    requires Sorted(v, pool, heap, waits, seen) && pool.Keys <= seen
    ensures Apart(heap, waits, {}) && Covered(v, pool, heap, waits, {})
  {
    hide Offered, InHeap;
    assert forall h :: h in pool ==> h in pool.Keys;
  }
}
