/** How many entries the tables can hold, and what that gives callers of the address manager. */
module AddrCounts {
  import opened AddrState
  import opened AddrInvariant

  // ----- counting -----

  function Elements(q: seq<int>): set<int> {
    set x | x in q
  }

  lemma {:induction false} DistinctCount(q: seq<int>)
    requires forall i, j :: 0 <= i < j < |q| ==> q[i] != q[j]
    ensures |Elements(q)| == |q|
  {
    if q == [] {
      assert Elements(q) == {};
    } else {
      var n := |q| - 1;
      DistinctCount(q[..n]);
      assert forall x :: x in q <==> x in q[..n] || x == q[n];
      assert forall x :: x in Elements(q) <==> x in Elements(q[..n]) + {q[n]};
      assert Elements(q) == Elements(q[..n]) + {q[n]};
    }
  }

  function Images(m: Table): set<int> {
    set sl | sl in m :: m[sl]
  }

  /** A table names no more entries than it has slots. */
  lemma {:induction false} ImagesCount(m: Table)
    ensures |Images(m)| <= |m.Keys|
    decreases |m.Keys|
  {
    if m.Keys == {} {
      assert Images(m) == {};
    } else {
      var sl :| sl in m.Keys;
      var rest := m - {sl};
      assert rest.Keys == m.Keys - {sl};
      ImagesCount(rest);
      assert Images(m) <= Images(rest) + {m[sl]} by {
        forall x | x in Images(m)
          ensures x in Images(rest) + {m[sl]}
        {
          var t :| t in m && m[t] == x;
          if t != sl { assert t in rest && rest[t] == x; }
        }
      }
      assert |Images(m)| <= |Images(rest) + {m[sl]}| by { SubsetCount(Images(m), Images(rest) + {m[sl]}); }
    }
  }

  lemma {:induction false} SubsetCount<T>(a: set<T>, b: set<T>)
    requires a <= b
    ensures |a| <= |b|
  {
    if a != {} {
      var x :| x in a;
      SubsetCount(a - {x}, b - {x});
    }
  }

  lemma {:induction false} RowCount(slots: set<Slot>, bucket: int, n: nat)
    requires forall sl :: sl in slots ==> sl.bucket == bucket && 0 <= sl.pos < n
    ensures |slots| <= n
  {
    if n == 0 {
      assert slots == {};
    } else {
      var last := Slot(bucket, n - 1);
      RowCount(slots - {last}, bucket, n - 1);
    }
  }

  lemma {:induction false} TableCount(slots: set<Slot>, n: nat)
    requires forall sl :: sl in slots ==> 0 <= sl.bucket < n && 0 <= sl.pos < BUCKET_SIZE
    ensures |slots| <= n * BUCKET_SIZE
  {
    if n == 0 {
      assert slots == {};
    } else {
      var row := set sl | sl in slots && sl.bucket == n - 1;
      RowCount(row, n - 1, BUCKET_SIZE);
      TableCount(slots - row, n - 1);
      assert slots == (slots - row) + row;
    }
  }

  // ----- the tables -----

  /** The order list has one place per entry, and every entry is new or tried. */
  lemma SizeIsCount(s: State)
    requires Inv(s)
    ensures |s.random| == |s.info.Keys| == s.nNew + s.nTried
  {
    hide A2, A3, TriedPlaced, Linked;
    AsManyPlaces(s.random, s.info);
    var untried, tried := NewIds(s.info), TriedIds(s.info);
    assert forall id :: id in s.info.Keys <==> id in untried + tried;
    assert s.info.Keys == untried + tried;
    assert forall id :: id !in untried * tried;
    assert untried * tried == {};
  }

  lemma AsManyPlaces(random: seq<int>, info: Entries)
    requires A1(random, info)
    ensures |random| == |info.Keys|
  {
    forall i, j | 0 <= i < j < |random|
      ensures random[i] != random[j]
    {
      var id1, id2 := random[i], random[j];
      assert id1 in info && id2 in info;
    }
    DistinctCount(random);
    assert forall id :: id in Elements(random) <==> id in info.Keys;
    assert Elements(random) == info.Keys;
  }

  /** Every new entry holds a slot of the new table, so the table bounds their number. */
  lemma NewFits(s: State)
    requires Inv(s)
    ensures 0 <= s.nNew <= |s.newSlots.Keys| <= NEW_BUCKET_COUNT * BUCKET_SIZE
  {
    forall id | id in NewIds(s.info)
      ensures id in Images(s.newSlots)
    {
      var held := Holders(s.newSlots, id);
      assert |held| > 0;
      var sl :| sl in held;
    }
    SubsetCount(NewIds(s.info), Images(s.newSlots));
    ImagesCount(s.newSlots);
    TableCount(s.newSlots.Keys, NEW_BUCKET_COUNT);
  }

  /** Every tried entry holds a slot of the tried table, so the table bounds their number. */
  lemma TriedFits(s: State)
    requires Inv(s)
    ensures 0 <= s.nTried <= |s.triedSlots.Keys| <= TRIED_BUCKET_COUNT * BUCKET_SIZE
  {
    forall id | id in TriedIds(s.info)
      ensures id in Images(s.triedSlots)
    {
      assert s.triedSlots[TriedSlot(s.place, s.info[id].service)] == id;
    }
    SubsetCount(TriedIds(s.info), Images(s.triedSlots));
    ImagesCount(s.triedSlots);
    TableCount(s.triedSlots.Keys, TRIED_BUCKET_COUNT);
  }

  // ----- selecting an address to connect to -----

  datatype Search = NoSearch | SearchNew | SearchTried

  /** Which table Select_ probes, given its coin. */
  function SelectFrom(s: State, newOnly: bool, coin: bool): Search {
    if |s.random| == 0 then NoSearch
    else if newOnly && s.nNew == 0 then NoSearch
    else if !newOnly && s.nTried > 0 && (s.nNew == 0 || coin) then SearchTried
    else SearchNew
  }

  /** Select_ probes only a table with an occupied slot, and every occupied slot leads to a live entry of that kind. */
  lemma SelectFinds(s: State, newOnly: bool, coin: bool)
    requires Inv(s)
    ensures SelectFrom(s, newOnly, coin).SearchTried? ==>
              s.triedSlots != map[] && !newOnly &&
              forall sl :: sl in s.triedSlots ==> s.triedSlots[sl] in s.info && s.info[s.triedSlots[sl]].tried
    ensures SelectFrom(s, newOnly, coin).SearchNew? ==>
              s.newSlots != map[] &&
              forall sl :: sl in s.newSlots ==> s.newSlots[sl] in s.info && !s.info[s.newSlots[sl]].tried
    ensures SelectFrom(s, newOnly, coin).NoSearch? <==>
              s.info == map[] || (newOnly && forall id :: id in s.info ==> s.info[id].tried)
  {
    SizeIsCount(s);
    NewFits(s);
    TriedFits(s);
    NewExist(s);
    hide NewIds, TriedIds;
    assert s.info == map[] <==> s.info.Keys == {};
  }

  lemma SomeOf<T>(a: set<T>) returns (x: T)
    requires a != {}
    ensures x in a
  {
    x :| x in a;
  }

  lemma NewExist(s: State)
    requires Inv(s)
    ensures s.nNew == 0 <==> forall id :: id in s.info ==> s.info[id].tried
  {
    var ids := NewIds(s.info);
    if ids != {} {
      var id := SomeOf(ids);
      assert id in s.info && !s.info[id].tried;
    } else {
      assert forall id :: id in s.info ==> id !in ids;
    }
  }
}
