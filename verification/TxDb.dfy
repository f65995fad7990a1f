/** The transaction database: reads through a pending batch, and the repair of the index after blocks were abandoned. */
module TxDb {
  import opened Basics

  type Hash = nat

  /** Where a transaction is on disk: file, block and place in the block; or nowhere. */
  datatype Place = Nowhere | At(file: nat, block: nat, tx: nat)

  /** A record: the index entry of a transaction, or anything else; some cannot be read as what they should be. */
  datatype Value = Indexed(pos: Place, spent: seq<Place>) | Garbled | Plain(n: int)

  datatype DbKey = TxKey(hash: Hash) | OtherKey(id: nat)

  type Db = map<DbKey, Value>

  // ----- batches -----

  datatype Change = Put(key: DbKey, value: Value) | Delete(key: DbKey)

  type Batch = seq<Change>

  function Applied(db: Db, c: Change): Db {
    match c
    case Put(k, v) => db[k := v]
    case Delete(k) => db - {k}
  }

  /** The database after all changes of a batch, in order. */
  function Apply(db: Db, batch: Batch): Db {
    if batch == [] then db else Applied(Apply(db, batch[..|batch| - 1]), batch[|batch| - 1])
  }

  function Lookup(db: Db, k: DbKey): Option<Value> {
    if k in db then Some(db[k]) else None
  }

  lemma {:induction false} ApplyAppend(db: Db, a: Batch, b: Batch)
    ensures Apply(db, a + b) == Apply(Apply(db, a), b)
  {
    if b == [] {
      assert a + b == a;
    } else {
      var n := |b| - 1;
      assert (a + b)[..|a + b| - 1] == a + b[..n];
      ApplyAppend(db, a, b[..n]);
    }
  }

  /** What a batch says of a key: its last change counts. */
  function LastOf(batch: Batch, k: DbKey): Option<Change> {
    if batch == [] then None
    else if batch[|batch| - 1].key == k then Some(batch[|batch| - 1])
    else LastOf(batch[..|batch| - 1], k)
  }

  lemma {:induction false} LastDecides(db: Db, batch: Batch, k: DbKey)
    ensures var last := LastOf(batch, k);
      Lookup(Apply(db, batch), k)
      == if last.None? then Lookup(db, k) else if last.value.Put? then Some(last.value.value) else None
  {
    if batch != [] {
      LastDecides(db, batch[..|batch| - 1], k);
    }
  }

  // ----- the repair -----

  type Blocks = set<(nat, nat)>

  predicate Hit(p: Place, abandoned: Blocks) {
    p.At? && (p.file, p.block) in abandoned
  }

  /** Spent marks without those that point into abandoned blocks. */
  function Unmarked(spent: seq<Place>, abandoned: Blocks): (r: seq<Place>)
    ensures |r| == |spent| && forall i :: 0 <= i < |spent| ==>
        r[i] == if Hit(spent[i], abandoned) then Nowhere else spent[i]
  {
    seq(|spent|, i requires 0 <= i < |spent| => if Hit(spent[i], abandoned) then Nowhere else spent[i])
  }

  function Marks(spent: seq<Place>, abandoned: Blocks): nat {
    if spent == [] then 0 else
    Marks(spent[..|spent| - 1], abandoned) + (if Hit(spent[|spent| - 1], abandoned) then 1 else 0)
  }

  predicate Doomed(db: Db, h: Hash, abandoned: Blocks) {
    TxKey(h) in db && db[TxKey(h)].Indexed? && Hit(db[TxKey(h)].pos, abandoned)
  }

  /**
  The database without the entries of abandoned blocks and without spent marks that point into them.
  */
  ghost function Cleaned(db: Db, abandoned: Blocks): Db {
    map k | k in db && !(k.TxKey? && db[k].Indexed? && Hit(db[k].pos, abandoned)) ::
      if k.TxKey? && db[k].Indexed? then Indexed(db[k].pos, Unmarked(db[k].spent, abandoned)) else db[k]
  }

  /** Nothing in the index points into an abandoned block any more. */
  ghost predicate Clean(db: Db, abandoned: Blocks) {
    forall h :: TxKey(h) in db && db[TxKey(h)].Indexed? ==>
      && !Hit(db[TxKey(h)].pos, abandoned)
      && forall i :: 0 <= i < |db[TxKey(h)].spent| ==> !Hit(db[TxKey(h)].spent[i], abandoned)
  }

  lemma CleanedIsClean(db: Db, abandoned: Blocks)
    ensures Clean(Cleaned(db, abandoned), abandoned)
  {
    var c := Cleaned(db, abandoned);
    forall h | TxKey(h) in c && c[TxKey(h)].Indexed?
      ensures !Hit(c[TxKey(h)].pos, abandoned) && forall i :: 0 <= i < |c[TxKey(h)].spent| ==>
          !Hit(c[TxKey(h)].spent[i], abandoned)
    {
      assert TxKey(h) in db && db[TxKey(h)].Indexed?;
    }
  }

  /** A clean database is left as it is, so repairing again does nothing. */
  lemma CleanUnchanged(db: Db, abandoned: Blocks)
    requires Clean(db, abandoned)
    ensures Cleaned(db, abandoned) == db
  {
    forall k | k in db ensures k in Cleaned(db, abandoned) && Cleaned(db, abandoned)[k] == db[k] {
      if k.TxKey? && db[k].Indexed? {
        assert TxKey(k.hash) == k;
        UnmarkedSame(db[k].spent, abandoned);
      }
    }
    assert forall k :: k in Cleaned(db, abandoned) ==> k in db;
  }

  lemma UnmarkedSame(spent: seq<Place>, abandoned: Blocks)
    requires forall i :: 0 <= i < |spent| ==> !Hit(spent[i], abandoned)
    ensures Unmarked(spent, abandoned) == spent
  {
  }

  lemma {:induction false} NoMarks(spent: seq<Place>, abandoned: Blocks)
    ensures Marks(spent, abandoned) == 0 <==> Unmarked(spent, abandoned) == spent
    ensures Marks(spent, abandoned) == 0 <==> forall i :: 0 <= i < |spent| ==> !Hit(spent[i], abandoned)
  {
    if spent != [] {
      var n := |spent| - 1;
      NoMarks(spent[..n], abandoned);
      assert Unmarked(spent, abandoned)[..n] == Unmarked(spent[..n], abandoned);
      if Marks(spent, abandoned) == 0 {
        assert Unmarked(spent, abandoned)[n] == spent[n];
      }
      if Unmarked(spent, abandoned) == spent {
        assert Unmarked(spent, abandoned)[n] == spent[n];
      }
      assert (forall i :: 0 <= i < |spent| ==> !Hit(spent[i], abandoned)) <==>
          (forall i :: 0 <= i < n ==> !Hit(spent[..n][i], abandoned)) && !Hit(spent[n], abandoned);
    }
  }

  // ----- the changes the repair collects -----

  function Doom(db: Db, hs: seq<Hash>, abandoned: Blocks): seq<Hash> {
    if hs == [] then [] else
    Doom(db, hs[..|hs| - 1], abandoned) + (if Doomed(db, hs[|hs| - 1], abandoned) then [hs[|hs| - 1]] else [])
  }

  predicate Stale(db: Db, h: Hash, abandoned: Blocks) {
    && TxKey(h) in db && db[TxKey(h)].Indexed? && !Hit(db[TxKey(h)].pos, abandoned)
    && Marks(db[TxKey(h)].spent, abandoned) > 0
  }

  function Fixed(v: Value, abandoned: Blocks): Value
    requires v.Indexed?
  {
    Indexed(v.pos, Unmarked(v.spent, abandoned))
  }

  function Fixes(db: Db, hs: seq<Hash>, abandoned: Blocks): seq<(Hash, Value)> {
    if hs == [] then [] else
    var h := hs[|hs| - 1];
    Fixes(db, hs[..|hs| - 1], abandoned)
    + (if Stale(db, h, abandoned) then [(h, Fixed(db[TxKey(h)], abandoned))] else [])
  }

  /** The spent marks cleared on the entries that stay. */
  function Cleared(db: Db, hs: seq<Hash>, abandoned: Blocks): nat {
    if hs == [] then 0 else
    var h := hs[|hs| - 1];
    Cleared(db, hs[..|hs| - 1], abandoned)
    + (if Stale(db, h, abandoned) then Marks(db[TxKey(h)].spent, abandoned) else 0)
  }

  function Deletes(hs: seq<Hash>): Batch {
    if hs == [] then [] else Deletes(hs[..|hs| - 1]) + [Delete(TxKey(hs[|hs| - 1]))]
  }

  function Puts(fs: seq<(Hash, Value)>): Batch {
    if fs == [] then [] else Puts(fs[..|fs| - 1]) + [Put(TxKey(fs[|fs| - 1].0), fs[|fs| - 1].1)]
  }

  lemma {:induction false} DeletesDo(db: Db, hs: seq<Hash>, k: DbKey)
    ensures k in Apply(db, Deletes(hs)) <==> k in db && !(k.TxKey? && k.hash in hs)
    ensures k in Apply(db, Deletes(hs)) ==> Apply(db, Deletes(hs))[k] == db[k]
  {
    if hs != [] {
      var n := |hs| - 1;
      DeletesDo(db, hs[..n], k);
      var b := Deletes(hs);
      assert b[..|b| - 1] == Deletes(hs[..n]);
      assert hs == hs[..n] + [hs[n]];
    }
  }

  ghost predicate Named(fs: seq<(Hash, Value)>, k: DbKey) {
    exists i :: 0 <= i < |fs| && TxKey(fs[i].0) == k
  }

  lemma NamedMore(fs: seq<(Hash, Value)>, k: DbKey)
    requires fs != []
    ensures Named(fs, k) <==> Named(fs[..|fs| - 1], k) || TxKey(fs[|fs| - 1].0) == k
  {
    var n := |fs| - 1;
    if Named(fs[..n], k) {
      var i :| 0 <= i < n && TxKey(fs[..n][i].0) == k;
      assert TxKey(fs[i].0) == k;
    }
    if Named(fs, k) {
      var i :| 0 <= i < |fs| && TxKey(fs[i].0) == k;
      if i < n { assert TxKey(fs[..n][i].0) == k; }
    }
  }

  /** Putting entries that agree on a key puts that value under it. */
  lemma {:induction false} PutsDo(db: Db, fs: seq<(Hash, Value)>, k: DbKey, want: Value)
    requires forall i :: 0 <= i < |fs| && TxKey(fs[i].0) == k ==> fs[i].1 == want
    ensures Lookup(Apply(db, Puts(fs)), k) == if Named(fs, k) then Some(want) else Lookup(db, k)
  {
    hide Named;
    if fs == [] {
      assert !Named(fs, k) by { NoneNamed(k); }
    } else {
      var n := |fs| - 1;
      PutsDo(db, fs[..n], k, want);
      NamedMore(fs, k);
      var b := Puts(fs);
      assert b[..|b| - 1] == Puts(fs[..n]);
    }
  }

  lemma NoneNamed(k: DbKey)
    ensures !Named([], k)
  {
  }

  lemma {:induction false} DoomIs(db: Db, hs: seq<Hash>, abandoned: Blocks, h: Hash)
    ensures h in Doom(db, hs, abandoned) <==> h in hs && Doomed(db, h, abandoned)
  {
    if hs != [] {
      DoomIs(db, hs[..|hs| - 1], abandoned, h);
      assert hs == hs[..|hs| - 1] + [hs[|hs| - 1]];
    }
  }

  lemma {:induction false} FixesAre(db: Db, hs: seq<Hash>, abandoned: Blocks)
    ensures forall i :: 0 <= i < |Fixes(db, hs, abandoned)| ==>
      var f := Fixes(db, hs, abandoned)[i];
      f.0 in hs && Stale(db, f.0, abandoned) && f.1 == Fixed(db[TxKey(f.0)], abandoned)
    ensures forall h :: h in hs && Stale(db, h, abandoned) ==>
        exists i :: 0 <= i < |Fixes(db, hs, abandoned)| && Fixes(db, hs, abandoned)[i].0 == h
  {
    if hs != [] {
      var n := |hs| - 1;
      FixesAre(db, hs[..n], abandoned);
      assert hs == hs[..n] + [hs[n]];
      var fs, gs := Fixes(db, hs, abandoned), Fixes(db, hs[..n], abandoned);
      forall h | h in hs && Stale(db, h, abandoned) ensures exists i :: 0 <= i < |fs| && fs[i].0 == h {
        if h == hs[n] {
          assert fs[|gs|].0 == h;
        } else {
          var i :| 0 <= i < |gs| && gs[i].0 == h;
          assert fs[i].0 == h;
        }
      }
    }
  }

  /** The collected changes make the database what the repair promises. */
  lemma ChangesClean(db: Db, hs: seq<Hash>, abandoned: Blocks)
    requires forall h :: TxKey(h) in db ==> h in hs
    ensures Apply(db, Deletes(Doom(db, hs, abandoned)) + Puts(Fixes(db, hs, abandoned))) == Cleaned(db, abandoned)
  {
    var doom, fixes := Doom(db, hs, abandoned), Fixes(db, hs, abandoned);
    ApplyAppend(db, Deletes(doom), Puts(fixes));
    var mid, c := Apply(db, Deletes(doom)), Cleaned(db, abandoned);
    var end := Apply(mid, Puts(fixes));
    forall k ensures Lookup(end, k) == Lookup(c, k) {
      KeyCleaned(db, hs, abandoned, k);
    }
    forall k ensures k in end <==> k in c {
      assert Lookup(end, k) == Lookup(c, k);
    }
    forall k | k in c ensures end[k] == c[k] {
      assert Lookup(end, k) == Lookup(c, k);
    }
    assert end == c;
  }

  lemma KeyCleaned(db: Db, hs: seq<Hash>, abandoned: Blocks, k: DbKey)
    requires forall h :: TxKey(h) in db ==> h in hs
    ensures Lookup(Apply(Apply(db, Deletes(Doom(db, hs, abandoned))), Puts(Fixes(db, hs, abandoned))), k) ==
        Lookup(Cleaned(db, abandoned), k)
  {
    var doom, fixes := Doom(db, hs, abandoned), Fixes(db, hs, abandoned);
    var mid := Apply(db, Deletes(doom));
    DeletesDo(db, doom, k);
    FixesAre(db, hs, abandoned);
    if k.TxKey? {
      DoomIs(db, hs, abandoned, k.hash);
    }
    if k.TxKey? && k in db && db[k].Indexed? {
      NoMarks(db[k].spent, abandoned);
      PutsDo(mid, fixes, k, Fixed(db[k], abandoned));
    } else {
      assert forall i :: 0 <= i < |fixes| ==> TxKey(fixes[i].0) != k;
      PutsDo(mid, fixes, k, Garbled);
    }
  }
}
