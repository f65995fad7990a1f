/** The database handle: changes go to the pending batch if there is one, and reads see them. */
module TxDbStore {
  import opened Basics
  import opened TxDb

  class TransactionDb {
    var db: Db
    var batch: Option<Batch>

    /** What reads are to see: the database with the pending changes made. */
    function View(): Db
      reads this
    {
      if batch.None? then db else Apply(db, batch.value)
    }

    constructor (db: Db)
      ensures this.db == db && batch == None
    {
      this.db, batch := db, None;
    }

    method TxnBegin()
      requires batch.None?
      modifies this
      ensures batch == Some([]) && db == old(db) && View() == old(View())
    {
      batch := Some([]);
    }

    /** All pending changes at once, or, where the write fails, none. */
    method TxnCommit(writes: bool) returns (ok: bool)
      requires batch.Some?
      modifies this
      ensures batch == None && ok == writes && db == if writes then old(View()) else old(db)
    {
      if writes {
        db := Apply(db, batch.value);
      }
      batch := None;
      return writes;
    }

    method TxnAbort()
      modifies this
      ensures batch == None && db == old(db)
    {
      batch := None;
    }

    /** Go through the whole batch: the last change of the key is the answer. */
    method ScanBatch(k: DbKey) returns (found: bool, value: Option<Value>, deleted: bool)
      requires batch.Some?
      ensures found == LastOf(batch.value, k).Some?
      ensures found ==> deleted == LastOf(batch.value, k).value.Delete?
      ensures found && !deleted ==> value == Some(LastOf(batch.value, k).value.value)
      ensures !found ==> !deleted
    {
      found, value, deleted := false, None, false;
      for i := 0 to |batch.value|
        invariant found == LastOf(batch.value[..i], k).Some?
        invariant found ==> deleted == LastOf(batch.value[..i], k).value.Delete?
        invariant found && !deleted ==> value == Some(LastOf(batch.value[..i], k).value.value)
        invariant !found ==> !deleted
      {
        var change := batch.value[i];
        assert batch.value[..i + 1][..i] == batch.value[..i];
        match change {
          case Put(key, v) =>
            if key == k {
              found, deleted, value := true, false, Some(v);
            }
          case Delete(key) =>
            if key == k {
              found, deleted := true, true;
            }
        }
      }
      assert batch.value[..|batch.value|] == batch.value;
    }

    method Read(k: DbKey) returns (value: Option<Value>)
      ensures value == Lookup(View(), k)
    {
      if batch.Some? {
        LastDecides(db, batch.value, k);
        var found, v, deleted := ScanBatch(k);
        if deleted {
          return None;
        }
        if found {
          return v;
        }
      }
      return if k in db then Some(db[k]) else None;
    }

    method Exists(k: DbKey) returns (there: bool)
      ensures there == (k in View())
    {
      if batch.Some? {
        LastDecides(db, batch.value, k);
        var found, v, deleted := ScanBatch(k);
        if found {
          return !deleted;
        }
      }
      return k in db;
    }

    method Write(k: DbKey, v: Value)
      modifies this
      ensures View() == old(View())[k := v] && (old(batch).Some? ==> db == old(db)) && batch.Some? == old(batch).Some?
      ensures batch == if old(batch).Some? then Some(old(batch).value + [Put(k, v)]) else None
    {
      if batch.Some? {
        ghost var more := batch.value + [Put(k, v)];
        assert more[..|more| - 1] == batch.value;
        batch := Some(batch.value + [Put(k, v)]);
      } else {
        db := db[k := v];
      }
    }

    method Erase(k: DbKey)
      modifies this
      ensures View() == old(View()) - {k} && (old(batch).Some? ==> db == old(db)) && batch.Some? == old(batch).Some?
      ensures batch == if old(batch).Some? then Some(old(batch).value + [Delete(k)]) else None
    {
      if batch.Some? {
        ghost var more := batch.value + [Delete(k)];
        assert more[..|more| - 1] == batch.value;
        batch := Some(batch.value + [Delete(k)]);
      } else {
        db := db - {k};
      }
    }

    /** Clear the marks of one entry that point into abandoned blocks. */
    method ClearMarks(spent: seq<Place>, abandoned: Blocks) returns (marks: seq<Place>, cleared: nat)
      ensures marks == Unmarked(spent, abandoned) && cleared == Marks(spent, abandoned)
    {
      marks, cleared := spent, 0;
      for i := 0 to |spent|
        invariant |marks| == |spent| && cleared == Marks(spent[..i], abandoned)
        invariant forall j :: 0 <= j < |spent| ==>
            marks[j] == if j < i && Hit(spent[j], abandoned) then Nowhere else spent[j]
      {
        assert spent[..i + 1][..i] == spent[..i];
        if marks[i] != Nowhere && (marks[i].file, marks[i].block) in abandoned {
          marks := marks[i := Nowhere];
          cleared := cleared + 1;
        }
      }
      assert spent[..|spent|] == spent;
    }

    /** First pass: read every index entry and collect what is to change. */
    method Collect(order: seq<Hash>, abandoned: Blocks)
      returns (ok: bool, toErase: seq<Hash>, toRewrite: seq<(Hash, Value)>, cleared: nat, scanned: nat)
      requires forall i :: 0 <= i < |order| ==> TxKey(order[i]) in db
      ensures ok == forall i :: 0 <= i < |order| ==> db[TxKey(order[i])].Indexed?
      ensures ok ==> toErase == Doom(db, order, abandoned) && toRewrite == Fixes(db, order, abandoned)
      ensures ok ==> cleared == Cleared(db, order, abandoned) && scanned == |order|
    {
      hide Unmarked, Marks;
      ok, toErase, toRewrite, cleared, scanned := true, [], [], 0, 0;
      for i := 0 to |order|
        invariant ok && forall j :: 0 <= j < i ==> db[TxKey(order[j])].Indexed?
        invariant toErase == Doom(db, order[..i], abandoned) && toRewrite == Fixes(db, order[..i], abandoned)
        invariant cleared == Cleared(db, order[..i], abandoned) && scanned == i
      {
        var h := order[i];
        var entry := db[TxKey(h)];
        assert order[..i + 1][..i] == order[..i];
        if !entry.Indexed? {
          ok := false;
          return;
        }
        scanned := scanned + 1;
        if Hit(entry.pos, abandoned) {
          toErase := toErase + [h];
        } else {
          var marks, n := ClearMarks(entry.spent, abandoned);
          if n > 0 {
            cleared := cleared + n;
            toRewrite := toRewrite + [(h, Indexed(entry.pos, marks))];
          }
        }
      }
      assert order[..|order|] == order;
    }

    /** Second pass: one batch with all the changes. */
    method Stage(toErase: seq<Hash>, toRewrite: seq<(Hash, Value)>)
      requires batch == Some([])
      modifies this
      ensures batch == Some(Deletes(toErase) + Puts(toRewrite)) && db == old(db)
    {
      for i := 0 to |toErase|
        invariant batch == Some(Deletes(toErase[..i])) && db == old(db)
      {
        assert toErase[..i + 1][..i] == toErase[..i];
        Erase(TxKey(toErase[i]));
      }
      assert toErase[..|toErase|] == toErase;
      assert Deletes(toErase) + Puts([]) == Deletes(toErase);
      for i := 0 to |toRewrite|
        invariant batch == Some(Deletes(toErase) + Puts(toRewrite[..i])) && db == old(db)
      {
        assert toRewrite[..i + 1][..i] == toRewrite[..i];
        assert Deletes(toErase) + Puts(toRewrite[..i + 1]) ==
            Deletes(toErase) + Puts(toRewrite[..i]) + [Put(TxKey(toRewrite[i].0), toRewrite[i].1)];
        Write(TxKey(toRewrite[i].0), toRewrite[i].1);
      }
      assert toRewrite[..|toRewrite|] == toRewrite;
    }

    /**
    The repair. It changes the database to exactly the cleaned one or not at all, and reports how many
    entries went and how many marks were cleared. An entry that cannot be read stops it before any change.
    */
    method CleanAbandonedRange(order: seq<Hash>, abandoned: Blocks, writes: bool, syncs: bool)
      returns (ok: bool, deleted: nat, cleared: nat, scanned: nat)
      requires batch.None?
      requires (forall i :: 0 <= i < |order| ==> TxKey(order[i]) in db) && (forall h :: TxKey(h) in db ==> h in order)
      requires forall i, j :: 0 <= i < j < |order| ==> order[i] != order[j]
      modifies this
      ensures batch.None?
      ensures var readable := forall i :: 0 <= i < |order| ==> old(db)[TxKey(order[i])].Indexed?;
        && db == (if readable && writes then Cleaned(old(db), abandoned) else old(db))
        && (ok <==> abandoned == {} || (readable && (Cleaned(old(db), abandoned) == old(db) || (writes && syncs))))
      ensures ok ==> Clean(db, abandoned)
      ensures ok && abandoned != {} ==>
        && deleted == |set h | h in order && Doomed(old(db), h, abandoned)| &&
           cleared == Cleared(old(db), order, abandoned) && scanned == |order|
    {
      deleted, cleared, scanned := 0, 0, 0;
      if abandoned == {} {
        NothingAbandoned(db);
        return true, deleted, cleared, scanned;
      }
      var toErase: seq<Hash>, toRewrite: seq<(Hash, Value)>;
      ok, toErase, toRewrite, cleared, scanned := Collect(order, abandoned);
      if !ok {
        return;
      }
      ChangesClean(db, order, abandoned);
      CleanedIsClean(db, abandoned);
      DoomCount(db, order, abandoned);
      NothingToDo(db, order, abandoned);
      if toErase == [] && toRewrite == [] {
        return;
      }
      TxnBegin();
      Stage(toErase, toRewrite);
      deleted := |toErase|;
      ok := TxnCommit(writes);
      if !ok {
        return;
      }
      return syncs, deleted, cleared, scanned;
    }
  }

  /** A second repair finds nothing to delete and nothing to clear. */
  lemma RepairTwice(db: Db, order: seq<Hash>, abandoned: Blocks)
    ensures var c := Cleaned(db, abandoned);
      Cleaned(c, abandoned) == c && Doom(c, order, abandoned) == [] && Cleared(c, order, abandoned) == 0
  {
    CleanedIsClean(db, abandoned);
    CleanUnchanged(Cleaned(db, abandoned), abandoned);
    NoneCollected(Cleaned(db, abandoned), order, abandoned);
  }

  lemma NothingAbandoned(db: Db)
    ensures Cleaned(db, {}) == db && Clean(db, {})
  {
    CleanUnchanged(db, {});
  }

  lemma {:induction false} DoomCount(db: Db, order: seq<Hash>, abandoned: Blocks)
    requires forall i, j :: 0 <= i < j < |order| ==> order[i] != order[j]
    ensures |Doom(db, order, abandoned)| == |set h | h in order && Doomed(db, h, abandoned)|
  {
    if order != [] {
      var n := |order| - 1;
      DoomCount(db, order[..n], abandoned);
      var a, b := set h | h in order[..n] && Doomed(db, h, abandoned), set h | h in order && Doomed(db, h, abandoned);
      assert order == order[..n] + [order[n]];
      if Doomed(db, order[n], abandoned) {
        assert b == a + {order[n]};
        assert order[n] !in order[..n];
      } else {
        assert b == a;
      }
    }
  }

  /** Nothing is collected exactly when the database is clean already. */
  lemma NothingToDo(db: Db, order: seq<Hash>, abandoned: Blocks)
    requires forall i :: 0 <= i < |order| ==> TxKey(order[i]) in db && db[TxKey(order[i])].Indexed?
    requires forall h :: TxKey(h) in db ==> h in order
    ensures Doom(db, order, abandoned) == [] && Fixes(db, order, abandoned) == [] <==> Cleaned(db, abandoned) == db
    ensures Cleaned(db, abandoned) == db ==> Clean(db, abandoned) && Cleared(db, order, abandoned) == 0
  {
    CleanedIsClean(db, abandoned);
    ChangesClean(db, order, abandoned);
    if Doom(db, order, abandoned) == [] && Fixes(db, order, abandoned) == [] {
      assert Deletes([]) + Puts([]) == [];
    }
    if Cleaned(db, abandoned) == db {
      NoneCollected(db, order, abandoned);
    }
  }

  lemma {:induction false} NoneCollected(db: Db, order: seq<Hash>, abandoned: Blocks)
    requires Clean(db, abandoned)
    ensures Doom(db, order, abandoned) == [] && Fixes(db, order, abandoned) == [] && Cleared(db, order, abandoned) == 0
  {
    if order != [] {
      NoneCollected(db, order[..|order| - 1], abandoned);
      var h := order[|order| - 1];
      if TxKey(h) in db && db[TxKey(h)].Indexed? {
        NoMarks(db[TxKey(h)].spent, abandoned);
      }
    }
  }
}
