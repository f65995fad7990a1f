/** A bounded map that evicts by value, kept together with an index of its entries in value order. */
module LimitedMap {

  /** The index: values with their keys, in value order; equal values in the order they came. */
  type Index = seq<(int, nat)>

  ghost predicate InOrder(index: Index) {
    forall i, j :: 0 <= i < j < |index| ==> index[i].0 <= index[j].0
  }

  /** The index holds each entry of the map once, and nothing else. */
  ghost predicate Agrees(entries: map<nat, int>, index: Index) {
    Backed(entries, index) && Distinct(index) && Found(entries, index)
  }

  ghost predicate Backed(entries: map<nat, int>, index: Index) {
    forall i :: 0 <= i < |index| ==> index[i].1 in entries && entries[index[i].1] == index[i].0
  }

  ghost predicate Distinct(index: Index) {
    forall i, j :: 0 <= i < j < |index| ==> index[i].1 != index[j].1
  }

  ghost predicate Found(entries: map<nat, int>, index: Index) {
    forall k :: k in entries ==> Holds(index, k)
  }

  ghost predicate Holds(index: Index, k: nat) {
    exists i :: 0 <= i < |index| && index[i].1 == k
  }

  /** The keys of an index. */
  ghost function Keys(index: Index): set<nat> {
    set i | 0 <= i < |index| :: index[i].1
  }

  lemma {:induction false} KeysCount(index: Index)
    requires Distinct(index)
    ensures |Keys(index)| == |index|
  {
    if index != [] {
      var n := |index| - 1;
      KeysCount(index[..n]);
      assert Keys(index) == Keys(index[..n]) + {index[n].1};
    }
  }

  lemma SameCount(entries: map<nat, int>, index: Index)
    requires Agrees(entries, index)
    ensures |index| == |entries|
  {
    KeysCount(index);
    forall k ensures k in Keys(index) <==> k in entries.Keys {
      if k in entries { assert Holds(index, k); }
    }
    assert Keys(index) == entries.Keys;
  }

  ghost function Without(index: Index, i: nat): Index
    requires i < |index|
  {
    index[..i] + index[i + 1..]
  }

  ghost function With(index: Index, i: nat, e: (int, nat)): Index
    requires i <= |index|
  {
    index[..i] + [e] + index[i..]
  }

  lemma RemoveKeeps(entries: map<nat, int>, index: Index, i: nat)
    requires i < |index| && Agrees(entries, index) && InOrder(index)
    ensures Agrees(entries - {index[i].1}, Without(index, i)) && InOrder(Without(index, i))
  {
    hide Found;
    var next, k := Without(index, i), index[i].1;
    assert forall j :: 0 <= j < |next| ==> next[j] == index[if j < i then j else j + 1];
    assert Distinct(next) && InOrder(next);
    assert Backed(entries - {k}, next);
    RemoveFinds(entries, index, i);
  }

  lemma RemoveFinds(entries: map<nat, int>, index: Index, i: nat)
    requires i < |index| && Found(entries, index)
    ensures Found(entries - {index[i].1}, Without(index, i))
  {
    var next, k := Without(index, i), index[i].1;
    forall g | g in entries - {k} ensures Holds(next, g) {
      assert Holds(index, g);
      var j :| 0 <= j < |index| && index[j].1 == g;
      assert next[if j < i then j else j - 1] == index[j];
    }
  }

  lemma InsertKeeps(entries: map<nat, int>, index: Index, i: nat, k: nat, v: int)
    requires i <= |index| && Agrees(entries, index) && InOrder(index) && k !in entries
    requires (forall j :: 0 <= j < i ==> index[j].0 <= v) && (forall j :: i <= j < |index| ==> v < index[j].0)
    ensures Agrees(entries[k := v], With(index, i, (v, k))) && InOrder(With(index, i, (v, k)))
  {
    hide Found;
    var next := With(index, i, (v, k));
    assert forall j :: 0 <= j < |next| ==>
        next[j] == if j < i then index[j] else if j == i then (v, k) else index[j - 1];
    InsertOrder(index, i, k, v);
    assert Backed(entries[k := v], next);
    assert Distinct(next);
    InsertFinds(entries, index, i, k, v);
  }

  lemma InsertOrder(index: Index, i: nat, k: nat, v: int)
    requires i <= |index| && InOrder(index)
    requires (forall j :: 0 <= j < i ==> index[j].0 <= v) && (forall j :: i <= j < |index| ==> v < index[j].0)
    ensures InOrder(With(index, i, (v, k)))
  {
    var next := With(index, i, (v, k));
    assert forall j :: 0 <= j < |next| ==>
        next[j] == if j < i then index[j] else if j == i then (v, k) else index[j - 1];
  }

  lemma InsertFinds(entries: map<nat, int>, index: Index, i: nat, k: nat, v: int)
    requires i <= |index| && Found(entries, index)
    ensures Found(entries[k := v], With(index, i, (v, k)))
  {
    var next := With(index, i, (v, k));
    forall g | g in entries[k := v] ensures Holds(next, g) {
      if g == k {
        assert next[i].1 == k;
      } else {
        assert Holds(index, g);
        var j :| 0 <= j < |index| && index[j].1 == g;
        assert next[if j < i then j else j + 1] == index[j];
      }
    }
  }

  /** What is in front is not above anything held. */
  lemma FrontIsLowest(entries: map<nat, int>, index: Index, g: nat)
    requires Agrees(entries, index) && InOrder(index) && g in entries
    ensures index != [] && index[0].1 in entries && entries[index[0].1] <= entries[g]
  {
    assert Holds(index, g);
    var j :| 0 <= j < |index| && index[j].1 == g;
    assert index[0].0 <= index[j].0;
  }

  class Limited {
    var entries: map<nat, int>
    var index: Index
    var maxSize: nat

    ghost predicate Valid()
      reads this
    {
      maxSize > 0 && Agrees(entries, index) && InOrder(index) && |entries| <= maxSize
    }

    constructor (size: nat)
      requires size > 0
      ensures Valid() && entries == map[] && maxSize == size
    {
      entries, index, maxSize := map[], [], size;
    }

    /** Enter a key in the index behind all values that are not greater. */
    method Enter(k: nat, v: int)
      requires Agrees(entries, index) && InOrder(index) && k !in entries
      modifies this
      ensures entries == old(entries)[k := v] && Agrees(entries, index) && InOrder(index) && maxSize == old(maxSize)
    {
      var i := |index|;
      while i > 0 && index[i - 1].0 > v
        invariant 0 <= i <= |index| && index == old(index) && entries == old(entries) && maxSize == old(maxSize)
        invariant forall j :: i <= j < |index| ==> v < index[j].0
      {
        i := i - 1;
      }
      InsertKeeps(entries, index, i, k, v);
      entries := entries[k := v];
      index := index[..i] + [(v, k)] + index[i..];
    }

    /** Drop the entry in front of the index: one with the lowest value. */
    method EvictLowest() returns (k: nat)
      requires Agrees(entries, index) && InOrder(index) && entries != map[]
      modifies this
      ensures k in old(entries) && forall g :: g in old(entries) ==> old(entries)[k] <= old(entries)[g]
      ensures entries == old(entries) - {k} && Agrees(entries, index) && InOrder(index) && maxSize == old(maxSize)
    {
      hide Agrees, InOrder;
      ghost var some :| some in entries;
      FrontIsLowest(entries, index, some);
      k := index[0].1;
      forall g | g in entries ensures entries[k] <= entries[g] {
        FrontIsLowest(entries, index, g);
      }
      RemoveKeeps(entries, index, 0);
      entries := entries - {k};
      assert index[..0] + index[1..] == index[1..];
      index := index[1..];
    }

    /**
    A key already held keeps its value. Into a full map the new key always goes, and one of the
    lowest-valued of the others makes room for it, even where the new value is lower still.
    */
    method Insert(k: nat, v: int)
      requires Valid()
      modifies this
      ensures Valid() && maxSize == old(maxSize)
      ensures k in old(entries) ==> entries == old(entries)
      ensures k !in old(entries) && |old(entries)| < maxSize ==> entries == old(entries)[k := v]
      ensures k !in old(entries) && |old(entries)| == maxSize ==>
        exists g :: g in old(entries) && (forall h :: h in old(entries) ==> old(entries)[g] <= old(entries)[h])
          && entries == (old(entries) - {g})[k := v]
    {
      if k in entries {
        return;
      }
      if |entries| + 1 > maxSize {
        assert |entries| > 0;
        var g := EvictLowest();
        assert |entries| == |old(entries)| - 1 by { OneLess(old(entries), g); }
      }
      Enter(k, v);
    }

    /** Where the index holds a key: the search through equal values cannot fail. */
    method Locate(k: nat) returns (i: nat)
      requires Valid() && k in entries
      ensures i < |index| && index[i] == (entries[k], k)
    {
      assert Holds(index, k);
      i := 0;
      while i < |index| && index[i].0 < entries[k]
        invariant 0 <= i <= |index| && forall j :: 0 <= j < i ==> index[j].1 != k
      {
        i := i + 1;
      }
      while i < |index| && index[i].0 == entries[k]
        invariant 0 <= i <= |index| && forall j :: 0 <= j < i ==> index[j].1 != k
      {
        if index[i].1 == k {
          return;
        }
        i := i + 1;
      }
      assert false;
    }

    method Erase(k: nat)
      requires Valid()
      modifies this
      ensures Valid() && maxSize == old(maxSize) && entries == old(entries) - {k}
    {
      if k !in entries {
        assert entries == entries - {k};
        return;
      }
      var i := Locate(k);
      RemoveKeeps(entries, index, i);
      OneLess(entries, k);
      index := index[..i] + index[i + 1..];
      entries := entries - {k};
    }

    method Update(k: nat, v: int)
      requires Valid()
      modifies this
      ensures Valid() && maxSize == old(maxSize)
      ensures entries == if k in old(entries) then old(entries)[k := v] else old(entries)
    {
      hide Agrees, InOrder;
      if k !in entries {
        return;
      }
      var i := Locate(k);
      RemoveKeeps(entries, index, i);
      OneLess(entries, k);
      PutBack(entries, k, v);
      index := index[..i] + index[i + 1..];
      entries := entries - {k};
      Enter(k, v);
    }

    /** A lower limit drops lowest-valued entries until the rest fit; what goes is never above what stays. */
    method SetMaxSize(s: nat)
      requires Valid() && s > 0
      modifies this
      ensures Valid() && maxSize == s &&
          (forall k :: k in entries ==> k in old(entries) && entries[k] == old(entries)[k])
      ensures |entries| == if |old(entries)| > s then s else |old(entries)|
      ensures forall k, g :: k in entries && g in old(entries) && g !in entries ==> old(entries)[g] <= entries[k]
    {
      while |entries| > s
        invariant Agrees(entries, index) && InOrder(index)
        invariant forall k :: k in entries ==> k in old(entries) && entries[k] == old(entries)[k]
        invariant |entries| <= |old(entries)| && (|old(entries)| > s ==> |entries| >= s) &&
            (|old(entries)| <= s ==> entries == old(entries))
        invariant forall k, g :: k in entries && g in old(entries) && g !in entries ==> old(entries)[g] <= entries[k]
        decreases |entries|
      {
        ghost var was := entries;
        var g := EvictLowest();
        OneLess(was, g);
      }
      maxSize := s;
    }
  }

  lemma PutBack(entries: map<nat, int>, k: nat, v: int)
    requires k in entries
    ensures (entries - {k})[k := v] == entries[k := v] && |entries[k := v]| == |entries|
  {
    assert entries[k := v].Keys == entries.Keys;
  }

  lemma OneLess(entries: map<nat, int>, k: nat)
    requires k in entries
    ensures |entries - {k}| == |entries| - 1
  {
    assert entries == (entries - {k})[k := entries[k]];
  }
}
