/** What several parts share. */
module Basics {

  datatype Option<T> = None | Some(value: T)

  /** Division that drops the fraction, toward zero. */
  function TruncDiv(num: int, den: int): int
    requires den > 0
  {
    if num >= 0 then num / den else -(-num / den)
  }

  function Least(a: nat, b: nat): nat {
    if a < b then a else b
  }

  /** Taking the last element out of a reordering of a sequence. */
  lemma TakenOut<T>(a: seq<T>, b: seq<T>) returns (i: nat)
    requires a != [] && multiset(a) == multiset(b)
    ensures i < |b| && b[i] == a[|a| - 1] && multiset(a[..|a| - 1]) == multiset(b[..i] + b[i + 1..])
  {
    var n := |a| - 1;
    assert a[n] in multiset(b);
    i :| 0 <= i < |b| && b[i] == a[n];
    assert a == a[..n] + [a[n]];
    assert b == b[..i] + [b[i]] + b[i + 1..];
    assert multiset(b) == multiset(b[..i] + b[i + 1..]) + multiset{a[n]};
    Cancel(multiset(a[..n]), multiset(b[..i] + b[i + 1..]), a[n]);
  }

  lemma Cancel<T>(x: multiset<T>, y: multiset<T>, e: T)
    requires x + multiset{e} == y + multiset{e}
    ensures x == y
  {
    forall z ensures x[z] == y[z] {
      assert (x + multiset{e})[z] == (y + multiset{e})[z];
    }
  }
}
