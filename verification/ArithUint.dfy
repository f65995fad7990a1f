/** Unsigned integers of a fixed number of 32-bit limbs, updated in place. */
module ArithUint {
  import opened Powers
  import opened Limbs
  import opened LimbLoops
  import opened LimbShifts
  import opened LimbBits

  class BaseUint {
    const pn: array<nat>

    ghost predicate Valid()
      reads pn
    {
      pn.Length >= 2 && AreLimbs(pn[..])
    }

    /** The number the limbs stand for. */
    ghost function Value(): nat
      reads pn
    {
      Val(pn[..])
    }

    /** One more than the largest number of this width. */
    ghost function Range(): (m: nat)
      ensures m > 0
    {
      Modulus(pn.Length)
    }

    constructor Zero(width: nat)
      requires width >= 2
      ensures Valid() && fresh(pn) && pn.Length == width && Value() == 0
      ensures forall i :: 0 <= i < width ==> pn[i] == 0
    {
      pn := new nat[width](_ => 0);
      new;
      ValZero(pn[..]);
    }

    constructor Copy(b: BaseUint)
      requires b.Valid()
      ensures Valid() && fresh(pn) && pn.Length == b.pn.Length && pn[..] == b.pn[..]
    {
      pn := new nat[b.pn.Length](i requires 0 <= i < b.pn.Length reads b.pn => b.pn[i]);
    }

    constructor FromU64(width: nat, b: nat)
      requires width >= 2 && b < TWO64
      ensures Valid() && fresh(pn) && pn.Length == width && Value() == b
    {
      pn := new nat[width](i => if i == 0 then b % B else if i == 1 then b / B else 0);
      new;
      TwoLimbs(pn[..], b);
    }

    method AddAssign(b: BaseUint)
      requires Valid() && b.Valid() && b.pn.Length == pn.Length
      modifies pn
      ensures Valid()
      ensures Value() == (old(Value()) + old(b.Value())) % Range()
    {
      hide Val, Pow, Modulus;
      ghost var was, bs := pn[..], b.pn[..];
      var carry: nat, i: nat := 0, 0;
      assert Adding(was, bs, pn[..], 0, 0) by { AddingStart(was, bs); }
      while i < pn.Length
        invariant 0 <= i <= pn.Length && b.pn[i..] == bs[i..]
        invariant Adding(was, bs, pn[..], i, carry)
      {
        AddingStep(was, bs, pn[..], i, carry);
        assert b.pn[i] == b.pn[i..][0] == bs[i..][0] == bs[i];
        ghost var now: seq<nat>, rest := pn[..], b.pn[i..];
        var n: nat := carry + pn[i] + b.pn[i];
        pn[i] := n % B;
        carry := n / B;
        assert pn[..] == now[i := n % B];
        assert b.pn[i + 1..] == rest[1..];
        i := i + 1;
      }
      AddingEnd(was, bs, pn[..], carry);
    }

    method Increment()
      requires Valid()
      modifies pn
      ensures Valid() && Value() == (old(Value()) + 1) % Range()
    {
      hide Val, Pow, Modulus;
      ghost var was := pn[..];
      var i := 0;
      while i < pn.Length
        invariant 0 <= i <= pn.Length && Counting(was, pn[..], i)
      {
        ghost var now: seq<nat> := pn[..];
        assert now[i] == now[i..][0] == was[i..][0] == was[i];
        CountingEnd(was, now, i);
        pn[i] := (pn[i] + 1) % B;
        if pn[i] != 0 {
          assert pn[..] == now[i := was[i] + 1];
          return;
        }
        assert pn[..] == now[i := 0];
        assert now[i := 0][i + 1..] == now[i..][1..];
        i := i + 1;
      }
      CountingEnd(was, pn[..], i);
    }

    method Complement() returns (ret: BaseUint)
      requires Valid()
      ensures ret.Valid() && fresh(ret) && fresh(ret.pn) && ret.pn.Length == pn.Length
      ensures ret.Value() == Range() - 1 - Value()
    {
      ret := new BaseUint.Zero(pn.Length);
      for i := 0 to pn.Length
        invariant ret.Valid() && ret.pn.Length == pn.Length
        invariant forall p :: 0 <= p < i ==> ret.pn[p] == B - 1 - pn[p]
        modifies ret.pn
      {
        ret.pn[i] := B - 1 - pn[i];
      }
      ComplementVal(pn[..], ret.pn[..]);
    }

    method Negate() returns (ret: BaseUint)
      requires Valid()
      ensures ret.Valid() && fresh(ret) && fresh(ret.pn) && ret.pn.Length == pn.Length
      ensures ret.Value() == (Range() - Value()) % Range()
    {
      ret := Complement();
      ret.Increment();
    }

    method SubAssign(b: BaseUint)
      requires Valid() && b.Valid() && b.pn.Length == pn.Length
      modifies pn
      ensures Valid()
      ensures Value() == (old(Value()) - old(b.Value())) % Range()
    {
      hide Val, Pow, Modulus;
      ValBound(pn[..]);
      ValBound(b.pn[..]);
      ghost var v, u, m := Value(), b.Value(), Range();
      DifferenceMod(v, u, m);
      var minus := b.Negate();
      assert minus.Value() == (m - u) % m;
      AddAssign(minus);
    }

    method Mul32Assign(x: nat)
      requires Valid() && x < B
      modifies pn
      ensures Valid() && Value() == (old(Value()) * x) % Range()
    {
      hide Val, Pow, Modulus;
      ghost var was := pn[..];
      var carry: nat, i: nat := 0, 0;
      ScalingStart(x, was);
      while i < pn.Length
        invariant 0 <= i <= pn.Length && Scaling(x, was, pn[..], i, carry)
      {
        ScalingStep(x, was, pn[..], i, carry);
        ghost var now: seq<nat> := pn[..];
        var n: nat := carry + x * pn[i];
        pn[i] := n % B;
        carry := n / B;
        assert pn[..] == now[i := n % B];
        i := i + 1;
      }
      ScalingEnd(x, was, pn[..], carry);
    }

    /** One row of the product: pn[j] times b is added to a from limb j on. */
    method AddRow(a: BaseUint, b: BaseUint, j: nat) returns (carry: nat)
      requires Valid() && b.Valid() && a.Valid() && a.pn.Length == b.pn.Length == pn.Length > j
      requires a.pn != pn && a.pn != b.pn
      modifies a.pn
      ensures Accumulating(pn[j], b.pn[..], j, old(a.pn[..]), a.pn[..], pn.Length - j, carry)
    {
      hide Val, Pow, Modulus, Accumulating;
      ghost var row, bs, x := a.pn[..], b.pn[..], pn[j];
      var i: nat := 0;
      carry := 0;
      AccumulatingStart(x, bs, j, row);
      while i + j < pn.Length
        invariant 0 <= i <= pn.Length - j && pn[j] == x && b.pn[..] == bs
        invariant Accumulating(x, bs, j, row, a.pn[..], i, carry)
      {
        AccumulatingStep(x, bs, j, row, a.pn[..], i, carry);
        ghost var now: seq<nat> := a.pn[..];
        var n: nat := carry + a.pn[i + j] + pn[j] * b.pn[i];
        a.pn[i + j] := n % B;
        carry := n / B;
        assert a.pn[..] == now[j + i := n % B];
        i := i + 1;
      }
    }

    method MulAssign(b: BaseUint)
      requires Valid() && b.Valid() && b.pn.Length == pn.Length
      modifies pn
      ensures Valid()
      ensures Value() == (old(Value()) * old(b.Value())) % Range()
    {
      hide Val, Pow, Modulus;
      ghost var xs, bs := pn[..], b.pn[..];
      var a := new BaseUint.Zero(pn.Length);
      ghost var over: nat := 0;
      ProductStart(xs, bs, a.pn[..]);
      for j := 0 to pn.Length
        invariant pn[..] == xs && b.pn[..] == bs && Product(xs, bs, j, a.pn[..], over)
        modifies a.pn
      {
        ghost var row := a.pn[..];
        var carry := AddRow(a, b, j);
        over := ProductStep(xs, bs, j, row, over, a.pn[..], carry);
      }
      ProductEnd(xs, bs, a.pn[..], over);
      Assign(a);
    }

    method ShiftLeftAssign(shift: nat)
      requires Valid()
      modifies pn
      ensures Valid() && Value() == (old(Value()) * Pow2(shift)) % Range()
    {
      hide Val, Pow, Pow2, Modulus, Kept, Lost;
      ghost var was := pn[..];
      var a := new BaseUint.Copy(this);
      SetZero();
      var k, r := shift / 32, shift % 32;
      for i := 0 to pn.Length
        invariant AreLimbs(pn[..]) && a.pn[..] == was
        invariant forall p :: 0 <= p < pn.Length ==> pn[p] == LeftWord(was, k, r, i, p)
        modifies pn
      {
        ghost var before: seq<nat> := pn[..];
        var x := a.pn[i];
        assert x == was[i];
        if i + k + 1 < pn.Length && r != 0 {
          pn[i + k + 1] := Or(pn[i + k + 1], Lost(x, r));
        }
        if i + k < pn.Length {
          pn[i + k] := Or(pn[i + k], Kept(x, r));
        }
        LeftStep(was, k, r, i, before, pn[..]);
      }
      LeftIsProduct(was, pn[..], shift, k, r);
    }

    method ShiftRightAssign(shift: nat)
      requires Valid()
      modifies pn
      ensures Valid() && Value() == old(Value()) / Pow2(shift)
    {
      hide Val, Pow, Pow2, Modulus, Kept, Over;
      ghost var was := pn[..];
      var a := new BaseUint.Copy(this);
      SetZero();
      var k, r := shift / 32, shift % 32;
      for i := 0 to pn.Length
        invariant AreLimbs(pn[..]) && a.pn[..] == was
        invariant forall p :: 0 <= p < pn.Length ==> pn[p] == RightWord(was, k, r, i, p)
        modifies pn
      {
        ghost var before: seq<nat> := pn[..];
        var x := a.pn[i];
        assert x == was[i];
        if i - k - 1 >= 0 && r != 0 {
          pn[i - k - 1] := Or(pn[i - k - 1], Kept(x, 32 - r));
        }
        if i - k >= 0 {
          pn[i - k] := Or(pn[i - k], Over(x, Pow2(r)));
        }
        RightStep(was, k, r, i, before, pn[..]);
      }
      RightIsQuotient(was, pn[..], shift, k, r);
    }

    method SetZero()
      requires Valid()
      modifies pn
      ensures Valid() && Value() == 0 && forall i :: 0 <= i < pn.Length ==> pn[i] == 0
    {
      for i := 0 to pn.Length
        invariant forall p :: 0 <= p < i ==> pn[p] == 0
      {
        pn[i] := 0;
      }
      ValZero(pn[..]);
    }

    method CompareTo(b: BaseUint) returns (c: int)
      requires Valid() && b.Valid() && b.pn.Length == pn.Length
      ensures c == (if Value() < b.Value() then -1 else if Value() > b.Value() then 1 else 0)
    {
      hide Val;
      var i := pn.Length;
      while i > 0
        invariant 0 <= i <= pn.Length && pn[i..] == b.pn[i..]
      {
        i := i - 1;
        assert pn[..][i + 1..] == pn[i + 1..] && b.pn[..][i + 1..] == b.pn[i + 1..];
        if pn[i] < b.pn[i] {
          TopDiffers(pn[..], b.pn[..], i);
          return -1;
        }
        if pn[i] > b.pn[i] {
          TopDiffers(b.pn[..], pn[..], i);
          return 1;
        }
        assert pn[i..] == [pn[i]] + pn[i + 1..] && b.pn[i..] == [b.pn[i]] + b.pn[i + 1..];
      }
      assert pn[..] == b.pn[..];
      return 0;
    }

    /** The position of the highest bit set plus one, or zero. */
    method Bits() returns (n: nat)
      requires Valid()
      ensures n <= 32 * pn.Length && (n == 0 <==> Value() == 0)
      ensures n > 0 ==> Pow2(n - 1) <= Value() < Pow2(n)
    {
      hide Val, Pow2;
      var pos := pn.Length;
      while pos > 0
        invariant 0 <= pos <= pn.Length && forall p :: pos <= p < pn.Length ==> pn[p] == 0
      {
        pos := pos - 1;
        if pn[pos] != 0 {
          var top := TopBit(pn[pos]);
          TopLimb(pn[..], pos, top);
          return 32 * pos + top + 1;
        }
      }
      ValZero(pn[..]);
      return 0;
    }

    /** One bit of the quotient. */
    method DivideBit(num: BaseUint, div: BaseUint, ghost n: nat, ghost d: nat, shift: nat)
      requires Valid() && num.Valid() && div.Valid() && div.pn.Length == num.pn.Length == pn.Length
      requires pn != num.pn && pn != div.pn && num.pn != div.pn
      requires shift < 32 * pn.Length && Clear(pn[..], shift)
      requires Dividing(n, d, num.Value(), Value(), shift) && div.Value() == d * Pow2(shift)
      modifies pn, num.pn, div.pn
      ensures Valid() && num.Valid() && div.Valid()
      ensures Clear(pn[..], shift - 1) && Dividing(n, d, num.Value(), Value(), shift - 1)
      ensures shift > 0 ==> div.Value() == d * Pow2(shift - 1)
    {
      hide Val, Pow, Pow2, Modulus, Dividing;
      DividingStep(n, d, num.Value(), Value(), shift);
      ghost var q: seq<nat> := pn[..];
      var p, bit := shift / 32, shift % 32;
      assert q[p] % Pow2(bit + 1) == 0;
      SetBit(q, p, bit);
      ClearBelow(q, shift, q[p]);
      ClearBelow(q, shift, q[p] + Pow2(bit));
      hide Clear;
      var c := num.CompareTo(div);
      if c >= 0 {
        ValBound(num.pn[..]);
        SmallMod(num.Value() - div.Value(), Range());
        num.SubAssign(div);
        pn[p] := Or(pn[p], Pow2(bit));
        assert pn[..] == q[p := q[p] + Pow2(bit)];
        assert 32 * p + bit == shift;
      } else {
        assert q == q[p := q[p]];
      }
      if shift > 0 { HalfDivisor(d, shift); }
      div.ShiftRightAssign(1);
    }

    /** Long division in binary. A zero divisor is refused, with this number already set to zero. */
    method DivAssign(b: BaseUint) returns (ok: bool)
      requires Valid() && b.Valid() && b.pn.Length == pn.Length
      modifies pn
      ensures Valid() && ok == (old(b.Value()) != 0)
      ensures Value() == if ok then old(Value()) / old(b.Value()) else 0
    {
      hide Val, Pow, Pow2, Modulus, Clear, Dividing;
      var div := new BaseUint.Copy(b);
      var num := new BaseUint.Copy(this);
      ghost var n, d := num.Value(), div.Value();
      SetZero();
      var numBits := num.Bits();
      var divBits := div.Bits();
      if divBits == 0 {
        return false;
      }
      if divBits > numBits {
        FewerBits(n, d, numBits, divBits);
        return true;
      }
      FitsBits(n, numBits);
      DividingStart(n, d, numBits, divBits);
      var shift := numBits - divBits;
      ShiftFits(d * Pow2(shift), numBits, pn.Length);
      div.ShiftLeftAssign(shift);
      ClearZero(pn[..], shift);
      while shift >= 0
        invariant -1 <= shift < 32 * pn.Length && Valid() && num.Valid() && div.Valid()
        invariant Clear(pn[..], shift) && Dividing(n, d, num.Value(), Value(), shift)
        invariant shift >= 0 ==> div.Value() == d * Pow2(shift)
      {
        DivideBit(num, div, n, d, shift);
        shift := shift - 1;
      }
      DividingEnd(n, d, num.Value(), Value());
      return true;
    }

    method GetLow64() returns (low: nat)
      requires Valid()
      ensures low == Value() % TWO64
    {
      low := pn[0] + pn[1] * B;
      LowLimbs(pn[..]);
    }

    method EqualTo(b: nat) returns (same: bool)
      requires Valid() && b < TWO64
      ensures same == (Value() == b)
    {
      ghost var u := seq(pn.Length, i requires 0 <= i => if i == 0 then b % B else if i == 1 then b / B else 0);
      TwoLimbs(u, b);
      var i := pn.Length;
      while i > 2
        invariant 2 <= i <= pn.Length && forall p :: i <= p < pn.Length ==> pn[p] == 0
      {
        i := i - 1;
        if pn[i] != 0 {
          SameValue(pn[..], u);
          return false;
        }
      }
      if pn[1] != b / B || pn[0] != b % B {
        SameValue(pn[..], u);
        return false;
      }
      assert pn[..] == u;
      return true;
    }

    method AssignU64(b: nat)
      requires Valid() && b < TWO64
      modifies pn
      ensures Valid() && Value() == b
    {
      pn[0] := b % B;
      pn[1] := b / B;
      for i := 2 to pn.Length
        invariant pn[0] == b % B && pn[1] == b / B && forall p :: 2 <= p < i ==> pn[p] == 0
      {
        pn[i] := 0;
      }
      TwoLimbs(pn[..], b);
    }

    method Assign(b: BaseUint)
      requires b.Valid() && b.pn.Length == pn.Length
      modifies pn
      ensures Valid() && pn[..] == old(b.pn[..])
    {
      for i := 0 to pn.Length
        invariant pn[..i] == old(b.pn[..])[..i] && b.pn[i..] == old(b.pn[..])[i..]
      {
        ghost var rest := b.pn[i..];
        assert b.pn[i] == rest[0];
        pn[i] := b.pn[i];
        assert b.pn[i + 1..] == rest[1..];
      }
      assert pn[..] == pn[..pn.Length] == old(b.pn[..]);
    }
  }

  lemma SmallMod(x: nat, m: nat)
    requires x < m
    ensures x % m == x
  {
    ModIs(x, 0, m, x);
  }

  lemma FewerBits(n: nat, d: nat, i: nat, j: nat)
    requires i < j && (if i == 0 then n == 0 else n < Pow2(i)) && Pow2(j - 1) <= d
    ensures d > 0 && n / d == 0
  {
    hide Pow2;
    Pow2Mono(i, j - 1);
    DivIs(0, n, d, n);
  }

  lemma FitsBits(n: nat, i: nat)
    requires if i == 0 then n == 0 else n < Pow2(i)
    ensures n < Pow2(i)
  {
  }

  /** A number of no more bits than the width does not wrap. */
  lemma ShiftFits(x: nat, bits: nat, w: nat)
    requires x < Pow2(bits) && bits <= 32 * w
    ensures x % Modulus(w) == x
  {
    hide Pow2;
    Pow2Mono(bits, 32 * w);
    Pow2Limbs(w);
    SmallMod(x, Modulus(w));
  }

  method TopBit(x: nat) returns (n: nat)
    requires 0 < x < B
    ensures n < 32 && Pow2(n) <= x < Pow2(n + 1)
  {
    hide Pow2;
    n := 31;
    Pow2Word();
    while n > 0
      invariant n < 32 && x < Pow2(n + 1)
    {
      HighBit(x, n);
      if HasBit(x, n) {
        return;
      }
      n := n - 1;
    }
    Pow2OfZero();
  }

  lemma TwoLimbs(d: seq<nat>, b: nat)
    requires |d| >= 2 && d[0] == b % B && d[1] == b / B && forall i :: 2 <= i < |d| ==> d[i] == 0
    ensures Val(d) == b
  {
    ValCut(d, 2);
    ValZero(d[2..]);
    ValTake(d, 1);
    ValTake(d, 0);
    assert d[..0] == [];
    assert Pow(B, 1) == B && Pow(B, 0) == 1;
  }

  lemma LowLimbs(d: seq<nat>)
    requires |d| >= 2 && AreLimbs(d)
    ensures d[0] + d[1] * B == Val(d) % TWO64
  {
    hide Val;
    ValCut(d, 2);
    ValTake(d, 1);
    ValTake(d, 0);
    ValZero(d[..0]);
    assert Pow(B, 2) == TWO64 && Pow(B, 1) == B && Pow(B, 0) == 1;
    ModIs(d[0] + d[1] * B, Val(d[2..]), TWO64, Val(d));
  }

  /** Limbs are determined by the value. */
  lemma {:induction false} SameValue(d: seq<nat>, e: seq<nat>)
    requires |d| == |e| && AreLimbs(d) && AreLimbs(e)
    ensures Val(d) == Val(e) ==> d == e
  {
    hide Val;
    if d != e {
      var i := |d| - 1;
      while d[i] == e[i]
        invariant 0 <= i < |d| && d[i + 1..] == e[i + 1..] && d != e
        decreases i
      {
        assert d[i..] == [d[i]] + d[i + 1..] && e[i..] == [e[i]] + e[i + 1..];
        assert d == d[..i] + d[i..] && e == e[..i] + e[i..];
        i := i - 1;
      }
      if d[i] < e[i] {
        TopDiffers(d, e, i);
      } else {
        TopDiffers(e, d, i);
      }
    }
  }

  lemma DifferenceMod(a: nat, b: nat, m: nat)
    requires a < m && b < m
    ensures (a + (m - b) % m) % m == (a - b) % m
  {
    if b == 0 {
      ModIs(0, 1, m, m);
    } else {
      ModIs(m - b, 0, m, m - b);
      var r := (a - b) % m;
      var q := (a - b) / m;
      assert a - b == q * m + r;
      assert (q + 1) * m == q * m + m;
      ModIs(r, q + 1, m, a + (m - b));
    }
  }
}
