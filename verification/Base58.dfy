/**
Base58 text for byte strings. The specification speaks of numbers; the methods
convert in place in buffers whose sizes are shown to be enough for every input.
*/
module Base58 {
  import opened Basics
  import opened Powers
  import opened Radix

  type Bytes = seq<nat>

  const INT_MAX := 0x7fff_ffff

  // ----- the alphabet -----

  /** The character of a digit: all alphanumeric ones except 0, I, O and l. */
  function Char58(d: nat): char
    requires d < 58
  {
    if d < 9 then '1' + d as char
    else if d < 17 then 'A' + (d - 9) as char
    else if d < 22 then 'J' + (d - 17) as char
    else if d < 33 then 'P' + (d - 22) as char
    else if d < 44 then 'a' + (d - 33) as char
    else 'm' + (d - 44) as char
  }

  /** The digit of a character, or -1. */
  function Map58(c: char): int {
    if '1' <= c <= '9' then (c - '1') as int
    else if 'A' <= c <= 'H' then (c - 'A') as int + 9
    else if 'J' <= c <= 'N' then (c - 'J') as int + 17
    else if 'P' <= c <= 'Z' then (c - 'P') as int + 22
    else if 'a' <= c <= 'k' then (c - 'a') as int + 33
    else if 'm' <= c <= 'z' then (c - 'm') as int + 44
    else -1
  }

  /** All alphanumeric characters except 0, I, O and l, in the order of their digits. */
  const ALPHABET := "123456789" + "ABCDEFGH" + "JKLMN" + "PQRSTUVWXYZ" + "abcdefghijk" + "mnopqrstuvwxyz"

  /** The digits written out: a digit is written as the character at its place in the alphabet. */
  lemma AlphabetChars(d: nat)
    requires d < 58
    ensures |ALPHABET| == 58 && Char58(d) == ALPHABET[d]
  {
    if d < 9 { assert Char58(d) == "123456789"[d]; }
    else if d < 17 { assert Char58(d) == "ABCDEFGH"[d - 9]; }
    else if d < 22 { assert Char58(d) == "JKLMN"[d - 17]; }
    else if d < 33 { assert Char58(d) == "PQRSTUVWXYZ"[d - 22]; }
    else if d < 44 { assert Char58(d) == "abcdefghijk"[d - 33]; }
    else { assert Char58(d) == "mnopqrstuvwxyz"[d - 44]; }
  }

  /** A character is read as its place in the alphabet, and only those outside it as -1. */
  lemma AlphabetDigits(c: char)
    ensures Map58(c) == -1 <==> c !in ALPHABET
    ensures Map58(c) != -1 ==> 0 <= Map58(c) < |ALPHABET| && ALPHABET[Map58(c)] == c
    ensures forall k :: 0 <= k < |ALPHABET| && ALPHABET[k] == c ==> Map58(c) == k
  {
    AlphabetInverse'(c);
    if Map58(c) != -1 { AlphabetChars(Map58(c)); }
    forall k | 0 <= k < |ALPHABET| && ALPHABET[k] == c
      ensures Map58(c) == k
    {
      AlphabetChars(k);
      AlphabetInverse(k);
    }
  }

  lemma AlphabetInverse(d: nat)
    requires d < 58
    ensures Map58(Char58(d)) == d
  {
  }

  lemma AlphabetInverse'(c: char)
    ensures -1 <= Map58(c) < 58
    ensures Map58(c) != -1 ==> Char58(Map58(c)) == c
  {
  }

  /** The characters that count as spaces. */
  lemma SpacesAre(c: char)
    ensures IsSpace(c) <==> c as int in {32, 12, 10, 13, 9, 11}
  {
  }

  predicate IsSpace(c: char) {
    c == ' ' || c == 12 as char || c == '\n' || c == '\r' || c == '\t' || c == 11 as char
  }

  lemma CharIsPlain(d: nat)
    requires d < 58
    ensures !IsSpace(Char58(d)) && Char58(d) != '\0'
    ensures Char58(d) == '1' <==> d == 0
  {
  }

  // ----- what encoding means -----

  function Repeat<T>(x: T, n: nat): (q: seq<T>)
    ensures |q| == n && forall i :: 0 <= i < n ==> q[i] == x
  {
    seq(n, i => x)
  }

  /** The number of leading elements equal to x. */
  function Leading<T(==)>(x: T, s: seq<T>): (n: nat)
    ensures n <= |s| && (forall i :: 0 <= i < n ==> s[i] == x) && (n < |s| ==> s[n] != x)
  {
    if s == [] || s[0] != x then 0 else 1 + Leading(x, s[1..])
  }

  function Text(d: seq<nat>): (t: string)
    requires AreDigits(58, d)
    ensures |t| == |d| && forall i :: 0 <= i < |d| ==> t[i] == Char58(d[i])
  {
    seq(|d|, i requires 0 <= i < |d| => Char58(d[i]))
  }

  /** A one for every leading zero byte, then the rest as a number in base 58. */
  function Encode(b: Bytes): string {
    var z := Leading(0, b);
    Repeat('1', z) + Text(Digits(58, Value(256, b[z..])))
  }

  // ----- what decoding means -----

  predicate NoSpaces(s: string) {
    forall i :: 0 <= i < |s| ==> !IsSpace(s[i])
  }

  predicate AllSpaces(s: string) {
    forall i :: 0 <= i < |s| ==> IsSpace(s[i])
  }

  predicate AllMapped(s: string) {
    forall i :: 0 <= i < |s| ==> Map58(s[i]) != -1
  }

  function DigitsOf(s: string): (d: seq<nat>)
    requires AllMapped(s)
    ensures |d| == |s| && AreDigits(58, d) && forall i :: 0 <= i < |s| ==> d[i] == Map58(s[i])
  {
    forall i | 0 <= i < |s| ensures 0 <= Map58(s[i]) < 58 { AlphabetInverse'(s[i]); }
    seq(|s|, i requires 0 <= i < |s| => Map58(s[i]) as nat)
  }

  function SkipSpaces(s: string): string {
    if s == [] || !IsSpace(s[0]) then s else SkipSpaces(s[1..])
  }

  /** The length of the longest start without spaces. */
  function WordLength(s: string): (n: nat)
    ensures n <= |s| && NoSpaces(s[..n]) && (n < |s| ==> IsSpace(s[n]))
  {
    if s == [] || IsSpace(s[0]) then 0 else
    var n := WordLength(s[1..]);
    assert s[..n + 1] == [s[0]] + s[1..][..n];
    1 + n
  }

  /** Spaces, ones for zero bytes, a number in base 58, spaces; anything else is refused. */
  function Decode(s: string): Option<Bytes> {
    if '\0' in s then None else
    var t := SkipSpaces(s);
    var z := Leading('1', t);
    var u := t[z..];
    var k := WordLength(u);
    if AllMapped(u[..k]) && AllSpaces(u[k..])
    then Some(Repeat(0, z) + Digits(256, Value(58, DigitsOf(u[..k]))))
    else None
  }

  // ----- one undoes the other -----

  lemma LeadingIs<T>(x: T, n: nat, s: seq<T>)
    requires s == [] || s[0] != x
    ensures Leading(x, Repeat(x, n) + s) == n
  {
    var q := Repeat(x, n) + s;
    assert forall i :: 0 <= i < n ==> q[i] == x;
    assert n < |q| ==> q[n] == s[0];
  }

  lemma WordLengthIs(s: string, n: nat)
    requires n <= |s| && NoSpaces(s[..n]) && (n < |s| ==> IsSpace(s[n]))
    ensures WordLength(s) == n
  {
    var k := WordLength(s);
    assert forall i :: 0 <= i < n ==> s[i] == s[..n][i];
    assert forall i :: 0 <= i < k ==> s[i] == s[..k][i];
  }

  lemma TextBack(d: seq<nat>)
    requires AreDigits(58, d)
    ensures AllMapped(Text(d)) && DigitsOf(Text(d)) == d && NoSpaces(Text(d)) && '\0' !in Text(d)
    ensures Canonical(d) ==> Text(d) == [] || Text(d)[0] != '1'
  {
    forall i | 0 <= i < |d|
      ensures Map58(Text(d)[i]) == d[i] && !IsSpace(Text(d)[i]) && Text(d)[i] != '\0'
      ensures Text(d)[i] == '1' <==> d[i] == 0
    {
      AlphabetInverse(d[i]);
      CharIsPlain(d[i]);
    }
  }

  /** Decoding what was encoded gives the bytes, leading zeroes and all. */
  lemma DecodeEncode(b: Bytes)
    requires AreDigits(256, b)
    ensures Decode(Encode(b)) == Some(b)
  {
    hide Value, Digits, Map58, Char58, IsSpace, Decode, DigitsOf, Text;
    var z := Leading(0, b);
    var v := Value(256, b[z..]);
    var d := Digits(58, v);
    ValueOfDigits(58, v);
    TextBack(d);
    DecodeWord(z, Text(d));
    DigitsOfValue(256, b[z..]);
    assert Repeat(0, z) + b[z..] == b;
  }

  /** Ones and then a word without spaces. */
  lemma DecodeWord(z: nat, w: string)
    requires AllMapped(w) && NoSpaces(w) && '\0' !in w && (w == [] || w[0] != '1')
    ensures Decode(Repeat('1', z) + w) == Some(Repeat(0, z) + Digits(256, Value(58, DigitsOf(w))))
  {
    hide Value, Digits, Map58, IsSpace, DigitsOf;
    var s := Repeat('1', z) + w;
    LeadingIs('1', z, w);
    OneIsPlain();
    assert SkipSpaces(s) == s;
    assert s[z..] == w;
    assert w[..|w|] == w && w[|w|..] == [];
    WordLengthIs(w, |w|);
  }

  lemma OneIsPlain()
    ensures !IsSpace('1') && '1' != '\0'
  {
  }

  /** Drop spaces from the end. */
  function DropSpaces(s: string): string {
    if s == [] || !IsSpace(s[|s| - 1]) then s else DropSpaces(s[..|s| - 1])
  }

  /** A string without its surrounding spaces. */
  function Trim(s: string): string {
    DropSpaces(SkipSpaces(s))
  }

  lemma {:induction false} DropSpacesIs(s: string, k: nat)
    requires k <= |s| && AllSpaces(s[k..]) && (k > 0 ==> !IsSpace(s[k - 1]))
    ensures DropSpaces(s) == s[..k]
  {
    if k < |s| {
      assert IsSpace(s[k..][|s| - 1 - k]);
      var r := s[..|s| - 1];
      assert forall i :: 0 <= i < |r| - k ==> r[k..][i] == s[k..][i];
      DropSpacesIs(r, k);
      assert r[..k] == s[..k];
    } else {
      assert s[..k] == s;
    }
  }

  lemma DigitsOfBack(s: string)
    requires AllMapped(s)
    ensures Text(DigitsOf(s)) == s
    ensures (s == [] || s[0] != '1') ==> Canonical(DigitsOf(s))
  {
    forall i | 0 <= i < |s|
      ensures Text(DigitsOf(s))[i] == s[i]
    {
      AlphabetInverse'(s[i]);
    }
    if s != [] { AlphabetInverse'(s[0]); }
  }

  lemma EncodeWord(z: nat, w: string)
    requires AllMapped(w) && (w == [] || w[0] != '1')
    ensures var b := Repeat(0, z) + Digits(256, Value(58, DigitsOf(w)));
      AreDigits(256, b) && Encode(b) == Repeat('1', z) + w
  {
    hide Value, Digits, Map58, Char58, IsSpace;
    var d := DigitsOf(w);
    var v := Value(58, d);
    var b := Repeat(0, z) + Digits(256, v);
    ValueOfDigits(256, v);
    LeadingIs(0, z, Digits(256, v));
    assert b[z..] == Digits(256, v);
    DigitsOfBack(w);
    DigitsOfValue(58, d);
  }

  /** Encoding what was decoded gives the text back, without its surrounding spaces. */
  lemma EncodeDecode(s: string)
    requires Decode(s).Some?
    ensures AreDigits(256, Decode(s).value)
    ensures Encode(Decode(s).value) == Trim(s)
  {
    hide Value, Digits, Map58, Char58, IsSpace, Encode, Text, DigitsOf;
    var t := SkipSpaces(s);
    var z := Leading('1', t);
    var u := t[z..];
    var k := WordLength(u);
    EncodeWord(z, u[..k]);
    assert Encode(Decode(s).value) == Repeat('1', z) + u[..k] == t[..z + k];
    OneIsPlain();
    assert t[z + k..] == u[k..];
    assert z + k > 0 ==> !IsSpace(t[z + k - 1]) by {
      if k > 0 { assert t[z + k - 1] == u[..k][k - 1]; }
    }
    DropSpacesIs(t, z + k);
  }

  // ----- what the text says -----

  /**
  What a text stands for, read off the alphabet: it has a one for every leading zero byte, and its
  digits make the number that the bytes make.
  */
  lemma EncodeMeans(b: Bytes)
    requires AreDigits(256, b)
    ensures var t := Encode(b);
      && AllMapped(t) && Leading('1', t) == Leading(0, b) && Value(58, DigitsOf(t)) == Value(256, b)
  {
    hide Value, Digits, Char58, IsSpace, Text;
    var z := Leading(0, b);
    var d := Digits(58, Value(256, b[z..]));
    TextBack(d);
    LeadingIs('1', z, Text(d));
    AlphabetInverse(0);
    OneIsZero();
    var t := Encode(b);
    assert forall i :: 0 <= i < |t| ==> t[i] == if i < z then '1' else Text(d)[i - z];
    assert DigitsOf(t)[z..] == d;
    ValueSkipsZeroes(58, DigitsOf(t), z);
    ValueSkipsZeroes(256, b, z);
    ValueOfDigits(58, Value(256, b[z..]));
  }

  lemma OneIsZero()
    ensures Map58('1') == 0
  {
  }

  lemma MappedInAlphabet(s: string)
    ensures AllMapped(s) <==> forall i :: 0 <= i < |s| ==> s[i] in ALPHABET
    ensures AllMapped(s) ==> NoSpaces(s)
  {
    hide Map58, IsSpace;
    forall i | 0 <= i < |s|
      ensures Map58(s[i]) == -1 <==> s[i] !in ALPHABET
      ensures IsSpace(s[i]) ==> Map58(s[i]) == -1
    {
      AlphabetDigits(s[i]);
      SpaceIsNoDigit(s[i]);
    }
  }

  /** A text is refused exactly if it has a zero character, or a character outside the alphabet between spaces. */
  lemma DecodesExactly(s: string)
    ensures Decode(s).Some? <==> '\0' !in s && forall i :: 0 <= i < |Trim(s)| ==> Trim(s)[i] in ALPHABET
  {
    hide Value, Digits, Map58, IsSpace, DigitsOf, Decode, Trim, AllMapped;
    MappedInAlphabet(Trim(s));
    if Decode(s).Some? { DecodedIsMapped(s); }
    if '\0' !in s && AllMapped(Trim(s)) { MappedIsDecoded(s); }
  }

  lemma DecodedIsMapped(s: string)
    requires Decode(s).Some?
    ensures '\0' !in s && AllMapped(Trim(s))
  {
    hide Value, Digits, Map58, IsSpace, DigitsOf;
    OneIsZero();
    OneIsPlain();
    var t := SkipSpaces(s);
    var z := Leading('1', t);
    var k := WordLength(t[z..]);
    assert t[z + k..] == t[z..][k..];
    assert z + k > 0 ==> !IsSpace(t[z + k - 1]) by {
      if k > 0 { assert t[z + k - 1] == t[z..][..k][k - 1]; }
    }
    DropSpacesIs(t, z + k);
    assert forall i :: z <= i < z + k ==> t[i] == t[z..][..k][i - z];
  }

  lemma MappedIsDecoded(s: string)
    requires '\0' !in s && AllMapped(Trim(s))
    ensures Decode(s).Some?
  {
    hide Value, Digits, Map58, IsSpace, DigitsOf, SkipSpaces, DropSpaces;
    var t := SkipSpaces(s);
    DropSpacesForm(t);
    MappedInAlphabet(Trim(s));
    var m, z := |Trim(s)|, Leading('1', t);
    OnesWithin(t, z, m);
    assert t[z..][..m - z] == Trim(s)[z..];
    WordLengthIs(t[z..], m - z);
    assert t[z..][m - z..] == t[m..];
  }

  lemma SpaceIsNoDigit(c: char)
    ensures IsSpace(c) ==> Map58(c) == -1
  {
  }

  lemma {:induction false} DropSpacesForm(s: string)
    ensures DropSpaces(s) <= s && AllSpaces(s[|DropSpaces(s)|..])
  {
    if s != [] && IsSpace(s[|s| - 1]) {
      var r := s[..|s| - 1];
      DropSpacesForm(r);
      var m := |DropSpaces(s)|;
      assert forall i :: m <= i < |r| ==> s[i] == r[m..][i - m];
    }
  }

  /** The leading ones of a word followed by spaces are in the word. */
  lemma OnesWithin(t: string, z: nat, m: nat)
    requires z == Leading('1', t) && m <= |t| && AllSpaces(t[m..])
    ensures z <= m
  {
    OneIsPlain();
    assert m < |t| ==> t[m] == t[m..][0];
  }

  // ----- the buffers are big enough -----

  /** n bytes fit in n * 138 / 100 + 1 digits of base 58, since 58^5 > 2^29. */
  lemma EncodeBufferFits(n: nat)
    ensures Pow(256, n) < Pow(58, n * 138 / 100 + 1)
  {
    hide Pow;
    var e := n * 138 / 100 + 1;
    assert 100 * e > 138 * n;
    FiftyEight5();
    PowStrictBase(Pow(2, 29), Pow(58, 5), e);
    PowPow(2, 29, e);
    PowPow(58, 5, e);
    PowPow(58, e, 5);
    assert 5 * e == e * 5;
    assert 29 * e >= 40 * n;
    PowMonoExponent(2, 40 * n, 29 * e);
    Bytes256(n);
    PowPow(256, n, 5);
    assert 8 * (n * 5) == 40 * n;
    Bytes256(n * 5);
    PowRoot(Pow(256, n), Pow(58, e), 5);
  }

  /** n digits of base 58 fit in n * 733 / 1000 + 1 bytes, since 58^22 < 2^129. */
  lemma DecodeBufferFits(n: nat)
    ensures Pow(58, n) < Pow(256, n * 733 / 1000 + 1)
  {
    hide Pow;
    var s := n * 733 / 1000 + 1;
    assert 1000 * s > 733 * n;
    if n == 0 {
      PowZeroOne();
    } else {
      FiftyEight22();
      PowStrictBase(Pow(58, 22), Pow(2, 129), n);
      PowPow(58, 22, n);
      PowPow(58, n, 22);
      assert 22 * n == n * 22;
      PowPow(2, 129, n);
      assert 129 * n <= 8 * (s * 22);
      PowMonoExponent(2, 129 * n, 8 * (s * 22));
      Bytes256(s * 22);
      PowPow(256, s, 22);
      PowRoot(Pow(58, n), Pow(256, s), 22);
    }
  }

  lemma PowZeroOne()
    ensures Pow(58, 0) == 1 && Pow(256, 1) == 256
  {
    assert Pow(256, 0) == 1;
  }

  lemma Bytes256(n: nat)
    ensures Pow(256, n) == Pow(2, 8 * n)
  {
    PowPow(2, 8, n);
    assert Pow(2, 8) == 256 by {
      assert Pow(2, 2) == 4 && Pow(2, 4) == 16;
      PowAdd(2, 4, 4);
    }
  }

  lemma FiftyEight5()
    ensures Pow(2, 29) < Pow(58, 5)
  {
    assert Pow(58, 2) == 3364;
    PowAdd(58, 2, 2);
    PowAdd(58, 4, 1);
    assert Pow(2, 2) == 4;
    PowAdd(2, 2, 2);
    PowAdd(2, 4, 4);
    PowAdd(2, 8, 8);
    PowAdd(2, 16, 8);
    PowAdd(2, 24, 4);
    PowAdd(2, 28, 1);
    assert Pow(58, 5) == 656356768 && Pow(2, 29) == 536870912;
  }

  lemma FiftyEight22()
    ensures Pow(58, 22) < Pow(2, 129)
  {
    assert Pow(58, 2) == 3364 && Pow(2, 1) == 2 && Pow(2, 2) == 4;
    hide Pow;
    PowAdd(58, 2, 2);
    assert Pow(58, 4) == 11316496;
    PowAdd(58, 4, 4);
    assert Pow(58, 8) == 128063081718016;
    PowAdd(58, 8, 8);
    assert Pow(58, 16) == 16400152899115243850138976256;
    PowAdd(58, 16, 4);
    assert Pow(58, 20) == 185592264682226060569122324245118976;
    PowAdd(58, 20, 2);
    assert Pow(58, 22) == 624332378391008467754527498760580235264;
    PowAdd(2, 2, 2);
    PowAdd(2, 4, 4);
    PowAdd(2, 8, 8);
    assert Pow(2, 16) == 65536;
    PowAdd(2, 16, 16);
    assert Pow(2, 32) == 4294967296;
    PowAdd(2, 32, 32);
    assert Pow(2, 64) == 18446744073709551616;
    PowAdd(2, 64, 64);
    assert Pow(2, 128) == 340282366920938463463374607431768211456;
    PowAdd(2, 128, 1);
  }

  // ----- encoding -----

  lemma HoldsNothing(base: nat, d: seq<nat>)
    requires base >= 2 && forall i :: 0 <= i < |d| ==> d[i] == 0
    ensures Holds(base, d, 0) && Value(base, d) == 0
  {
    ValueOfZeroes(base, d);
  }

  /** A number of k digits in one base, in a buffer that takes n of them. */
  lemma RoomFor(base: nat, d: seq<nat>, k: nat, n: nat, limit: nat)
    requires base >= 2 && AreDigits(base, d) && k < |d| <= n && Pow(base, n) < limit
    ensures Value(base, d[..k]) * base + d[k] == Value(base, d[..k + 1]) < limit
  {
    assert d[..k + 1][..k] == d[..k];
    ValueBound(base, d[..k + 1]);
    PowMonoExponent(base, k + 1, n);
  }

  /** The bytes as a number in base 58, in a buffer of 138 digits for every 100 bytes, and one. */
  method ToBase58(input: Bytes) returns (b58: array<nat>, length: nat)
    requires AreDigits(256, input)
    ensures fresh(b58) && length <= b58.Length
    ensures b58[b58.Length - length..] == Digits(58, Value(256, input))
  {
    hide Value, Pow, Digits, Holds;
    var size := |input| * 138 / 100 + 1;
    EncodeBufferFits(|input|);
    b58 := new nat[size](_ => 0);
    HoldsNothing(58, b58[..]);
    length := 0;
    ValueOfZeroes(256, input[..0]);
    for k := 0 to |input|
      invariant Holds(58, b58[..], length) && Value(58, b58[..]) == Value(256, input[..k])
    {
      RoomFor(256, input, k, |input|, Pow(58, size));
      length := Absorb(b58, length, 256, 58, input[k]);
    }
    assert input[..|input|] == input;
    HoldsCanonically(58, b58[..], length);
    HoldsLength(58, b58[..], length);
    assert b58[size - length..] == b58[..][size - length..];
  }

  /** The text of the digits in a buffer from a place on. */
  method Translate(b58: array<nat>, start: nat) returns (str: string)
    requires start <= b58.Length && AreDigits(58, b58[start..])
    ensures str == Text(b58[start..])
  {
    str := [];
    var it := start;
    while it < b58.Length
      invariant start <= it <= b58.Length
      invariant str == Text(b58[start..])[..it - start]
    {
      assert b58[it] == b58[start..][it - start];
      str := str + [Char58(b58[it])];
      it := it + 1;
    }
  }

  method EncodeBase58(input: Bytes) returns (str: string)
    requires AreDigits(256, input)
    ensures str == Encode(input)
  {
    hide Value, Digits;
    var zeroes := 0;
    while zeroes < |input| && input[zeroes] == 0
      invariant zeroes <= |input| && forall i :: 0 <= i < zeroes ==> input[i] == 0
    {
      zeroes := zeroes + 1;
    }
    LeadingZeroes(input, zeroes);
    var b58, length := ToBase58(input[zeroes..]);
    var it := b58.Length - length;
    // The first digit is not zero, so there are no zeroes to skip here.
    ghost var d := b58[it..];
    assert it < b58.Length ==> b58[it] == d[0] != 0;
    str := Translate(b58, it);
    str := Repeat('1', zeroes) + str;
  }

  lemma HoldsLength(base: nat, d: seq<nat>, length: nat)
    requires Holds(base, d, length)
    ensures length <= |d| && AreDigits(base, d)
  {
  }

  lemma LeadingZeroes(b: Bytes, z: nat)
    requires z <= |b| && (forall i :: 0 <= i < z ==> b[i] == 0) && (z < |b| ==> b[z] != 0)
    ensures Leading(0, b) == z
  {
  }

  // ----- decoding -----

  /** A decoding under a limit on the length of the result; an empty result passes every limit. */
  function Limited(r: Option<Bytes>, limit: int): Option<Bytes> {
    if r.Some? && (|r.value| <= limit || r.value == []) then r else None
  }

  lemma {:induction false} LongerIsLarger(base: nat, v: nat, w: nat)
    requires base >= 2 && v <= w
    ensures |Digits(base, v)| <= |Digits(base, w)|
    decreases w
  {
    if v > 0 {
      QuotientLess(base, w);
      QuotientMono(base, v, w);
      LongerIsLarger(base, v / base, w / base);
    }
  }

  lemma QuotientMono(base: nat, v: nat, w: nat)
    requires base >= 2 && v <= w
    ensures v / base <= w / base
  {
    Fundamental(base, v);
    Fundamental(base, w);
    if w / base < v / base {
      MulMono(w / base + 1, v / base, base, base);
    }
  }

  /** What has been read of the number: a start without spaces, all of it digits. */
  ghost predicate Reading(u: string, j: nat) {
    j <= |u| && NoSpaces(u[..j]) && AllMapped(u[..j])
  }

  lemma ReadingMore(u: string, j: nat)
    requires Reading(u, j) && j < |u| && !IsSpace(u[j]) && Map58(u[j]) != -1
    ensures Reading(u, j + 1)
    ensures DigitsOf(u[..j + 1]) == DigitsOf(u[..j]) + [Map58(u[j])]
    ensures Value(58, DigitsOf(u[..j + 1])) == Value(58, DigitsOf(u[..j])) * 58 + Map58(u[j])
  {
    hide Map58, IsSpace, Value;
    assert u[..j + 1] == u[..j] + [u[j]];
    AlphabetInverse'(u[j]);
    ValueSnoc(58, DigitsOf(u[..j]), Map58(u[j]));
  }

  /** What is read of a number stays below the buffer's range. */
  lemma ReadingFits(u: string, j: nat)
    requires Reading(u, j)
    ensures Value(58, DigitsOf(u[..j])) < Pow(256, |u| * 733 / 1000 + 1)
  {
    var d := DigitsOf(u[..j]);
    FewerDigits(d, |u|);
  }

  lemma FewerDigits(d: seq<nat>, n: nat)
    requires AreDigits(58, d) && |d| <= n
    ensures Value(58, d) < Pow(256, n * 733 / 1000 + 1)
  {
    hide Value, Pow;
    ValueBound(58, d);
    PowMonoExponent(58, |d|, n);
    DecodeBufferFits(n);
  }

  /** A number read in full is at least as large as what was read of it so far. */
  lemma ReadingGrows(u: string, j: nat, k: nat)
    requires j <= k <= |u| && Reading(u, j) && Reading(u, k)
    ensures Value(58, DigitsOf(u[..j])) <= Value(58, DigitsOf(u[..k]))
  {
    hide Map58, IsSpace, Value, Pow;
    var d, e := DigitsOf(u[..j]), DigitsOf(u[..k]);
    assert u[..k][..j] == u[..j];
    assert e == e[..j] + e[j..] && e[..j] == d;
    ValueAppend(58, d, e[j..]);
    PowPositive(58, k - j);
    MulMono(Value(58, d), Value(58, d), 1, Pow(58, k - j));
  }

  /** After the leading ones the number starts with a digit that is not zero. */
  lemma ReadingPositive(u: string, j: nat)
    requires 0 < j && Reading(u, j) && u[0] != '1'
    ensures Digits(256, Value(58, DigitsOf(u[..j]))) != []
  {
    hide Value;
    var d := DigitsOf(u[..j]);
    AlphabetInverse'(u[0]);
    assert Canonical(d);
    DigitsOfValue(58, d);
  }

  /** What the part after the leading ones decodes to. */
  function DecodeNumber(u: string): Option<Bytes> {
    var k := WordLength(u);
    if AllMapped(u[..k]) && AllSpaces(u[k..]) then Some(Digits(256, Value(58, DigitsOf(u[..k])))) else None
  }

  /** Reading stops at something that is no digit: the text is refused. */
  lemma StopsAtBadCharacter(u: string, j: nat)
    requires Reading(u, j) && j < |u| && !IsSpace(u[j]) && Map58(u[j]) == -1
    ensures DecodeNumber(u).None?
  {
    hide Map58, IsSpace, Value, Digits;
    var k := WordLength(u);
    assert forall i :: 0 <= i < j ==> u[..j][i] == u[i];
    assert j < k;
    assert u[..k][j] == u[j];
  }

  /** Reading runs past the limit: the text is refused or its number is at least as long. */
  lemma StopsAtLimit(u: string, j: nat)
    requires Reading(u, j)
    ensures DecodeNumber(u).Some? ==>
              |Digits(256, Value(58, DigitsOf(u[..j])))| <= |DecodeNumber(u).value|
  {
    hide Map58, IsSpace, Value, Digits;
    var k := WordLength(u);
    if DecodeNumber(u).Some? {
      assert forall i :: 0 <= i < j ==> u[..j][i] == u[i];
      ReadingGrows(u, j, k);
      LongerIsLarger(256, Value(58, DigitsOf(u[..j])), Value(58, DigitsOf(u[..k])));
    }
  }

  /** Reading comes to a space or the end. */
  lemma StopsAtEnd(u: string, j: nat)
    requires Reading(u, j) && (j < |u| ==> IsSpace(u[j]))
    ensures DecodeNumber(u) == if AllSpaces(u[j..]) then Some(Digits(256, Value(58, DigitsOf(u[..j])))) else None
  {
    WordLengthIs(u, j);
  }

  /**
  The number after the leading ones, read into a buffer; it stops as soon as the result cannot be within the
  limit.
  */
  method ReadNumber(u: string, zeroes: nat, max_ret_len: int) returns (r: Option<Bytes>)
    requires zeroes > 0 ==> zeroes <= max_ret_len
    requires u == [] || u[0] != '1'
    ensures r == match DecodeNumber(u)
      case None => None
      case Some(d) => if zeroes + |d| <= max_ret_len || d == [] then Some(d) else None
  {
    hide Value, Pow, Digits, Map58, IsSpace, DecodeNumber, DigitsOf, Holds;
    var size := |u| * 733 / 1000 + 1;
    var b256 := new nat[size](_ => 0);
    HoldsNothing(256, b256[..]);
    var length: nat, j: nat := 0, 0;
    NothingRead(u);
    while j < |u| && !IsSpace(u[j])
      invariant Reading(u, j) && Holds(256, b256[..], length)
      invariant Value(256, b256[..]) == Value(58, DigitsOf(u[..j]))
      invariant length > 0 ==> length + zeroes <= max_ret_len
    {
      var carry := Map58(u[j]);
      if carry == -1 {
        StopsAtBadCharacter(u, j);
        return None;
      }
      ReadingMore(u, j);
      ReadingFits(u, j + 1);
      AlphabetInverse'(u[j]);
      length := Absorb(b256, length, 58, 256, carry);
      HoldsCanonically(256, b256[..], length);
      HoldsLength(256, b256[..], length);
      j := j + 1;
      ReadingPositive(u, j);
      if length + zeroes > max_ret_len {
        StopsAtLimit(u, j);
        return None;
      }
    }
    StopsAtEnd(u, j);
    HoldsCanonically(256, b256[..], length);
    HoldsLength(256, b256[..], length);
    ghost var stop := j;
    while j < |u| && IsSpace(u[j])
      invariant stop <= j <= |u| && AllSpaces(u[stop..j])
    {
      assert u[stop..j + 1] == u[stop..j] + [u[j]];
      j := j + 1;
    }
    SpacesToEnd(u, stop, j);
    if j < |u| {
      return None;
    }
    assert b256[size - length..] == b256[..][size - length..];
    r := Some(b256[size - length..]);
  }

  lemma NothingRead(u: string)
    ensures Reading(u, 0) && Value(58, DigitsOf(u[..0])) == 0
  {
  }

  lemma SpacesToEnd(u: string, stop: nat, j: nat)
    requires stop <= j <= |u| && AllSpaces(u[stop..j]) && (j < |u| ==> !IsSpace(u[j]))
    ensures AllSpaces(u[stop..]) <==> j == |u|
  {
    hide IsSpace;
    if j < |u| {
      assert u[stop..][j - stop] == u[j];
    } else {
      assert u[stop..j] == u[stop..];
    }
  }

  lemma DecodeParts(s: string)
    requires '\0' !in s
    ensures var t := SkipSpaces(s); var z := Leading('1', t);
      Decode(s) == match DecodeNumber(t[z..])
        case None => None
        case Some(d) => Some(Repeat(0, z) + d)
  {
  }

  /** Decoding under a limit gives the full decoding exactly when that exists and is within the limit. */
  method DecodeBase58(str: string, max_ret_len: int) returns (r: Option<Bytes>)
    ensures r == Limited(Decode(str), max_ret_len)
  {
    hide IsSpace, DecodeNumber, Decode;
    if '\0' in str {
      NulRefused(str);
      return None;
    }
    DecodeParts(str);
    var psz := str;
    while psz != [] && IsSpace(psz[0])
      invariant SkipSpaces(psz) == SkipSpaces(str)
    {
      psz := psz[1..];
    }
    ghost var t := psz;
    ghost var z := Leading('1', t);
    var zeroes := 0;
    while zeroes < |psz| && psz[zeroes] == '1'
      invariant zeroes <= z && (zeroes > 0 ==> zeroes <= max_ret_len)
    {
      zeroes := zeroes + 1;
      if zeroes > max_ret_len {
        return None;
      }
    }
    var d := ReadNumber(psz[zeroes..], zeroes, max_ret_len);
    if d.None? {
      return None;
    }
    r := Some(Repeat(0, zeroes) + d.value);
  }

  lemma NulRefused(s: string)
    requires '\0' in s
    ensures Decode(s).None?
  {
  }

  lemma {:induction false} SpacesSkipped(s: string)
    ensures SkipSpaces(s) == [] <==> AllSpaces(s)
    ensures SkipSpaces(s) != [] ==> !IsSpace(SkipSpaces(s)[0])
  {
    hide IsSpace;
    if s != [] && IsSpace(s[0]) {
      SpacesSkipped(s[1..]);
      assert forall i :: 0 < i < |s| ==> s[i] == s[1..][i - 1];
    }
  }

  /** Only spaces decode to nothing. */
  lemma EmptyIffSpaces(s: string)
    ensures Decode(s) == Some([]) <==> AllSpaces(s)
  {
    hide Value, Digits, Map58;
    SpacesSkipped(s);
    var t := SkipSpaces(s);
    var z := Leading('1', t);
    var u := t[z..];
    var k := WordLength(u);
    if AllSpaces(s) {
      assert forall i :: 0 <= i < |s| ==> s[i] != '\0';
      NothingRead(u);
      assert t == [] && z == 0 && u == [] && k == 0;
      assert AllMapped(u[..k]) && AllSpaces(u[k..]);
      assert Repeat(0, z) + Digits(256, Value(58, DigitsOf(u[..k]))) == [];
    } else if Decode(s).Some? && z == 0 {
      assert k > 0;
      hide IsSpace, AllMapped;
      assert Reading(u, k);
      ReadingPositive(u, k);
    }
  }

  /** The limit decides exactly whether the full decoding is within it, but for spaces under a negative limit. */
  lemma LimitIsExact(s: string, limit: int)
    ensures (Limited(Decode(s), limit).Some? <==> Decode(s).Some? && |Decode(s).value| <= limit)
            <==> (limit >= 0 || !AllSpaces(s))
  {
    hide Decode, AllSpaces;
    EmptyIffSpaces(s);
  }

  /** One space is accepted under a limit of -1, though no bytes are within that limit. */
  lemma SpacePassesNegativeLimit()
    ensures Limited(Decode(" "), -1) == Some([])
  {
    hide Decode;
    assert AllSpaces(" ");
    EmptyIffSpaces(" ");
  }

  // ----- with a checksum -----

  ghost predicate IsHash(hash: Bytes -> Bytes) {
    forall b :: |hash(b)| == 32 && AreDigits(256, hash(b))
  }

  method EncodeBase58Check(input: Bytes, hash: Bytes -> Bytes) returns (str: string)
    requires AreDigits(256, input) && IsHash(hash)
    ensures str == Encode(input + hash(input)[..4])
  {
    str := EncodeBase58(input + hash(input)[..4]);
  }

  /** The limit on the whole, checksum included, that a limit on the payload stands for. */
  function WithChecksum(limit: int): int {
    if limit > INT_MAX - 4 then INT_MAX else limit + 4
  }

  /** The payload of bytes that end in their checksum. */
  function Payload(r: Option<Bytes>, hash: Bytes -> Bytes): Option<Bytes>
    requires IsHash(hash)
  {
    if r.Some? && |r.value| >= 4 && hash(r.value[..|r.value| - 4])[..4] == r.value[|r.value| - 4..]
    then Some(r.value[..|r.value| - 4])
    else None
  }

  method DecodeBase58Check(str: string, max_ret_len: int, hash: Bytes -> Bytes) returns (r: Option<Bytes>)
    requires IsHash(hash)
    ensures r == Payload(Limited(Decode(str), WithChecksum(max_ret_len)), hash)
  {
    var whole := DecodeBase58(str, if max_ret_len > INT_MAX - 4 then INT_MAX else max_ret_len + 4);
    if whole.None? || |whole.value| < 4 {
      return None;
    }
    var n := |whole.value| - 4;
    var sum := hash(whole.value[..n]);
    if sum[..4] != whole.value[n..] {
      return None;
    }
    r := Some(whole.value[..n]);
  }

  /**
  The checksummed text of a payload decodes to the payload exactly when payload and checksum are within the
  limit.
  */
  lemma CheckRoundTrip(b: Bytes, hash: Bytes -> Bytes, limit: int)
    requires AreDigits(256, b) && IsHash(hash)
    ensures Payload(Limited(Decode(Encode(b + hash(b)[..4])), WithChecksum(limit)), hash) ==
              if |b| + 4 <= WithChecksum(limit) then Some(b) else None
  {
    hide Encode, Decode;
    var whole := b + hash(b)[..4];
    assert AreDigits(256, hash(b));
    DecodeEncode(whole);
    assert whole[..|b|] == b && whole[|b|..] == hash(b)[..4];
  }

  /** What decodes with its checksum is the checksummed text of the payload, within the limit. */
  lemma CheckAcceptsOnly(s: string, hash: Bytes -> Bytes, limit: int)
    requires IsHash(hash)
    ensures var r := Payload(Limited(Decode(s), WithChecksum(limit)), hash);
      r.Some? ==> |r.value| <= limit && Encode(r.value + hash(r.value)[..4]) == Trim(s)
  {
    hide Encode, Decode, Trim;
    var r := Payload(Limited(Decode(s), WithChecksum(limit)), hash);
    if r.Some? {
      EncodeDecode(s);
      var whole := Decode(s).value;
      assert r.value + hash(r.value)[..4] == whole;
    }
  }
}
