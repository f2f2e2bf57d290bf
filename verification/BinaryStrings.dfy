/**
  Binary strings of a fixed width: counting through all of them with a ripple
  carry, and converting numbers to and from them.
 */
module BinaryStrings {
  import Sequences
  import opened Wrappers

  function Pow2(n: nat): (p: nat)
    ensures p > 0
  {
    if n == 0 then 1 else 2 * Pow2(n - 1)
  }

  predicate IsBit(c: char) {
    c == '0' || c == '1'
  }

  predicate IsBits(s: seq<char>) {
    forall i :: 0 <= i < |s| ==> IsBit(s[i])
  }

  function LastBit(i: nat): (c: char)
    ensures IsBit(c)
  {
    if i % 2 == 1 then '1' else '0'
  }

  /** The last n binary digits of i, most significant first. */
  function Binary(i: nat, n: nat): (s: string)
    ensures |s| == n && IsBits(s)
  {
    if n == 0 then "" else Binary(i / 2, n - 1) + [LastBit(i)]
  }

  /** int(s, 2), on strings of binary digits. */
  function Bin2Int(s: string): nat
    requires IsBits(s)
  {
    if s == "" then 0 else 2 * Bin2Int(s[..|s| - 1]) + if s[|s| - 1] == '1' then 1 else 0
  }

  // ----- the two directions undo each other

  lemma {:induction false} ValueOfBinary(i: nat, n: nat)
    requires i < Pow2(n)
    ensures Bin2Int(Binary(i, n)) == i
  {
    if n > 0 {
      assert Binary(i, n)[..n - 1] == Binary(i / 2, n - 1);
      ValueOfBinary(i / 2, n - 1);
    }
  }

  lemma {:induction false} BinaryOfValue(s: string)
    requires IsBits(s)
    ensures Bin2Int(s) < Pow2(|s|) && Binary(Bin2Int(s), |s|) == s
  {
    if s != "" {
      var n := |s| - 1;
      BinaryOfValue(s[..n]);
      assert IsBit(s[n]);
      assert s == s[..n] + [s[n]];
    }
  }

  // ----- the conversion through hexadecimal digits

  /** The hexadecimal digits of i without leading zeros, each as four bits. */
  function HexBits(i: nat): (s: string)
    ensures IsBits(s) && s != ""
  {
    if i < 16 then Binary(i, 4) else HexBits(i / 16) + Binary(i % 16, 4)
  }

  /**
    The n-bit string of i; None for the error that a one would be cut off. A
    width of zero cuts nothing, because both slices then run from the end.
   */
  function Int2Bin(i: nat, n: nat): Option<string> {
    Fitted(HexBits(i), n)
  }

  /** bits shortened or padded on the left to n of them. */
  function Fitted(bits: string, n: nat): Option<string> {
    var cut := if n == 0 || |bits| <= n then 0 else |bits| - n;
    if '1' in bits[..cut] then None
    else Some(Zeros(n - (|bits| - cut)) + bits[cut..])
  }

  /** Python's '0' * k, empty for a negative k. */
  function Zeros(k: int): (s: string)
    ensures |s| == if k < 0 then 0 else k
    ensures forall i :: 0 <= i < |s| ==> s[i] == '0'
  {
    if k <= 0 then "" else Zeros(k - 1) + "0"
  }

  /** i without its last k binary digits. */
  function Dropped(i: nat, k: nat): nat {
    if k == 0 then i else Dropped(i / 2, k - 1)
  }

  lemma {:induction false} BinarySplit(i: nat, n: nat, k: nat)
    requires k <= n
    ensures Binary(i, n) == Binary(Dropped(i, k), n - k) + Binary(i, k)
  {
    if k > 0 {
      BinarySplit(i / 2, n - 1, k - 1);
      Sequences.ConcatAssociative(Binary(Dropped(i, k), n - k), Binary(i / 2, k - 1), [LastBit(i)]);
    } else {
      assert Binary(i, n) == Binary(i, n) + "";
    }
  }

  lemma {:induction false} DroppedBelow(i: nat, k: nat, n: nat)
    requires k <= n
    ensures Dropped(i, k) < Pow2(n - k) <==> i < Pow2(n)
  {
    if k > 0 {
      DroppedBelow(i / 2, k - 1, n - 1);
    }
  }

  lemma {:induction false} DroppedIsZero(i: nat, k: nat)
    ensures Dropped(i, k) == 0 <==> i < Pow2(k)
  {
    if k > 0 {
      DroppedIsZero(i / 2, k - 1);
    }
  }

  lemma {:induction false} HasOneIff(i: nat, n: nat)
    requires i < Pow2(n)
    ensures '1' in Binary(i, n) <==> i > 0
    ensures i == 0 ==> Binary(i, n) == Zeros(n)
  {
    if n > 0 {
      HasOneIff(i / 2, n - 1);
    }
  }

  lemma FourDigits(i: nat)
    ensures Binary(i, 4) == [LastBit(i / 2 / 2 / 2), LastBit(i / 2 / 2), LastBit(i / 2), LastBit(i)]
    ensures Dropped(i, 4) == i / 16 && Pow2(4) == 16
  {
    var j := i / 2;
    assert Binary(j, 3) == [LastBit(j / 2 / 2), LastBit(j / 2), LastBit(j)] by {
      assert Binary(j / 2, 2) == [LastBit(j / 2 / 2), LastBit(j / 2)] by {
        assert Binary(j / 2 / 2, 1) == [LastBit(j / 2 / 2)];
      }
    }
    assert Dropped(j, 3) == j / 2 / 2 / 2 by {
      assert Dropped(j / 2, 2) == Dropped(j / 2 / 2, 1);
    }
    assert Pow2(3) == 8 by {
      assert Pow2(2) == 4;
    }
  }

  lemma LowDigits(i: nat)
    ensures Binary(i % 16, 4) == Binary(i, 4)
  {
    FourDigits(i);
    FourDigits(i % 16);
    var q, j := i / 16, i % 16;
    assert i == 16 * q + j;
    assert i / 2 == 8 * q + j / 2;
    assert i / 2 / 2 == 4 * q + j / 2 / 2;
    assert i / 2 / 2 / 2 == 2 * q + j / 2 / 2 / 2;
  }

  /** The hexadecimal route gives all binary digits of i. */
  lemma {:induction false} HexBitsAreDigits(i: nat)
    ensures HexBits(i) == Binary(i, |HexBits(i)|) && i < Pow2(|HexBits(i)|)
  {
    FourDigits(i);
    if i >= 16 {
      var m := |HexBits(i / 16)|;
      HexBitsAreDigits(i / 16);
      LowDigits(i);
      BinarySplit(i, m + 4, 4);
      DroppedBelow(i, 4, m + 4);
    }
  }

  lemma {:induction false} Pow2Monotone(m: nat, n: nat)
    requires m <= n
    ensures Pow2(m) <= Pow2(n)
  {
    if m < n {
      Pow2Monotone(m, n - 1);
    }
  }

  lemma PaddedDigits(i: nat, m: nat, n: nat)
    requires m <= n && i < Pow2(m)
    ensures i < Pow2(n) && Binary(i, n) == Zeros(n - m) + Binary(i, m)
  {
    Pow2Monotone(m, n);
    BinarySplit(i, n, m);
    DroppedIsZero(i, m);
    HasOneIff(Dropped(i, m), n - m);
  }

  lemma CutDigits(i: nat, m: nat, n: nat)
    requires n < m && i < Pow2(m)
    ensures '1' in Binary(i, m)[..m - n] <==> i >= Pow2(n)
    ensures Binary(i, m)[m - n..] == Binary(i, n)
  {
    BinarySplit(i, m, n);
    ConcatParts(Binary(Dropped(i, n), m - n), Binary(i, n));
    HighDigits(i, m, n);
  }

  lemma HighDigits(i: nat, m: nat, n: nat)
    requires n < m && i < Pow2(m)
    ensures '1' in Binary(Dropped(i, n), m - n) <==> i >= Pow2(n)
  {
    DroppedBelow(i, n, m);
    DroppedIsZero(i, n);
    HasOneIff(Dropped(i, n), m - n);
  }

  lemma ConcatParts(a: string, b: string)
    ensures (a + b)[..|a|] == a && (a + b)[|a|..] == b
  {
  }

  lemma FittedLong(bits: string, n: nat)
    requires 0 < n < |bits|
    ensures Fitted(bits, n) == if '1' in bits[..|bits| - n] then None else Some(bits[|bits| - n..])
  {
    assert Zeros(0) + bits[|bits| - n..] == bits[|bits| - n..];
  }

  lemma FittedShort(bits: string, n: nat)
    requires 0 < n && |bits| <= n
    ensures Fitted(bits, n) == Some(Zeros(n - |bits|) + bits)
  {
    assert bits[..0] == "" && bits[0..] == bits;
  }

  /** A number gets its n binary digits exactly when they can hold it, and the error otherwise. */
  lemma Int2BinIff(i: nat, n: nat)
    requires n > 0
    ensures Int2Bin(i, n) == if i < Pow2(n) then Some(Binary(i, n)) else None
  {
    var m := |HexBits(i)|;
    HexBitsAreDigits(i);
    if m <= n {
      FittedShort(HexBits(i), n);
      PaddedDigits(i, m, n);
    } else {
      FittedLong(HexBits(i), n);
      CutDigits(i, m, n);
    }
  }

  /** A string of bits, read as a number and written with its own width, comes back unchanged. */
  lemma Int2BinOfBin2Int(s: string)
    requires IsBits(s) && s != ""
    ensures Int2Bin(Bin2Int(s), |s|) == Some(s)
  {
    BinaryOfValue(s);
    Int2BinIff(Bin2Int(s), |s|);
  }

  /** Whatever int2bin returns reads back as the number, at width zero too. */
  lemma Bin2IntOfInt2Bin(i: nat, n: nat)
    requires Int2Bin(i, n).Some?
    ensures IsBits(Int2Bin(i, n).value) && Bin2Int(Int2Bin(i, n).value) == i
  {
    if n > 0 {
      Int2BinIff(i, n);
      ValueOfBinary(i, n);
    } else {
      HexBitsAreDigits(i);
      ValueOfBinary(i, |HexBits(i)|);
      assert Int2Bin(i, n).value == HexBits(i);
    }
  }

  lemma EightDigits(i: nat, j: nat)
    requires j == i / 16 && i < 256
    ensures Int2Bin(i, 8) == Some(Binary(j, 4) + Binary(i, 4))
  {
    FourDigits(i);
    BinarySplit(i, 8, 4);
    assert Pow2(8) == 256 by {
      assert Pow2(8) == 2 * Pow2(7) == 4 * Pow2(6) == 8 * Pow2(5) == 16 * Pow2(4);
    }
    Int2BinIff(i, 8);
  }

  /** The documented values of int2bin, and its documented error. */
  lemma DocumentedStrings()
    ensures Int2Bin(0, 8) == Some("00000000") && Int2Bin(123, 8) == Some("01111011") && Int2Bin(15, 2) == None
  {
    EightDigits(0, 0);
    EightDigits(123, 7);
    FourDigits(0);
    FourDigits(7);
    FourDigits(123);
    assert Binary(0, 4) == "0000" && Binary(7, 4) == "0111" && Binary(123, 4) == "1011";
    assert "0000" + "0000" == "00000000" && "0111" + "1011" == "01111011";
    assert Pow2(2) == 4;
    Int2BinIff(15, 2);
  }

  /** The documented values of bin2int. */
  lemma DocumentedNumbers()
    ensures Bin2Int("1111") == 15 && Bin2Int("0101") == 5
  {
    FourDigits(15);
    FourDigits(5);
    assert Binary(15, 4) == "1111" && Binary(5, 4) == "0101";
    ValueOfBinary(15, 4);
    ValueOfBinary(5, 4);
  }

  // ----- counting

  function Reversed(s: string): (r: string)
    ensures |r| == |s|
  {
    if s == "" then "" else Reversed(s[1..]) + [s[0]]
  }

  /** v shows the last binary digits of i, least significant first. */
  ghost predicate Shows(v: seq<char>, i: nat) {
    forall j :: 0 <= j < |v| ==> v[j] == LastBit(Dropped(i, j))
  }

  lemma {:induction false} ReversedDigits(v: string, i: nat)
    requires Shows(v, i)
    ensures Reversed(v) == Binary(i, |v|)
  {
    if v != "" {
      forall j | 0 <= j < |v[1..]|
        ensures v[1..][j] == LastBit(Dropped(i / 2, j))
      {
        assert v[1..][j] == v[j + 1];
      }
      ReversedDigits(v[1..], i / 2);
      assert v[0] == LastBit(Dropped(i, 0));
    }
  }

  lemma {:induction false} ZeroDropped(n: nat)
    ensures Dropped(0, n) == 0
  {
    if n > 0 {
      ZeroDropped(n - 1);
    }
  }

  lemma ZeroShown(v: seq<char>)
    requires forall j :: 0 <= j < |v| ==> v[j] == '0'
    ensures Shows(v, 0)
  {
    forall j | 0 <= j < |v|
      ensures v[j] == LastBit(Dropped(0, j))
    {
      ZeroDropped(j);
    }
  }

  /** The last p digits of i are ones. */
  predicate EndsInOnes(i: nat, p: nat) {
    p == 0 || (i % 2 == 1 && EndsInOnes(i / 2, p - 1))
  }

  lemma {:induction false} OneMore(i: nat, p: nat)
    requires EndsInOnes(i, p) && Dropped(i, p) % 2 == 1
    ensures EndsInOnes(i, p + 1)
  {
    if p > 0 {
      OneMore(i / 2, p - 1);
    }
  }

  /** Adding one clears the ones at the end, sets the zero before them and keeps the rest. */
  lemma {:induction false} CarryAddsOne(i: nat, p: nat, j: nat)
    requires EndsInOnes(i, p) && Dropped(i, p) % 2 == 0
    ensures LastBit(Dropped(i + 1, j)) == if j < p then '0' else if j == p then '1' else LastBit(Dropped(i, j))
  {
    if p > 0 && j > 0 {
      assert (i + 1) / 2 == i / 2 + 1;
      CarryAddsOne(i / 2, p - 1, j - 1);
    }
  }

  lemma {:induction false} RoomForOne(i: nat, p: nat, n: nat)
    requires p < n && i < Pow2(n) && EndsInOnes(i, p) && Dropped(i, p) % 2 == 0
    ensures i + 1 < Pow2(n)
  {
    if p > 0 {
      RoomForOne(i / 2, p - 1, n - 1);
    }
  }

  lemma {:induction false} AllOnesIsLast(i: nat, n: nat)
    requires i < Pow2(n) && EndsInOnes(i, n)
    ensures i + 1 == Pow2(n)
  {
    if n > 0 {
      AllOnesIsLast(i / 2, n - 1);
    }
  }

  /** What v shows of i once the carry has run over its first k digits. */
  ghost predicate Carried(v: seq<char>, i: nat, k: nat) {
    forall j :: 0 <= j < |v| ==> v[j] == if j < k then '0' else LastBit(Dropped(i, j))
  }

  lemma CarryStops(v: seq<char>, i: nat, k: nat)
    requires k < |v| && i < Pow2(|v|) && EndsInOnes(i, k) && Carried(v, i, k) && v[k] == '0'
    ensures Shows(v[k := '1'], i + 1) && i + 1 < Pow2(|v|)
  {
    var u := v[k := '1'];
    forall j | 0 <= j < |u|
      ensures u[j] == LastBit(Dropped(i + 1, j))
    {
      CarryAddsOne(i, k, j);
    }
    RoomForOne(i, k, |v|);
  }

  /**
    One pass of the ripple carry over the digits v of i, least significant
    first: they become the digits of i + 1, or the last toggle reports that
    there are no more.
   */
  method Ripple(v: array<char>, ghost i: nat) returns (toggle: array<int>)
    requires i < Pow2(v.Length) && Shows(v[..], i)
    modifies v
    ensures fresh(toggle) && toggle.Length == v.Length + 1
    ensures toggle[v.Length] == 1 <==> i + 1 == Pow2(v.Length)
    ensures i + 1 < Pow2(v.Length) ==> Shows(v[..], i + 1)
  {
    var bits := v.Length;
    toggle := new int[bits + 1](_ => 0);
    toggle[0] := 1;
    var k := 0;
    while k < bits && toggle[k] == 1
      invariant 0 <= k <= bits
      invariant forall j :: k < j <= bits ==> toggle[j] == 0
      invariant toggle[k] == 1 ==> EndsInOnes(i, k) && Carried(v[..], i, k)
      invariant toggle[k] != 1 ==> toggle[k] == 0 && Shows(v[..], i + 1) && i + 1 < Pow2(bits)
    {
      ghost var before := v[..];
      assert before[k] == LastBit(Dropped(i, k));
      if v[k] == '0' {
        CarryStops(v[..], i, k);
        v[k] := '1';
        toggle[k + 1] := 0;
        assert v[..] == before[k := '1'];
      } else {
        OneMore(i, k);
        v[k] := '0';
        toggle[k + 1] := 1;
      }
      k := k + 1;
    }
    if k == bits && toggle[bits] == 1 {
      AllOnesIsLast(i, bits);
    }
  }

  /** All strings of the given width, in the order of the numbers they stand for; none at width zero. */
  method BinaryRange(bits: nat) returns (l: seq<string>)
    ensures bits == 0 ==> l == []
    ensures bits > 0 ==> |l| == Pow2(bits)
    ensures forall i :: 0 <= i < |l| ==> Int2Bin(i, bits) == Some(l[i])
  {
    l := [];
    var v := new char[bits](_ => '0');
    var toggle := new int[bits + 1](_ => 0);
    toggle[0] := 1;
    ZeroShown(v[..]);
    while toggle[bits] != 1
      invariant fresh(v) && fresh(toggle) && toggle.Length == bits + 1
      invariant bits == 0 ==> toggle[bits] == 1 && l == []
      invariant if bits > 0 && toggle[bits] == 1 then |l| == Pow2(bits) else |l| < Pow2(bits)
      invariant toggle[bits] != 1 ==> Shows(v[..], |l|)
      invariant forall i :: 0 <= i < |l| ==> Int2Bin(i, bits) == Some(l[i])
      decreases Pow2(bits) - |l|, if toggle[bits] == 1 then 0 else 1
    {
      ReversedDigits(v[..], |l|);
      Int2BinIff(|l|, bits);
      l := l + [Reversed(v[..])];
      toggle := Ripple(v, |l| - 1);
    }
  }
}
