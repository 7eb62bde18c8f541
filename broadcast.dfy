/** The broadcast step of main (main.cpp:56-60): a std::bitset<32> built
    from the number std::stoul reads off the network string, with bits 31
    down to prefixLength - 1 set by a descending loop, read back with
    to_ulong. A bitset is a sequence of bools, bit k at index k. */
module Broadcast {
  import opened Bits

  /** std::bitset<n>(v): bit k is bit k of v; bits from n up are dropped. */
  function BitsOf(v: nat, n: nat): (bs: seq<bool>)
    ensures |bs| == n
  {
    if n == 0 then [] else [v % 2 == 1] + BitsOf(v / 2, n - 1)
  }

  /** bitset::to_ulong: the number whose bit k is bs[k]. */
  function ValueOf(bs: seq<bool>): (v: nat)
    ensures v < Pow2(|bs|)
  {
    if bs == [] then 0 else (if bs[0] then 1 else 0) + 2 * ValueOf(bs[1..])
  }

  /** bs with every bit from low upwards set. */
  function SetFrom(bs: seq<bool>, low: int): (r: seq<bool>)
    ensures |r| == |bs|
  {
    seq(|bs|, k requires 0 <= k < |bs| => k >= low || bs[k])
  }

  /** The number the broadcast step prints for the field stoul read. */
  function BroadcastOf(field: nat, prefixLength: int): (v: nat)
    ensures v < TwoTo32
  {
    Pow2Values();
    ValueOf(SetFrom(BitsOf(field, 32), prefixLength - 1))
  }

  /** The loop of main.cpp:57-59 on a bitset<32> initialised from field,
      followed by to_ulong. prefixLength 0 would write bits[-1]. */
  method BroadcastValue(field: nat, prefixLength: int) returns (value: nat)
    requires prefixLength >= 1
    ensures value == BroadcastOf(field, prefixLength)
    ensures field % TwoTo32 <= value < TwoTo32
    ensures prefixLength <= 33 ==>
      value == field % Pow2(prefixLength - 1) + (TwoTo32 - Pow2(prefixLength - 1))
    ensures prefixLength >= 33 ==> value == field % TwoTo32
  {
    ghost var initial := BitsOf(field, 32);
    var bits := new bool[32](k requires 0 <= k < 32 => BitsOf(field, 32)[k]);
    var i := 31;
    while i >= 31 - (32 - prefixLength)
      invariant -1 <= i <= 31
      invariant i == 31 || i >= prefixLength - 2
      invariant forall k :: 0 <= k < 32 ==> bits[k] == (k > i || initial[k])
      decreases i + 1
    {
      bits[i] := true;
      i := i - 1;
    }
    assert bits[..] == SetFrom(initial, prefixLength - 1);
    value := ValueOf(bits[..]);
    BroadcastFacts(field, prefixLength);
  }

  /** What the broadcast step computes, in numbers. */
  lemma BroadcastFacts(field: nat, prefixLength: int)
    requires prefixLength >= 1
    ensures field % TwoTo32 <= BroadcastOf(field, prefixLength) < TwoTo32
    ensures prefixLength <= 33 ==>
      BroadcastOf(field, prefixLength) == field % Pow2(prefixLength - 1) + (TwoTo32 - Pow2(prefixLength - 1))
    ensures prefixLength >= 33 ==> BroadcastOf(field, prefixLength) == field % TwoTo32
  {
    var bs := BitsOf(field, 32);
    var low := prefixLength - 1;
    Pow2Values();
    BitsOfValue(field, 32);
    SetFromNotBelow(bs, low);
    if low <= 32 {
      SetFromValue(bs, low);
      BitsOfPrefix(field, 32, low);
      BitsOfValue(field, low);
    }
    if low >= 32 {
      assert SetFrom(bs, low) == bs;
    }
  }

  // ---------------------------------------------------------------------
  // Properties of the bit sequences

  /** A bitset<n> built from v reads back as v modulo 2^n. */
  lemma {:induction false} BitsOfValue(v: nat, n: nat)
    ensures ValueOf(BitsOf(v, n)) == v % Pow2(n)
  {
    if n == 0 {
      DivModUnique(v, 1, v, 0);
    } else {
      var bs := BitsOf(v, n);
      assert bs[1..] == BitsOf(v / 2, n - 1);
      BitsOfValue(v / 2, n - 1);
      HalveThenDivide(v, Pow2(n - 1));
    }
  }

  /** The low m bits of a bitset<n> are the bitset<m> of the same value. */
  lemma {:induction false} BitsOfPrefix(v: nat, n: nat, m: nat)
    requires m <= n
    ensures BitsOf(v, n)[..m] == BitsOf(v, m)
  {
    if m > 0 {
      BitsOfPrefix(v / 2, n - 1, m - 1);
      assert BitsOf(v, n)[..m] == [v % 2 == 1] + BitsOf(v / 2, n - 1)[..m - 1];
    }
  }

  /** n set bits make 2^n - 1. */
  lemma {:induction false} AllOnes(bs: seq<bool>)
    requires forall k :: 0 <= k < |bs| ==> bs[k]
    ensures ValueOf(bs) == Pow2(|bs|) - 1
    decreases |bs|
  {
    if bs != [] {
      AllOnes(bs[1..]);
    }
  }

  /** Setting the bits from low up (low at most the width) keeps the value
      of the bits below low and adds 2^n - 2^low. */
  lemma {:induction false} SetFromValue(bs: seq<bool>, low: nat)
    requires low <= |bs|
    ensures ValueOf(SetFrom(bs, low)) == ValueOf(bs[..low]) + Pow2(|bs|) - Pow2(low)
    decreases low
  {
    var r := SetFrom(bs, low);
    if low == 0 {
      AllOnes(r);
    } else {
      var tail := bs[1..];
      assert r[1..] == SetFrom(tail, low - 1);
      assert bs[..low][1..] == tail[..low - 1];
      SetFromValue(tail, low - 1);
    }
  }

  /** Setting bits never lowers the value. */
  lemma {:induction false} SetFromNotBelow(bs: seq<bool>, low: int)
    ensures ValueOf(bs) <= ValueOf(SetFrom(bs, low))
    decreases |bs|
  {
    if bs != [] {
      var r := SetFrom(bs, low);
      assert r[1..] == SetFrom(bs[1..], low - 1);
      SetFromNotBelow(bs[1..], low - 1);
    }
  }
}
