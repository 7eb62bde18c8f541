/** What applySubnetMask (main.cpp:14-31) promises about its output, stated
    on Masked, the function its loop is proved to compute. */
module SubnetMaskProperties {
  import opened Bits
  import opened Conversions
  import opened SubnetMask

  // ---------------------------------------------------------------------
  // The prefix budget, token by token

  /** Token 0 takes SubnetBits of the prefix; after it, what is left of the
      prefix gives token i what the whole prefix gives token i + 1. */
  lemma OctetBitsShift(prefixLength: int, i: nat)
    requires prefixLength >= 0
    ensures SubnetBits(prefixLength) == OctetBits(prefixLength, 0)
    ensures OctetBits(prefixLength - SubnetBits(prefixLength), i) == OctetBits(prefixLength, i + 1)
  {
  }

  /** std::stoi accepts every token. */
  predicate AllRead(tokens: seq<string>)
  {
    forall i :: 0 <= i < |tokens| ==> Stoi(tokens[i]).Success?
  }

  /** The numbers std::stoi reads from the tokens. */
  function Reads(tokens: seq<string>): (vs: seq<int>)
    requires AllRead(tokens)
    ensures |vs| == |tokens|
  {
    seq(|tokens|, i requires 0 <= i < |tokens| => Stoi(tokens[i]).value)
  }

  /** The octets applySubnetMask is meant to produce from the numbers it
      reads: number i masked with min(8, max(0, prefixLength - 8 * i)) bits
      of prefix. */
  function Expected(values: seq<int>, prefixLength: int): (octets: seq<nat>)
    ensures |octets| == |values|
  {
    seq(|values|, i requires 0 <= i < |values| => MaskOctet(values[i], OctetBits(prefixLength, i)))
  }

  /** All tokens are read exactly when the first one and the others are. */
  lemma AllReadCons(tokens: seq<string>)
    requires tokens != []
    ensures AllRead(tokens) <==> Stoi(tokens[0]).Success? && AllRead(tokens[1..])
  {
    var tail := tokens[1..];
    assert forall i :: 0 <= i < |tail| ==> tail[i] == tokens[i + 1];
    if Stoi(tokens[0]).Success? && AllRead(tail) {
      forall i | 1 <= i < |tokens|
        ensures Stoi(tokens[i]).Success?
      {
        ConsAt(tokens, tail, i);
      }
    }
  }

  /** The numbers read from the tokens are the first one's followed by the others'. */
  lemma ReadsCons(tokens: seq<string>)
    requires tokens != [] && AllRead(tokens) && AllRead(tokens[1..])
    ensures Reads(tokens) == [Stoi(tokens[0]).value] + Reads(tokens[1..])
  {
    var tail := tokens[1..];
    var whole, later := Reads(tokens), Reads(tail);
    forall i | 1 <= i < |tokens|
      ensures whole[i] == later[i - 1]
    {
      ConsAt(tokens, tail, i);
    }
    ConsEq(whole, Stoi(tokens[0]).value, later);
  }

  /** The expected octets of the numbers after the first are those of the
      prefix the first one leaves. */
  lemma ExpectedCons(values: seq<int>, prefixLength: int)
    requires prefixLength >= 0 && values != []
    ensures Expected(values, prefixLength)
      == [MaskOctet(values[0], SubnetBits(prefixLength))]
         + Expected(values[1..], prefixLength - SubnetBits(prefixLength))
  {
    var rest := prefixLength - SubnetBits(prefixLength);
    var whole, later := Expected(values, prefixLength), Expected(values[1..], rest);
    forall i | 1 <= i < |values|
      ensures whole[i] == later[i - 1]
    {
      ExpectedShiftAt(values, prefixLength, i);
    }
    OctetBitsShift(prefixLength, 0);
    ConsEq(whole, MaskOctet(values[0], SubnetBits(prefixLength)), later);
  }

  /** Octet i of the numbers is octet i - 1 of their tail under what is left of the prefix. */
  lemma ExpectedShiftAt(values: seq<int>, prefixLength: int, i: nat)
    requires prefixLength >= 0 && 1 <= i < |values|
    ensures Expected(values, prefixLength)[i]
      == Expected(values[1..], prefixLength - SubnetBits(prefixLength))[i - 1]
  {
    ConsAt(values, values[1..], i);
    OctetBitsShift(prefixLength, i - 1);
  }

  /** A sequence whose head is x and whose rest is t, element by element, is [x] + t. */
  lemma ConsEq<T>(s: seq<T>, x: T, t: seq<T>)
    requires |s| == |t| + 1 && s[0] == x
    requires forall i :: 1 <= i < |s| ==> s[i] == t[i - 1]
    ensures s == [x] + t
  {
  }

  /** The loop runs to the end exactly when std::stoi accepts every token,
      and then produces the expected octets of what it reads. */
  lemma {:induction false} MaskTokensReads(tokens: seq<string>, prefixLength: int)
    requires prefixLength >= 0
    ensures MaskTokens(tokens, prefixLength).Success? <==> AllRead(tokens)
    ensures AllRead(tokens) ==> MaskTokens(tokens, prefixLength) == Success(Expected(Reads(tokens), prefixLength))
    decreases |tokens|
  {
    if tokens != [] {
      var rest := prefixLength - SubnetBits(prefixLength);
      MaskTokensReads(tokens[1..], rest);
      AllReadCons(tokens);
      if AllRead(tokens) {
        ReadsCons(tokens);
        ExpectedCons(Reads(tokens), prefixLength);
      }
    }
  }

  /** Past the head, a sequence is its tail shifted by one. */
  lemma ConsAt<T>(s: seq<T>, tail: seq<T>, i: nat)
    requires |s| == |tail| + 1 && s[1..] == tail && 1 <= i < |s|
    ensures s[i] == tail[i - 1]
  {
  }

  /** The first token std::stoi rejects decides the exception. */
  lemma {:induction false} MaskTokensRejects(tokens: seq<string>, prefixLength: int, k: nat)
    requires prefixLength >= 0 && k < |tokens|
    requires forall i :: 0 <= i < k ==> Stoi(tokens[i]).Success?
    requires Stoi(tokens[k]).Failure?
    ensures MaskTokens(tokens, prefixLength) == Failure(Stoi(tokens[k]).error)
    decreases k
  {
    if k > 0 {
      var tail := tokens[1..];
      assert forall i :: 0 <= i < k - 1 ==> tail[i] == tokens[i + 1];
      assert tail[k - 1] == tokens[k];
      MaskTokensRejects(tail, prefixLength - SubnetBits(prefixLength), k - 1);
    }
  }

  /** The loop sees only what std::stoi reads from each token. */
  lemma {:induction false} MaskTokensSameReading(tokens: seq<string>, others: seq<string>, prefixLength: int)
    requires prefixLength >= 0 && |tokens| == |others|
    requires forall i :: 0 <= i < |tokens| ==> Stoi(tokens[i]) == Stoi(others[i])
    ensures MaskTokens(tokens, prefixLength) == MaskTokens(others, prefixLength)
    decreases |tokens|
  {
    if tokens != [] {
      var tail, otherTail := tokens[1..], others[1..];
      assert forall i :: 0 <= i < |tail| ==> tail[i] == tokens[i + 1] && otherTail[i] == others[i + 1];
      MaskTokensSameReading(tail, otherTail, prefixLength - SubnetBits(prefixLength));
      assert Stoi(tokens[0]) == Stoi(others[0]);
    }
  }

  // ---------------------------------------------------------------------
  // The dotted output

  /** A rendered octet holds no '.'. */
  lemma NumeralsHaveNoDot(octets: seq<nat>)
    ensures forall k :: 0 <= k < |octets| ==> '.' !in Numerals(octets)[k]
  {
    forall k | 0 <= k < |octets|
      ensures '.' !in Numerals(octets)[k]
    {
      var s := Decimal(octets[k]);
      assert forall j :: 0 <= j < |s| ==> IsDigit(s[j]);
    }
  }

  /** Splitting a dotted string on '.' gives its numerals back. */
  lemma TokensOfDotted(octets: seq<nat>)
    requires octets != []
    ensures Tokens(Dotted(octets)) == Numerals(octets)
  {
    NumeralsHaveNoDot(octets);
    TokensOfJoin(Numerals(octets));
  }

  /** The rendered octets read back with std::stoi are the octets. */
  lemma StoiOfNumerals(octets: seq<nat>)
    requires forall i :: 0 <= i < |octets| ==> octets[i] <= IntMax
    ensures forall i :: 0 <= i < |octets| ==> Stoi(Numerals(octets)[i]) == Success(octets[i] as int)
  {
    forall i | 0 <= i < |octets|
      ensures Stoi(Numerals(octets)[i]) == Success(octets[i] as int)
    {
      var s := Decimal(octets[i]);
      assert s + [] == s;
      StoiDecimal(octets[i], []);
    }
  }

  /** applySubnetMask returns exactly when std::stoi accepts every token,
      and then returns the expected octets in decimal joined by single dots:
      one number per token, and splitting the result on '.' gives back
      exactly those numbers. */
  lemma MaskedFields(ip: string, prefixLength: int)
    requires ip != [] && prefixLength >= 0
    ensures Masked(ip, prefixLength).Success? <==> AllRead(Tokens(ip))
    ensures AllRead(Tokens(ip)) ==>
      var octets := Expected(Reads(Tokens(ip)), prefixLength);
      && Masked(ip, prefixLength) == Success(Dotted(octets))
      && Tokens(Masked(ip, prefixLength).value) == Numerals(octets)
  {
    var tokens := Tokens(ip);
    MaskTokensReads(tokens, prefixLength);
    if AllRead(tokens) {
      TokensOfDotted(Expected(Reads(tokens), prefixLength));
    }
  }

  /** applySubnetMask throws what std::stoi throws on the first token it
      rejects; an empty token, such as the middle one of "1..2", is
      invalid_argument. */
  lemma MaskedRejects(ip: string, prefixLength: int, k: nat)
    requires ip != [] && prefixLength >= 0 && k < |Tokens(ip)|
    requires forall i :: 0 <= i < k ==> Stoi(Tokens(ip)[i]).Success?
    requires Stoi(Tokens(ip)[k]).Failure?
    ensures Masked(ip, prefixLength) == Failure(Stoi(Tokens(ip)[k]).error)
    ensures Tokens(ip)[k] == [] ==> Masked(ip, prefixLength) == Failure(InvalidArgument)
  {
    MaskTokensRejects(Tokens(ip), prefixLength, k);
    if Tokens(ip)[k] == [] {
      StoiRejectsNoDigits([]);
    }
  }

  // ---------------------------------------------------------------------
  // Octets in 0..255

  /** Every token reads as an octet. */
  predicate OctetTokens(tokens: seq<string>)
  {
    AllRead(tokens) && forall i :: 0 <= i < |tokens| ==> 0 <= Reads(tokens)[i] <= 255
  }

  /** Each value with its low 8 - min(8, max(0, prefixLength - 8 * i))
      bits cleared: the largest multiple of that power of two not above it. */
  function Cleared(vs: seq<nat>, prefixLength: int): (ks: seq<nat>)
    ensures |ks| == |vs|
  {
    seq(|vs|, i requires 0 <= i < |vs| => ClearLow(vs[i], Pow2(8 - OctetBits(prefixLength, i))))
  }

  /** v with the bits under the power of two p cleared. */
  function ClearLow(v: nat, p: nat): nat
    requires p >= 1
  {
    ModNotAbove(v, p);
    v - v % p
  }

  lemma ModNotAbove(v: nat, p: nat)
    requires p >= 1
    ensures v % p <= v
  {
    MulNonNegative(p, v / p);
  }

  /** Clearing keeps the largest multiple of p not above v. */
  lemma ClearLowBounds(v: nat, p: nat)
    requires p >= 1
    ensures ClearLow(v, p) <= v < ClearLow(v, p) + p
    ensures ClearLow(v, p) % p == 0
  {
    MulNonNegative(p, v / p);
    DivModUnique(p * (v / p), p, v / p, 0);
  }

  /** Each cleared value is the largest multiple of its power of two not above the value. */
  lemma ClearedBits(vs: seq<nat>, prefixLength: int)
    ensures forall i :: 0 <= i < |vs| ==>
      var p := Pow2(8 - OctetBits(prefixLength, i));
      var k := Cleared(vs, prefixLength)[i];
      k <= vs[i] < k + p && k % p == 0
  {
    forall i | 0 <= i < |vs|
      ensures var p := Pow2(8 - OctetBits(prefixLength, i));
        var k := Cleared(vs, prefixLength)[i];
        k <= vs[i] < k + p && k % p == 0
    {
      ClearLowBounds(vs[i], Pow2(8 - OctetBits(prefixLength, i)));
    }
  }

  /** On values in 0..255 clearing is the mask of applySubnetMask. */
  lemma ClearedAt(vs: seq<nat>, prefixLength: int, i: nat)
    requires i < |vs| && vs[i] <= 255
    ensures Cleared(vs, prefixLength)[i] == MaskOctet(vs[i], OctetBits(prefixLength, i))
  {
    MaskOctetInRange(vs[i], OctetBits(prefixLength, i));
  }

  /** For tokens in 0..255, output number i is token i with its low
      8 - min(8, max(0, prefixLength - 8 * i)) bits cleared. */
  lemma MaskedInRange(ip: string, prefixLength: int)
    requires ip != [] && prefixLength >= 0 && OctetTokens(Tokens(ip))
    ensures Masked(ip, prefixLength) == Success(Dotted(Cleared(Values(Tokens(ip)), prefixLength)))
  {
    var tokens := Tokens(ip);
    MaskTokensReads(tokens, prefixLength);
    ExpectedInRange(tokens, prefixLength);
  }

  lemma ExpectedInRange(tokens: seq<string>, prefixLength: int)
    requires OctetTokens(tokens)
    ensures Expected(Reads(tokens), prefixLength) == Cleared(Values(tokens), prefixLength)
  {
    var vs := Values(tokens);
    var octets := Expected(Reads(tokens), prefixLength);
    var cleared := Cleared(vs, prefixLength);
    forall i | 0 <= i < |tokens|
      ensures octets[i] == cleared[i]
    {
      ClearedAt(vs, prefixLength, i);
    }
  }

  /** The numbers read from octet tokens, typed as the octets they are. */
  function Values(tokens: seq<string>): (vs: seq<nat>)
    requires OctetTokens(tokens)
    ensures vs == Reads(tokens)
  {
    seq(|tokens|, i requires 0 <= i < |tokens| => Reads(tokens)[i] as nat)
  }

  /** A prefix that covers every token (32 on four tokens) keeps each
      octet: the address comes back in canonical decimal. */
  lemma MaskedFullPrefix(ip: string, prefixLength: int)
    requires ip != [] && OctetTokens(Tokens(ip)) && prefixLength >= 8 * |Tokens(ip)|
    ensures Masked(ip, prefixLength) == Success(Dotted(Values(Tokens(ip))))
  {
    var tokens := Tokens(ip);
    MaskTokensReads(tokens, prefixLength);
    ExpectedFullPrefix(tokens, prefixLength);
  }

  lemma ExpectedFullPrefix(tokens: seq<string>, prefixLength: int)
    requires OctetTokens(tokens) && prefixLength >= 8 * |tokens|
    ensures Expected(Reads(tokens), prefixLength) == Values(tokens)
  {
    var vs := Values(tokens);
    var octets := Expected(Reads(tokens), prefixLength);
    forall i | 0 <= i < |tokens|
      ensures octets[i] == vs[i]
    {
      assert OctetBits(prefixLength, i) == 8;
      MaskOctetInRange(vs[i], 8);
    }
  }

  /** A canonical dotted address of octets, masked with a prefix that covers
      all of them, is returned unchanged. */
  lemma MaskedCanonical(octets: seq<nat>, prefixLength: int)
    requires octets != [] && prefixLength >= 8 * |octets|
    requires forall i :: 0 <= i < |octets| ==> octets[i] <= 255
    ensures Masked(Dotted(octets), prefixLength) == Success(Dotted(octets))
  {
    var ip := Dotted(octets);
    TokensOfDotted(octets);
    StoiOfNumerals(octets);
    assert Values(Tokens(ip)) == octets;
    MaskedFullPrefix(ip, prefixLength);
  }

  /** Numbers outside 0..255 pass through: a number whose octet is wholly
      inside the prefix keeps its low byte, and one past the prefix keeps
      its second byte, in place (300 gives 44 and 256, -1 gives 255 and
      65280). */
  lemma ExpectedUnchecked(values: seq<int>, prefixLength: int)
    ensures forall i :: 0 <= i < |values| && 8 * (i + 1) <= prefixLength ==>
      Expected(values, prefixLength)[i] == values[i] % 256
    ensures forall i :: 0 <= i < |values| && prefixLength <= 8 * i ==>
      Expected(values, prefixLength)[i] == values[i] % 0x1_0000 - values[i] % 256
  {
    forall i | 0 <= i < |values|
      ensures MaskOctet(values[i], 8) == values[i] % 256
      ensures MaskOctet(values[i], 0) == values[i] % 0x1_0000 - values[i] % 256
    {
      MaskOctetUnchecked(values[i]);
    }
  }

  /** Prefix 0 clears every octet in 0..255. */
  lemma MaskedZeroPrefix(ip: string)
    requires ip != [] && OctetTokens(Tokens(ip))
    ensures Masked(ip, 0) == Success(Dotted(seq(|Tokens(ip)|, i => 0)))
  {
    var tokens := Tokens(ip);
    MaskTokensReads(tokens, 0);
    ExpectedZeroPrefix(tokens);
  }

  lemma ExpectedZeroPrefix(tokens: seq<string>)
    requires OctetTokens(tokens)
    ensures Expected(Reads(tokens), 0) == seq(|tokens|, i => 0)
  {
    var octets := Expected(Reads(tokens), 0);
    forall i | 0 <= i < |tokens|
      ensures octets[i] == 0
    {
      MaskOctetInRange(Reads(tokens)[i], 0);
    }
  }

  /** Prefix 0 on a four-token address of octets gives "0.0.0.0". */
  lemma MaskedZeroPrefixFour(ip: string)
    requires ip != [] && OctetTokens(Tokens(ip)) && |Tokens(ip)| == 4
    ensures Masked(ip, 0) == Success("0.0.0.0")
  {
    MaskedZeroPrefix(ip);
    DottedZeros();
  }

  /** Four zero octets are written "0.0.0.0". */
  lemma DottedZeros()
    ensures Dotted(seq(4, i => 0)) == "0.0.0.0"
  {
    var zero := Decimal(0);
    assert zero == "0";
    assert Numerals(seq(4, i => 0)) == [zero, zero, zero, zero];
    assert JoinDots([zero, zero]) == "0.0" by {
      assert [zero, zero][1..] == [zero];
    }
    assert JoinDots([zero, zero, zero]) == "0.0.0" by {
      assert [zero, zero, zero][1..] == [zero, zero];
    }
    assert [zero, zero, zero, zero][1..] == [zero, zero, zero];
  }

  // ---------------------------------------------------------------------
  // Idempotence

  /** Masking the masked address again with the same prefix changes
      nothing, whatever the tokens were. */
  lemma MaskedIdempotent(ip: string, prefixLength: int)
    requires ip != [] && prefixLength >= 0 && Masked(ip, prefixLength).Success?
    ensures Masked(Masked(ip, prefixLength).value, prefixLength) == Masked(ip, prefixLength)
  {
    var tokens := Tokens(ip);
    MaskTokensReads(tokens, prefixLength);
    var octets := Expected(Reads(tokens), prefixLength);
    TokensOfDotted(octets);
    ExpectedAgain(Reads(tokens), prefixLength);
    MaskTokensReads(Numerals(octets), prefixLength);
  }

  /** The expected octets, written in decimal, read back and masked again
      with the same prefix, are the same octets. */
  lemma ExpectedAgain(values: seq<int>, prefixLength: int)
    ensures var octets := Expected(values, prefixLength);
      AllRead(Numerals(octets)) && Expected(Reads(Numerals(octets)), prefixLength) == octets
  {
    var octets := Expected(values, prefixLength);
    StoiOfNumerals(octets);
    var octets' := Expected(Reads(Numerals(octets)), prefixLength);
    forall i | 0 <= i < |octets|
      ensures octets'[i] == octets[i]
    {
      MaskOctetIdempotent(values[i], OctetBits(prefixLength, i));
    }
  }

  // ---------------------------------------------------------------------
  // Trailing text

  /** Text glued to the last field stays in the last token. */
  lemma {:induction false} JoinDotsGlued(ts: seq<string>, suffix: string)
    requires |ts| > 0
    ensures JoinDots(ts) + suffix == JoinDots(ts[..|ts| - 1] + [ts[|ts| - 1] + suffix])
    decreases |ts|
  {
    var glued := ts[..|ts| - 1] + [ts[|ts| - 1] + suffix];
    if |ts| > 1 {
      JoinDotsGlued(ts[1..], suffix);
      assert glued[0] == ts[0];
      assert glued[1..] == ts[1..][..|ts| - 2] + [ts[|ts| - 1] + suffix];
    }
  }

  /** Text glued to a string that does not end in '.' stays in its last token. */
  lemma TokensOfGlued(ip: string, suffix: string)
    requires ip != [] && ip[|ip| - 1] != '.' && '.' !in suffix
    ensures var ts := Tokens(ip);
      Tokens(ip + suffix) == ts[..|ts| - 1] + [ts[|ts| - 1] + suffix]
  {
    var ts := Tokens(ip);
    var n := |ts|;
    var glued := ts[..n - 1] + [ts[n - 1] + suffix];
    JoinOfTokens(ip);
    LastToken(ip);
    JoinDotsGlued(ts, suffix);
    forall k | 0 <= k < n
      ensures '.' !in glued[k]
    {
      if k < n - 1 {
        assert glued[k] == ts[k];
      }
    }
    TokensOfJoin(glued);
  }

  /** Gluing such text to the last token changes nothing std::stoi reads. */
  lemma GluedReadsSame(ts: seq<string>, suffix: string)
    requires |ts| > 0 && ts[|ts| - 1] != [] && IsDigit(ts[|ts| - 1][|ts[|ts| - 1]| - 1])
    requires suffix == [] || !IsDigit(suffix[0])
    ensures var glued := ts[..|ts| - 1] + [ts[|ts| - 1] + suffix];
      |glued| == |ts| && forall i :: 0 <= i < |ts| ==> Stoi(glued[i]) == Stoi(ts[i])
  {
    var n := |ts|;
    var glued := ts[..n - 1] + [ts[n - 1] + suffix];
    StoiIgnoresSuffix(ts[n - 1], suffix);
    forall i | 0 <= i < n
      ensures Stoi(glued[i]) == Stoi(ts[i])
    {
      if i < n - 1 {
        assert glued[i] == ts[i];
      }
    }
  }

  /** Text after the last field's digits that holds no '.' and does not
      start with a digit is ignored: "10.0.0.0/24" masks like "10.0.0.0",
      and so do " 10.0.0.0/24" and "010.0.0.0/24" like their bare forms. */
  lemma MaskedIgnoresTrailingText(ip: string, suffix: string, prefixLength: int)
    requires ip != [] && prefixLength >= 0 && IsDigit(ip[|ip| - 1])
    requires '.' !in suffix && (suffix == [] || !IsDigit(suffix[0]))
    ensures Masked(ip + suffix, prefixLength) == Masked(ip, prefixLength)
  {
    var ts := Tokens(ip);
    var glued := ts[..|ts| - 1] + [ts[|ts| - 1] + suffix];
    assert Tokens(ip + suffix) == glued by {
      TokensOfGlued(ip, suffix);
    }
    assert MaskTokens(glued, prefixLength) == MaskTokens(ts, prefixLength) by {
      LastToken(ip);
      GluedReadsSame(ts, suffix);
      MaskTokensSameReading(glued, ts, prefixLength);
    }
  }
}
