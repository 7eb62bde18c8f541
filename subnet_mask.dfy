/** applySubnetMask (main.cpp:14-31): the dotted network address of an
    IPv4 address string under a prefix length, computed token by token on
    the text. Each '.'-separated token is read with std::stoi, ANDed with
    the mask `255 << (8 - subnetBits)` where subnetBits is what is left of
    the prefix (at most 8), and written back in decimal; the tokens are
    joined with '.'. Nothing checks that there are four tokens or that a
    token lies in 0..255, and the mask is not cut to 8 bits. */
module SubnetMask {
  import opened Bits
  import opened Conversions

  /** `prefixLength >= 8 ? 8 : prefixLength`: the prefix bits the current
      token takes, all 8 or whatever is left. */
  function SubnetBits(prefixLength: int): (b: int)
    requires prefixLength >= 0
    ensures 0 <= b <= 8 && b <= prefixLength
    ensures b < 8 ==> b == prefixLength
  {
    if prefixLength >= 8 then 8 else prefixLength
  }

  /** `255 << (8 - subnetBits)`, an int that never overflows here: 255 for a
      whole octet of prefix, 0xFF00 once the prefix is spent. */
  function SubnetMask(subnetBits: int): (m: nat)
    requires 0 <= subnetBits <= 8
    ensures 255 <= m <= 0xFF00
  {
    Pow2Monotone(8 - subnetBits, 8);
    Pow2Values();
    255 * Pow2(8 - subnetBits)
  }

  /** `octet & subnetMask` on C++ ints: never negative, at most 0xFF00. */
  function MaskOctet(octet: int, subnetBits: int): (r: nat)
    requires 0 <= subnetBits <= 8
    ensures r <= 0xFF00
  {
    And32(octet, SubnetMask(subnetBits))
  }

  /** The loop of applySubnetMask over the tokens: the masked octets in
      order, each token taking SubnetBits of what remains of the prefix, or
      the exception std::stoi throws on the first token it rejects. */
  function MaskTokens(tokens: seq<string>, prefixLength: int): (r: Result<seq<nat>>)
    requires prefixLength >= 0
    ensures r.Success? ==> |r.value| == |tokens|
    decreases |tokens|
  {
    if tokens == [] then Success([])
    else
      match Stoi(tokens[0])
      case Failure(e) => Failure(e)
      case Success(octet) =>
        var subnetBits := SubnetBits(prefixLength);
        Then([MaskOctet(octet, subnetBits)], MaskTokens(tokens[1..], prefixLength - subnetBits))
  }

  /** `result` when the loop ends: every masked octet in decimal followed by a '.'. */
  function Terminated(octets: seq<nat>): (s: string)
    ensures |s| >= 2 * |octets|
    ensures |octets| > 0 ==> s[|s| - 1] == '.'
  {
    if octets == [] then "" else Decimal(octets[0]) + "." + Terminated(octets[1..])
  }

  /** The decimal numerals of the octets. */
  function Numerals(octets: seq<nat>): (ns: seq<string>)
    ensures |ns| == |octets|
  {
    seq(|octets|, i requires 0 <= i < |octets| => Decimal(octets[i]))
  }

  /** The octets as a dotted string: numerals joined by single dots. */
  function Dotted(octets: seq<nat>): (s: string)
    requires |octets| > 0
    ensures |s| > 0 && IsDigit(s[0]) && IsDigit(s[|s| - 1])
  {
    JoinDotsEnds(Numerals(octets));
    JoinDots(Numerals(octets))
  }

  /** What applySubnetMask(ip, prefixLength) returns, or the exception it
      propagates. An empty ip is left out: it yields no token, and
      `result.pop_back()` on the empty result is undefined. */
  function Masked(ip: string, prefixLength: int): (r: Result<string>)
    requires ip != [] && prefixLength >= 0
    ensures r.Success? ==> |r.value| > 0 && IsDigit(r.value[0]) && IsDigit(r.value[|r.value| - 1])
  {
    match MaskTokens(Tokens(ip), prefixLength)
    case Failure(e) => Failure(e)
    case Success(octets) => Success(Dotted(octets))
  }

  /** The prefix bits token i takes: min(8, max(0, prefixLength - 8 * i)). */
  function OctetBits(prefixLength: int, i: nat): (b: int)
    ensures 0 <= b <= 8
  {
    var left := prefixLength - 8 * i;
    if left >= 8 then 8 else if left <= 0 then 0 else left
  }

  /** The octets done so far followed by the outcome of the rest. */
  function Then(done: seq<nat>, rest: Result<seq<nat>>): Result<seq<nat>>
  {
    match rest
    case Success(octets) => Success(done + octets)
    case Failure(e) => Failure(e)
  }

  /** The loop of applySubnetMask, reading the stream character by
      character as std::getline does. */
  method ApplySubnetMask(ip: string, prefixLength: int) returns (r: Result<string>)
    requires ip != [] && prefixLength >= 0
    ensures r == Masked(ip, prefixLength)
  {
    var pos := 0;
    var remaining := prefixLength;
    var result := "";
    ghost var octets: seq<nat> := [];
    ghost var whole := MaskTokens(Tokens(ip), prefixLength);
    LoopEntry(ip, prefixLength);
    while pos < |ip|
      invariant 0 <= pos <= |ip| && remaining >= 0
      invariant result == Terminated(octets)
      invariant Then(octets, MaskTokens(Tokens(ip[pos..]), remaining)) == whole
      decreases |ip| - pos
    {
      var end := ScanField(ip, pos);
      var token := ip[pos..end];
      var next := if end < |ip| then end + 1 else end;
      LoopStep(ip, pos, end, octets, remaining, whole);
      pos := next;

      var octet := Stoi(token);
      if octet.Failure? {
        MaskedFailure(ip, prefixLength);
        return Failure(octet.error);
      }
      var subnetBits := if remaining >= 8 then 8 else remaining;
      var subnetMask := SubnetMask(subnetBits);
      var masked: nat := And32(octet.value, subnetMask);
      TerminatedSnoc(octets, masked);
      result := result + Decimal(masked) + ".";
      octets := octets + [masked];
      remaining := remaining - subnetBits;
    }
    LoopExit(ip, prefixLength, pos, remaining, octets);
    result := result[..|result| - 1];  // result.pop_back()
    r := Success(result);
  }

  /** std::getline(iss, token, '.') from read position pos: the index of
      the next '.' at or after pos, or |ip| when there is none. */
  method ScanField(ip: string, pos: nat) returns (end: nat)
    requires pos <= |ip|
    ensures pos <= end <= |ip|
    ensures forall i :: pos <= i < end ==> ip[i] != '.'
    ensures end < |ip| ==> ip[end] == '.'
  {
    end := pos;
    while end < |ip| && ip[end] != '.'
      invariant pos <= end <= |ip|
      invariant forall i :: pos <= i < end ==> ip[i] != '.'
    {
      end := end + 1;
    }
  }

  // ---------------------------------------------------------------------
  // Lemmas used by the method

  /** One getline call: from read position pos, the token runs to the next
      '.' (or the end) and reading resumes after that '.'. */
  lemma TokensStep(ip: string, pos: nat, end: nat)
    requires pos < |ip| && pos <= end <= |ip|
    requires forall i :: pos <= i < end ==> ip[i] != '.'
    requires end < |ip| ==> ip[end] == '.'
    ensures Tokens(ip[pos..]) == [ip[pos..end]] + Tokens(ip[if end < |ip| then end + 1 else end..])
  {
    var s := ip[pos..];
    var j := end - pos;
    assert DelimIndex(s) == j by {
      assert s == ip[pos..end] + ip[end..];
      DelimIndexOfField(ip[pos..end], ip[end..]);
    }
    assert s[..j] == ip[pos..end];
    if end < |ip| {
      assert s[j + 1..] == ip[end + 1..];
    } else {
      assert ip[end..] == [];
    }
  }

  lemma ThenNothing(r: Result<seq<nat>>)
    ensures Then([], r) == r
  {
    if r.Success? {
      assert [] + r.value == r.value;
    }
  }

  /** Before the loop nothing is read and nothing is produced. */
  lemma LoopEntry(ip: string, prefixLength: int)
    requires prefixLength >= 0
    ensures Then([], MaskTokens(Tokens(ip[0..]), prefixLength)) == MaskTokens(Tokens(ip), prefixLength)
  {
    assert ip[0..] == ip;
    ThenNothing(MaskTokens(Tokens(ip), prefixLength));
  }

  /** One getline and stoi: the invariant of the loop carried over the token at pos. */
  lemma LoopStep(ip: string, pos: nat, end: nat, octets: seq<nat>, remaining: int, whole: Result<seq<nat>>)
    requires pos < |ip| && pos <= end <= |ip| && remaining >= 0
    requires forall i :: pos <= i < end ==> ip[i] != '.'
    requires end < |ip| ==> ip[end] == '.'
    requires Then(octets, MaskTokens(Tokens(ip[pos..]), remaining)) == whole
    ensures var octet := Stoi(ip[pos..end]);
      octet.Failure? ==> whole == Failure(octet.error)
    ensures var octet := Stoi(ip[pos..end]);
      var next := if end < |ip| then end + 1 else end;
      var subnetBits := SubnetBits(remaining);
      octet.Success? ==>
        Then(octets + [MaskOctet(octet.value, subnetBits)], MaskTokens(Tokens(ip[next..]), remaining - subnetBits)) == whole
  {
    TokensStep(ip, pos, end);
    var next := if end < |ip| then end + 1 else end;
    MaskTokensStep(octets, ip[pos..end], Tokens(ip[next..]), remaining);
  }

  /** When the loop stops every token is read: the octets are the whole outcome. */
  lemma LoopExit(ip: string, prefixLength: int, pos: nat, remaining: int, octets: seq<nat>)
    requires ip != [] && prefixLength >= 0 && remaining >= 0
    requires pos == |ip|
    requires Then(octets, MaskTokens(Tokens(ip[pos..]), remaining)) == MaskTokens(Tokens(ip), prefixLength)
    ensures octets != []
    ensures Masked(ip, prefixLength).Success?
    ensures Masked(ip, prefixLength).value == Terminated(octets)[..|Terminated(octets)| - 1]
  {
    assert ip[pos..] == [];
    assert octets + [] == octets;
    assert |Tokens(ip)| > 0;
    TerminatedIsDotted(octets);
  }

  /** result just before pop_back is the dotted octets and one more '.'. */
  lemma {:induction false} TerminatedIsDotted(octets: seq<nat>)
    requires octets != []
    ensures Terminated(octets) == Dotted(octets) + "."
    decreases |octets|
  {
    var tail := octets[1..];
    assert Numerals(octets) == [Decimal(octets[0])] + Numerals(tail);
    if tail == [] {
      assert Terminated(tail) == "";
    } else {
      TerminatedIsDotted(tail);
      JoinDotsCons(Decimal(octets[0]), Numerals(tail));
    }
  }

  /** An exception from the loop is the exception of applySubnetMask. */
  lemma MaskedFailure(ip: string, prefixLength: int)
    requires ip != [] && prefixLength >= 0
    requires MaskTokens(Tokens(ip), prefixLength).Failure?
    ensures Masked(ip, prefixLength) == Failure(MaskTokens(Tokens(ip), prefixLength).error)
  {
  }

  /** One pass of the loop: the first token either ends the run with its
      exception or contributes its masked octet. */
  lemma MaskTokensStep(done: seq<nat>, token: string, rest: seq<string>, remaining: int)
    requires remaining >= 0
    ensures Stoi(token).Failure? ==>
      Then(done, MaskTokens([token] + rest, remaining)) == Failure(Stoi(token).error)
    ensures Stoi(token).Success? ==>
      var subnetBits := SubnetBits(remaining);
      Then(done, MaskTokens([token] + rest, remaining))
        == Then(done + [MaskOctet(Stoi(token).value, subnetBits)], MaskTokens(rest, remaining - subnetBits))
  {
    var tokens := [token] + rest;
    assert tokens[0] == token && tokens[1..] == rest;
    match Stoi(token)
    case Failure(e) =>
      assert MaskTokens(tokens, remaining) == Failure(e);
    case Success(octet) =>
      var subnetBits := SubnetBits(remaining);
      var tail := MaskTokens(rest, remaining - subnetBits);
      assert MaskTokens(tokens, remaining) == Then([MaskOctet(octet, subnetBits)], tail);
      ThenThen(done, [MaskOctet(octet, subnetBits)], tail);
  }

  /** Octets done in two stages are the octets done in one. */
  lemma ThenThen(first: seq<nat>, second: seq<nat>, rest: Result<seq<nat>>)
    ensures Then(first, Then(second, rest)) == Then(first + second, rest)
  {
    if rest.Success? {
      assert first + (second + rest.value) == (first + second) + rest.value;
    }
  }

  /** Appending one octet to result. */
  lemma {:induction false} TerminatedSnoc(octets: seq<nat>, v: nat)
    ensures Terminated(octets + [v]) == Terminated(octets) + Decimal(v) + "."
    decreases |octets|
  {
    if octets != [] {
      assert (octets + [v])[1..] == octets[1..] + [v];
      TerminatedSnoc(octets[1..], v);
    }
  }

  // ---------------------------------------------------------------------
  // Properties of one octet

  /** The mask keeps bits 8 - subnetBits to 15 - subnetBits of the
      token's 32-bit pattern: one byte of it, in place. */
  lemma MaskOctetClosedForm(octet: int, subnetBits: int, p: nat)
    requires 0 <= subnetBits <= 8 && p == Pow2(8 - subnetBits)
    ensures MaskOctet(octet, subnetBits) == ((octet % TwoTo32) / p % 256) * p
  {
    var m := SubnetMask(subnetBits);
    DivModUnique(m, TwoTo32, 0, m);
    AndShiftedByte(octet % TwoTo32, 8 - subnetBits);
  }

  /** For a token in 0..255 the mask clears its low 8 - subnetBits bits:
      the result is not above the octet, a whole octet of prefix keeps it
      and a spent prefix gives 0. */
  lemma MaskOctetInRange(octet: int, subnetBits: int)
    requires 0 <= octet <= 255 && 0 <= subnetBits <= 8
    ensures var p := Pow2(8 - subnetBits);
      MaskOctet(octet, subnetBits) == octet - octet % p
    ensures MaskOctet(octet, subnetBits) <= octet
    ensures subnetBits == 8 ==> MaskOctet(octet, subnetBits) == octet
    ensures subnetBits == 0 ==> MaskOctet(octet, subnetBits) == 0
  {
    var p := Pow2(8 - subnetBits);
    MaskOctetClosedForm(octet, subnetBits, p);
    ByteOfSmall(octet, p);
    if subnetBits == 8 {
      DivModUnique(octet, 1, octet, 0);
    }
    if subnetBits == 0 {
      Pow2Values();
      DivModUnique(octet, 256, 0, octet);
    }
  }

  /** Masking a masked octet again with the same prefix bits changes
      nothing, whatever the token was. */
  lemma MaskOctetIdempotent(octet: int, subnetBits: int)
    requires 0 <= subnetBits <= 8
    ensures MaskOctet(MaskOctet(octet, subnetBits), subnetBits) == MaskOctet(octet, subnetBits)
  {
    var p := Pow2(8 - subnetBits);
    var y := MaskOctet(octet, subnetBits);
    MaskOctetClosedForm(octet, subnetBits, p);
    MaskOctetClosedForm(y, subnetBits, p);
    ByteFixed((octet % TwoTo32) / p % 256, p);
  }

  /** Tokens outside 0..255 are not rejected and the mask is not cut to 8
      bits. With a whole octet of prefix a token keeps its low byte (300
      gives 44, -1 gives 255); once the prefix is spent the mask is 0xFF00
      and a token keeps its second byte (300 gives 256, -1 gives 65280). */
  lemma MaskOctetUnchecked(octet: int)
    ensures MaskOctet(octet, 8) == octet % 256
    ensures MaskOctet(octet, 0) == octet % 0x1_0000 - octet % 256
  {
    Pow2Values();
    MaskOctetClosedForm(octet, 8, 1);
    DivModUnique(octet % TwoTo32, 1, octet % TwoTo32, 0);
    LowByte(octet);
    MaskOctetClosedForm(octet, 0, 256);
    SecondByte(octet);
  }
}
