/** The body of the try block of main (main.cpp:52-64) for one subnet:
    the network address from applySubnetMask, then the broadcast number
    from the first field of that network. */
module Calculator {
  import opened Conversions
  import opened SubnetMask
  import opened SubnetMaskProperties
  import opened Broadcast

  /** What happens to one row: it is added with its network and broadcast
      strings; an invalid_argument is reported and main returns 1; an
      out_of_range escapes the try block and ends the program. */
  datatype RowOutcome = Added(network: string, broadcast: string) | ReportedInvalid | Aborted

  /** The network of a row and the number std::stoul(network, nullptr, 0)
      reads from it; with base 0 a leading "0x" or "0" would switch base,
      but the first field is a canonical decimal numeral. Prefix 0 is
      defined only when applySubnetMask throws: a network would send the
      loop to bits[-1]. */
  method ComputeRow(ip: string, prefixLength: int) returns (row: RowOutcome)
    requires ip != [] && prefixLength >= 0
    requires prefixLength >= 1 || Masked(ip, prefixLength).Failure?
    ensures row.Added? <==> Masked(ip, prefixLength).Success?
    ensures row.ReportedInvalid? <==> Masked(ip, prefixLength) == Failure(InvalidArgument)
    ensures row.Aborted? <==> Masked(ip, prefixLength) == Failure(OutOfRange)
    ensures row.Added? ==>
      var first := MaskOctet(Stoi(Tokens(ip)[0]).value, SubnetBits(prefixLength));
      && row.network == Masked(ip, prefixLength).value
      && Stoul(row.network) == Success(first)
      && row.broadcast == Decimal(BroadcastOf(first, prefixLength))
      && AllDigits(row.broadcast)
  {
    var network := ApplySubnetMask(ip, prefixLength);
    if network.Failure? {
      if network.error == InvalidArgument {
        return ReportedInvalid;
      }
      return Aborted;
    }
    StoulOfMasked(ip, prefixLength);
    var field := Stoul(network.value).value;
    var value := BroadcastValue(field, prefixLength);
    row := Added(network.value, Decimal(value));
  }

  /** std::stoul reads the first masked octet off the network string: the
      first token read by std::stoi and masked with SubnetBits of the
      prefix. */
  lemma StoulOfMasked(ip: string, prefixLength: int)
    requires ip != [] && prefixLength >= 0 && Masked(ip, prefixLength).Success?
    ensures Stoi(Tokens(ip)[0]).Success?
    ensures Stoul(Masked(ip, prefixLength).value)
      == Success(MaskOctet(Stoi(Tokens(ip)[0]).value, SubnetBits(prefixLength)))
  {
    var tokens := Tokens(ip);
    MaskTokensReads(tokens, prefixLength);
    OctetBitsShift(prefixLength, 0);
    StoulOfDotted(Expected(Reads(tokens), prefixLength));
  }

  /** std::stoul reads the first numeral of a dotted string, stopping at the '.'. */
  lemma StoulOfDotted(octets: seq<nat>)
    requires octets != [] && octets[0] <= ULongMax
    ensures Stoul(Dotted(octets)) == Success(octets[0])
  {
    var ns := Numerals(octets);
    var first := Decimal(octets[0]);
    var suffix := if |ns| == 1 then [] else "." + JoinDots(ns[1..]);
    assert JoinDots(ns) == first + suffix by {
      if |ns| > 1 {
        JoinDotsCons(first, ns[1..]);
        assert ns == [first] + ns[1..];
      }
    }
    StoulDecimal(octets[0], suffix);
  }
}
