/** The standard-library conversions applySubnetMask and main rely on:
    std::getline with a '.' delimiter, std::stoi, std::stoul and
    std::to_string, on strings of chars in the "C" locale. */
module Conversions {
  import opened Bits

  /** The exceptions std::stoi and std::stoul throw. */
  datatype ConvError = InvalidArgument | OutOfRange

  datatype Result<+T> = Success(value: T) | Failure(error: ConvError)

  const ULongMax: int := 0xFFFF_FFFF_FFFF_FFFF

  predicate IsDigit(c: char) { '0' <= c <= '9' }

  /** isspace in the "C" locale: space, \t, \n, \v, \f, \r. */
  predicate IsSpace(c: char) { c == ' ' || '\t' <= c <= '\r' }

  predicate AllDigits(s: string) { forall i :: 0 <= i < |s| ==> IsDigit(s[i]) }

  function DigitValue(c: char): (d: nat)
    requires IsDigit(c)
    ensures d <= 9
  {
    c as int - '0' as int
  }

  function DigitChar(d: nat): (c: char)
    requires d <= 9
    ensures IsDigit(c) && DigitValue(c) == d
  {
    ('0' as int + d) as char
  }

  /** std::to_string of a non-negative value: its decimal numeral, with no
      leading zero except for the numeral "0" itself. */
  function Decimal(n: nat): (s: string)
    ensures |s| > 0 && AllDigits(s)
    ensures s[0] == '0' ==> n == 0
    decreases n
  {
    if n < 10 then [DigitChar(n)] else Decimal(n / 10) + [DigitChar(n % 10)]
  }

  /** The value of a run of decimal digits. */
  function DigitsValue(s: string): nat
    requires AllDigits(s)
  {
    if s == [] then 0 else 10 * DigitsValue(s[..|s| - 1]) + DigitValue(s[|s| - 1])
  }

  /** Length of the run of decimal digits s starts with. */
  function DigitRun(s: string): (r: nat)
    ensures r <= |s| && AllDigits(s[..r])
    ensures r < |s| ==> !IsDigit(s[r])
  {
    if s == [] || !IsDigit(s[0]) then 0 else 1 + DigitRun(s[1..])
  }

  /** Length of the run of white space s starts with. */
  function SpaceRun(s: string): (r: nat)
    ensures r <= |s| && forall i :: 0 <= i < r ==> IsSpace(s[i])
    ensures r < |s| ==> !IsSpace(s[r])
  {
    if s == [] || !IsSpace(s[0]) then 0 else 1 + SpaceRun(s[1..])
  }

  /** std::stoi(token), that is strtol in base 10: white space is skipped,
      one optional sign is read, then the longest run of decimal digits;
      whatever follows the digits is ignored. No digits is
      invalid_argument; a value outside the range of int is out_of_range. */
  function Stoi(token: string): (r: Result<int>)
    ensures r.Success? ==> IntMin <= r.value <= IntMax
  {
    ReadSigned(token[SpaceRun(token)..])
  }

  /** strtol after the white space: one optional sign, then the digits. */
  function ReadSigned(rest: string): (r: Result<int>)
    ensures r.Success? ==> IntMin <= r.value <= IntMax
  {
    var signed := |rest| > 0 && (rest[0] == '-' || rest[0] == '+');
    var negative := signed && rest[0] == '-';
    ReadDigits(if signed then rest[1..] else rest, negative)
  }

  /** strtol after the sign: the longest run of decimal digits, negated
      after a '-', checked against the range of int. */
  function ReadDigits(body: string, negative: bool): (r: Result<int>)
    ensures r.Success? ==> IntMin <= r.value <= IntMax
  {
    var n := DigitRun(body);
    if n == 0 then Failure(InvalidArgument)
    else
      var magnitude := DigitsValue(body[..n]);
      var v := if negative then -(magnitude as int) else magnitude as int;
      if v < IntMin || v > IntMax then Failure(OutOfRange) else Success(v)
  }

  /** std::stoul(s, nullptr, 0) on a string that starts, after optional
      white space, with a decimal numeral: the value of the leading run of
      digits; out_of_range above the range of unsigned long (64 bits). */
  function Stoul(s: string): (r: Result<nat>)
    ensures r.Success? ==> r.value <= ULongMax
  {
    var rest := s[SpaceRun(s)..];
    var n := DigitRun(rest);
    if n == 0 then Failure(InvalidArgument)
    else
      var v := DigitsValue(rest[..n]);
      if v > ULongMax then Failure(OutOfRange) else Success(v)
  }

  /** Where std::getline(iss, token, '.') stops reading s: the index of
      the first '.', or |s| when there is none. */
  function DelimIndex(s: string): (j: nat)
    ensures j <= |s|
    ensures forall i :: 0 <= i < j ==> s[i] != '.'
    ensures j < |s| ==> s[j] == '.'
  {
    if s == [] || s[0] == '.' then 0 else 1 + DelimIndex(s[1..])
  }

  /** The tokens `while (std::getline(iss, token, '.'))` reads from s: the
      '.'-separated fields in order. getline fails only at end of input
      with nothing read, so a field after a final '.' (and the one field
      of an empty s) is never read, while an empty field between two dots
      is. */
  function Tokens(s: string): (ts: seq<string>)
    ensures |ts| > 0 <==> s != []
    ensures forall k :: 0 <= k < |ts| ==> '.' !in ts[k]
    decreases |s|
  {
    if s == [] then []
    else
      var j := DelimIndex(s);
      [s[..j]] + (if j < |s| then Tokens(s[j + 1..]) else [])
  }

  /** The fields ts written out with a single '.' between neighbours. */
  function JoinDots(ts: seq<string>): string
    requires |ts| > 0
  {
    if |ts| == 1 then ts[0] else ts[0] + "." + JoinDots(ts[1..])
  }

  // ---------------------------------------------------------------------
  // Properties

  /** Reading a rendered value back gives the value. */
  lemma {:induction false} DecimalValue(n: nat)
    ensures DigitsValue(Decimal(n)) == n
    decreases n
  {
    if n >= 10 {
      var s := Decimal(n);
      assert s[..|s| - 1] == Decimal(n / 10);
      DecimalValue(n / 10);
    }
  }

  /** The digit run of a numeral followed by a non-digit stops at the numeral's end. */
  lemma {:induction false} DigitRunStopsAt(s: string, suffix: string)
    requires AllDigits(s)
    requires suffix == [] || !IsDigit(suffix[0])
    ensures DigitRun(s + suffix) == |s|
    decreases |s|
  {
    if s != [] {
      assert (s + suffix)[1..] == s[1..] + suffix;
      DigitRunStopsAt(s[1..], suffix);
    }
  }

  /** std::stoi reads a rendered int back, ignoring any text after the
      digits that does not start with a digit (so "0/24" reads as 0). */
  lemma StoiDecimal(n: nat, suffix: string)
    requires n <= IntMax
    requires suffix == [] || !IsDigit(suffix[0])
    ensures Stoi(Decimal(n) + suffix) == Success(n)
  {
    var s := Decimal(n);
    var t := s + suffix;
    assert t[0] == s[0];
    assert SpaceRun(t) == 0;
    assert t[0..] == t;
    DigitRunStopsAt(s, suffix);
    assert t[..|s|] == s;
    DecimalValue(n);
  }

  /** std::stoul reads the leading numeral of a rendered value followed by other text. */
  lemma StoulDecimal(n: nat, suffix: string)
    requires n <= ULongMax
    requires suffix == [] || !IsDigit(suffix[0])
    ensures Stoul(Decimal(n) + suffix) == Success(n)
  {
    var s := Decimal(n);
    var t := s + suffix;
    assert t[0] == s[0];
    assert SpaceRun(t) == 0;
    assert t[0..] == t;
    DigitRunStopsAt(s, suffix);
    assert t[..|s|] == s;
    DecimalValue(n);
  }

  /** A token with no digits after its white space and sign is rejected with invalid_argument. */
  lemma StoiRejectsNoDigits(token: string)
    requires forall i :: 0 <= i < |token| ==> !IsDigit(token[i])
    ensures Stoi(token) == Failure(InvalidArgument)
  {
    var rest := token[SpaceRun(token)..];
    var body := if |rest| > 0 && (rest[0] == '-' || rest[0] == '+') then rest[1..] else rest;
    assert body == [] || body[0] == token[|token| - |body|];
  }

  /** White space at the start of t stops inside t: text after t does not extend it. */
  lemma {:induction false} SpaceRunSuffix(t: string, suffix: string)
    requires SpaceRun(t) < |t|
    ensures SpaceRun(t + suffix) == SpaceRun(t)
    decreases |t|
  {
    assert (t + suffix)[0] == t[0];
    if IsSpace(t[0]) {
      assert (t + suffix)[1..] == t[1..] + suffix;
      SpaceRunSuffix(t[1..], suffix);
    }
  }

  /** Text that does not start with a digit does not extend a run of digits. */
  lemma {:induction false} DigitRunSuffix(b: string, suffix: string)
    requires suffix == [] || !IsDigit(suffix[0])
    ensures DigitRun(b + suffix) == DigitRun(b)
    decreases |b|
  {
    if b == [] {
      assert b + suffix == suffix;
    } else {
      assert (b + suffix)[0] == b[0];
      if IsDigit(b[0]) {
        assert (b + suffix)[1..] == b[1..] + suffix;
        DigitRunSuffix(b[1..], suffix);
      }
    }
  }

  /** std::stoi ignores text glued after a token that ends in a digit, when
      that text does not start with a digit. */
  lemma StoiIgnoresSuffix(t: string, suffix: string)
    requires t != [] && IsDigit(t[|t| - 1])
    requires suffix == [] || !IsDigit(suffix[0])
    ensures Stoi(t + suffix) == Stoi(t)
  {
    var k := SpaceRun(t);
    assert !IsSpace(t[|t| - 1]);
    SpaceRunSuffix(t, suffix);
    assert (t + suffix)[k..] == t[k..] + suffix;
    ReadSignedSuffix(t[k..], suffix);
  }

  lemma ReadSignedSuffix(rest: string, suffix: string)
    requires rest != [] && (suffix == [] || !IsDigit(suffix[0]))
    ensures ReadSigned(rest + suffix) == ReadSigned(rest)
  {
    assert (rest + suffix)[0] == rest[0];
    if rest[0] == '-' || rest[0] == '+' {
      assert (rest + suffix)[1..] == rest[1..] + suffix;
      ReadDigitsSuffix(rest[1..], suffix, rest[0] == '-');
    } else {
      ReadDigitsSuffix(rest, suffix, false);
    }
  }

  lemma ReadDigitsSuffix(body: string, suffix: string, negative: bool)
    requires suffix == [] || !IsDigit(suffix[0])
    ensures ReadDigits(body + suffix, negative) == ReadDigits(body, negative)
  {
    DigitRunSuffix(body, suffix);
    var n := DigitRun(body);
    assert (body + suffix)[..n] == body[..n];
  }

  /** In a string that does not end in '.', the last token is not empty and
      ends with the string's last character. */
  lemma {:induction false} LastToken(s: string)
    requires s != [] && s[|s| - 1] != '.'
    ensures var ts := Tokens(s); var last := ts[|ts| - 1];
      last != [] && last[|last| - 1] == s[|s| - 1]
    decreases |s|
  {
    var j := DelimIndex(s);
    if j < |s| {
      var field, rest := s[..j], s[j + 1..];
      assert s == field + "." + rest;
      TokensAfterField(field, rest);
      assert rest != [] && rest[|rest| - 1] == s[|s| - 1];
      LastToken(rest);
      var ts, tr := Tokens(s), Tokens(rest);
      assert ts[|ts| - 1] == tr[|tr| - 1] by {
        assert ts == [field] + tr;
      }
    } else {
      assert s[..j] == s;
      assert Tokens(s) == [s];
    }
  }

  /** getline splitting inverts joining: fields without a '.' whose last
      one is not empty come back unchanged. */
  lemma {:induction false} TokensOfJoin(ts: seq<string>)
    requires |ts| > 0
    requires forall k :: 0 <= k < |ts| ==> '.' !in ts[k]
    requires ts[|ts| - 1] != []
    ensures Tokens(JoinDots(ts)) == ts
    decreases |ts|
  {
    if |ts| == 1 {
      TokensOfLastField(ts[0]);
    } else {
      TokensOfJoin(ts[1..]);
      TokensAfterField(ts[0], JoinDots(ts[1..]));
      assert ts == [ts[0]] + ts[1..];
    }
  }

  /** A last field is one token. */
  lemma TokensOfLastField(field: string)
    requires field != [] && '.' !in field
    ensures Tokens(field) == [field]
  {
    assert field + [] == field;
    DelimIndexOfField(field, []);
    assert field[..|field|] == field;
  }

  /** A field followed by '.' is the first token; reading resumes after the '.'. */
  lemma TokensAfterField(field: string, rest: string)
    requires '.' !in field
    ensures Tokens(field + "." + rest) == [field] + Tokens(rest)
  {
    var s := field + "." + rest;
    assert s == field + ("." + rest);
    DelimIndexOfField(field, "." + rest);
    assert s[..|field|] == field;
    assert s[|field| + 1..] == rest;
  }

  /** Joining the tokens gives back the string, but for a final '.' that
      getline consumed without a token. */
  lemma {:induction false} JoinOfTokens(s: string)
    requires s != []
    ensures s[|s| - 1] != '.' ==> JoinDots(Tokens(s)) == s
    ensures s[|s| - 1] == '.' ==> JoinDots(Tokens(s)) + "." == s
    decreases |s|
  {
    var j := DelimIndex(s);
    if j < |s| {
      var field, rest := s[..j], s[j + 1..];
      assert s == field + "." + rest;
      TokensAfterField(field, rest);
      if rest != [] {
        JoinOfTokens(rest);
        JoinDotsCons(field, Tokens(rest));
        assert rest[|rest| - 1] == s[|s| - 1];
      } else {
        assert Tokens(s) == [field];
      }
    } else {
      assert s[..j] == s;
    }
  }

  /** The joined string starts with the first field and ends with the last one. */
  lemma {:induction false} JoinDotsEnds(ts: seq<string>)
    requires |ts| > 0
    ensures ts[0] != [] ==> |JoinDots(ts)| > 0 && JoinDots(ts)[0] == ts[0][0]
    ensures var s, last := JoinDots(ts), ts[|ts| - 1];
      last != [] ==> |s| > 0 && s[|s| - 1] == last[|last| - 1]
    decreases |ts|
  {
    if |ts| > 1 {
      JoinDotsEnds(ts[1..]);
    }
  }

  lemma JoinDotsCons(field: string, ts: seq<string>)
    requires |ts| > 0
    ensures JoinDots([field] + ts) == field + "." + JoinDots(ts)
    ensures JoinDots([field] + ts) + "." == field + "." + (JoinDots(ts) + ".")
  {
    assert ([field] + ts)[1..] == ts;
  }

  /** getline stops at the end of a field without '.' that is followed by '.' or by nothing. */
  lemma {:induction false} DelimIndexOfField(field: string, suffix: string)
    requires '.' !in field
    requires suffix == [] || suffix[0] == '.'
    ensures DelimIndex(field + suffix) == |field|
    decreases |field|
  {
    if field == [] {
      assert field + suffix == suffix;
    } else {
      assert (field + suffix)[1..] == field[1..] + suffix;
      DelimIndexOfField(field[1..], suffix);
    }
  }
}
