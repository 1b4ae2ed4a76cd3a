/** The parts of Go's strconv the value converter calls: ParseBool, and ParseInt and
    ParseUint in base 10 with a bit size. */
module Strconv {
  import opened Wrappers
  import opened Errors

  const TrueLiterals: set<string> := {"1", "t", "T", "true", "TRUE", "True"}
  const FalseLiterals: set<string> := {"0", "f", "F", "false", "FALSE", "False"}

  /** strconv.ParseBool */
  function ParseBool(s: string): (r: Result<bool, Error>)
    ensures r.Success? <==> s in TrueLiterals || s in FalseLiterals
    ensures r.Success? ==> (r.value <==> s in TrueLiterals)
    ensures r.Failure? ==> r.error == NumError("ParseBool", s, ErrSyntax)
  {
    if s == "1" || s == "t" || s == "T" || s == "true" || s == "TRUE" || s == "True" then Success(true)
    else if s == "0" || s == "f" || s == "F" || s == "false" || s == "FALSE" || s == "False" then Success(false)
    else Failure(NumError("ParseBool", s, ErrSyntax))
  }

  function Pow2(n: nat): (p: nat)
    ensures p >= 1
  {
    if n == 0 then 1 else 2 * Pow2(n - 1)
  }

  function MaxUint(bits: nat): nat { Pow2(bits) - 1 }
  function MaxInt(bits: nat): int requires bits >= 1 { Pow2(bits - 1) - 1 }
  function MinInt(bits: nat): int requires bits >= 1 { -(Pow2(bits - 1) as int) }

  predicate IsDigit(c: char) { '0' <= c <= '9' }

  function Digit(c: char): nat { if IsDigit(c) then c as int - '0' as int else 0 }

  predicate AllDigits(s: string) { forall i :: 0 <= i < |s| ==> IsDigit(s[i]) }

  /** A non-empty run of decimal digits. */
  predicate IsDecimal(s: string) { |s| > 0 && AllDigits(s) }

  /** The positional value of a digit string. */
  function DecimalValue(s: string): nat
    decreases |s|
  {
    if s == [] then 0 else DecimalValue(s[..|s| - 1]) * 10 + Digit(s[|s| - 1])
  }

  /** An optional '+' or '-' followed by a decimal. */
  predicate IsSignedDecimal(s: string) {
    |s| > 0 && if s[0] == '+' || s[0] == '-' then IsDecimal(s[1..]) else IsDecimal(s)
  }

  function SignedValue(s: string): int
    requires |s| > 0
  {
    if s[0] == '-' then -(DecimalValue(s[1..]) as int)
    else if s[0] == '+' then DecimalValue(s[1..])
    else DecimalValue(s)
  }

  /** The digit loop of ParseUint in base 10: it stops at the first character that
      is not a digit (syntax error), or at the first digit that takes the
      accumulated value past `max` (range error), whichever comes first. */
  function ScanDecimal(s: string, acc: nat, max: nat): Result<nat, NumCause>
    decreases |s|
  {
    if s == [] then Success(acc)
    else if !IsDigit(s[0]) then Failure(ErrSyntax)
    else if acc * 10 + Digit(s[0]) > max then Failure(ErrRange)
    else ScanDecimal(s[1..], acc * 10 + Digit(s[0]), max)
  }

  /** strconv.ParseUint(s, 10, bits) */
  function ParseUint(s: string, bits: nat): (r: Result<nat, Error>)
    ensures r.Failure? ==> r.error.NumError? && r.error.func == "ParseUint" && r.error.num == s
  {
    if s == "" then Failure(NumError("ParseUint", s, ErrSyntax))
    else match ScanDecimal(s, 0, MaxUint(bits))
      case Success(n) => Success(n)
      case Failure(c) => Failure(NumError("ParseUint", s, c))
  }

  /** strconv.ParseInt(s, 10, bits): strip one sign, parse the rest with ParseUint
      at the same bit size, then check the signed range. */
  function ParseInt(s: string, bits: nat): (r: Result<int, Error>)
    requires bits >= 1
    ensures r.Failure? ==> r.error.NumError? && r.error.func == "ParseInt" && r.error.num == s
  {
    if s == "" then Failure(NumError("ParseInt", s, ErrSyntax))
    else
      var neg := s[0] == '-';
      var digits := if s[0] == '+' || s[0] == '-' then s[1..] else s;
      var u := ParseUint(digits, bits);
      if u.Failure? && u.error.cause != ErrRange then Failure(NumError("ParseInt", s, u.error.cause))
      else
        var un := if u.Success? then u.value else MaxUint(bits);
        var cutoff := Pow2(bits - 1);
        if !neg && un >= cutoff then Failure(NumError("ParseInt", s, ErrRange))
        else if neg && un > cutoff then Failure(NumError("ParseInt", s, ErrRange))
        else Success(if neg then -un else un)
  }

  // --- correctness of the scan against the positional value ---

  lemma DecimalValueAppend(u: string, c: char)
    ensures DecimalValue(u + [c]) == DecimalValue(u) * 10 + Digit(c)
  {
    assert (u + [c])[..|u|] == u;
  }

  /** Appending digits never lowers the value. */
  lemma {:induction false} DecimalValueMonotone(u: string, w: string)
    ensures DecimalValue(u) <= DecimalValue(u + w)
    decreases |w|
  {
    if w == [] {
      assert u + w == u;
    } else {
      var w' := w[..|w| - 1];
      assert u + w == (u + w') + [w[|w| - 1]];
      DecimalValueAppend(u + w', w[|w| - 1]);
      DecimalValueMonotone(u, w');
    }
  }

  /** Scanning `t` after the digits `p` succeeds exactly when `t` is all digits and
      the whole value stays within `max`, and it then yields that value. */
  lemma {:induction false} ScanDecimalCorrect(p: string, t: string, max: nat)
    requires DecimalValue(p) <= max
    ensures ScanDecimal(t, DecimalValue(p), max).Success? <==> AllDigits(t) && DecimalValue(p + t) <= max
    ensures ScanDecimal(t, DecimalValue(p), max).Success? ==> ScanDecimal(t, DecimalValue(p), max).value == DecimalValue(p + t)
    ensures ScanDecimal(t, DecimalValue(p), max).Failure? && AllDigits(t) ==> ScanDecimal(t, DecimalValue(p), max).error == ErrRange
    decreases |t|
  {
    if t == [] {
      assert p + t == p;
    } else {
      var c := t[0];
      var p' := p + [c];
      assert p + t == p' + t[1..];
      if IsDigit(c) {
        DecimalValueAppend(p, c);
        if DecimalValue(p') > max {
          DecimalValueMonotone(p', t[1..]);
        } else {
          ScanDecimalCorrect(p', t[1..], max);
          assert AllDigits(t) <==> AllDigits(t[1..]);
        }
      }
    }
  }

  /** ParseUint succeeds exactly on decimals within [0, 2^bits - 1], with their value;
      a decimal out of range is a range error, anything else a syntax error. */
  lemma ParseUintSpec(s: string, bits: nat)
    ensures ParseUint(s, bits).Success? <==> IsDecimal(s) && DecimalValue(s) <= MaxUint(bits)
    ensures ParseUint(s, bits).Success? ==> ParseUint(s, bits).value == DecimalValue(s)
    ensures ParseUint(s, bits).Failure? && IsDecimal(s) ==> ParseUint(s, bits).error.cause == ErrRange
  {
    if s != "" {
      assert DecimalValue([]) == 0;
      ScanDecimalCorrect([], s, MaxUint(bits));
      assert [] + s == s;
    }
  }

  /** The scan reports the first fault it meets: at 8 bits, "300x" is out of range
      before its non-digit is reached. */
  lemma RangeReportedBeforeLaterSyntax()
    ensures ParseUint("300x", 8) == Failure(NumError("ParseUint", "300x", ErrRange))
  {
    assert Pow2(8) == 256;
    assert Digit('3') == 3 && Digit('0') == 0;
  }

  /** ParseInt succeeds exactly on signed decimals within [-2^(bits-1), 2^(bits-1) - 1],
      with their value (for every width of at least two bits; the core only uses 8 to 64). */
  lemma ParseIntSpec(s: string, bits: nat)
    requires bits >= 2
    ensures ParseInt(s, bits).Success? <==> IsSignedDecimal(s) && MinInt(bits) <= SignedValue(s) <= MaxInt(bits)
    ensures ParseInt(s, bits).Success? ==> ParseInt(s, bits).value == SignedValue(s)
  {
    if s != "" {
      var digits := if s[0] == '+' || s[0] == '-' then s[1..] else s;
      ParseUintSpec(digits, bits);
      assert Pow2(bits) == 2 * Pow2(bits - 1);
      assert IsSignedDecimal(s) <==> IsDecimal(digits);
      var u := ParseUint(digits, bits);
      var cutoff := Pow2(bits - 1);
      if u.Success? {
        var v := DecimalValue(digits);
        assert SignedValue(s) == if s[0] == '-' then -(v as int) else v;
        if s[0] == '-' {
          assert ParseInt(s, bits).Success? <==> v <= cutoff;
        } else {
          assert ParseInt(s, bits).Success? <==> v < cutoff;
        }
      } else if IsDecimal(digits) {
        assert DecimalValue(digits) > MaxUint(bits) >= cutoff;
        assert MaxUint(bits) > cutoff;
        assert ParseInt(s, bits).Failure?;
      }
    }
  }
}
