/** `GreedyInt`, the clip index the `recall` and `remove` commands take: the decimal number
    spelt by the leading ASCII digits of the argument. Three snapshots parse it differently
    (app/src/commands/mod.rs, src/commands/mod.rs, src/commands/recall.rs). */
module GreedyInt {
  import opened Wrappers
  import opened Machine

  datatype GreedyInt = GreedyInt(value: Usize)

  /** Why parsing failed: no leading digit, or a value beyond `usize::MAX`. */
  datatype ParseError = NoDigits | Overflow

  predicate IsDigit(c: char) { '0' <= c <= '9' }

  function DigitValue(c: char): nat
    requires IsDigit(c)
  {
    c as int - '0' as int
  }

  /** The maximal leading run of ASCII digits (`take_while(is_ascii_digit)`). */
  function LeadingDigits(s: string): (d: string)
    ensures d <= s
    ensures forall i :: 0 <= i < |d| ==> IsDigit(d[i])
    ensures |d| < |s| ==> !IsDigit(s[|d|])
  {
    if |s| == 0 || !IsDigit(s[0]) then [] else [s[0]] + LeadingDigits(s[1..])
  }

  /** The number a string of digits spells. */
  function DecimalValue(d: string): nat
    requires forall i :: 0 <= i < |d| ==> IsDigit(d[i])
  {
    if |d| == 0 then 0 else DecimalValue(d[..|d| - 1]) * 10 + DigitValue(d[|d| - 1])
  }

  /** What every snapshot means by the argument: the value of its leading digits, an error
      when there are none, or when the value does not fit a usize. */
  function Parse(s: string): Outcome<Usize, ParseError> {
    var d := LeadingDigits(s);
    if |d| == 0 then Err(NoDigits)
    else if DecimalValue(d) > USIZE_MAX then Err(Overflow)
    else Ok(DecimalValue(d))
  }

  /** A longer digit string never has a smaller value. */
  lemma {:induction false} DecimalValueGrows(d: string, k: nat)
    requires forall i :: 0 <= i < |d| ==> IsDigit(d[i])
    requires k <= |d|
    ensures DecimalValue(d[..k]) <= DecimalValue(d)
    decreases |d|
  {
    if k < |d| {
      assert d[..|d| - 1][..k] == d[..k];
      DecimalValueGrows(d[..|d| - 1], k);
    } else {
      assert d[..k] == d;
    }
  }

  /** `GreedyInt::from_str` of app/src/commands/mod.rs: a loop over the characters that
      stops at the first non-digit and fails as soon as `result * 10 + digit` overflows. */
  method FromStrChecked(s: string) returns (r: Outcome<GreedyInt, ParseError>)
    ensures r.Ok? <==> Parse(s).Ok?
    ensures r.Ok? ==> r.value.value == Parse(s).value
    ensures r.Err? ==> r.error == Parse(s).error
    ensures !r.Panic?
  {
    var result: Usize := 0;
    var hasDigits := false;
    var d := LeadingDigits(s);
    var k := 0;
    while k < |s|
      invariant k <= |d|
      invariant d[..k] == s[..k]
      invariant hasDigits <==> k > 0
      invariant result == DecimalValue(d[..k])
      decreases |s| - k
    {
      var c := s[k];
      if !IsDigit(c) {
        break;
      }
      assert d[..k + 1][..k] == d[..k];
      hasDigits := true;
      var next := result * 10 + DigitValue(c);
      if next > USIZE_MAX {
        DecimalValueGrows(d, k + 1);
        return Err(Overflow);
      }
      result := next;
      k := k + 1;
    }
    assert d[..k] == d;
    if hasDigits {
      r := Ok(GreedyInt(result));
    } else {
      r := Err(NoDigits);
    }
  }

  /** `GreedyInt::from_str` of src/commands/mod.rs: `parse::<usize>().unwrap()` on the
      leading digits, so a panic where the checked parser returns an error. The contract is
      this body stated against `Parse`; what a parse yields is said by `TrailingIgnored`,
      `DecimalValueGrows` and `ParseExamples`. */
  function FromStrUnwrap(s: string): (r: Outcome<GreedyInt, ParseError>)
    ensures r.Ok? <==> Parse(s).Ok?
    ensures r.Ok? ==> r.value.value == Parse(s).value
    ensures !r.Err?
  {
    match Parse(s)
    case Ok(v) => Ok(GreedyInt(v))
    case _ => Panic("called `Result::unwrap()` on an `Err` value")
  }

  /** `GreedyInt::from_str` of src/commands/recall.rs: the same parse, its failure mapped to
      `GreedyIntParseError`. As for `FromStrUnwrap`, the contract is the body stated against
      `Parse`. */
  function FromStrMapped(s: string): (r: Outcome<GreedyInt, ()>)
    ensures r.Ok? <==> Parse(s).Ok?
    ensures r.Ok? ==> r.value.value == Parse(s).value
    ensures !r.Panic?
  {
    match Parse(s)
    case Ok(v) => Ok(GreedyInt(v))
    case _ => Err(())
  }

  /** Only the leading digits matter: anything after the first non-digit is ignored, and
      leading zeros are accepted. */
  lemma TrailingIgnored(d: string, tail: string)
    requires |d| > 0 && forall i :: 0 <= i < |d| ==> IsDigit(d[i])
    requires |tail| > 0 && !IsDigit(tail[0])
    ensures Parse(d + tail) == Parse(d)
    ensures Parse(['0'] + d) == Parse(d)
  {
    LeadingDigitsOf(d, tail);
    LeadingDigitsOf(d, []);
    assert d + [] == d;
    LeadingDigitsOf(['0'] + d, []);
    assert ['0'] + d + [] == ['0'] + d;
    LeadingZero(d);
  }

  lemma {:induction false} LeadingDigitsOf(d: string, tail: string)
    requires forall i :: 0 <= i < |d| ==> IsDigit(d[i])
    requires |tail| == 0 || !IsDigit(tail[0])
    ensures LeadingDigits(d + tail) == d
  {
    if |d| > 0 {
      assert (d + tail)[1..] == d[1..] + tail;
      LeadingDigitsOf(d[1..], tail);
    } else {
      assert d + tail == tail;
    }
  }

  lemma {:induction false} LeadingZero(d: string)
    requires forall i :: 0 <= i < |d| ==> IsDigit(d[i])
    ensures DecimalValue(['0'] + d) == DecimalValue(d)
  {
    if |d| > 0 {
      assert (['0'] + d)[..|d|] == ['0'] + d[..|d| - 1];
      LeadingZero(d[..|d| - 1]);
    }
  }

  /** Examples: "12abc" is 12, "007" is 7, "abc" and "" have no digits. */
  lemma ParseExamples()
    ensures Parse("12abc") == Ok(12)
    ensures Parse("007") == Ok(7)
    ensures Parse("abc") == Err(NoDigits) && Parse("") == Err(NoDigits)
  {
    assert LeadingDigits("12abc") == "12" by {
      LeadingDigitsOf("12", "abc");
      assert "12" + "abc" == "12abc";
    }
    assert DecimalValue("12") == 12 by {
      assert "12"[..1] == "1";
    }
    assert LeadingDigits("007") == "007" by {
      LeadingDigitsOf("007", "");
      assert "007" + "" == "007";
    }
    assert DecimalValue("007") == 7 by {
      assert "007"[..2] == "00" && "00"[..1] == "0";
    }
  }

  /** `From<usize> for GreedyInt` and `From<GreedyInt> for usize` are inverse. */
  function FromUsize(n: Usize): (g: GreedyInt)
    ensures IntoUsize(g) == n
  {
    GreedyInt(n)
  }

  function IntoUsize(g: GreedyInt): Usize { g.value }

  /** `&g - k`: a usize subtraction, which underflows when `k` exceeds the value. */
  function Sub(g: GreedyInt, k: Usize, overflowChecks: bool): (r: Outcome<Usize, ()>)
    ensures k <= g.value ==> r == Ok(g.value - k)
    ensures k > g.value && overflowChecks ==> r.Panic?
    ensures k > g.value && !overflowChecks ==> r.Ok? && r.value == g.value - k + U64_LIMIT
  {
    CheckedSub(g.value, k, overflowChecks)
  }
}
