/** Rust's `i64::from_str_radix` / `u64::from_str_radix`, which the integer
    conversion calls: an optional sign, then digits read left to right,
    with the overflow check made at every digit. */
module Radix {
  import opened Wrappers

  const I64_MIN: int := -0x8000_0000_0000_0000
  const I64_MAX: int := 0x7FFF_FFFF_FFFF_FFFF
  const U64_MAX: int := 0xFFFF_FFFF_FFFF_FFFF

  type Radix = r: nat | 2 <= r <= 36 witness 10

  /** `core::num::IntErrorKind`, the part of `ParseIntError` that matters. */
  datatype IntErrorKind = Empty | InvalidDigit | PosOverflow | NegOverflow

  /** `char::to_digit(radix)`: 0-9, then a-z / A-Z for 10..35, below `radix`. */
  function DigitOf(c: char, radix: Radix): (r: Option<nat>)
    ensures r.Some? ==> r.value < radix
    ensures '0' <= c <= '9' && (c as int) - ('0' as int) < radix ==> r == Some((c as int) - ('0' as int))
  {
    var d :=
      if '0' <= c <= '9' then (c as int) - ('0' as int)
      else if 'a' <= c <= 'z' then (c as int) - ('a' as int) + 10
      else if 'A' <= c <= 'Z' then (c as int) - ('A' as int) + 10
      else 36;
    if d < radix then Some(d) else None
  }

  predicate AllDigits(s: string, radix: Radix)
  {
    forall i | 0 <= i < |s| :: DigitOf(s[i], radix).Some?
  }

  /** The value of a digit string read left to right, starting from `acc`
      (no bound applied): the positional value the parser is meant to compute. */
  function Positional(acc: int, s: string, radix: Radix): int
    requires AllDigits(s, radix)
    decreases |s|
  {
    if s == [] then acc
    else Positional(acc * radix + DigitOf(s[0], radix).value, s[1..], radix)
  }

  /** The same, walking away from zero towards the negative side. */
  function NegPositional(acc: int, s: string, radix: Radix): int
    requires AllDigits(s, radix)
    decreases |s|
  {
    if s == [] then acc
    else NegPositional(acc * radix - DigitOf(s[0], radix).value, s[1..], radix)
  }

  /** The digit loop for a non-negative number: each step multiplies by the
      radix and adds the digit, and fails as soon as the bound `hi` is passed. */
  function AccumulatePos(acc: int, s: string, radix: Radix, hi: int): Result<int, IntErrorKind>
    decreases |s|
  {
    if s == [] then Ok(acc)
    else match DigitOf(s[0], radix)
      case None => Err(InvalidDigit)
      case Some(d) =>
        if acc * radix + d > hi then Err(PosOverflow)
        else AccumulatePos(acc * radix + d, s[1..], radix, hi)
  }

  /** The digit loop for a negative number, bounded below by `lo`. */
  function AccumulateNeg(acc: int, s: string, radix: Radix, lo: int): Result<int, IntErrorKind>
    decreases |s|
  {
    if s == [] then Ok(acc)
    else match DigitOf(s[0], radix)
      case None => Err(InvalidDigit)
      case Some(d) =>
        if acc * radix - d < lo then Err(NegOverflow)
        else AccumulateNeg(acc * radix - d, s[1..], radix, lo)
  }

  /** `from_str_radix` for a type with bounds `[lo, hi]`; `signed` says
      whether a leading '-' is accepted. */
  function FromStrRadix(s: string, radix: Radix, signed: bool, lo: int, hi: int): (r: Result<int, IntErrorKind>)
    requires lo <= 0 <= hi
    ensures r.Ok? ==> lo <= r.value <= hi
    ensures s == [] ==> r == Err(Empty)
  {
    if s == [] then Err(Empty)
    else if (s[0] == '+' || s[0] == '-') && |s| == 1 then Err(InvalidDigit)
    else if s[0] == '+' then
      BoundedPos(0, s[1..], radix, hi);
      AccumulatePos(0, s[1..], radix, hi)
    else if s[0] == '-' && signed then
      BoundedNeg(0, s[1..], radix, lo);
      AccumulateNeg(0, s[1..], radix, lo)
    else
      BoundedPos(0, s, radix, hi);
      AccumulatePos(0, s, radix, hi)
  }

  function ParseI64(s: string, radix: Radix): (r: Result<int, IntErrorKind>)
    ensures r.Ok? ==> I64_MIN <= r.value <= I64_MAX
  {
    FromStrRadix(s, radix, true, I64_MIN, I64_MAX)
  }

  function ParseU64(s: string, radix: Radix): (r: Result<int, IntErrorKind>)
    ensures r.Ok? ==> 0 <= r.value <= U64_MAX
  {
    FromStrRadix(s, radix, false, 0, U64_MAX)
  }

  /** Multiplying by a radix moves a number away from zero. */
  lemma ScaleAway(acc: int, radix: Radix)
    ensures acc >= 0 ==> acc * radix >= acc
    ensures acc <= 0 ==> acc * radix <= acc
  {
    if acc >= 0 {
      assert acc * radix == acc + acc * (radix - 1);
    } else {
      assert acc * radix == acc + acc * (radix - 1);
    }
  }

  lemma {:induction false} BoundedPos(acc: int, s: string, radix: Radix, hi: int)
    requires 0 <= acc <= hi
    ensures AccumulatePos(acc, s, radix, hi).Ok? ==> 0 <= AccumulatePos(acc, s, radix, hi).value <= hi
    decreases |s|
  {
    if s != [] && DigitOf(s[0], radix).Some? {
      var d := DigitOf(s[0], radix).value;
      var next := acc * radix + d;
      ScaleAway(acc, radix);
      if next <= hi { BoundedPos(next, s[1..], radix, hi); }
    }
  }

  lemma {:induction false} BoundedNeg(acc: int, s: string, radix: Radix, lo: int)
    requires lo <= acc <= 0
    ensures AccumulateNeg(acc, s, radix, lo).Ok? ==> lo <= AccumulateNeg(acc, s, radix, lo).value <= 0
    decreases |s|
  {
    if s != [] && DigitOf(s[0], radix).Some? {
      var d := DigitOf(s[0], radix).value;
      var next := acc * radix - d;
      ScaleAway(acc, radix);
      if next >= lo { BoundedNeg(next, s[1..], radix, lo); }
    }
  }

  lemma {:induction false} PositionalGrows(acc: int, s: string, radix: Radix)
    requires acc >= 0 && AllDigits(s, radix)
    ensures Positional(acc, s, radix) >= acc
    decreases |s|
  {
    if s != [] {
      var next := acc * radix + DigitOf(s[0], radix).value;
      ScaleAway(acc, radix);
      PositionalGrows(next, s[1..], radix);
    }
  }

  lemma {:induction false} NegPositionalMirrors(acc: int, s: string, radix: Radix)
    requires AllDigits(s, radix)
    ensures NegPositional(-acc, s, radix) == -Positional(acc, s, radix)
    decreases |s|
  {
    if s != [] {
      var d := DigitOf(s[0], radix).value;
      assert (-acc) * radix - d == -(acc * radix + d);
      NegPositionalMirrors(acc * radix + d, s[1..], radix);
    }
  }

  /** A string is all digits exactly when its head is a digit and its tail is. */
  lemma AllDigitsCons(s: string, radix: Radix)
    requires s != []
    ensures AllDigits(s, radix) <==> DigitOf(s[0], radix).Some? && AllDigits(s[1..], radix)
  {
    if DigitOf(s[0], radix).Some? && AllDigits(s[1..], radix) {
      forall i | 0 <= i < |s| ensures DigitOf(s[i], radix).Some? {
        if i > 0 { assert s[i] == s[1..][i - 1]; }
      }
    }
  }

  /** The bounded digit loop succeeds exactly when every character is a digit
      and the positional value stays within the bound, and then yields that
      value: the early overflow exit changes only which error is reported. */
  lemma {:induction false} AccumulatePosCorrect(acc: int, s: string, radix: Radix, hi: int)
    requires 0 <= acc <= hi
    ensures AccumulatePos(acc, s, radix, hi).Ok? <==>
              AllDigits(s, radix) && Positional(acc, s, radix) <= hi
    ensures AccumulatePos(acc, s, radix, hi).Ok? ==>
              AccumulatePos(acc, s, radix, hi).value == Positional(acc, s, radix)
    decreases |s|
  {
    if s != [] {
      AllDigitsCons(s, radix);
      var rest := s[1..];
      match DigitOf(s[0], radix)
      case None =>
      case Some(d) =>
        var next := acc * radix + d;
        ScaleAway(acc, radix);
        if AllDigits(s, radix) {
          assert Positional(acc, s, radix) == Positional(next, rest, radix);
          PositionalGrows(next, rest, radix);
        }
        if next <= hi {
          AccumulatePosCorrect(next, rest, radix, hi);
        }
    }
  }

  lemma {:induction false} AccumulateNegCorrect(acc: int, s: string, radix: Radix, lo: int)
    requires lo <= acc <= 0
    ensures AccumulateNeg(acc, s, radix, lo).Ok? <==>
              AllDigits(s, radix) && lo <= NegPositional(acc, s, radix)
    ensures AccumulateNeg(acc, s, radix, lo).Ok? ==>
              AccumulateNeg(acc, s, radix, lo).value == NegPositional(acc, s, radix)
    decreases |s|
  {
    if s != [] {
      AllDigitsCons(s, radix);
      var rest := s[1..];
      match DigitOf(s[0], radix)
      case None =>
      case Some(d) =>
        var next := acc * radix - d;
        ScaleAway(acc, radix);
        if AllDigits(s, radix) {
          assert NegPositional(acc, s, radix) == NegPositional(next, rest, radix);
          PositionalGrows(-next, rest, radix);
          NegPositionalMirrors(-next, rest, radix);
        }
        if next >= lo {
          AccumulateNegCorrect(next, rest, radix, lo);
        }
    }
  }

  /** The unsigned digit string of `s` once its optional sign is taken off,
      and whether that sign is '-'. */
  function Unsigned(s: string): string
  {
    if |s| > 0 && (s[0] == '+' || s[0] == '-') then s[1..] else s
  }

  predicate Negative(s: string)
  {
    |s| > 0 && s[0] == '-'
  }

  /** The number `s` denotes, for a well-formed `s`. */
  function Denotes(s: string, radix: Radix): int
    requires AllDigits(Unsigned(s), radix)
  {
    if Negative(s) then -Positional(0, Unsigned(s), radix) else Positional(0, Unsigned(s), radix)
  }

  /** What `from_str_radix` accepts, stated without the digit loop: an
      optional sign ('-' only for signed types) followed by at least one
      digit of the radix, denoting a number inside the type's bounds, which
      is then the result. */
  lemma FromStrRadixCorrect(s: string, radix: Radix, signed: bool, lo: int, hi: int)
    requires lo <= 0 <= hi
    ensures FromStrRadix(s, radix, signed, lo, hi).Ok? <==>
              |Unsigned(s)| > 0 && AllDigits(Unsigned(s), radix) && (signed || !Negative(s))
              && lo <= Denotes(s, radix) <= hi
    ensures FromStrRadix(s, radix, signed, lo, hi).Ok? ==>
              FromStrRadix(s, radix, signed, lo, hi).value == Denotes(s, radix)
  {
    if s == [] {
    } else if (s[0] == '+' || s[0] == '-') && |s| == 1 {
    } else if s[0] == '+' {
      AccumulatePosCorrect(0, s[1..], radix, hi);
      if AllDigits(s[1..], radix) { PositionalGrows(0, s[1..], radix); }
    } else if s[0] == '-' && signed {
      AccumulateNegCorrect(0, s[1..], radix, lo);
      if AllDigits(s[1..], radix) {
        PositionalGrows(0, s[1..], radix);
        NegPositionalMirrors(0, s[1..], radix);
      }
    } else {
      AccumulatePosCorrect(0, s, radix, hi);
      if AllDigits(s, radix) { PositionalGrows(0, s, radix); }
      if s[0] == '-' {
        assert DigitOf(s[0], radix).None?;
        assert !AllDigits(s, radix);
      }
    }
  }
}
