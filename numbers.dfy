/** Decimal integers as the client reads and writes them: `str::parse` for
    `usize` and `isize` (a 64-bit target), and `Display` for `isize`. */
module Numbers {
  import opened Basics

  /** `usize::MAX + 1`. */
  const USIZE_BOUND: nat := 0x1_0000_0000_0000_0000
  const ISIZE_MIN: int := -0x8000_0000_0000_0000
  const ISIZE_MAX: int := 0x7FFF_FFFF_FFFF_FFFF

  predicate IsDigit(c: char)
  {
    '0' <= c <= '9'
  }

  predicate AllDigits(s: string)
  {
    forall i :: 0 <= i < |s| ==> IsDigit(s[i])
  }

  /** The value of a string of decimal digits, most significant first. */
  function DigitsValue(s: string): nat
    requires AllDigits(s)
    decreases |s|
  {
    if |s| == 0 then 0 else DigitsValue(s[..|s| - 1]) * 10 + (s[|s| - 1] as int - '0' as int)
  }

  /** The decimal digits of `n`, without leading zeros. */
  function ShowNat(n: nat): (r: string)
    ensures |r| >= 1 && AllDigits(r) && DigitsValue(r) == n
    ensures |r| > 1 ==> r[0] != '0'
  {
    var last := [('0' as int + n % 10) as char];
    if n < 10 then last
    else
      var r := ShowNat(n / 10) + last;
      assert r[..|r| - 1] == ShowNat(n / 10);
      r
  }

  /** `isize` formatted with `{}`: a '-' before the digits of a negative value. */
  function ShowInt(i: int): (r: string)
    ensures |r| >= 1 && (r[0] == '-' <==> i < 0)
  {
    if i < 0 then "-" + ShowNat(-i) else ShowNat(i)
  }

  /** `str::parse::<usize>()`: an optional '+', then at least one ASCII
      digit, and a value below `USIZE_BOUND`. */
  function ParseUsize(s: string): (r: Option<nat>)
    ensures r.Some? ==> r.value < USIZE_BOUND
    ensures r.Some? ==> |s| >= 1 && s != "+"
    ensures r.Some? ==> forall i :: 0 <= i < |s| ==> IsDigit(s[i]) || (i == 0 && s[i] == '+')
  {
    var digits := if |s| >= 1 && s[0] == '+' then s[1..] else s;
    if |digits| >= 1 && AllDigits(digits) && DigitsValue(digits) < USIZE_BOUND
    then Some(DigitsValue(digits))
    else None
  }

  /** `str::parse::<isize>()`: an optional sign, then at least one ASCII
      digit, and a value in the `isize` range. */
  function ParseIsize(s: string): (r: Option<int>)
    ensures r.Some? ==> ISIZE_MIN <= r.value <= ISIZE_MAX
    ensures r.Some? ==> forall i :: 0 <= i < |s| ==> IsDigit(s[i]) || (i == 0 && (s[i] == '+' || s[i] == '-'))
    ensures r.Some? && r.value < 0 ==> |s| >= 1 && s[0] == '-'
  {
    var negative := |s| >= 1 && s[0] == '-';
    var digits := if |s| >= 1 && (s[0] == '+' || s[0] == '-') then s[1..] else s;
    if |digits| == 0 || !AllDigits(digits) then None
    else if negative then
      var v: int := 0 - DigitsValue(digits) as int;
      (if ISIZE_MIN <= v then Some(v) else None)
    else
      (if DigitsValue(digits) <= ISIZE_MAX then Some(DigitsValue(digits)) else None)
  }

  /** Reading back a formatted `usize` gives the value. */
  lemma ParseShowUsize(n: nat)
    requires n < USIZE_BOUND
    ensures ParseUsize(ShowNat(n)) == Some(n)
  {
    var s := ShowNat(n);
    assert IsDigit(s[0]);
  }

  /** Reading back a formatted `isize` gives the value. */
  lemma ParseShowIsize(i: int)
    requires ISIZE_MIN <= i <= ISIZE_MAX
    ensures ParseIsize(ShowInt(i)) == Some(i)
  {
    if i < 0 {
      assert ShowInt(i)[1..] == ShowNat(-i);
    } else {
      assert IsDigit(ShowNat(i)[0]);
    }
  }
}
