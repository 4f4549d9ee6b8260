/** Decimal generation numbers: `str::parse::<u32>` on a link's file name and
    `format!("{n}")` for a new generation directory. */
module Decimal {
  import opened Wrappers

  const U32Max: nat := 0xFFFF_FFFF

  predicate IsDigit(c: char) {
    '0' <= c <= '9'
  }

  predicate AllDigits(s: string) {
    forall i :: 0 <= i < |s| ==> IsDigit(s[i])
  }

  function DigitValue(c: char): nat
    requires IsDigit(c)
  {
    c as int - '0' as int
  }

  /** The number a run of decimal digits denotes, most significant first. */
  function DigitsValue(s: string): nat
    requires AllDigits(s)
  {
    if |s| == 0 then 0
    else DigitsValue(s[..|s| - 1]) * 10 + DigitValue(s[|s| - 1])
  }

  /** `str::parse::<u32>`: an optional `+`, then at least one ASCII digit, and a
      value that fits in 32 bits; anything else is an error. */
  function ParseU32(s: string): (r: Option<nat>)
    ensures r.Some? ==> r.value <= U32Max
    ensures |s| == 0 ==> r.None?
    ensures (exists i :: 0 <= i < |s| && !IsDigit(s[i]) && !(i == 0 && s[i] == '+')) ==> r.None?
    ensures var d := if |s| > 0 && s[0] == '+' then s[1..] else s;
      && (r.Some? <==> |d| > 0 && AllDigits(d) && DigitsValue(d) <= U32Max)
      && (r.Some? ==> r.value == DigitsValue(d))
  {
    var digits := if |s| > 0 && s[0] == '+' then s[1..] else s;
    if |digits| == 0 || !AllDigits(digits) then None
    else
      var v := DigitsValue(digits);
      if v <= U32Max then Some(v) else None
  }

  function Digit(d: nat): (c: char)
    requires d < 10
    ensures IsDigit(c) && DigitValue(c) == d
  {
    ('0' as int + d) as char
  }

  /** `format!("{n}")`: the shortest decimal rendering of `n`; it denotes `n`. */
  function ToDecimal(n: nat): (s: string)
    ensures 0 < |s| && AllDigits(s)
    ensures DigitsValue(s) == n
    ensures s[0] != '0' || n == 0
  {
    if n < 10 then [Digit(n)]
    else
      var init := ToDecimal(n / 10);
      var s := init + [Digit(n % 10)];
      assert s[..|s| - 1] == init;
      s
  }

  /** Leading zeros and a leading `+` are accepted; a sign of `-` and a lone `+`
      are not. */
  lemma ParseExamples()
    ensures ParseU32("007") == Some(7)
    ensures ParseU32("+3") == Some(3)
    ensures ParseU32("+").None? && ParseU32("-1").None?
  {
    assert "007"[..2] == "00" && "00"[..1] == "0" && "0"[..0] == "";
    assert DigitsValue("0") == 0;
    assert DigitsValue("00") == 0;
    assert "+3"[1..] == "3" && "3"[..0] == "";
  }

  /** A number past `u32::MAX` is refused even when written canonically. */
  lemma ParseRejectsOverflow(n: nat)
    requires n > U32Max
    ensures ParseU32(ToDecimal(n)).None?
  {
  }

  /** Parsing undoes rendering for every 32-bit value. */
  lemma ParseRendered(n: nat)
    requires n <= U32Max
    ensures ParseU32(ToDecimal(n)) == Some(n)
  {
  }

  /** Rendering is injective, so distinct generations get distinct directories. */
  lemma RenderInjective(m: nat, n: nat)
    requires m <= U32Max && n <= U32Max
    requires ToDecimal(m) == ToDecimal(n)
    ensures m == n
  {
    ParseRendered(m);
    ParseRendered(n);
  }
}
