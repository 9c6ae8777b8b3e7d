/** Decimal texts of natural numbers. */
module Decimals {

  predicate Digit(c: char) { '0' <= c <= '9' }

  predicate Digits(s: string)
  {
    forall i :: 0 <= i < |s| ==> Digit(s[i])
  }

  function Decimal(s: string): nat
    requires Digits(s)
  {
    if s == "" then 0 else 10 * Decimal(s[..|s| - 1]) + (s[|s| - 1] as int - '0' as int)
  }

  /** The plain decimal text of a number. */
  function Render(n: nat): (s: string)
    ensures Digits(s) && s != ""
  {
    var last := [('0' as int + n % 10) as char];
    if n < 10 then last else Render(n / 10) + last
  }

  lemma {:induction false} RenderRoundTrip(n: nat)
    ensures Decimal(Render(n)) == n
  {
    if n >= 10 {
      RenderRoundTrip(n / 10);
      assert Render(n)[..|Render(n)| - 1] == Render(n / 10);
    } else {
      assert Render(n)[..0] == "";
    }
  }
}
