/**
 * The decimal reading of an id: how a string bound to `WHERE id = ?` picks
 * out an integer key, and how an integer id is written back in a response.
 */
module Decimal {
  import opened Wrappers

  predicate IsDigit(c: char) {
    '0' <= c <= '9'
  }

  predicate AllDigits(s: string) {
    forall i | 0 <= i < |s| :: IsDigit(s[i])
  }

  /** The value of a string of digits, most significant first. */
  function DigitsValue(s: string): (n: nat)
    requires AllDigits(s)
  {
    if s == [] then 0
    else DigitsValue(s[..|s| - 1]) * 10 + (s[|s| - 1] as int - '0' as int)
  }

  /** The key a string id selects: a non-empty run of decimal digits (leading
      zeros allowed) selects its value; any other string selects no row. */
  function ParseDecimal(s: string): (r: Option<nat>)
    ensures r.Some? <==> s != [] && AllDigits(s)
  {
    if s != [] && AllDigits(s) then Some(DigitsValue(s)) else None
  }

  /** A leading zero adds nothing to the value of a digit string. */
  lemma {:induction false} ZeroPrefixValue(s: string)
    requires AllDigits(s)
    ensures AllDigits("0" + s) && DigitsValue("0" + s) == DigitsValue(s)
  {
    var z := "0" + s;
    assert forall i | 0 <= i < |z| :: z[i] == if i == 0 then '0' else s[i - 1];
    if s == [] {
      assert z[..0] == [];
    } else {
      ZeroPrefixValue(s[..|s| - 1]);
      assert z[..|z| - 1] == "0" + s[..|s| - 1];
      assert z[|z| - 1] == s[|s| - 1];
    }
  }

  /** Leading zeros do not change which key an id selects: "007" selects
      the same row as "7". */
  lemma LeadingZeroSelectsSame(s: string)
    requires s != [] && AllDigits(s)
    ensures ParseDecimal("0" + s) == ParseDecimal(s)
  {
    ZeroPrefixValue(s);
  }

  /** The canonical decimal form of `n`, without leading zeros. */
  function Show(n: nat): (s: string)
    ensures s != [] && AllDigits(s)
    ensures s[0] == '0' ==> n == 0
  {
    var d := ['0' + (n % 10) as char];
    if n < 10 then d else Show(n / 10) + d
  }

  /** Writing an id in decimal and reading it back gives the same id. */
  lemma {:induction false} ParseShow(n: nat)
    ensures ParseDecimal(Show(n)) == Some(n)
  {
    var s := Show(n);
    if n < 10 {
      assert s[..0] == [];
    } else {
      ParseShow(n / 10);
      assert s[..|s| - 1] == Show(n / 10);
      assert s[|s| - 1] as int - '0' as int == n % 10;
    }
    assert DigitsValue(s) == n;
  }
}
