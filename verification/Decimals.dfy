/** Decimal numerals, read from left to right. */
module Decimals {

  predicate IsNumeral(s: string) {
    forall i :: 0 <= i < |s| ==> '0' <= s[i] <= '9'
  }

  /** The value of a numeral; of the empty one it is 0. */
  function Number(s: string): nat
    requires IsNumeral(s)
  {
    if s == "" then 0 else 10 * Number(s[..|s| - 1]) + (s[|s| - 1] as int - '0' as int)
  }

  /** A numeral is above 0 exactly if one of its digits is not 0. */
  lemma {:induction false} AboveZeroIff(s: string)
    requires IsNumeral(s)
    ensures Number(s) > 0 <==> exists i :: 0 <= i < |s| && s[i] != '0'
  {
    if s != "" {
      var front := s[..|s| - 1];
      AboveZeroIff(front);
      assert forall i :: 0 <= i < |front| ==> front[i] == s[i];
    }
  }
}
