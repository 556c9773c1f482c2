/** What several components share. */
module Basics {

  datatype Option<T> = None | Some(value: T)

  ghost predicate NoDuplicates<T(!new)>(xs: seq<T>) {
    forall i, j :: 0 <= i < j < |xs| ==> xs[i] != xs[j]
  }

  /** The decimal digits of a number. */
  function Decimal(n: nat): string {
    if n < 10 then [('0' as int + n) as char] else Decimal(n / 10) + [('0' as int + n % 10) as char]
  }

  ghost predicate OnlyDigits(text: string) {
    forall i :: 0 <= i < |text| ==> '0' <= text[i] <= '9'
  }

  /** The number that digits stand for. */
  ghost function ValueOf(digits: string): nat
    requires OnlyDigits(digits)
  {
    if digits == "" then 0
    else ValueOf(digits[..|digits| - 1]) * 10 + (digits[|digits| - 1] as int - 48)
  }

  /** The digits stand for the number, without a zero too many in front. */
  lemma {:induction false} DecimalValue(n: nat)
    ensures var t := Decimal(n); t != "" && OnlyDigits(t) && ValueOf(t) == n && (n > 0 ==> t[0] != '0')
  {
    var t := Decimal(n);
    if n < 10 {
      assert t[..0] == "" && t[0] as int == 48 + n;
    } else {
      DecimalValue(n / 10);
      assert t[..|t| - 1] == Decimal(n / 10);
    }
  }

  lemma Regroup<T>(a: seq<T>, b: seq<T>, c: seq<T>)
    ensures a + b + c == a + (b + c)
  {
  }

  lemma CardinalityOfSubset<T>(a: set<T>, b: set<T>)
    requires a <= b
    ensures |a| <= |b|
  {
    assert b == a + (b - a);
  }
}
