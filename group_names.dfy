/** The display names the store gives new groups: "Group " followed by a
    number written in decimal, as a template literal writes a JavaScript number. */
module GroupNames {

  predicate IsDigit(c: char)
  {
    '0' <= c <= '9'
  }

  function DigitChar(d: nat): (c: char)
    requires d < 10
    ensures IsDigit(c) && (c as int) - ('0' as int) == d
  {
    (('0' as int) + d) as char
  }

  /** The decimal numeral of `n`: digits only, no leading zero. */
  function Decimal(n: nat): (s: string)
    ensures |s| >= 1
    ensures forall i :: 0 <= i < |s| ==> IsDigit(s[i])
    ensures n == 0 || s[0] != '0'
  {
    if n < 10 then [DigitChar(n)] else Decimal(n / 10) + [DigitChar(n % 10)]
  }

  /** The value of a string of decimal digits. */
  function DecimalValue(s: string): nat
    requires forall i :: 0 <= i < |s| ==> IsDigit(s[i])
  {
    if s == [] then 0
    else
      assert IsDigit(s[|s| - 1]);
      10 * DecimalValue(s[..|s| - 1]) + ((s[|s| - 1] as int) - ('0' as int))
  }

  /** Reading a numeral back gives the number it was written from. */
  lemma {:induction false} DecimalValueOfDecimal(n: nat)
    ensures DecimalValue(Decimal(n)) == n
  {
    if n >= 10 {
      var s := Decimal(n);
      assert s[..|s| - 1] == Decimal(n / 10);
      DecimalValueOfDecimal(n / 10);
    }
  }

  /** The name a new group gets when it is the `k`-th group in the list:
      "Group " followed by a numeral that reads back as `k`. */
  function GroupName(k: nat): (name: string)
    ensures |name| > 6 && name[..6] == "Group "
    ensures forall i :: 6 <= i < |name| ==> IsDigit(name[i])
    ensures DecimalValue(name[6..]) == k
    ensures k == 0 || name[6] != '0'
  {
    var name := "Group " + Decimal(k);
    assert name[6..] == Decimal(k);
    DecimalValueOfDecimal(k);
    name
  }

  /** The first group is called "Group 1". */
  lemma FirstGroupName()
    ensures GroupName(1) == "Group 1"
  {
  }

  /** Different numbers give different group names. */
  lemma GroupNameInjective(j: nat, k: nat)
    ensures GroupName(j) == GroupName(k) ==> j == k
  {
    if GroupName(j) == GroupName(k) {
      assert Decimal(j) == GroupName(j)[6..];
      assert Decimal(k) == GroupName(k)[6..];
      DecimalValueOfDecimal(j);
      DecimalValueOfDecimal(k);
    }
  }
}
