/** Values shared by the metadata codec and the parts of Swift's standard
    library it leans on: optional values, bytes, and the conversion between
    `Int` and its decimal text (`Int(_: String)` and `"\(n)"`). */
module Common {

  /** Swift's `Optional`. */
  datatype Option<+T> = None | Some(value: T)

  newtype byte = b: int | 0 <= b < 256

  /** Bounds of Swift's `Int` on the 64-bit devices the client runs on. */
  const MinInt: int := -0x8000_0000_0000_0000
  const MaxInt: int := 0x7FFF_FFFF_FFFF_FFFF

  predicate IsDigit(ch: char) {
    '0' <= ch <= '9'
  }

  predicate AllDigits(s: string) {
    forall i :: 0 <= i < |s| ==> IsDigit(s[i])
  }

  /** The value of a run of decimal digits, most significant digit first. */
  function DigitsValue(s: string): nat
    requires AllDigits(s)
  {
    if s == [] then 0 else 10 * DigitsValue(s[..|s| - 1]) + (s[|s| - 1] as int - '0' as int)
  }

  /** `Int(_: String)`: an optional `+` or `-`, then at least one ASCII digit
      and nothing else; nil for any other text and for a value outside the
      range of `Int`. Leading zeros are accepted, so "01" reads as 1. */
  function ParseInt(s: string): Option<int> {
    var signed := |s| > 0 && (s[0] == '-' || s[0] == '+');
    var digits := if signed then s[1..] else s;
    if digits == [] || !AllDigits(digits) then None
    else
      var magnitude: int := DigitsValue(digits);
      var v := if signed && s[0] == '-' then -magnitude else magnitude;
      if MinInt <= v <= MaxInt then Some(v) else None
  }

  function DigitChar(d: nat): char
    requires d < 10
  {
    ('0' as int + d) as char
  }

  /** The decimal digits of `n`, without leading zeros. */
  function NatString(n: nat): string {
    if n < 10 then [DigitChar(n)] else NatString(n / 10) + [DigitChar(n % 10)]
  }

  /** String interpolation `"\(n)"` of an `Int`. */
  function DecimalString(n: int): string {
    if n < 0 then "-" + NatString(-n) else NatString(n)
  }

  lemma {:induction false} NatStringDigits(n: nat)
    ensures |NatString(n)| > 0 && AllDigits(NatString(n))
    ensures DigitsValue(NatString(n)) == n
  {
    if n >= 10 {
      NatStringDigits(n / 10);
      var s := NatString(n);
      assert s[..|s| - 1] == NatString(n / 10);
    }
  }

  /** Every `Int` printed with `"\(n)"` is read back by `Int(_:)` as itself:
      this is what lets a file entry's `metadataKey` number find the slot
      whose name is that number. */
  lemma ParseDecimalString(n: int)
    requires MinInt <= n <= MaxInt
    ensures ParseInt(DecimalString(n)) == Some(n)
  {
    var m: nat := if n < 0 then -n else n;
    NatStringDigits(m);
    var s := DecimalString(n);
    if n < 0 {
      assert s[0] == '-' && s[1..] == NatString(m);
    } else {
      assert s == NatString(m) && IsDigit(s[0]);
    }
  }

  /** `Int(_:)` is not injective: distinct slot names can carry the same
      number, which is why the highest slot is only unique up to its name. */
  lemma LeadingZeroSameNumber()
    ensures ParseInt("01") == ParseInt("1") == Some(1)
  {
    assert "01"[1..] == "1";
    assert DigitsValue("01") == 10 * DigitsValue("0") + 1;
    assert DigitsValue("0") == 10 * DigitsValue("") + 0;
  }
}
