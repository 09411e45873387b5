/**
 * The PHP values the authentication source handles (configuration entries and
 * the cells of a fetched database row), PHP's `(string)` cast on them, and
 * `strtolower`.
 */
module PhpValues {

  /** A PHP value as it can appear in a configuration array or a fetched row. */
  datatype PhpValue =
    | Null
    | Bool(b: bool)
    | Int(i: int)
    | Str(s: string)
    | List(items: seq<PhpValue>)

  /** The character of a decimal digit 0..9. */
  function DigitChar(d: nat): (c: char)
    requires d < 10
    ensures '0' <= c <= '9'
  {
    ['0', '1', '2', '3', '4', '5', '6', '7', '8', '9'][d]
  }

  /** The value of a decimal digit character. */
  function DigitValue(c: char): nat
  {
    if '0' <= c <= '9' then (c as int - '0' as int) else 0
  }

  /** The decimal digits of a natural number, most significant first, no leading zeros. */
  function NatDigits(n: nat): (s: string)
    ensures |s| >= 1
    ensures forall k :: 0 <= k < |s| ==> '0' <= s[k] <= '9'
  {
    if n < 10 then [DigitChar(n)] else NatDigits(n / 10) + [DigitChar(n % 10)]
  }

  /** PHP's decimal rendering of an integer, with a leading '-' when negative. */
  function Decimal(i: int): string
  {
    if i < 0 then "-" + NatDigits(-i) else NatDigits(i)
  }

  /** Reads a string of decimal digits back as a natural number. */
  function ParseDigits(s: string): nat
  {
    if s == [] then 0 else ParseDigits(s[..|s| - 1]) * 10 + DigitValue(s[|s| - 1])
  }

  /** Reads an optionally '-'-prefixed decimal string back as an integer. */
  function ParseDecimal(s: string): int
  {
    if s != [] && s[0] == '-' then -(ParseDigits(s[1..]) as int) else ParseDigits(s)
  }

  lemma {:induction false} DigitsRoundTrip(n: nat)
    ensures ParseDigits(NatDigits(n)) == n
  {
    var s := NatDigits(n);
    if n >= 10 {
      DigitsRoundTrip(n / 10);
      assert s[..|s| - 1] == NatDigits(n / 10);
      assert DigitValue(s[|s| - 1]) == n % 10 by {
        assert s[|s| - 1] == DigitChar(n % 10);
      }
    } else {
      assert s[..|s| - 1] == [];
    }
  }

  /** The decimal rendering loses nothing: two integers with the same string form are equal. */
  lemma {:induction false} DecimalRoundTrip(i: int)
    ensures ParseDecimal(Decimal(i)) == i
  {
    var s := Decimal(i);
    if i < 0 {
      var d := NatDigits(-i);
      assert s == "-" + d;
      assert s[1..] == d;
      DigitsRoundTrip(-i);
    } else {
      assert s == NatDigits(i);
      assert '0' <= s[0] <= '9';
      DigitsRoundTrip(i);
    }
  }

  /**
   * PHP's `(string)` cast: `null` and `false` give "", `true` gives "1",
   * integers their decimal form, strings themselves, arrays "Array".
   */
  function ToPhpString(v: PhpValue): (r: string)
    ensures v.Null? ==> r == ""
    ensures v.Str? ==> r == v.s
    ensures v.Int? ==> r != "" && ParseDecimal(r) == v.i
  {
    match v
    case Null => ""
    case Bool(b) => if b then "1" else ""
    case Int(i) => DecimalRoundTrip(i); Decimal(i)
    case Str(s) => s
    case List(_) => "Array"
  }

  /** `strtolower` on one character: ASCII 'A'..'Z' become 'a'..'z', the rest are kept. */
  function LowerChar(c: char): char
  {
    if 'A' <= c <= 'Z' then (c as int + 32) as char else c
  }

  /** `strtolower`: every character lowered, the length kept. */
  function Lower(s: string): (r: string)
    ensures |r| == |s|
    ensures forall k :: 0 <= k < |s| ==> r[k] == LowerChar(s[k])
  {
    if s == [] then [] else [LowerChar(s[0])] + Lower(s[1..])
  }
}
