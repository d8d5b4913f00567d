/**
  Binary numerals as strings of `'0'` and `'1'`: Python's `format(n, '0wb')`,
  and the value a bit string denotes.
*/
module Binary {

  predicate IsBit(c: char) {
    c == '0' || c == '1'
  }

  predicate IsBits(s: string) {
    forall i :: 0 <= i < |s| ==> IsBit(s[i])
  }

  lemma BitsAppend(a: string, b: string)
    requires IsBits(a) && IsBits(b)
    ensures IsBits(a + b)
  {
  }

  function Pow2(n: nat): (p: nat)
    ensures p >= 1
  {
    if n == 0 then 1 else 2 * Pow2(n - 1)
  }

  /** The number a bit string denotes, most significant bit first. */
  function Value(s: string): nat
    requires IsBits(s)
  {
    if s == [] then 0
    else 2 * Value(s[..|s| - 1]) + (if s[|s| - 1] == '1' then 1 else 0)
  }

  /** `bin(n)[2:]`: the shortest binary numeral of `n` ("0" for zero). */
  function Digits(n: nat): (s: string)
    ensures |s| >= 1 && IsBits(s)
  {
    if n < 2 then [if n == 0 then '0' else '1']
    else Digits(n / 2) + [if n % 2 == 0 then '0' else '1']
  }

  function Zeros(n: nat): (s: string)
    ensures |s| == n && forall i :: 0 <= i < n ==> s[i] == '0'
  {
    if n == 0 then "" else Zeros(n - 1) + "0"
  }

  /** `format(n, '0{width}b')`: the binary numeral of `n`, padded with zeros
      on the left to `width` characters; a wider numeral is not cut. */
  function Format(n: nat, width: nat): (s: string)
    ensures IsBits(s) && Value(s) == n && |s| >= width
    ensures 1 <= width && n < Pow2(width) ==> |s| == width
  {
    var d := Digits(n);
    DigitsValue(n);
    DigitsLength(n, width);
    if |d| < width then
      ZerosValue(width - |d|, d);
      Zeros(width - |d|) + d
    else d
  }

  /** The numeral denotes `n`. */
  lemma {:induction false} DigitsValue(n: nat)
    ensures Value(Digits(n)) == n
  {
    if n >= 2 {
      DigitsValue(n / 2);
      var d := Digits(n);
      assert d[..|d| - 1] == Digits(n / 2);
    }
  }

  /** The numeral of a number below `2^width` fits in `width` digits. */
  lemma {:induction false} DigitsLength(n: nat, width: nat)
    decreases n
    ensures 1 <= width && n < Pow2(width) ==> |Digits(n)| <= width
  {
    if n >= 2 && 1 <= width && n < Pow2(width) {
      DigitsLength(n / 2, width - 1);
    }
  }

  /** A string of zeros denotes zero. */
  lemma {:induction false} ZerosZero(k: nat)
    ensures Value(Zeros(k)) == 0
  {
    if k > 0 {
      ZerosZero(k - 1);
      assert Zeros(k)[..k - 1] == Zeros(k - 1);
    }
  }

  /** Leading zeros do not change the value. */
  lemma {:induction false} ZerosValue(k: nat, s: string)
    requires IsBits(s)
    ensures IsBits(Zeros(k) + s) && Value(Zeros(k) + s) == Value(s)
    decreases |s|
  {
    var z := Zeros(k) + s;
    if s == [] {
      assert z == Zeros(k);
      ZerosZero(k);
    } else {
      assert z[..|z| - 1] == Zeros(k) + s[..|s| - 1];
      ZerosValue(k, s[..|s| - 1]);
    }
  }
}
