/**
 * Binary numerals as sequences of booleans, most significant digit first,
 * and single bits of a natural number.
 */
module Binary {

  /** `2 ** k`. */
  function Pow2(k: nat): (r: nat)
    ensures r >= 1
  {
    if k == 0 then 1 else 2 * Pow2(k - 1)
  }

  /** The `w` low binary digits of `n`, most significant first. */
  function Digits(n: nat, w: nat): (d: seq<bool>)
    ensures |d| == w
  {
    if w == 0 then [] else Digits(n / 2, w - 1) + [n % 2 == 1]
  }

  /** `int(d, 2)`: the value of binary digits, most significant first. */
  function FromDigits(d: seq<bool>): nat
  {
    if d == [] then 0 else 2 * FromDigits(d[..|d| - 1]) + (if d[|d| - 1] then 1 else 0)
  }

  /** The number of digits of `bin(n)[2:]`. */
  function Width(n: nat): (w: nat)
    ensures w >= 1
  {
    if n < 2 then 1 else 1 + Width(n / 2)
  }

  /** `n & (1 << k) != 0`. */
  predicate Bit(n: nat, k: nat)
  {
    if k == 0 then n % 2 == 1 else Bit(n / 2, k - 1)
  }

  lemma {:induction false} DigitsBit(n: nat, w: nat, j: nat)
    requires j < w
    ensures Digits(n, w)[j] == Bit(n, w - 1 - j)
  {
    if j < w - 1 {
      DigitsBit(n / 2, w - 1, j);
    }
  }

  /** Writing `w` digits of a number below `2^w` and reading them back gives the number. */
  lemma {:induction false} DigitsOfFromDigits(d: seq<bool>)
    ensures FromDigits(d) < Pow2(|d|)
    ensures Digits(FromDigits(d), |d|) == d
  {
    if d != [] {
      var init := d[..|d| - 1];
      DigitsOfFromDigits(init);
      var n := FromDigits(d);
      assert n / 2 == FromDigits(init);
      assert d == init + [d[|d| - 1]];
    }
  }

  lemma {:induction false} WidthBound(n: nat, w: nat)
    requires w >= 1 && n < Pow2(w)
    ensures Width(n) <= w
  {
    if n >= 2 {
      WidthBound(n / 2, w - 1);
    }
  }
}
