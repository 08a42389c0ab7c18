/**
 * Binary numerals as the source handles them: strings of the characters '0' and '1',
 * most significant digit first. `Bits` is Python's `format(n, '0<width>b')` for values
 * that fit in `width` digits, and `Value` is `int(s, 2)`.
 */
module Binary {

  predicate IsBit(c: char) {
    c == '0' || c == '1'
  }

  predicate IsBinary(s: string) {
    forall i :: 0 <= i < |s| ==> IsBit(s[i])
  }

  function Pow2(n: nat): (r: nat)
    ensures r >= 1
  {
    if n == 0 then 1 else 2 * Pow2(n - 1)
  }

  /** The `width` low-order binary digits of `n`, zero-padded on the left. */
  function Bits(n: nat, width: nat): (r: string)
    ensures |r| == width && IsBinary(r)
  {
    if width == 0 then "" else Bits(n / 2, width - 1) + [if n % 2 == 0 then '0' else '1']
  }

  /** The number a binary numeral denotes, as `int(s, 2)`; the empty numeral gives 0 where Python raises `ValueError`, which the codec never reaches (`GroupToChar` takes one to eight digits). */
  function Value(s: string): (r: nat)
    requires IsBinary(s)
    ensures r < Pow2(|s|)
  {
    if s == [] then 0 else 2 * Value(s[..|s| - 1]) + (if s[|s| - 1] == '1' then 1 else 0)
  }

  lemma {:induction false} Pow2Monotone(m: nat, n: nat)
    requires m <= n
    ensures Pow2(m) <= Pow2(n)
  {
    if m < n {
      Pow2Monotone(m, n - 1);
    }
  }

  /** Reading back a numeral written in enough digits gives the number written. */
  lemma {:induction false} ValueOfBits(n: nat, width: nat)
    requires n < Pow2(width)
    ensures Value(Bits(n, width)) == n
  {
    if width > 0 {
      var r := Bits(n, width);
      assert r[..width - 1] == Bits(n / 2, width - 1);
      ValueOfBits(n / 2, width - 1);
    }
  }

  /** Writing the value of a numeral in as many digits as it has gives the numeral back. */
  lemma {:induction false} BitsOfValue(s: string)
    requires IsBinary(s)
    ensures Bits(Value(s), |s|) == s
  {
    if s != [] {
      var init := s[..|s| - 1];
      BitsOfValue(init);
      assert s == init + [s[|s| - 1]];
    }
  }
}
