/**
 * `toBinary(num, numQubits)`: the label of a basis state in the measurement
 * report, the `numQubits` lowest bits of `num` written most significant
 * bit first, one '0' or '1' character per bit.
 */
module Binary {
  import opened BitIndex

  /** `std::to_string(bit)` for a bit. */
  function Digit(b: nat): (c: char)
    requires b < 2
  {
    if b == 0 then '0' else '1'
  }

  /** The value of a binary digit. */
  function DigitValue(c: char): (b: nat)
  {
    if c == '1' then 1 else 0
  }

  /**
   * The `n` lowest bits of num, most significant first: the bits above the
   * lowest one, then the lowest one. Specification of `toBinary`.
   */
  function BitString(num: nat, n: nat): (s: string)
    ensures |s| == n
    ensures forall j :: 0 <= j < n ==> s[j] == '0' || s[j] == '1'
  {
    if n == 0 then [] else BitString(num / 2, n - 1) + [Digit(num % 2)]
  }

  /** A string of '0' and '1' read in base 2, most significant digit first. */
  function FromBinary(s: string): (num: nat)
  {
    if s == [] then 0 else 2 * FromBinary(s[..|s| - 1]) + DigitValue(s[|s| - 1])
  }

  /**
   * `toBinary`: for i from numQubits - 1 down to 0, append the digit of
   * `(num >> i) & 1`.
   */
  method ToBinary(num: nat, numQubits: nat) returns (result: string)
    ensures result == BitString(num, numQubits)
  {
    result := [];
    var i: nat := numQubits;
    while i > 0
      invariant i <= numQubits
      invariant result == BitString(Shr(num, i), numQubits - i)
    {
      i := i - 1;
      var bit := And(Shr(num, i), 1);
      AndOne(Shr(num, i));
      ShrSucc(num, i);
      result := result + [Digit(bit)];
    }
  }

  /** Character j of the label is bit n - 1 - j of num. */
  lemma {:induction false} BitStringAt(num: nat, n: nat, j: nat)
    requires j < n
    ensures BitString(num, n)[j] == Digit(Bit(num, n - 1 - j))
  {
    if j == n - 1 {
      BitOfHalf(num, 0);
    } else {
      BitStringAt(num / 2, n - 1, j);
      BitOfHalf(num, n - 2 - j);
    }
  }

  /** Reading the label back gives the n lowest bits of num. */
  lemma {:induction false} FromBinaryBitString(num: nat, n: nat)
    ensures FromBinary(BitString(num, n)) == num % Pow2(n)
  {
    if n > 0 {
      var s := BitString(num, n);
      assert s[..n - 1] == BitString(num / 2, n - 1);
      FromBinaryBitString(num / 2, n - 1);
      ModDouble(num, Pow2(n - 1));
    }
  }

  /** For num < 2^n the label reads back as num. */
  lemma BitStringRoundTrip(num: nat, n: nat)
    requires num < Pow2(n)
    ensures FromBinary(BitString(num, n)) == num
  {
    FromBinaryBitString(num, n);
  }

  /** Distinct indices below 2^n get distinct labels. */
  lemma BitStringInjective(a: nat, b: nat, n: nat)
    requires a < Pow2(n) && b < Pow2(n) && a != b
    ensures BitString(a, n) != BitString(b, n)
  {
    BitStringRoundTrip(a, n);
    BitStringRoundTrip(b, n);
  }

  /** Every string of '0' and '1' is the label of the number it spells. */
  lemma {:induction false} BitStringFromBinary(s: string)
    requires forall j :: 0 <= j < |s| ==> s[j] == '0' || s[j] == '1'
    ensures BitString(FromBinary(s), |s|) == s
  {
    if s != [] {
      var init := s[..|s| - 1];
      BitStringFromBinary(init);
      var v := FromBinary(s);
      assert v / 2 == FromBinary(init) && v % 2 == DigitValue(s[|s| - 1]);
      assert s == init + [s[|s| - 1]];
    }
  }
}
