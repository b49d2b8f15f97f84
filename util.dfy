/** util/utilities.ts: helpers the test suites import — the all-zero address and
    the scaling of a whole-token amount to 18-decimal base units. */
module Util {
  import opened Arith

  /** `ZERO_ADDRESS`: "0x" followed by forty '0' characters. */
  const ZERO_ADDRESS: seq<char> := "0x0000000000000000000000000000000000000000"

  /** Base units in one whole token of an 18-decimal token: `10n ** 18n`. */
  const DECIMALS_18: nat := Pow(10, 18)

  /** `expandTo18Decimals(n)`: n whole tokens in base units. The result is an
      exact multiple of 10^18 and dividing it by 10^18 gives n back. */
  function ExpandTo18Decimals(n: int): (r: int)
    ensures r % DECIMALS_18 == 0 && r / DECIMALS_18 == n
  {
    MulDivCancel(n, DECIMALS_18);
    n * DECIMALS_18
  }

  lemma ZeroAddressShape()
    ensures |ZERO_ADDRESS| == 42
    ensures ZERO_ADDRESS[..2] == "0x"
    ensures forall i :: 2 <= i < |ZERO_ADDRESS| ==> ZERO_ADDRESS[i] == '0'
  {
    assert ZERO_ADDRESS[..2] == [ZERO_ADDRESS[0], ZERO_ADDRESS[1]];
  }

  /** The scale factor is exactly one quintillion. */
  lemma Decimals18Value()
    ensures DECIMALS_18 == 1_000_000_000_000_000_000
  {
    assert Pow(10, 3) == 1000;
    PowAdd(10, 3, 3);
    PowAdd(10, 6, 6);
    PowAdd(10, 12, 6);
  }

  /** The result is exactly n * 10^18. */
  lemma ExpandTo18DecimalsExact(n: int)
    ensures ExpandTo18Decimals(n) == n * 1_000_000_000_000_000_000
  {
    Decimals18Value();
  }

  lemma ExpandTo18DecimalsZero()
    ensures ExpandTo18Decimals(0) == 0
  {
  }

  /** Scaling is strictly increasing, so it never merges two amounts. */
  lemma ExpandTo18DecimalsStrictlyIncreasing(a: int, b: int)
    requires a < b
    ensures ExpandTo18Decimals(a) < ExpandTo18Decimals(b)
  {
    MulMonotone(a + 1, b, DECIMALS_18);
  }

  lemma ExpandTo18DecimalsAdditive(a: int, b: int)
    ensures ExpandTo18Decimals(a + b) == ExpandTo18Decimals(a) + ExpandTo18Decimals(b)
  {
  }
}
