/** test/shared/utilities.ts: the helpers the test suites share — the
    minimum-liquidity constant, unit scaling, the UQ112x112 price encoding
    that the pair's cumulative-price oracle is checked against, the
    CREATE2 address of a pair, and a bounded random BigInt generator.

    The library calls the helpers make (keccak256, solidityPacked over two
    addresses, and getAddress's checksumming) are not modelled: they are
    supplied as the function-valued fields of a `Crypto` value. Each
    `Math.random()` call is supplied by `draw(i)`, the digits after the
    decimal point of the i-th draw. */
module SharedUtilities {
  import opened Arith
  import opened Decimal
  import opened JsStrings
  import Util

  datatype Error =
    | LowNotBelowHigh   // generateRandomBigInt's thrown Error
    | DivisionByZero    // the RangeError of a BigInt division by zero

  datatype Result<T> = Ok(value: T) | Err(error: Error)

  /* ---------------------------------------------------------------- units */

  /** `MINIMUM_LIQUIDITY`: `10n ** 3n`, the shares a first mint locks away. */
  const MINIMUM_LIQUIDITY: nat := Pow(10, 3)

  lemma MinimumLiquidityValue()
    ensures MINIMUM_LIQUIDITY == 1000
  {
    assert Pow(10, 1) == 10;
  }

  /** The test-side copy of `expandTo18Decimals`; it agrees with the
      copy in util/utilities.ts on every input, so everything
      proved there (exact scaling by 10^18, 0 to 0, strictly increasing,
      additive, divisible and invertible) holds of it too. */
  function ExpandTo18Decimals(n: int): (r: int)
    ensures r == Util.ExpandTo18Decimals(n)
  {
    n * Pow(10, 18)
  }

  /* --------------------------------------------------------- price encoding */

  /** The two UQ112x112 fixed-point prices of a pair: token1 per token0 and
      token0 per token1. */
  datatype PricePair = PricePair(price0: int, price1: int)

  /** 2^112, the scale of the UQ112x112 format. */
  const Q112: nat := Pow(2, 112)

  /** `encodePrice(reserve0, reserve1)`:
      `[reserve1 * 2^112 / reserve0, reserve0 * 2^112 / reserve1]` with
      BigInt (truncating) division, which throws when a reserve is zero.
      For non-negative reserves each component is the floor of the exact
      ratio scaled by 2^112. */
  function EncodePrice(reserve0: int, reserve1: int): (r: Result<PricePair>)
    ensures r.Err? <==> reserve0 == 0 || reserve1 == 0
    ensures r.Err? ==> r.error == DivisionByZero
    ensures r.Ok? && reserve0 > 0 && reserve1 >= 0 ==>
      r.value.price0 * reserve0 <= reserve1 * Q112 < (r.value.price0 + 1) * reserve0
    ensures r.Ok? && reserve1 > 0 && reserve0 >= 0 ==>
      r.value.price1 * reserve1 <= reserve0 * Q112 < (r.value.price1 + 1) * reserve1
  {
    if reserve0 == 0 || reserve1 == 0 then Err(DivisionByZero)
    else Ok(PricePair(TruncDiv(reserve1 * Q112, reserve0), TruncDiv(reserve0 * Q112, reserve1)))
  }

  /** Swapping the reserves swaps the two prices. */
  lemma EncodePriceSwap(reserve0: int, reserve1: int)
    ensures EncodePrice(reserve1, reserve0).Ok? == EncodePrice(reserve0, reserve1).Ok?
    ensures EncodePrice(reserve0, reserve1).Ok? ==>
      EncodePrice(reserve1, reserve0).value
        == PricePair(EncodePrice(reserve0, reserve1).value.price1, EncodePrice(reserve0, reserve1).value.price0)
  {
  }

  /** Equal reserves price each token at exactly one, i.e. 2^112 in both slots. */
  lemma EncodePriceEqualReserves(reserve: int)
    requires reserve != 0
    ensures EncodePrice(reserve, reserve) == Ok(PricePair(Q112, Q112))
  {
    var a := Abs(reserve);
    assert Abs(reserve * Q112) == Q112 * a;
    MulDivCancel(Q112, a);
    assert (reserve * Q112 >= 0) == (reserve >= 0);
  }

  /* ------------------------------------------------------ CREATE2 addresses */

  /** The library calls `getCreate2Address` makes, taken as given:
      `keccak256` of a hex string, `solidityPacked(['address', 'address'], …)`
      and `getAddress` (checksumming). */
  datatype Crypto = Crypto(
    keccak256: seq<char> -> seq<char>,
    packAddresses: (seq<char>, seq<char>) -> seq<char>,
    getAddress: seq<char> -> seq<char>)

  /** A 32-byte hash as ethers prints it: "0x" and 64 hex digits. */
  predicate IsHashString(h: seq<char>) {
    |h| == 66 && h[..2] == "0x"
  }

  /** A 20-byte address as a hex string: "0x" and 40 hex digits. */
  predicate IsAddressString(a: seq<char>) {
    |a| == 42 && a[..2] == "0x"
  }

  ghost predicate HashesAreWords(crypto: Crypto) {
    forall s :: IsHashString(crypto.keccak256(s))
  }

  /** `tokenA < tokenB ? [tokenA, tokenB] : [tokenB, tokenA]`: the pair
      in string order (JavaScript `<`), token0 not above token1, the same
      two tokens. */
  function SortTokens(tokenA: seq<char>, tokenB: seq<char>): (r: (seq<char>, seq<char>))
    ensures !LexLess(r.1, r.0)
    ensures multiset{r.0, r.1} == multiset{tokenA, tokenB}
  {
    if LexLess(tokenA, tokenB) then
      LexLessAsymmetric(tokenA, tokenB);
      (tokenA, tokenB)
    else
      (tokenB, tokenA)
  }

  /** The ordering does not depend on the order the tokens are given in. */
  lemma SortTokensSymmetric(tokenA: seq<char>, tokenB: seq<char>)
    ensures SortTokens(tokenA, tokenB) == SortTokens(tokenB, tokenA)
  {
    if tokenA != tokenB {
      LexLessTotal(tokenA, tokenB);
      if LexLess(tokenA, tokenB) {
        LexLessAsymmetric(tokenA, tokenB);
      } else {
        LexLessAsymmetric(tokenB, tokenA);
      }
    }
  }

  /** `create2Inputs`: the marker byte, the deployer, the salt (hash of the
      packed ordered tokens) and the hash of the creation code. */
  function Create2Inputs(crypto: Crypto, factory: seq<char>, tokenA: seq<char>, tokenB: seq<char>,
                         bytecode: seq<char>): (parts: seq<seq<char>>)
    ensures |parts| == 4 && parts[0] == "0xff" && parts[1] == factory
  {
    var (token0, token1) := SortTokens(tokenA, tokenB);
    ["0xff", factory, crypto.keccak256(crypto.packAddresses(token0, token1)), crypto.keccak256(bytecode)]
  }

  /** Sum over the parts of their length less the two-character prefix. */
  function StrippedLength(parts: seq<seq<char>>): int {
    if parts == [] then 0 else |parts[0]| - 2 + StrippedLength(parts[1..])
  }

  /** `parts.map(i => i.slice(2)).join('')`. When every part carries a
      two-character prefix, the result has length the sum of (length - 2). */
  function StripAndJoin(parts: seq<seq<char>>): (r: seq<char>)
    ensures (forall i :: 0 <= i < |parts| ==> |parts[i]| >= 2) ==> |r| == StrippedLength(parts)
  {
    if parts == [] then [] else SliceFrom(parts[0], 2) + StripAndJoin(parts[1..])
  }

  /** `` `0x${parts.map(i => i.slice(2)).join('')}` ``: "0x" and then the
      stripped parts, so 2 + the sum of (length - 2) characters when every
      part carries a two-character prefix. */
  function Sanitize(parts: seq<seq<char>>): (r: seq<char>)
    ensures |r| >= 2 && r[..2] == "0x" && r[2..] == StripAndJoin(parts)
    ensures (forall i :: 0 <= i < |parts| ==> |parts[i]| >= 2) ==> |r| == 2 + StrippedLength(parts)
  {
    "0x" + StripAndJoin(parts)
  }

  /** `getCreate2Address(factoryAddress, [tokenA, tokenB], bytecode)`. */
  function Create2Address(crypto: Crypto, factory: seq<char>, tokenA: seq<char>, tokenB: seq<char>,
                          bytecode: seq<char>): seq<char>
  {
    var preimage := Sanitize(Create2Inputs(crypto, factory, tokenA, tokenB, bytecode));
    crypto.getAddress("0x" + SliceLast(crypto.keccak256(preimage), 40))
  }

  /** The hashed preimage is "0x", then ff, the factory, the salt hash and the
      code hash, each without its "0x", in that order. */
  lemma Create2PreimageLayout(crypto: Crypto, factory: seq<char>, tokenA: seq<char>, tokenB: seq<char>,
                              bytecode: seq<char>)
    requires |factory| >= 2 && HashesAreWords(crypto)
    ensures var t := SortTokens(tokenA, tokenB);
      Sanitize(Create2Inputs(crypto, factory, tokenA, tokenB, bytecode))
        == "0x" + "ff" + factory[2..] + crypto.keccak256(crypto.packAddresses(t.0, t.1))[2..]
           + crypto.keccak256(bytecode)[2..]
  {
    var parts := Create2Inputs(crypto, factory, tokenA, tokenB, bytecode);
    assert IsHashString(parts[2]) && IsHashString(parts[3]);
    assert parts[3..][1..] == [];
    assert StripAndJoin(parts[3..]) == parts[3][2..];
    assert parts[2..][1..] == parts[3..];
    assert StripAndJoin(parts[2..]) == parts[2][2..] + parts[3][2..];
    assert parts[1..][1..] == parts[2..];
    assert StripAndJoin(parts[1..]) == factory[2..] + parts[2][2..] + parts[3][2..];
    assert "0xff"[2..] == "ff";
  }

  /** With a 20-byte factory address, the preimage is "0x" and 85 bytes in hex:
      1 marker byte, 20 address bytes and two 32-byte hashes (EIP-1014). */
  lemma Create2PreimageBytes(crypto: Crypto, factory: seq<char>, tokenA: seq<char>, tokenB: seq<char>,
                             bytecode: seq<char>)
    requires IsAddressString(factory) && HashesAreWords(crypto)
    ensures |Sanitize(Create2Inputs(crypto, factory, tokenA, tokenB, bytecode))| == 2 + 2 * (1 + 20 + 32 + 32)
  {
    var parts := Create2Inputs(crypto, factory, tokenA, tokenB, bytecode);
    assert IsHashString(parts[2]) && IsHashString(parts[3]);
    Create2PreimageLayout(crypto, factory, tokenA, tokenB, bytecode);
  }

  /** The address is the checksummed form of "0x" and the last 40 hex digits
      (20 bytes) of the preimage's hash. */
  lemma Create2AddressFromHashTail(crypto: Crypto, factory: seq<char>, tokenA: seq<char>, tokenB: seq<char>,
                                   bytecode: seq<char>)
    requires HashesAreWords(crypto)
    ensures var h := crypto.keccak256(Sanitize(Create2Inputs(crypto, factory, tokenA, tokenB, bytecode)));
      IsAddressString("0x" + h[26..]) &&
      Create2Address(crypto, factory, tokenA, tokenB, bytecode) == crypto.getAddress("0x" + h[26..])
  {
    var h := crypto.keccak256(Sanitize(Create2Inputs(crypto, factory, tokenA, tokenB, bytecode)));
    assert IsHashString(h);
    assert ("0x" + h[26..])[..2] == "0x";
  }

  /** A pair has one address whichever order its tokens are named in. */
  lemma Create2AddressOrderIndependent(crypto: Crypto, factory: seq<char>, tokenA: seq<char>, tokenB: seq<char>,
                                       bytecode: seq<char>)
    ensures Create2Address(crypto, factory, tokenA, tokenB, bytecode)
         == Create2Address(crypto, factory, tokenB, tokenA, bytecode)
  {
    SortTokensSymmetric(tokenA, tokenB);
  }

  /* ------------------------------------------------- bounded random BigInts */

  /** What `Math.random().toString().split('.')[1]` is taken to yield: a
      non-empty string of decimal digits. */
  predicate IsRandomChunk(s: seq<char>) {
    |s| > 0 && AllDigits(s)
  }

  ghost predicate ValidDraws(draw: nat -> seq<char>) {
    forall i: nat :: IsRandomChunk(draw(i))
  }

  /** The `while` loop: append draws i, i+1, … to acc until it holds at
      least k characters. */
  function FillDigits(draw: nat -> seq<char>, k: nat, i: nat, acc: seq<char>): (r: seq<char>)
    requires ValidDraws(draw) && AllDigits(acc)
    ensures |r| >= k && AllDigits(r)
    decreases if |acc| < k then k - |acc| else 0
  {
    if |acc| >= k then acc
    else
      assert IsRandomChunk(draw(i));
      FillDigits(draw, k, i + 1, acc + draw(i))
  }

  /** `multiplier` after the loop and `slice(0, k)`: exactly k digits. */
  function Multiplier(draw: nat -> seq<char>, k: nat): (m: seq<char>)
    requires ValidDraws(draw)
    ensures |m| == k && AllDigits(m)
  {
    FillDigits(draw, k, 0, [])[..k]
  }

  /** What `generateRandomBigInt(low, high)` returns for the given draws. */
  function RandomBigInt(low: int, high: int, draw: nat -> seq<char>): (r: Result<int>)
    requires ValidDraws(draw)
    ensures r.Err? <==> low >= high
    ensures r.Err? ==> r.error == LowNotBelowHigh
  {
    if low >= high then Err(LowNotBelowHigh)
    else
      var difference := high - low;
      var k := |DecimalString(difference)|;
      OneFollowedByZeros(k);
      var divisor := DigitsValue(['1'] + Repeat('0', k));
      Ok(low + TruncDiv(difference * DigitsValue(Multiplier(draw, k)), divisor))
  }

  /** The doc comment's promise: the generator fails exactly when
      low >= high, and otherwise returns a value in [low, high). */
  lemma RandomBigIntInRange(low: int, high: int, draw: nat -> seq<char>)
    requires ValidDraws(draw)
    ensures RandomBigInt(low, high, draw).Err? <==> low >= high
    ensures RandomBigInt(low, high, draw).Ok? ==> low <= RandomBigInt(low, high, draw).value < high
  {
    if low < high {
      var difference := high - low;
      var k := |DecimalString(difference)|;
      var m := Multiplier(draw, k);
      RandomDifferenceBelow(difference, m);
    }
  }

  /** The digit-count argument: d has k = |d.toString()| digits, so d < 10^k;
      a k-digit multiplier m is below 10^k; hence 0 <= d * m / 10^k < d. */
  lemma RandomDifferenceBelow(difference: nat, multiplier: seq<char>)
    requires difference > 0 && AllDigits(multiplier)
    requires |multiplier| == |DecimalString(difference)|
    ensures AllDigits(['1'] + Repeat('0', |multiplier|))
    ensures DigitsValue(['1'] + Repeat('0', |multiplier|)) == Pow(10, |multiplier|)
    ensures 0 <= TruncDiv(difference * DigitsValue(multiplier), Pow(10, |multiplier|)) < difference
  {
    var k := |multiplier|;
    var m := DigitsValue(multiplier);
    var ten := Pow(10, k);
    OneFollowedByZeros(k);
    assert difference < ten by {
      DecimalStringLength(difference);
    }
    assert m < ten;
    ScaledFractionBelow(difference, m, ten);
    assert 0 <= TruncDiv(difference * m, ten) < difference;
  }

  /** `generateRandomBigInt(lowBigInt, highBigInt)`. */
  method GenerateRandomBigInt(low: int, high: int, draw: nat -> seq<char>) returns (r: Result<int>)
    requires ValidDraws(draw)
    ensures r == RandomBigInt(low, high, draw)
    ensures r.Err? <==> low >= high
    ensures r.Ok? ==> low <= r.value < high
  {
    RandomBigIntInRange(low, high, draw);
    if low >= high {
      return Err(LowNotBelowHigh);
    }
    var difference := high - low;
    var differenceLength := |DecimalString(difference)|;
    var multiplier: seq<char> := "";
    var i: nat := 0;
    while |multiplier| < differenceLength
      invariant AllDigits(multiplier)
      invariant FillDigits(draw, differenceLength, i, multiplier) == FillDigits(draw, differenceLength, 0, [])
      decreases differenceLength - |multiplier|
    {
      assert IsRandomChunk(draw(i));
      multiplier := multiplier + draw(i);
      i := i + 1;
    }
    multiplier := multiplier[..differenceLength];
    OneFollowedByZeros(differenceLength);
    var divisor := ['1'] + Repeat('0', differenceLength);
    var randomDifference := TruncDiv(difference * DigitsValue(multiplier), DigitsValue(divisor));
    return Ok(low + randomDifference);
  }
}
