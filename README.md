# LovelySwap helper utilities in Dafny

LovelySwap is an automated-market-maker exchange. It has a pair factory, constant-product pairs, routers, and a trading-competition router. This project models the TypeScript helpers that its test suite uses to compute expected values. It then proves properties of them. The Solidity contracts themselves are not part of this model.

The helpers modelled are:

- **Unit scaling.** `expandTo18Decimals` converts whole tokens to 18-decimal base units. It appears in both `util/utilities.ts` and `test/shared/utilities.ts`.
- **Constants.** `MINIMUM_LIQUIDITY` is the 1000 shares that a first mint locks away. `ZERO_ADDRESS` is the all-zero address.
- **Price encoding.** `encodePrice` gives the UQ112x112 fixed-point prices. The pair's cumulative-price oracle is checked against it.
- **Pair address.** `getCreate2Address` predicts a pair's address as EIP-1014 defines it. It orders the two tokens by JavaScript string order, assembles the hex preimage and hashes it.
- **Random amounts.** `generateRandomBigInt` returns a random BigInt in `[low, high)`. It builds a decimal multiplier from `Math.random()` digits in a `while` loop.

Modules, one per source file plus three helper modules:

- `Util` (`util.dfy`) models `util/utilities.ts`.
- `SharedUtilities` (`shared_utilities.dfy`) models `test/shared/utilities.ts`.
- `Arith` (`arith.dfy`) holds `**` on BigInts and JavaScript's BigInt `/`, which truncates toward zero. Dafny's own `/` is Euclidean, so the difference is written out.
- `Decimal` (`decimal.dfy`) holds `n.toString()`, `BigInt(digits)` and `'0'.repeat(k)`.
- `JsStrings` (`jsstrings.dfy`) holds the string `<` operator and `slice`.

Some inputs are not computed by the model:

- The library calls `keccak256`, `solidityPacked(['address','address'], …)` and `getAddress` are parameters. They are the function-valued fields of a `Crypto` value.
- The i-th `Math.random().toString().split('.')[1]` is the parameter `draw(i)`.
- Division by zero in `encodePrice` is modelled as the error `DivisionByZero`, because a BigInt division by zero throws.
- `generateRandomBigInt` with `low >= high` returns the error `LowNotBelowHigh`, because the source throws there.

## Model

| member | source | states |
|---|---|---|
| `Util.ExpandTo18Decimals` | util/utilities.ts:5-7 | the result is an exact multiple of 10^18, and dividing it by 10^18 gives n back (round trip) |
| `Util.ExpandTo18DecimalsExact` | util/utilities.ts:5-7 | the result is exactly n * 1000000000000000000 |
| `Util.Decimals18Value` | util/utilities.ts:6 | `10n ** 18n` is 1000000000000000000 |
| `Util.ExpandTo18DecimalsZero` | util/utilities.ts:5-7 | 0 maps to 0 |
| `Util.ExpandTo18DecimalsStrictlyIncreasing` | util/utilities.ts:5-7 | a < b implies expand(a) < expand(b) |
| `Util.ExpandTo18DecimalsAdditive` | util/utilities.ts:5-7 | expand(a + b) == expand(a) + expand(b) |
| `Util.ZeroAddressShape` | util/utilities.ts:3 | `ZERO_ADDRESS` is 42 characters: "0x" then forty '0' |
| `SharedUtilities.ExpandTo18Decimals` | test/shared/utilities.ts:20-22 | the test-side copy agrees with the util/utilities.ts copy on every integer, so the util lemmas (exact, 0 to 0, strictly increasing) hold of it |
| `SharedUtilities.MinimumLiquidityValue` | test/shared/utilities.ts:14 | `MINIMUM_LIQUIDITY` = 10^3 = 1000 |
| `SharedUtilities.EncodePrice` | test/shared/utilities.ts:65-67 | fails (division by zero) iff a reserve is zero; for non-negative reserves each component is the floor of the other reserve * 2^112 / this reserve: p * r0 <= r1 * 2^112 < (p + 1) * r0, and symmetrically |
| `SharedUtilities.EncodePriceSwap` | test/shared/utilities.ts:65-67 | swapping the two reserves swaps the two encoded prices (and fails in the same cases) |
| `SharedUtilities.EncodePriceEqualReserves` | test/shared/utilities.ts:65-67 | equal nonzero reserves give 2^112 in both slots |
| `SharedUtilities.SortTokens` | test/shared/utilities.ts:44 | the result is ordered (token1 is not less than token0 by string `<`) and is a permutation of the two inputs |
| `SharedUtilities.SortTokensSymmetric` | test/shared/utilities.ts:44 | the ordered pair does not depend on which order the tokens are given in |
| `JsStrings.LexLess` | test/shared/utilities.ts:44 | string `<`: it holds only of different strings, and a proper prefix is always smaller; the four lemmas below make it a strict total order |
| `JsStrings.LexLessIrreflexive` | test/shared/utilities.ts:44 | string `<` is irreflexive |
| `JsStrings.LexLessAsymmetric` | test/shared/utilities.ts:44 | string `<` is asymmetric |
| `JsStrings.LexLessTotal` | test/shared/utilities.ts:44 | of two different strings, one is `<` the other |
| `JsStrings.LexLessTransitive` | test/shared/utilities.ts:44 | string `<` is transitive, so the tokens are compared by a strict total order |
| `SharedUtilities.Create2Inputs` | test/shared/utilities.ts:45-50 | exactly four parts, the first "0xff" and the second the factory address |
| `SharedUtilities.StripAndJoin` | test/shared/utilities.ts:51 | `map(i => i.slice(2)).join('')`: when every part has at least two characters, the result has length the sum of (length - 2) over the parts |
| `SharedUtilities.Sanitize` | test/shared/utilities.ts:51 | the sanitized string starts with "0x", continues with the stripped and joined parts, and has length 2 + the sum of (length - 2) when every part has a two-character prefix |
| `JsStrings.SliceFrom` | test/shared/utilities.ts:51 | `slice(n)` drops the first n characters, or gives the empty string when the string is shorter |
| `SharedUtilities.Create2PreimageLayout` | test/shared/utilities.ts:45-51 | the preimage is "0x", "ff", the factory, the salt hash and the code hash, each without its "0x", in that order |
| `SharedUtilities.Create2PreimageBytes` | test/shared/utilities.ts:45-51 | with a 42-character factory address the preimage is "0x" plus 2 * (1 + 20 + 32 + 32) hex digits, the 85-byte preimage of EIP-1014 |
| `SharedUtilities.Create2AddressFromHashTail` | test/shared/utilities.ts:52 | the address is `getAddress` of "0x" and the last 40 hex digits of the preimage's hash, which is a 42-character address string |
| `SharedUtilities.Create2AddressOrderIndependent` | test/shared/utilities.ts:39-53 | swapping tokenA and tokenB gives the same pair address |
| `JsStrings.SliceLast` | test/shared/utilities.ts:52 | `slice(-n)` returns the last n characters, or the whole string when it is shorter |
| `Decimal.DecimalString` | test/shared/utilities.ts:76 | `toString` of a non-negative BigInt is a non-empty digit string without a leading zero |
| `Decimal.DecimalStringRoundTrip` | test/shared/utilities.ts:76 | parsing `n.toString()` with `BigInt` gives n back |
| `Decimal.DecimalStringLength` | test/shared/utilities.ts:76 | with k the length of `n.toString()`: n < 10^k, and 10^(k-1) <= n for positive n |
| `Decimal.DigitsValue` | test/shared/utilities.ts:86 | `BigInt(digits)`: a string of k digits denotes a value below 10^k; `Decimal.DecimalStringRoundTrip` is its round trip with `toString` |
| `Decimal.Repeat` | test/shared/utilities.ts:84 | `c.repeat(k)` has exactly k characters, each c |
| `Decimal.OneFollowedByZeros` | test/shared/utilities.ts:84 | `'1' + '0'.repeat(k)` is a digit string denoting 10^k |
| `Arith.Pow` | test/shared/utilities.ts:14 | BigInt `**` with a non-negative exponent, as in `10n ** 3n` here, `10n ** 18n` at line 21 and util/utilities.ts:6, and `2n ** 112n` at line 66: a positive base gives a positive power; `Arith.PowAdd` is its partner |
| `Arith.PowAdd` | util/utilities.ts:6 | exponents add: b^(m+n) = b^m * b^n, which evaluates `10n ** 18n` to the literal 10^18 |
| `Arith.TruncDiv` | test/shared/utilities.ts:66 | BigInt `/`: abs(q) * abs(b) <= abs(a) < (abs(q) + 1) * abs(b), q takes the sign of a / b, and it equals Euclidean division on non-negative operands |
| `Arith.ScaledFractionBelow` | test/shared/utilities.ts:86 | for d > 0 and m < den: 0 <= d * m / den < d |
| `SharedUtilities.FillDigits` | test/shared/utilities.ts:77-82 | the appending loop, read as a function: it ends with at least k characters, all of them digits |
| `SharedUtilities.Multiplier` | test/shared/utilities.ts:77-83 | after `slice(0, differenceLength)` the multiplier has exactly differenceLength digits |
| `SharedUtilities.RandomDifferenceBelow` | test/shared/utilities.ts:75-86 | with `differenceLength` digits in the multiplier and divisor 10^differenceLength: 0 <= randomDifference < difference |
| `SharedUtilities.RandomBigInt` | test/shared/utilities.ts:70-89 | the generator as a function of the draws: it fails, with the `low >= high` error, exactly when low >= high; `RandomBigIntInRange` bounds its value |
| `SharedUtilities.RandomBigIntInRange` | test/shared/utilities.ts:69-89 | fails iff low >= high; otherwise low <= result < high |
| `SharedUtilities.GenerateRandomBigInt` | test/shared/utilities.ts:70-89 | the imperative generator with its `while` loop returns the specified value: an error iff low >= high, else a value in [low, high) |

## Left out

- The Solidity contracts (pair, factory, routers, rewards vault) are not part of this model. The test suites (`*.spec.ts`) only drive them over a local chain, so their behaviour is not modelled.
- `test/shared/fixtures.ts`, the deploy scripts, `hardhat.config.ts` and `util/getInitCodeHash.ts` are not modelled. They are deployment and configuration only.
- `mineBlock`, `mineBlockIncreaseTime` and `setTimestamp` are not modelled. They are JSON-RPC calls to the chain.
- `getDomainSeparator` and `PERMIT_TYPEHASH` are not modelled. They are EIP-712 hashing with no logic of their own.
- `keccak256`, `solidityPacked` and `getAddress` are not modelled. They are parameters, with no property assumed except that `keccak256` returns a "0x" string of 66 characters, and only where a lemma says so.
- SharedUtilities.Create2Address has no contract of its own. Its properties are the order-independence, preimage-layout and hash-tail lemmas.
- `Math.random()` is not modelled, because it is floating point. Each chunk it contributes is a parameter, required to be a non-empty string of decimal digits. A draw of 0 gives the chunk `undefined`, whose letters always fall within the kept prefix, so `BigInt(multiplier)` always throws. A draw printed in exponent form, such as `1.5e-7`, gives `5e-7`. That throws only when its non-digit characters fall within the first `differenceLength` characters that `slice` keeps. Otherwise the helper still returns a value in range. The digit-only requirement therefore excludes some draw sequences on which the helper succeeds, and GenerateRandomBigInt promises nothing for them.
- Util.ExpandTo18Decimals: `n` is modelled as an integer. The source takes a JavaScript `number`, and `BigInt(n)` throws a RangeError for a non-integer, NaN or an infinite number. That error path is not modelled.
- SharedUtilities.ExpandTo18Decimals: the same integer restriction applies to the test-side copy.
- SharedUtilities.SortTokens orders tokens by JavaScript string `<`, not by numeric address value. The two agree when both addresses use the same letter case. For mixed-case checksummed addresses they can disagree ("0xB" is string-smaller than "0xa"), and the helper would then hash the tokens in the opposite order from the factory. The model follows the source's string order; the tests that call it pass all-digit addresses.
- JsStrings.LexLess compares Unicode code points, while JavaScript compares UTF-16 code units. The two agree on the ASCII hex addresses the helpers compare.
