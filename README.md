# BIP39 mnemonic secret sharing: the glue, in Dafny

The repository splits the entropy of a BIP39 mnemonic into numbered share mnemonics, any
threshold of which recover the original. There are two front ends:

- `bip39_ssss.py` uses an integer Shamir library, `ssss`. It works over the modulus
  `2^b - 1`, where `b` is the entropy bit length of the mnemonic's word count.
- `bip39_sss.py` uses the string-based `secretsharing` library, whose shares are
  `"<number>-<hex>"` strings.

This project models the glue the repository itself implements around those libraries:

- how entropy becomes an integer or hex text and back;
- `safe_pad_hex` and the entropy bit length `11*w - w/3`;
- the share loops of `mnemonic_to_shares` and `shares_to_mnemonic` in both files;
- the parsing and formatting of sss share strings;
- the input rules of the two console loops.

The two secret-sharing libraries and the `bip_utils` mnemonic codec are parameters:

- `Codec<M>` holds the validate, decode, word count and from-entropy calls.
- `Splitter`/`Recoverer` and `StringSplitter`/`StringRecoverer` stand for the libraries. A
  split's random coefficients are folded into the splitter function.

Exceptions become the `Error` values of a `Result`. The Python built-ins the glue relies on
are written out in module `Hex`: `format(v, "x")`, `int(s, 16)`, `bytes.hex()` and
`bytes.fromhex()`.

Modules:

- `Common` (common.dfy): optional values, natural powers, and picking sequence elements by
  position.
- `Hex` (hex.dfy): bytes, hex digits, the four built-ins, and their round trips.
- `Bip39Codec` (codec.dfy): errors, results, the codec, and `MapResults`. `MapResults` is
  "loop over a list, append each result, let the first exception escape".
- `EntropyWidth` (entropy_width.dfy): the bit length, the modulus, `safe_pad_hex`, and
  width-exact conversion between field integers and entropy.
- `SsssShares` (ssss_shares.dfy): `mnemonic_to_shares` and `shares_to_mnemonic` of
  `bip39_ssss.py`.
- `SsssConsole` (ssss_console.dfy): share-number acceptance and the threshold loop of the
  `bip39_ssss.py` console.
- `SssShares` (sss_shares.dfy): `mnemonic_to_shares` and `shares_to_mnemonic` of
  `bip39_sss.py`, with `str.split("-")`, the `f"{num}-{hex}"` format, and parity padding.
- `SssConsole` (sss_console.dfy): the threshold loop of `bip39_sss.py`, and how its rule
  differs from the ssss one.

How the loops are modelled:

- Every loop the model covers is a `method` with a `for`/`while` loop.
- Each share loop is proved equal to a specification function of its inputs, such as
  `EncodeShares` or `DecodeShares`.
- The console loops state their acceptance rule directly in their `ensures`.
- The lemmas state the source's promises about those functions: round trips, widths,
  numbering, and acceptance rules.

Two facts about the code that the model makes explicit:

- `safe_pad_hex` does not raise on a value wider than the entropy. It passes the value on
  unpadded (`WidthOverflowNotTruncated`).
- The two consoles use different threshold rules (`StricterThanSsss`):
  - `bip39_ssss.py` accepts `2 <= T <= N`;
  - `bip39_sss.py` accepts `2 <= T < N`.

## Model

| member | source | states |
|---|---|---|
| Hex.Digit | bip39_ssss.py:39 | The digit `format` prints for a value below 16 is a lower-case hex digit denoting that value, and it is '0' exactly for 0. |
| Hex.FormatHex | bip39_ssss.py:39 | `format(v, "x")` is non-empty lower-case hex that denotes v, with a leading '0' only when v is 0. |
| Hex.FormatHexLength | bip39_ssss.py:39 | A value below 16^k is printed in at most k digits. |
| Hex.FormatHexLengthBound | bip39_ssss.py:39 | The printed digits always suffice: v < 16^len(format(v, "x")). |
| Hex.HexValueBound | bip39_ssss.py:62 | A string of n hex digits denotes a value below 16^n. |
| Hex.ParseHex | bip39_ssss.py:32 | `int(s, 16)` succeeds exactly on non-empty strings of hex digits, with a value below 16^len(s). |
| Hex.ParseFormatHex | bip39_ssss.py:62 | `int(format(v, "x"), 16) == v` for every v. |
| Hex.HexValueLeadingZeros | bip39_ssss.py:75 | Prefixing '0' digits keeps a hex string hex and keeps its value. |
| Hex.BigEndianBound | bip39_ssss.py:29-32 | n bytes read big-endian give a value below 256^n. |
| Hex.BigEndianAllOnes | bip39_ssss.py:29-32 | k bytes of 0xFF denote 256^k - 1, the largest k-byte value. |
| Hex.BigEndianInjective | bip39_ssss.py:29-32 | Byte strings of equal length with equal big-endian value are equal. |
| Hex.BytesToHex | bip39_ssss.py:29 | `bytes.hex()` writes exactly two lower-case hex digits per byte. |
| Hex.BytesToHexValue | bip39_ssss.py:29-32 | The digits `bytes.hex()` writes denote the big-endian value of the bytes. |
| Hex.ParseBytesToHex | bip39_ssss.py:29-32 | `int(bs.hex(), 16)` is the big-endian value of bs, and it fails only for empty bytes. |
| Hex.FromHex | bip39_ssss.py:40 | `bytes.fromhex` succeeds exactly on even-length hex and gives half as many bytes. |
| Hex.HexPairsValue | bip39_ssss.py:40 | The bytes `fromhex` produces have the big-endian value of the hex digits. |
| Hex.FromHexValue | bip39_ssss.py:66 | Whenever `fromhex` succeeds, its bytes denote the value of the text. |
| Hex.FromHexBytesToHex | bip39_sss.py:44-48 | `bytes.fromhex(bs.hex()) == bs`. |
| Hex.BytesToHexFromHex | bip39_sss.py:34-44 | For even-length lower-case hex, `fromhex` succeeds and `.hex()` of its bytes gives the same text back. |
| Bip39Codec.MapResultsOk | bip39_ssss.py:37-43 | An append-per-element loop succeeds iff every element succeeds. It then yields one result per element, in order. |
| Bip39Codec.MapResultsErr | bip39_ssss.py:37-43 | A failing loop raises the error of the first failing element, and every earlier element succeeded. |
| Bip39Codec.MapResultsErrPrefix | bip39_ssss.py:37-43 | Once a prefix of the list fails, the whole loop fails with that error. |
| Bip39Codec.MapResultsAgree | bip39_ssss.py:52-63 | Loops whose element steps agree on every element have the same outcome. |
| Bip39Codec.MapResultsSelect | bip39_ssss.py:52-63 | Running the loop over a chosen subset of shares (any positions, any order) gives the same subset of the full loop's results. |
| EntropyWidth.EntropyBitLen | bip39_ssss.py:79-80 | `11*w - w//3` never exceeds all the word bits. For w divisible by 3 it is a multiple of 32, and entropy plus one checksum bit per 32 entropy bits fills the words exactly. |
| EntropyWidth.HexWidth | bip39_ssss.py:73 | `int(b / 4)` is the number of whole hex digits b bits fill: 4*width <= b < 4*width + 4. |
| EntropyWidth.StandardWidths | bip39_ssss.py:71-80 | For 12/15/18/21/24 words, b = 32*(w/3) lies in 128..256. The hex width int(b/4) is exact and even, lies in 32..64, and 2^b = 16^width = 256^(width/2). |
| EntropyWidth.SafePadHex | bip39_ssss.py:71-76 | `safe_pad_hex` has the target width when the input is shorter, and is the input unchanged otherwise. The input is kept as a suffix, preceded only by '0'. It never truncates. |
| EntropyWidth.SafePadHexValue | bip39_ssss.py:71-76 | Padding keeps a hex string hex and keeps its value. |
| EntropyWidth.SafePadHexIdempotent | bip39_ssss.py:71-76 | Padding twice is padding once. |
| EntropyWidth.WidthRoundTrip | bip39_ssss.py:39-40 | For v < 2^b and a standard word count, the padded `format(v, "x")` has exactly the target width and parses back to v. `fromhex` then gives exactly b/8 bytes denoting v. |
| EntropyWidth.FieldValueToEntropy | bip39_ssss.py:64-66 | Any field element, at most 2^b - 1, becomes exactly b/8 non-empty bytes denoting it. |
| EntropyWidth.WidthOverflowNotTruncated | bip39_ssss.py:74-76 | A value of 2^b or more is passed on unpadded and never cut down. No entropy of b/8 bytes comes out of it. |
| EntropyWidth.EntropyRoundTrip | bip39_ssss.py:29-40 | Entropy of the standard width survives `int(e.hex(), 16)` and the padded re-encoding unchanged, leading zero bytes included. |
| EntropyWidth.AllOnesValue | bip39_ssss.py:32-35 | For a standard word count, b/8 bytes of 0xFF denote exactly the modulus 2^b - 1 passed as `prime`. |
| EntropyWidth.AllOnesSecretIsModulus | bip39_ssss.py:29-35 | For the all-0xFF entropy of a standard word count, `int(mnemonic_hex, 16)` is exactly the modulus passed as `prime`. |
| EntropyWidth.PowTwoEvenModThree | bip39_ssss.py:35 | 2 to any even power is one more than a multiple of 3. |
| EntropyWidth.EvenPowTwoLessOne | bip39_ssss.py:35 | For an even b >= 4, 2^b - 1 is a multiple of 3 that is larger than 3. |
| EntropyWidth.ModulusDivisibleByThree | bip39_ssss.py:35 | For every standard word count, the modulus 2^b - 1 passed as `prime` is divisible by 3 and larger than 3, so it is not a prime. |
| EntropyWidth.ThreeHasNoInverse | bip39_ssss.py:35 | For every standard word count, 3 has no inverse modulo 2^b - 1. |
| SsssShares.MnemonicToShares | bip39_ssss.py:22-43 | Its outcome is `SplitMnemonic`, in order: validate, then decode, then `int(hex, 16)`, then the library split with modulus 2^b - 1 as `prime`, then the share loop. Each failure has its own error. |
| SsssShares.EncodeShareList | bip39_ssss.py:37-43 | The share loop yields `EncodeShares`: pad, `fromhex` and `FromEntropy` per share, in order, keeping each share number. The first failure escapes. |
| SsssShares.SplitKeepsShareNumbers | bip39_ssss.py:31-43 | On success, the library received the big-endian entropy value and `prime` = 2^b - 1 for the word count. Exactly one mnemonic share exists per library share, in the same order, number and encoding. |
| SsssShares.ModulusSecretReachesSplit | bip39_ssss.py:28-36 | For the all-0xFF entropy, the secret handed to `make_random_shares` equals the modulus passed as `prime`. Nothing checks it, and the outcome is whatever the library's split gives. |
| SsssShares.DecodeShareList | bip39_ssss.py:49-63 | The decode loop yields `DecodeShares`, and both lengths are taken from the first share (0 when there is none). |
| SsssShares.SharesToMnemonic | bip39_ssss.py:46-68 | Its outcome is `RecoverMnemonic`: decode every share, recover with `prime` = 2^b - 1 for the first share's word count, pad to that share's width, `fromhex`, then `FromEntropy`. |
| SsssShares.OnlyFirstShareSizesRecovery | bip39_ssss.py:55-59 | Recovery depends on the first share's word count only. The word counts of the other shares never change the outcome. |
| SsssShares.ShareRoundTrip | bip39_ssss.py:38-63 | For a codec that round-trips at word count w, a field element becomes a w-word mnemonic that the recovery loop reads back as the same (number, integer) pair. |
| SsssShares.SharesRoundTrip | bip39_ssss.py:37-63 | The share loop and the recovery loop are inverse on every share list the library can return: numbers, values and order come back unchanged, and every share has the secret's word count. |
| SsssShares.SplitThenRecover | bip39_ssss.py:22-68 | Split a valid standard mnemonic, then recover from any choice of shares for which the library returns the secret integer. The result is a mnemonic with exactly the original entropy and word count. |
| SsssConsole.AcceptStep | bip39_ssss.py:203-212 | A typed number n extends the accepted numbers by exactly n iff n > 0 and n was not accepted yet. Otherwise they are unchanged, as on a line that is not an integer. |
| SsssConsole.AcceptedNumbersDistinct | bip39_ssss.py:194-212 | Accepted share numbers are positive, were all typed in, and are pairwise distinct. |
| SsssConsole.ReadShareNumber | bip39_ssss.py:198-216 | One prompt accepts the first positive number not yet in `share_nums`, and everything read before it was refused. If none comes, all input was read. |
| SsssConsole.ReadShareNumbers | bip39_ssss.py:194-216 | The recovery loop collects `share_nums`, equal as a set to the accepted numbers in order. It stops once it has the total or the input is exhausted. |
| SsssConsole.ReadThresholdAndSplit | bip39_ssss.py:156-173 | The threshold loop returns the first entry with 2 <= T <= total for which `mnemonic_to_shares` does not raise, with its shares. Every earlier entry was refused by the rule or made the split raise. |
| SssConsole.ReadThreshold | bip39_sss.py:92-101 | The threshold loop returns the first entry with 2 <= T < total, and every earlier entry was refused. With a total of 2 or less it accepts nothing. |
| SssConsole.ThresholdNeedsThreeShares | bip39_sss.py:91-96 | Some threshold is acceptable exactly when the total is at least 3. |
| SssConsole.StricterThanSsss | bip39_sss.py:95-96 | A threshold sss accepts is one ssss accepts (bip39_ssss.py:159-166, `2 <= T <= N`). The two disagree exactly on T == N >= 2. |
| SssShares.SplitOn | bip39_sss.py:31 | `s.split("-")` always has at least one part. |
| SssShares.SplitOnParts | bip39_sss.py:31 | No part contains the separator. |
| SssShares.SplitOnJoin | bip39_sss.py:31 | Joining the parts with the separator gives back the string. |
| SssShares.ShareHex | bip39_sss.py:31 | `split("-")[-1]` is the text after the last '-', or all of the string when it has none. It contains no '-'. |
| SssShares.NatDecimal | bip39_sss.py:45 | `f"{n}"` of a natural number is a non-empty run of decimal digits that denotes n, with a leading '0' only for 0. |
| SssShares.Decimal | bip39_sss.py:45 | `f"{n}"` starts with '-' exactly when n is negative. The digits that follow denote the absolute value of n, and no other '-' appears. |
| SssShares.DecimalInjective | bip39_sss.py:45 | Different share numbers print differently. |
| SssShares.FormatSharePrefix | bip39_sss.py:45 | `f"{num}-{hex}"` is the number's digits, one '-', then the hex. |
| SssShares.FormatShareInjective | bip39_sss.py:45 | A share string determines its share number and its hex (when the hex has no '-'). |
| SssShares.SplitOnLastPart | bip39_sss.py:31 | When b has no separator, the last part of a + sep + b is b. |
| SssShares.FormatShareRoundTrip | bip39_sss.py:45 | Taking `split("-")[-1]` of `f"{num}-{hex}"` gives hex back, for any number, negative included, as long as hex has no '-'. |
| SssShares.BytesToHexHasNoDash | bip39_sss.py:44 | `bytes.hex()` never writes '-'. |
| SssShares.PadEven | bip39_sss.py:32-33 | An odd-length hex gets exactly one leading '0'. The result has even length and keeps the input as its suffix. |
| SssShares.PadEvenValue | bip39_sss.py:32-33 | Parity padding keeps hex text hex and keeps its value. |
| SssShares.NumberedKeys | bip39_sss.py:30-36 | The dict has exactly the keys 1..N, and key k holds the share at index k-1. |
| SssShares.NumberedAppend | bip39_sss.py:36 | Adding the next share stores it under the next key, N+1. |
| SssShares.ShareToMnemonic | bip39_sss.py:31-35 | One share string becomes `ShareMnemonic`: the text after the last '-', parity padding, `fromhex`, then `FromEntropy`, each with its own error. |
| SssShares.SharesToMnemonicMap | bip39_sss.py:29-37 | The loop yields `ShareMnemonics`: every share string in order, keyed by index+1. The first failure escapes. |
| SssShares.MnemonicToShares | bip39_sss.py:20-37 | Its outcome is `SplitMnemonic`: validate, then decode, then split `entropy.hex()`, then the share loop. |
| SssShares.SplitNumbersByPosition | bip39_sss.py:30-36 | The result is keyed 1..N by position in the library's output, whatever numbers the share strings carry. Key k is the mnemonic of share k-1. |
| SssShares.ShareEntropyLength | bip39_sss.py:31-35 | `FromEntropy` receives ceil(len(hex)/2) bytes. No width is imposed. |
| SssShares.BuildShareStrings | bip39_sss.py:41-46 | The loop yields `ShareStrings`: one `f"{num}-{entropy.hex()}"` per share, in order. The first failure escapes. |
| SssShares.SharesToMnemonic | bip39_sss.py:40-50 | Its outcome is `RecoverMnemonic`: the share strings, the library's recovery, `fromhex` of the recovered hex, then `FromEntropy`. |
| SssShares.ShareStringRoundTrip | bip39_sss.py:43-45 | A built share string, read back as `mnemonic_to_shares` reads one, gives exactly the share's entropy. Parity padding leaves that hex unchanged. |
| SssShares.ShareStringOfShareMnemonic | bip39_sss.py:43-45 | For a codec whose decoder inverts its encoder, the mnemonic made from a share string is rebuilt as `"k-" + its padded hex`. |
| SssShares.SplitThenShareString | bip39_sss.py:28-46 | After a split, the mnemonic under key k is rebuilt as `"k-"` plus the library's k-th share hex with parity padding. A library share `"k-<even lower-case hex>"` is reproduced exactly. |
| SssShares.RecoverRoundTrip | bip39_sss.py:47-50 | If the library recovers the hex of the original entropy, `shares_to_mnemonic` returns the encoder's mnemonic of that entropy. |

## Left out

- The Shamir arithmetic of `ssss` and `secretsharing` is not modelled: polynomials, interpolation, modular inverses, primality, and the randomness of the coefficients. Both libraries are function parameters, so nothing is proved about which subsets recover the secret. `SplitThenRecover` and `RecoverRoundTrip` assume the recovery result.
- The BIP39 codec of `bip_utils` is a parameter: word lists, checksums and validation. `CodecRoundTrips` and `DecodeInvertsFromEntropy` state the codec behaviour the round-trip lemmas assume.
- `Bip39Mnemonic.FromString` and the `Union[Bip39Mnemonic, str]` dispatch at the top of each function are not modelled; mnemonics arrive as values of type M.
- `create_mnemonic` and `create_and_confirm` are not modelled. They are a generator call and a self-test that prints.
- Console I/O is not modelled: prompts, printing, and the word-by-word entry and confirmation loops. They have no rule beyond string equality and `isalpha`. Only the acceptance rules are extracted, with typed lines as a sequence parameter.
- SsssConsole.ReadShareNumbers: the console keeps prompting forever when no acceptable number comes. The model stops at the end of the entries and returns a short result instead.
- SssConsole.ReadThreshold: there `int(input())` is not caught, so a non-integer line ends the program. The model takes integer entries only and returns a short result when they run out.
- The `shares_total > 2` and `shares_total > 1` loops of the bip39_ssss.py console are not modelled. The same holds for the option menus and the mnemonic-length prompt of both consoles.
- SsssConsole.ReadThresholdAndSplit: the console keeps prompting when no threshold succeeds, and a non-integer line ends the program (uncaught `int(input())`). The model takes integer entries and returns no shares when they run out. Whether `mnemonic_to_shares` raises for a threshold is a parameter.
- The share-mnemonic entry loop of the bip39_ssss.py recovery console is not modelled (bip39_ssss.py:217-232). It refuses a share whose word count differs from the first share's, which is the console's guard for the first-share-only sizing of `shares_to_mnemonic` (`OnlyFirstShareSizesRecovery`). `shares_to_mnemonic` itself checks nothing.
- A secret equal to the modulus is not flagged (`ModulusSecretReachesSplit`). `mnemonic_to_shares` hands the library `int(hex, 16)` with `prime = 2^b - 1` and never checks `secret < prime`, but for the all-0xFF entropy the two are equal. Nothing here models the library's arithmetic. A library working modulo p returns a value below p, never p itself, so no such library can meet the assumption `recover(...) == Some(BigEndian(entropy))` of `SplitThenRecover` for that entropy.
- 2^b - 1 is composite for every standard b, because 3 divides it (`ModulusDivisibleByThree`). It reaches the library unchecked (bip39_ssss.py:35, 64). So `SplitThenRecover`'s recover assumption can also fail for some share subsets. For example, share numbers 1 and 4 give the Lagrange denominator 4 - 1 = 3, which has no inverse modulo 2^b - 1 (`ThreeHasNoInverse`).
- SssConsole.ReadThreshold: bip39_sss.py:91 reads `shares_total` with no lower bound, unlike the `> 2` loop at bip39_ssss.py:153. With a total of 2 or less, no integer satisfies `2 <= T < total`, so the loop at bip39_sss.py:92-101 never ends on integer input (`ThresholdNeedsThreeShares`). The model returns a short result when the entries run out.
- The base of the share number in the library's share strings is an assumption. The glue writes it in decimal (`f"{num}-…"`, bip39_sss.py:45). The exact-reproduction clause of `SplitThenShareString` holds only when the library's k-th share is `FormatShare(k, …)`, with k in decimal. A library that wrote the number in its hex charset would give "a-…" for share 10, where the glue writes "10-…".
- The bip39_sss.py recovery console stores `mnemonic_shares[input_share_num] = mnemonic`, so a repeated share number silently replaces the earlier share. That console is not modelled. `shares_to_mnemonic` receives the dict's items as a sequence of (number, mnemonic) pairs in insertion order.
- `int(s, 16)` is modelled on plain hex digits. Python also accepts a sign, a `0x` prefix, single underscores between digits, and surrounding whitespace. The call sites only pass text written by `bytes.hex()`.
- `bytes.fromhex` is modelled on plain hex digits. Python also skips ASCII whitespace between byte pairs. The call sites only pass text written by `format`, `safe_pad_hex`, the parity padding or the libraries.
- `int(entropy_bit_len / 4)` uses floating-point division in the source. It is modelled as integer division, which agrees for every bit length below 2^53.
- The share strings returned by `SecretSharer.split_secret` and the hex returned by `recover_secret` are unconstrained parameters. Their format depends on the library, which is not part of this model. One consequence sits outside the model: the recovered hex is passed to `bytes.fromhex` unpadded (bip39_sss.py:48). If the library drops leading zero digits, recovery of entropy that starts with a zero digit depends on that library.
