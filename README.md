# Bitbi proof of work and amount units in Dafny

This project models the consensus core of Bitbi, a Bitcoin-derived node that
hashes block headers with RandomX, together with the wallet's amount
formatting. It covers the following:

- **Proof-of-work check** (`src/pow.cpp`): `CheckProofOfWork` compares a
  256-bit hash with the target that the compact `nBits` encode.
- **Retargeting**: `CalculateNextWorkRequired` retargets once per adjustment
  interval, and `GetNextWorkRequired` picks the bits the next block must
  carry, including the testnet minimum-difficulty rule.
- **Transition bound**: `PermittedDifficultyTransition` limits a target
  change to a factor of four at an adjustment and forbids any change between
  adjustments.
- **Full header check**: `CheckProofOfWorkX` hashes the 80-byte header
  pre-image under the key of the header's epoch. The epoch is the block time
  divided by 345678 seconds.
- **Miner** (`src/pow.h`, `src/pow.cpp`): `RxWorkMiner` splits the dataset
  initialisation among eight workers. Its `Mine` loop tries successive
  nonces until a hash is at or below the target.
- **Amounts** (`src/consensus/amount.h`): the constants `COIN`,
  `INITIAL_REWARD`, `DROP_DIVISOR` and `MAX_MONEY`, and `MoneyRange`.
- **Units** (`src/qt/bitbiunits.cpp`): the four display units with their
  factors, decimals and names. This includes `format` (sign, justified and
  thin-space-grouped integer part, zero-padded fraction), `formatWithPrivacy`,
  `parse`, and the stream codes `ToQint8`/`FromQint8`.

Data model:

- `arith_uint256` is a natural number below 2^256. `uint256` is 32 bytes read
  little-endian (`Arith256`).
- The compact form (`Compact`) follows the upstream `SetCompact`/`GetCompact`
  of Bitcoin Core, including the negative and overflow flags.
- C++ integer behaviour is written out where it matters (`Ints`):
  - truncating `/` and `%` (`CDiv`, `CRem`);
  - 64-bit wrap-around (`WrapInt64`);
  - the conversion of an `int64_t` factor to `uint32_t`, which happens in
    `arith_uint256::operator*=(uint32_t)` (`RetargetFactor`, `ScaledTarget`).
- The QString operations the formatter uses are in `QtString`.

Structure:

- Pure code is modelled as functions and lemmas.
- Code that updates state step by step is modelled as methods proved against
  those functions:
  - the thin-space insertion loop;
  - the dataset partition loop;
  - the walk back along the chain in `GetNextWorkRequired`;
  - the nonce loop of `RxWorkMiner::Mine`, which writes into an 80-byte
    `array`.
- `RxWorkMiner` is a class. Its fields are the header it mines, the RandomX
  key, and the item ranges of its dataset workers.

Modules:

| file | module | contents |
|---|---|---|
| ints.dfy | Ints | fixed-width ranges, C++ division, 64-bit wrap, little-endian words |
| arith256.dfy | Arith256 | 256-bit values, byte length, uint256 and arith_uint256 conversions |
| compact.dfy | Compact | the compact nBits codec and its rounding |
| header.dfy | Header | block header, 80-byte hash input, epoch key input |
| pow.dfy | Pow | consensus parameters and the proof-of-work rules |
| miner.dfy | Miner | checkPow, hash bytes, dataset partition, RxWorkMiner |
| amount.dfy | Amount | amount constants and MoneyRange |
| qstring.dfy | QtString | QString number rendering, parsing, padding, splitting |
| units.dfy | Units | BitbiUnits: units, format, parse, privacy |

## Model

| member | source | states |
|---|---|---|
| Amount.ConstantValues | src/consensus/amount.h:14-29 | COIN is 10^8 satoshis, INITIAL_REWARD is 10^12, and MAX_MONEY is 2.1 * 10^18 (21 billion coins); `210 * COIN * COIN` does not overflow int64 |
| Amount.MoneyRangeMeaning | src/consensus/amount.h:30 | an amount is in range exactly when 0 <= v <= MAX_MONEY; only zero is in range together with its negation |
| Amount.MoneyRangeBoundaries | src/consensus/amount.h:29-30 | 0 and MAX_MONEY are in range; -1 and MAX_MONEY + 1 are not |
| Amount.SumOfTwoFits | src/consensus/amount.h:20-30 | the sum of two in-range amounts cannot overflow int64 |
| Amount.MoneyRange | src/consensus/amount.h:30 | the range predicate itself; Amount.MoneyRangeMeaning and Amount.MoneyRangeBoundaries state what it accepts |
| Ints.WrapInt64 | src/qt/bitbiunits.cpp:93 | the result is congruent to x mod 2^64, and equals x when x fits in int64 |
| Ints.CDiv | src/qt/bitbiunits.cpp:94 | C++ truncating division: the floor for non-negative dividends, never positive for negative ones |
| Ints.CRem | src/qt/bitbiunits.cpp:114 | C++ remainder: a == b * CDiv(a, b) + r, with abs(r) < b and r taking the dividend's sign |
| Ints.ReadWriteLE32 | src/pow.cpp:376-381 | reading back four little-endian bytes written by WriteLE32 gives the word |
| Ints.WriteReadLE32 | src/pow.cpp:376-381 | every four bytes are the WriteLE32 image of the word they encode |
| Ints.Int32RoundTrip | src/pow.cpp:376 | the int32 version survives its conversion to the uint32 that WriteLE32 takes |
| Arith256.UintToArith256 | src/pow.cpp:145-149 | reading a uint256 as a number is inverted by writing it back |
| Compact.SetCompact | src/pow.cpp:142 | a zero mantissa decodes to the zero target with neither flag, whatever the size and sign; the overflow flag is raised only for sizes above 32 |
| Compact.GetCompact | src/pow.cpp:82 | the encoding never sets the sign bit, and zero encodes as zero |
| Compact.OverflowFlagExact | src/pow.cpp:142-146 | for sizes above 3, SetCompact raises the overflow flag exactly when the mantissa shifted into place reaches 2^256, and without the flag the value is that shifted mantissa |
| Compact.DecodeEncode | src/pow.cpp:111-112 | SetCompact(GetCompact(x)) is x with the bytes below the 23-bit mantissa cleared, and is neither negative nor overflowing |
| Compact.CompactRoundsDown | src/pow.cpp:82 | re-encoding a target never makes it easier: the decoded value is at most x and carries no flag |
| Compact.CompactMonotone | src/pow.cpp:109-129 | rounding through the compact form preserves the order of targets |
| Compact.CompactExact | src/pow.cpp:27 | a value whose significant part fits in the mantissa survives the compact form unchanged |
| Compact.EncodedParts | src/pow.cpp:82 | GetCompact(x) is a size byte times 2^24 plus a mantissa below the sign bit; the mantissa is x shifted to its top bytes, at least 2^15 for nonzero x, and the size is at most 33 |
| Header.PreimagePrefix | src/pow.cpp:651-656 | the first 76 bytes of the hash input have a fixed length independent of the nonce |
| Header.PreimageLayout | src/pow.cpp:375-381 | the 80-byte input holds version, previous hash, merkle root, time, bits and nonce at offsets 0, 4, 36, 68, 72 and 76 |
| Header.ParseOfPreimage | src/pow.cpp:375-381 | the header is recovered from its 80-byte input, so distinct headers have distinct inputs |
| Header.PreimageOfParse | src/pow.cpp:375-381 | every 80 bytes are the input of the header read from them |
| Header.PreimageWithNonce | src/pow.cpp:674 | changing the nonce rewrites only bytes 76-79 of the input |
| Header.Epoch | src/pow.cpp:371 | the epoch e of a block time t satisfies e * 345678 <= t < (e + 1) * 345678 |
| Header.KeyPreimage | src/pow.cpp:637-640 | the serialised key input is 16 bytes |
| Header.KeyPreimageShared | src/pow.cpp:369-372 | headers that agree on version and bits and whose times fall in the same epoch share the key input, whatever their nonce, previous hash or merkle root |
| Header.KeyPreimageDetermines | src/pow.cpp:637-640 | the key input determines version, epoch and bits |
| Pow.DifficultyAdjustmentInterval | src/pow.cpp:30 | the interval is at least one block and counts the whole spacings in the timespan |
| Pow.CheckProofOfWork | src/pow.cpp:136-153 | a passing hash is never above the proof-of-work limit, and its bits carry a nonzero mantissa |
| Pow.CheckProofOfWorkMeaning | src/pow.cpp:136-153 | the check passes exactly when the target is not negative, not zero, not overflowing and not above the limit, and the hash does not exceed it |
| Pow.BadTargetRejectsAll | src/pow.cpp:145-146 | an unusable target rejects every hash |
| Pow.TargetIsInclusive | src/pow.cpp:149-152 | a hash equal to the target passes and the hash one above it fails |
| Pow.SmallerHashPasses | src/pow.cpp:149-152 | a hash no larger than a passing one passes too |
| Pow.ClampTimespan | src/pow.cpp:65-69 | the timespan is clamped into [S/4, 4S], and one already inside is unchanged |
| Pow.RetargetFactor | src/pow.cpp:77 | within the clamp the 32-bit truncation of timespan * 2048 / S loses nothing, and the factor is at most 8192 |
| Pow.RetargetTarget | src/pow.cpp:72-80 | the new target never exceeds the limit, and without wrap-around it is min(limit, floor(T * factor / 2048)) |
| Pow.RetargetBits | src/pow.cpp:59-82 | with retargeting on, the new bits decode without either flag to at most the unrounded retarget target |
| Pow.CalculateNextWorkRequired | src/pow.cpp:59-83 | with retargeting off the bits are unchanged; otherwise they decode to a target that is not negative, not overflowing and not above the limit |
| Pow.TimespanBeyondBounds | src/pow.cpp:66-69 | a timespan beyond either clamp bound retargets exactly as the bound does |
| Pow.RetargetDoubleTimespan | src/pow.cpp:74-82 | blocks that took twice the intended time double the target, up to the limit |
| Pow.ScaledTarget | src/pow.cpp:100-107 | the scaled bound used by the check never exceeds the limit |
| Pow.MinDifficultyPermitsAll | src/pow.cpp:89 | on min-difficulty networks every transition is permitted |
| Pow.PermittedDifficultyTransition | src/pow.cpp:87-134 | the transition rule; Pow.MinDifficultyPermitsAll, Pow.OffBoundaryPermittedIffEqual and Pow.BoundaryPermittedIffInWindow state what it accepts |
| Pow.OffBoundaryPermittedIffEqual | src/pow.cpp:130-133 | between adjustments a transition is permitted exactly when the bits are unchanged |
| Pow.BoundaryPermittedIffInWindow | src/pow.cpp:91-129 | at an adjustment a transition is permitted exactly when the new target lies between the rounded minimum and maximum |
| Pow.FactorBounds | src/pow.cpp:66-77 | within the clamp the retarget factor lies in [512, 8192] |
| Pow.ScaledWithinFour | src/pow.cpp:77-78 | T * f / 2048 lies between T / 4 and 4T for a factor in [512, 8192] |
| Pow.ScaledByTimespan | src/pow.cpp:102-119 | scaling by 4S / S and by (S/4) / S gives 4T and at most T / 4 |
| Pow.ScaledTargetNoWrap | src/pow.cpp:100-107 | without wrap-around the check's bound is min(limit, T * timespan / S) |
| Pow.RetargetWithinBounds | src/pow.cpp:59-129 | the retargeted target lies between the check's two unrounded bounds |
| Pow.RetargetIsPermitted | src/pow.cpp:59-134 | what CalculateNextWorkRequired produces at an adjustment is accepted by PermittedDifficultyTransition |
| Pow.LastRegularBlock | src/pow.cpp:42-45 | the block the walk stops at is genesis, at an adjustment, or without the limit bits, and every block skipped was none of these |
| Pow.BoundaryHasFullInterval | src/pow.cpp:52-53 | a height just before an adjustment has a whole interval behind it |
| Pow.GetNextWorkRequired | src/pow.cpp:24-57 | the bits are those of the last block off an adjustment; on min-difficulty networks they are the limit after a slow block or those of the last regular block; at an adjustment they are CalculateNextWorkRequired over the interval's first block |
| Pow.CheckProofOfWorkXNonce | src/pow.cpp:367-388 | the header check depends on the nonce only through the last four bytes of the hash input, with the key and target fixed |
| Pow.CheckProofOfWorkX | src/pow.cpp:367-388 | a header that passes has a hash of its input under its epoch key at or below the limit, and bits with a nonzero mantissa |
| Miner.CheckPowIsCheckProofOfWork | src/pow.h:85-88 | against a usable target, CheckProofOfWork is checkPow on the decoded target |
| Miner.HashBytesToUint256 | src/pow.h:50-54 | the 32 result bytes become the uint256 whose value is their little-endian reading |
| Miner.PartitionDataset | src/pow.h:116-134 | each of nThreads workers gets itemCount / nThreads items and the last also gets the remainder, each starting where the previous ended (32-bit start); one thread gets everything |
| Miner.NextStart | src/pow.h:126 | advancing the 32-bit start by one share gives the next worker's start |
| Miner.SplitSumsToItemCount | src/pow.h:120-126 | the workers' counts add up to the dataset item count |
| Miner.SplitBounds | src/pow.h:120-126 | without wrap-around, worker i starts at i * share and ends where the next begins, and the last ends at the item count |
| Miner.SplitCoversOnce | src/pow.h:116-131 | when the item count fits in 32 bits every item is initialised by exactly one worker and no worker goes past the end |
| Miner.SplitDisjoint | src/pow.h:120-126 | an earlier worker's range ends before a later one's begins |
| Miner.SplitCoversItem | src/pow.h:120-126 | every item below the count is in some worker's range |
| Miner.NonceStep | src/pow.cpp:674-688 | the post-increment of the uint32 nonce steps from one attempt to the next, and `nonce - 1` steps back to the nonce last hashed |
| Miner.RxWorkMiner.constructor | src/pow.h:89-144 | the miner keeps the header and the key, and its dataset ranges are the split among N_THREADS workers |
| Miner.RxWorkMiner.FromHeader | src/pow.h:149-150 | the key is the double SHA-256 of the header's key input |
| Miner.RxWorkMiner.Mine | src/pow.cpp:645-689 | shutdown was not requested before any attempt made; on success the nonce is the one last hashed, the hash is RandomX of the header with that nonce, and it meets the target; every earlier attempt failed the target; a shutdown return follows a request |
| Miner.RxWorkMiner.Attempt | src/pow.cpp:674-685 | one attempt hashes the header with the k-th nonce, and the whole buffer is then the hash input of the header with that nonce, its first 76 bytes unchanged |
| Miner.PrefixBuffer | src/pow.cpp:651-656 | the buffer is 80 fresh bytes: the header's fields in the first 76 and zeros in the nonce bytes, that is the hash input of the header with nonce 0 |
| Miner.WritePrefix | src/pow.cpp:652-656 | writing version, previous hash, merkle root, time and bits fills the first 76 bytes with the header's fields and leaves the nonce bytes as they were |
| Miner.WriteNonce | src/pow.cpp:674 | writing the nonce completes the buffer to the hash input of the header with that nonce |
| Miner.WriteLE32 | src/pow.cpp:652-656 | four little-endian bytes replace the buffer at the offset and nothing else changes |
| Miner.CopyBytes | src/pow.cpp:653-654 | the 32 bytes replace the buffer at the offset and nothing else changes |
| Miner.MinedHeaderPasses | src/pow.cpp:367-388 | a header Mine reports, with its nonce, passes CheckProofOfWorkX whenever its bits are a usable target |
| QtString.NumberToString | src/qt/bitbiunits.cpp:95 | QString::number writes at least one decimal digit and no leading zero |
| QtString.Number | src/qt/bitbiunits.cpp:95-115 | a negative value is written as '-' followed by the digits of its magnitude |
| QtString.NumberToStringValue | src/qt/bitbiunits.cpp:95 | the digits written read back as the number |
| QtString.NumberToStringLength | src/qt/bitbiunits.cpp:183-186 | the number has at most k digits exactly when it is below 10^k |
| QtString.DigitsValueAppend | src/qt/bitbiunits.cpp:181 | digits written after digits shift the first value by the second's length |
| QtString.DigitsValueZeros | src/qt/bitbiunits.cpp:181 | a run of zeros stands for zero |
| QtString.RightJustified | src/qt/bitbiunits.cpp:97-115 | rightJustified pads on the left up to the width and keeps the string as its suffix |
| QtString.LeftJustified | src/qt/bitbiunits.cpp:181 | leftJustified pads on the right up to the width and keeps the string as its prefix |
| QtString.Replace | src/qt/bitbiunits.cpp:148 | every occurrence of one character is replaced and every other character kept |
| QtString.EighteenDigitsFit | src/qt/bitbiunits.cpp:183-186 | at most 18 digits stand for a value below 10^18 |
| QtString.ToLongLongOfDigits | src/qt/bitbiunits.cpp:187 | toLongLong reads an optional sign and digits back as the signed value whenever it fits in int64 |
| QtString.ToLongLongRefusesOutOfRange | src/qt/bitbiunits.cpp:187 | toLongLong refuses an optional sign and digits whose signed value lies outside int64 |
| QtString.ToLongLongOfSignedDigits | src/qt/bitbiunits.cpp:187 | for an optional sign followed by digits, toLongLong gives the signed value exactly when it fits in int64 and refuses it otherwise |
| QtString.ToLongLongSound | src/qt/bitbiunits.cpp:187 | whatever toLongLong accepts is an optional sign followed by at least one digit, and the value is their signed value |
| QtString.Split | src/qt/bitbiunits.cpp:163 | split keeps empty parts: one more part than separators |
| QtString.SplitJoin | src/qt/bitbiunits.cpp:163 | no part holds the separator, and joining the parts with it gives back the string |
| QtString.SplitWithoutSeparator | src/qt/bitbiunits.cpp:163 | a string without the separator splits into itself alone |
| QtString.SplitInverse | src/qt/bitbiunits.cpp:163 | two separator-free strings joined by the separator split back into the two |
| Units.Decimals | src/qt/bitbiunits.cpp:75-84 | no unit has more than eight decimals |
| Units.Factor | src/qt/bitbiunits.cpp:64-73 | each unit's factor is ten to its number of decimals, and BTB's is COIN |
| Units.LongName | src/qt/bitbiunits.cpp:31-40 | the long name of each unit; Units.LongNamesDistinct states that they differ |
| Units.LongNamesDistinct | src/qt/bitbiunits.cpp:31-40 | different units have different long names |
| Units.ShortName | src/qt/bitbiunits.cpp:42-51 | every symbol is non-empty and holds no digit |
| Units.ShortNamesDistinct | src/qt/bitbiunits.cpp:31-51 | different units have different symbols |
| Units.ToQint8 | src/qt/bitbiunits.cpp:232-241 | every unit has a stream code between 0 and 3 |
| Units.Qint8RoundTrip | src/qt/bitbiunits.cpp:232-252 | ToQint8 and FromQint8 are inverse bijections between the units and the codes 0-3 |
| Units.FromQint8 | src/qt/bitbiunits.cpp:243-252 | the unit read from a code in 0-3 is written back as that code |
| Units.FormatSpec | src/qt/bitbiunits.cpp:86-120 | the text format is meant to give, built from the magnitude of n; Units.FormatSign, Units.FormatFraction, Units.FormatQuotient and Units.ParseOfFormat state its properties |
| Units.Format | src/qt/bitbiunits.cpp:86-120 | format builds the sign, the justified and grouped quotient, and the padded remainder of the magnitude of n divided by the unit's factor |
| Units.JustifyAndGroup | src/qt/bitbiunits.cpp:96-106 | the integer part is right-justified on request, then grouped when separators are always wanted or when the standard style sees more than four characters |
| Units.InsertThinSpaces | src/qt/bitbiunits.cpp:103-106 | inserting a thin space every three characters counted from the right gives the grouped text |
| Units.GroupedFromRight | src/qt/bitbiunits.cpp:105-106 | grouping a text longer than three puts one thin space before its last three characters and groups the rest |
| Units.GroupedLength | src/qt/bitbiunits.cpp:105-106 | grouping a text of length L adds (L - 1) / 3 thin spaces |
| Units.QuotientTextChars | src/qt/bitbiunits.cpp:96-106 | justification and grouping add only spaces and thin spaces |
| Units.RemoveSpacesQuotient | src/qt/bitbiunits.cpp:96-163 | removing spaces and thin spaces from the justified, grouped integer part gives back its digits |
| Units.FormatSign | src/qt/bitbiunits.cpp:108-111 | the text starts with '-' exactly for a negative amount and with '+' exactly for a positive one when the plus sign is asked for |
| Units.FormatFraction | src/qt/bitbiunits.cpp:113-119 | for a unit with decimals the text ends in a point and exactly that many digits reading as the magnitude of n mod factor; otherwise it has no point |
| Units.FormatQuotient | src/qt/bitbiunits.cpp:93-106 | between the sign and the fraction, without its spaces, the text is the digits of the magnitude of n / factor |
| Units.FormatAsWrittenAgrees | src/qt/bitbiunits.cpp:86-120 | for every amount above INT64_MIN the C++ arithmetic gives the same text as the corrected format |
| Units.FormatAsWritten | src/qt/bitbiunits.cpp:86-120 | the text as the C++ arithmetic builds it, with `-n` wrapping at INT64_MIN; Units.FormatAsWrittenAgrees and Units.FormatMinInt64DoubleSign state where it differs |
| Units.FormatMinInt64DoubleSign | src/qt/bitbiunits.cpp:93-109 | the format as written renders INT64_MIN in satoshis with two minus signs; the corrected one with one |
| Units.ParseText | src/qt/bitbiunits.cpp:155-181 | empty text and text with more than one point are refused |
| Units.ParseTextOfFraction | src/qt/bitbiunits.cpp:163-181 | text with one point refuses a fraction longer than the unit's decimals, and otherwise joins the integer digits with the fraction padded with zeros |
| Units.ParseTextOfWhole | src/qt/bitbiunits.cpp:163-181 | text without a point has the unit's number of zeros appended |
| Units.ParseOfDigitText | src/qt/bitbiunits.cpp:180-192 | once the split yields a sign and digits, parse gives their signed value when it fits in int64 and refuses it otherwise |
| Units.ParseDecimal | src/qt/bitbiunits.cpp:155-193 | for a sign, whole digits, a point and at most the unit's decimals, parse gives the whole units plus the fraction scaled to satoshis, or refuses when that leaves int64 |
| Units.ParseWhole | src/qt/bitbiunits.cpp:155-193 | for a sign and whole digits without a point, parse gives that many units in satoshis, or refuses when that leaves int64 |
| Units.WholeAndFractionValue | src/qt/bitbiunits.cpp:181 | the whole digits followed by the fraction padded to d places read as the decimal whole.frac counted in steps of 10^-d |
| Units.GuardRefusesLeadingZeros | src/qt/bitbiunits.cpp:183-186 | eighteen or more zeros before a 1 are refused by the guarded parse, although the corrected parse reads them as one satoshi |
| Units.ParseAsWritten | src/qt/bitbiunits.cpp:155-193 | whatever the split refuses, the guarded parse refuses, and so it does every digit string longer than 18 characters |
| Units.Parse | src/qt/bitbiunits.cpp:155-193 | the corrected parse refuses what the split refuses, and agrees with the guarded parse wherever that one succeeds |
| Units.ParseOneAndAHalf | src/qt/bitbiunits.cpp:155-193 | "1.5" in BTB parses as 150000000 satoshis |
| Units.ParseTextOfFormat | src/qt/bitbiunits.cpp:86-181 | the digit string parse builds from a formatted amount is its sign followed by the digits of the magnitude of n |
| Units.AmountDigitsValue | src/qt/bitbiunits.cpp:94-181 | the quotient digits followed by the padded remainder digits read as the magnitude of n |
| Units.ParseOfFormat | src/qt/bitbiunits.cpp:86-193 | parse reads back every formatted amount, whatever the unit, sign, separators and justification |
| Units.ParseAsWrittenOfFormat | src/qt/bitbiunits.cpp:183-187 | the guarded parse reads back every formatted amount of magnitude below 10^17 |
| Units.AmountDigitsLength | src/qt/bitbiunits.cpp:183 | an amount below 10^17 has at most 17 digits in any unit |
| Units.ParseAsWrittenRefusesLarge | src/qt/bitbiunits.cpp:183-186 | the guarded parse refuses the text of every amount of magnitude 10^18 or more |
| Units.MaxMoneyNotParsed | src/qt/bitbiunits.cpp:183-186 | MAX_MONEY is a valid amount whose BTB text the guarded parse refuses and the corrected parse reads back |
| Units.ZeroFormatChars | src/qt/bitbiunits.cpp:148 | the justified zero amount is written only with '0', spaces, thin spaces and the point |
| Units.FormatWithPrivacy | src/qt/bitbiunits.cpp:143-153 | the formatted, justified amount followed by a space and the unit symbol, with digits masked in privacy mode; Units.PrivacyHidesAmount and Units.PrivacyOffShowsAmount state its properties |
| Units.PrivacyHidesAmount | src/qt/bitbiunits.cpp:143-153 | in privacy mode the text is the same for every amount, holds no digit, and is the zero amount's text with its zeros masked as '#' |
| Units.PrivacyOffShowsAmount | src/qt/bitbiunits.cpp:143-153 | outside privacy mode, the text before the space and the unit symbol parses back as the amount |

## Left out

- RandomX (`randomx_calculate_hash`, the cache, the dataset and the VM) is a function parameter `rx` from key and input to 32 bytes. Allocating RandomX memory, its failure paths, and the CPU feature flags are not modelled.
- The double SHA-256 of the key input (`CHashWriter::GetHash`, `sha256dKeyBlock`) is a function parameter `keyHash`. `doubleSHA256`, `doubleSHA256OpenSSL`, `sha256d`, `sha256_transform`, `bin2hex`, `hexStr` and `JustCheck` are left out: they are hashing and hex helpers, and the proofs do not depend on them.
- The `RxWorkVerifier` classes, the `SyncStack` of verifier contexts, and the mutexes are concurrency and resource management. Only the hash they return is modelled, as `rx`.
- The shutdown callback becomes a function `shutdown(k)` of the attempt index. The 20000-hash timing report, `Stopwatch`, `LogPrintf` and `std::cout` are left out as I/O.
- Miner.RxWorkMiner.Mine: bounded by a `fuel` count of attempts, where the source loops until a hash meets the target. The outcome `OutOfFuel` exists only in the model.
- Miner.PartitionDataset: the worker threads are replaced by recording each worker's range. `randomx_init_dataset` and the joins are not modelled.
- `arith_uint256.cpp` is not part of this model. `SetCompact`, `GetCompact` and `operator*=(uint32_t)` are written from Bitcoin Core's documented behaviour.
- `CBlockIndex` is reduced to height, bits and time. The chain is a sequence indexed by height, which stands in for `pprev` and `GetAncestor`.
- Pow.ValidParams: the parameters are assumed consistent (positive spacing no longer than the timespan, and a timespan small enough that 4 * timespan * 2048 fits in int64). The source takes this from its chain parameters and does not check it.
- Pow.RetargetIsPermitted: proved only when the timespan is a multiple of 4, 4S fits in 32 bits, and the old target is small enough that neither the retarget nor the check wraps at 2^256. Outside these hypotheses the property is not stated.
- Pow.CalculateNextWorkRequired: requires that the time difference fits in int64, as it does for any uint32 block time.
- `qt/bitbiunits.h` is not part of this model. Its `removeSpaces` is modelled as removing ASCII spaces and U+2009 thin spaces.
- QtString.ToLongLong: the leading and trailing whitespace that `QString::toLongLong` tolerates is not modelled. Parse removes the spaces first, so only other whitespace characters are affected.
- Units.Parse: `val_out` is not modelled. On failure, the source may still write the value toLongLong returned, and the model returns `None` there.
- `description`, `formatWithUnit`, `formatHtmlWithUnit`, `getAmountColumnTitle`, `rowCount`, `data`, `maxMoney`, `availableUnits` and the `QDataStream` operators are left out. They are Qt model and stream plumbing, or wrappers that add only fixed text.
- Units.FormatWithPrivacy: the `assert(amount >= 0)` is a precondition.
- Units.FromQint8: the `assert(false)` for a code outside 0-3 (src/qt/bitbiunits.cpp:243-252) is a precondition `0 <= num <= 3`; the stream operator that calls it is not modelled.
- Units.Format: models the evidently intended `|n|` (see Findings). The C++ arithmetic at INT64_MIN is `FormatAsWritten`.

## Findings

| source | as written | input that shows it | evidently intended | confidence | as-written member | corrected member |
|---|---|---|---|---|---|---|
| src/qt/bitbiunits.cpp:93-109 | `n_abs = -n` overflows for INT64_MIN. In C++ that is undefined behaviour; the model assumes two's-complement wrap-around, which leaves the value negative, so the quotient is rendered with its own '-' and a second '-' is inserted for n < 0 | format(SAT, INT64_MIN, false, NEVER, false) gives "--9223372036854775808" | the magnitude of n, giving "-9223372036854775808" | not executed; low impact, since only INT64_MIN is affected | Units.FormatAsWritten, Units.FormatMinInt64DoubleSign | Units.Format, Units.FormatAsWrittenAgrees |
| src/qt/bitbiunits.cpp:183-186 | parse refuses any digit string longer than 18 characters, on the grounds that longer numbers exceed 63 bits, but MAX_MONEY is 2.1 * 10^18 satoshis (19 digits) | parse(BTB, "21000000000.00000000") is refused, although 2100000000000000000 is in MoneyRange and fits in int64 | refuse only values that do not fit in int64, which toLongLong already reports | not executed; medium, since the guard predates MAX_MONEY being 1000 times Bitcoin's | Units.ParseAsWritten, Units.ParseAsWrittenRefusesLarge, Units.MaxMoneyNotParsed, Units.GuardRefusesLeadingZeros | Units.Parse, Units.ParseOfFormat |
