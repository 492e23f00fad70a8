# Verification of the relay, the simulator and the contract tools

A Dafny 4.11 model of six parts of the Omniphi repository, with proofs of what they promise.
`dafny verify dfyconfig.toml` checks everything.

- `DepositPoll`: the Ethereum deposit watcher as a class with its block cursor, driven by arbitrary
  heads, log answers and submission failures, over a chain of confirmed logs.
- `AbiCodec`, `Bytes`: the packed withdrawal message, the `withdraw` calldata and the Deposit event
  data, with big-endian numbers as `math/big` writes and reads them.
- `NumberTheory`, `Secp256k1`, `CurveGroup`, `Ecdsa`, `EcdsaRecovery`: the relay's own curve
  arithmetic, from modular inverses to recovery of the signer.
- `RealArith`, `Inequality`, `RewardMult`, `Ledger`, `Metrics`, `Simulation`: the tokenomics epoch
  loop over validator objects, its ledger, its multiplier normaliser, its Gini coefficient and the
  figures it records.
- `Strings`, `Numerals`, `TextForms`, `ContractSchema`, `SchemaValidator`, `SchemaCompiler`,
  `ConstraintEvaluator`, `ConstraintTester`: the contract toolkit, down to the texts it reads.
  Validation passes push into a shared message list; the tester evaluates constraints.
- `IntegerMath`, `AmmPool`, `Lending`, `QuantisedModel`, `Faucet`: the two constraint contracts, the
  governance model's integer inference, and the faucet's interleaved rate limiter.

Hypotheses are stated in the contracts. `ValidCurve` says that p is a prime that is 3 modulo 4 and
that x^3 + b has no root, `PrimeOrderGroup` that addition is associative and the prime n kills every
point; `SigningCurve` adds the sizes of secp256k1, which `Secp256k1Constants` checks. `Numbered` and
`StableRun` say that logs carry their block's number and that confirmed logs do not change. 2^256 is
read from its bytes (`Bytes.WordBase`), so that it enters proofs as a symbol.
`Admissible` lists the parameter ranges of the simulator, `KeepsStake` those under which something
always stays staked.

Where the code and its own comments disagree the code is modelled:

- A failed mint ends the batch at once (bridge/ethereum/relay/relay.go:265-270), although the comment there speaks of
  continuing with other deposits.
- `BatchSize` caps blocks, not events (bridge/ethereum/relay/relay.go:240-243,
  bridge/ethereum/relay/config.go:41).
- The recovery id is the parity of R.y when signing, but recovery takes it to select r + n, and it
  is not adjusted when s is replaced by n - s (bridge/ethereum/relay/relay.go:1074-1086, 1275-1279).
  `RecoveryExact` gives the exact condition under which the signer comes back.
- Repayments are not checked for collateral, interest or price, nor deposits for interest or price
  (contract-sdk/examples/lending.rs:83-105, 139-163). `SafeIff` says what a caller has to keep.
- The governance score divides toward zero, while its documentation divides with floor;
  `DocumentedScoreIff` says when the two agree.

## Model
| member | source | states |
|---|---|---|
| DepositPoll.BlockRange | bridge/ethereum/relay/relay.go:237-243 | in 64-bit arithmetic a batch ends at the confirmed block or after BatchSize blocks, whichever comes first, and is never empty |
| DepositPoll.Relay.constructor | bridge/ethereum/relay/relay.go:163-179 | the cursor starts one below the configured block, or at the current head |
| DepositPoll.Relay.EthGetLogs | bridge/ethereum/relay/relay.go:295-332 | the deposits of the logs that are not removed and parse, in log order; no result when the parser stops |
| DepositPoll.Relay.PollEthDeposits | bridge/ethereum/relay/relay.go:226-276 | new cursor, every attempted and every successful submission and the result, for any head, log answer and point of failure: the cursor moves only when the whole batch succeeded |
| DepositPoll.DepositsIff | bridge/ethereum/relay/relay.go:316-329 | the deposits of a list are exactly the parses of the logs at the positions that are neither removed nor unparseable: all of them, none twice, in order |
| DepositPoll.PollSubmitsKept | bridge/ethereum/relay/relay.go:232-276 | a poll submits those events in order, the first `accepts` of them with success and one more without, and moves the cursor if and only if none is left |
| DepositPoll.CursorMonotone | bridge/ethereum/relay/relay.go:232-243 | over any run the cursor never falls and moves at most one batch a poll |
| DepositPoll.CompletedBatchesAreTheRange | bridge/ethereum/relay/relay.go:244-276 | with stable confirmed logs the completed batches of a run, end to end, are exactly the deposits of the blocks passed: none skipped, none twice, in order |
| DepositPoll.NoDepositSkipped | bridge/ethereum/relay/relay.go:244-276 | every log of a block in (start, lastEthBlock] that is not removed and parses has been submitted successfully at least once |
| DepositPoll.AttemptsAreAnswered | bridge/ethereum/relay/relay.go:249-265 | every attempt is the parse of an answered log that is not removed, and with stable logs of one in the next blocks of the chain |
| DepositPoll.AttemptsAboveCursor | bridge/ethereum/relay/relay.go:232-265 | a poll attempts only deposits above its cursor, within one batch and at most the confirmed block |
| DepositPoll.NoResubmission | bridge/ethereum/relay/relay.go:232-276 | no later poll attempts a deposit at or below the cursor |
| DepositPoll.RepeatsNeedFailure | bridge/ethereum/relay/relay.go:256-276 | a deposit is attempted by two polls only if the earlier one did not complete |
| DepositPoll.DepthGuard | bridge/ethereum/relay/relay.go:232-243 | for every configuration, head and cursor with something to query: every poll leaves the cursor where it is or at most at head minus EthConfirmations, if and only if the head is at least EthConfirmations |
| DepositPoll.DepthRespected | bridge/ethereum/relay/relay.go:232-243 | with heads at least EthConfirmations no run submits above the largest head minus EthConfirmations |
| DepositPoll.ShallowHeadSkipsBlocks | bridge/ethereum/relay/relay.go:232-243 | for every depth, batch, shallower head and start: an empty answer moves the cursor past block start + 1, and no later poll submits its deposits |
| DepositPoll.RestartRepeats | bridge/ethereum/relay/relay.go:171-179 | a relay restarted at or below its old cursor submits exactly the blocks in between again |
| DepositPoll.RestartSkips | bridge/ethereum/relay/relay.go:171-179 | one restarted above its old cursor skips exactly the blocks in between |
| DepositPoll.FailureFreeProgress | bridge/ethereum/relay/relay.go:239-243 | a failure-free poll shrinks the gap to the confirmed head by exactly min(gap, BatchSize) |
| DepositPoll.CatchUp | bridge/ethereum/relay/relay.go:239-276 | n failure-free polls leave gap - min(gap, n*BatchSize), so a fixed head is reached if and only if n >= ceil(gap/BatchSize) |
| AbiCodec.SolidityPack | bridge/ethereum/relay/relay.go:1135-1166 | the six fields at 32, 20, 20, 32, 20 and 32 bytes; stops on an amount over 256 bits |
| AbiCodec.PackedFields | bridge/ethereum/relay/relay.go:1135-1166 | each field lies at its own offset and reads back as its number or its 20 bytes |
| AbiCodec.AddressValue | bridge/ethereum/relay/relay.go:1098-1230 | an address is its decoded number modulo 2^160 |
| AbiCodec.PackedInjective | bridge/ethereum/relay/relay.go:1135-1166 | two withdrawals pack alike if and only if nonce and 20-byte addresses agree and chain id and amount agree up to sign |
| AbiCodec.PackedDetermines | bridge/ethereum/relay/relay.go:1135-1166 | on non-negative amounts and chain ids and full addresses packing is injective |
| AbiCodec.PackedSignCollision | bridge/ethereum/relay/relay.go:502-506 | every withdrawal with a positive amount packs like the one with the opposite amount; the burn search reads the amount without a sign check |
| AbiCodec.EncodeWithdrawCall | bridge/ethereum/relay/relay.go:1170-1216 | selector, four static words, offset 160, length and padded tail |
| AbiCodec.CalldataRoundTrip | bridge/ethereum/relay/relay.go:1170-1216 | a decoder written from the ABI specification recovers every argument for signature blobs of any length, and the calldata length is 4 modulo 32 |
| AbiCodec.ParseDepositLog | bridge/ethereum/relay/relay.go:342-391 | from topic text and data bytes, with 64-bit sums and run-time slice checks: the event, a skipped log, or a stop, exactly as reading the dynamic string in unbounded arithmetic says |
| AbiCodec.DepositRoundTrip | bridge/ethereum/relay/relay.go:342-390 | every canonical log, its nonce topic with 64 digits in either letter case, is parsed back to its nonce, token, amount, sender and string |
| AbiCodec.NumberTopicExists | bridge/ethereum/relay/relay.go:347-348 | every 256-bit number has such a topic, and it reads back as the number |
| AbiCodec.ParsedFields | bridge/ethereum/relay/relay.go:342-390 | whatever is parsed has its fields where the log keeps them, the string at the offset and of the length found there |
| AbiCodec.SkippedIff | bridge/ethereum/relay/relay.go:342-383 | exactly which logs are skipped |
| Numerals.HexNumberIff | bridge/ethereum/relay/relay.go:347-348 | a topic reads as v if and only if, after an optional "0x" and sign, it spells v in base 16, in either letter case |
| AbiCodec.SlicesInRangeIff | bridge/ethereum/relay/relay.go:350-375 | on arbitrary logs a slice is out of range if and only if an address topic is too short, or offset+32 or offset+32+length wraps uint64 |
| Bytes.FromPadded | bridge/ethereum/relay/relay.go:1088-1093 | a number copied to the right end of a wide enough zero buffer reads back as itself |
| Bytes.PaddedInjective | bridge/ethereum/relay/relay.go:1088-1093 | two numbers of at most w bytes have the same w-byte buffer if and only if they are equal |
| NumberTheory.ModInverseCorrect | bridge/ethereum/relay/relay.go:1427 | the extended Euclidean inverse is the inverse, and it fails only on a common factor (then the source's nil) |
| NumberTheory.Fermat | bridge/ethereum/relay/relay.go:1486-1489 | a^p = a modulo a prime, from the binomial theorem |
| Secp256k1.Secp256k1Constants | bridge/ethereum/relay/relay.go:1347-1357 | p is 3 modulo 4, G is on the curve, n is odd and n < p < 2^256 < 2n |
| Secp256k1.Double | bridge/ethereum/relay/relay.go:1446-1474 | the tangent formula on any coordinates; stops exactly when 2y has no inverse |
| Secp256k1.Add | bridge/ethereum/relay/relay.go:1400-1444 | infinity, equal and opposite cases and the chord formula on any coordinates; stops exactly when the inverse is missing |
| Secp256k1.TwiceOnCurve | bridge/ethereum/relay/relay.go:1446-1474 | doubling stays on the curve and is the tangent construction (section 2.2.1 of SEC 1) |
| Secp256k1.ChordOnCurve | bridge/ethereum/relay/relay.go:1422-1443 | adding points with different x stays on the curve and is the chord construction (section 2.2.1 of SEC 1) |
| CurveGroup.SumIsDefined | bridge/ethereum/relay/relay.go:1404-1444 | on curve points add never lacks an inverse |
| CurveGroup.SumIsPoint | bridge/ethereum/relay/relay.go:1404-1444 | add maps points and infinity to points and infinity |
| CurveGroup.NegateCancels | bridge/ethereum/relay/relay.go:1297-1301 | (x, p - y) is on the curve and cancels (x, y) |
| CurveGroup.ScalarMult | bridge/ethereum/relay/relay.go:1373-1397 | the loop over the bits of any byte string, for any coordinates, is the double-and-add recurrence, including where it stops |
| CurveGroup.DoubleAndAddExact | bridge/ethereum/relay/relay.go:1373-1397 | for every point and scalar: the k-fold sum, or a stop if and only if a proper bit-prefix of k reaches infinity |
| CurveGroup.MulInjective | bridge/ethereum/relay/relay.go:1373-1397 | multiples of a curve point agree if and only if the scalars agree modulo n |
| CurveGroup.NegateIsComplement | bridge/ethereum/relay/relay.go:1297-1301 | reflecting j*G gives (n - j mod n)*G |
| CurveGroup.DecompressPoint | bridge/ethereum/relay/relay.go:1477-1505 | the root by exponent (p+1)/4 with the requested parity, or nothing |
| CurveGroup.DecompressSound | bridge/ethereum/relay/relay.go:1477-1505 | a returned root has the requested parity and squares to x^3 + b; only an odd zero is returned unreduced |
| CurveGroup.DecompressComplete | bridge/ethereum/relay/relay.go:1477-1505 | for every curve point, asking for y's parity returns exactly y |
| CurveGroup.DecompressFailsIff | bridge/ethereum/relay/relay.go:1491-1496 | decompression fails if and only if x belongs to no curve point |
| Ecdsa.ShortScalarSafe | bridge/ethereum/relay/relay.go:1373-1397 | a scalar of at most 256 bits never meets infinity before its last bit |
| Ecdsa.EcdsaSign | bridge/ethereum/relay/relay.go:1049-1096 | for any nonce in [1, n-1] the 65 bytes R, S, V; an error if and only if the hash is not 32 bytes |
| Ecdsa.SignatureIsLowS | bridge/ethereum/relay/relay.go:1074-1078 | the encoded s is at most n/2 on both branches (low-S rule of EIP-2) and the encoded r is x(kG) mod n |
| Ecdsa.RecoverSigner | bridge/ethereum/relay/relay.go:1258-1311 | for every hash and signature: the 64 key bytes, an error, or a stop on a missing inverse |
| Ecdsa.DefinedSteps | bridge/ethereum/relay/relay.go:1287-1304 | on a curve point with sR different from eG the steps give r^-1(sR - eG) |
| Ecdsa.KeyBytesInjective | bridge/ethereum/relay/relay.go:1306-1311 | the 64 bytes determine the key |
| Ecdsa.KeyBytesFields | bridge/ethereum/relay/relay.go:1306-1311 | the first 32 bytes read as x, the last 32 as y |
| Ecdsa.PublicKeyFields | bridge/ethereum/relay/relay.go:1306-1311 | so the public key is x(dG), then y(dG) |
| Ecdsa.RecoveredFields | bridge/ethereum/relay/relay.go:1262-1311 | the bytes of every key that recovery returns read as the coordinates of r^-1(sR - eG) |
| Ecdsa.RecoveryPointReads | bridge/ethereum/relay/relay.go:1266-1285 | v = 0 and v = 27 ask for x = r, every other v for x = r + n, and y is odd for odd ids |
| EcdsaRecovery.SigningEquation | bridge/ethereum/relay/relay.go:1062-1072 | before the low-S step sR = (e + rd)G |
| EcdsaRecovery.RecoveredIff | bridge/ethereum/relay/relay.go:1287-1304 | r^-1(sR - eG) is dG if and only if sR = (rd + e)G |
| EcdsaRecovery.LowSAbscissa | bridge/ethereum/relay/relay.go:1074-1078 | flipping s pairs only points with the same x |
| EcdsaRecovery.MultipleOfUnreduced | bridge/ethereum/relay/relay.go:1275-1292 | coordinates with x >= p multiply like the point they stand for, or stop |
| EcdsaRecovery.StepsOfUnreduced | bridge/ethereum/relay/relay.go:1275-1304 | so recovery from such coordinates stops or gives what the reduced point gives |
| EcdsaRecovery.RecoveryExact | bridge/ethereum/relay/relay.go:1049-1096 | on every branch: recovery returns the signer's key if and only if r is not zero and either s is zero and the abscissa decodes, or s was not flipped and R.y is even when R.x < n and odd otherwise (sections 4.1.3 and 4.1.6 of SEC 1) |
| EcdsaRecovery.LastNonceMissesKey | bridge/ethereum/relay/relay.go:1080-1086 | a failing family: on a generator like secp256k1's the nonce n - 1 always misses the key, unless s is zero |
| EcdsaRecovery.RecoveryInvertsSigning | bridge/ethereum/relay/relay.go:1258-1318 | the round trip on the even-R.y branch with 0 < R.x < n and s not flipped |
| EcdsaRecovery.RecoveryFailsIff | bridge/ethereum/relay/relay.go:1258-1285 | an error if and only if a length is wrong or the abscissa modulo p belongs to no curve point |
| Inequality.ComputeGini | simulations/tokenomics/simulation.py:359-381 | the rank-weighted loop equals the pairwise coefficient on every list |
| Inequality.GiniCoefficient | simulations/tokenomics/analysis.py:507-519 | so does the second implementation, hence the two agree |
| Inequality.RankSumIsHalfPairSum | simulations/tokenomics/simulation.py:378-381 | on an ascending list the rank-weighted sum is half the sum of all pairwise distances |
| Inequality.GiniBounds | simulations/tokenomics/simulation.py:359-381 | on a non-negative list the coefficient lies in [0, (n-1)/n] |
| Inequality.GiniZeroIff | simulations/tokenomics/simulation.py:359-381 | the coefficient is 0 if and only if all hold the same |
| Inequality.GiniOfOneHolder | simulations/tokenomics/simulation.py:359-381 | it reaches (n-1)/n when one holds everything |
| Inequality.GiniScaleInvariant | simulations/tokenomics/simulation.py:359-381 | a common positive factor does not change it |
| RewardMult.NormalizeMultipliers | simulations/tokenomics/simulation.py:401-445 | the in-place rounds compute the scale-then-clamp recurrence, stopping after an unclamped round |
| RewardMult.RoundTowardBudget | simulations/tokenomics/simulation.py:424-442 | a round keeps multipliers in range and moves the stake-weighted sum toward the budget, never past it |
| RewardMult.RoundKeepsOrder | simulations/tokenomics/simulation.py:437-442 | a round keeps the order of the multipliers |
| RewardMult.RoundExactIff | simulations/tokenomics/simulation.py:424-445 | after a round the budget is met if and only if no validator with stake was clamped |
| RewardMult.RoundStallsIff | simulations/tokenomics/simulation.py:424-442 | a round leaves the weighted sum unchanged if and only if it is on the budget, or every staked multiplier is at the limit in the way of the budget (or zero, below it) |
| RewardMult.RoundProgress | simulations/tokenomics/simulation.py:424-442 | with 1 in range, positive multipliers and the stakes' total as budget, a round off the budget moves strictly toward it |
| RewardMult.NormalizedProgress | simulations/tokenomics/simulation.py:401-445 | so do any n > 0 rounds |
| RewardMult.ZeroMultiplierStalls | simulations/tokenomics/simulation.py:424-442 | a zero multiplier can hold a round below the budget |
| RewardMult.NormalizedTowardBudget | simulations/tokenomics/simulation.py:401-445 | the same after any number of rounds |
| RewardMult.NormalizedKeepsOrder | simulations/tokenomics/simulation.py:401-445 | order is kept after any number of rounds |
| RewardMult.NormalizedExactIff | simulations/tokenomics/simulation.py:401-445 | after n rounds the budget is met if and only if the last round run clamped no validator with stake |
| RewardMult.NormalizedIsIterated | simulations/tokenomics/simulation.py:421-445 | stopping after an unclamped round gives the result of all n rounds |
| RewardMult.UnclampedRoundIsExact | simulations/tokenomics/simulation.py:401-445 | if any of the first n rounds clamps nothing, the result of all rounds meets the budget exactly |
| RewardMult.EqualMultipliersNeutral | simulations/tokenomics/simulation.py:590-608 | equal multipliers become 1, or the limit next to it, and meet the budget if and only if 1 is in range |
| Ledger.ChannelsSumToMintIff | simulations/tokenomics/simulation.py:516-524 | the four channels add up to the mint if and only if nothing is minted or the splits do not exceed the whole |
| Ledger.BurnBounds | simulations/tokenomics/simulation.py:532-545 | what is burned or redirected never exceeds what circulates, and the clamp on circulation does not fire |
| Ledger.EpochSound | simulations/tokenomics/simulation.py:500-575 | one epoch keeps supply = minted - burned <= cap, balances non-negative and staked + treasury <= supply |
| Ledger.EpochIsExact | simulations/tokenomics/simulation.py:500-575 | every flow and the whole new ledger: the mint is a year's provisions over the epochs or what the cap leaves, each channel its own split, (burn + redirect) times epochs the circulation times the burn rate, the redirect its part of that, and the stake moves by (target - ratio) times supply times speed over the epochs, within its limits |
| Ledger.InflationByYear | simulations/tokenomics/simulation.py:203-231 | the rate is the scheduled one, or else 1.75% in year 5 and one decay lower every later year, limited to floor and ceiling |
| Ledger.EpochKeepsStake | simulations/tokenomics/simulation.py:563-575 | with a target that is not negative and an adjustment below the whole gap, an epoch that starts with stake ends with stake |
| Simulation.NewValidators | simulations/tokenomics/simulation.py:313-356 | fresh validators with the given stakes, all multipliers 1 and no rewards |
| Simulation.InitialStakesTotal | simulations/tokenomics/simulation.py:313-356 | initial stakes add up to the staked amount, except that a lone whale holds only its fraction |
| Simulation.InitialStakesShape | simulations/tokenomics/simulation.py:313-356 | equal stakes, stakes by 1/rank, or the whale's fraction and equal shares of the rest |
| Simulation.SettleEpoch | simulations/tokenomics/simulation.py:500-575 | the ledger part of the loop body, which EpochIsExact states without it |
| Simulation.DistributeStaking | simulations/tokenomics/simulation.py:577-584 | stakes rescaled to the staked total and the emission paid by stake weight |
| Simulation.UpdateMultipliers | simulations/tokenomics/simulation.py:590-602 | every EMA and clamped multiplier |
| Simulation.EmaConverges | simulations/tokenomics/simulation.py:590-602 | the distance of every EMA from the raw multiplier 1.005 + 0.01(1 - gaming) is the initial one times (1 - alpha)^n |
| Simulation.SimulateEpochs | simulations/tokenomics/simulation.py:448-673 | every recorded epoch of a run of any length, in every recorded field |
| Simulation.RecordedEpochExact | simulations/tokenomics/simulation.py:497-673 | for admissible parameters every recorded year, flow, ledger and derived figure is exactly what the ledger before it determines |
| Simulation.RunTotals | simulations/tokenomics/simulation.py:482-558 | over any run supply, minted, burned and treasury are the genesis amounts and the totals of the recorded flows |
| Metrics.DeriveIsExact | simulations/tokenomics/simulation.py:505-639 | every derived figure times its base is what it measures |
| Metrics.VolumeCompounds | simulations/tokenomics/simulation.py:492-614 | the volume after n epochs is the first one times (1 + growth)^n |
| Simulation.LedgerSoundAfter | simulations/tokenomics/simulation.py:482-575 | the ledger invariant after any number of epochs, for admissible parameters |
| Simulation.RecordsBalance | simulations/tokenomics/simulation.py:619-621 | in every record supply = minted - burned <= cap, channels sum to the mint, and circulating + staked + treasury = supply |
| Simulation.TotalsAccumulate | simulations/tokenomics/simulation.py:550-558 | minted, burned and treasury grow by exactly the recorded flows |
| Simulation.StakesTrackLedger | simulations/tokenomics/simulation.py:578-584 | from the parameters alone: at the end of every epoch the validators' stakes add up to the ledger's staked total, which is positive |
| Simulation.RecordedGiniExact | simulations/tokenomics/simulation.py:636-637 | for all parameters: the recorded coefficient is the initial one until the staked amount reaches zero in a run that began with stake, and zero from then on |
| Simulation.RecordedGiniConstant | simulations/tokenomics/simulation.py:636-637 | from the parameters alone: every recorded coefficient is the initial one |
| Simulation.EveryEpochBudgetNeutral | simulations/tokenomics/simulation.py:590-608 | from the parameters alone: an epoch is budget-neutral if and only if 1 lies between the multiplier limits; its multipliers are all 1 or the limit next to it |
| Simulation.RewardsEqualEmissions | simulations/tokenomics/simulation.py:577-584 | from the parameters alone: the rewards earned add up to the staking emissions |
| Simulation.ValidatorShares | simulations/tokenomics/simulation.py:577-584 | from the parameters alone: every validator keeps its share of the stake and has earned that share of all staking emissions |
| Simulation.RecordedRates | simulations/tokenomics/simulation.py:622-634 | recorded staking ratio and share of the cap are in range, and net inflation is a year of the epoch's change of supply |
| Simulation.RecordedApyIsPaidIff | simulations/tokenomics/simulation.py:625-627 | from the parameters alone: the recorded APY is the year's rate at which the epoch paid stakers, if and only if the cap did not cut the mint or the staking split is zero |
| Simulation.RecordedTopFiveConstant | simulations/tokenomics/simulation.py:638-639 | from the parameters alone: every recorded top-five share is the initial one, and 100 with at most five validators |
| Metrics.LargestIsMaximal | simulations/tokenomics/simulation.py:638-639 | the k largest stakes are stakes, and no k stakes add up to more |
| Metrics.LargestShareKept | simulations/tokenomics/simulation.py:577-584 | rescaling the stakes does not change the share of the k largest |
| SchemaValidator.CheckName | contract-toolkit/src/validator.rs:142-168 | pushes exactly: empty, no identifier, or seen before up to case |
| SchemaValidator.ValidateMetadata | contract-toolkit/src/validator.rs:67-130 | pushes exactly the defects of name, version, intent count and limits, with their severity |
| SchemaValidator.ValidateParams | contract-toolkit/src/validator.rs:175-208 | pushes exactly the name defects of the parameters, each at its place |
| SchemaValidator.ValidateIntents | contract-toolkit/src/validator.rs:136-173 | the same for the intents and the parameters of each |
| SchemaValidator.ValidateDefault | contract-toolkit/src/validator.rs:254-324 | pushes exactly how the default does not fit its type |
| SchemaValidator.ValidateStateFields | contract-toolkit/src/validator.rs:214-252 | pushes exactly the name and default defects of all state fields |
| SchemaValidator.ValidateConstraintParams | contract-toolkit/src/validator.rs:359-486 | pushes exactly the missing parameters, unknown operators and unknown fields of the constraint's type, with their severity |
| SchemaValidator.ValidateConstraints | contract-toolkit/src/validator.rs:330-357 | pushes exactly the label and parameter defects of all constraints |
| SchemaValidator.ValidateCrossReferences | contract-toolkit/src/validator.rs:492-534 | pushes exactly the targets that name no intent, the missing state fields and the bare intents |
| SchemaValidator.ValidateSchema | contract-toolkit/src/validator.rs:51-61 | the messages are exactly the defects of the schema; an Error is among them if and only if it is not well formed, a Warning if and only if it is not clean |
| SchemaValidator.ErrorsIff | contract-toolkit/src/validator.rs:51-61 | some defect is an Error if and only if the schema is not well formed |
| SchemaValidator.DefectsAreTrue | contract-toolkit/src/validator.rs:67-534 | every message is true of the schema, by its reason and at its location |
| SchemaValidator.WarningsIff | contract-toolkit/src/validator.rs:51-61 | some defect is a Warning if and only if it is not clean |
| TextForms.NamesIff | contract-toolkit/src/validator.rs:542-566 | identifiers and contract names by their characters |
| TextForms.VersionIff | contract-toolkit/src/validator.rs:569-575 | a version is three 32-bit numbers with dots in between |
| SchemaCompiler.Compile | contract-toolkit/src/compiler.rs:64-142 | compilation succeeds if and only if the schema is well formed, and hands back exactly its warnings, or else exactly its errors; the identifier is the digest of the rest |
| SchemaCompiler.EmitEqualIff | contract-toolkit/src/compiler.rs:79-136 | two schemas compile alike if and only if they differ in nothing but descriptions of parameters and state fields |
| SchemaCompiler.CompiledReadsBack | contract-toolkit/src/compiler.rs:79-136 | round trip: read with the toolkit's own type names, the compiled schema is the source schema without those descriptions |
| SchemaCompiler.TypesReadBack | contract-toolkit/src/schema.rs:42-56 | every emitted type name reads back as its type |
| SchemaCompiler.TypeNamesIff | contract-toolkit/src/schema.rs:42-56 | the names and aliases of each type, up to case |
| SchemaCompiler.EmitAdds | contract-toolkit/src/compiler.rs:77-96 | empty identifier, capability, and domain tag |
| SchemaCompiler.DescriptionsCollide | contract-toolkit/src/compiler.rs:103-111 | every schema with a state field has such a twin |
| Strings.ParseDecimalInt | contract-toolkit/src/tester.rs:443-446 | what to_string prints, parse reads back |
| Numerals.ParseUnsignedIff | contract-toolkit/src/tester.rs:325-330 | parse accepts exactly the decimal texts below the bound, with or without a plus |
| Numerals.ParseSignedIff | contract-toolkit/src/tester.rs:443-446 | the same for signed types, with a minus |
| TextForms.WordsAreThreeIff | contract-toolkit/src/tester.rs:491-495 | split_whitespace gives three words if and only if blanks separate just these |
| TextForms.ContainsIff | contract-toolkit/src/tester.rs:165-168 | contains: some slice is the part |
| ConstraintTester.LookupIsLast | contract-toolkit/src/tester.rs:118-128 | the collected map holds the last index of every name |
| ConstraintTester.LookupsAgreeIff | contract-toolkit/src/tester.rs:118-128 | map and linear search agree on every name if and only if no two names are equal up to case |
| ConstraintTester.WellFormedLookupsAgree | contract-toolkit/src/tester.rs:118-128 | so they agree for every well-formed schema |
| ConstraintEvaluator.EvaluateIff | contract-toolkit/src/tester.rs:310-533 | a constraint of any type is accepted if and only if it holds, as the five rows below say |
| ConstraintEvaluator.BalanceIff | contract-toolkit/src/tester.rs:325-356 | min_amount <= balance, and the amount, when given, <= balance |
| ConstraintEvaluator.OwnershipIff | contract-toolkit/src/tester.rs:358-376 | the owner, when there is one and a sender, is the sender |
| ConstraintEvaluator.TimeIff | contract-toolkit/src/tester.rs:378-417 | the epoch is >=, <=, > or < the bound for gte, lte, gt, lt, and the bound is a 64-bit number |
| ConstraintEvaluator.StateIff | contract-toolkit/src/tester.rs:419-487 | the field relates to the target by its operator: as numbers when both texts are, else by equality of texts |
| ConstraintEvaluator.CustomIff | contract-toolkit/src/tester.rs:489-533 | the two sides of a three-word expression relate by its symbol |
| ConstraintEvaluator.PrintedNumbers | contract-toolkit/src/tester.rs:431-446 | JSON numbers and strings are read through their printed text |
| ConstraintEvaluator.PrintedValues | contract-toolkit/src/tester.rs:441-446 | and other JSON values through theirs |
| ConstraintEvaluator.CauseIsTrue | contract-toolkit/src/tester.rs:325-533 | the reported cause is a fact about the test case |
| ConstraintEvaluator.GetIff | contract-toolkit/src/tester.rs:386-401 | the first value under a key |
| ConstraintEvaluator.OperatorsAreKnown | contract-toolkit/src/tester.rs:397-408 | for well-formed schemas the accept-by-default operator arms of TimeCheck and StateCheck are never taken |
| ConstraintEvaluator.StateCheckVacuousIff | contract-toolkit/src/tester.rs:418-447 | a well-formed StateCheck accepts a test whatever its target value, if and only if its operator is not text or the tested state has no key spelled exactly like its field |
| ConstraintEvaluator.OtherCaseIsVacuous | contract-toolkit/src/tester.rs:440-447 | a key in other letter case is a known field, and on a state with no key spelled exactly like the field the check accepts every target |
| ConstraintTester.EvaluateConstraints | contract-toolkit/src/tester.rs:283-306 | Ok if and only if every constraint that names no intent, or this one up to case, holds |
| ConstraintTester.FirstIff | contract-toolkit/src/tester.rs:290-303 | otherwise the failure reported is that of the first that does not |
| ConstraintTester.VerdictIgnoresOrder | contract-toolkit/src/tester.rs:283-306 | order and repetition of constraints do not change whether a test passes, fails or is skipped, when it asks for no particular error text |
| ConstraintTester.OrderIndependentIff | contract-toolkit/src/tester.rs:258-271 | for every test: no reordering changes the outcome if and only if it asks for no error text, does not reach the constraints, or all or none of the violated constraints' messages contain the text |
| ConstraintTester.OrderCanMatter | contract-toolkit/src/tester.rs:258-271 | two constraints of a well-formed schema whose order decides a test |
| ConstraintTester.RunSingleTest | contract-toolkit/src/tester.rs:150-275 | the grading of one test case |
| ConstraintTester.RunTests | contract-toolkit/src/tester.rs:111-147 | every test graded once, and passed + failed + skipped = total |
| ConstraintTester.CountIs | contract-toolkit/src/tester.rs:131-145 | a counter is the number of results of its kind |
| ConstraintTester.ExpectValidPassIff | contract-toolkit/src/tester.rs:150-275 | when success is expected: passes if and only if intent, parameters, state keys and all applicable constraints are fine |
| ConstraintTester.ExpectInvalidPassIff | contract-toolkit/src/tester.rs:150-275 | when failure is expected: passes if and only if a failure is met and the first one met carries the text asked for; letter case counts except for constraints, and an unknown intent has to be asked for |
| ConstraintTester.ExpectAnyFailurePassIff | contract-toolkit/src/tester.rs:150-275 | without a text: passes if and only if the intent resolves and a parameter does not fit or an applicable constraint fails |
| ConstraintTester.SkipIff | contract-toolkit/src/tester.rs:207-218 | skipped if and only if intent and parameters are fine and a key before is unknown; the first is named |
| ConstraintTester.FailIff | contract-toolkit/src/tester.rs:150-275 | the reason of every failed test: the first failure met unless asked for, an unknown key after, or that nothing failed |
| ConstraintTester.MistypedIff | contract-toolkit/src/tester.rs:541-560 | a value is refused if and only if it does not fit the last parameter of its name |
| ConstraintTester.ValueFitsIff | contract-toolkit/src/tester.rs:562-640 | the texts and values of each parameter type |
| AmmPool.RunsStayBalanced | contract-sdk/examples/amm_pool.rs:51-144 | along any accepted run from the empty pool both reserves are zero or both positive |
| AmmPool.SwapAcceptedIff | contract-sdk/examples/amm_pool.rs:111-144 | a swap is accepted if and only if one reserve rises, the other falls, shares stay and the product does not fall |
| AmmPool.RemoveAcceptedIff | contract-sdk/examples/amm_pool.rs:88-109 | a withdrawal if and only if reserves and shares fall and nothing is drained |
| AmmPool.AddAcceptedIff | contract-sdk/examples/amm_pool.rs:51-86 | a deposit if and only if reserves and shares rise, tokens stay, and the second token is within the floored percent of the floored proportional amount |
| AmmPool.RejectionsAreTrue | contract-sdk/examples/amm_pool.rs:32-144 | the reason of every rejection holds of the call and the pools |
| AmmPool.ReachableNeverDividesByZero | contract-sdk/examples/amm_pool.rs:76-80 | no proposal on a reachable pool divides by zero |
| AmmPool.DividesByZeroIff | contract-sdk/examples/amm_pool.rs:71-80 | a pool can divide by zero if and only if it has only its second reserve (and room to grow) |
| AmmPool.EveryPositivePairReachable | contract-sdk/examples/amm_pool.rs:71-74 | every pair of positive reserves is reachable |
| AmmPool.RemoveUndoesAdd | contract-sdk/examples/amm_pool.rs:88-109 | the state before an accepted deposit into a live pool is an accepted withdrawal |
| AmmPool.SwapRunProduct | contract-sdk/examples/amm_pool.rs:111-144 | over any run of swaps the product of the reserves never falls and the shares stay |
| AmmPool.SwapsTakeNothingOut | contract-sdk/examples/amm_pool.rs:131-137 | after any run of swaps, one reserve at most its start means the other at least its start |
| AmmPool.AcceptedAddIsProportional | contract-sdk/examples/amm_pool.rs:76-83 | for every accepted proportional deposit, 100 times the distance between db*Ra and da*Rb is at most da*Rb + 99*Ra |
| AmmPool.ProportionalAddIsAccepted | contract-sdk/examples/amm_pool.rs:76-83 | conversely a deposit within one percent, one unit to spare, is accepted |
| Lending.BorrowAcceptedIff | contract-sdk/examples/lending.rs:107-137 | accepted if and only if the debt is below 75.01% of the floored value (and the guards hold) |
| Lending.LiquidateAcceptedIff | contract-sdk/examples/lending.rs:165-197 | accepted if and only if the debt is at least 85% of the floored value or the value is zero (and the guards hold) |
| Lending.LtvIff | contract-sdk/examples/lending.rs:46-55 | the ratio is the floored quotient of debt and floored value, 100% without value |
| Lending.DepositAcceptedIff | contract-sdk/examples/lending.rs:83-105 | exactly which deposits are accepted |
| Lending.RepayAcceptedIff | contract-sdk/examples/lending.rs:139-163 | exactly which repayments are accepted |
| Lending.RejectionsAreTrue | contract-sdk/examples/lending.rs:83-197 | the reason of every rejection holds of the positions |
| Lending.LiquidationGap | contract-sdk/examples/lending.rs:46-55 | between an accepted borrow and an accepted liquidation 7501*D'*v > 8500*D*v' |
| Lending.NoLiquidationAfterBorrow | contract-sdk/examples/lending.rs:165-184 | no liquidation while debt does not grow and value does not fall |
| Lending.CalmRunsAreSafe | contract-sdk/examples/lending.rs:83-163 | after an accepted borrow no run of accepted deposits and repayments makes the position liquidable, if no step lowers the collateral, raises the interest or lowers the price |
| Lending.SafeIff | contract-sdk/examples/lending.rs:83-163 | such runs are safe for all borrows if and only if all three of these are kept |
| Lending.RepayExposesIff | contract-sdk/examples/lending.rs:139-163 | a failing case: some accepted repayment leaves a liquidable position behind, if and only if the position is active |
| Lending.DepositExposesIff | contract-sdk/examples/lending.rs:83-105 | some accepted deposit does too, if and only if the position takes deposits (active or empty) and its collateral is not at the 128-bit bound |
| Lending.CollateralGuardNeeded | contract-sdk/examples/lending.rs:139-163 | right after an accepted borrow a change of the collateral alone exposes the position if and only if it is active, holds more than one unit, and one unit would be liquidable |
| Lending.InterestGuardNeeded | contract-sdk/examples/lending.rs:139-163 | a change of the interest alone exposes every active borrowed position |
| Lending.PriceGuardNeeded | contract-sdk/examples/lending.rs:139-163 | so does a change of the price alone |
| QuantisedModel.InferRaw | ai/governance_model/v1/export_int_weights.py:105-110 | bias plus the dot product over the shorter length |
| QuantisedModel.TruncBounds | ai/governance_model/v1/export_int_weights.py:113-125 | division toward zero: the remainder has the sign of the dividend |
| QuantisedModel.ScoreAtLeastIff | ai/governance_model/v1/export_int_weights.py:113-127 | the score reaches k if and only if raw >= (k - 50) scale above 50, and raw > (k - 51) scale at and below |
| QuantisedModel.TierByRaw | ai/governance_model/v1/export_int_weights.py:113-138 | the tiers begin above -20, at 6 and at 31 times the scale |
| QuantisedModel.OrdinalTierByRaw | ai/governance_model/v1/export_ordinal_int_weights.py:123-153 | the ordinal tier by thresholds of 5, 15 and 25 times the scale |
| QuantisedModel.ScoreMonotone | ai/governance_model/v1/export_int_weights.py:113-138 | score and tier are monotone in raw |
| QuantisedModel.DocumentedScoreIff | ai/governance_model/v1/export_int_weights.py:9-11 | the documented floor formula gives the code's score if and only if raw >= 0, scale divides raw, or both clamp to 0 |
| QuantisedModel.DocumentedScoreDiffers | ai/governance_model/v1/export_int_weights.py:9-11 | raw = -1 at scale 10000: the code gives 50, the documented formula 49 |
| QuantisedModel.DeriveTierMonotone | ai/governance_model/v1/export_ordinal_int_weights.py:145-153 | the ordinal tier is monotone in each of its three scores |
| QuantisedModel.OrdinalTierMonotone | ai/governance_model/v1/export_ordinal_int_weights.py:123-153 | larger weights and biases never lower the tier of the whole pipeline |
| QuantisedModel.ValidateFeatures | ai/governance_model/v1/export_int_weights.py:173-181 | an error if and only if the length is wrong; otherwise every value moves to the nearest end of its range |
| QuantisedModel.FeatureRanges | ai/governance_model/v1/export_int_weights.py:51-63 | the eleven ranges |
| QuantisedModel.PartialSumsFit | ai/governance_model/v1/export_int_weights.py:105-110 | with 32-bit weights and validated features every product and partial sum fits 64 bits |
| QuantisedModel.RoundNearest | ai/governance_model/v1/export_int_weights.py:163-164 | rounding is to the nearest integer, ties to even |
| QuantisedModel.InferenceError | ai/governance_model/v1/export_int_weights.py:154-165 | the integer score is within 1 + (1 + sum of features)/(2*scale) of the real-valued one |
| QuantisedModel.DefaultScaleError | ai/governance_model/v1/export_int_weights.py:154-165 | less than 1.503 at scale 10000 |
| Faucet.FaucetService.constructor | services/faucet/main.go:236-238 | no distributions, no cooldowns, next reset at the end of the day |
| Faucet.FaucetService.ClearOldCooldowns | services/faucet/main.go:549-554 | exactly the expired cooldowns are dropped, in any order of deletion |
| Faucet.FaucetService.CheckRateLimits | services/faucet/main.go:541-571 | the state after a possible reset, and the verdict on it |
| Faucet.FaucetService.RecordDistribution | services/faucet/main.go:574-580 | count and cooldown after a distribution |
| Faucet.CapBound | services/faucet/main.go:507-528 | with at most k handlers in flight, daily count plus handlers past their check is at most cap - 1 + k |
| Faucet.CapBoundTight | services/faucet/main.go:507-528 | for every cap and every k >= 1 some run with at most k in flight reaches cap - 1 + k |
| Faucet.CapRespectedIff | services/faucet/main.go:507-528 | all runs with at most k in flight respect the cap if and only if k is at most 1 |
| Faucet.DistributionsSpaced | services/faucet/main.go:562-579 | with one handler per address and a monotone clock, distributions to one address are at least the cooldown apart |
| Faucet.ConcurrentHandlersBreakSpacing | services/faucet/main.go:507-528 | whenever two handlers are in flight for one address, in any run, they can finish closer than the cooldown |
| Faucet.SpacingSafeIff | services/faucet/main.go:507-528 | along a run the spacing is safe at every moment, however the handlers in flight end, if and only if there is never more than one in flight for an address |
| Faucet.TwoHandlersShareAddress | services/faucet/main.go:507-528 | two such handlers do occur |
| Faucet.PurgeIsInvisible | services/faucet/main.go:549-554 | dropping old cooldowns changes no verdict in any run |
| Faucet.VerdictIsHistory | services/faucet/main.go:541-571 | over any run the verdict is that of the whole history: the cap by distributions recorded since the day began, the cooldown by any earlier record to the address |
| Faucet.CountIsHistory | services/faucet/main.go:546-548 | the count is the number of distributions recorded since the last reset, and the next reset the midnight after it |
| Faucet.NextMidnight | services/faucet/main.go:236-238 | the next reset is a midnight, at most 24 hours away |

## Left out
- Keccak, SHA-256, HMAC and `deterministicK`: the nonce is any value in [1, n-1], key bytes stand for the address, the selector and the schema digest are parameters.
- Primality of p and n, associativity of addition, the group order and the absence of points with y = 0 are hypotheses on the curve.
- EcdsaRecovery.RecoveryExact: says nothing of hashes that are multiples of n, for which the source adds a point that is not on the curve.
- HTTP and JSON-RPC transport, retries, logging, health server, goroutines and tickers of the relay; a submission is a success or a failure.
- Hexadecimal text of log data, block numbers and configured addresses is decoded before the model starts, and is absent when decoding fails; topic text is taken as one byte per character.
- `sortSignaturesBySigner`, the burn-side poll and the relay's key parsing.
- DepositPoll.Relay.PollEthDeposits: two polls of one relay never overlap, as its single loop guarantees. A stop ends the process, so a run covers one process life; `RestartRepeats` and `RestartSkips` say what the next one does.
- `Decimal` rounding at 36 digits and float parsing: real numbers are used, so divisions are exact.
- CSV and JSON output of the simulator.
- Simulation.NewValidators: takes the initial stakes as a computed list; commission rates and the whale flag are not kept.
- Faucet.FaucetService.CheckRateLimits: the remaining-time text of the error, and `time.Duration` overflow of the cooldown, are not modelled.
- Address validation, signing and broadcasting in the faucet; a send succeeds at some time or fails.
- Unicode lowercasing in the toolkit is an abstract function, and the wording of messages there and in the contracts is represented by their reasons; JSON numbers are 64-bit integers or float text.
- `serde` parsing of schemas and test suites, schema digests and file handling.
- AmmPool.ReachableNeverDividesByZero: 128-bit overflow is an outcome of its own, as in a checked build; a build without overflow checks wraps instead.
- Lending.LiquidationGap: overflow of 128-bit products is an outcome of its own, as in a checked build; the penalty and interest accrual are not part of the validators.
- QuantisedModel.InferenceError: trained weights are reals, so rounding inside floating-point products is not modelled; the weight and feature hashes are left out.
- The escrow contract, the solver, chain wiring, genesis scripts, user interfaces, benches and model training.
