# Solana RFQ v2: verified model

A Dafny model of the request-for-quote program and of the off-chain decoder a market maker uses
before co-signing. Three parts are modelled and linked.

* **Price ladder and settlement.** A taker's order walks a ladder of quoted levels. `Ladder` says
  what a walk yields, `Sweep` holds the loops, `SweepTheorems` proves optimality, the closed form
  and the rounding direction. `Settlement` turns a fill into two token transfers on a balance map
  and `SettlementTheorems` follows whole runs of fills.
* **Wire format and route decoding.** `Wire` describes legacy, v0 and SIMD-0385 v1 transactions as
  readers over unread bytes with printers beside them; `WireParser` is the cursor that runs.
  `Routes` and `RouteReader` do the same for the aggregator's tagged route vector, whose entries
  have different body layouts. The theorem modules show that readers and printers are inverse, what
  is wrong with a printed input that is rejected, and (`StreamTheorems`) that bytes arriving later
  change no verdict but truncation.
* **Maker-account validation.** `Decoded`, `Pipeline` and `Exclusivity` model message decoding, the
  attachment of fills and the validator, which looks at static account indices only.
  `PipelineTheorems` says what both decoding entry points return.
  `ResolutionTheorems` shows what its verdict means for every possible lookup-table content, and
  connects it to the on-chain sibling scan.

`Decimals` models the two exact string-to-atoms computations of the command-line client. `Common`
and `Bytes` hold shared integers, results, byte readers and printers.

Loops of the program are methods with invariants, each proved equal to a function; the theorems are
about those functions. A price is never divided out: a rate is a pair `n / d`, and the part of a
level that beats the rate is its surplus. The sum of surpluses bounds every way of filling the
ladder, and the greedy walk meets the bound at its marginal level.

Reading notes.

* `Put` functions print a value in front of given bytes, so `PutX(v, rest)` is the encoding of `v`
  followed by `rest`.
* Seven-bit groups of a compact-u16, the two halves of the priority fee and the mask bits are
  disjoint, so the model adds them where the program ors them; mask tests are division and modulus.
* Guards of the program that cannot fire are not branches of the model: `checked_sub` on the remaining
  input, the u64 test on a partial output and the u128 products appear as typed assignments that
  the verifier accepts (`Sweep.PartialBelowLevel`, `Sweep.ProductFitsU128`). The last validator
  error is a branch, and `Exclusivity.MultipleLegsImpossible` shows that it is never taken.
* The code and the embedded IDL disagree on the number of route tags; the model follows the code,
  which accepts tags 0 to 140 and candidate tags 0 to 17.
* The code accepts a zero level at either end of a ladder, and a sweep that stops earlier never
  looks at it. `Sweep.InteriorNonDegenerate` and `SweepTheorems.SweepClosedForm` say so.
* The interface has a token-ledger entrypoint kind and the documentation asks callers to refuse it,
  but no discriminator decodes to it: `RouteTheorems.UnsupportedByDiscriminator`.
* A legacy transaction is not always read back as written. `WireTheorems.LegacyTransactionExact`
  gives the exact condition, on the signature count and the required-signatures byte.

## Model

| member | source | states |
|---|---|---|
| Sweep.AdjacentIsGlobal | programs/solana-rfq-v2/src/sweep.rs:6-13 | comparing neighbours by cross product is the same as every earlier level being strictly better than every later one, zero fields allowed |
| Sweep.InteriorNonDegenerate | programs/solana-rfq-v2/src/sweep.rs:6-13 | an accepted ladder can have zero fields only at its two ends, and on one side of each |
| Sweep.ProductFitsU128 | programs/solana-rfq-v2/src/sweep.rs:8-9 | the cross products and partial products never overflow u128 |
| Sweep.PartialBelowLevel | programs/solana-rfq-v2/src/sweep.rs:57-59 | a partial output is strictly below the level's own output, so the u64 guard never fires |
| Sweep.NeighboursOrdered | programs/solana-rfq-v2/src/sweep.rs:28-34 | strictly ascending neighbouring prices are the global order of a Bid ladder, strictly descending ones that of an Ask ladder |
| Sweep.AssertSorted | programs/solana-rfq-v2/src/sweep.rs:6-13 | the loop succeeds exactly when every neighbouring pair compares as expected, whichever ordering is expected, and fails only with the ordering error |
| Sweep.AssertSortedBid | programs/solana-rfq-v2/src/sweep.rs:28-30 | accepts exactly the ladders whose every level beats all later ones for a taker paying quote |
| Sweep.AssertSortedAsk | programs/solana-rfq-v2/src/sweep.rs:32-34 | accepts exactly the ladders whose every level beats all later ones for a taker paying base |
| Sweep.SweepBid | programs/solana-rfq-v2/src/sweep.rs:36-69 | the loop returns the walk's result, value or error, on every input |
| Sweep.SweepAsk | programs/solana-rfq-v2/src/sweep.rs:71-104 | the loop returns the walk's result with base and quote exchanged, value or error, on every input |
| SweepTheorems.WalkIsVerdict | programs/solana-rfq-v2/src/sweep.rs:36-69 | every walk has a stopping level at which its outcome is read off prefix sums |
| SweepTheorems.StopIsUnique | programs/solana-rfq-v2/src/sweep.rs:36-69 | the stopping level is unique, so the closed form is a definition and not one choice of many |
| SweepTheorems.SweepClosedForm | programs/solana-rfq-v2/src/sweep.rs:36-69 | a sweep succeeds if and only if some prefix of non-degenerate levels fits, the marginal floor is positive, the sum fits u64 and the minimum is met; it then pays the prefix outputs plus that floor |
| SweepTheorems.SweepErrors | programs/solana-rfq-v2/src/sweep.rs:36-69 | what each error says about the stopping level, and that no other error is raised |
| SweepTheorems.AskIsMirroredBid | programs/solana-rfq-v2/src/sweep.rs:71-104 | an Ask is a Bid on the ladder with base and quote swapped, for the order check and for every sweep outcome |
| SweepTheorems.WalkBelowRate | programs/solana-rfq-v2/src/sweep.rs:36-69 | for every rate, a walk pays at most the rate on its input plus the ladder's surplus over that rate |
| SweepTheorems.WalkMeetsRate | programs/solana-rfq-v2/src/sweep.rs:36-69 | on an ordered ladder the marginal level's own rate is met up to the one atom lost to rounding |
| SweepTheorems.AllocationBelowRate | programs/solana-rfq-v2/src/sweep.rs:6-13 | every real split of an input over the levels obeys the same bound |
| SweepTheorems.GreedyAttains | programs/solana-rfq-v2/src/sweep.rs:36-69 | the walk's own split is feasible, uses the whole input, and its exact value rounds down to the output |
| SweepTheorems.GreedyIsOptimal | programs/solana-rfq-v2/src/sweep.rs:36-69 | on an accepted ladder the output is the floor of the best exact value over all splits of the input |
| SweepTheorems.SplittingNeverHelps | programs/solana-rfq-v2/src/sweep.rs:15-18 | filling levels separately in whole atoms, each rounded down, never pays more than one sweep |
| SweepTheorems.WalkMonotone | programs/solana-rfq-v2/src/sweep.rs:36-69 | more input never pays less, and any positive input pays a positive output |
| SweepTheorems.PriceWorsensWithSize | programs/solana-rfq-v2/src/sweep.rs:15-26 | between two successful orders on one accepted ladder, the larger pays no less in total and has no better average price beyond one atom |
| SweepTheorems.NeverBetterThanFirstLevel | programs/solana-rfq-v2/src/sweep.rs:15-18 | no accepted fill executes better for the taker than the first level's price |
| SweepTheorems.NoRoundTripProfit | programs/solana-rfq-v2/src/sweep.rs:15-18 | buying base and selling it back returns no more quote than went in, whenever the best ask-ladder price is no higher than the best bid-ladder price |
| Settlement.CheckFillExclusivity | programs/solana-rfq-v2/src/handler.rs:48-64 | the scan succeeds exactly when no protected key is among the accounts of any other top-level instruction |
| Settlement.Bank.TransferChecked | programs/solana-rfq-v2/src/handler.rs:134-145 | the assumed token transfer: both accounts of the mint, enough funds, no overflow, a self-transfer moves nothing, and a failure changes nothing |
| Settlement.Bank.Handler | programs/solana-rfq-v2/src/handler.rs:104-194 | the handler returns the swept amount and leaves the balances that `SettlementTheorems.SettleExact` states, or fails with the error of the first check that fails, in the order `SettlementTheorems.QuoteErrors` states; a failed check moves no token |
| Settlement.Bank.Execute | programs/solana-rfq-v2/src/handler.rs:14-22 | under transaction atomicity a failed fill leaves every balance as it was, and the caller sees the amount or the error of settlement |
| SettlementTheorems.QuoteErrors | programs/solana-rfq-v2/src/handler.rs:104-131 | zero input, empty ladder, expiry, a fee on either mint, a maker account named by another instruction, and prices out of order are refused in this order, each with its own error; otherwise the outcome is that of the sweep |
| SettlementTheorems.QuoteExact | programs/solana-rfq-v2/src/handler.rs:104-131 | a fill is quoted an amount if and only if all of these conditions hold, the sweep has a stopping level in closed form, and the amount is what it pays |
| SettlementTheorems.TransferExact | programs/solana-rfq-v2/src/handler.rs:134-145 | a transfer goes through if and only if both accounts are of the mint, the funds are there and nothing overflows; then every balance changes by exactly the net of the move, also when a transfer came before it |
| SettlementTheorems.SettleExact | programs/solana-rfq-v2/src/handler.rs:104-194 | a fill settles if and only if it is quotable and both payments can be made one after the other, whichever of its accounts coincide; then every balance of the bank changes by the net of the two payments |
| SettlementTheorems.CommitExact | programs/solana-rfq-v2/src/handler.rs:104-194 | a commit makes exactly those changes, or none at all |
| SettlementTheorems.RunComposes | programs/solana-rfq-v2/src/handler.rs:104-194 | a run of fills is the run of its first part followed by the run of the rest, one commit a fill |
| SettlementTheorems.TransferConserves | programs/solana-rfq-v2/src/handler.rs:134-159 | a transfer keeps the supply of every mint |
| SettlementTheorems.FillConserves | programs/solana-rfq-v2/src/handler.rs:104-194 | a committed or reverted fill keeps the supply of every mint |
| SettlementTheorems.RunConserves | programs/solana-rfq-v2/src/handler.rs:104-194 | any run of fills keeps the supply of every mint |
| SettlementTheorems.FillFrame | programs/solana-rfq-v2/src/handler.rs:72-91 | a fill changes no account outside the four it names, adds none, removes none and changes no mint |
| SettlementTheorems.MakerSettlement | programs/solana-rfq-v2/src/handler.rs:130-192 | with the user's accounts distinct from the maker's, a committed fill moves exactly the input and the swept output on the maker's two balances |
| SettlementTheorems.TakerSettlement | programs/solana-rfq-v2/src/handler.rs:104-194 | a committed fill is within its expiry, takes exactly the input from the user and gives it a positive output of at least its minimum |
| SettlementTheorems.MakerNeverLoses | programs/solana-rfq-v2/src/handler.rs:104-194 | over any run mixing Bids, Asks and reverted fills, with every Bid ladder starting at or above a price and every Ask ladder at or below it, the base the maker pays out is covered by the quote it takes in at that price |
| Bytes.CompactComplete | fill-decoder/src/wire.rs:413-435 | the printed form of every u16 is read back, whatever follows |
| Bytes.CompactSound | fill-decoder/src/wire.rs:413-435 | an accepted compact-u16 is the one printed form of its value |
| Bytes.CompactVerdict | fill-decoder/src/wire.rs:413-435 | the value, the unread bytes or the error of every input, read off its first three bytes |
| Bytes.FromLEInverse | fill-decoder/src/wire.rs:398-402 | little-endian bytes are recovered from the number they denote |
| WireParser.Cursor.ReadCompactU16 | fill-decoder/src/wire.rs:413-435 | the byte loop reads the same value, error and remaining bytes as the strict reader |
| WireParser.Cursor.ReadInto | fill-decoder/src/wire.rs:390-396 | copies the next bytes and moves past them, or reports truncation |
| WireParser.Cursor.ParseMessageFromCursor | fill-decoder/src/wire.rs:155-242 | the parsing loops agree with the legacy and v0 reader in value, error and remaining bytes |
| WireParser.Cursor.ParseV1Message | fill-decoder/src/wire.rs:254-348 | the parsing loops agree with the v1 reader in value, error and remaining bytes |
| WireParser.ParseTransaction | fill-decoder/src/wire.rs:110-139 | whole-transaction parsing agrees with the reader on every input, error for error |
| WireParser.ParseMessage | fill-decoder/src/wire.rs:142-153 | message-only parsing agrees with the reader on every input, error for error |
| WireTheorems.MessageSound | fill-decoder/src/wire.rs:155-242 | an accepted legacy or v0 message fits the format and is the printed form of its parse |
| WireTheorems.MessageComplete | fill-decoder/src/wire.rs:155-242 | every legacy or v0 message that fits and is not mistaken for a version is read back, whatever follows |
| WireTheorems.AmbiguousMessageMisread | fill-decoder/src/wire.rs:155-170 | a legacy message with a signer count above 128 is refused as an unknown version, and one with 128 is taken for v0 |
| WireTheorems.LegacyMessageExact | fill-decoder/src/wire.rs:142-153 | a legacy or v0 message that comes alone is read back as written, whatever follows, if and only if a legacy signer count is below 128 |
| WireTheorems.LegacyMessageSound | fill-decoder/src/wire.rs:142-153 | an accepted legacy or v0 message that comes alone fits the format, is unambiguous, and starts the input in its printed form |
| WireTheorems.LegacyTransactionSound | fill-decoder/src/wire.rs:127-139 | an accepted legacy or v0 transaction fits the format, is unambiguous, and starts with the printed form of its parse |
| WireTheorems.LegacyTransactionExact | fill-decoder/src/wire.rs:110-139 | a legacy or v0 transaction is read back as written if and only if its signature count does not start with the v1 tag and a legacy signer count is below 128 |
| V1Theorems.DistinctKeysSound | fill-decoder/src/wire.rs:284-294 | accepted keys are pairwise distinct and are exactly the bytes read |
| V1Theorems.PayloadsSound | fill-decoder/src/wire.rs:309-338 | accepted payloads match their headers, stay within the key range and are exactly the bytes read |
| V1Theorems.V1Sound | fill-decoder/src/wire.rs:254-348 | an accepted v1 message meets every coded limit and is the printed form of its parse |
| V1Theorems.V1Complete | fill-decoder/src/wire.rs:254-348 | every v1 message within the limits is read back, whatever follows |
| V1Theorems.V1TransactionVerdict | fill-decoder/src/wire.rs:110-126 | every printed v1 transaction, with or without bytes after it, is accepted or refused for the first of: size, unknown mask bits, header and counts, repeated key, unpaired fee bits, heap size, index out of range, trailing bytes |
| V1Theorems.V1MessageVerdict | fill-decoder/src/wire.rs:142-151 | the same for a signed part alone, whose signed size is checked after the message and before trailing bytes |
| V1Theorems.V1TransactionExact | fill-decoder/src/wire.rs:110-126 | a byte string parses to a v1 transaction if and only if it is the encoding of that transaction and the transaction is within all limits, 4096 bytes included |
| V1Theorems.V1MessageExact | fill-decoder/src/wire.rs:142-151 | the signed part alone parses if and only if it encodes a message whose signed transaction would fit |
| V1Theorems.V1NoExtension | fill-decoder/src/wire.rs:404-411 | every strict extension of an accepted v1 transaction is refused, for its size above 4096 bytes and for trailing data otherwise |
| V1Theorems.V1NoPrefix | fill-decoder/src/wire.rs:362-370 | no strict prefix of an accepted v1 transaction is accepted |
| V1Theorems.V1SignedPart | fill-decoder/src/wire.rs:110-152 | an accepted signed part followed by bytes is an accepted transaction if and only if those bytes have the length of its signatures, and the message is the same |
| V1Theorems.V1TransactionSplits | fill-decoder/src/wire.rs:110-152 | an accepted transaction without its signatures is an accepted signed part with the same message |
| StreamTheorems.LegacyVerdictIsFinal | fill-decoder/src/wire.rs:127-139 | on a legacy or v0 transaction no verdict other than truncation changes when more bytes follow |
| StreamTheorems.LegacyMessageVerdictIsFinal | fill-decoder/src/wire.rs:142-153 | the same for a legacy or v0 message that comes alone |
| StreamTheorems.V1ErrorIsFinal | fill-decoder/src/wire.rs:110-126 | a v1 error other than truncation stays the same when more bytes follow, unless they exceed the size limit |
| StreamTheorems.V1PrefixTruncated | fill-decoder/src/wire.rs:362-370 | every strict prefix of an accepted v1 transaction is refused as truncated and for no other reason |
| StreamTheorems.LegacyPrefixTruncated | fill-decoder/src/wire.rs:362-370 | the same for every strict prefix of the encoding of a legacy or v0 transaction |
| ConfigTheorems.LookupRecoversPacked | fill-decoder/src/wire.rs:43-49 | looking a bit up by rank returns exactly the word packed for it, or absence, for any number of slots |
| ConfigTheorems.PackRecoversLookup | fill-decoder/src/wire.rs:300-304 | every mask with one word per set bit is the packing of what its lookups return |
| ConfigTheorems.LookupInRange | fill-decoder/src/wire.rs:43-49 | on a parsed configuration a set bit always finds its word |
| ConfigTheorems.AccessorsRecoverFields | fill-decoder/src/wire.rs:51-65 | the accessors return the packed fields or the format's defaults |
| RouteReader.SkipExact | fill-decoder/src/idl_types.rs:119-128 | the chunked loop moves past exactly the given number of bytes or fails |
| RouteReader.SkipRemainingAccountsInfo | fill-decoder/src/idl_types.rs:130-136 | the counted loop moves past its count and two bytes an entry |
| RouteReader.SkipDynamicRouteSpec | fill-decoder/src/idl_types.rs:143-175 | candidates and selection mode are passed over as the layout table says, or rejected |
| RouteReader.DeserializeDex | fill-decoder/src/idl_types.rs:58-117 | the tag dispatch agrees with the reader in value, error and remaining bytes |
| RouteReader.DecodeSwapArgs | fill-decoder/src/idl_types.rs:266-300 | entrypoint recognition and argument decoding agree with the reader on every input |
| RouteTheorems.DeclaredIsSkipped | fill-decoder/src/idl_types.rs:66-112 | for every tag the widths of the fields declared in the embedded IDL add up to the bytes that are skipped |
| RouteTheorems.CandidateIsSkipped | fill-decoder/src/idl_types.rs:147-162 | the same for every dynamic candidate tag, and the accepted candidate tags are 0 to 17 |
| RouteTheorems.DexComplete | fill-decoder/src/idl_types.rs:58-117 | decoding a printed route entry of any layout consumes exactly its own bytes, whatever follows |
| RouteTheorems.DexSound | fill-decoder/src/idl_types.rs:58-117 | whatever is decoded as an entry is the printed form of an entry of its tag's layout |
| RouteTheorems.CandidatesComplete | fill-decoder/src/idl_types.rs:143-163 | a list of dynamic candidates with tag-dependent bodies is passed over exactly |
| RouteTheorems.RoutesComplete | fill-decoder/src/idl_types.rs:181-195 | a route vector of any mix of layouts is consumed exactly, entry by entry |
| RouteTheorems.LegsComplete | fill-decoder/src/aggregator.rs:83-107 | from the encoding of any route list behind a supported discriminator, the extracted fills are exactly the RFQ entries with side 0 or 1, in order |
| RouteTheorems.LegsSound | fill-decoder/src/aggregator.rs:83-107 | whatever is decoded as a supported swap is the encoding of a route list with exactly those fills |
| RouteTheorems.UnsupportedByDiscriminator | fill-decoder/src/idl_types.rs:282-299 | the rejected family is recognised by its discriminator alone, only supported swaps carry fills, and nothing decodes as token-ledger |
| Decoded.DecodeMessageSound | fill-decoder/src/transaction.rs:125-176 | decoding establishes the header, key-count and index invariants, keeps every field, numbers the instructions and attaches no fill |
| Decoded.DecodeMessageExact | fill-decoder/src/transaction.rs:125-206 | a parsed message decodes to all of itself if and only if its header fits its keys, at most 256 accounts are named and every index is in range; otherwise the error is that of the first of these that fails |
| Decoded.FillInstructionUnique | fill-decoder/src/transaction.rs:88-100 | two instructions with fills mean at least two fills |
| Decoded.SingleFillExact | fill-decoder/src/transaction.rs:81-101 | the unsupported-entrypoint error is given if and only if some instruction has one; otherwise no fill anywhere is not found, a total of two or more is that many, and success is the only fill of the only instruction with any |
| Exclusivity.UniqueStaticIndex | fill-decoder/src/exclusivity.rs:207-225 | the search tells an absent key, a repeated key, and the index of a key that occurs once |
| Exclusivity.CountReferences | fill-decoder/src/exclusivity.rs:154-163 | the nested counting loops return how often each tracked index is referenced, program ids included |
| Exclusivity.FindLeg | fill-decoder/src/exclusivity.rs:182-195 | the offset search tells no leg, the only leg, or more than one |
| Exclusivity.ReferencedAtOnePlace | fill-decoder/src/exclusivity.rs:155-175 | an index counted once stands at a single place |
| Exclusivity.CastIsLossless | fill-decoder/src/exclusivity.rs:217 | on a decoded message the cast of a static index to a byte loses nothing |
| Exclusivity.MultipleLegsImpossible | fill-decoder/src/exclusivity.rs:193-195 | the last error cannot occur on any message |
| Exclusivity.ValidateMakerAccounts | fill-decoder/src/exclusivity.rs:108-205 | a decoded message is accepted if and only if it meets the signing policy: distinct keys, each of the four at one static position, the authority a signer, the token accounts writable, no unsupported entrypoint, one fill in one instruction, and a thirteen-account leg there with the four indices at 0, 4, 5 and 6 that stand nowhere else; the report names these witnesses, and an error is the first check that fails |
| Pipeline.ExtractFills | fill-decoder/src/lib.rs:102-112 | entrypoint and fills are attached in place to exactly the instructions whose program is a static aggregator key |
| Pipeline.DecodeMessageInput | fill-decoder/src/lib.rs:82-87 | the loops return, value or error, what `PipelineTheorems.DecodeMessageBytesExact` states |
| Pipeline.DecodeTransactionInput | fill-decoder/src/lib.rs:69-74 | the loops return, value or error, what `PipelineTheorems.DecodeTransactionBytesExact` states |
| PipelineTheorems.DecodeMessageBytesExact | fill-decoder/src/lib.rs:82-87 | a message input fails with the error of its parse or of its decoding, or returns every field and instruction of the parse with entrypoint and fills attached to exactly the instructions that name the aggregator by a static key |
| PipelineTheorems.DecodeTransactionBytesExact | fill-decoder/src/lib.rs:69-74 | the same for a transaction input, with the signatures of the parse and a mismatch with the header reported before any decoding error |
| PipelineTheorems.DecodedInputsAreWellDecoded | fill-decoder/src/lib.rs:69-87 | both entry points return messages that keep the decoding invariants and have their fills attached, and a transaction has as many signatures as its header requires |
| PipelineTheorems.FillsComeFromSwaps | fill-decoder/src/lib.rs:102-112 | fills are found only in supported swaps of a statically named aggregator, and the unsupported mark stands exactly on its calls with a rejected discriminator |
| ResolutionTheorems.OnlyInItsLegSlot | fill-decoder/README.md:41-56 | for every lookup-table content that repeats no static key, the RFQ program and the three maker keys occur among all resolved program ids and accounts at accounts 0, 4, 5 and 6 of the reported leg and nowhere else |
| ResolutionTheorems.OnlyInLegExactly | fill-decoder/src/exclusivity.rs:3-7 | over unrestricted table contents that statement about a key holds if and only if no place reaches a loaded copy of it |
| ResolutionTheorems.ValidatedPassesOnChain | programs/solana-rfq-v2/src/handler.rs:48-64 | whatever the tables hold, no account of any other instruction of a validated message is one of the three maker keys |
| ResolutionTheorems.ValidatedFillNotBlocked | programs/solana-rfq-v2/src/handler.rs:123-128 | a fill of a validated message is never refused because of the maker's accounts |
| ResolutionTheorems.ValidatedCarriesOneLeg | fill-decoder/src/exclusivity.rs:140-146 | in a validated message the reported instruction's data encodes a route list whose one valid RFQ entry is the message's fill, no other instruction has one, and no call of the aggregator carries a rejected discriminator |
| Decimals.ParseDecimalExact | scripts/cli.ts:87-95 | the accepted strings are exactly digits with an optional point and more digits, split as written |
| Decimals.TrimExact | scripts/cli.ts:91 | trimming removes all whitespace on both sides and nothing else |
| Decimals.TrimSplits | scripts/cli.ts:91 | every string is its trimmed form between two runs of whitespace |
| Decimals.NumeralOfSpelling | scripts/cli.ts:98 | a digit string denotes the number it spells, leading zeros or not |
| Decimals.SpellingOfNumeral | scripts/cli.ts:98 | every digit string spells its number after some zeros |
| Decimals.DecimalToAtomsExact | scripts/cli.ts:90-99 | a string that writes a decimal, with any whitespace around it, gives its exact value times ten to the decimals, rounded down, for strings of any length; every other string is refused |
| Decimals.QtyPriceToAtomsExact | scripts/cli.ts:103-130 | quote atoms are the written quantity times the written price, scaled and rounded down once, on both exponent branches; every other pair of strings is refused |

## Left out

- Settlement.Bank.TransferChecked: the token program itself (authorities, delegates, frozen accounts, decimals check, fee extensions) is not modelled, because its code is not part of the repository; a transfer is a partial step on balances.
- Settlement.Bank.Handler: account constraints declared to the framework (mint, authority and token-program checks on the four token accounts) and the emitted event are not modelled; the clock and the sysvar contents are parameters.
- Mint extension parsing: a mint is its program and the fee of the current epoch, if any.
- RouteTheorems.LegsSound: bool and enum bytes inside skipped bodies are not restricted, because the decoder does not look at them.
- WireParser.ParseTransaction: the byte counts carried by a truncation error and the wording of other errors are not modelled; each error is kept apart by kind.
- RouteReader.DecodeSwapArgs: argument decoding errors are not told apart by the caller, so the reader's own error kinds stand in for the library's.
- Base58 and base64 text, JSON output, RPC fetching, argument parsing and printing: input and output.
- Floating-point display of prices: display only.
- Capacity and allocation of vectors: no effect on results.
- Signature verification, replay tracking of quote ids and simulation: not done by the repository's code.
- The aggregator program that forwards a route's levels to the fill instruction is not part of this model, so a decoded quote and an executed ladder are not identified.
- Vectors inside a decoded message are values; only the counting table, the instruction array and the cursor are updated in place.
