# Verified model of an OP Stack execution layer that runs Move and the EVM

The repository is an execution layer for an OP Stack chain on which Move and the EVM run side by side. This project
models the parts where a mistake would be hard to see, and proves what each of them is for. Run
`dafny verify dfyconfig.toml` to check it.

| part | files | what is modelled |
|---|---|---|
| Solidity ABI bridge | `MoveTypes`, `AbiCodec`, `AbiBridge`, `AbiCallee`, `FixedBytesSize` | Move values to Solidity values to bytes (head and tail encoding, as in "Formal Specification of the Encoding" of the Solidity Contract ABI Specification) and back |
| Base token accounting | `Ledger`, `Replay`, `Canonical`, `EthToken`, `GasFees` | charges, nonce, body, replay of the EVM's transfers, refund, deposits |
| Base fee | `Arith`, `BaseFee` | the "Specification" section of EIP-1559 with its floors and saturation |
| Block production | `BlockBuild`, `Settlement`, `Listing`, `Application`, `Economy` | executing candidates, receipts, header, the application's commands |
| Concurrent readers | `Chain`, `Readers` | a step system: one writer, indices made visible one by one, readers at any moment |
| Heights | `Bytes`, `Heights` | three sources of the latest height and of a height's state root |
| State | `MerkleStore`, `StateTrie`, `StorageTries`, `StateChanges` | content-addressed trie nodes, the flat store and the trie, storage tries per account, EVM diffs of a session |
| Entry arguments | `Utf8`, `EntryValidation` | type check, value check over an explicit stack, script arguments |

## How to read it

- Where the source changes things step by step, a method or class does the same steps (`EthToken.Session`,
  `Application.App`, `StateTrie.InMemoryState`, `StorageTries.TrieStore`, `Heights.DiskStore`, the loops in
  `BlockBuild`, `StateChanges` and `EntryValidation`), and its `ensures` says what function of the old state it
  computes. The lemmas are about those functions.
- Hashes are free: a code hash, a trie node's hash or a block's hash is the constructor applied to what was hashed, and
  in `BlockBuild` a byte string and its hash are one number. So hashing is injective, and nothing else is assumed of it.
- The virtual machines are data. A body is a list of balance transfers and EVM calls; its verdict, gas and logs are
  given. Every theorem holds for all of them.
- A hash table's order is an arbitrary choice in the methods and a parameter of the functions, so what is proved holds
  for every order. A lookup in a published index may return any value stored under the key.
- `Result` stands for the source's errors; panics are results too.
- `is_evm_storage_or_account_key` looks at the account prefix only, although its name speaks of storage keys too; the
  model follows the code. An empty EVM value would read as none from the trie; the source writes account records there,
  which are never empty.

## Where a natural property is false

- A string below the top level does not survive the ABI round trip (`AbiBridge.NestedStringLost`); `AbiBridge.RoundTripIff`
  says exactly which values do.
- A replay can fall short although each step was covered when it happened (`Replay.LateMoveDebitFallsShort`);
  `Replay.NeverFallsShortIff` says for exactly which bodies it cannot.
- A refund can fail when the treasury itself is the sender (`Canonical.TreasuryAsSenderLosesRefund`);
  `Canonical.RefundFailsIff` says exactly when it does.
- The EVM native account does not always end as it began: address 0x1 can be sent tokens inside the EVM
  (`Replay.NativeKeepsWhatItGets`); `Replay.NativeChange` says exactly when it is unchanged.
- A deposit listed twice in a payload runs twice (`Readers.RepeatedDepositRunsTwice`): the filter on candidates looks
  at receipts of earlier blocks only, and deposits have no nonce. Nothing else does (`BlockBuild.RunsTwiceIff`).
- The hash a block lists does not lead to the receipt when the transaction arrived in another encoding than EIP-2718,
  since receipts go by the hash of the bytes that arrived (`Readers.OtherEncodingMisses`); `Readers.ReceiptsVisible`
  says exactly when a key does.
- A slot that an earlier EVM diff of a session wrote can be lost once a later diff of the same account is applied
  (`StateChanges.EarlierWriteLost`), since each diff opens the trie at the stored root; `StateChanges.HistoryReadIff`
  says exactly which slots still read what the session wrote.
- Two spellings of an account tag share one place in the trie (`StateTrie.SpellingsCollide`);
  `StateTrie.ResolverMatchesFlat` says exactly when the trie answers as the flat store does.

## Model

| member | source | states |
|---|---|---|
| `AbiBridge.DecodeEncode` | evm-ext/src/solidity_abi.rs:156-425 | decoding an encoded value succeeds or fails exactly as told in advance, for every well-formed layout and typed value: fixed arrays and signers fail, everything else comes back as `ReturnedAtTop` says, text that is not UTF-8 with replacements |
| `AbiBridge.RoundTripIff` | evm-ext/src/solidity_abi.rs:156-425 | a value comes back unchanged exactly when it has no fixed array and no signer, its addresses have twelve zero top bytes, its fixed bytes have 32 bytes, a string at top level is UTF-8, and a string below it is the word of its own length |
| `AbiBridge.EncodeInjective` | evm-ext/src/solidity_abi.rs:156-188 | two values that survive the trip and have the same encoding are the same value |
| `AbiBridge.EncodingFits` | evm-ext/src/solidity_abi.rs:197-354 | what a typed value encodes to always has the Solidity type computed from its layout, an empty array standing in for empty bytes |
| `AbiBridge.ReturnedUnchanged` | evm-ext/src/solidity_abi.rs:356-425 | the translated-back value equals the original exactly when the value is faithful, node by node |
| `AbiBridge.TopString` | evm-ext/src/solidity_abi.rs:282-341 | a string alone at top level is read as its text although it is encoded as a one-field tuple, and comes back unchanged exactly when it is UTF-8 |
| `AbiBridge.NestedStringLost` | evm-ext/src/solidity_abi.rs:282-341 | decoding the encoding of a vector of one string, not 32 bytes long, succeeds with another value |
| `Utf8.LossyUnchangedIff` | evm-ext/src/solidity_abi.rs:387-389 | the lossy reading of a decoded string changes exactly what is not well-formed UTF-8 |
| `Utf8.LossyIsValid` | evm-ext/src/solidity_abi.rs:387-389 | a decoded string is always well-formed UTF-8 |
| `Utf8.ValidIff` | execution/src/tag_validation.rs:181-213 | bytes are well-formed UTF-8 exactly when they spell out code points, surrogates excluded, as section 3 of RFC 3629 encodes them |
| `Utf8.LossyFront` | evm-ext/src/solidity_abi.rs:387-389 | a lossy reading keeps a code point in front, and otherwise gives U+FFFD for the longest piece that could have begun one, or for one byte |
| `AbiBridge.ToEthAddress` | shared/src/primitives.rs:13-19 | the low 20 bytes of an address |
| `AbiBridge.ToMoveAddress` | shared/src/primitives.rs:25-33 | twelve zero bytes in front of the 20, and the low 20 bytes are those given |
| `AbiBridge.ScalarEncoding` | evm-ext/src/solidity_abi.rs:159-179 | the general encoder gives a small integer the word that the shortcut writes |
| `AbiBridge.EmptyVectorEncoding` | evm-ext/src/solidity_abi.rs:180-184 | the general encoder gives an empty vector the two words that the shortcut writes |
| `AbiBridge.InnerAbiEncodeParams` | evm-ext/src/solidity_abi.rs:156-188 | the encoder with its shortcuts equals the encoder without them, whose bytes `AbiCallee.CalleeReads` says what they are read as, for every typed value |
| `AbiCallee.CalleeReads` | evm-ext/src/solidity_abi.rs:187-296 | a callee that decodes at the type it declares reads the value itself, at any depth: fixed-size arrays in place with their length in the type, addresses by their low 20 bytes, fixed bytes filled up to a word |
| `AbiCallee.FixedArrayAsTuple` | evm-ext/src/solidity_abi.rs:263-279 | a fixed-size array at top level, read as a tuple of as many elements of its layout's type, gives back every element in its place as its own trip would |
| `AbiCallee.NumbersEncoding` | evm-ext/src/solidity_abi.rs:187-279 | a fixed-size array of numbers is their words and nothing else; a vector of numbers wider than a byte is the offset 32, the count and the words |
| `AbiCallee.EncodeWholeWords` | evm-ext/src/solidity_abi.rs:156-188 | whatever is encoded, the result is a whole number of 32-byte words |
| `AbiBridge.WriteScalar` | evm-ext/src/solidity_abi.rs:159-179 | the buffer ends up as zeros and then the big-endian bytes of the number |
| `AbiCodec.ParamsRoundTrip` | evm-ext/src/solidity_abi.rs:187-195 | decoding a parameter list reads back what was encoded, heads, tails, offsets and lengths, for every value and fitting type |
| `AbiCodec.DecodesBody` | evm-ext/src/solidity_abi.rs:191-195 | any value encoded anywhere inside a buffer decodes from that position |
| `AbiCodec.FrameLayout` | evm-ext/src/solidity_abi.rs:187 | in an encoded list the head of each element lies after the heads before it; a dynamic one is the length of all heads and of the tails before it, which is where the element lies |
| `AbiCodec.PackedPadding` | evm-ext/src/solidity_abi.rs:187 | bytes are encoded as their length, themselves, and fewer than 32 zeros up to a whole word |
| `AbiCodec.StringParams` | evm-ext/src/solidity_abi.rs:282-341 | a one-element tuple of bytes reads as the text itself when it is the whole parameter list |
| `FixedBytesSize.TypeArgsToSize` | evm-ext/src/solidity_abi.rs:427-458 | the bit-clearing loop computes one more than the number whose bits are the markers that are not set, always 1 to 32 |
| `FixedBytesSize.SizeInjective` | evm-ext/src/solidity_abi.rs:427-458 | equal sizes mean the same marker in each of the five places |
| `FixedBytesSize.SizeOfMarkers` | evm-ext/src/solidity_abi.rs:427-458 | the size is 32 less 16, 8, 4, 2 and 1 for a `B0` in the first to fifth place, and 32 without a struct of markers |
| `FixedBytesSize.Size` | evm-ext/src/solidity_abi.rs:427-458 | every list of type arguments gives a size from 1 to 32 |
| `Ledger.RunIffCovered` | execution/src/eth_token.rs:221-268 | a list of transfers runs to its end exactly when each was covered by what its sender had and had gained before |
| `Ledger.RunIffNeeds` | execution/src/eth_token.rs:221-268 | it runs to its end exactly when every account starts with its need, a number the list alone determines |
| `Ledger.RunKeepsTotal` | execution/src/eth_token.rs:179-219 | no list of transfers, finished or cut short, changes the sum of balances |
| `Ledger.RunNet` | execution/src/eth_token.rs:179-219 | a run changes each account by the net of the transfers it got to |
| `Replay.DeferredSameBalances` | execution/src/eth_token.rs:221-268 | replaying all credits and then all EVM transfers leaves every balance as the interleaved history does |
| `Replay.NeverFallsShortIff` | execution/src/eth_token.rs:237-265 | whatever the balances, a history and body that go through have a replay that goes through, exactly when for every account the deferred order needs no more than the history or the body does |
| `Replay.ReplayRunsToEnd` | execution/src/eth_token.rs:237-265 | bodies in which accounts that pay in the Move ledger spend inside a call at most that call's credit to them are among those |
| `Replay.SeparatedNeedsNoMore` | execution/src/eth_token.rs:237-265 | so such bodies need no more deferred than they did as they happened |
| `Replay.LateMoveDebitFallsShort` | execution/src/eth_token.rs:237-265 | a history that goes through, its body too, with a replay that falls short |
| `Replay.LateMoveNeedsMore` | execution/src/eth_token.rs:237-265 | its deferred order needs more than its history, as the exact condition says |
| `Replay.PassedNet` | execution/src/eth_token.rs:221-268 | for every account the passage through the EVM native account comes to each call's value passing from payer to origin |
| `Replay.AccountChange` | execution/src/eth_token.rs:221-268 | for every body and account, the EVM native one included, the replay leaves it changed by direct payments, values passed from payer to origin and EVM transfers, and unchanged exactly when these cancel |
| `Replay.NativeChange` | execution/src/eth_token.rs:221-268 | where the EVM native account neither pays nor originates a call, it changes by direct payments and the EVM transfers that name it only |
| `Replay.NativeKeepsWhatItGets` | execution/src/eth_token.rs:255-265 | tokens sent to address 0x1 inside the EVM stay with the native account |
| `EthToken.Session.TransferEth` | execution/src/eth_token.rs:179-219 | moves the amount, or fails and changes nothing when it is not covered; a zero amount always succeeds |
| `EthToken.Session.MintEth` | execution/src/eth_token.rs:139-177 | adds the amount to the receiver, nothing for zero |
| `EthToken.Session.ReplicateTransfers` | execution/src/eth_token.rs:221-268 | drains the log: the balances and the result are those of the credits and then the transfers, run in order |
| `EthToken.Session.CheckNonce` | execution/src/nonces.rs:60-127 | raises the nonce by one when it is the one given and not exhausted, otherwise tells which and leaves every nonce readable as before |
| `EthToken.Session.VerifyTransaction` | execution/src/canonical.rs:56-118 | chain, intrinsic gas, layer 1 charge, layer 2 charge and nonce in this order, with the cause of the first that fails |
| `EthToken.Session.RunEvent` | evm-ext/src/native_impl.rs:198-224 | one step of a body moves its payment, and an EVM call leaves its origin and transfers in the log |
| `EthToken.Session.RunBody` | execution/src/canonical.rs:177-268 | the body runs up to its first step that is not covered; when it ends, the log holds what the replay needs |
| `EthToken.ExecuteCanonicalTransaction` | execution/src/canonical.rs:120-332 | charging, body, replay and refund in place come to the outcome of the ledger model, whose balances, status, gas and errors `Canonical.ExecuteChange`, `SucceedsIff` and `ExecuteEnds` give |
| `EthToken.ExecuteDepositedTransaction` | execution/src/deposited.rs:30-159 | mint and replay in place come to the outcome that the ledger model gives |
| `Canonical.VerifyIff` | execution/src/canonical.rs:56-118 | a transaction is let in exactly when chain, gas, funds and nonce are in order, and refused with the first cause that is not |
| `Canonical.ChargedUpFront` | execution/src/canonical.rs:84-118 | a transaction that is let in has moved the layer 1 cost and the payment for its whole gas limit from the sender to the treasury, and nothing else |
| `Canonical.ExecuteChange` | execution/src/canonical.rs:155-299 | every account ends with what the transfers made net to, the sender without the layer 1 cost and the payment for the gas used, the treasury with both; they cancel when these are one |
| `Canonical.SucceedsIff` | execution/src/canonical.rs:177-330 | an outcome is a success exactly when the body ends well and every account, once charged, has what body and replay need; then all their transfers were made, otherwise the first of them; the gas and root are those of the virtual machine |
| `Canonical.ExecuteEnds` | execution/src/canonical.rs:120-332 | a transaction has an outcome exactly when it parses, nothing objects to it, its refund is covered and its body does not end with an error other than the user's; otherwise it ends with the first such error |
| `Canonical.ExecuteKeepsTotal` | execution/src/canonical.rs:120-332 | every transaction with an outcome, success or user error, keeps the sum of balances |
| `Canonical.ExecuteRaisesNonce` | execution/src/nonces.rs:60-127 | an outcome means the nonce was the expected one, and raises it by one for the signer only |
| `Canonical.RefundFailsIff` | execution/src/canonical.rs:281-299 | the refund of an admitted transaction fails exactly when there is something to refund and the net of what the body did to the treasury leaves less than that, for the treasury as sender too |
| `Canonical.RefundFailsForSenderIff` | execution/src/canonical.rs:281-299 | for another sender and gas within the limit: exactly when treasury, layer 1 cost, fee of the gas used and the body's net come to less than nothing |
| `Canonical.RefundSucceeds` | execution/src/canonical.rs:281-299 | in particular it cannot fail as long as the body does not spend from the treasury |
| `Canonical.TreasuryAsSenderLosesRefund` | execution/src/canonical.rs:281-299 | a treasury that sends a transaction itself can leave its own refund uncovered |
| `Canonical.TreasuryChange` | execution/src/canonical.rs:84-299 | the treasury's change is the two fees plus the net of the transfers made, whatever the body did |
| `Canonical.TreasuryGainsFees` | execution/src/canonical.rs:84-299 | the treasury gains exactly the layer 1 cost and the layer 2 fee of the gas used when the body made no EVM call, or its replay ended, or the treasury is not the EVM native account |
| `Canonical.DepositTotal` | execution/src/deposited.rs:84-138 | a deposit adds what it mints, and mints exactly when its EVM call succeeded |
| `Canonical.DepositChange` | execution/src/deposited.rs:84-159 | a deposit whose call failed changes no balance; otherwise every account has mint, value and EVM transfers, all of them when it ends without error and the first of them when not; nonces stay |
| `Canonical.DepositNativeChange` | execution/src/deposited.rs:84-138 | a finished deposit changes the EVM native account by mint, value and the EVM transfers that name it, and leaves it alone exactly when these cancel |
| `Canonical.DepositNative` | execution/src/deposited.rs:84-138 | where nothing else names it, that is exactly when mint and value are equal |
| `Canonical.DepositCompletes` | execution/src/deposited.rs:84-138 | a deposit's replay ends exactly when the native account covers the value and every account then has what the EVM's transfers need |
| `GasFees.PriceWithinCap` | execution/src/gas.rs:80-90 | the effective price stays within the sender's cap exactly when the cap covers the base fee |
| `GasFees.TipPerGas` | execution/src/gas.rs:80-86 | the tip is within both caps and reaches one of them |
| `GasFees.L2Fee` | execution/src/gas.rs:219-226 | the fee is the product of price, gas and multiplier, cut once at 256 bits |
| `GasFees.L2FeeMonotone` | execution/src/gas.rs:219-226 | gas within the limit costs no more than was charged for the limit, saturation included |
| `GasFees.ChargeFits` | evm-ext/src/native_impl.rs:249-254 | an EVM call within its limit is never charged more than the remaining balance |
| `GasFees.LimitIsTight` | evm-ext/src/native_impl.rs:249-254 | one unit above the limit would not fit |
| `GasFees.BalanceAfter` | evm-ext/src/native_impl.rs:382-391 | over any sequence of calls the charges and what is left add up to the starting balance |
| `BaseFee.MonotoneInGas` | blockchain/src/block/gas.rs:75-104 | more gas used never lowers the next base fee |
| `BaseFee.MonotoneInParent` | blockchain/src/block/gas.rs:75-104 | a higher parent fee never lowers the next base fee, both floors and saturation included |
| `BaseFee.Bounds` | blockchain/src/block/gas.rs:75-104 | the fee drops by at most parent over denominator, does not rise at or below target, and rises above target unless saturated |
| `BaseFee.ExactStep` | blockchain/src/block/gas.rs:75-104 | short of overflow the two floors are the one exact fraction of EIP-1559 |
| `BaseFee.FeeIs` | blockchain/src/block/gas.rs:75-104 | the next fee in numbers: the parent's, up by the larger of one and its share of the distance to the target over the denominator, down by that share, or unchanged, with both saturations |
| `BaseFee.StaysPositive` | blockchain/src/block/gas.rs:75-104 | with a denominator of at least two a positive fee stays positive over any chain |
| `BaseFee.PositiveIff` | blockchain/src/block/gas.rs:75-104 | every positive fee survives every chain exactly when the denominator is at least two |
| `BaseFee.NeverRaised` | blockchain/src/block/gas.rs:75-104 | blocks at or below target never raise the fee, however many there are |
| `BlockBuild.ExecuteTransactions` | app/src/command.rs:171-324 | the loop with its running sums has the result of including the candidates one by one: receipts with recipient, price, deployed address and layer 1 info, gas, bloom, log offset and total tip |
| `BlockBuild.TipAddsUp` | app/src/command.rs:276-278 | the total tip is what the receipts pay above the base fee, saturation included |
| `BlockBuild.RunsTwiceIff` | app/src/command.rs:44-64 | two places of a block with the same bytes both run exactly when they hold a deposit whose EVM call ends both times with a result or a user error; everything else runs at most once (that equal bytes decode to equal transactions is assumed) |
| `BlockBuild.ReceiptsFollowTransactions` | app/src/command.rs:193-304 | receipts are those of the candidates that ran, one each, in candidate order |
| `BlockBuild.IndexMatchesIff` | app/src/command.rs:238-303 | a receipt's index is its transaction's index exactly when no transaction before it was skipped |
| `BlockBuild.BuiltReceipts` | app/src/command.rs:74-112 | the receipts of a built block belong to an increasing list of its transactions and are numbered 0, 1, 2 and so on |
| `BlockBuild.BuiltTotals` | app/src/command.rs:257-324 | reported log indices are 0, 1, 2 without a gap, cumulative gas is the running sum and ends at the header's gas used, the header bloom is that of all logs, the block's value is what the receipts pay above the base fee |
| `Settlement.BlockSays` | app/src/command.rs:65-303 | every transaction that runs gets a receipt that says, on the state it ran on, whether body and replay ran to their end, the gas used, the price, what was deployed, the layer 1 info and the block number; the others leave no trace; layer 1 costs exactly when a deposit comes first |
| `Settlement.BlockSettles` | app/src/command.rs:185-230 | what each user transaction of a built block leaves on every account, with the layer 1 cost charged exactly when the block begins with a deposit |
| `Settlement.HeaderSays` | app/src/command.rs:84-112 | the header takes limit and time from the payload, lists transactions and receipts, and carries the root that the last transaction to run left behind |
| `Settlement.HeaderBloom` | app/src/command.rs:257-315 | the bits of the header's bloom filter are those set by the logs of the block's receipts |
| `Settlement.StopsIff` | app/src/command.rs:237-243 | a candidate stops the node exactly when it normalizes and its execution ends with an error that does not only make it invalid |
| `BlockBuild.AddsUpAlways` | app/src/command.rs:257-304 | indices, running gas with both saturations, log offsets and bloom stay in step over any list of candidates |
| `BlockBuild.GasOverflowIff` | app/src/command.rs:316-318 | building panics on gas exactly when the receipts' gas does not fit 64 bits |
| `BlockBuild.NoncesConsecutive` | execution/src/nonces.rs:98-108 | what one signer runs in a block carries the next nonces one after the other |
| `Application.App.AddTransaction` | app/src/command.rs:152-165 | the pool gains the transaction, with all that came along, under the hash of its encoding, and nothing else changes |
| `Application.App.DrainPool` | app/src/command.rs:59 | gives every pooled transaction once, in some order, and leaves the pool empty |
| `Application.App.AddBlock` | blockchain/src/block/in_memory.rs:38-47 | the three block indices each gain the block under their own key |
| `Application.App.GenesisUpdate` | app/src/command.rs:167-169 | the state is the step system's initial one, published to its end |
| `Application.App.Install` | app/src/command.rs:120-149 | the state after a block is the one that publishing it index by index leads to |
| `Application.App.StartBlockBuild` | app/src/command.rs:34-150 | a known payload id changes nothing; otherwise the one block then found under the id lists the payload's decodable transactions without a receipt in payload order, then every pooled one without a receipt, and nothing else; the state is the one the step system reaches, and a panic is a step it cannot take |
| `Application.BuildBlock` | app/src/command.rs:74-118 | executing and summing up in place gives the specified block |
| `Chain.Fresh` | app/src/command.rs:60-63 | keeps exactly the candidates that have no receipt yet |
| `Listing.BuiltLists` | app/src/command.rs:45-63 | whatever the order the pool is drained in, a block lists every open transaction of payload and pool exactly once per place, payload first and in order, and no other |
| `Chain.FindIff` | blockchain/src/block/in_memory.rs:120-137 | a lookup may return a value exactly when it was inserted under that key |
| `Chain.EveryRunInv` | app/src/command.rs:34-150 | in every state of every run, writer interrupted anywhere, each index shows a prefix of one chain of blocks, each built on the one before from candidates without receipts under a new payload id |
| `Chain.ReachableInv` | app/src/command.rs:120-149 | every step, whatever command or publication, keeps that invariant |
| `Chain.NumberIsPlace` | app/src/command.rs:74-81 | block numbers count up from the genesis block's zero |
| `Chain.BuildLinks` | app/src/command.rs:97-115 | a block carries its parent's hash and next number, its own header's hash, and the hashes of its transactions |
| `Chain.HashesDiffer` | app/src/command.rs:104-116 | no two blocks of a chain share a hash |
| `Chain.HeightsAreDense` | blockchain/src/block/in_memory.rs:139-141 | the height index holds exactly the heights from zero up |
| `Chain.LatestIsLast` | blockchain/src/block/in_memory.rs:115-117 | counting keys finds the last block that was built |
| `Chain.FinishIsRun` | app/src/command.rs:120-149 | finishing a block is the publish steps that are left |
| `Readers.PayloadThenBlock` | blockchain/src/block/in_memory.rs:38-47 | whoever finds a block by payload id finds it, and nothing else, by its hash and its height |
| `Readers.FoundIsWhole` | app/src/command.rs:120-149 | whoever finds a block by any index can look up all its transactions in order, and the receipt of each that ran, naming that block |
| `Readers.FoundStaysWhole` | app/src/command.rs:120-149 | the same holds for every later look in the run at a block found once |
| `Readers.TransactionsVisible` | blockchain/src/transaction/in_memory.rs:55-68 | each hash a found block lists leads to a record of that transaction, and only to records with that hash |
| `Readers.ReceiptAnswers` | app/src/command.rs:120-127 | whatever a receipt lookup answers is a receipt of a block that is there, with the key asked for, that block's hash and its number |
| `Readers.ReceiptsVisible` | blockchain/src/receipt/in_memory.rs:80-90 | a key leads to receipts that name a found block exactly when something in that block ran under that key |
| `Readers.OtherEncodingMisses` | app/src/command.rs:44-56 | a deposit that arrives in another encoding: the hash its block lists leads to no receipt of the block, the hash of the bytes that arrived does |
| `Readers.KeyRunsInOneBlock` | app/src/command.rs:60-63 | a key has receipts from one block at most |
| `Readers.NothingDisappears` | blockchain/src/transaction/in_memory.rs:37-42 | what a reader may once have found it may find in every later state |
| `Readers.PayloadIsWhole` | blockchain/src/payload/in_memory.rs:26-61 | a payload is answered with all its block's transactions in order, although each is looked up at a later moment of the run |
| `Readers.PayloadNeverChanges` | blockchain/src/payload/in_memory.rs:26-61 | two such answers for an id, at any two moments, are the same, whatever is included again |
| `Readers.RepeatedIdBuildsNothing` | app/src/command.rs:34-42 | asking again for an id that was built changes nothing |
| `Readers.ChainNoncesConsecutive` | execution/src/nonces.rs:60-127 | over a whole chain one signer's transactions with receipts carry consecutive nonces in chain order |
| `Readers.BlockRunsTwiceIff` | app/src/command.rs:44-64 | in every block of a chain, the same bytes run at two places exactly for deposits that end with a result or a user error (under the same assumption) |
| `Readers.RepeatedDepositRunsTwice` | app/src/command.rs:44-64 | a deposit listed twice in one payload runs twice |
| `Economy.FeeFollowsParent` | app/src/command.rs:64-102 | each header's base fee is the one computed from its parent's limit, gas used and fee, clamped to 64 bits |
| `Economy.ChainFeePositive` | app/src/command.rs:70-98 | a chain that starts with a positive base fee keeps one |
| `Economy.IncludeAllTotal` | app/src/command.rs:193-256 | a block changes the sum of balances by what its successful deposits mint |
| `Economy.ChainSupply` | app/src/command.rs:171-324 | along every chain the sum of balances is the genesis sum plus what successful deposits minted |
| `Bytes.BeOrder` | storage/rocksdb/src/generic.rs:28-39 | fixed-width big-endian keys are ordered and told apart like the numbers they encode |
| `Bytes.FromBeOfBe` | storage/rocksdb/src/generic.rs:28-39 | reading a big-endian key gives back the number |
| `Heights.LastKeyIsLatest` | storage/rocksdb/src/block.rs:43-50 | the last key of the height table is that of the last block, and no other key is last |
| `Heights.LatestAgrees` | storage/heed/src/block.rs:56-68 | key count, last key and state root counter name the same height, disk and memory the same block, and parent hashes link every block to the one below |
| `Heights.RootsStored` | storage/heed/src/state.rs:121-162 | every height above genesis leads to the root pushed when its transactions were executed, which is the root in its block's header; no other height leads to a root |
| `Heights.RootsAgree` | blockchain/src/state/read.rs:137-143 | root lookup by height is the same on disk and in memory, and the header's: at height zero exactly when the configured root is the genesis header's |
| `Heights.CounterRunsAhead` | storage/heed/src/state.rs:121-134 | between pushing a root and adding its block the counter is one ahead and nothing else differs |
| `Heights.DiskStore.Add` | storage/heed/src/block.rs:30-42 | the block and its height key are written |
| `Heights.DiskStore.PushStateRoot` | storage/heed/src/state.rs:121-134 | the root is written under the next height and the counter moves to it |
| `StateTrie.ResolverMatchesFlat` | blockchain/src/state/read.rs:272-313 | after any run of change sets with well-made account tags the trie answers for a key what the flat store answers, exactly when the key is well made and not an empty EVM value, or its account is absent |
| `StateTrie.CommittedNext` | state/src/lib.rs:110-118 | a change set whose new root reads its updates when it is new makes a longer run of commits |
| `StateTrie.OldRootsKeepTheirAnswers` | blockchain/src/state/read.rs:145-150 | after any number of further change sets, the database with all nodes added since answers at an old root what the flat store answered then |
| `StateTrie.MirrorsNext` | state/src/lib.rs:159-254 | one change set keeps both stores together, deletions and raw values included, in whatever order its entries come |
| `StateTrie.MirrorReads` | blockchain/src/state/read.rs:286-313 | for every key at all the trie answers what the flat store has under the key's canonical form |
| `StateTrie.TagRoundTrip` | evm-ext/src/type_utils.rs:22-31 | the tag made for an address spells it in lower-case hexadecimal, is recognised and leads back to that address |
| `StateTrie.PlaceIff` | state/src/lib.rs:258-273 | a resource has its place in the trie by an account's address exactly when its tag is of the module `evm` at 0x1 and its name is `Account_` and the twenty bytes in hexadecimal, `0x` in front or not |
| `StateTrie.CanonicalKey` | state/src/lib.rs:258-273 | every key shares its place in the trie with exactly one well-made key |
| `StateTrie.SpellingsCollide` | state/src/lib.rs:258-267 | two spellings of one address share a place in the trie but not in the flat store |
| `StateTrie.ToTreeValues` | state/src/lib.rs:213-254 | the collected updates are those of the entries in the order they came |
| `StateTrie.InsertCommits` | state/src/lib.rs:165-169 | one insertion adds nodes below a new complete root that reads the new value, or none for the empty string, and every other key as before |
| `StateTrie.InsertValues` | state/src/lib.rs:165-171 | inserting one by one in any order ends at a complete root that reads all updates, with content-addressed nodes to add |
| `StateTrie.InMemoryState.Apply` | state/src/lib.rs:110-118 | both stores take in the change set, the database gains the nodes of a new complete root and loses none, and all its change sets so far are a run of commits |
| `MerkleStore.PutReads` | evm-ext/src/state/storage.rs:211-222 | in any store with the old and the new nodes, the new root reads the new value at its path and everything else as before |
| `MerkleStore.ReadsKeep` | evm-ext/src/state/storage.rs:202-209 | a read that succeeded gives the same answer however much the store has grown |
| `MerkleStore.OverwritesNothing` | storage/heed/src/evm_storage_trie.rs:87-103 | content-addressed nodes written over content-addressed nodes replace nothing |
| `StorageTries.CommitStorage` | evm-ext/src/state/storage.rs:211-226 | writing slots one after the other gives the specified root and new nodes |
| `StorageTries.SlotsRead` | evm-ext/src/state/storage.rs:211-226 | with the new nodes added the new root is complete, and every slot reads as last written, zero as none |
| `StorageTries.StorageReads` | evm-ext/src/state/storage.rs:229-246 | once applied, a commit on top of an account's root is what its storage reads |
| `StorageTries.MergedIsInOrder` | evm-ext/src/state/storage.rs:148-172 | merging the changes and applying once leaves the same nodes and roots as applying every batch in order |
| `StorageTries.OldRootsKeepReading` | storage/heed/src/evm_storage_trie.rs:87-103 | a root that was complete stays complete and reads the same values, whatever is merged and applied later |
| `StorageTries.CurrentRoot` | evm-ext/src/state/storage.rs:164-172 | an account's root is that of its last batch |
| `StorageTries.BatchesOnlyAdd` | storage/heed/src/evm_storage_trie.rs:87-103 | content-addressed batches replace no node that is there |
| `StorageTries.UniqueKeyInjective` | storage/heed/src/evm_storage_trie.rs:31-33 | keys of different accounts never meet in the shared table |
| `StorageTries.InsertBatch` | storage/heed/src/evm_storage_trie.rs:87-98 | putting the nodes one by one in any order stores them all over what was there |
| `StorageTries.TrieStore.ApplyOne` | evm-ext/src/state/storage.rs:229-246 | an account's nodes and then its root are written |
| `StorageTries.TrieStore.Apply` | evm-ext/src/state/storage.rs:67-72 | applying account by account in any order writes all changes |
| `StorageTries.OverlayIsUnion` | trie/src/staging.rs:27-33 | a lookup in memory first and the inner store then is one in the inner nodes with the staged ones over them |
| `StorageTries.StagingIsTransparent` | trie/src/staging.rs:27-33 | staged nodes never change what is read below a root the inner store has in full, nor hide any inner node |
| `StorageTries.Staging.Insert` | trie/src/staging.rs:35-38 | the staged node is found first, every other lookup is as before |
| `StorageTries.Staging.Remove` | trie/src/staging.rs:45-48 | only the staged copy goes, the inner node shows again |
| `StateChanges.ExtractEvmChanges` | evm-ext/src/state_changes.rs:103-134 | squashing never fails; an account no diff changes gets nothing; any other gets one operation, new exactly when the store lacked it, with nonce, balance and code hash of the last diff that changes it and the root of its merged trie changes; code is written exactly when brought along, not empty and not stored |
| `StateChanges.SquashNext` | evm-ext/src/state_changes.rs:124-128 | adding one diff to the squashed ones cannot clash |
| `StateChanges.SingleChanges` | evm-ext/src/state_changes.rs:107-124 | one diff's operations, accounts in any order, untouched and self-destructed ones skipped |
| `StateChanges.AddAccountChanges` | evm-ext/src/state_changes.rs:136-223 | the slots are committed on top of the stored root, the record with the diff's nonce, balance and code hash and the new root is new or modified by what exists, and the code is added once if it is nowhere yet |
| `StateChanges.SessionStorage` | evm-ext/src/state_changes.rs:175-197 | after a session is applied an account's record and trie name the same complete root, which reads the last diff's slots over the stored ones and nothing of earlier diffs |
| `StateChanges.HistoryReadIff` | evm-ext/src/state_changes.rs:175-179 | a slot reads what all writes of the session make of it exactly when the account's last diff writes it, or the earlier diffs leave it at its stored value |
| `StateChanges.EarlierWriteLost` | evm-ext/src/state_changes.rs:175-179 | two diffs of one account after which a slot only the first wrote reads as never written |
| `EntryValidation.ValidateEntryTypeTag` | execution/src/tag_validation.rs:48-101 | the loop over the type gives the recursive verdict |
| `EntryValidation.OnlyAllowedStructs` | execution/src/tag_validation.rs:15-101 | a type is let through exactly when no struct outside the five can occur in its values at any depth; the unreachable arm is not reached |
| `EntryValidation.ValidateEntryValue` | execution/src/tag_validation.rs:106-178 | the stack loop ends and accepts exactly what the recursive definition accepts; on shaped values it never reports a violation |
| `EntryValidation.ValidateString` | execution/src/tag_validation.rs:181-213 | accepts exactly a vector of bytes that is well-formed UTF-8, and refuses bytes that are not as an invalid string |
| `EntryValidation.ValidateOption` | execution/src/tag_validation.rs:216-237 | gives the one element of a vector of at most one, and refuses longer ones as an invalid option |
| `EntryValidation.ValidateObject` | execution/src/tag_validation.rs:240-270 | accepts exactly an address that holds an object core and the inner type's resource |
| `EntryValidation.TypedIsShaped` | execution/src/tag_validation.rs:132-171 | for a type that was let through, comparing struct names alone never leads to a violation on a typed value |
| `EntryValidation.NothingToCheck` | execution/src/layout.rs:11-25 | where the layout has no value invariants the check would accept any value |
| `EntryValidation.ShortcutKeepsVerdict` | execution/src/execute.rs:62-72 | skipping the check never changes the verdict on an argument that deserialises |
| `EntryValidation.CheckArguments` | execution/src/execute.rs:46-73 | accepts exactly when the count matches and every argument passes; on well-made arguments no violation and no panic |
| `EntryValidation.PassedSignersAreSender` | execution/src/tag_validation.rs:118-124 | every signer at any depth of an accepted argument is the sender |
| `EntryValidation.AssembleScriptArguments` | execution/src/execute.rs:87-121 | references stripped, the sender fills signer parameters, the given arguments the others in order, and their number must be exact |

## Left out

- Readers.ReceiptsVisible: speaks of the bytes a transaction arrived as; whether those are its EIP-2718 bytes is up to the payload.
- StorageTries.StagingIsTransparent: for roots complete in the inner store; what a trie under construction stages is up to `eth_trie`.
- MoveVM, revm, alloy and `eth_trie` internals, and with them how much gas a body uses and which logs it makes.
- Partial effects of a Move function that aborts: a body is a list of atomic transfers, and what it did before a failing one stays.
- Gas exhaustion inside a transfer during replay, a known gap of the source (execution/src/eth_token.rs:203).
- 256-bit overflow of balances: no balance exceeds the total supply (`Ledger.BalanceBelowTotal`), which the model leaves unbounded.
- `Native` layouts and enum variants of Move values; the ABI decoder's recursion limit.
- ABI encodings whose length does not fit a 256-bit word.
- The layer 1 fee formula and where its input is taken in the payload (app/src/command.rs:49-57); the layer 1 cost of a transaction is given.
- Withdrawals, timestamps of receipts and the remaining header fields; what the layer 1 block info of a receipt says is given.
- The panic of a deposit that creates a contract, and code changes of module deployment.
- The check of new against modify inside the virtual machine's own in-memory storage: the flat store of the model takes every operation.
- How `eth_trie` shortens paths again after removals, and that it reports only the nodes of the last root: the model's tries may have other roots for the same contents, and more nodes.
- A code hash of zero that an account record keeps while its code resource goes by the hash of empty code.
- Genesis changes of EVM accounts, Move tables, proofs, and pending blocks of other chains: a chain starts from one genesis block.
- LMDB and RocksDB transactions and error handling; only ordered keys and appending are kept.
- HTTP server, JSON-RPC, tokens of the engine API, command queue capacity and shutdown, JSON and RLP, signature recovery.
