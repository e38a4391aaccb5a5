# Verification model of the blockchain node

A Dafny model of the core of a UTXO blockchain node written in C++: its elliptic-curve signatures, its ledger, its
hash and key-derivation block handling, its two invertible encodings and its vote trackers. Each module states what
the C++ code does, with the same branches, constants and error cases, and proves what that code is for; where the
code falls short of its purpose, the exact condition under which it does not is proved instead.

`dafny verify dfyconfig.toml` checks everything with Dafny 4.11.

| files | subject |
|---|---|
| `Wrappers`, `Arithmetic`, `ModularInverse`, `Curve`, `CurveLaws`, `ScalarMultiplication`, `EcdsaSigner`, `SevenPoints` | modular inverse, curve arithmetic, double-and-add, signing and verifying |
| `Sets`, `Ledger`, `UtxoSet`, `WalletIndex`, `Wallet`, `CoinSelection`, `Supply`, `MempoolState`, `TransactionVerification`, `Payments`, `NodeLedger` | transactions, the global UTXO set, the wallet's own map, coin selection, supply, reservations, verification, payments from wallet to mempool, and the three ledgers of a node |
| `Chain`, `ChainOrder`, `Blockchain`, `HeaderSync` | blocks, awaited headers, order and validity over runs, synchronisation with a peer |
| `MachineWords`, `Sequences`, `BitStrings`, `Sha256`, `Blake2b`, `Argon2` | padding and block formation, streaming, the memory-filling schedule |
| `AesTables`, `AesBits`, `AesField`, `AesBlock`, `AesReference`, `Aes256Cbc`, `TextStreams`, `Bip39SeedMaker` | the cipher against its definition and its inverse steps, mnemonics and back |
| `PhaseTracking`, `P2PNode`, `Quorum` | vote counting for the agreement phases, and what two quorums share |

Objects the C++ code changes in place are classes here (`UTXOSet`, `Wallet`, `Mempool`, `Blockchain`, `Sha256`,
`Blake2b`, `Argon2`, `AES256CBC`, `PhaseState`, `P2PNode`), and its loops are methods with invariants. Every such
method is tied to a function of its inputs or of the old state, and the results are lemmas about those functions.
Thrown exceptions are error values. C++ integers are unbounded here except where their width matters, and there the
wrap-around is written out: 64-bit balances and selection sums, 64-bit byte counters, 32-bit words and positions, the
8-bit loop counter of the block splitting.

The handlers of network messages are in
`BlockchainSolution/Include/Networking/Messages/FullNodeMessageHandler.cpp`: `onBlock` (lines 214-288),
`onNewTransaction` (291-354) for the mempool's runs, `onGetHeaders` and `onHeaders` (461-602) for the exchange of
headers, `onPrepare` (742-838), `onCommit` (839-905) and `onHashReady` (1035-1085) for the trackers, with the threshold
of `2 * (networkSize - 1) / 3` votes (803, 877). Transactions are verified in
`BlockchainSolution/Include/Structure/Wallets/Transaction.cpp` (152-273). The table cites the operations of the objects
that these two files are made of and called from.

## Where the code departs from its purpose

Each of these is proved, with the exact condition, by the member named.

- Doubling a point with y = 0 asks for the inverse of 0 and is given 1; the result leaves the curve except modulo 3
  and 11 (`CurveLaws.EcDoubleClosedIff`, with an input in `CurveLaws.DoubleLeavesCurve`).
- The modular inverse divides by zero for arguments that are not coprime (`ModularInverse.ModInverseCorrect`), and a
  negative scalar acts as its magnitude (`ScalarMultiplication.EcMulCorrect`).
- The verifier throws, instead of answering, when the message or r is 0 modulo n, because multiplication refuses a
  zero factor, and it divides by zero when s is a multiple of n other than 0 (`EcdsaSigner.VerifyReceived`, for every
  received pair; `EcdsaSigner.SignThenVerify`, for signatures just made; inputs in `SevenPoints.OutcomesOccur` and
  `SevenPoints.ReceivedPairThrows`).
- The BLAKE2b buffer is compressed as soon as it is full, so positive multiples of 128 bytes take an extra last block
  of zeros (`Blake2bStreaming.StandardIff`).
- Argon2 takes the previous block across lanes (`Argon2Schedule.PreviousInOwnLaneIff`). A segment starts with the 128
  address words left from before instead of new ones (`Argon2Schedule.Argon2.FillSegment`), so the uninitialised
  address block is never renewed when segments have at most 128 blocks (`Argon2Schedule.Argon2.FillMemoryBlocks`).
- The cipher skips one round (`AesBlock.EncryptIgnoresKey13`), and chained encryption of 240 or more bytes does not
  end (`Aes256Cbc.SplitTerminatesIff`, `Aes256Cbc.PadFitsIff`).
- Mnemonics lose everything beyond 128 bits (`Bip39SeedMaker.SeedRoundTripIff`).
- A committed block carries the hash of its empty form, and mining does not set it again
  (`BlockchainModule.CommittedHashIff`). It can therefore not be synchronised, and the chain that holds it is not valid
  (`HeaderSync.CommittedPeerNeverReached`, `BlockchainModule.CommittedBlockRejected`). The exchange of headers requests
  only the first 200 blocks besides (`HeaderSync.ExchangeOutcome`), and starts over from the first block even when the
  receiver has some (`HeaderSync.RestartedExchange`).
- Verification counts an outpoint named twice twice, compares sums that wrapped 64 bits, does not compare at all when
  an input is labelled Coinbase, and checks every transaction of a block against the set before the block
  (`TransactionVerification.AcceptedOrdinaryIff`, `TransactionVerification.AcceptedBlockConformsIff`; inputs in
  `TransactionVerification.RepeatedInputMints`, `TransactionVerification.CoinbaseLabelMints` and
  `TransactionVerification.SharedInputMints`). The label also lets an input take out an entry nobody signed for
  (`TransactionVerification.SpentIsSigned`, with an input in `TransactionVerification.LabelledInputSpends`).
- Coin selection misses coins that suffice when the covering sum wraps 64 bits
  (`WalletModule.Wallet.SelectUTXOs`, with an input in `WalletModule.OverflowOccurs`).
- An agreed block is applied to the global set and the wallet even when the chain refuses it
  (`NodeLedger.RunAgreesIff`, with an input in `NodeLedger.RefusedBlockDiverges`), and it is the block of one commit
  message, not the tracked one (`PhaseTracking.HandedBlock`, with an input in `PhaseTracking.OtherBlockHanded`).
- The comment in the handlers asks for 2f + 1 votes; the threshold does not make nodes that committed share a correct
  voter when n = 3f + 2, except for two nodes (`Quorum.SafeSizeIff`).

## Model

| member | source | states |
|---|---|---|
| ModularInverse.Mod | BlockchainSolution/Include/Encryptions/KeyGenerator.h:46-48 | the double C++ remainder is the representative of its class in [0, m), for negative dividends too |
| ModularInverse.BalancedStep | BlockchainSolution/Include/Encryptions/KeyGenerator.h:29-37 | one turn of the extended Euclid loop keeps the coefficients alternating in sign, below the modulus, and exactly balancing it |
| ModularInverse.EuclidLoopCorrect | BlockchainSolution/Include/Encryptions/KeyGenerator.h:29-37 | from any balanced state the loop ends: with a coefficient that inverts the argument when the two numbers are coprime, by a division by zero exactly when they are not |
| ModularInverse.ModInverseCorrect | BlockchainSolution/Include/Encryptions/KeyGenerator.h:21-44 | for a >= 1 and m > 1 a result exists exactly when a and m are coprime, and it is the only inverse in [0, m); the single correction by m is enough |
| ModularInverse.ModInverseOutsideLoop | BlockchainSolution/Include/Encryptions/KeyGenerator.h:25-43 | for a <= 1 the loop is not entered and the answer is 1, an inverse only of numbers congruent to 1 |
| ModularInverse.ComputeModInverse | BlockchainSolution/Include/Encryptions/KeyGenerator.h:21-44 | the loop with its four variables: an inverse exactly when there is one, the division by zero exactly when there is none |
| ModularInverse.InverseModPrime | BlockchainSolution/Include/Encryptions/KeyGenerator.h:21-44 | modulo a prime every positive number the prime does not divide has its inverse returned |
| Curve.ThirdPoint | BlockchainSolution/Include/Encryptions/KeyGenerator.cpp:39-45 | the reflected third point of a line misses the curve by (x3 - x1) times what the line misses it by at x2 |
| CurveLaws.AddGeneric | BlockchainSolution/Include/Encryptions/KeyGenerator.cpp:39-45 | a chord addition of two points with different abscissas succeeds, and its slope and coordinates satisfy the chord congruences with both coordinates reduced |
| CurveLaws.DoubleGeneric | BlockchainSolution/Include/Encryptions/KeyGenerator.cpp:48-59 | a doubling with y not zero succeeds, and its slope and coordinates satisfy the tangent congruences |
| CurveLaws.EcDoubleClosed | BlockchainSolution/Include/Encryptions/KeyGenerator.cpp:48-59 | doubling a point with y not zero stays on the curve, for every odd prime modulus |
| CurveLaws.EcDoubleClosedIff | BlockchainSolution/Include/Encryptions/KeyGenerator.cpp:48-59 | doubling any point of the curve returns a result, and that result is valid exactly when y is not zero or the modulus is 3 or 11; the source takes 1 for the inverse of 0 |
| CurveLaws.DoubleLeavesCurve | BlockchainSolution/Include/Encryptions/KeyGenerator.cpp:48-59 | modulo 5 the double of (2, 0) is (0, 4), which is not on the curve |
| CurveLaws.EcAddClosed | BlockchainSolution/Include/Encryptions/KeyGenerator.cpp:32-46 | the sum of two valid points is valid, unless a point with y = 0 is doubled |
| CurveLaws.EcAddIdentity | BlockchainSolution/Include/Encryptions/KeyGenerator.cpp:34-35 | (0, 0) is the identity on both sides, for any point |
| CurveLaws.EcAddInverse | BlockchainSolution/Include/Encryptions/KeyGenerator.cpp:36-38 | the mirror image of a point is on the curve and adds up with it to (0, 0) |
| CurveLaws.EcAddCommutative | BlockchainSolution/Include/Encryptions/KeyGenerator.cpp:32-46 | addition commutes, although both orders compute different differences, inverses and slopes |
| ScalarMultiplication.Plus | BlockchainSolution/Include/Encryptions/KeyGenerator.cpp:32-46 | on a good curve addition is a total operation on the valid points |
| ScalarMultiplication.DoubleAndAddCorrect | BlockchainSolution/Include/Encryptions/KeyGenerator.cpp:68-80 | with an associative law the loop adds the k-fold sum of its point to Q, whatever Q it starts from; a negative factor counts as its magnitude |
| ScalarMultiplication.DoubleAndAddValid | BlockchainSolution/Include/Encryptions/KeyGenerator.cpp:68-80 | without associativity: from valid points the loop never divides by zero and ends on a valid point |
| ScalarMultiplication.EcMulCorrect | BlockchainSolution/Include/Encryptions/KeyGenerator.cpp:61-83 | multiplication throws exactly for 0 and for factors above n, and returns the k-fold sum otherwise |
| ScalarMultiplication.TimesModOrder | BlockchainSolution/Include/Encryptions/KeyGenerator.cpp:61-83 | a point of order n sees its factor only modulo n |
| ScalarMultiplication.ComputeEcMul | BlockchainSolution/Include/Encryptions/KeyGenerator.cpp:61-83 | the loop updating Q, the point and the factor: Q and the point stay valid at every turn, and the result is the k-fold sum |
| EcdsaSigner.ComputeSignMessage | BlockchainSolution/Include/Encryptions/ECDSASigner.cpp:8-23 | the do-while loop over the drawn nonces computes the signature of the first one with a nonzero abscissa |
| EcdsaSigner.SignatureOrigin | BlockchainSolution/Include/Encryptions/ECDSASigner.cpp:8-23 | a finished signature comes from a drawn k in 1..n-1 whose point has the nonzero abscissa r, and s is the inverse of k times e + r d |
| EcdsaSigner.SigningSucceedsIff | BlockchainSolution/Include/Encryptions/ECDSASigner.cpp:13-22 | with every draw in 1..n-1 signing never throws, and it finishes exactly when some draw has a nonzero abscissa |
| EcdsaSigner.FactorsAdded | BlockchainSolution/Include/Encryptions/ECDSASigner.cpp:27-29 | the two factors of the verifier combine, modulo n, to the inverse of s times e + r d (section 4.1.4 of SEC 1) |
| EcdsaSigner.VerifierExponentInverse | BlockchainSolution/Include/Encryptions/ECDSASigner.cpp:27-29 | which is the nonce, for a signature with k s equal to e + r d modulo n |
| EcdsaSigner.VerifierPoint | BlockchainSolution/Include/Encryptions/ECDSASigner.cpp:31 | the sum of the two multiples is the (u1 + u2 d)-fold base point |
| EcdsaSigner.VerifyReceived | BlockchainSolution/Include/Encryptions/ECDSASigner.cpp:25-34 | the verdict on every received pair: a division by zero exactly for an s that is a multiple of n other than 0; otherwise an exception exactly when e or r is 0 modulo n, and else acceptance exactly when r is the abscissa of the w (e + r d)-fold base point, w being the inverse of s, or 1 for s = 0 |
| EcdsaSigner.SignThenVerify | BlockchainSolution/Include/Encryptions/ECDSASigner.cpp:8-34 | the round trip for every key, message and nonce: a signature just made is accepted against d G exactly when e, r and e + r d are nonzero modulo n; the verifier throws when e or r vanishes and refuses when only the sum does |
| SevenPoints.GroupLawHolds | BlockchainSolution/Include/Encryptions/KeyGenerator.cpp:32-59 | on y^2 = x^3 + 7 modulo 13 the addition of the source is associative, so the hypotheses of EcMulCorrect and SignThenVerify can be met |
| SevenPoints.DomainExists | BlockchainSolution/Include/Encryptions/KeyGenerator.cpp:32-83 | some curve of the form used, with a base point of prime order, satisfies everything the signer assumes |
| SevenPoints.OutcomesOccur | BlockchainSolution/Include/Encryptions/ECDSASigner.cpp:8-34 | on that curve one signature is accepted, two make the verifier throw, for e and for r, and one is refused |
| SevenPoints.ReceivedPairThrows | BlockchainSolution/Include/Encryptions/ECDSASigner.cpp:25-34 | on that curve a received pair makes the verifier divide by zero although neither e nor r vanishes |
| Ledger.TotalRemove | BlockchainSolution/Include/Structure/Wallets/Wallet.cpp:90-98 | the total of a UTXO map does not depend on the order of its entries |
| UtxoSet.UTXOSet.AddUTXO | BlockchainSolution/Include/Structure/Wallets/UTXOSet.cpp:6-12 | an outpoint is set to its entry, replacing any other |
| UtxoSet.UTXOSet.RemoveUTXO | BlockchainSolution/Include/Structure/Wallets/UTXOSet.cpp:14-23 | exactly the outpoint is taken out, if it is there |
| UtxoSet.UTXOSet.AddTransaction | BlockchainSolution/Include/Structure/Blockchain.cpp:307-327 | the outputs of a transaction are added before its inputs are removed |
| UtxoSet.UTXOSet.AddBlock | BlockchainSolution/Include/Structure/Blockchain.cpp:291-329 | the transactions of a block are applied one after the other |
| WalletIndex.AgreementIff | BlockchainSolution/Include/Structure/Wallets/Wallet.cpp:173-204 | the wallet (inputs first) and the global set (outputs first) agree after a transaction exactly when it spends none of its own outputs to the wallet and re-creates no held outpoint with other data |
| WalletIndex.AgreementOverRuns | BlockchainSolution/Include/Structure/Wallets/Wallet.cpp:206-213 | over any run of transactions whose identifiers determine their outputs and which do not spend themselves, the wallet's map is exactly its part of the global set |
| WalletModule.Wallet.RemoveUTXO | BlockchainSolution/Include/Structure/Wallets/Wallet.cpp:346-353 | exactly the outpoint is taken out, if it is there |
| WalletModule.Wallet.UpdateUTXOsWithTransaction | BlockchainSolution/Include/Structure/Wallets/Wallet.cpp:173-204 | spent outpoints go first, then the own outputs come in under unused outpoints only |
| WalletModule.Wallet.UpdateUTXOsFromNewBlock | BlockchainSolution/Include/Structure/Wallets/Wallet.cpp:206-213 | the transactions of a block are applied one after the other |
| WalletModule.Wallet.GetBalance | BlockchainSolution/Include/Structure/Wallets/Wallet.cpp:90-98 | the balance is the total of the map modulo 2^64, whatever the order of the walk |
| WalletModule.Wallet.SelectUTXOs | BlockchainSolution/Include/Structure/Wallets/Wallet.cpp:291-344 | the greedy choice by 64-bit sums; it is the outcome asked for exactly when the selections of the amount are worth less than 2^64: nothing exactly when the coins outside the mempool's index are worth less than the amount, otherwise distinct ones of them worth the total reported, which covers the amount; no equally many coins are worth less, and without the largest chosen one the amount is not covered |
| WalletModule.GreedyOutcome | BlockchainSolution/Include/Structure/Wallets/Wallet.cpp:311-343 | for any order of equal coins, the prefix the loop stops at is that outcome exactly when the first covering prefix does not wrap 64 bits |
| WalletModule.OverflowOccurs | BlockchainSolution/Include/Structure/Wallets/Wallet.cpp:311-343 | coins of 1 and 2^64 - 1 suffice for 2^64 - 1, but nothing is selected |
| WalletModule.TakeSmallest | BlockchainSolution/Include/Structure/Wallets/Wallet.cpp:316-329 | the loop stops at the first nonempty prefix whose 64-bit sum reaches the amount |
| WalletModule.PrefixSelection | BlockchainSolution/Include/Structure/Wallets/Wallet.cpp:311-343 | the first prefix of the ascending coins that reaches the amount is a selection in the sense above |
| CoinSelection.SmallestPrefix | BlockchainSolution/Include/Structure/Wallets/Wallet.cpp:311-314 | any k of the coins are worth at least the k smallest |
| CoinSelection.ChangeIsSmall | BlockchainSolution/Include/Structure/Wallets/Wallet.cpp:291-344 | the change is less than the largest coin chosen |
| CoinSelection.SelectionDetermined | BlockchainSolution/Include/Structure/Wallets/Wallet.cpp:311-314 | however ties are sorted, the number of coins and the total are the same |
| CoinSelection.SortByValue | BlockchainSolution/Include/Structure/Wallets/Wallet.cpp:311-314 | an ascending permutation of the coins |
| WalletModule.Wallet.CreateTransaction | BlockchainSolution/Include/Structure/Wallets/Wallet.cpp:119-170 | the greedily selected coins, all of the wallet and none reserved, against the amount to the payee and the rest of the 64-bit total to the payer, or nothing; a payment worth exactly its inputs exactly when the selections do not wrap 64 bits and there is something to pay |
| WalletModule.PaymentAccepted | BlockchainSolution/Include/Structure/Wallets/Wallet.cpp:119-170 | a payment of an agreeing wallet meets the guard on reserved outpoints and is an ordinary transaction that burns nothing |
| Payments.PaymentVerified | BlockchainSolution/Include/Structure/Wallets/Wallet.cpp:119-170 | a payment of an agreeing wallet, signed with its key, passes verification whatever its amount |
| Payments.PaymentKept | BlockchainSolution/Include/Structure/Wallets/Wallet.cpp:119-170 | with a new identifier it is then kept in the mempool, and exactly its inputs leave the unreserved entries of the wallet |
| Payments.PaymentMoves | BlockchainSolution/Include/Structure/Wallets/Wallet.cpp:119-170 | applied to the global set, a payment to someone else moves exactly its amount from the one total to the other |
| Supply.OrdinaryTotal | BlockchainSolution/Include/Structure/Blockchain.cpp:307-327 | an ordinary transaction lowers the total by inputs minus outputs |
| Supply.RewardTotal | BlockchainSolution/Include/Structure/Blockchain.cpp:111-120 | a reward raises the total by its outputs, its input naming no entry |
| Supply.Conservation | BlockchainSolution/Include/Structure/Blockchain.cpp:291-329 | over every conforming run the total plus what was burned is the starting total plus the rewards |
| Supply.BalancedBurnsNothing | BlockchainSolution/Include/Structure/Wallets/Wallet.cpp:148-161 | nothing is burned exactly when every ordinary transaction has outputs equal to inputs |
| Supply.GenesisConforms | BlockchainSolution/Include/Structure/Blockchain.cpp:546-561 | the five genesis transactions are fresh rewards of 300 together |
| Supply.SupplyFromGenesis | BlockchainSolution/Include/Structure/Blockchain.cpp:546-561 | from the genesis total of 300, any conforming run ends at 300 plus its rewards minus what was burned, and at 300 plus its rewards exactly when every ordinary transaction balances |
| TransactionVerification.Verify | BlockchainSolution/Include/Structure/Block.cpp:294-306 | the checks a block makes of a transaction: every input passes, and the 64-bit sums compare unless an input is labelled Coinbase |
| TransactionVerification.AcceptedIff | BlockchainSolution/Include/Structure/Block.cpp:294-306 | acceptance with its checks written out: every input without the label names an entry whose script holds the hash of the key in its second word, and the first word is a signature that fits; without labels the sums compare |
| TransactionVerification.SpentIsSigned | BlockchainSolution/Include/Structure/Block.cpp:294-306 | over any run of accepted blocks an entry leaves the set by an input that is labelled or signed for it |
| TransactionVerification.LabelledInputSpends | BlockchainSolution/Include/Structure/Block.cpp:294-306 | an input with the label takes out the entry it names without a signature |
| TransactionVerification.AcceptedOrdinaryIff | BlockchainSolution/Include/Structure/Block.cpp:294-306 | while the supply fits 64 bits, an accepted transaction without a Coinbase label is ordinary exactly when it names no outpoint twice and its outputs do not wrap 64 bits |
| TransactionVerification.RepeatedInputMints | BlockchainSolution/Include/Structure/Block.cpp:294-306 | an outpoint of value v named twice is accepted for an output of 2v, and the supply grows by v |
| TransactionVerification.CoinbaseLabelMints | BlockchainSolution/Include/Structure/Blockchain.cpp:111-120 | an input labelled Coinbase waives the comparison, and all outputs are new |
| TransactionVerification.BlockConformsIff | BlockchainSolution/Include/Structure/Blockchain.cpp:307-327 | transactions that conform on their own, ordinary or labelled rewards, do so one after the other exactly when no two ordinary ones share an input |
| TransactionVerification.AcceptedBlockConformsIff | BlockchainSolution/Include/Structure/Block.cpp:294-306 | all transactions of a block are checked against the set before it; a block with rewards that passes conforms exactly when no outpoint is spent by two of its transactions without a label |
| TransactionVerification.SharedInputMints | BlockchainSolution/Include/Structure/Block.cpp:294-306 | two transactions of a block that spend one outpoint of value v are both accepted, and the supply grows by v |
| TransactionVerification.BlocksConformIff | BlockchainSolution/Include/Structure/Blockchain.cpp:291-329 | a run of blocks that pass where they are applied conforms exactly when each of them meets that condition |
| TransactionVerification.SpentByOwner | BlockchainSolution/Include/Structure/Block.cpp:294-306 | over any run of blocks that pass, an entry leaves the set only by an input with a key of the hash in its script that signed |
| TransactionVerification.SupplyOfAcceptedBlocks | BlockchainSolution/Include/Structure/Blockchain.cpp:546-561 | from the genesis, after any such run the set holds 300 plus what labelled transactions create, less what the others leave unclaimed |
| TransactionVerification.RewardLabelled | BlockchainSolution/Include/Structure/Blockchain.cpp:111-120 | the reward a leader or a miner adds carries the Coinbase label |
| TransactionVerification.CommittedDisjoint | BlockchainSolution/Include/Structure/Blockchain.cpp:257-289 | a block committed from an exact mempool, with its rewards, meets the condition on shared inputs |
| NodeLedger.StepAgreesIff | BlockchainSolution/Include/Structure/Blockchain.cpp:166-212 | with awaited headers or without, a step keeps the global set equal to the replay of the complete part of the chain exactly when it is headers, a received block that fills, is refused or comes when nothing is awaited, or an agreed block that is valid when nothing is awaited or is refused without effect |
| NodeLedger.RunAgreesIff | BlockchainSolution/Include/Structure/Blockchain.cpp:291-329 | over whole runs of agreed blocks, received blocks and headers the two agree throughout exactly when every step is so where it is taken |
| NodeLedger.ValidRunAgrees | BlockchainSolution/Include/Structure/Blockchain.cpp:151-177 | they agree throughout when agreed blocks are valid and blocks extend the chain only while nothing is awaited |
| NodeLedger.RefusedBlockDiverges | BlockchainSolution/Include/Structure/Blockchain.cpp:166-177 | an agreed block with an output that the chain refuses leaves the set and the chain apart |
| NodeLedger.ChainPassed | BlockchainSolution/Include/Structure/Block.cpp:294-306 | over any run, each transaction of a full block that came onto the chain passed against the set before the step that brought it |
| NodeLedger.RunWalletAgrees | BlockchainSolution/Include/Structure/Wallets/Wallet.cpp:206-213 | whatever blocks the chain refuses, after any run of regular transactions the wallet is its part of the global set |
| NodeLedger.ProcessBlocks | BlockchainSolution/Include/Structure/Wallets/Wallet.cpp:206-213 | the wallet and the global set take any sequence of blocks, and the balance is then the total of the owner's part of the global set modulo 2^64 |
| MempoolState.PendingDisjoint | BlockchainSolution/Include/Structure/Wallets/Mempool.cpp:6-16 | with an exact index no two pending transactions spend the same outpoint |
| MempoolState.AddExactIff | BlockchainSolution/Include/Structure/Wallets/Mempool.cpp:6-16 | adding keeps the index exact precisely when no input is reserved by another transaction and a replaced one keeps its inputs |
| MempoolState.RemoveExact | BlockchainSolution/Include/Structure/Wallets/Mempool.cpp:18-32 | removing a transaction keeps the index exact |
| MempoolState.RemoveAllExact | BlockchainSolution/Include/Structure/Wallets/Mempool.cpp:68-74 | a new block takes out exactly its own transactions and exactly their reservations |
| MempoolState.ExactOverRuns | BlockchainSolution/Include/Structure/Wallets/Mempool.cpp:6-74 | over every run of received transactions, accepted blocks and commits, the reserved map is exactly input of a pending transaction to its identifier, and pending inputs are disjoint |
| MempoolState.ReceivedKeptIff | BlockchainSolution/Include/Structure/Wallets/Mempool.cpp:6-39 | a received transaction is kept, its inputs reserved, exactly when it is verified, its identifier is new and not the error one, and it shares no input with a pending transaction |
| MempoolState.Mempool.AddTransaction | BlockchainSolution/Include/Structure/Wallets/Mempool.cpp:6-16 | every input is reserved under the identifier, and the transaction is pending |
| MempoolState.Mempool.RemoveTransaction | BlockchainSolution/Include/Structure/Wallets/Mempool.cpp:18-32 | a pending transaction and the reservations of its inputs are taken out; an unknown one changes nothing |
| MempoolState.Mempool.UpdateMempoolOnNewBlock | BlockchainSolution/Include/Structure/Wallets/Mempool.cpp:68-74 | the transactions of the block are removed one after the other |
| Chain.FillLinkedIff | BlockchainSolution/Include/Structure/Blockchain.cpp:200-208 | filling keeps the chain linked exactly when the block carries its computed hash or nothing follows it: the computed hash is compared, the carried one is linked to |
| Chain.RunConsistent | BlockchainSolution/Include/Structure/Blockchain.cpp:166-212 | over any mix of added blocks, received headers and received blocks that carry their computed hash, neighbours stay hash-linked, and with nothing awaited the whole chain is valid |
| Chain.RunValidIff | BlockchainSolution/Include/Structure/Blockchain.cpp:331-351 | over any such mix of full blocks, whatever hashes they carry: with nothing awaited, a chain that started from a full first block is valid exactly when every block after the first carries its computed hash |
| Chain.FillProgress | BlockchainSolution/Include/Structure/Blockchain.cpp:179-212 | a successful fill leaves exactly one awaited header fewer, an unsuccessful one none |
| ChainOrder.AddedIff | BlockchainSolution/Include/Structure/Blockchain.cpp:150-177 | a block extends a chain with consecutive indices, increasing timestamps and linked hashes exactly when its transactions pass and the longer chain is such a chain |
| ChainOrder.RunInOrder | BlockchainSolution/Include/Structure/Blockchain.cpp:150-177 | over any run of agreed and received blocks with nothing awaited such a chain only grows and stays one |
| ChainOrder.LastHashSettlesChain | BlockchainSolution/Include/Structure/Blockchain.cpp:331-351 | two valid chains of one length with the same last hash have the same headers and the same transaction identifiers from the second block on |
| BlockchainModule.Blockchain.VerifyBlockTransactions | BlockchainSolution/Include/Structure/Block.cpp:294-306 | true exactly when every transaction passes against the global set |
| BlockchainModule.Blockchain.IsBlockValid | BlockchainSolution/Include/Structure/Blockchain.cpp:151-164 | index, time, previous hash and transactions; on a chain in order, exactly the blocks whose transactions pass and that keep it in order |
| BlockchainModule.Blockchain.AddBlock | BlockchainSolution/Include/Structure/Blockchain.cpp:166-177 | a block is appended, and its transactions leave the mempool, exactly when it is valid: on a chain in order, when its transactions pass and the longer chain is in order |
| BlockchainModule.Blockchain.AddFullBlockToFirstAwaitedHeader | BlockchainSolution/Include/Structure/Blockchain.cpp:179-212 | exactly a matching block replaces the first awaited header, and no other position changes |
| BlockchainModule.Blockchain.ReceiveBlock | BlockchainSolution/Include/Structure/Blockchain.cpp:166-212 | a block from a peer fills the first awaited header or, failing that, is appended when it is valid, and nothing else changes the chain |
| BlockchainModule.Blockchain.AppendNewHeaders | BlockchainSolution/Include/Structure/Blockchain.cpp:466-488 | headers are appended as awaited up to the first that does not continue the chain |
| BlockchainModule.Blockchain.GetHeightByHash | BlockchainSolution/Include/Structure/Blockchain.cpp:491-503 | the first position that carries the hash, or -1 when none does |
| BlockchainModule.Blockchain.GetHeadersFrom | BlockchainSolution/Include/Structure/Blockchain.cpp:506-521 | consecutive headers from the start on, ending with the stop hash, at the count or at the end of the chain; a negative count is no limit |
| HeaderSync.StopHashEndsRange | BlockchainSolution/Include/Structure/Blockchain.cpp:506-521 | with a stop hash exactly the headers up to the first that carries it, or up to the count |
| BlockchainModule.Blockchain.GetAppendedHeaders | BlockchainSolution/Include/Structure/Blockchain.cpp:525-537 | at most 200 consecutive headers from the first awaited one, none when none is awaited |
| BlockchainModule.Blockchain.IsChainValid | BlockchainSolution/Include/Structure/Blockchain.cpp:331-351 | true exactly when every block after the first carries its computed hash and its predecessor's |
| BlockchainModule.Blockchain.AddTransaction | BlockchainSolution/Include/Structure/Blockchain.cpp:214-232 | a transaction is added unless another is pending under its identifier |
| BlockchainModule.Blockchain.CommitBlock | BlockchainSolution/Include/Structure/Blockchain.cpp:257-289 | with too few pending transactions the error block and no change; otherwise each of them exactly once, the reward last, an empty mempool, a header that continues a chain in order, and a carried hash that is not the computed one |
| BlockchainModule.CommittedHashIff | BlockchainSolution/Include/Structure/Block.cpp:4-8 | without hash collisions, a block stamped when it was empty carries its computed hash exactly while it has no transactions and no nonce |
| BlockchainModule.CommittedBlockRejected | BlockchainSolution/Include/Structure/Blockchain.cpp:200-208 | so a block with transactions, mined or not, never completes its own header, and a chain with it after the first position is never valid |
| BlockchainModule.CommittedBlockAdded | BlockchainSolution/Include/Structure/Blockchain.cpp:257-284 | on a chain in order, a block committed later than the last one is added when its transactions pass |
| HeaderSync.RoundExtends | BlockchainSolution/Include/Structure/Blockchain.cpp:466-537 | a round from a prefix of a linked peer chain ends on the prefix longer by the headers received exactly when their blocks carry their computed hashes, and otherwise is stuck at the first that does not; the listed headers are the missing ones in order, at most 200 |
| HeaderSync.RoundsReachPeerIff | BlockchainSolution/Include/Structure/Blockchain.cpp:506-521 | k rounds of m headers reach the whole chain exactly when all missing blocks carry their computed hashes and k times m is at least their number |
| HeaderSync.HeaderPhaseComplete | BlockchainSolution/Include/Structure/Blockchain.cpp:466-521 | asking on from the last header while batches are full collects all headers that are missing, also when the last batch is full |
| HeaderSync.FindPeerBlock | BlockchainSolution/Include/Structure/Blockchain.cpp:401-420 | with distinct hashes the requested block is the one found |
| HeaderSync.ExchangeOutcome | BlockchainSolution/Include/Structure/Blockchain.cpp:466-537 | for any linked peer of full blocks with distinct hashes and any prefix of its chain, an exchange from the own height ends with the peer's chain exactly when at most 200 blocks are missing and all of them carry their computed hashes |
| HeaderSync.RestartedExchange | BlockchainSolution/Include/Networking/P2PNode.cpp:306-326 | the first request names no block; with a prefix of r > 0 blocks it reproduces the chain exactly when nothing is missing, or r is a multiple of 200 and an exchange from there would do |
| HeaderSync.CommittedPeerNeverReached | BlockchainSolution/Include/Structure/Blockchain.cpp:179-212 | so a receiver without some committed block of a peer never reproduces its chain, by an exchange or by any number of rounds of any size |
| Sha256Padding.ZeroCountLeast | BlockchainSolution/Include/Encryptions/SHA256.cpp:85-120 | the number of zeros is the least that section 5.1.1 of FIPS 180-4 allows |
| Sha256Padding.ShortBlockWords | BlockchainSolution/Include/Encryptions/SHA256.cpp:18-31 | the last block of 511 characters still parses to the words of the full block, because the length has at most 31 bits |
| Sha256Padding.OverflowBlock | BlockchainSolution/Include/Encryptions/SHA256.cpp:85-103 | with 448 to 511 bits left the block takes the 1 and zeros only, and the length follows in a block of its own |
| Sha256Padding.Sha256.ConvertBinary | BlockchainSolution/Include/Encryptions/SHA256.cpp:122-133 | bit 8 j + i of the result is bit 7 - i of byte j, counted from the lowest |
| Sha256Padding.BigEndianWords | BlockchainSolution/Include/Encryptions/SHA256.cpp:122-133 | the words of a block of bytes are four bytes each, the highest first |
| Sha256Padding.PaddedUnique | BlockchainSolution/Include/Encryptions/SHA256.cpp:145-191 | there is one string with the message, a 1, fewest zeros and the length, each bit in powers of two (section 5.1.1 of FIPS 180-4) |
| Sha256Padding.Sha256.Pad512Bits | BlockchainSolution/Include/Encryptions/SHA256.cpp:85-120 | what is appended in each case, with the 1 written at most once between two resets of the shared flag |
| Sha256Padding.Sha256.ComputeHash | BlockchainSolution/Include/Encryptions/SHA256.cpp:18-31 | sixteen words are read, none of them wrapping 32 bits, and compressed |
| Sha256Padding.Sha256.DigestLong | BlockchainSolution/Include/Encryptions/SHA256.cpp:158-186 | the loop over a long message ends and folds the compression over the blocks of sections 5.1.1 and 5.2.1 of FIPS 180-4 |
| Sha256Padding.Sha256.Digest | BlockchainSolution/Include/Encryptions/SHA256.cpp:145-191 | for every message under 2^31 bits, its bits in order, then a 1, the fewest zeros and the length in 64 bits, are folded block by block, and the shared flag is down again |
| Blake2bStreaming.UpdateAbsorbed | BlockchainSolution/Include/Encryptions/Blake2b.cpp:38-58 | an update continues the state, the counter and the buffer of all the data so far |
| Blake2bStreaming.SplitsDoNotMatter | BlockchainSolution/Include/Encryptions/Blake2b.cpp:38-58 | after any sequence of updates these depend only on the concatenated input |
| Blake2bStreaming.StandardIff | BlockchainSolution/Include/Encryptions/Blake2b.cpp:38-93 | the compressions are those of section 3.3 of RFC 7693 exactly for the empty message and for lengths that are not a multiple of 128 |
| Blake2bStreaming.Blake2b.constructor | BlockchainSolution/Include/Encryptions/Blake2b.cpp:7-36 | a new object is the state of the empty message |
| Blake2bParameters.ParameterWordIsStandard | BlockchainSolution/Include/Encryptions/Blake2b.cpp:15-26 | for digests of up to 64 bytes the first chaining word is that of section 3.3 of RFC 7693 |
| Blake2bStreaming.InitialStateIsStandard | BlockchainSolution/Include/Encryptions/Blake2b.h:73-82 | the initial values are the first 64 bits of the fractional parts of the square roots of the first eight primes (section 2.6 of RFC 7693), the first combined with the parameter word |
| Blake2bStreaming.SerializeAt | BlockchainSolution/Include/Encryptions/Blake2b.cpp:79-92 | byte j of the output is byte j modulo 8, counted from the lowest, of word j / 8 of the state |
| Blake2bStreaming.Blake2b.UpdateWith | BlockchainSolution/Include/Encryptions/Blake2b.cpp:38-58 | the copy loop fills the buffer and compresses it as soon as it is full |
| Blake2bStreaming.Blake2b.Final | BlockchainSolution/Include/Encryptions/Blake2b.cpp:60-93 | the rest, padded with zeros, is compressed as the last block with the full byte count; the digest is the first outlen bytes |
| Blake2bStreaming.WriteWords | BlockchainSolution/Include/Encryptions/Blake2b.cpp:79-92 | whole words and then the remaining bytes are a prefix of the little-endian state |
| Blake2bStreaming.Hash | BlockchainSolution/Include/Encryptions/Blake2b.cpp:95-100 | the one-shot digest is the fold of the calls above, cut to the length asked for |
| Blake2bStreaming.HashChunks | BlockchainSolution/Include/Encryptions/Blake2b.cpp:38-93 | however the data is cut into updates, the digest is that of the whole |
| Argon2Schedule.RoundingGivesLayout | BlockchainSolution/Include/Encryptions/Argon2.cpp:7-33 | the rounded size is at least the one asked for, less than four blocks a lane above it or the least size of eight, and divides into lanes of four equal segments of at least two blocks |
| Argon2Schedule.ReferenceArea | BlockchainSolution/Include/Encryptions/Argon2.cpp:333-361 | the number of blocks that may be referred to is positive and at most a lane |
| Argon2Schedule.ReferenceAreaCounts | BlockchainSolution/Include/Encryptions/Argon2.cpp:336-360 | the area is the number of blocks of the lane that hold a value of this or the last pass and are not due in the rest of the segment, or 1 |
| Argon2Schedule.ReferenceIndex | BlockchainSolution/Include/Encryptions/Argon2.cpp:363-371 | the scaled position is inside the area, apart from the adjustment to 1 at the start |
| Argon2Schedule.ReferenceIndexIff | BlockchainSolution/Include/Encryptions/Argon2.cpp:362-370 | block k of the area is picked exactly by the low halves whose fraction of 2^32 lies in its part of the area, counted from the end |
| Argon2Schedule.ReferenceReached | BlockchainSolution/Include/Encryptions/Argon2.cpp:362-370 | every block of an area is the reference for some random word |
| Argon2Schedule.ReferenceLaneOf | BlockchainSolution/Include/Encryptions/Argon2.cpp:333-335 | the high half of the random word modulo the number of lanes, except that Argon2i and Argon2id stay in their lane in the first pass |
| Argon2Schedule.ReferenceFilledIff | BlockchainSolution/Include/Encryptions/Argon2.cpp:327-372 | in the first pass a reference was filled before exactly when it is in no later lane, in an earlier segment, or one of the two first blocks |
| Argon2Schedule.PreviousInOwnLaneIff | BlockchainSolution/Include/Encryptions/Argon2.cpp:294-296 | the previous block is in the same lane exactly when the block is not at the front of its lane or there is one lane only; section 3.2 of RFC 9106 always wants the same lane |
| Argon2Schedule.PreviousNext | BlockchainSolution/Include/Encryptions/Argon2.cpp:297-302 | the position after the previous block, around the whole memory, is that of the block |
| Argon2Schedule.PreviousReadIff | BlockchainSolution/Include/Encryptions/Argon2.cpp:316-319 | the 32-bit computation of the previous position gives that block exactly when it does not wrap |
| Argon2Schedule.StepSound | BlockchainSolution/Include/Encryptions/Argon2.cpp:280-307 | a step due next writes its block for the first time in the pass, and in the first pass of Argon2i and Argon2id refers to a filled block of its lane |
| Argon2Schedule.StepCoverage | BlockchainSolution/Include/Encryptions/Argon2.cpp:280-307 | after a step exactly the blocks due before the next one are filled |
| Argon2Schedule.Argon2.constructor | BlockchainSolution/Include/Encryptions/Argon2.cpp:7-33 | a zeroed memory of the rounded size |
| Argon2Schedule.Argon2.GenerateAddress | BlockchainSolution/Include/Encryptions/Argon2.cpp:482-501 | the next word of the address block, which is mixed anew once all 128 were taken |
| Argon2Schedule.TakeNext | BlockchainSolution/Include/Encryptions/Argon2.cpp:482-501 | the n-th word taken in a segment is word n modulo 128 of the block after n / 128 renewals, of which the first block is the one left from before |
| Argon2Schedule.AddressWordIs | BlockchainSolution/Include/Encryptions/Argon2.cpp:482-501 | word k of the block left from before for the first 128 words, and after c + 1 renewals word k of the mix of zeros with the input whose counter is c |
| Argon2Schedule.Argon2.InitializeInputBlock | BlockchainSolution/Include/Encryptions/Argon2.cpp:503-518 | pass, lane, segment, the two costs and the variant in front, zeros from the counter on |
| Argon2Schedule.Argon2.ComputePseudoRandom | BlockchainSolution/Include/Encryptions/Argon2.cpp:312-325 | the first word of the previous block for the data-dependent variants and passes, an address word otherwise |
| Argon2Schedule.Argon2.ComputeRefBlockIndices | BlockchainSolution/Include/Encryptions/Argon2.cpp:327-372 | lane and index of the reference, both in bounds, as ReferenceLaneOf, ReferenceAreaCounts and ReferenceIndexIff determine them |
| Argon2Schedule.Argon2.ComputeStep | BlockchainSolution/Include/Encryptions/Argon2.cpp:281-302 | the indices of a step are in bounds and those its place and its random word determine |
| Argon2Schedule.Argon2.FillBlock | BlockchainSolution/Include/Encryptions/Argon2.cpp:280-307 | one step in place: all asserted indices are in bounds, its block is the mix of the previous and the reference block, and the schedule is longer by this step |
| Argon2Schedule.Argon2.FillSegment | BlockchainSolution/Include/Encryptions/Argon2.cpp:258-309 | a segment of a lane is filled, each block once, and nothing else; its first 128 address words, whatever its length, are those of the address block left from before, and each later 128 those of one renewal |
| Argon2Schedule.Argon2.InitializeFirstBlocks | BlockchainSolution/Include/Encryptions/Argon2.cpp:194-255 | the first two blocks of every lane are set, none of them overwritten by another lane |
| Argon2Schedule.Argon2.FillMemoryBlocks | BlockchainSolution/Include/Encryptions/Argon2.cpp:130-150 | all passes: every index in bounds, every block written exactly once a pass after its predecessor, the words of Argon2d and of later passes of Argon2id taken from the memory of that moment, references of the first pass of Argon2i and Argon2id filled and in the same lane; every address word is determined by the uninitialised address block, which is never renewed exactly for Argon2d, no pass, or segments of at most 128 blocks |
| AesTables.InvSBoxInverts | BlockchainSolution/Include/Encryptions/AES256CBC.cpp:88-104 | the inverse substitution table undoes the substitution table on all 256 bytes |
| AesReference.SBoxIsInverse | BlockchainSolution/Include/Encryptions/AES256CBC.cpp:88-95 | every entry of the substitution table is the affine image of the inverse of its byte in the field (section 5.1.1 of FIPS 197) |
| AesField.ComputeGMul | BlockchainSolution/Include/Encryptions/AES256CBC.cpp:126-146 | the eight rounds of shift, reduce and add compute the product that GMulIsProduct is about |
| AesReference.DoublingIsReduced | BlockchainSolution/Include/Encryptions/AES256CBC.cpp:126-146 | doubling is multiplication by x, reduced by x^8 + x^4 + x^3 + x + 1 |
| AesReference.GMulIsProduct | BlockchainSolution/Include/Encryptions/AES256CBC.cpp:126-146 | for all bytes the eight rounds compute the product in the field (section 4.2 of FIPS 197), as Horner's scheme gives it |
| AesField.GMulLinear | BlockchainSolution/Include/Encryptions/AES256CBC.cpp:126-146 | multiplication by any byte respects XOR |
| AesField.GMulLinearSecond | BlockchainSolution/Include/Encryptions/AES256CBC.cpp:126-146 | and so does multiplying a byte by a sum |
| AesField.DoubledFactor | BlockchainSolution/Include/Encryptions/AES256CBC.cpp:126-146 | doubling a byte doubles its factor, for every factor with a clear high bit |
| AesField.InvMixInverts | BlockchainSolution/Include/Encryptions/AES256CBC.cpp:148-184 | the inverse matrix undoes the mixing of every column |
| AesBlock.RoundInverts | BlockchainSolution/Include/Encryptions/AES256CBC.cpp:88-193 | the inverse steps in reverse order undo a round, for any round key |
| AesReference.RoundEntry | BlockchainSolution/Include/Encryptions/AES256CBC.cpp:88-193 | each byte of a round: four substituted bytes of its row, rotated, times the factors 2, 3, 1, 1 rotated by its column, added to the byte of the key |
| AesReference.CipherEntry | BlockchainSolution/Include/Encryptions/AES256CBC.cpp:30-49 | each byte of the cipher block from the bytes of the plain block, the first key, twelve rounds and the last key |
| AesBlock.DecryptInverts | BlockchainSolution/Include/Encryptions/AES256CBC.cpp:30-49 | for every block and any fifteen round keys the inverse steps recover the input of the cipher |
| AesBlock.EncryptIgnoresKey13 | BlockchainSolution/Include/Encryptions/AES256CBC.cpp:37-43 | round key 13 never matters: the loop runs twelve rounds, one fewer than FIPS 197 has |
| Aes256Cbc.UnpadInverts | BlockchainSolution/Include/Encryptions/AES256CBC.cpp:217-237 | unpadding recovers every padded text |
| Aes256Cbc.PadBytes | BlockchainSolution/Include/Encryptions/AES256CBC.cpp:217-237 | the bytes added all hold their number |
| Aes256Cbc.UnchainInverts | BlockchainSolution/Include/Encryptions/AES256CBC.cpp:12-28 | undoing the chaining recovers every list of blocks |
| Aes256Cbc.ChainAt | BlockchainSolution/Include/Encryptions/AES256CBC.cpp:12-28 | each cipher block encrypts the XOR of its plain block and the cipher block before it |
| Aes256Cbc.CbcRoundTrip | BlockchainSolution/Include/Encryptions/AES256CBC.cpp:12-28 | undoing the hexadecimal text, the chaining and the padding recovers every plaintext |
| Aes256Cbc.SplitTerminatesIff | BlockchainSolution/Include/Encryptions/AES256CBC.cpp:239-247 | the 8-bit counter of the splitting loop passes the end exactly for messages of at most 240 bytes |
| Aes256Cbc.PadFitsIff | BlockchainSolution/Include/Encryptions/AES256CBC.cpp:217-247 | padded texts stay within that exactly for plaintexts under 240 bytes |
| Aes256Cbc.AES256CBC.SubBytesInPlace | BlockchainSolution/Include/Encryptions/AES256CBC.cpp:88-95 | the loops over the matrix substitute every byte |
| Aes256Cbc.AES256CBC.ShiftRowsInPlace | BlockchainSolution/Include/Encryptions/AES256CBC.cpp:106-113 | row i is rotated by i |
| Aes256Cbc.AES256CBC.MixColumnsInPlace | BlockchainSolution/Include/Encryptions/AES256CBC.cpp:148-168 | every row of the matrix is mixed with the constants, from its values before |
| Aes256Cbc.AES256CBC.AddRoundKeyInPlace | BlockchainSolution/Include/Encryptions/AES256CBC.cpp:186-193 | every byte is combined with that of the key |
| Aes256Cbc.AES256CBC.InvSubBytesInPlace | BlockchainSolution/Include/Encryptions/AES256CBC.cpp:97-104 | the loops over the matrix substitute every byte by the inverse table |
| Aes256Cbc.AES256CBC.InvShiftRowsInPlace | BlockchainSolution/Include/Encryptions/AES256CBC.cpp:115-124 | row i is rotated by 4 - i |
| Aes256Cbc.AES256CBC.InvMixColumnsInPlace | BlockchainSolution/Include/Encryptions/AES256CBC.cpp:170-184 | every row of the matrix is mixed with the inverse constants |
| Aes256Cbc.AES256CBC.ComputeEncrypt | BlockchainSolution/Include/Encryptions/AES256CBC.cpp:30-49 | the in-place steps compute the cipher that DecryptInverts and CipherEntry are about |
| Aes256Cbc.AES256CBC.SplitToBlocks | BlockchainSolution/Include/Encryptions/AES256CBC.cpp:239-247 | for at most 240 bytes the loop with the 8-bit counter ends with the blocks in order |
| Aes256Cbc.AES256CBC.CbcEncrypt | BlockchainSolution/Include/Encryptions/AES256CBC.cpp:12-28 | for fewer than 240 bytes chained encryption ends, with the text that CbcRoundTrip decrypts |
| Bip39SeedMaker.BinaryIs | BlockchainSolution/Include/Encryptions/BIP39SeedMaker.cpp:22-32 | a number below 2^128 gets exactly its 128 bits, a larger one four bits a hexadecimal digit and at least 132 |
| Bip39SeedMaker.GroupCount | BlockchainSolution/Include/Encryptions/BIP39SeedMaker.cpp:34-42 | the groups are as many as elevens, rounded up, and all below 2048 |
| Bip39SeedMaker.UngroupInverts | BlockchainSolution/Include/Encryptions/BIP39SeedMaker.cpp:34-42 | eleven bits for each group give back any string of whole groups |
| TextStreams.ReadSpaced | BlockchainSolution/Include/Encryptions/BIP39SeedMaker.cpp:44-61 | reading the text of a mnemonic from a stream gives back its words, although the last space is cut off |
| Bip39SeedMaker.MnemonicWords | BlockchainSolution/Include/Encryptions/BIP39SeedMaker.cpp:44-61 | the words of a number below 2^128 are those at its digits to the base 2048 from the highest bit down, the last one completed by the checksum |
| Bip39SeedMaker.ReverseOfTransform | BlockchainSolution/Include/Encryptions/BIP39SeedMaker.cpp:131-148 | reading any mnemonic back gives the first 128 bits of its groups |
| Bip39SeedMaker.SeedBitsAt | BlockchainSolution/Include/Encryptions/BIP39SeedMaker.cpp:131-148 | any text, word by word: the eleven digits of its position, or those of the first word for one that is not listed |
| Bip39SeedMaker.TooShortIff | BlockchainSolution/Include/Encryptions/BIP39SeedMaker.cpp:131-148 | reading fails exactly on fewer than twelve words |
| Bip39SeedMaker.SeedRoundTripIff | BlockchainSolution/Include/Encryptions/BIP39SeedMaker.cpp:44-61 | a number comes back in hexadecimal exactly when it is below 2^128, and then the mnemonic has twelve words (section Generating the mnemonic of BIP-39) |
| Bip39SeedMaker.ComputeBinary | BlockchainSolution/Include/Encryptions/BIP39SeedMaker.cpp:22-32 | the loop over the hexadecimal digits and the padding |
| Bip39SeedMaker.ComputeSplitToGroups | BlockchainSolution/Include/Encryptions/BIP39SeedMaker.cpp:34-42 | the loop in steps of eleven |
| Bip39SeedMaker.ComputeTransformToSeed | BlockchainSolution/Include/Encryptions/BIP39SeedMaker.cpp:44-61 | the loop that appends the words |
| Bip39SeedMaker.BinToInt | BlockchainSolution/Include/Encryptions/BIP39SeedMaker.cpp:122-129 | the number a string of binary digits denotes |
| Bip39SeedMaker.ComputeReverseSeed | BlockchainSolution/Include/Encryptions/BIP39SeedMaker.cpp:131-148 | the loop over the words of the text |
| PhaseTracking.CollectCounts | BlockchainSolution/Include/Networking/Messages/PhaseState.cpp:25-50 | the number of votes kept is the number of distinct authors who sent one of the type |
| PhaseTracking.CollectKeepsFirst | BlockchainSolution/Include/Networking/Messages/PhaseState.cpp:25-50 | the vote kept for an author is the first message of that type the author sent |
| PhaseTracking.TrackerIsItsEvents | BlockchainSolution/Include/Networking/P2PNode.cpp:548-634 | exactly the started keys are tracked, and a tracker depends on nothing but its own events since it was last started |
| PhaseTracking.VoteCounts | BlockchainSolution/Include/Networking/P2PNode.cpp:570-622 | over any run the counts are the numbers of distinct authors since the last start, and index and previous hash of the tracked block are those of the block it was started with |
| PhaseTracking.BlockReplacedOnce | BlockchainSolution/Include/Networking/Messages/PhaseState.cpp:86-98 | between two starts the tracked block is replaced at most once, by a received block with the index and the previous hash of the proposed one and at most one transaction that has not, which then stays |
| PhaseTracking.FirstMinedTaken | BlockchainSolution/Include/Networking/Messages/PhaseState.cpp:86-98 | the first mined version received since the start is the tracked block |
| PhaseTracking.TrackedBlock | BlockchainSolution/Include/Networking/P2PNode.cpp:624-634 | after any messages: the block tracked for a key is the first mined version received since its last start, and the own prepare vote is sent then |
| PhaseTracking.HandlersOrderly | BlockchainSolution/Include/Networking/P2PNode.cpp:548-747 | after any messages from anyone: a tracker is prepared exactly with enough distinct prepare authors before, committed exactly with enough distinct commit authors, and then has handed exactly one block to the chain since it was started, that of the vote that completed the number |
| PhaseTracking.CommitsReceived | BlockchainSolution/Include/Networking/P2PNode.cpp:583-594 | every commit vote of a tracker is a message received for its key |
| PhaseTracking.HandedBlock | BlockchainSolution/Include/Networking/P2PNode.cpp:583-622 | the block handed over is that of one received commit message whose author was counted, and is the tracked block exactly when that message carries it |
| PhaseTracking.AgreedBlockHanded | BlockchainSolution/Include/Networking/P2PNode.cpp:583-622 | if all commit messages for a key carry one block, that block is handed over |
| PhaseTracking.OtherBlockHanded | BlockchainSolution/Include/Networking/P2PNode.cpp:583-622 | a run of four nodes in which one commit message with another block decides what is handed over |
| PhaseTracking.CommitRunState | BlockchainSolution/Include/Networking/P2PNode.cpp:548-697 | enough prepare votes and enough commit votes of distinct authors commit, whatever blocks they carry |
| P2PNodeModule.PhaseState.IsReceivedFromAuthor | BlockchainSolution/Include/Networking/Messages/PhaseState.cpp:52-74 | true exactly when a message of the author is kept |
| P2PNodeModule.PhaseState.AddPrepareMessage | BlockchainSolution/Include/Networking/Messages/PhaseState.cpp:25-36 | a prepare message of a new author is appended, any other message ignored |
| P2PNodeModule.PhaseState.AddCommitMessage | BlockchainSolution/Include/Networking/Messages/PhaseState.cpp:38-50 | a commit message of a new author is appended, any other message ignored |
| P2PNodeModule.PhaseState.CheckIfBlockMined | BlockchainSolution/Include/Structure/Block.cpp:262-292 | true exactly for the same index, the same previous hash and no two transactions that the block does not have, although the count stops at two |
| P2PNodeModule.PhaseState.SetHashReady | BlockchainSolution/Include/Networking/Messages/PhaseState.cpp:86-98 | the first mined version replaces the block and raises the flag |
| P2PNodeModule.P2PNode.AddNewPhaseState | BlockchainSolution/Include/Networking/P2PNode.cpp:548-555 | a key is started with a fresh tracker, replacing any other |
| P2PNodeModule.P2PNode.AddPrepareMessage | BlockchainSolution/Include/Networking/P2PNode.cpp:570-581 | only the tracker of the key changes; an untracked key changes nothing |
| P2PNodeModule.P2PNode.AddCommitMessage | BlockchainSolution/Include/Networking/P2PNode.cpp:583-594 | only the tracker of the key changes; an untracked key changes nothing |
| P2PNodeModule.P2PNode.SetHashReady | BlockchainSolution/Include/Networking/P2PNode.cpp:624-634 | only the tracker of the key changes; an untracked key changes nothing |
| P2PNodeModule.P2PNode.SetFlag | BlockchainSolution/Include/Networking/P2PNode.cpp:636-721 | a flag of one tracker is raised and nothing else changes |
| P2PNodeModule.P2PNode.GetPrepareAmount | BlockchainSolution/Include/Networking/P2PNode.cpp:596-608 | the number of prepare votes of a tracked key, 0 for any other |
| P2PNodeModule.P2PNode.GetCommitAmount | BlockchainSolution/Include/Networking/P2PNode.cpp:610-622 | the number of commit votes of a tracked key, 0 for any other |
| P2PNodeModule.P2PNode.IsPrepared | BlockchainSolution/Include/Networking/P2PNode.cpp:673-684 | the flag of a tracked key, false for any other |
| P2PNodeModule.P2PNode.IsCommitted | BlockchainSolution/Include/Networking/P2PNode.cpp:686-697 | the flag of a tracked key, false for any other |
| P2PNodeModule.P2PNode.HandlePrepare | BlockchainSolution/Include/Networking/P2PNode.cpp:548-747 | the handler of a prepare message on the trackers, vote by vote and flag by flag |
| P2PNodeModule.P2PNode.HandleCommit | BlockchainSolution/Include/Networking/P2PNode.cpp:583-697 | the handler of a commit message, and which block it hands to the chain |
| Quorum.TrackersShare | BlockchainSolution/Include/Networking/P2PNode.cpp:596-622 | two trackers that counted q1 and q2 of n nodes share at least q1 + q2 - n authors, for prepare and for commit votes |
| Quorum.VotersOfCommitted | BlockchainSolution/Include/Networking/P2PNode.cpp:596-622 | a node that committed counted enough other nodes and had sent its own commit |
| Quorum.CommittedShareCorrect | BlockchainSolution/Include/Networking/P2PNode.cpp:596-622 | unless n is 3f + 2 with f > 0, two nodes that committed a key share more voters than may be faulty |
| Quorum.CommittedShareOnlyFaulty | BlockchainSolution/Include/Networking/P2PNode.cpp:596-622 | for n = 3f + 2 with f > 0 there are two runs that commit a key with only f voters in common |
| Quorum.SafeSizeIff | BlockchainSolution/Include/Networking/P2PNode.cpp:596-622 | over all runs of the handlers, the threshold 2 (n - 1) / 3 makes any two nodes that committed a key share a correct voter exactly when n is not 3f + 2, or is 2 |

## Left out

- ScalarMultiplication.DoubleAndAddCorrect: associativity of the curve law is a hypothesis (`Associative`), shown to be satisfiable by `SevenPoints`; it is not proved for every prime.
- EcdsaSigner.VerifyReceived: primality of the constants of secp256k1 and the order of its base point are hypotheses (`Domain`), and the public key is a multiple of the base point.
- SevenPoints.DomainExists: the witness is a small curve, not secp256k1.
- EcdsaSigner.ComputeSignMessage: the random nonces are a finite sequence of draws; how they and private keys are generated is not modelled, nor is the hash of the message.
- WalletModule.Wallet.CreateTransaction: the transaction identifier, the time and the signature are parameters; signing is taken to change neither inputs nor outputs.
- CoinSelection.SortByValue: the order of equal coins is the one of this sort; `SelectionDetermined` shows that it does not matter for number and total.
- Supply.Conservation: the reward amount, a floating-point tax in the source, is any amount. What an accepted transaction needs beyond acceptance to be `Ordinary` is proved in `TransactionVerification`.
- TransactionVerification.Verify: key hashes and the signature of a transaction are parameters; the signature check includes parsing both points.
- Payments.PaymentVerified: that the signature of the wallet fits is a hypothesis; `EcdsaSigner` says when it does.
- Supply.SupplyFromGenesis: the identifiers of the five genesis transactions are taken to be distinct and different from the coinbase outpoint's.
- Ledger: scripts shorter than two characters, on which the source throws, are excluded by the type; output indices and amounts are unbounded in the maps.
- BlockchainModule.Blockchain.AddBlock: requires a non-empty chain, because the source reads the last block before it asks whether there is one.
- BlockchainModule.Blockchain.CommitBlock: requires a non-empty chain for the same reason; the reward transaction is a parameter.
- BlockchainModule.CommittedHashIff: the digest is a function of the fields of a block, taken to have no collisions; the source hashes their concatenation.
- ChainOrder.LastHashSettlesChain: likewise taken to have no collisions.
- HeaderSync.ExchangeOutcome: assumes distinct block hashes and one peer that answers in order; accepting transactions of the filled blocks is taken for granted.
- Sha256Padding.Sha256.Digest: messages of 2^31 bits or more are excluded, where the C++ int overflows; the compression function and the hexadecimal output are not modelled.
- Blake2bStreaming.Blake2b.constructor: without a key, and for digests of at most 64 bytes, beyond which the source reads past the state.
- Blake2bStreaming.StandardIff: unkeyed hashing only, and messages under 2^64 bytes; the compression function is a parameter.
- Argon2Schedule.Argon2.constructor: sizes whose rounding wraps 32 bits are excluded; the mixing function, the first hash and the final output are not modelled.
- Aes256Cbc.AES256CBC.CbcEncrypt: initialisation vectors other than 16 bytes, key expansion and decryption code (there is none) are not modelled; decryption is the inverse steps in reverse order.
- Bip39SeedMaker.SeedRoundTripIff: the checksum is any function that gives a number below 2^128 its four bits, and the word list any 2048 distinct words without white space.
- PhaseTracking.HandlersOrderly: view changes, leader checks and the proof of work are not modelled.
- Quorum.SafeSizeIff: a node's own vote is its sent commit; that a correct node sends one commit per key only is not modelled.
- P2PNodeModule.P2PNode.HandleCommit: ends where the block is handed to the chain; `NodeLedger` says what happens to it then.
- Sockets, threads, peers, discovery, the command line, the web interface and JSON: input and output.
- Transaction identifiers and script hashing: abstract, as above.
- Mining and block text forms, RIPEMD-160, Base58, inventories and leader rotation: easier copies of the above, or not relied upon.
