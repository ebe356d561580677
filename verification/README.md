# Chipcoin consensus core: a verified model

A Dafny model of the decision-making core of Chipcoin, a UTXO chain with capped issuance, epoch rewards for
registered nodes, a compact-target difficulty rule and headers-first synchronisation. What the Python code computes
with expressions is modelled by functions; what it computes by updating objects, dictionaries and locals is modelled by
classes and loops that are proved equal to those functions. The theorems are about the functions and about whole runs.

| part | modules |
|---|---|
| issuance and supply | `Economics`, `UtxoValue`, `Supply`, `Conservation`, `LostValue` |
| UTXO views | `Utxo` |
| epoch settlement | `Assignment`, `EpochSettlement`, `SettlementAnalysis`, `Lifecycle` |
| node registry | `Nodes` |
| transaction and block rules | `Validation`, `BlockValidation` |
| difficulty and headers | `Pow`, `Headers`, `Snapshots` |
| synchronisation | `SyncScan`, `Orphans`, `Downloads`, `Sync` |
| codecs | `Serialization`, `Canonical`, `Codec`, `Addresses` |
| mempool and block templates | `MempoolPolicy`, `Mempool`, `Mining`, `TemplateSelection` |
| shared | `Prelude`, `Arith`, `Sorting`, `Models`, `Oracles` |

The main results:

- **Supply.** On every chain accepted from the empty state, unspent value <= issuance <= the scheduled total <= the cap
  (`Conservation.SupplyIsCapped`), with no assumption on transaction ids. Exact conservation is false of the code, because validation never
  asks whether a new output is already live: a coinbase may repeat an earlier id (`LostValue.RepeatedCoinbaseLosesValue`), and a payment may
  be replayed once its input is live again (`LostValue.ReplayedPaymentLosesValue`). `Conservation.BlockBalance` and `Conservation.ChainBalance`
  give the exact loss, for all accepted blocks and chains; `Conservation.ConservesExactlyWhen` and `Conservation.ChainConservesExactlyWhen` say that
  value is conserved if and only if no transaction writes over an output worth something. Fresh ids are enough (`Conservation.ChainConserves`).
- **Issuance.** The era-by-era closed form with its binary search equals the block-by-block sum, for miner and nodes separately
  (`Economics.SubsidyTotals`).
- **Settlement.** The grouping, bucketing and ranking loops compute a declarative settlement (`SettlementAnalysis.AnalyzeRewardSettlement`),
  which is sound, exact, monotone and independent of attestation order. Along every chain each epoch is settled at most once
  (`Lifecycle.ChainKeeps`).
- **Headers.** The snapshot validator and header ingestion accept the same header lists, in any batching
  (`Snapshots.SnapshotAgreesWithIngestion`).
- **Sync.** Memoized scans are always fresh, `receive_block` terminates and stores every pooled descendant, and only fully stored paths are
  activated. Over every run of the download scheduler's operations no peer is above its cap, and whatever is in flight was granted to a peer
  tall enough for it (`Downloads.CapHoldsOverRuns`, `Downloads.InFlightWasGranted`).
- **Codecs.** Parsing undoes printing at any offset; serializations are prefix-free; printing undoes parsing exactly on canonical bytes
  (`Canonical.ReserializesExactlyWhen`); `parse_address` accepts exactly the addresses that the builders produce.
- **Policies.** The mempool invariant holds over every run of `accept` and `reconcile`. Template selection ends with a sound template and
  says of every candidate left out why it is; staged in a block, a template can fail only at a payment, or at a bundle or settlement that the
  chain state does not admit (`Mining.TemplateStages`).

Conventions. Hashes, signature checks, number and key parsing and the JSON inside reward metadata are arbitrary functions (`Oracles.Oracle`,
`HeaderHash`, `DoubleSha`), so the theorems hold for all of them; where injectivity matters it is a hypothesis (`Snapshots.CollisionFree`,
`Conservation.FreshChain`). Digests are byte sequences. A `str` is its UTF-8 encoding, whose byte order is the code-point order Python sorts by.
An exception is `Err`; `Stateless` and `Contextual` are the two validation errors, `Malformed` is a `ValueError`. Repositories are maps. Python's `int` is unbounded, as is Dafny's; field widths appear where the code packs bytes.

Where code and documentation could be read differently the code is followed: an empty settlement is accepted whenever the whole pool stays
undistributed; a taller header chain counts as an improvement even with less work; `receive_block` stores a header without the header-only checks;
varints longer than needed are accepted.

## Model

| member | source | states |
|---|---|---|
| `Economics.EraTotals` | src/chipcoin/consensus/economics.py:146-164 | one iteration of the era loop adds exactly what its blocks schedule, for miner and nodes, aligned or not |
| `Economics.UncappedTotals` | src/chipcoin/consensus/economics.py:137-165 | the era loop ends and returns the per-block sums of both schedules |
| `Economics.MintedIsCapped` | src/chipcoin/consensus/economics.py:55-74 | the block-by-block total of the capped splits is min(uncapped total, cap) |
| `Economics.MintedStopsAtCap` | src/chipcoin/consensus/economics.py:55-74 | once the cap is met nothing more is minted |
| `Economics.MintedAtCap` | src/chipcoin/consensus/economics.py:118-134 | from the block that meets the cap onwards the totals are the ones the search returns |
| `Economics.SubsidyTotals` | src/chipcoin/consensus/economics.py:108-134 | closed form plus binary search equals, for miner and nodes separately, the sum of all splits |
| `Economics.ComputeSubsidySplit` | src/chipcoin/consensus/economics.py:55-74 | the split of a block equals the specified one; a negative height is an error |
| `Economics.SupplyCapHolds` | src/chipcoin/consensus/economics.py:101-105 | the running total never passes the cap and grows by exactly each split |
| `Economics.ApproxLog2Monotone` | src/chipcoin/consensus/economics.py:198-209 | the scaled logarithm never falls |
| `Economics.AdaptiveFeeFalls` | src/chipcoin/consensus/economics.py:212-235 | more nodes never raise the fee; it starts at the maximum and ends at the minimum |
| `Utxo.InMemoryUtxoView.ApplyTransaction` | src/chipcoin/consensus/utxo.py:71-83 | the new map is the old one without the spent outpoints and with the created ones |
| `Utxo.InMemoryUtxoView.ApplyBlock` | src/chipcoin/consensus/utxo.py:85-89 | transactions are applied in order, the first as coinbase |
| `Utxo.InMemoryUtxoView.Clone` | src/chipcoin/consensus/utxo.py:91-94 | a fresh object with equal contents |
| `Utxo.StageTxRefines` | src/chipcoin/consensus/utxo.py:129-144 | staging a transaction on an overlay is applying it to the full copy, and added and spent stay disjoint |
| `Utxo.OverlayUtxoView.Get` | src/chipcoin/consensus/utxo.py:120-127 | a lookup answers as the full copy would |
| `Utxo.OverlayUtxoView.ApplyTransaction` | src/chipcoin/consensus/utxo.py:129-144 | the view becomes the full copy with the transaction applied; the base is not written |
| `Utxo.OverlayUtxoView.ApplyBlock` | src/chipcoin/consensus/utxo.py:146-150 | the view becomes the full copy with the block applied; the base is not written |
| `Utxo.OverlayUtxoView.Clone` | src/chipcoin/consensus/utxo.py:152-155 | the clone has the same view and shares only the base |
| `Utxo.OverlaysMirrorCopies` | src/chipcoin/consensus/utxo.py:102-155 | after any run of transactions and clones every overlay equals its own full copy |
| `Utxo.SiblingsUntouched` | src/chipcoin/consensus/utxo.py:102-155 | a run changes only the overlays it applies transactions to |
| `Nodes.ActiveExactly` | src/chipcoin/consensus/nodes.py:156-182 | a record is active exactly from its eligible height to the end of its renewal epoch |
| `Nodes.WarmupDelays` | src/chipcoin/consensus/nodes.py:142-170 | a reward node stays inactive through the warm-up epochs counted from its recorded registration height |
| `Nodes.WarmupFromReward` | src/chipcoin/consensus/nodes.py:296-313 | an accepted reward registration starts the warm-up at its own epoch if and only if the node is new or was first registered in that epoch |
| `Nodes.WarmupSkipped` | src/chipcoin/consensus/nodes.py:296-313 | over a legacy record old enough the node is an active reward node one block later |
| `Nodes.InMemoryNodeRegistryView.GetByOwner` | src/chipcoin/consensus/nodes.py:83-87 | finds a record with that owner exactly when there is one, and the only one when owners are unique |
| `Nodes.UpsertKeeps` | src/chipcoin/consensus/nodes.py:89-90 | writing a record whose keys are its own keeps owners and node keys unique, heights ordered and ownership fixed |
| `Nodes.InMemoryNodeRegistryView.Clone` | src/chipcoin/consensus/nodes.py:92-93 | a fresh object with equal contents |
| `Nodes.InMemoryNodeRegistryView.ApplySpecialTransaction` | src/chipcoin/consensus/nodes.py:275-349 | the registry becomes the specified one for registration and renewal, legacy and reward |
| `Nodes.SpecialKeeps` | src/chipcoin/consensus/validation.py:719-786 | one accepted special transaction keeps owners and node keys unique, heights ordered and ownership fixed |
| `Nodes.RegistryRunKeeps` | src/chipcoin/consensus/nodes.py:275-349 | the same over every run of accepted transactions at non-decreasing heights |
| `Assignment.CheckWindowsAreBest` | src/chipcoin/consensus/epoch_settlement.py:162-183 | exactly the configured number of distinct windows, in order, and none left out scores better |
| `Assignment.CommitteeSound` | src/chipcoin/consensus/epoch_settlement.py:186-209 | a committee seats distinct active nodes other than the candidate, exactly as many as its size and the nodes allow, and nobody left out scores lower |
| `Assignment.MedianPermutation` | src/chipcoin/consensus/epoch_settlement.py:459-476 | the median gap does not depend on the order of the gaps |
| `EpochSettlement.RankingSound` | src/chipcoin/consensus/epoch_settlement.py:622-672 | the ranking lists every concentration winner once, best first, with distinct nodes and keys |
| `EpochSettlement.SplitExact` | src/chipcoin/consensus/epoch_settlement.py:680-701 | shares add up to the pool, differ by at most one and never rise with rank |
| `EpochSettlement.EntriesSound` | src/chipcoin/consensus/epoch_settlement.py:526-701 | entries are qualified active nodes, at most the cap, one per node and per concentration key |
| `EpochSettlement.EntriesRanked` | src/chipcoin/consensus/epoch_settlement.py:622-701 | entries are in rank order, each the best of its concentration key |
| `EpochSettlement.CapDropsTheLast` | src/chipcoin/consensus/epoch_settlement.py:673-679 | a winner without an entry ranks after every entry, and only when the cap is reached |
| `EpochSettlement.QualifiesMonotone` | src/chipcoin/consensus/epoch_settlement.py:537-620 | adding attestations anywhere never disqualifies a candidate |
| `EpochSettlement.SettlementOrderIndependent` | src/chipcoin/consensus/epoch_settlement.py:459-701 | permuting attestations with unique votes and agreeing keys leaves the entries unchanged |
| `SettlementAnalysis.GroupAttestations` | src/chipcoin/consensus/epoch_settlement.py:521-524 | the grouping loop collects each candidate's and window's attestations in order |
| `SettlementAnalysis.TallyWindow` | src/chipcoin/consensus/epoch_settlement.py:552-561 | the vote loop counts each committee member's first in-tolerance pass |
| `SettlementAnalysis.EvaluateWindow` | src/chipcoin/consensus/epoch_settlement.py:538-569 | a window passes exactly when its quorum of distinct members is met |
| `SettlementAnalysis.EvaluateNode` | src/chipcoin/consensus/epoch_settlement.py:530-620 | the window loop decides qualification and final confirmation as specified |
| `SettlementAnalysis.ResolveConcentration` | src/chipcoin/consensus/epoch_settlement.py:622-644 | the bucket loop keeps exactly the winners of the concentration keys, each once |
| `SettlementAnalysis.CollectQualified` | src/chipcoin/consensus/epoch_settlement.py:526-620 | the candidate loop collects exactly the qualified nodes |
| `SettlementAnalysis.SplitReward` | src/chipcoin/consensus/epoch_settlement.py:680-701 | the share loop builds the specified entries |
| `SettlementAnalysis.AnalyzeRewardSettlement` | src/chipcoin/consensus/epoch_settlement.py:500-722 | all loops together compute the declarative settlement, errors included |
| `Lifecycle.BuiltSettlementPasses` | src/chipcoin/consensus/epoch_settlement.py:370-415 | a settlement built on the scheduled pool passes the check of the closing block |
| `Lifecycle.TemplateCoinbasePasses` | src/chipcoin/node/mining.py:309-318 | the template's coinbase passes exactly when its settlement is empty or distributes the whole pool |
| `Lifecycle.StageSettles` | src/chipcoin/consensus/validation.py:899-948 | a block settles at most one epoch, the one it closes, not settled before |
| `Lifecycle.ChainVotesUnique` | src/chipcoin/consensus/validation.py:850-896 | the attestations settlement reads from an accepted chain never repeat a vote |
| `Lifecycle.BlockKeeps` | src/chipcoin/consensus/validation.py:257-350 | one accepted block keeps the registry and the recorded votes sound |
| `Lifecycle.ChainKeeps` | src/chipcoin/consensus/validation.py:257-350 | along every accepted chain the same, ownership is fixed, and each epoch is settled at most once, at its closing height |
| `Lifecycle.ChainFromGenesis` | src/chipcoin/consensus/validation.py:257-350 | on every chain accepted from genesis the registry is sound, no vote is recorded twice and each epoch is settled at most once, at its closing height |
| `BlockValidation.SumInputs` | src/chipcoin/consensus/validation.py:201-209 | the input loop returns the specified input value or the rule that failed |
| `BlockValidation.ValidateTransactionStateful` | src/chipcoin/consensus/validation.py:184-215 | returns the specified fee or fault against the current views |
| `Validation.RaisesMeansRefused` | src/chipcoin/consensus/validation.py:899-948 | a control transaction whose check raises a ValueError is never admitted |
| `BlockValidation.CountBundle` | src/chipcoin/consensus/validation.py:279-289 | the attestation loop is the specified duplicate and emission check |
| `BlockValidation.RecordInputs` | src/chipcoin/consensus/validation.py:290-294 | the spend loop is the specified double-spend check |
| `BlockValidation.ApplyEffect` | src/chipcoin/consensus/validation.py:326-339 | the staged views become the specified chain state |
| `BlockValidation.ValidateBlockStateful` | src/chipcoin/consensus/validation.py:257-350 | the whole pass computes the specified verdict and fees, and writes only to its own clones |
| `Supply.PaymentValue` | src/chipcoin/consensus/validation.py:184-215 | a payment removes its fee, and whatever it overwrites, from the unspent value |
| `Supply.StageValue` | src/chipcoin/consensus/validation.py:257-350 | fees plus unspent value never grow while a block is staged |
| `Supply.CoinbaseTotal` | src/chipcoin/consensus/validation.py:500-548 | a valid coinbase pays exactly subsidy, fees and settled rewards |
| `Supply.BlockIssuance` | src/chipcoin/consensus/validation.py:500-548 | the node reward of an accepted block is zero or the whole pool |
| `Supply.BlockNeverInflates` | src/chipcoin/consensus/validation.py:257-350 | no accepted block creates more value than it issues, even when ids repeat |
| `Conservation.BlockBalance` | src/chipcoin/consensus/utxo.py:85-89 | every accepted block adds its issuance less what it writes over: outputs its transactions overwrite, live outputs under its coinbase, coinbase outputs it spends or overwrites itself |
| `Conservation.ConservesExactlyWhen` | src/chipcoin/consensus/utxo.py:85-89 | an accepted block conserves value if and only if none of its transactions, coinbase included, writes over an output worth something |
| `Conservation.LostExactlyWhen` | src/chipcoin/consensus/utxo.py:71-89 | the loss of a block is never negative, and zero if and only if the block is harmless |
| `Conservation.StageReplays` | src/chipcoin/consensus/validation.py:257-350 | staging is the replay of the later transactions, and value plus fees drops by exactly what they write over |
| `Conservation.OverlayTail` | src/chipcoin/consensus/utxo.py:85-89 | connecting coinbase-first is that replay with the untouched coinbase outputs laid over it |
| `Conservation.ChainBalance` | src/chipcoin/consensus/validation.py:257-350 | over every accepted chain the unspent value is issuance less everything written over |
| `Conservation.ChainConservesExactlyWhen` | src/chipcoin/consensus/validation.py:257-350 | over every accepted chain the unspent value grows by the issuance if and only if every block is harmless |
| `Conservation.FreshHarmless` | src/chipcoin/consensus/validation.py:257-350 | a block whose ids are new is harmless |
| `Conservation.ChainNeverInflates` | src/chipcoin/consensus/validation.py:257-350 | over every accepted chain the unspent value grows by at most the issuance, which is at most the schedule |
| `Conservation.SupplyIsCapped` | src/chipcoin/consensus/economics.py:55-74 | unspent value <= issuance <= scheduled total <= cap on every chain from genesis |
| `Conservation.ChainConserves` | src/chipcoin/consensus/utxo.py:71-89 | with fresh ids the unspent value equals the issuance on every chain |
| `LostValue.RepeatedCoinbaseLosesValue` | src/chipcoin/node/service.py:835-899 | two linked accepted blocks with one coinbase issue 100 and leave 50 unspent, whatever the hashes |
| `LostValue.ReplayedPaymentLosesValue` | src/chipcoin/node/service.py:835-899 | four linked accepted blocks whose coinbases all land clear issue 200 and leave 150: a replayed payment overwrites its own output |
| `Pow.DecodeEncode` | src/chipcoin/consensus/pow.py:11-42 | decoding an encoded target gives the target rounded to three leading bytes |
| `Pow.RoundingLoss` | src/chipcoin/consensus/pow.py:26-42 | encoding never raises a target and loses less than one part in 2^15 |
| `Pow.EncodingIdempotent` | src/chipcoin/consensus/pow.py:26-42 | re-encoding a decoded target gives the same bits |
| `Pow.RoundingMonotone` | src/chipcoin/consensus/pow.py:26-42 | encoding keeps the order of targets |
| `Pow.WorkPositive` | src/chipcoin/consensus/pow.py:45-57 | a header that passes proof of work has positive work |
| `Pow.RetargetBounds` | src/chipcoin/consensus/pow.py:68-87 | a retarget is positive, within the limit and at most fourfold |
| `Headers.PathToRoot` | src/chipcoin/storage/headers.py:308-322 | the walk and reversal return the ancestor path, or an error for an unknown hash |
| `Headers.IngestSound` | src/chipcoin/node/sync.py:196-234 | one batch keeps every stored record checked, with its height and cumulative work |
| `Headers.IngestAllSound` | src/chipcoin/node/sync.py:196-234 | the same over every run of batches, which only adds headers that were fed in |
| `Headers.IngestedDifficulty` | src/chipcoin/node/sync.py:741-777 | in every ingested chain targets stay within the limit, rise at most fourfold and work strictly increases |
| `Snapshots.CheckRecord` | src/chipcoin/node/snapshots.py:647-678 | one iteration checks exactly that the record continues the chain before it |
| `Snapshots.ValidateSnapshotHeaders` | src/chipcoin/node/snapshots.py:640-680 | the loop accepts exactly the lists whose every record is valid |
| `Snapshots.SnapshotAgreesWithIngestion` | src/chipcoin/node/snapshots.py:640-680 | a list is accepted if and only if ingesting it in any batches stores every header at the same height and work |
| `SyncScan.BestTipStrongest` | src/chipcoin/storage/headers.py:225-239 | the best tip is a stored record that no other outranks by work, then height, then hash |
| `SyncScan.CandidatesExactly` | src/chipcoin/storage/headers.py:241-258 | the candidate tips are exactly the stored records without a child, strongest first |
| `SyncScan.MissingExactly` | src/chipcoin/node/sync.py:254-272 | the scan succeeds exactly when the tip is known and its path carries the anchor, and lists exactly the absent blocks above the anchor, in path order |
| `SyncScan.LastStoredIs` | src/chipcoin/node/sync.py:306-310 | the ready walk stops at the first block that is not stored |
| `SyncScan.ReadyActivatable` | src/chipcoin/node/sync.py:274-319 | whatever is offered for activation improves the tip, meets the anchor, and is fully stored above it and free of invalid blocks |
| `SyncScan.ReadyForExactly` | src/chipcoin/node/sync.py:296-316 | a candidate offers a tip if and only if that tip ends the stored part of its sound path and improves the active one |
| `SyncScan.ReadyChoice` | src/chipcoin/node/sync.py:293-319 | the scan takes the first candidate that offers anything, and answers nothing only when none does |
| `Orphans.RememberKeeps` | src/chipcoin/node/sync.py:714-722 | remembering and evicting keeps the pool sound and within 256 buckets |
| `Orphans.RememberedIsPooled` | src/chipcoin/node/sync.py:714-722 | the block just remembered survives the eviction |
| `Orphans.TakeKeeps` | src/chipcoin/node/sync.py:724-728 | taking a bucket removes only that bucket |
| `Orphans.AllDescendantsStored` | src/chipcoin/node/sync.py:724-733 | if nothing is lost and nothing waits for a stored parent, every pooled descendant is stored |
| `Sync.SyncManager.constructor` | src/chipcoin/node/sync.py:84-96 | over any sound stores the manager starts with empty pool, caches and requests and satisfies the invariant |
| `Sync.SyncManager.MissingBlocksForTip` | src/chipcoin/node/sync.py:254-272 | the memoized answer equals a fresh scan |
| `Sync.SyncManager.BestReadyTip` | src/chipcoin/node/sync.py:274-319 | the memoized answer equals a fresh scan |
| `Sync.SyncManager.IngestHeaders` | src/chipcoin/node/sync.py:196-252 | stores exactly what the specified ingestion stores and reports the new headers, the best tip and its missing blocks as a fresh scan would |
| `Sync.SyncManager.IngestBatch` | src/chipcoin/node/sync.py:204-234 | the loop is the specified ingestion and counts the new headers |
| `Sync.SyncManager.ActivateBestChain` | src/chipcoin/node/sync.py:474-546 | the freshly scanned tip, if any is offered, is activatable and becomes the tip; a failure keeps the tip and marks exactly its blocks off the active chain |
| `Sync.SyncManager.RememberOrphan` | src/chipcoin/node/sync.py:714-722 | the block is pooled under its parent and at most 256 buckets remain |
| `Sync.SyncManager.FileBlock` | src/chipcoin/node/sync.py:608-620 | a block with a known parent is stored with its header; unusable bits raise and change nothing |
| `Sync.SyncManager.ReceiveBlock` | src/chipcoin/node/sync.py:575-633 | it terminates, counts exactly the new blocks, stores only the block and pooled ones, each under its hash, loses no pooled block, stores every pooled descendant and leaves no bucket for a stored block |
| `Sync.SyncManager.AcceptPendingChildren` | src/chipcoin/node/sync.py:724-733 | the same for the bucket of one parent |
| `Sync.SyncManager.ReserveWindow` | src/chipcoin/node/sync.py:345-400 | requests go to tall-enough listed peers, no load passes the cap, and the first block left out finds every such peer full |
| `Sync.SyncManager.ReserveBlockDownloads` | src/chipcoin/node/sync.py:321-400 | the same for the window of missing blocks of the best tip, which is gap-free |
| `Sync.SyncManager.ExpireBlockRequests` | src/chipcoin/node/sync.py:446-456 | exactly the overdue requests go, each charged once to its peer |
| `Sync.SyncManager.ReleaseUnavailable` | src/chipcoin/node/sync.py:402-412 | exactly the requests at inactive peers go |
| `Sync.SyncManager.ReleasePeer` | src/chipcoin/node/sync.py:458-467 | exactly that peer's requests go |
| `Downloads.CountByPeer` | src/chipcoin/node/sync.py:345-348 | the counters equal the loads of the listed peers |
| `Downloads.PickPeer` | src/chipcoin/node/sync.py:359-380 | the pick is tall enough, below the cap and of least load, stalls and id; none means all are full |
| `Downloads.RemovalNeverOverfills` | src/chipcoin/node/sync.py:402-472 | expiry, release and clearing never raise a load |
| `Downloads.CapHoldsOverRuns` | src/chipcoin/node/sync.py:321-472 | over every run of reserve, expire, release, clear and receive from nothing in flight, no peer is ever above the cap |
| `Downloads.InFlightWasGranted` | src/chipcoin/node/sync.py:351-399 | over every such run each request in flight was granted to a listed peer tall enough for its block at that time |
| `Downloads.LegalNeverOverfills` | src/chipcoin/node/sync.py:351-399 | grants that each go to a peer below the cap never overfill one |
| `Serialization.VarintAt` | src/chipcoin/consensus/serialization.py:10-45 | decoding undoes encoding and returns the next offset |
| `Serialization.VarintCanonical` | src/chipcoin/consensus/serialization.py:26-45 | a decoded varint re-encodes to its own bytes if and only if no shorter form exists |
| `Serialization.BytesAt` | src/chipcoin/consensus/serialization.py:48-61 | the same for length-prefixed bytes |
| `Serialization.InputAt` | src/chipcoin/consensus/serialization.py:116-128 | the same for inputs of version 1 and version 2 transactions |
| `Serialization.MetadataAt` | src/chipcoin/consensus/serialization.py:86-107 | the same for metadata maps written in key order |
| `Serialization.TransactionAt` | src/chipcoin/consensus/serialization.py:201-251 | parsing undoes printing at any offset, whatever precedes and follows, with the exact next offset |
| `Serialization.TransactionsPrefixFree` | src/chipcoin/consensus/serialization.py:110-134 | a serialization that is a prefix of another belongs to the same transaction |
| `Serialization.ParsedTransactionFits` | src/chipcoin/consensus/serialization.py:201-251 | whatever parses can be serialized, and its serialization parses back to it |
| `Serialization.HeaderAt` | src/chipcoin/consensus/serialization.py:175-187 | the header round trip, 80 bytes |
| `Serialization.BlockAt` | src/chipcoin/consensus/serialization.py:190-277 | the block round trip at any offset |
| `Serialization.BlocksPrefixFree` | src/chipcoin/consensus/serialization.py:190-198 | a block serialization that is a prefix of another belongs to the same block |
| `Canonical.ReserializesExactlyWhen` | src/chipcoin/consensus/serialization.py:201-251 | serializing a parsed transaction gives back its bytes if and only if their varints are minimal and their metadata keys strictly increase |
| `Canonical.IncreasingIsSorted` | src/chipcoin/consensus/serialization.py:86-95 | strictly increasing keys are the sorted keys |
| `Codec.WriteMetadata` | src/chipcoin/consensus/serialization.py:86-95 | the loop appends the sorted pairs, or fails exactly when something does not fit |
| `Codec.SerializeTransaction` | src/chipcoin/consensus/serialization.py:110-134 | succeeds exactly on the transactions that fit and writes their serialization |
| `Codec.SerializeHeader` | src/chipcoin/consensus/serialization.py:175-187 | the same for headers |
| `Codec.SerializeBlock` | src/chipcoin/consensus/serialization.py:190-198 | the same for blocks |
| `Codec.ReadMetadata` | src/chipcoin/consensus/serialization.py:98-107 | the loop is the specified parser; a repeated key keeps its last value |
| `Codec.DeserializeTransaction` | src/chipcoin/consensus/serialization.py:201-251 | the loops are the specified parser, errors included |
| `Codec.DeserializeBlock` | src/chipcoin/consensus/serialization.py:268-277 | the same for blocks |
| `Addresses.CheckRoundTrip` | src/chipcoin/crypto/addresses.py:151-182 | decoding undoes encoding if and only if the payload is non-empty and, with its checksum, not all zero |
| `Addresses.CheckCanonical` | src/chipcoin/crypto/addresses.py:164-182 | an accepted text is the encoding of its payload if and only if the decoded bytes are not all zero |
| `Addresses.Base58CheckEncode` | src/chipcoin/crypto/addresses.py:151-161 | the digit loop computes the specified text |
| `Addresses.Base58CheckDecode` | src/chipcoin/crypto/addresses.py:164-182 | the character loop computes the specified payload or error |
| `Addresses.LegacyBeginsWithC` | src/chipcoin/crypto/addresses.py:68-73 | the text of every legacy payload begins with C |
| `Addresses.LegacyRoundTrip` | src/chipcoin/crypto/addresses.py:68-120 | a legacy address parses as legacy with its own hash, never as post-quantum |
| `Addresses.PqRoundTrip` | src/chipcoin/crypto/addresses.py:76-120 | a post-quantum address parses with its own scheme and commitment |
| `Addresses.ParsedAddressCanonical` | src/chipcoin/crypto/addresses.py:86-120 | every accepted address is the one its own content builds |
| `MempoolPolicy.AddKeeps` | src/chipcoin/node/mempool.py:320-427 | a row that passed the checks keeps spends and identities disjoint, bundle keys, registrations and renewals unique, and the class limits |
| `MempoolPolicy.AdmittedKeeps` | src/chipcoin/node/mempool.py:115-157 | replacing bundles by an admitted one keeps that invariant |
| `MempoolPolicy.ReplacementKeepsCoverage` | src/chipcoin/node/mempool.py:429-468 | replacement alone never loses a covered attestation identity |
| `MempoolPolicy.ReplacementGains` | src/chipcoin/node/mempool.py:466-468 | a bundle that replaces just one covers strictly more |
| `MempoolPolicy.ReadmittedOk` | src/chipcoin/node/mempool.py:169-211 | what reconciliation takes back satisfies the invariant |
| `MempoolPolicy.ReadmittedReplayable` | src/chipcoin/node/mempool.py:177-204 | what it takes back is valid together, in order, on the new chain, at the recorded fees |
| `Mempool.CheckSpecialPolicy` | src/chipcoin/node/mempool.py:320-377 | true exactly when the limits leave room and no pending registration or renewal clashes |
| `Mempool.CheckBundlePolicy` | src/chipcoin/node/mempool.py:379-427 | true exactly when the limit leaves room, the key is free and no identity is pending |
| `Mempool.CheckSpends` | src/chipcoin/node/mempool.py:233-243 | true exactly when no pending row spends one of the outpoints |
| `Mempool.FindReplaced` | src/chipcoin/node/mempool.py:429-468 | the scan returns the specified set, whatever the order of the rows |
| `Mempool.FeeWithMempool` | src/chipcoin/node/mempool.py:224-231 | the fee is the one on the chain state with all pending rows applied in order |
| `Mempool.MempoolManager.PruneExpired` | src/chipcoin/node/mempool.py:470-475 | exactly the expired rows go |
| `Mempool.MempoolManager.EvictIfNeeded` | src/chipcoin/node/mempool.py:477-485 | exactly as many rows go as needed, and none that goes outranks one that stays |
| `Mempool.MempoolManager.Accept` | src/chipcoin/node/mempool.py:115-157 | admits exactly by the rules, at the specified fee; a refusal changes nothing; the result is replacement, expiry, eviction; the invariant and the capacity hold |
| `Mempool.MempoolManager.Reconcile` | src/chipcoin/node/mempool.py:169-211 | the pool becomes the specified readmission, evicted to capacity; it raises if and only if a ValueError escapes from some transaction, at the first such one, keeping what it had taken back |
| `Mempool.MempoolManager.Readmit` | src/chipcoin/node/mempool.py:178-204 | one transaction is taken back exactly by the rules and the staged view follows, or a ValueError escapes exactly as specified |
| `Mempool.PaymentsNeverEscape` | src/chipcoin/node/mempool.py:178-204 | a serializable transaction that is no control transaction never lets an exception escape |
| `Mining.SelectionOrder` | src/chipcoin/node/mining.py:331-344 | the fee-rate comparison is a total preorder for positive weights |
| `Mining.SelectionStrict` | src/chipcoin/node/mining.py:331-344 | and strict between different ids |
| `Mining.CountSelected` | src/chipcoin/consensus/validation.py:278-289 | a bundle that passes selection and does not repeat itself passes the block's checks with the same counters |
| `Mining.CountRefusesRepeats` | src/chipcoin/consensus/validation.py:278-289 | a bundle that repeats itself never passes them |
| `Mining.IncludeSound` | src/chipcoin/node/mining.py:262-271 | including a fitting candidate keeps the template sound |
| `Mining.RefusedStays` | src/chipcoin/node/mining.py:224-261 | a template only fills up, so a refusal stands, a registry refusal at its own prefix included |
| `Mining.NextAgrees` | src/chipcoin/consensus/validation.py:257-350 | block validation and template stay in step, counters and registry |
| `Mining.TemplatePasses` | src/chipcoin/consensus/validation.py:257-350 | in step with the template, the next special-node transaction passes altogether, and the next bundle passes its counters unless it repeats an attestation |
| `Mining.TemplateStages` | src/chipcoin/consensus/validation.py:257-350 | staged in a block on the same registry, a template passes all its special-node transactions, and can stop only at a payment, or a bundle or settlement the chain state does not admit |
| `TemplateSelection.HasUnresolvedParent` | src/chipcoin/node/mining.py:279-294 | true exactly when some parent is neither included nor confirmed |
| `TemplateSelection.CheckBundle` | src/chipcoin/node/mining.py:229-243 | the tally decides the attestation checks and gives the new counters |
| `TemplateSelection.Consider` | src/chipcoin/node/mining.py:224-272 | a candidate is taken exactly when it fits; an unparsable bundle raises |
| `TemplateSelection.Pass` | src/chipcoin/node/mining.py:215-275 | one round keeps the invariant and shrinks the pending list, or finds every remaining candidate stuck |
| `TemplateSelection.SelectMempoolEntries` | src/chipcoin/node/mining.py:169-277 | it ends with a template that lists parents first, keeps the limits, passes the staged checks and is in fee-rate order but for parents; every candidate left out waits for a parent, no longer fits, or was turned down by the registry after some prefix |

## Left out

- Cryptography (hashing, ECDSA, ML-DSA, Ed25519, key parsing) and number parsing: arbitrary functions and predicates.
- JSON inside bundle and settlement metadata, settlement report fields and diagnostics: the model starts from the parsed values.
- `NodeService` and `activate_chain`: an abstract step that sets the tip or fails without change, so reorganisation bookkeeping is not modelled.
- Storage: repositories are maps; SQL transactions and trailing-byte checks on stored rows are not modelled.
- Runtime, peers, HTTP, CLI, wallet, snapshot containers and signatures, observer-side rewards: input/output and easy members.
- `serialize_transaction_for_signing`, `mine_block`, `build_block_template` around the selection: easy compositions.
- `reward_fee_node_count`: the fee-driving node count is a parameter of the context.
- Floating point: medians are doubled integers; clock values are exact reals.
- Clocks: each operation reads the time once where the code may read it again.
- Nodes.InMemoryNodeRegistryView.GetByOwner: which of several records with one owner comes first is not stated; owners are unique in every reachable registry.
- Sync.SyncManager.IngestHeaders: the per-peer header statistics are not modelled.
- Counters and logs of the mempool and of sync results (reorg depth, per-status fields): no effect on decisions.
- Sync.SyncManager.ReserveBlockDownloads: the attempt number is always 1, as in the code; tuples of expired and released requests are maps, so their order is not modelled.
- Sync.SyncManager.ReceiveBlock: the exact count, coverage and stored descendants are stated for calls in which no activation raises; the invariant holds in all calls.
- Headers.IngestedDifficulty: says nothing about headers that arrive only inside blocks, because `receive_block` files those without the header-only checks.
- Conservation.ChainConserves: assumes fresh transaction ids; what holds without them is Conservation.ChainConservesExactlyWhen.
- EpochSettlement.SettlementOrderIndependent: assumes unique votes and agreeing concentration keys, because the code takes the first key it meets; unique votes are proved for accepted chains, agreeing keys are not enforced by the code.
- Mining.TemplateStages: assumes that the transactions pass the stateless rules, as admitted mempool rows do; the coinbase weight is provisional in the code, so only selected transactions are bounded.
