# Omni Core: a verified model of the node's core components

Omni Core is built on Bitcoin Core 0.13.  This project models the parts of that base whose
correctness depends on an invariant over whole runs, on a round trip, or on a fast form agreeing
with a simple one, and proves it.  Loops, counters, buffers and indexes are modelled as the code
has them (methods with loops, classes with fields); each is proved against a function or relation
on values, and the theorems are about those.

`dafny verify dfyconfig.toml` checks everything.

## What is modelled

* **Script-check queue** (`CheckQueue*`).  Every critical section of `CCheckQueue` is a method; a
  state machine interleaves one master and any number of workers, one critical section, one
  evaluation of a check or one controller step at a time, with spurious wake-ups.  Over every run:
  `Wait` returns true exactly when every check added since the previous `Wait` is true, counters are
  exact at every release of the lock, a waiting master is never stuck, workers that sleep are woken for
  whatever is added and finish it without the master, and the assertion that a new controller makes is
  safe exactly when everything added has been waited for.
* **Coin caches** (`Coins*`).  Caches stacked on caches with the DIRTY and FRESH shortcuts.  After any
  run of operations at any level, each level shows what one plain map shows, with pruned = absent; the
  best blocks agree with one plain list as long as no flush and no `SetBestBlock` hands on the null hash.
* **Coin serialization** (`VarInt`, `Compressor`, `CoinsCodec`, `CoinsStream`).  Variable-length
  integers, amount and script compression, the availability mask, and the round trip of `CCoins`.
* **Address manager** (`AddrMan*`).  Five cross-linked indexes and their counters; the invariant over
  every run from a fresh object, what each operation does to the entries and tables, the relation to
  `Check_`, and the round trip through the disk format.
* **Partial Merkle trees** (`MerkleTree`, `PartialMerkle`, `MerkleShape`, `MerkleTheorems`, `MerkleStrict`).  Encoder and
  decoder of the "Partial Merkle branch format" of BIP 37: authenticity for arbitrary input,
  completeness, size bounds, nothing unused.  The hash is an arbitrary function; statements end in "or this is a
  collision", where the two colliding pairs are computed from the input.
* **Block assembler** (`Mempool`, `PackageTotals`, `BlockOrder`, `BlockSelection`, `PriorityPhase`,
  `BlockAssembler`).  Priority transactions, then packages, with ancestor totals maintained
  incrementally and possibly over-counted.  The block is valid and within all limits, and what is not in
  it had no room, was not allowed, or came after a fee that was too low.
* **256-bit arithmetic, compact targets, work** (`Radix`, `Limbs`, `LimbSteps`, `LimbShifts`,
  `CompactTarget`, `ArithUint256`, `ProofOfWork`).  Limb loops against the integers modulo 2^256, the
  compact format, block proof, retargeting.
* **Block tree and active chain** (`BlockTree`, `ActiveChain`).  Skip pointers against the plain parent
  walk; `SetTip`, `FindFork`, `GetLocator`.
* **Rolling bloom filter** (`RollingBloom`), **message framing** (`Framing`, `MessageFrames`), **compact blocks**
  (`CompactBlocks`, `CompactBlockScan`, `CompactBlockRebuild`, `CompactBlockSend`, `IndexCoding`; BIP
  152), **Base58** (`Base58`, `Base58Codec`).

`Wrappers` and `Sets` hold an option type and two facts about finite sets.

## Where the code and its promises differ

* The assertion of a new controller can fail: a check added after the last `Wait` may still be queued
  (`CheckQueueControl.LateAddBreaksAssertion`).  It holds in every run with the same history of calls if
  and only if every check added so far has been waited for (`AssertionIsSafeIff`); never adding after
  `Wait` is one way to see to that (`DisciplineSuffices`).
* `ModifyNewCoins` for a transaction that is not a coinbase is right if and only if the base view has no
  unspent coins for it (`CoinsCache.BeginNewKeeps`, `SpentNewCoinsAreGone`).
* `Flush` of a cache that was never asked for its best block writes the null hash into a parent cache,
  which then forgets its own (`CoinsCache.FlushForgets`; `FlushBestBlock` and, at any level of a stack,
  `CoinsBest.BestStepAgrees` say exactly when).
* A negative version or height is written as its low seven bits, so coins survive serialization if and
  only if neither is negative (`CoinsCodec.NegativeVersionChanges`, `RoundTripIffNotNegative`).
* A number multiplied in place by itself (`a *= a`) becomes zero, because the factor is zeroed before it
  is read (`ArithUint256.BaseUint.Multiply`).
* The reader of a transaction request keeps its offset in 16 bits, so it accepts lists that continue
  after index 65535 and are not increasing (`IndexCoding.WrappedOffset`).  What it reads is increasing if
  and only if the distances and the gaps between them add up to at most 65535 (`ReadIsIncreasingIff`).
* A compact block keeps positions in 16 bits, but up to 100000 transactions are let through.  From the
  65537th on, a transaction found in the mempool goes to the slot 65536 places before its own.  The
  rebuilt block is then right if and only if none is misplaced in this way (`CompactBlockSend.SendAndRebuild`),
  and every block with more than 65536 transactions goes wrong with some mempool
  (`LargeIsMisplaced`, `RightForAllPoolsIffSmall`).
* With 65536 prefilled transactions and a short ID, `InitData` does not return: its 16-bit counter looks
  for a free slot among taken ones for ever (`CompactBlocks.SearchDoesNotEnd`).
* `Check_` does not look for stray keys in `mapAddr` (`AddrManCheck.StrayKeyPasses`); a state that passes
  is valid if and only if there are none and ids are below `nIdCount` (`PassedIsValid`).

## Model

| member | source | states |
|---|---|---|
| `CheckQueue.CCheckQueue.constructor` | omnicore-master/src/checkqueue.h:131-131 | A new queue is empty and idle, with the given batch size. |
| `CheckQueue.CCheckQueue.Enter` | omnicore-master/src/checkqueue.h:77-120 | The critical section at the top of `Loop`: counters and `fAllOk` are cleaned up exactly once per finished batch, the master is notified exactly when the last check is done by a worker, and the thread returns, sleeps or leaves with a batch as the specification says. |
| `CheckQueue.CCheckQueue.Wake` | omnicore-master/src/checkqueue.h:91-120 | The critical section after a wait, including spurious wake-ups. |
| `CheckQueue.CCheckQueue.GoRound` | omnicore-master/src/checkqueue.h:91-120 | One pass over the inner loop, as the specification function of the state. |
| `CheckQueue.CCheckQueue.PopBatch` | omnicore-master/src/checkqueue.h:111-117 | A batch is exactly the last `nNow` queued checks, and the rest of the queue stays. |
| `CheckQueue.CCheckQueue.Add` | omnicore-master/src/checkqueue.h:146-158 | All checks are appended in order, `nTodo` grows by their number, and one, all or no worker is notified; `CheckQueueWakeups` says what that does to the threads. |
| `CheckQueue.CCheckQueue.IsIdle` | omnicore-master/src/checkqueue.h:164-168 | True exactly when every thread sleeps, nothing is to do and no failure is recorded. |
| `CheckQueue.BatchCount` | omnicore-master/src/checkqueue.h:105-110 | A batch is never empty, never larger than the queue, never larger than the maximal batch size. |
| `CheckQueue.ShareIsTheQuotient` | omnicore-master/src/checkqueue.h:110-110 | The share of the queue is the integer quotient by the thread count. |
| `CheckQueue.BatchIsTheShare` | omnicore-master/src/checkqueue.h:105-110 | A batch is no more than the thread's share of the queue unless that is nothing, and no less unless the batch is full. |
| `CheckQueue.FromBackConserves` | omnicore-master/src/checkqueue.h:111-117 | Taking a batch loses and invents no check. |
| `CheckQueue.FromBackAllOk` | omnicore-master/src/checkqueue.h:111-117 | All queued checks are true iff those in the batch and those left are. |
| `CheckQueue.ExecuteBatch` | omnicore-master/src/checkqueue.h:121-124 | Although checks after a failure are skipped, the result is the conjunction of all verdicts. |
| `CheckQueueRuns.LoopHeadKeepsInv` | omnicore-master/src/checkqueue.h:91-120 | The inner loop keeps the global invariant, with one thread between states. |
| `CheckQueueRuns.EnterReachesMid` | omnicore-master/src/checkqueue.h:78-89 | Cleaning up leads into the state from which the inner loop is proved. |
| `CheckQueueRuns.WakeReachesMid` | omnicore-master/src/checkqueue.h:101-103 | So does waking up. |
| `CheckQueueRuns.ExecKeepsInv` | omnicore-master/src/checkqueue.h:121-124 | Evaluating one check keeps it. |
| `CheckQueueRuns.AddKeepsInv` | omnicore-master/src/checkqueue.h:146-158 | Adding checks keeps it; the added checks become pending. |
| `CheckQueueRuns.StepKeepsInv` | omnicore-master/src/checkqueue.h:69-158 | Every step of every thread keeps the invariant, and a `Wait` that returns reports all pending checks exactly. |
| `CheckQueueTheorems.RunKeepsInv` | omnicore-master/src/checkqueue.h:69-158 | The invariant holds at every point of every run. |
| `CheckQueueTheorems.WaitIsExact` | omnicore-master/src/checkqueue.h:69-158 | In every interleaving, over any number of rounds, `Wait` returns true iff every check added since the previous return evaluates to true. |
| `CheckQueueTheorems.CountersAreExact` | omnicore-master/src/checkqueue.h:76-127 | At every lock release `nTodo` is the number of queued plus in-flight checks, `nTotal - nIdle` the number of threads with a batch, and no counter is negative. |
| `CheckQueueTheorems.IdleAfterWait` | omnicore-master/src/checkqueue.h:164-168 | The queue is idle right after `Wait` returns. |
| `CheckQueueTheorems.QuietIsIdle` | omnicore-master/src/checkqueue.h:164-168 | Idle means exactly: nothing to do and no failure recorded. |
| `CheckQueueTheorems.NeverStuck` | omnicore-master/src/checkqueue.h:76-127 | While the master is in `Wait`, some thread with a batch or a notified thread can move; if the master sleeps un-notified, a worker holds an unfinished batch. |
| `CheckQueueTheorems.DrivenStepsLowerRank` | omnicore-master/src/checkqueue.h:76-127 | Every such step lowers a measure. |
| `CheckQueueTheorems.DrivenRunsAreShort` | omnicore-master/src/checkqueue.h:76-127 | So no schedule of them is longer than the measure. |
| `CheckQueueTheorems.WaitReturns` | omnicore-master/src/checkqueue.h:76-127 | From every reachable state inside `Wait` there is a schedule at whose end, and not before, it returns the exact verdict. |
| `CheckQueueWakeups.AddWakes` | omnicore-master/src/checkqueue.h:146-158 | Two or more checks notify every sleeping worker, one check notifies one that sleeps if there is any, none notifies nobody; no other thread changes. |
| `CheckQueueWakeups.StepKeepsAwake` | omnicore-master/src/checkqueue.h:76-158 | Every step keeps: if something is queued and a worker sleeps, some thread is working or notified. |
| `CheckQueueWakeups.RunKeepsAwake` | omnicore-master/src/checkqueue.h:76-158 | So it holds at every point of every run. |
| `CheckQueueWakeups.SomebodyGoesOn` | omnicore-master/src/checkqueue.h:76-158 | With a worker in its loop and something to do, a working or notified thread can move, whether or not the master waits. |
| `CheckQueueWakeups.WorkersFinish` | omnicore-master/src/checkqueue.h:76-158 | Then there is a schedule, bounded by the measure, at whose end nothing is to do. |
| `CheckQueueControl.AssertionIsExact` | omnicore-master/src/checkqueue.h:183-191 | In every run the asserted value is: nothing is left to do, and every check added since the last return of `Wait` is true. |
| `CheckQueueControl.ControllerAssertionHolds` | omnicore-master/src/checkqueue.h:183-191 | In every run in which everything added was waited for, the assertion holds. |
| `CheckQueueControl.NothingPendingWhenDone` | omnicore-master/src/checkqueue.h:193-208 | If nothing is added after `Wait`, no check is pending outside a controller that is still to wait. |
| `CheckQueueControl.DisciplineSuffices` | omnicore-master/src/checkqueue.h:183-213 | So, with any number of controllers, that discipline keeps every assertion true. |
| `CheckQueueControl.AloneIsExact` | omnicore-master/src/checkqueue.h:183-191 | With no worker awake, the assertion holds iff nothing is pending. |
| `CheckQueueControl.SameHistoryAlone` | omnicore-master/src/checkqueue.h:69-213 | Whatever the threads did in a run, a run of the master alone shows the same calls with the same verdicts. |
| `CheckQueueControl.AssertionIsSafeIff` | omnicore-master/src/checkqueue.h:183-213 | After any history of calls, a new controller's assertion holds in every run with that history iff everything added was waited for. |
| `CheckQueueControl.LateAddBreaksAssertion` | omnicore-master/src/checkqueue.h:183-213 | A run in which it fails. |
| `Coins.CleanedKeepsOutputs` | omnicore-master/src/coins.h:113-119 | `Cleanup` removes spent outputs at the end and nothing else; pruned means cleaned to nothing. |
| `Coins.Cleanup` | omnicore-master/src/coins.h:113-119 | The loop computes that. |
| `Coins.Spend` | omnicore-master/src/coins.cpp:35-42 | Succeeds iff the output is available; then exactly that output goes. |
| `CoinsCache.RawAgreesWithLook` | omnicore-master/src/coins.cpp:90-97 | `GetCoins` shows the coins of the view, up to pruned = absent. |
| `CoinsCache.HaveCoinsIsExact` | omnicore-master/src/coins.cpp:144-151 | `HaveCoins`, which only asks whether `vout` is empty, is exact when no modification is under way. |
| `CoinsCache.FetchKeeps` | omnicore-master/src/coins.cpp:72-88 | Fetching through all levels keeps the flags' promises and changes no lookup. |
| `CoinsCache.FetchFills` | omnicore-master/src/coins.cpp:72-88 | A fetched entry is then in the top cache. |
| `CoinsCache.GetBestKeeps` | omnicore-master/src/coins.cpp:158-162 | Asking for the best block changes neither coins nor best block. |
| `CoinsCache.BeginModifyKeeps` | omnicore-master/src/coins.cpp:99-122 | `ModifyCoins` keeps the promises and changes no lookup. |
| `CoinsCache.BeginNewKeeps` | omnicore-master/src/coins.cpp:124-133 | `ModifyNewCoins` keeps the promises iff it is for a coinbase or the base has no unspent coins for the txid. |
| `CoinsCache.SpentNewCoinsAreGone` | omnicore-master/src/coins.cpp:124-133 | New coins that are spent again are gone iff that condition holds. |
| `CoinsCache.EndModifyKeeps` | omnicore-master/src/coins.cpp:285-302 | The end of a modification keeps the promises and makes exactly the new coins visible. |
| `CoinsCache.UncacheKeeps` | omnicore-master/src/coins.cpp:220-227 | Uncaching changes no lookup. |
| `CoinsCache.UncacheForgets` | omnicore-master/src/coins.cpp:220-227 | Afterwards the entry is cached iff it was and is dirty or fresh; nothing else changes. |
| `CoinsCache.GetBestFills` | omnicore-master/src/coins.cpp:158-162 | Asking for the best block leaves it in every cache on the way. |
| `CoinsCache.FlushEmpties` | omnicore-master/src/coins.cpp:168-218 | A flush empties the cache, and coins that came and went since leave nothing in a parent cache. |
| `CoinsCache.MergeIsRight` | omnicore-master/src/coins.cpp:168-211 | What `BatchWrite` leaves for a txid keeps the promises towards the grandparent and shows what the child showed. |
| `CoinsCache.BatchWriteKeeps` | omnicore-master/src/coins.cpp:168-211 | The parent's view after a child's write equals the child's former view. |
| `CoinsCache.FlushKeeps` | omnicore-master/src/coins.cpp:213-218 | A flush changes no lookup, above or below. |
| `CoinsCache.FlushBestBlock` | omnicore-master/src/coins.cpp:168-218 | When exactly a flush keeps the best block. |
| `CoinsCache.FlushForgets` | omnicore-master/src/coins.cpp:168-218 | A cache over a cache whose flush loses the parent's best block. |
| `CoinsRuns.StepAgrees` | omnicore-master/src/coins.cpp:72-227 | Every legal operation at every level keeps the promises everywhere and does to the lookups what it does to one plain map per level. |
| `CoinsRuns.RunAgrees` | omnicore-master/src/coins.cpp:72-227 | So does every run. |
| `CoinsRuns.LookupsAgreeWithPlainMaps` | omnicore-master/src/coins.cpp:72-227 | From any database, after any run, every level's `GetCoins` agrees with its plain map up to pruned = absent. |
| `CoinsBest.FlushBests` | omnicore-master/src/coins.cpp:158-218 | A flush at any level hands the best block down as on a plain list iff it does not hand the null hash to a cache that knows another block than its base. |
| `CoinsBest.BestStepAgrees` | omnicore-master/src/coins.cpp:158-218 | Every legal operation at every level does to the best blocks what it does to the plain list, iff it does not put the null hash over a base that knows a block. |
| `CoinsBest.BestRunAgrees` | omnicore-master/src/coins.cpp:158-218 | So does every run of such operations. |
| `CoinsView.CCoinsView.Database` | omnicore-master/src/txdb.cpp:34-70 | A database view with the given coins and best block. |
| `CoinsView.CCoinsView.Over` | omnicore-master/src/coins.cpp:61-61 | An empty cache over a view. |
| `CoinsView.CCoinsView.GetCoins` | omnicore-master/src/coins.cpp:72-97 | Answers as the value of the stack says and fills every cache on the way. |
| `CoinsView.CCoinsView.HaveCoins` | omnicore-master/src/coins.cpp:144-151 | Answers whether there are unspent coins. |
| `CoinsView.CCoinsView.GetBestBlock` | omnicore-master/src/coins.cpp:158-162 | Answers and caches the best block. |
| `CoinsView.CCoinsView.SetBestBlock` | omnicore-master/src/coins.cpp:164-166 | Changes the best block of this level and nothing else. |
| `CoinsView.CCoinsView.ModifyCoins` | omnicore-master/src/coins.cpp:99-122 | Leaves the stack that `BeginModify` describes. |
| `CoinsView.CCoinsView.ModifyNewCoins` | omnicore-master/src/coins.cpp:124-133 | Leaves the stack that `BeginNew` describes. |
| `CoinsView.CCoinsView.EndModify` | omnicore-master/src/coins.cpp:290-302 | Leaves the stack that `EndModify` describes: a fresh pruned entry is dropped. |
| `CoinsView.CCoinsView.Uncache` | omnicore-master/src/coins.cpp:220-227 | Drops an entry that is neither dirty nor fresh. |
| `CoinsView.CCoinsView.BatchWrite` | omnicore-master/src/coins.cpp:168-211 | The loop over the child's entries computes the merge of both maps. |
| `CoinsView.CCoinsView.WriteOne` | omnicore-master/src/coins.cpp:171-207 | One entry of it, in all its cases. |
| `CoinsView.CCoinsView.Flush` | omnicore-master/src/coins.cpp:213-218 | Leaves the stack that `Flush` describes. |
| `VarInt.ReadsBack` | omnicore-master/src/serialize.h:343-373 | A written number is read back, and reading stops exactly behind it; a negative number comes back as its low seven bits. |
| `VarInt.OneEncoding` | omnicore-master/src/serialize.h:306-328 | Whatever is read as n is the encoding of n: every number has exactly one. |
| `VarInt.EncodedMeans` | omnicore-master/src/serialize.h:306-328 | The documented format: the high bit is set on all bytes but the last, and with one added to all digits but the last they are the numeral to the base 128. |
| `VarInt.GetSizeOfVarInt` | omnicore-master/src/serialize.h:330-341 | The announced size is the length of the encoding. |
| `VarInt.BufferSuffices` | omnicore-master/src/serialize.h:343-355 | A number of at most so many bits has at most (bits + 6) / 7 digits, so the buffer suffices. |
| `VarInt.FindDigits` | omnicore-master/src/serialize.h:346-355 | The first loop finds the digits, last one first. |
| `VarInt.WriteVarInt` | omnicore-master/src/serialize.h:343-359 | Appends the encoding. |
| `VarInt.ReadVarInt` | omnicore-master/src/serialize.h:360-373 | Reads what the byte-wise specification reads, or runs out of data. |
| `Compressor.DecompressesCompressed` | omnicore-master/src/compressor.cpp:142-185 | Decompressing a compressed amount gives the amount, for every amount. |
| `Compressor.CompressesDecompressed` | omnicore-master/src/compressor.cpp:142-185 | And the other way round, for every code. |
| `Compressor.CompressedMeans` | omnicore-master/src/compressor.cpp:133-140 | The documented code, for a last digit d with up to eight zeros after it and for nine zeros. |
| `Compressor.CompressedFits` | omnicore-master/src/compressor.cpp:142-160 | Up to MAX_MONEY nothing exceeds 64 bits. |
| `Compressor.CompressAmount` | omnicore-master/src/compressor.cpp:142-160 | The loop computes the code modulo 2^64, exactly up to MAX_MONEY. |
| `Compressor.DecompressAmount` | omnicore-master/src/compressor.cpp:162-185 | The loop computes the amount modulo 2^64. |
| `Compressor.DecompressesScript` | omnicore-master/src/compressor.cpp:12-131 | Every script with a short form comes back from it. |
| `Compressor.ParsesScript` | omnicore-master/src/compressor.h:66-97 | Every script within the size limit is read back, with nothing of what follows. |
| `Compressor.ParsesOut` | omnicore-master/src/compressor.h:114-126 | Every output with a money amount and an allowed script is read back. |
| `CoinsCodec.ParsesMask` | omnicore-master/src/coins.h:220-230 | The reader's count of non-zero bytes stops it exactly behind a mask whose last byte is not zero. |
| `CoinsCodec.MaskIsNeeded` | omnicore-master/src/coins.h:181-186 | If the first two outputs are spent and something is unspent, the mask is not empty, so the header code is not negative. |
| `CoinsCodec.MaskIsLongEnough` | omnicore-master/src/coins.cpp:17-33 | The mask reaches the last output of cleaned coins. |
| `CoinsCodec.CodeFields` | omnicore-master/src/coins.h:186-219 | The header code gives back the coinbase flag, both availability bits and the number of non-zero mask bytes. |
| `CoinsCodec.ParsesOuts` | omnicore-master/src/coins.h:199-236 | The available outputs are read back into their places. |
| `CoinsCodec.UnserializesSerialized` | omnicore-master/src/coins.h:179-240 | Unserializing serialized coins gives them back and stops exactly behind them, except for a negative version or height. |
| `CoinsCodec.RoundTripIffNotNegative` | omnicore-master/src/coins.h:179-240 | Storable coins survive the round trip iff version and height are not negative. |
| `CoinsCodec.NegativeVersionChanges` | omnicore-master/src/coins.h:179-240 | Coins with version -1 come back with version 127. |
| `CoinsStream.CalcMaskSize` | omnicore-master/src/coins.cpp:17-33 | The nested loops find the length of the mask up to its last non-zero byte, and the number of non-zero bytes. |
| `CoinsStream.PackGroup` | omnicore-master/src/coins.h:191-198 | One mask byte, bit by bit. |
| `CoinsStream.SerializeOut` | omnicore-master/src/compressor.h:114-126 | Writes the compressed output. |
| `CoinsStream.Serialize` | omnicore-master/src/coins.h:179-206 | Appends the serialized form; the assertion on the header code holds. |
| `CoinsStream.ReadMask` | omnicore-master/src/coins.h:220-230 | The mask loop reads what the specification reads. |
| `CoinsStream.ReadOuts` | omnicore-master/src/coins.h:231-236 | So does the loop over the outputs. |
| `CoinsStream.Unserialize` | omnicore-master/src/coins.h:208-240 | Reads what the specification reads, or runs out of data. |
| `CoinsStream.GetSerializeSize` | omnicore-master/src/coins.h:156-177 | The announced size is the length of what is written. |
| `AddrManSteps.EmptyIsValid` | omnicore-master/src/addrman.h:453-477 | A fresh address manager is valid. |
| `AddrManSteps.CreateKeeps` | omnicore-master/src/addrman.cpp:88-98 | `Create` keeps everything, with the new entry still without a slot. |
| `AddrManSteps.SwapKeeps` | omnicore-master/src/addrman.cpp:100-118 | `SwapRandom` keeps all indexes mutually inverse. |
| `AddrManSteps.DeleteKeeps` | omnicore-master/src/addrman.cpp:120-132 | An entry without a slot can be deleted: all assertions hold and all indexes stay consistent. |
| `AddrManMoves.DropRefKeeps` | omnicore-master/src/addrman.cpp:134-147 | Giving up a slot keeps the counts exact. |
| `AddrManMoves.ClearNewKeeps` | omnicore-master/src/addrman.cpp:134-147 | `ClearNew` keeps the invariant, deleting the entry with its last slot. |
| `AddrManMoves.AddRefKeeps` | omnicore-master/src/addrman.cpp:304-307 | Taking a free slot at the entry's own position keeps it. |
| `AddrManMoves.LeaveNewKeeps` | omnicore-master/src/addrman.cpp:151-161 | Leaving all "new" slots keeps it, with the entry between tables. |
| `AddrManMoves.LeaveTriedKeeps` | omnicore-master/src/addrman.cpp:168-177 | So does leaving "tried". |
| `AddrManMoves.EnterTriedKeeps` | omnicore-master/src/addrman.cpp:190-194 | And entering it. |
| `AddrManOps.MakeTriedKeeps` | omnicore-master/src/addrman.cpp:149-195 | `MakeTried`, with or without an eviction, keeps the invariant and tries the entry. |
| `AddrManOps.BucketIsFound` | omnicore-master/src/addrman.cpp:226-241 | An untried entry is always found in some bucket: the bail-out of `Good_` is unreachable. |
| `AddrManOps.GoodKeeps` | omnicore-master/src/addrman.cpp:197-247 | `Good_` keeps the invariant; a known address ends up tried. |
| `AddrManEffects.GoodEffect` | omnicore-master/src/addrman.cpp:149-247 | A known address has its statistics set and is in tried, at its own slot and nowhere else; an entry that had this slot is back in new with one reference, in the slot of its own source, whose occupant loses a reference. Nothing else changes. |
| `AddrManEffects.MakeTriedEffect` | omnicore-master/src/addrman.cpp:149-195 | The same for `MakeTried`. |
| `AddrManEffects.ClearEffect` | omnicore-master/src/addrman.cpp:134-147 | `ClearNew` takes one reference from the occupant of a slot, which goes with its last. |
| `AddrManOps.AttemptKeeps` | omnicore-master/src/addrman.cpp:317-337 | `Attempt_` keeps it. |
| `AddrManOps.ConnectedKeeps` | omnicore-master/src/addrman.cpp:485-503 | `Connected_` keeps it. |
| `AddrManOps.SetServicesKeeps` | omnicore-master/src/addrman.cpp:505-521 | `SetServices_` keeps it. |
| `AddrManEffects.AttemptEffect` | omnicore-master/src/addrman.cpp:317-337 | The last try is set; the attempt is counted iff failures count and none was counted since the last success of any peer; nothing else changes. |
| `AddrManEffects.ConnectedEffect` | omnicore-master/src/addrman.cpp:485-503 | Afterwards the time is at most twenty minutes behind, and it changes only if it was more; nothing else changes. |
| `AddrManEffects.SetServicesEffect` | omnicore-master/src/addrman.cpp:505-521 | The services are set; nothing else changes. |
| `AddrManEffects.ShuffleEffect` | omnicore-master/src/addrman.cpp:464-483 | Sampling changes nothing but the order of `vRandom`. |
| `AddrManOps.InsertKeeps` | omnicore-master/src/addrman.cpp:293-314 | The end of `Add_` keeps it, whether the slot is free, overwritten or refused. |
| `AddrManOps.AddKeeps` | omnicore-master/src/addrman.cpp:249-315 | `Add_` keeps it for any input. |
| `AddrManEffects.AddUnknownEffect` | omnicore-master/src/addrman.cpp:287-315 | An unknown routable address whose slot for this source is free, or held by an entry that is terrible or elsewhere too, gets a fresh id, its time less the penalty but not below 0, one reference and exactly that slot; the occupant loses a reference, or goes with its last. Otherwise the address stays unknown. Nothing else changes. |
| `AddrManEffects.AddKnownEffect` | omnicore-master/src/addrman.cpp:249-314 | A known address gets the new time iff the old one is missing or older than the interval and penalty allow, the union of services, and another reference, in the slot for this source, iff all tests pass and the slot is free or its occupant terrible. Nothing else changes but that occupant. |
| `AddrManEffects.AddUnroutableEffect` | omnicore-master/src/addrman.cpp:251-252 | An address that is not routable is ignored. |
| `AddrManEffects.InsertEffect` | omnicore-master/src/addrman.cpp:293-314 | What the end of `Add_` does in each of its cases. |
| `AddrManEffects.TerribleIff` | omnicore-master/src/addrman.cpp:33-51 | When exactly an entry is terrible. |
| `AddrManOps.ApplyKeeps` | omnicore-master/src/addrman.cpp:197-521 | Every public operation keeps it. |
| `AddrManOps.EveryRunKeepsInv` | omnicore-master/src/addrman.cpp:88-521 | At every point of every run from a fresh object: indexes mutually inverse, reference counts exact and at most 8, every id only at its own positions, tables disjoint and counted exactly. |
| `AddrManObject.CAddrMan.constructor` | omnicore-master/src/addrman.h:453-477 | A fresh object is empty and valid. |
| `AddrManObject.CAddrMan.Create` | omnicore-master/src/addrman.cpp:88-98 | Leaves the state that `AddrMan.Create` describes. |
| `AddrManObject.CAddrMan.SwapRandom` | omnicore-master/src/addrman.cpp:100-118 | Leaves the state that `AddrMan.SwapRandom` describes. |
| `AddrManObject.CAddrMan.Delete` | omnicore-master/src/addrman.cpp:120-132 | Leaves the state that `AddrMan.Delete` describes. |
| `AddrManObject.CAddrMan.ClearNew` | omnicore-master/src/addrman.cpp:134-147 | Leaves the state that `AddrMan.ClearNew` describes. |
| `AddrManObject.CAddrMan.RemoveFromNew` | omnicore-master/src/addrman.cpp:151-161 | The loop over all buckets removes every reference; the count reaches zero. |
| `AddrManObject.CAddrMan.EvictFrom` | omnicore-master/src/addrman.cpp:167-190 | Evicts the occupant of a tried slot into its "new" slot. |
| `AddrManObject.CAddrMan.MakeTried` | omnicore-master/src/addrman.cpp:149-195 | Leaves the state that `AddrManOps.MakeTried` describes. |
| `AddrManObject.CAddrMan.FindBucket` | omnicore-master/src/addrman.cpp:226-236 | The search from a random start finds a bucket iff one holds the entry. |
| `AddrManObject.CAddrMan.Good_` | omnicore-master/src/addrman.cpp:197-247 | Leaves the state that `AddrManOps.Good` describes, and it is valid. |
| `AddrManObject.CAddrMan.Insert` | omnicore-master/src/addrman.cpp:293-314 | Leaves the state that `AddrManOps.Insert` describes. |
| `AddrManObject.CAddrMan.Add_` | omnicore-master/src/addrman.cpp:249-315 | Leaves the state that `AddrManOps.Add` describes, and it is valid; returns true iff the address is routable and was unknown. |
| `AddrManObject.CAddrMan.Attempt_` | omnicore-master/src/addrman.cpp:317-337 | Leaves the state that `AddrManOps.Attempt` describes, and it is valid. |
| `AddrManObject.CAddrMan.Connected_` | omnicore-master/src/addrman.cpp:485-503 | Leaves the state that `AddrManOps.Connected` describes, and it is valid. |
| `AddrManObject.CAddrMan.SetServices_` | omnicore-master/src/addrman.cpp:505-521 | Leaves the state that `AddrManOps.SetServices` describes, and it is valid. |
| `AddrManObject.CAddrMan.SampleOne` | omnicore-master/src/addrman.cpp:471-482 | One round of the shuffle, which samples the entry that comes to the front unless it is terrible. |
| `AddrManObject.CAddrMan.GetAddr_` | omnicore-master/src/addrman.cpp:464-483 | A partial shuffle that keeps the invariant; the result is the non-terrible entries of the shuffled part, at most 23% and at most 2500, and stops short only when it is full. |
| `AddrManCheck.CheckEntries` | omnicore-master/src/addrman.cpp:389-417 | Accepts exactly the entries that are right, and collects the tried ids and the counts. |
| `AddrManCheck.CheckTried` | omnicore-master/src/addrman.cpp:424-436 | Nothing wrong and nothing left iff the "tried" table and the tried entries correspond one to one. |
| `AddrManCheck.CheckNew` | omnicore-master/src/addrman.cpp:438-450 | Nothing wrong and nothing left iff every "new" slot is right and every count exact. |
| `AddrManCheck.Check` | omnicore-master/src/addrman.cpp:387-461 | Returns 0 iff the state satisfies the written-out condition. |
| `AddrManCheck.ValidPasses` | omnicore-master/src/addrman.cpp:387-461 | Every valid state passes. |
| `AddrManCheck.PassedIsValid` | omnicore-master/src/addrman.cpp:387-461 | A state that passes is valid iff `mapAddr` has no stray keys and ids are below `nIdCount`. |
| `AddrManCheck.StrayKeyPasses` | omnicore-master/src/addrman.cpp:387-461 | A state with a stray key passes and is not valid. |
| `AddrManCheck.EveryRunPassesCheck` | omnicore-master/src/addrman.cpp:387-461 | Every state of every run from a fresh object passes. |
| `AddrManCheck.CheckDuringRun` | omnicore-master/src/addrman.cpp:387-461 | `Check_` returns 0 at every point of every run from a fresh object. |
| `AddrManCodec.LostCanBeDeleted` | omnicore-master/src/addrman.h:430-440 | Whatever was on disk, pruning an entry meets the assertions of `Delete`. |
| `AddrManCodec.Prune` | omnicore-master/src/addrman.h:430-440 | Pruning keeps `vRandom` and `mapInfo` in step. |
| `AddrManRoundTrip.OrderIsNumbering` | omnicore-master/src/addrman.h:305-327 | The numbers given when writing are a one-to-one renaming, new entries first. |
| `AddrManRoundTrip.CountsAreRight` | omnicore-master/src/addrman.h:305-327 | As many entries are written as the counters say: the assertions of `Serialize` hold. |
| `AddrManRoundTrip.NewsLoaded` | omnicore-master/src/addrman.h:371-389 | Loading the new entries gives them their numbers as ids, all indexes consistent. |
| `AddrManRoundTrip.TriedsLoaded` | omnicore-master/src/addrman.h:391-410 | Every tried entry finds its slot free: none is lost. |
| `AddrManRoundTrip.BucketsLoaded` | omnicore-master/src/addrman.h:412-428 | Every "new" slot is read back as it was written, and no reference is refused. |
| `AddrManRestore.NewFits` | omnicore-master/src/addrman.h:363-365 | A valid state has at most as many new entries as slots, so the image is accepted. |
| `AddrManRestore.TriedFits` | omnicore-master/src/addrman.h:367-369 | So it is for tried entries. |
| `AddrManRestore.RebuildsImage` | omnicore-master/src/addrman.h:292-446 | The image of a valid state is accepted, nothing is lost, the rebuilt state is valid, and it is the same up to the renaming: same stored fields, slots, reference counts and counters. |
| `AddrManDisk.Serialize` | omnicore-master/src/addrman.h:292-340 | The loops write the image; the assertions on the counters hold. |
| `AddrManDisk.Unserialize` | omnicore-master/src/addrman.h:342-446 | The loops rebuild the tables from any image within the limits. |
| `AddrManDisk.SaveAndLoad` | omnicore-master/src/addrman.h:292-446 | Saving and loading a valid state always succeeds and gives the same tables. |
| `MerkleTree.WidthIsShift` | omnicore-master/src/merkleblock.h:66-68 | The recursive tree width is the shift expression of the code. |
| `MerkleTree.CalcHeight` | omnicore-master/src/merkleblock.cpp:141-144 | The loop finds the height at which one node is left. |
| `MerkleTree.CalcHashIsLevel` | omnicore-master/src/merkleblock.cpp:63-78 | `CalcHash` is the entry of the tree level built by pairing up. |
| `MerkleTree.MerkleRootIsTopLevel` | omnicore-master/src/merkleblock.cpp:63-78 | The root is the top level. |
| `PartialMerkle.PackBits` | omnicore-master/src/merkleblock.h:99-104 | Bits are packed eight to a byte, lowest first, padded with zeros. |
| `PartialMerkle.UnpackBits` | omnicore-master/src/merkleblock.h:92-98 | And unpacked. |
| `PartialMerkle.BitsRoundTrip` | omnicore-master/src/merkleblock.h:88-105 | Packing and unpacking gives the bits, padded to whole bytes. |
| `PartialMerkle.ParentOfMatch` | omnicore-master/src/merkleblock.cpp:81-84 | The loop finds out whether any leaf below the node is marked. |
| `PartialMerkle.CPartialMerkleTree.Build` | omnicore-master/src/merkleblock.cpp:136-148 | Stores the encoding of the marked list. |
| `PartialMerkle.CPartialMerkleTree.Read` | omnicore-master/src/merkleblock.h:88-98 | Reads bits and hashes from the wire. |
| `PartialMerkle.CPartialMerkleTree.TraverseAndBuild` | omnicore-master/src/merkleblock.cpp:80-96 | Appends the encoding of a subtree. |
| `PartialMerkle.CPartialMerkleTree.TraverseAndExtract` | omnicore-master/src/merkleblock.cpp:98-134 | Decodes a subtree as the specification does, with all its failure cases. |
| `PartialMerkle.CPartialMerkleTree.ExtractMatches` | omnicore-master/src/merkleblock.cpp:152-183 | Decodes a whole proof as the specification does, with all its checks. |
| `MerkleShape.ExtractFollows` | omnicore-master/src/merkleblock.cpp:98-134 | Decoding by height and position is decoding along the tree. |
| `MerkleShape.EncodeFollows` | omnicore-master/src/merkleblock.cpp:80-96 | So is encoding. |
| `MerkleShape.SameHashSameFirstLeaf` | omnicore-master/src/merkleblock.cpp:63-78 | Two subtrees with the same hash begin with the same transaction, or `LeftClash` finds a collision on the way down. |
| `MerkleTheorems.ReportsInOrder` | omnicore-master/src/merkleblock.cpp:98-134 | Whatever the input, reported indices are leaves below the node, strictly increasing. |
| `MerkleTheorems.ReportsHonestly` | omnicore-master/src/merkleblock.cpp:98-134 | A subtree whose hash is the true one reports true transactions, or `Forgery` finds two different pairs in it with the same hash. |
| `MerkleTheorems.Authenticity` | omnicore-master/src/merkleblock.cpp:98-183 | For arbitrary bits and hashes: if the result is the Merkle root of a list of the claimed length, every reported hash is that list's transaction at the reported index, indices strictly increasing, or the colliding pairs that `Forgery` computes from proof and list collide. |
| `MerkleTheorems.DecodesEncoded` | omnicore-master/src/merkleblock.cpp:80-134 | Decoding an encoded subtree gives its hash and marked leaves and uses exactly its bits and hashes. |
| `MerkleTheorems.OneHashPerLeaf` | omnicore-master/src/merkleblock.h:34-41 | An encoded subtree has at most one hash per leaf. |
| `MerkleTheorems.FewHashesPerMatch` | omnicore-master/src/merkleblock.h:34-41 | And at most 1 + matches times depth. |
| `MerkleTheorems.MarkedIsExact` | omnicore-master/src/merkleblock.cpp:80-96 | The reference lists are exactly the marked positions, in order, with their transactions. |
| `MerkleTheorems.StoredHashesAreBounded` | omnicore-master/src/merkleblock.h:34-41 | Both bounds for a whole tree. |
| `MerkleTheorems.DistinctHaveNoTwins` | omnicore-master/src/merkleblock.cpp:121-128 | Distinct transactions give no node two equal children, or `TwinClash` finds a collision; so the guard against duplicated branches does not refuse honest trees. |
| `MerkleTheorems.Completeness` | omnicore-master/src/merkleblock.cpp:63-183 | For distinct transactions within the size limit and any mask: build, pack, unpack and extract gives the true root and exactly the marked transactions and positions, using every hash, or the pairs that `TwinClash` computes from the list collide. |
| `MerkleTheorems.ExtractsEncoded` | omnicore-master/src/merkleblock.cpp:80-134 | The same for the traversal alone, unless those pairs collide. |
| `MerkleStrict.UsesEverything` | omnicore-master/src/merkleblock.cpp:152-183 | A non-zero root has used every hash, and every bit up to the padding of the last byte. |
| `MerkleStrict.ExtractIgnoresRest` | omnicore-master/src/merkleblock.cpp:98-134 | The traversal does not depend on what it does not use. |
| `MerkleStrict.NothingCanBeAdded` | omnicore-master/src/merkleblock.cpp:152-183 | So an accepted proof is refused with a hash or a byte of bits added. |
| `Mempool.FewerAncestors` | omnicore-master/src/miner.cpp:381-385 | An ancestor has a smaller ancestor count, so sorting by it is a valid order. |
| `Mempool.ParentsSuffice` | omnicore-master/src/miner.cpp:202-211 | If all parents are in an ancestor-closed block, all ancestors are. |
| `PackageTotals.UpdateOne` | omnicore-master/src/miner.cpp:348-360 | One update of a modified entry: its totals still cover what is left of its package. |
| `PackageTotals.UpdateIsExact` | omnicore-master/src/miner.cpp:348-360 | One update of an exact record, or of none where nothing of the package was in the block, gives the exact totals over the rest. |
| `PackageTotals.UpdatePackagesForAdded` | omnicore-master/src/miner.cpp:338-362 | Afterwards every modified entry's size and sigop totals are at least those of the part of its package that is not in the block; size, sigops and fees that were exact before are exact, and no record is lost. |
| `BlockOrder.SortForBlock` | omnicore-master/src/miner.cpp:379-388 | The package, each transaction once, by ancestor count. |
| `BlockOrder.SortedPackageIsReady` | omnicore-master/src/miner.cpp:379-388 | When a sorted package is appended, each transaction finds all its ancestors in the block. |
| `BlockOrder.ParentsFirst` | omnicore-master/src/miner.cpp:312-325 | In a valid block a parent stands before its child. |
| `BlockAssembler.BlockAssembler.constructor` | omnicore-master/src/miner.cpp:107-123 | An empty block with the reserved weight, size and sigops. |
| `BlockAssembler.BlockAssembler.AddToBlock` | omnicore-master/src/miner.cpp:312-336 | Appends a ready transaction; all running totals stay exact. |
| `BlockAssembler.BlockAssembler.TestPackageTransactions` | omnicore-master/src/miner.cpp:241-258 | Passes iff all transactions are final and allowed and, with size accounting, the sizes fit. |
| `BlockAssembler.BlockAssembler.AppendSorted` | omnicore-master/src/miner.cpp:495-503 | Appends a sorted package. |
| `BlockAssembler.BlockAssembler.AddPackage` | omnicore-master/src/miner.cpp:495-503 | Adds a package and erases it from the modified set; the totals grow by exactly the package. |
| `BlockAssembler.BlockAssembler.TryPackage` | omnicore-master/src/miner.cpp:467-507 | Adds the package iff weight and sigops pass on its totals, everything missing of it is final and allowed, and its sizes fit; then the block is the old one and the whole package, within all limits although the totals may over-count. Otherwise nothing changes. |
| `BlockAssembler.BlockAssembler.Consider` | omnicore-master/src/miner.cpp:453-506 | One transaction: the fee test, then the package; what is refused is recorded with the block as it was. |
| `BlockAssembler.BlockAssembler.DoesNotFit` | omnicore-master/src/miner.cpp:467-490 | A package refused on exact totals did not fit. |
| `BlockSelection.Chosen` | omnicore-master/src/miner.cpp:453-460 | The totals used are those of what is missing, exactly so unless the transaction has been refused before, and never too low. |
| `BlockAssembler.BlockAssembler.AddPackageTxs` | omnicore-master/src/miner.cpp:400-508 | Whatever the scores decide: the loop ends, the block stays valid and within all limits, and unless a fee is too low every transaction is in the block or was refused when first tried, because the rest of its package, counted exactly, was too heavy, had too many sigops, was too large or was not allowed. |
| `BlockAssembler.BlockAssembler.TestForBlock` | omnicore-master/src/miner.cpp:260-310 | Passes iff the transaction fits in weight, size and sigops and is final; flags the block as finished only if it is nearly full or 50 transactions were tried at the end. |
| `BlockAssembler.BlockAssembler.AddPriorityTxs` | omnicore-master/src/miner.cpp:510-590 | Whatever the priorities: the loop ends, no queued transaction is already in the block, the block stays valid and within all limits, and unless it is stopped (finished, priority size reached, priority too low) every transaction is in the block, not allowed in it, without a parent in it, or did not fit when it was tried. |
| `BlockAssembler.CreateNewBlock` | omnicore-master/src/miner.cpp:125-200 | The finished block has no transaction twice, all ancestors before a transaction, and is within the weight, size and sigop limits, with exact totals; unless a fee is too low, every transaction is in it or its package did not fit when it was tried. |
| `Limbs.NumOrder` | omnicore-master/src/arith_uint256.cpp:110-119 | The highest limb that differs decides the order of the numbers. |
| `Limbs.OrDisjoint` | omnicore-master/src/arith_uint256.cpp:21-53 | Or of numbers without a common bit is their sum. |
| `ArithUint256.BaseUint.Add` | omnicore-master/src/arith_uint256.h:135-145 | Addition modulo 2^256, also in place of itself; every intermediate fits 64 bits. |
| `ArithUint256.BaseUint.Increment` | omnicore-master/src/arith_uint256.h:173-180 | Plus one modulo 2^256. |
| `ArithUint256.BaseUint.Complement` | omnicore-master/src/arith_uint256.h:69-75 | 2^256 - 1 - x. |
| `ArithUint256.BaseUint.Negate` | omnicore-master/src/arith_uint256.h:77-84 | -x modulo 2^256. |
| `ArithUint256.BaseUint.Subtract` | omnicore-master/src/arith_uint256.h:147-151 | Subtraction modulo 2^256. |
| `ArithUint256.BaseUint.MultiplyWord` | omnicore-master/src/arith_uint256.cpp:55-65 | Product with a 32-bit number modulo 2^256; every intermediate fits 64 bits. |
| `ArithUint256.BaseUint.MultiplyRow` | omnicore-master/src/arith_uint256.cpp:72-79 | One row of the long product, exact up to a multiple of 2^256. |
| `ArithUint256.BaseUint.Multiply` | omnicore-master/src/arith_uint256.cpp:67-82 | Product modulo 2^256 of two different objects; a number multiplied in place by itself becomes 0. |
| `ArithUint256.BaseUint.CompareTo` | omnicore-master/src/arith_uint256.cpp:110-119 | The order of the numbers. |
| `ArithUint256.BaseUint.EqualTo` | omnicore-master/src/arith_uint256.cpp:122-134 | Equality with a 64-bit number. |
| `ArithUint256.BaseUint.Bits` | omnicore-master/src/arith_uint256.cpp:172-184 | The position of the highest set bit plus one, 0 for 0. |
| `ArithUint256.BaseUint.ShiftLeft` | omnicore-master/src/arith_uint256.cpp:21-36 | x * 2^shift modulo 2^256, for every shift. |
| `ArithUint256.BaseUint.ShiftRight` | omnicore-master/src/arith_uint256.cpp:38-53 | floor(x / 2^shift), for every shift. |
| `ArithUint256.BaseUint.Divide` | omnicore-master/src/arith_uint256.cpp:84-107 | The floor of the quotient for every non-zero divisor; zero is refused. |
| `ArithUint256.BaseUint.GetLow64` | omnicore-master/src/arith_uint256.h:245-249 | The number modulo 2^64. |
| `ArithUint256.BaseUint.SetCompact` | omnicore-master/src/arith_uint256.cpp:204-222 | The decoded number modulo 2^256; the overflow flag is set iff it needs more than 256 bits, the negative flag iff it is not zero and has the sign bit. |
| `ArithUint256.BaseUint.GetCompact` | omnicore-master/src/arith_uint256.cpp:224-245 | The compact form as defined by byte count and mantissa, with the sign bit if asked for. |
| `CompactTarget.TwoSteps` | omnicore-master/src/arith_uint256.cpp:226-239 | Encoding without room for a sign and then moving over is the same as counting the bytes with room for a sign. |
| `CompactTarget.DecodesCompact` | omnicore-master/src/arith_uint256.cpp:204-245 | Decoding the compact form of x gives x with only its dropped low-order bytes cleared, never negative. |
| `CompactTarget.CompactFits` | omnicore-master/src/arith_uint256.cpp:224-245 | For a 256-bit number it fits 32 bits and never overflows. |
| `CompactTarget.CompactIsStable` | omnicore-master/src/arith_uint256.cpp:204-245 | It re-encodes identically. |
| `CompactTarget.OverflowIsExact` | omnicore-master/src/arith_uint256.cpp:217-220 | The three-part overflow test is true iff the value needs more than 256 bits. |
| `ProofOfWork.TargetBelowMax` | omnicore-master/src/chain.cpp:120-127 | No compact form stands for 2^256 - 1, so adding one to a target never wraps to zero. |
| `ProofOfWork.ProofFormula` | omnicore-master/src/chain.cpp:123-127 | ~t / (t + 1) + 1 is floor(2^256 / (t + 1)). |
| `ProofOfWork.GetBlockProof` | omnicore-master/src/chain.cpp:115-128 | floor(2^256 / (target + 1)) for every valid target, 0 for a negative, overflowing or zero one; the division never fails. |
| `ProofOfWork.CalculateNextWorkRequired` | omnicore-master/src/pow.cpp:52-75 | The new compact target, with every wrap-around of the arithmetic. |
| `ProofOfWork.RetargetIsExact` | omnicore-master/src/pow.cpp:57-72 | Within the limit and with room for the product: the target times the time over the goal for a time between a quarter and four times the goal, a quarter of the goal for a shorter time, four times the target for a longer one, and never more than the limit. |
| `ProofOfWork.RetargetIsMonotone` | omnicore-master/src/pow.cpp:57-72 | A longer period never makes the next target smaller. |
| `ProofOfWork.Interval` | omnicore-master/src/consensus/params.h:63-63 | The blocks that fit into the goal. |
| `ProofOfWork.RetargetIsBounded` | omnicore-master/src/pow.cpp:57-74 | Then it is never eased more than four times nor beyond the limit. |
| `ProofOfWork.GetNextWorkRequired` | omnicore-master/src/pow.cpp:13-50 | Which rule gives the target of the next block, including the walk back over minimum-difficulty blocks; the first block of a period always exists. |
| `ProofOfWork.CheckProofOfWork` | omnicore-master/src/pow.cpp:77-94 | True iff the target is positive, not negative, within the limit, and not below the hash. |
| `BlockTree.InvertIsAnd` | omnicore-master/src/chain.cpp:65-65 | Turning off the lowest set bit by arithmetic is n & (n - 1). |
| `BlockTree.AndIsBitwise` | omnicore-master/src/chain.cpp:65-65 | Where & is the operation that works bit by bit. |
| `BlockTree.AncestorOfAncestor` | omnicore-master/src/chain.cpp:78-102 | Walking back in two legs is walking back. |
| `BlockTree.GetAncestor` | omnicore-master/src/chain.cpp:78-102 | Through skip pointers, the same block as by the plain walk over parents, or none above the block. |
| `BlockTree.CBlockTree.AddBlock` | omnicore-master/src/chain.cpp:109-113 | A block added with `BuildSkip` keeps every skip pointer right. |
| `ActiveChain.PathBelow` | omnicore-master/src/chain.h:424-440 | A block of the chain has its ancestors at their heights in the chain. |
| `ActiveChain.CChain.SetTip` | omnicore-master/src/chain.cpp:13-23 | Although the loop stops early, every height then holds the tip's ancestor. |
| `ActiveChain.CChain.FindFork` | omnicore-master/src/chain.cpp:53-62 | The highest block common to the chain and the given block's branch. |
| `ActiveChain.CChain.StepBack` | omnicore-master/src/chain.cpp:39-45 | Both ways of looking up an ancestor agree. |
| `ActiveChain.CChain.GetLocator` | omnicore-master/src/chain.cpp:25-51 | Ancestors of the start block at the locator heights. |
| `ActiveChain.LocatorHeights` | omnicore-master/src/chain.cpp:26-48 | The heights begin at the start block and end at genesis. |
| `ActiveChain.LocatorHeightsDecrease` | omnicore-master/src/chain.cpp:26-48 | They strictly decrease. |
| `ActiveChain.LocatorSteps` | omnicore-master/src/chain.cpp:26-48 | The ten blocks before the start, then exponentially larger steps back, so their number grows with the logarithm of the height. |
| `RollingBloom.WipeBits` | omnicore-master/src/bloom.cpp:258-267 | The masked wipe clears exactly the cells of one generation. |
| `RollingBloom.PutBits` | omnicore-master/src/bloom.cpp:276-277 | Setting a cell changes no other. |
| `RollingBloom.CRollingBloomFilter.constructor` | omnicore-master/src/bloom.cpp:219-244 | A new filter remembers half its elements, rounded up, per generation. |
| `RollingBloom.CRollingBloomFilter.Reset` | omnicore-master/src/bloom.cpp:307-315 | Forgets everything. |
| `RollingBloom.CRollingBloomFilter.Wipe` | omnicore-master/src/bloom.cpp:258-267 | The loop over the table wipes exactly the cells of the current generation. |
| `RollingBloom.CRollingBloomFilter.SetCell` | omnicore-master/src/bloom.cpp:271-278 | Sets one cell to the current generation and no other. |
| `RollingBloom.CRollingBloomFilter.StartGeneration` | omnicore-master/src/bloom.cpp:253-268 | The number of a generation is reused, what carried it is wiped, and the two generations before survive. |
| `RollingBloom.CRollingBloomFilter.Insert` | omnicore-master/src/bloom.cpp:251-279 | Appends the key to the history that the filter stands for. |
| `RollingBloom.RecentKeysAreSet` | omnicore-master/src/bloom.cpp:251-299 | All cells of each of the last 2 * nEntriesPerGeneration keys are set. |
| `RollingBloom.CRollingBloomFilter.Contains` | omnicore-master/src/bloom.cpp:287-299 | Answers whether all cells of a key are set; true for each of the last 2 * nEntriesPerGeneration keys. |
| `RollingBloom.RemembersEnough` | omnicore-master/src/bloom.h:105-114 | Which are at least the last nElements keys. |
| `Framing.ReceiveConcat` | omnicore-master/src/net.cpp:725-770 | Receiving two chunks is receiving their concatenation. |
| `Framing.ChunkingDoesNotMatter` | omnicore-master/src/net.cpp:725-770 | Any two ways of cutting a stream are both rejected or give the same completed messages and the same part of the pending one. |
| `Framing.ReadHeader` | omnicore-master/src/net.cpp:772-801 | Uses at least one byte; completes the header exactly at 24 bytes or rejects an oversized message. |
| `Framing.ReadData` | omnicore-master/src/net.cpp:803-817 | Uses at least one byte and appends exactly those bytes, however far the buffer was allocated ahead. |
| `Framing.CompleteBuffer` | omnicore-master/src/net.h:241-246 | A complete message's buffer is exactly its data. |
| `Framing.CNode.Open` | omnicore-master/src/net.cpp:729-732 | Opens a message iff none is open. |
| `Framing.CNode.ReceiveMsgBytes` | omnicore-master/src/net.cpp:725-770 | Does with a chunk what the reference does byte by byte, including rejection; `MessageFrames` says what that is for messages that were sent. |
| `Framing.CNode.ReceiveStream` | omnicore-master/src/net.cpp:725-770 | However a stream is cut into chunks, the node ends up with what the whole stream gives byte by byte, or rejects it. |
| `MessageFrames.Sender.BeginMessage` | omnicore-master/src/net.cpp:2583-2589 | A header with the start string, the command padded with zeros or cut off, and room for size and checksum. |
| `MessageFrames.Sender.EndMessage` | omnicore-master/src/net.cpp:2619-2631 | The message as the format says: size and checksum in their places. |
| `MessageFrames.WriteLE32` | omnicore-master/src/net.cpp:2621-2621 | Four bytes, least significant first, and no other byte changes. |
| `MessageFrames.LittleEndianValue` | omnicore-master/src/net.cpp:2621-2621 | Read backwards they are the numeral of the number. |
| `MessageFrames.SizeIsNumeral` | omnicore-master/src/protocol.h:41-48 | The size read from a header is the numeral of the four bytes after start string and command, read backwards. |
| `MessageFrames.FrameIsReceived` | omnicore-master/src/net.cpp:725-817 | A message that is sent is received as one complete message with exactly its header and payload. |
| `MessageFrames.FramesAreReceived` | omnicore-master/src/net.cpp:725-817 | A list of messages is received as exactly those messages. |
| `MessageFrames.OversizedIsRefused` | omnicore-master/src/net.cpp:743-749 | A message beyond the limit is refused at its header, whatever follows. |
| `MessageFrames.Deliver` | omnicore-master/src/net.cpp:725-770 | However the stream of messages is cut, the node has exactly those messages. |
| `MessageFrames.NothingIsLost` | omnicore-master/src/net.cpp:725-817 | Whatever is received, complete or not, the bytes of the messages are the stream. |
| `CompactBlocks.PlacePrefilled` | omnicore-master/src/blockencodings.cpp:60-76 | Accepts exactly the lists whose positions are in range, and places every transaction at its position. |
| `CompactBlocks.OneSlotPerShortID` | omnicore-master/src/blockencodings.cpp:60-76 | Then as many slots are free as there are short IDs. |
| `CompactBlocks.AssignSlots` | omnicore-master/src/blockencodings.cpp:82-104 | Short IDs get the free slots in order, positions modulo 65536; accepted iff no ID comes twice and no bucket is overfull. |
| `CompactBlocks.SkipTaken` | omnicore-master/src/blockencodings.cpp:85-86 | The inner loop finds the next free slot, never leaves the array, and its 16-bit counter does not wrap around, unless 65536 slots are taken. |
| `CompactBlocks.SearchDoesNotEnd` | omnicore-master/src/blockencodings.cpp:83-86 | With 65536 prefilled transactions and a short ID, every value of the counter stands at a taken slot. |
| `CompactBlockScan.ScanPool` | omnicore-master/src/blockencodings.cpp:106-132 | A slot to which one scanned pool transaction leads holds it, one to which several lead is empty, any other is unchanged; the scan stops early only when every ID leads to a slot with one. |
| `CompactBlockScan.HitIsInPool` | omnicore-master/src/blockencodings.cpp:108-116 | What a slot gets is a pool transaction whose short ID leads there. |
| `CompactBlockRebuild.PartiallyDownloadedBlock.InitData` | omnicore-master/src/blockencodings.cpp:50-137 | Invalid iff malformed, failed iff IDs collide or a bucket is overfull; otherwise the exact contents of every slot, for every number of transactions. |
| `CompactBlockRebuild.FillSlots` | omnicore-master/src/blockencodings.cpp:150-161 | Missing transactions go to the empty slots in order; refused iff their number is wrong. |
| `CompactBlockRebuild.PartiallyDownloadedBlock.FillBlock` | omnicore-master/src/blockencodings.cpp:145-180 | Invalid iff the number of missing transactions is wrong; otherwise the filled block, judged by `CheckBlock`. |
| `CompactBlockRebuild.MakeCompact` | omnicore-master/src/blockencodings.cpp:20-30 | The compact block describes the block. |
| `CompactBlockRebuild.SlotsAreRight` | omnicore-master/src/blockencodings.cpp:106-132 | With at most 65536 transactions and without a clash of short IDs, a filled slot holds the block's own transaction. |
| `CompactBlockRebuild.FilledIsTheBlock` | omnicore-master/src/blockencodings.cpp:145-161 | With the missing ones filled in, the result is the block iff every filled slot held the block's own transaction. |
| `CompactBlockSend.HitsAsExpected` | omnicore-master/src/blockencodings.cpp:82-126 | A slot gets its own transaction, the one 65536 places on, or, if the mempool has both, nothing. |
| `CompactBlockSend.RightIffNoneMisplaced` | omnicore-master/src/blockencodings.cpp:82-132 | The slots are right iff every transaction beyond the first 65536 that is in the mempool is cancelled out by the one 65536 places before it. |
| `CompactBlockSend.LargeIsMisplaced` | omnicore-master/src/blockencodings.cpp:82-126 | A larger block with a mempool that holds just its 65537th transaction is a case where one is misplaced. |
| `CompactBlockSend.RightForAllPoolsIffSmall` | omnicore-master/src/blockencodings.cpp:53-87 | No mempool without a clash can misplace a transaction iff the block has at most 65536. |
| `CompactBlockSend.SendAndRebuild` | omnicore-master/src/blockencodings.cpp:20-180 | A block sent compactly and rebuilt from a mempool without a clash of short IDs: refused as invalid iff it has more than 100000 transactions; with at most 65536 the accepted result is the block, with more it is the block iff none is misplaced; then it is accepted iff no ID comes twice, no bucket is overfull and `CheckBlock` passes it. |
| `IndexCoding.IncreasingIs` | omnicore-master/src/blockencodings.h:55-66 | Strictly increasing, in the usual terms. |
| `IndexCoding.RestoresIffIncreasing` | omnicore-master/src/blockencodings.h:55-66 | A written list is restored iff it is strictly increasing. |
| `IndexCoding.RestoredIsIncreasingIff` | omnicore-master/src/blockencodings.h:55-61 | A list that is read and is increasing has 65535 nowhere but at the end, and the other way round; then it is written as it was read. |
| `IndexCoding.ReadIsIncreasingIff` | omnicore-master/src/blockencodings.h:55-61 | From any offset, distances are accepted and give a strictly increasing list iff there are none or they, with one for each further index, reach at most 65535. |
| `IndexCoding.WrappedOffset` | omnicore-master/src/blockencodings.h:55-61 | A list that is read and is not increasing. |
| `IndexCoding.WriteIndexes` | omnicore-master/src/blockencodings.h:62-66 | The loop writes the distances. |
| `IndexCoding.ReadIndexes` | omnicore-master/src/blockencodings.h:42-61 | The loops read and sum them up in place, refusing what exceeds 16 bits. |
| `Base58.EncodeEstimateSuffices` | omnicore-master/src/base58.cpp:77-77 | n bytes fit into n * 138 / 100 + 1 digits, for every n. |
| `Base58.DecodeEstimateSuffices` | omnicore-master/src/base58.cpp:33-33 | n digits fit into n * 733 / 1000 + 1 bytes, for every n. |
| `Base58.DigitOfLetter` | omnicore-master/src/base58.cpp:19-19 | The alphabet has 58 different characters. |
| `Base58.EncodingIsUnique` | omnicore-master/src/base58.cpp:68-100 | A byte string has one Base58 form. |
| `Base58.DecodingIsUnique` | omnicore-master/src/base58.cpp:21-66 | A Base58 string stands for one byte string. |
| `Base58Codec.MultiplyAdd` | omnicore-master/src/base58.cpp:79-88 | The carry loop multiplies the number in the buffer and adds a digit, also when it stops early. |
| `Base58Codec.ToBase58` | omnicore-master/src/base58.cpp:76-90 | The digits of the number; the assertion on the carry holds. |
| `Base58Codec.EncodeBase58` | omnicore-master/src/base58.cpp:68-100 | The Base58 form of any byte string. |
| `Base58Codec.FromBase58` | omnicore-master/src/base58.cpp:33-50 | The bytes of the number; the assertion on the carry holds. |
| `Base58Codec.DecodeBase58` | omnicore-master/src/base58.cpp:21-66 | Accepts iff, blanks at either end aside, all characters are in the alphabet; then the result is what the text stands for. |
| `Base58Codec.DecodeEncoded` | omnicore-master/src/base58.cpp:21-100 | Decoding an encoded byte string gives it back. |
| `Base58Codec.EncodeDecoded` | omnicore-master/src/base58.cpp:21-100 | Encoding a decoded text gives the text without the blanks around it. |
| `Base58Codec.EncodeBase58Check` | omnicore-master/src/base58.cpp:112-119 | The form of the bytes followed by four bytes of their hash. |
| `Base58Codec.DecodeBase58Check` | omnicore-master/src/base58.cpp:121-137 | Accepts exactly such forms, and gives back exactly the bytes. |
| `Base58Codec.DecodeEncodedCheck` | omnicore-master/src/base58.cpp:112-137 | The round trip with a checksum. |

## Left out

- AddrManDisk.Serialize: gives a record of what is written, in the order of the code, not the bytes, because every field has a fixed format of its own.
- AddrManDisk.Unserialize: reads such a record, so that truncated or malformed byte streams are not modelled.
- Check queue: `fQuit`, which is never set, thread interruption, and wrap-around of the 32-bit counters.  Workers never leave.
- Coin caches: `cachedCoinsUsage`, `AccessCoins` and other lookups built on `FetchCoins`, failing database writes, and the database's own batching.
- Coin serialization: over-long variable-length integers that wrap around 64 bits; public keys are two functions with the one law that a valid full key is determined by its compressed form.
- Coins: `ClearUnspendable`, `FromTx` and the size limit on unspendable scripts.
- Address manager: `Select_` and `GetChance` (floating point and random), and `Clear` on an object that is not empty.  Random choices are parameters.  An absent slot of `vvNew` and `vvTried`, which are maps here, stands for -1.
- Address manager on disk: the byte format; an image is a record of what is written.  `Serialize` and `Unserialize` work on the value of the object, not on its fields in place, and the number of buckets is the length of the bucket list.
- Merkle blocks: the `CMerkleBlock` constructors, which only choose the marked transactions, and the bound on flag bits.
- Block assembler: ancestor scores and coin-age priorities decide only what is tried when, so every order is arbitrary here; a fee that is too low ends the selection, and that all later ones would be lower is not stated, because it depends on that order.  The record of a transaction that was refused before may be inexact, so for such a one the fee test is not described.  The coinbase, the witness commitment and the header are not built; the options that set the limits are parameters.
- 256-bit arithmetic: `--`, the bitwise operators on whole numbers, `getdouble`, hexadecimal text, and `GetBlockProofEquivalentTime`.
- `GetNextWorkRequired`: the ancestor at the start of a period is looked up in a list of all blocks rather than through skip pointers, which `BlockTree.GetAncestor` covers; times are unbounded integers.
- Chain: `RaiseValidity` and the other bookkeeping of `CBlockIndex`.
- Bloom filters: the simpler `CBloomFilter`, the floating-point sizing formulas, and false-positive rates; the hash is an arbitrary function.
- Message framing: checking checksums, timestamps of complete messages, the per-command byte counts, and the debugging options that drop or garble messages; the hash is an arbitrary function.
- CompactBlockRebuild.PartiallyDownloadedBlock.InitData: is not called with 65536 or more prefilled transactions and a short ID, because the code does not return there.
- CompactBlockSend.SendAndRebuild: for more than 65536 transactions says when the block is right if its short IDs differ, its coinbase is not repeated and the mempool has each short ID once; otherwise only the slots are known, from `InitData`.
- Compact blocks: short-ID bucket sizes and `CheckBlock` are arbitrary answers.  The byte format of the messages and the reading in blocks of 1000 are left out.
- Base58: the address classes on top of it; a text ends before its first NUL character, which is cut off by the caller; the checksum hash is an arbitrary function.
- Start-up, command line, HTTP, sockets, wallets, key handling, chain parameters and the Omni layer itself.
