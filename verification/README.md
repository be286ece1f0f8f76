# A verified model of the Infinite node's mempool, EIP-712 and fee logic

Infinite is a Cosmos-EVM chain: one node runs EVM and Cosmos transactions side by side. This
project models the parts of it whose correctness is hardest to see from the code:

- **Recheck** (`RecheckScheduler`, `RecheckPass`): the event loop that runs one background recheck at
  a time and coalesces the requests that arrive meanwhile, and the pass that revalidates the pool after a block.
- **Ordering** (`Heap`, `QueueMerge`, `EvmOrdering`, `TxStore`, `CosmosOrdering`, `UnifiedIterator`, `ReapList`):
  the two heaps that merge per-account queues by effective tip, the signer-bucketed store behind one of them, the
  iterator that merges both streams, and the list from which validated txs are reaped.
- **EIP-712** (`Eip712Message`, `Eip712Types`): flattening a payload's messages and inferring type definitions for them.
- **Protobuf** (`Web3Codec`, `Web3Unmarshal`): the codec of the Web3 extension option, which writes backwards and reads forwards.
- **Pool, fees and index** (`TxPoolLoop`, `TxPoolAdd`, `FeeChecker`, `KvIndexer`): the reset loop and the
  scatter/gather of the pool aggregator, the EIP-1559 check for Cosmos txs, and the eth tx index.

`Prelude`, `Strings` and `Json` hold shared datatypes and facts.

## How it is modelled

- **Concurrency.** An event loop is a state machine whose steps are taken in any order that is possible; theorems
  quantify over all such schedules. The imperative loop, with its own variables, is then proved to compute what the
  state machine says for every schedule. Channels are numbers; closing one twice, which panics in Go, sets a flag that is
  proved never to be set. A trigger and its answer are one step, and so is a push to the reap list.
- **Specification and implementation.** Objects that the source updates in place are classes. Their methods are
  proved against functions of the old state, and the theorems are about those functions: a drain of queues (`QueueMerge`)
  for both heaps, a plain FIFO with a set of known hashes for the reap list, filtering for the store.
- **What is outside.** `recheck` (the ante handler on a branch of the state), `removable` (whether the pool grants a
  removal), `cancelled` (each look at a channel), `converts` (whether an EVM tx can be turned into an SDK tx), the title
  caser, the sub-pools and `reduction` (`DefaultPriorityReduction`, which is configurable at start-up) are parameters.
  The Cosmos side of the unified iterator is the sequence of txs it will still yield.
- **Numbers.** Unsigned 64-bit wrap-around is written out (`Wrap64`) where the source can reach it. Decimals are their
  raw integers, scaled by 10^18, with the library's rounding written out. A byte of a varint sets bits that are still
  clear, so its bitwise `or` is an addition (`DigitsDoNotOverlap`).
- **JSON** is a tree with unique plain keys, and a signer's account is the upper-case hexadecimal form of its address, as the
  key library prints it.

## Where the code does not do what it promises

- `Reap` is documented to stay within both limits. Its sums wrap, so a tx with a huge gas value slips through
  (`HugeGasSlipsThrough`); `ReapIsLongestIff` gives the exact condition.
- A store bucket is meant to be ordered by nonce. The sum of nonces wraps, which can put the higher nonces first
  (`WrappedSumReversesOrder`); `LowerNoncesComeFirst` gives the exact condition.
- `getTxPriority` is documented to use the smallest coin's gas price. A coin of priority zero is forgotten when another
  one follows (`ZeroIsForgotten`, `PriorityIsSmallestIff`).
- `TxPool.Sync` promises to wait for a reset. A second call before the first one has been answered overwrites the
  first waiter, which is then never answered (`SecondSyncHangsTheFirst`, `AnsweredUnlessOverwritten`).
- After a recheck fails, the next tx is rechecked on the branch the failure left behind. What is kept then need not
  be valid by itself (`DirtyBranchBreaksReplay`); `KeptReplayIff` gives the exact condition on the ante handler.
- A message whose array mixes types gets the type of the first element and does not conform to it
  (`MixedArrayDoesNotConform`). Null, and lists of nulls or of lists, get no type, so a message that holds them does not
  conform either (`NullFieldDoesNotConform`). `ConformsIff` gives the exact condition.
- A tx hash that occurs twice on the chain is found only where it was indexed last (`RepeatedHashHidesFirst`, `LookupIsExactIff`).
- A payload with `msgs: null` flattens as one with no messages, and is restored with an empty array
  (`NullIsNotRestored`, `FlatteningIsReversible`).
- When an EVM tx cannot be converted and no Cosmos tx is left, the unified iterator ends although other accounts
  may have txs (`FailedConversionEndsEarly`); `EverythingComesOutIff` gives the exact condition.

## Model

| member | source | states |
|---|---|---|
| RecheckScheduler.SafetyOfEveryRun | mempool/recheck_pool.go:311-358 | in every interleaving of triggers, run completions and shutdown: one recheck in flight at most, no channel closed twice, every handed-out channel is closed, the current run's or the next run's, and all are closed when the loop has gone |
| RecheckScheduler.CoalescingIsExact | mempool/recheck_pool.go:323-356 | a pending launch has the latest request; a trigger's channel closes only after a run for its own or a later request has ended, or by the loop on shutdown; a run is cancelled exactly if something newer waits or the loop drains |
| RecheckScheduler.LaunchServesAllWaiting | mempool/recheck_pool.go:323-331 | the run that is launched is for the newest request and owns every open channel handed out |
| RecheckScheduler.RequestsAreTriggers | mempool/recheck_pool.go:333-341 | the requests the loop holds are the triggers it received, in order, each with its own head |
| RecheckScheduler.LaunchUsesLastHead | mempool/recheck_pool.go:323-331 | a run that is launched carries the head of the last trigger before it |
| RecheckScheduler.EveryTriggerIsAnswered | mempool/recheck_pool.go:262-271 | every step that needs no new caller leaves less work, and a state without such a step has all handed-out channels closed |
| RecheckScheduler.LateTriggerIsAnswered | mempool/recheck_pool.go:262-271 | a trigger after the loop has gone gets a new channel that is closed already |
| RecheckScheduler.StepKeepsInv | mempool/recheck_pool.go:333-356 | each step keeps the invariant on channels, runs, cancellation and pending requests |
| RecheckScheduler.RunKeepsInv | mempool/recheck_pool.go:311-358 | so does every run |
| RecheckScheduler.ScheduleRecheckLoop | mempool/recheck_pool.go:311-358 | the loop over its own variables ends where the state machine does, for every schedule; no close and no nil request can panic |
| RecheckPass.RemovedExactlyByChains | mempool/recheck_pool.go:406-444 | removed are exactly the txs at the end of a chain of higher sequences that starts at a tx failing its own recheck, across multi-signer txs |
| RecheckPass.OnlyHigherSequencesFall | mempool/recheck_pool.go:419-436 | a tx that needs no signer of a removed tx at a strictly higher sequence is decided by its own recheck |
| RecheckPass.HigherSequenceFalls | mempool/recheck_pool.go:419-425 | one removed earlier tx with a common signer at a strictly lower sequence removes it |
| RecheckPass.EveryTxHasOneFate | mempool/recheck_pool.go:406-444 | a tx with readable signers is either kept or removed, any other neither |
| RecheckPass.PassGrows | mempool/recheck_pool.go:399-445 | no decision is revised later in the pass |
| RecheckPass.KeptReplayIff | mempool/recheck_pool.go:391-444 | the kept txs succeed one after another from the new block's state, for every state and pool, if and only if failures are harmless: what passes after unrelated failures passes to the same effect without them |
| RecheckPass.HarmlessReplays | mempool/recheck_pool.go:391-444 | the pass keeps a replayable list while the branch carries only unrelated failures since the last success |
| RecheckPass.ReplayShowsNoHarm | mempool/recheck_pool.go:428-436 | a pool in which the kept txs replay shows that its failures did no harm |
| RecheckPass.CleanFailuresAreHarmless | mempool/recheck_pool.go:428-436 | failures that leave the branch unchanged are harmless |
| RecheckPass.DirtyBranchBreaksReplay | mempool/recheck_pool.go:428-436 | two txs and an ante handler for which the kept tx does not succeed by itself |
| RecheckPass.MapFindsShadow | mempool/recheck_pool.go:419-425 | looking up the lowest failed sequence per account finds the same as searching all removed txs |
| RecheckPass.AnyHit | mempool/recheck_pool.go:419-425 | true exactly if some signer has failed at a lower sequence |
| RecheckPass.NoteFailure | mempool/recheck_pool.go:437-442 | the map holds the lowest removed sequence of each account |
| RecheckPass.CheckTx | mempool/recheck_pool.go:405-445 | one turn of the scan is one step of the pass |
| RecheckPass.ScanPool | mempool/recheck_pool.go:398-445 | the scan computes the pass up to the first look that finds it cancelled |
| RecheckPass.RecheckMempool.constructor | mempool/recheck_pool.go:119-141 | a pool with nothing marked as rechecked |
| RecheckPass.RecheckMempool.RunRecheck | mempool/recheck_pool.go:363-465 | a completed run drops exactly the removed txs the pool lets go and marks exactly the kept ones; a run that is cancelled or has no context drops nothing |
| RecheckPass.RecheckMempool.RemoveAll | mempool/recheck_pool.go:452-463 | exactly the listed txs whose removal is granted leave the pool |
| Eip712Types.CreatedIsSound | ethereum/eip712/types.go:39-91 | for every payload: `Tx` names for each message a defined type that accepts exactly the values that look like the message and hold nothing that gets no type, and the fixed entries other than `Tx` are unchanged |
| Eip712Types.CreatedIsClosed | ethereum/eip712/types.go:39-91 | every type mentioned is primitive or defined, as section "Definition of encodeType" of EIP-712 needs |
| Eip712Types.MessageTypeName | ethereum/eip712/types.go:119-132 | a message of type "area/Name" or "Name" gets the type "TypeName" with a number behind it |
| Eip712Types.CreatedNames | ethereum/eip712/types.go:95-115 | each message gets a numbered type of the name its own type field gives |
| Eip712Types.NestedTypeName | ethereum/eip712/types.go:204-217 | an object under plain field names gets the type "Type", the names in title case, and a number; a list of objects the array of it |
| Eip712Types.SanitizedPath | ethereum/eip712/types.go:342-360 | the sanitized prefix of a nested field is "Type" and the field names in title case |
| Eip712Types.SnakeCasePart | ethereum/eip712/types.go:349-356 | a snake-case name loses its underscores, each piece being title-cased |
| Eip712Types.ConformsIff | ethereum/eip712/types.go:147-224 | a message conforms to its own type, keys and fields matching one to one at every depth, if and only if the elements of its arrays look like the first one and nothing in it is null or a list of nulls or of lists |
| Eip712Types.HomogeneousConformsIff | ethereum/eip712/types.go:147-224 | a message whose arrays are homogeneous conforms to its type if and only if everything in it gets a type |
| Eip712Types.SignDocConformsIff | ethereum/eip712/types.go:39-91 | a flattened sign document is a value of the created `Tx` type, fee and coins included, if and only if each of its messages conforms |
| Eip712Types.DomainConforms | ethereum/eip712/types.go:41-62 | a domain with a number for the chain and texts for the rest is a value of the created domain type |
| Eip712Types.NullFieldDoesNotConform | ethereum/eip712/types.go:163-221 | a message with a null field gets a type without that field and does not conform to it |
| Eip712Types.MixedArrayDoesNotConform | ethereum/eip712/types.go:163-221 | an array of a number and a string is typed as numbers, to which it does not conform |
| Eip712Types.SameShapeIsLike | ethereum/eip712/types.go:163-221 | values of one shape with homogeneous arrays look alike |
| Eip712Types.GrowthKeepsMeaning | ethereum/eip712/types.go:282-312 | in a closed map, what a known type accepts does not change when definitions are added |
| Eip712Types.StructIsExact | ethereum/eip712/types.go:147-224 | a struct whose fields fit an object accepts exactly the fully typable objects like it |
| Eip712Types.StructAccepts | ethereum/eip712/types.go:147-224 | what such a struct accepts looks like the object and is fully typable |
| Eip712Types.StructTakes | ethereum/eip712/types.go:147-224 | every fully typable object like it is accepted |
| Eip712Types.AddKeepsEntries | ethereum/eip712/types.go:282-312 | adding a definition changes no entry, and the key returned holds exactly the fields |
| Eip712Types.AddPicksFirst | ethereum/eip712/types.go:282-312 | the least index whose name is free or already holds the same fields is used, an equal definition is reused, and there is an error exactly if none of the thousand is usable |
| Eip712Types.AddedIsSound | ethereum/eip712/types.go:282-312 | the key is a struct name, the map stays closed, the definition is exact |
| Eip712Types.ObjectIsSound | ethereum/eip712/types.go:147-224 | inferring an object grows the map, keeps it closed and returns an exact type |
| Eip712Types.FieldsAreSound | ethereum/eip712/types.go:163-221 | so does each field in turn; the collected fields are the typable keys seen, in order |
| Eip712Types.FieldIsSound | ethereum/eip712/types.go:163-221 | a field gets a type exactly if it is typable, and an exact one |
| Eip712Types.TypeDefBegins | ethereum/eip712/types.go:253-258 | every definition below a message has a name that begins with "Type" |
| Eip712Types.StructNamesAreDistinct | ethereum/eip712/types.go:316-318 | a struct name is no array type, no primitive and not `Tx` |
| Eip712Types.SanitizeTypedef | ethereum/eip712/types.go:342-360 | the buffer holds the title-cased parts in order, with "Type" for a lone underscore |
| Eip712Types.SanitizedOfPlain | ethereum/eip712/types.go:342-360 | a name without separators is just title-cased |
| Eip712Types.IdempotentCaserIsStable | ethereum/eip712/types.go:212-212 | sanitizing a sanitized, numbered name changes nothing if the caser is idempotent and adds no separators |
| Eip712Types.WriteTitles | ethereum/eip712/types.go:353-356 | appends the title-cased pieces to the buffer |
| Eip712Types.SortedJsonKeys | ethereum/eip712/types.go:228-248 | the keys in descending order, whatever order the map gives them in |
| Eip712Types.TypeMap.constructor | ethereum/eip712/types.go:40-79 | the map starts with the fixed definitions |
| Eip712Types.TypeMap.AddTypesToRoot | ethereum/eip712/types.go:282-312 | the first free or equal duplicate index; after 1000 an error and an unchanged map |
| Eip712Types.TypeMap.RecursivelyAddTypesToRoot | ethereum/eip712/types.go:147-224 | the map and the key, or the error, that inference of the object gives; no entry is ever changed |
| Eip712Types.TypeMap.AddField | ethereum/eip712/types.go:163-221 | the map and the type, or the error, that inference of the field gives; no entry is ever changed |
| Eip712Types.CreateEip712Types | ethereum/eip712/types.go:39-115 | the types or the error of the specification, so the result depends on no map order |
| Eip712Types.CreatedFails | ethereum/eip712/types.go:81-88 | the first message that fails decides the error |
| Eip712Types.FailureSays | ethereum/eip712/types.go:95-115 | a message that is no object, and one without a type text, fail each with its own error, and nothing else does |
| Eip712Message.FlattenPayloadMessages | ethereum/eip712/message.go:70-152 | succeeds exactly if the messages are objects and no key clashes; gives the flattened payload and the count, otherwise the first offence |
| Eip712Message.FlattenExample | ethereum/eip712/message.go:70-92 | two messages and a memo become msg0, msg1 and the memo |
| Eip712Message.FlatteningIsReversible | ethereum/eip712/message.go:70-152 | rebuilding the messages from the count restores the payload, all other fields untouched, if and only if they were an array |
| Eip712Message.NullIsNotRestored | ethereum/eip712/message.go:95-112 | a payload with null messages comes back with an empty array |
| Eip712Message.ClashIsReported | ethereum/eip712/message.go:118-123 | there is exactly one first offence; a clash always makes the payload unflattenable, and it is the error reported if all messages before it are fine |
| Eip712Message.FieldIsFree | ethereum/eip712/message.go:118-123 | the messages already written never cause a clash |
| Eip712Message.WithMessagesLookup | ethereum/eip712/message.go:115-136 | each message is found under its own field and every other field is as before |
| Eip712Message.MsgFieldIsInjective | ethereum/eip712/message.go:139-141 | distinct messages get distinct fields |
| Web3Codec.EncodeVarint | ethereum/eip712/web3.pb.go:145-155 | writes the varint ending at the offset and nothing behind it |
| Web3Codec.VarintRoundTrip | ethereum/eip712/web3.pb.go:188-201 | a varint written anywhere reads back, to its exact end (section "Base 128 Varints" of the Protocol Buffers encoding guide) |
| Web3Codec.DecodeEncoded | ethereum/eip712/web3.pb.go:188-201 | the same from any shift and partial sum that fit 64 bits |
| Web3Codec.DigitsDoNotOverlap | ethereum/eip712/web3.pb.go:188-201 | the seven bits of each byte lie above everything read before, so or-ing them in is adding them: no carry, no wrap |
| Web3Codec.DecodeKeepsLowBits | ethereum/eip712/web3.pb.go:188-201 | the bits read first are never changed by what follows |
| Web3Codec.SovIsLength | ethereum/eip712/web3.pb.go:176-178 | the bit-length formula is the number of bytes of the varint |
| Web3Codec.SizeIsLength | ethereum/eip712/web3.pb.go:156-174 | `Size` is the number of bytes of the encoding |
| Web3Codec.CopyInto | ethereum/eip712/web3.pb.go:123-136 | the body is copied in place and what follows it stays |
| Web3Codec.WriteTagged | ethereum/eip712/web3.pb.go:137-141 | tag and varint, written backwards |
| Web3Codec.WriteLengthField | ethereum/eip712/web3.pb.go:123-136 | a length-delimited field written backwards, nothing if empty |
| Web3Codec.MarshalToSizedBuffer | ethereum/eip712/web3.pb.go:118-143 | the end of the buffer is the encoding and exactly `Size` bytes are used |
| Web3Codec.Marshal | ethereum/eip712/web3.pb.go:103-111 | the buffer is filled from offset 0: the result is the encoding |
| Web3Unmarshal.RoundTrip | ethereum/eip712/web3.pb.go:182-316 | for every message, parsing its encoding gives the message |
| Web3Unmarshal.EncodeIsInjective | ethereum/eip712/web3.pb.go:103-143 | different messages have different encodings |
| Web3Unmarshal.WireExample | ethereum/eip712/web3.pb.go:118-143 | the bytes of one message |
| Web3Unmarshal.UnknownFieldIgnored | ethereum/eip712/web3.pb.go:296-308 | appending a well-formed field with an unknown number to any readable bytes does not change what is read |
| Web3Unmarshal.UnknownFieldParses | ethereum/eip712/web3.pb.go:317-394 | such a field alone is skipped exactly |
| Web3Unmarshal.UnknownGroupIgnored | ethereum/eip712/web3.pb.go:317-394 | appending a whole group with an unknown number, nested groups included, does not change what is read |
| Web3Unmarshal.TokensAreSkipped | ethereum/eip712/web3.pb.go:317-394 | skipping goes from field to field and ends exactly where the open groups close |
| Web3Unmarshal.BadTagIsRefused | ethereum/eip712/web3.pb.go:202-214 | an end-group marker, number zero and a known field of another wire type are refused, each with its own error |
| Web3Unmarshal.TruncatedBodyIsRefused | ethereum/eip712/web3.pb.go:234-259 | a body that announces more bytes than there are is refused |
| Web3Unmarshal.EndlessVarintIsRefused | ethereum/eip712/web3.pb.go:188-201 | ten bytes that all go on are an overflow |
| Web3Unmarshal.ConcatMerges | ethereum/eip712/web3.pb.go:182-316 | reading two concatenated encodings is reading the second into the result of the first |
| Web3Unmarshal.ReadVarint | ethereum/eip712/web3.pb.go:188-201 | the shift loop, for every byte string: value and end, or overflow or unexpected end |
| Web3Unmarshal.SkipField | ethereum/eip712/web3.pb.go:317-394 | the skip loop with its depth counter, for every byte string |
| Web3Unmarshal.ReadBody | ethereum/eip712/web3.pb.go:234-259 | the bounds of a length-delimited body, with every overflow check |
| Web3Unmarshal.Unmarshal | ethereum/eip712/web3.pb.go:182-316 | terminates on every byte string, reads only inside it and gives what the specification parses |
| Web3Unmarshal.FieldMoves | ethereum/eip712/web3.pb.go:186-310 | a field ends behind its start and inside the buffer |
| Web3Unmarshal.SkipMoves | ethereum/eip712/web3.pb.go:317-394 | skipping moves forward without overflow |
| Web3Unmarshal.BodyInside | ethereum/eip712/web3.pb.go:234-259 | an accepted body lies inside the buffer |
| Heap.RootIsFirst | mempool/miner/ordering.go:62-85 | nothing in a heap is less than its root |
| Heap.FirstChild | mempool/miner/ordering.go:62-85 | the child that comes first, if there is one |
| Heap.Down | mempool/miner/ordering.go:119-119 | in place: sifting down restores the order below, keeps the elements and tells whether anything moved |
| Heap.Up | mempool/miner/ordering.go:144-144 | in place: sifting up restores the heap and keeps the elements |
| Heap.Init | mempool/miner/ordering.go:119-119 | in place: the array becomes a heap of the same elements |
| Heap.Fix | mempool/miner/ordering.go:144-144 | in place: a heap again after one element changed |
| Heap.ReplacedIsFixable | mempool/miner/ordering.go:143-144 | replacing any element of a heap leaves something `Fix` repairs |
| Heap.Pop | mempool/miner/ordering.go:148-148 | in place: the root goes to the end, behind a heap of the rest |
| QueueMerge.DrainEmitsPrefixes | mempool/miner/ordering.go:139-149 | a drain emits for each account its payable prefix in order |
| QueueMerge.EmittedIsPrefix | mempool/miner/ordering.go:139-149 | at every moment, emitted and still to come make up that prefix |
| QueueMerge.PayablePrefixIsLongest | mempool/miner/ordering.go:139-149 | that prefix is the longest one of payable txs |
| QueueMerge.DrainIsGreedy | mempool/miner/ordering.go:139-149 | each emitted tx is the best of all current heads |
| QueueMerge.DrainIsUnique | mempool/cosmos_ordering.go:101-123 | if heads of different accounts never tie, there is only one drain |
| QueueMerge.RootIsBest | mempool/miner/ordering.go:131-136 | the root of the heads is the best current head |
| QueueMerge.ReplaceAdvances | mempool/miner/ordering.go:141-146 | a head replaced by the next tx of its account is one step of the drain |
| QueueMerge.DropRemoves | mempool/miner/ordering.go:148-156 | dropping a head drops its account |
| QueueMerge.AddStarts | mempool/miner/ordering.go:110-118 | a new head starts its account |
| QueueMerge.ReplaceRoot | mempool/miner/ordering.go:143-144 | assignment and `Fix` are that step on the heap |
| QueueMerge.DropRoot | mempool/miner/ordering.go:148-148 | popping the root is that drop on the heap |
| QueueMerge.EmptyTogether | mempool/miner/ordering.go:160-162 | there are no heads exactly if nothing is left |
| EvmOrdering.DrainIsPayablePrefixes | mempool/miner/ordering.go:102-149 | per account and in nonce order, exactly the longest prefix whose fee cap covers the base fee |
| EvmOrdering.DrainMaximizesTip | mempool/miner/ordering.go:63-71 | each emitted tx has the largest effective tip of all current heads, the earlier one on a tie |
| EvmOrdering.MinerFeeIsEffectiveTip | mempool/miner/ordering.go:40-56 | the fee is min(tip cap, fee cap - base fee), and an error exactly if the fee cap is below the base fee (Specification section of EIP-1559) |
| EvmOrdering.TipsAtLeastIff | mempool/miner/ordering.go:40-56 | a covered tx tips at least t if and only if its tip cap allows t and its fee cap pays t on top of the base fee; without a base fee it tips its tip cap |
| EvmOrdering.PriceLessIsOrder | mempool/miner/ordering.go:63-71 | the comparator is a strict weak order |
| EvmOrdering.CollectHeads | mempool/miner/ordering.go:108-118 | heads and remaining lists represent the accounts whose first tx is payable |
| EvmOrdering.TransactionsByPriceAndNonce.constructor | mempool/miner/ordering.go:102-128 | a valid heap of the accounts whose first tx is payable |
| EvmOrdering.TransactionsByPriceAndNonce.Peek | mempool/miner/ordering.go:131-136 | the best head and its effective tip, nothing exactly if no tx is left |
| EvmOrdering.TransactionsByPriceAndNonce.Shift | mempool/miner/ordering.go:139-149 | the best account advances by one tx |
| EvmOrdering.TransactionsByPriceAndNonce.Pop | mempool/miner/ordering.go:154-156 | the best account is dropped |
| EvmOrdering.TransactionsByPriceAndNonce.Empty | mempool/miner/ordering.go:160-162 | true exactly if no tx is left |
| EvmOrdering.TransactionsByPriceAndNonce.Drain | mempool/miner/ordering.go:131-149 | peeking and shifting to the end is a drain |
| TxStore.SignerSetKeyIsInjective | mempool/tx_store.go:144-154 | a bucket key determines the set of signers |
| TxStore.TxKeyIsInjective | mempool/tx_store.go:156-166 | a tx key determines signers and nonces |
| TxStore.NoncesAreGood | mempool/recheck_pool.go:504-509 | every tx has what the keys rely on: accounts are upper-case hexadecimal addresses, so never empty, never with a separator, never the reserved word |
| TxStore.NonceIsLast | mempool/tx_store.go:178-194 | an account that signs more than once counts with its last nonce |
| TxStore.PrecedesIsOrder | mempool/tx_store.go:238-246 | the comparison is a strict order, total on different keys |
| TxStore.LowerNoncesComeFirst | mempool/tx_store.go:168-174 | a tx with componentwise lower nonces comes first if and only if the wrapped sums are in order, so always if the sum fits 64 bits |
| TxStore.LowerNoncesLowerKey | mempool/tx_store.go:156-166 | componentwise lower nonces give a lower tx key |
| TxStore.WrappedSumReversesOrder | mempool/tx_store.go:168-174 | two txs whose order the wrap reverses |
| TxStore.SortAppended | mempool/tx_store.go:71-72 | sorting after appending inserts the tx at its place and leaves the others in order |
| TxStore.NewMetadata | mempool/tx_store.go:127-140 | the metadata of a tx |
| TxStore.ContainsKey | mempool/tx_store.go:248-255 | true exactly if a tx has the key |
| TxStore.FilterBucket | mempool/tx_store.go:106-115 | in place: the survivors move to the front of the array they are read from, in order, the rest is cleared, and the number dropped is counted |
| TxStore.SurvivorsAreKept | mempool/tx_store.go:207-219 | exactly the txs all of whose nonces with a threshold lie below it survive |
| TxStore.LowerStay | mempool/tx_store.go:100-124 | after filtering, a bucket holds exactly the txs all of whose common nonces lie below, in the order they had, and is gone exactly if there is none |
| TxStore.SurvivorsInOrder | mempool/tx_store.go:106-113 | the survivors come from ascending positions, and none is missed |
| TxStore.SurvivorsStayGood | mempool/tx_store.go:106-121 | the survivors of a good bucket are a good bucket |
| TxStore.NoSignerNoChange | mempool/tx_store.go:229-236 | the bucket skip is sound: filtering a bucket without any of the signers changes nothing |
| TxStore.SameBucketSameSigners | mempool/tx_store.go:51-60 | txs of one bucket have one set of signers |
| TxStore.StoredIffSameNonces | mempool/tx_store.go:79-98 | a tx counts as stored if and only if some stored tx has the same signers and nonces |
| TxStore.UnkeyedIsNew | mempool/tx_store.go:257-261 | a tx without signers never counts as stored already |
| TxStore.StoredIsInvalid | mempool/tx_store.go:79-125 | if a tx with these nonces is stored, something is invalidated |
| TxStore.InvalidOneMore | mempool/tx_store.go:100-124 | the count of dropped txs adds up bucket by bucket |
| TxStore.FilteredHasNothing | mempool/tx_store.go:207-219 | after filtering nothing at or above the nonces is left for these signers |
| TxStore.CosmosTxStore.constructor | mempool/tx_store.go:39-44 | an empty valid store |
| TxStore.CosmosTxStore.AddTx | mempool/tx_store.go:47-74 | stores the tx in order in its bucket unless it is there, and changes nothing else; buckets stay non-empty, of one signer set, duplicate-free and sorted |
| TxStore.CosmosTxStore.Insert | mempool/tx_store.go:59-73 | the same for given metadata |
| TxStore.CosmosTxStore.InvalidateFrom | mempool/tx_store.go:79-125 | if a tx with these nonces is stored, equals filtering the whole store and returns the number of txs dropped; otherwise changes nothing |
| TxStore.CosmosTxStore.FilterAll | mempool/tx_store.go:100-124 | the loop over buckets, in any order, filters the whole store |
| TxStore.CosmosTxStore.FilterOne | mempool/tx_store.go:101-121 | one bucket is filtered, or deleted when empty, and no other changes |
| TxStore.CosmosTxStore.MarkTxInserted | mempool/recheck_pool.go:475-482 | after a live insert the tx is stored, or nothing at or above its nonces remains for its signers |
| CosmosOrdering.DrainKeepsBuckets | mempool/cosmos_ordering.go:101-123 | every bucket comes out whole and in order: a permutation of the snapshot |
| CosmosOrdering.DrainMaximizesTip | mempool/cosmos_ordering.go:101-123 | each emitted tx has the largest effective tip of all bucket heads, ties going to the lower signer key |
| CosmosOrdering.DrainIsDeterministic | mempool/cosmos_ordering.go:61-123 | the emitted sequence is the same whatever order the bucket map is walked in |
| CosmosOrdering.CosmosLessIsOrder | mempool/cosmos_ordering.go:25-35 | the comparator is a strict weak order and never ties heads of different buckets |
| CosmosOrdering.PrecedesIsWeakOrder | mempool/tx_store.go:238-246 | the order inside a bucket is a strict weak order |
| CosmosOrdering.TipsAtLeastIff | mempool/cosmos_ordering.go:141-174 | a tx tips at least t > 0 exactly if its bond-denom fee pays base fee and t for all its gas and the price fits 256 bits |
| CosmosOrdering.BondFeeIsLast | mempool/cosmos_ordering.go:147-153 | the last coin of the bond denom counts |
| CosmosOrdering.ExtractEffectiveTip | mempool/cosmos_ordering.go:141-174 | the loop and the branches compute that tip |
| CosmosOrdering.CollectHeads | mempool/cosmos_ordering.go:66-79 | heads and remaining lists represent the non-empty buckets |
| CosmosOrdering.CosmosTransactionsByPriceAndNonce.constructor | mempool/cosmos_ordering.go:61-92 | a valid heap of all non-empty buckets |
| CosmosOrdering.CosmosTransactionsByPriceAndNonce.Tx | mempool/cosmos_ordering.go:94-99 | the best head, nil exactly at the end |
| CosmosOrdering.CosmosTransactionsByPriceAndNonce.Next | mempool/cosmos_ordering.go:101-123 | the best bucket advances; goes on exactly if something is left |
| CosmosOrdering.CosmosTransactionsByPriceAndNonce.UseHead | mempool/cosmos_ordering.go:106-117 | the best head gives way to the next tx of its bucket |
| CosmosOrdering.Drain | mempool/cosmos_ordering.go:61-123 | building and running the iterator is a drain |
| UnifiedIterator.EverythingComesOutIff | mempool/iterator.go:119-166 | a finished run has emitted every Cosmos tx in order; it has emitted a full drain of the EVM heap if and only if every EVM tx such a drain emits converts |
| UnifiedIterator.FailedConversionEndsEarly | mempool/iterator.go:199-207 | two accounts and no Cosmos tx: the better tx does not convert, and the iterator ends with the other one left |
| UnifiedIterator.EvmIsPrefix | mempool/iterator.go:186-204 | even with failing conversions, each account's EVM txs are a prefix of its payable list that ends right before the failed one |
| UnifiedIterator.EachStepPaysMost | mempool/iterator.go:176-233 | an emitted tx pays at least what the other stream's head would, with ties going to EVM, and the most of its own stream |
| UnifiedIterator.CosmosIsComplete | mempool/iterator.go:154-166 | the Cosmos txs come out once each and in order |
| UnifiedIterator.EvmIsComplete | mempool/iterator.go:136-150 | while every payable EVM tx converts, the EVM txs of a run are a partial drain |
| UnifiedIterator.EVMMempoolIterator.constructor | mempool/iterator.go:77-114 | the iterator starts with the preferred tx resolved |
| UnifiedIterator.EVMMempoolIterator.PeekEvm | mempool/iterator.go:237-242 | the best EVM head with its fee, nothing exactly if none is left |
| UnifiedIterator.EVMMempoolIterator.ResolveCurrentTx | mempool/iterator.go:176-208 | current tx and both next actions agree with the step that is to be taken |
| UnifiedIterator.EVMMempoolIterator.HandleNextEvmAction | mempool/iterator.go:136-150 | advance, skip the account, or nothing |
| UnifiedIterator.EVMMempoolIterator.HandleNextCosmosAction | mempool/iterator.go:154-166 | advance or nothing |
| UnifiedIterator.EVMMempoolIterator.Next | mempool/iterator.go:119-133 | both streams move by the step that was chosen |
| UnifiedIterator.Collect | mempool/iterator.go:119-166 | iterating to the end is a run of the merge |
| ReapList.DroppedInBetween | mempool/reap_list.go:54-215 | over any run of push, reap and drop from the empty list, a hash that is returned twice has been dropped in between |
| ReapList.PushedComesOut | mempool/reap_list.go:54-215 | a pushed tx comes out with an unlimited reap, unless it came out or was dropped before |
| ReapList.WaitingIsNotLost | mempool/reap_list.go:54-215 | a waiting tx still waits, or has come out, after any operations that do not drop it |
| ReapList.PushedWaits | mempool/reap_list.go:122-215 | a push appends at the back exactly if the hash is unknown, and a dropped hash is unknown again |
| ReapList.UnlimitedTakesAll | mempool/reap_list.go:65-95 | without limits everything is taken |
| ReapList.NeverTwiceWithoutDrop | mempool/reap_list.go:54-215 | a hash that was handed out is not returned again without a drop |
| ReapList.ReturnedIsHandedOut | mempool/reap_list.go:85-95 | what is returned counts as handed out |
| ReapList.StepKeepsInv | mempool/reap_list.go:54-215 | the FIFO stays duplicate-free and inside the set of known hashes |
| ReapList.ReapIsLongestIff | mempool/reap_list.go:65-95 | the longest oldest-first prefix within both limits is returned if and only if the wrapped sums stop at it |
| ReapList.LongestExists | mempool/reap_list.go:65-95 | there is exactly one longest prefix within the limits |
| ReapList.ReapIsLongest | mempool/reap_list.go:65-95 | so always if the sums fit 64 bits |
| ReapList.HugeGasSlipsThrough | mempool/reap_list.go:77-77 | two txs beyond the gas limit that are both returned |
| ReapList.Scan | mempool/reap_list.go:65-95 | result, next start and marked index of the scan; a missing index entry is impossible |
| ReapList.Compact | mempool/reap_list.go:105-107 | the live txs in order |
| ReapList.LiveIsPositioned | mempool/reap_list.go:97-116 | each live tx is indexed at its slot |
| ReapList.RebuiltAgrees | mempool/reap_list.go:97-116 | after compaction and reindexing, list and index agree |
| ReapList.ReapList.constructor | mempool/reap_list.go:44-49 | an empty list |
| ReapList.ReapList.Push | mempool/reap_list.go:163-178 | appends unless the hash is known |
| ReapList.ReapList.PushEvmTx | mempool/reap_list.go:122-135 | an unencodable tx is an error and changes nothing, unless its hash is known |
| ReapList.ReapList.PushCosmosTx | mempool/reap_list.go:138-158 | an unencodable tx is an error; a tx without gas is one unless its hash is known; otherwise it is pushed |
| ReapList.ReapList.Drop | mempool/reap_list.go:200-215 | forgets the hash and leaves a hole if the tx still waits; in FIFO terms removes the tx |
| ReapList.ReapList.DropCosmosTx | mempool/reap_list.go:190-196 | drops by the hash of the encoding; an unencodable tx changes nothing |
| ReapList.ReapList.Reap | mempool/reap_list.go:54-119 | returns and removes what the FIFO gives, oldest first |
| ReapList.ReapList.CompactFrom | mempool/reap_list.go:97-116 | the rest without holes, index rebuilt |
| ReapList.ReapList.Reindex | mempool/reap_list.go:111-116 | each remaining hash points to its new position |
| TxPoolLoop.LoopIsSafe | mempool/txpool/txpool.go:150-268 | in every run at most one reset is outstanding, and a waiting loop has one running or is caught up with none forced |
| TxPoolLoop.ResetsFollowHeads | mempool/txpool/txpool.go:162-241 | the newest head is the last one announced, the resets lead from head to head beginning with the initial one, and a new reset goes from where the last one ended to the last head announced |
| TxPoolLoop.SuccessIsJustified | mempool/txpool/txpool.go:150-268 | a waiter is told success only after a reset that started after its request has finished |
| TxPoolLoop.AnsweredUnlessOverwritten | mempool/txpool/txpool.go:233-268 | when the loop has stopped, a waiter was answered if and only if no later one overwrote it |
| TxPoolLoop.SecondSyncHangsTheFirst | mempool/txpool/txpool.go:513-521 | a sync while one waits leaves the first without an answer in every continuation |
| TxPoolLoop.SyncTwice | mempool/txpool/txpool.go:513-521 | two syncs in a row do that |
| TxPoolLoop.OverwrittenForGood | mempool/txpool/txpool.go:233-268 | an overwritten waiter stays so |
| TxPoolLoop.LoopCatchesUp | mempool/txpool/txpool.go:150-268 | steps without new events leave less work, and where none is possible the loop is caught up and nobody waits |
| TxPoolLoop.StepKeepsInv | mempool/txpool/txpool.go:176-268 | each step keeps the invariant on heads, resets and waiters |
| TxPoolLoop.RunKeepsInv | mempool/txpool/txpool.go:150-268 | so does every run |
| TxPoolLoop.Loop | mempool/txpool/txpool.go:150-268 | the loop over its own variables ends where the state machine does, for every schedule |
| TxPoolAdd.Add | mempool/txpool/txpool.go:343-384 | position i holds the error that the first accepting subpool gave for tx i, or unsupported |
| TxPoolAdd.Split | mempool/txpool/txpool.go:350-365 | each subpool gets, in order, the txs it is the first to accept |
| TxPoolAdd.FirstFrom | mempool/txpool/txpool.go:357-364 | the first subpool that accepts |
| TxPoolAdd.RankFindsTx | mempool/txpool/txpool.go:366-384 | the tx stands in its subpool's share at its rank |
| TxPoolAdd.RankIsInjective | mempool/txpool/txpool.go:366-384 | txs of one subpool keep their order and never share an error |
| FeeChecker.AcceptsExactly | ante/evm/fee_checker.go:83-100 | accepted exactly if the tip cap is not negative, there is gas, and the fee covers base fee times gas; lack of gas has its own error |
| FeeChecker.TipCapIsFirst | ante/evm/fee_checker.go:70-81 | the first dynamic fee option decides the tip cap, a nil price counting as zero |
| FeeChecker.TipCapByDefault | ante/evm/fee_checker.go:67-68 | without one the tip cap is the largest int64 |
| FeeChecker.ChargeIsLeast | ante/evm/fee_checker.go:97-111 | the charge is the least amount that pays, for all gas, the lesser of the offered price and base fee plus tip |
| FeeChecker.ChargeIsBounded | ante/evm/fee_checker.go:97-119 | despite truncation and ceiling: at most the offered fee, at least base fee times gas, priority in range |
| FeeChecker.PriorityCountsTip | ante/evm/fee_checker.go:112-117 | the priority is the number of whole reduction units in the effective tip, up to the largest int64 |
| FeeChecker.WholeFeeWithoutTipCap | ante/evm/fee_checker.go:97-111 | when the tip cap does not bind, the whole fee is charged if gas is at most 10^18 |
| FeeChecker.WholeFeeByDefault | ante/evm/fee_checker.go:67-111 | a tx without such an option that covers the base fee is charged its whole fee, within the default cap |
| FeeChecker.ChargeIsMonotone | ante/evm/fee_checker.go:97-119 | offering more never lowers charge or priority |
| FeeChecker.CheckFee | ante/evm/fee_checker.go:67-119 | the check with its loop over the options: the first dynamic fee option decides |
| FeeChecker.GetTxPriority | ante/evm/fee_checker.go:154-172 | the loop over the coins |
| FeeChecker.PriorityIsSmallestIff | ante/evm/fee_checker.go:154-172 | the priority is that of the smallest coin if and only if every coin pays at least one reduction unit for all the gas or the last one does not |
| FeeChecker.CoinPriorityCounts | ante/evm/fee_checker.go:158-164 | a coin's priority is the number of whole reduction units it pays per gas, up to the largest int64 |
| FeeChecker.ZeroPriorityIff | ante/evm/fee_checker.go:158-164 | a coin has priority zero exactly if it pays less than one reduction unit for all the gas |
| FeeChecker.ZeroIsForgotten | ante/evm/fee_checker.go:166-168 | two coins for which it is not |
| KvIndexer.LookupIsExactIff | indexer/kv_indexer.go:153-162 | after any run of blocks, blocks indexed twice included, looking up (height, k) gives the entry saved last for it if and only if no later entry has its hash, and nothing if there is none |
| KvIndexer.BlockEntryIsLastIff | indexer/kv_indexer.go:52-124 | a block's k-th entry is the one saved last for it if and only if no later block of that height has as many |
| KvIndexer.HashLookupIsLatest | indexer/kv_indexer.go:137-150 | looking up a hash gives the result saved last for it, not found exactly if there is none |
| KvIndexer.RepeatedHashHidesFirst | indexer/kv_indexer.go:216-225 | two blocks for which the first lookup fails |
| KvIndexer.IndexAllSavesLog | indexer/kv_indexer.go:52-124 | indexing block by block saves all entries in order |
| KvIndexer.EntriesAreFaithful | indexer/kv_indexer.go:59-118 | the entries are counted messages in block order, each with its own hash, gas, outcome and the running gas of its tx |
| KvIndexer.EveryMessageIsIndexed | indexer/kv_indexer.go:59-118 | every counted message has an entry |
| KvIndexer.IndexedIff | indexer/kv_indexer.go:60-103 | a message is indexed if and only if its tx was not dropped for its code, decodes, is an eth tx, has readable events and, if it succeeded, an event for the message |
| KvIndexer.EntrySays | indexer/kv_indexer.go:85-113 | an entry holds the hash of its message, and the gas and outcome of its event, or the gas limit and failure for a tx that failed as expected |
| KvIndexer.EntriesAreNumbered | indexer/kv_indexer.go:59-118 | eth indices are 0..n-1 without gaps, whatever was skipped |
| KvIndexer.EdgeIsExtreme | indexer/kv_indexer.go:177-200 | over any sequence of blocks, first and last indexed block are the true minimum and maximum of heights with an eth tx |
| KvIndexer.NoEdgeNoTxs | indexer/kv_indexer.go:183-185 | -1 means that nothing is indexed |
| KvIndexer.TxIndexKeyIsInjective | indexer/kv_indexer.go:170-174 | a key determines height and index, negative ones included |
| KvIndexer.KeyExample | indexer/kv_indexer.go:165-174 | the bytes of two keys |
| KvIndexer.TxIndexKeyKeepsOrder | indexer/kv_indexer.go:170-174 | byte order of keys is the order of (height, index) |
| KvIndexer.HeightParsesBack | indexer/kv_indexer.go:227-233 | the height parses back from every key |
| KvIndexer.BigEndianReads | indexer/kv_indexer.go:171-172 | big-endian bytes read back |
| KvIndexer.BigEndianKeepsOrder | indexer/kv_indexer.go:171-172 | and sort as numbers |
| KvIndexer.IndexMsgs | indexer/kv_indexer.go:82-118 | the loop over messages with its running counters |
| KvIndexer.IndexBlock | indexer/kv_indexer.go:52-124 | the database after the batch, each entry under its own height and eth index |
| KvIndexer.SavedIndexKey | indexer/kv_indexer.go:216-225 | the last entry for a height and index wins, all other index keys stay |
| KvIndexer.SavedHashKey | indexer/kv_indexer.go:216-225 | the last entry with a hash wins, other hashes stay |
| KvIndexer.IndexKeysAreExact | indexer/kv_indexer.go:216-225 | an index key is in the database exactly if its tx was indexed |
| KvIndexer.KeysAreKnown | indexer/kv_indexer.go:216-225 | every key of the index range is the key of an indexed tx |
| KvIndexer.EdgeKey | indexer/kv_indexer.go:178-191 | the least or greatest key in a range, none exactly if it is empty |
| KvIndexer.LoadEdgeBlock | indexer/kv_indexer.go:177-200 | the height of that key, or -1 |

## Left out

- Ante, bank, staking and governance keepers, the state database, the legacy pool, the height-synced store and the insert queue: not modelled; where a core calls them they are parameters.
- `mempool/reserver`: a small owner map with easy members.
- `mempool/txpool/validation.go` and the query methods of the pool: one-branch checks and plain delegation.
- `snapshotTxs`, `Txs`, `Iterator` and `Len` of the store: plain traversals.
- The genesis and pre-London comparison with validator minimum gas prices: only its priority (`GetTxPriority`) is modelled.
- Overflow panics of the big-number libraries, and the conversion of gas to int64 in `getTxPriority`.
- JSON text, and the path syntax of the JSON libraries; `eip712_legacy.go`.
- Encoding of indexed results, database errors and the int32 overflow of the eth index beyond 2^31 entries of one block.
- The two locks between the reap list's look-up and its push: one step here.
- Nil and empty byte slices are not told apart in the Web3 option.
- Logging, metrics, tracing and configuration.
- RecheckPass.RecheckMempool.RemoveAll: does not model the release of address reservations after a removal, because the owner map lives in another component.
- Eip712Types.TypeMap.RecursivelyAddTypesToRoot: does not say which definitions a partly filled map holds after an error, because the caller discards it.
- Eip712Types.TypeMap.AddField: does not say which definitions a partly filled map holds after an error, for the same reason.
- Web3Codec.Marshal: assumes encodings shorter than 2^63 bytes, as Go slices are.
- Eip712Types.CreatedIsSound: assumes that the title caser leaves a sanitized, numbered name as it is; IdempotentCaserIsStable reduces this to idempotence.
- EvmOrdering.CollectHeads: assumes non-empty account lists, as the source indexes the first tx of each.
- TxPoolAdd.Add: assumes that a subpool returns one error per tx, as the source indexes them.
