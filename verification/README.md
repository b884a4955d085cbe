# Evmos in Dafny

Verified models of five parts of the Evmos chain:

- the generated protobuf codec of `TxResult` and `ExtensionOptionsWeb3Tx`: the buffer is filled from its end, the
  parser scans forward, skips unknown fields and nested groups, and works on integers that wrap;
- the index of Ethereum transactions in a key-value store, and the three programs that fill it (a forward and a
  backward command, and a service that runs along with the chain);
- the allowances of the ERC-20 and the ICS-20 precompile, both kept as grants in the authz store;
- the EIP-712 schema made out of the JSON of a transaction's messages, and the flattening that comes before it;
- two arithmetic cores: gas for nested multisig keys on a meter with a `uint64` counter, and the two's-complement
  topics of event arguments.

`dafny verify dfyconfig.toml` checks everything. Nothing here executes the Go program.

## How it is laid out

Code that changes things step by step is a method or a class, proved against a specification function or a relation
on states; the laws of the chain are lemmas about these functions and relations, and about runs. What a specification
function computes is in turn stated outright, with the numbers, names and positions of the format it stands for, so that
no law rests on a definition alone.

| file | holds |
|---|---|
| `Bytes.dfy`, `Base256.dfy` | bytes, Go's fixed-width integers, byte order, numbers in base 256 |
| `Varint.dfy`, `Wire.dfy`, `WireMessages.dfy` | varints; the codec as functions and its laws; the in-place writers and the parsers |
| `IndexKeys.dfy`, `TxIndexLog.dfy`, `BlockEntries.dfy`, `KVIndexer.dfy` | keys and their order; the index as a log of entries; what the entries of a block are; the indexer |
| `IndexDrivers.dfy`, `IndexService.dfy` | runs of the command, and the service as interleaved steps |
| `Coins.dfy`, `Allowances.dfy`, `Erc20.dfy` | coin lists; grants seen as allowances, and runs; the ERC-20 precompile |
| `Ics20Limits.dfy`, `Ics20.dfy`, `Ics20Effects.dfy` | limits for each channel and the loop that deletes while ranging; the ICS-20 precompile; what limits, answers and events are |
| `Json.dfy`, `Eip712Names.dfy`, `Eip712Types.dfy`, `Eip712Flatten.dfy` | JSON trees; type names; the schema; flattening |
| `SigGas.dfy`, `Topics.dfy` | multisig gas; event topics |

## What the proofs brought to light

Where the code and what is said about it part ways, the model follows the code, and there is a lemma that says exactly
when the promise holds.

- A round trip needs a fresh receiver: `Unmarshal` merges. It gives the message back exactly when the receiver has no
  field set that the message leaves out (`Wire.RoundTripIntoUsedReceiver`).
- Field numbers are cut to `int32`, so field 2^32 + 1 is field 1 (`Wire.FieldNumberIsTruncated`).
- A record of zeros marshals to no bytes and reads as missing. Entries of a block have that record only at height 0
  (`TxIndexLog.InvisibleExactlyAtHeightZero`, `TxIndexLog.HeightZeroIsLost`), which no driver indexes
  (`IndexDrivers.RunsStayAboveZero`).
- A hash that is indexed twice points to the later entry (`TxIndexLog.RepeatedHash`).
- On an empty store `index-eth-tx backward` starts below the latest block, although its help text
  (server/indexer_cmd.go:18-24) says it starts from it (`IndexDrivers.BackwardOnEmptyStoreSkipsLatest`).
- The service passes over a block whose `IndexBlock` fails. That leaves a gap exactly if a failed block has something to
  index and lies between two blocks that are indexed (`IndexService.FailuresLeaveGaps`, `IndexService.GapTrace`).
- An error of `Unmarshal` is final, whatever follows, unless it is a premature end (`Wire.ErrorsAreFinal`).
- `approve(spender, 0)` is refused when the grant holds only other tokens (`Erc20.ApproveZeroNeedsALimit`).
- The `Approval` logs of `approve`, `increaseAllowance` and `decreaseAllowance` name the precompile as owner
  (precompiles/erc20/approve.go:86, 145, 216).
- An ICS-20 limit that is used up cannot be increased any more until its grant is approved anew (`Ics20.UsedUpIsFinal`).
- Flattening a payload with two `msgs` fields keeps the second one (`Eip712Flatten.FlattenedFields`).
- On overflow the gas meter is set to zero before the panic (`SigGas.Meter.ConsumeGas`).
- `MakeTopic` encodes a `*big.Int` by its absolute value, so a negative one gets the topic of its opposite
  (`Topics.BigIntTopic`).

## Assumptions

- Cosmos SDK: `Coins.Add`, `SafeSub`, `Find` and `Validate` on lists sorted by denomination; `SaveGrant` refuses a
  date that is not after the block time and `GetAuthorization` hides a grant once its date has passed;
  `SendAuthorization.Accept` subtracts, deletes at zero and refuses what is above the limit; the bank subtracts and adds;
  `BitArray.Count` is the number of bits.
- ibc-go: `TransferAuthorization.ValidateBasic` and `Accept`, as written out in `Ics20Limits.ValidAllocations` and
  `Ics20.Accept`.
- gjson and sjson: `Get` finds the first field of a name, `SetRaw` appends a field that is not there, `Delete` removes
  the first field of a name. Names have no path syntax; for the title caser they consist of letters, digits and `_`.
- The store is an ordered map from byte strings to byte strings; a batch is applied as a whole or not at all.

## Model

| member | source | states |
|---|---|---|
| Varint.EncodeDenotes | types/indexer.pb.go:172-182 | the bytes written are a terminated varint that stands for the value |
| Varint.EncodeIsShortest | types/indexer.pb.go:172-182 | no terminated byte string that stands for the value is shorter |
| Varint.SovIsLength | types/indexer.pb.go:213-215 | the size formula on the bit length is the number of bytes written, for every value |
| Varint.Encode64Length | types/indexer.pb.go:213-215 | a uint64 takes between 1 and 10 bytes |
| Varint.PutVarint | types/indexer.pb.go:172-182 | the encoding ends at the offset, sov(v) bytes before it, and no other byte of the array changes |
| Bytes.SpliceAt | types/indexer.pb.go:172-182 | what a written-over array holds at each index |
| Varint.ReadAccepts | types/indexer.pb.go:225-238 | the reader accepts exactly the byte strings with a last byte within ten, and says how long they are |
| Varint.ReadEncoded | types/indexer.pb.go:225-238 | reading what was written, whatever follows, gives back the value and its length |
| Base256.NumberOfDigits | indexer/kv_indexer.go:225-231 | a byte more on the right multiplies by 256 and adds it |
| Varint.OrIsAdd | types/indexer.pb.go:234 | or-ing in bits above all that are set is addition |
| Varint.OrShifted | types/indexer.pb.go:226-234 | or-ing a shifted digit into a word of any width whose bits are all below the shift gives the sum modulo the word, also when the shift goes beyond the word |
| Varint.DecodeVarint | types/indexer.pb.go:225-238 | the loop, or-ing in shifted digits, ends on any bytes and from any start with the value modulo 2^bits and the next index, or with the error of the specification |
| Wire.SizeIsLength | types/indexer.pb.go:183-211 | Size is the length of the encoding, for both messages |
| Wire.Web3TxFormat | types/web3.pb.go:117-142 | the encoding is that of the records varint 1, bytes 2 and bytes 3 in this order: chain id, fee payer, signature, each left out when zero or empty |
| Wire.TxResultFormat | types/indexer.pb.go:124-170 | the encoding is that of the varint records 1 to 7 in this order, zeros left out, signed values modulo 2^64 |
| Wire.RecordFormat | types/web3.pb.go:117-142 | a record is its tag, number times 8 plus wire type, as a varint, then the payload, with its length in front if it is of bytes |
| Wire.Skip | types/indexer.pb.go:403-480 | on success the result lies beyond the start, so a caller that rewinds to the start of the record makes progress |
| Wire.Record | types/indexer.pb.go:223-395 | a record that parses takes at least one byte and ends within the buffer, whatever the bytes and the wrapping lengths |
| Wire.Web3TxFields | types/web3.pb.go:209-294 | for every receiver: a record with number 1 sets the chain id, 2 the fee payer, 3 the signature, and nothing else |
| Wire.TxResultFields | types/indexer.pb.go:247-381 | for every receiver and every varint: the field that each of the numbers 1 to 7 sets, and the value with its truncation and sign |
| Wire.BrokenScalars | types/indexer.pb.go:247-381 | a varint that breaks off leaves what it gave so far in the field, but not in the bool |
| Wire.WrongWireTypes | types/indexer.pb.go:241-251 | a known field with a wire type that is not its own is refused, and so is an end of group; the receiver stays |
| Wire.BadLengths | types/web3.pb.go:248-258 | a length that is negative as int64 or makes the index wrap is an invalid length, one beyond the end a premature end; the receiver stays |
| Wire.RecordExtend | types/indexer.pb.go:223-395 | whether a record parses or fails, bytes after it change nothing, unless its end came too early |
| Wire.ConcatenationLaw | types/indexer.pb.go:219-402 | if a decodes, decoding a followed by b is decoding b into the result of decoding a |
| Wire.ErrorsAreFinal | types/indexer.pb.go:219-402 | every error but a premature end is reported, with the same receiver, whatever bytes follow |
| Wire.PrematureEndIsNotFinal | types/indexer.pb.go:229-231 | a premature end that one more byte mends |
| Wire.DecodeMerges | types/indexer.pb.go:124-402 | decoding an encoded message into any receiver succeeds and merges: fields that are not zero win |
| Wire.TxResultRoundTrip | types/indexer.pb.go:124-402 | every TxResult, negative height and index included, comes back from at most 68 bytes |
| Wire.Web3TxRoundTrip | types/web3.pb.go:117-315 | every ExtensionOptionsWeb3Tx comes back, an empty signature as nil |
| Wire.RoundTripIntoUsedReceiver | types/indexer.pb.go:219-402 | the exact condition on a used receiver for the round trip to give the message back |
| Wire.SkipRec | types/indexer.pb.go:403-480 | skipping goes over one well-formed record, with groups nested to any depth, at any depth |
| Wire.IllegalWireTypes | types/indexer.pb.go:467-471 | an unknown field with wire type 6 or 7 is refused |
| Wire.UnknownNumbersAreSkipped | types/indexer.pb.go:382-396 | numbers above those of the message are skipped for each wire type: a varint, 8 bytes, bytes with their length, a group, 4 bytes |
| Wire.ForeignRecordsAreIgnored | types/indexer.pb.go:382-396 | well-formed records with unknown field numbers change nothing |
| Wire.InsertionLaw | types/indexer.pb.go:382-396 | inserting such records after a prefix that decodes changes neither the message nor whether it decodes |
| Wire.FieldNumberIsTruncated | types/indexer.pb.go:239-246 | a field number is cut to 32 bits: it sets the field of the cut number, or is refused when that is not positive |
| WireMessages.PutScalar | types/indexer.pb.go:129-168 | one scalar field with its tag, written before the offset, and nothing else changed |
| WireMessages.SkipRecord | types/indexer.pb.go:403-480 | the skip loop ends on any bytes, never reads outside them, and has the result of Wire.Skip |
| WireMessages.ReadTag | types/indexer.pb.go:224-246 | field number and wire type of a tag, with the two errors for an end group and a number that is not positive |
| WireMessages.SkipUnknown | types/indexer.pb.go:382-396 | an unknown record is passed from its first byte on, never beyond the buffer, and always makes progress |
| WireMessages.TxResult.MarshalToSizedBuffer | types/indexer.pb.go:124-170 | the encoding ends at the end of the buffer, Size bytes long, and no other byte changes |
| WireMessages.TxResult.Marshal | types/indexer.pb.go:109-117 | a buffer of exactly the encoding: the backward writer stops at offset 0 |
| WireMessages.TxResult.ReadScalar | types/indexer.pb.go:247-381 | the seven fields with their truncations: int64, uint32, int32 and bool |
| WireMessages.TxResult.ReadRecord | types/indexer.pb.go:223-395 | one record: a known field, an unknown one, or an error, as in the specification |
| WireMessages.TxResult.Unmarshal | types/indexer.pb.go:219-402 | on any bytes the parser stops, never reads outside them, and leaves receiver and error as specified |
| WireMessages.PutBytes | types/web3.pb.go:122-140 | a bytes or string field: content, length, tag, before the offset, and nothing else changed |
| WireMessages.Web3Tx.MarshalToSizedBuffer | types/web3.pb.go:117-142 | the encoding ends at the end of the buffer and no other byte changes |
| WireMessages.Web3Tx.Marshal | types/web3.pb.go:102-110 | a buffer of exactly the encoding |
| WireMessages.Web3Tx.ReadDelimited | types/web3.pb.go:229-294 | the length checks with their int64 wrap, and the copy of the content |
| WireMessages.Web3Tx.ReadRecord | types/web3.pb.go:185-308 | one record, as in the specification |
| WireMessages.Web3Tx.Unmarshal | types/web3.pb.go:181-315 | on any bytes the parser stops, never reads outside them, and leaves receiver and error as specified |
| IndexKeys.KeyOrder | indexer/kv_indexer.go:168-172 | for non-negative heights and indexes byte order on the keys is the order on (height, index) |
| IndexKeys.KeyInjective | indexer/kv_indexer.go:168-172 | different heights or indexes, negative ones included, have different keys |
| IndexKeys.HashKeyInjective | indexer/kv_indexer.go:163-165 | different hashes have different keys |
| IndexKeys.KeyspacesApart | indexer/kv_indexer.go:162-172 | no hash key is an index key |
| IndexKeys.ParseBack | indexer/kv_indexer.go:225-231 | the block number parsed from an index key is its height |
| BlockEntries.KeyLayout | indexer/kv_indexer.go:162-172 | prefix 1 and the hash; prefix 2, eight bytes of height and eight bytes of index, both modulo 2^64, most significant first |
| IndexKeys.IndexRange | indexer/kv_indexer.go:175-198 | the range the iterators go over holds the keys with the index prefix and no others |
| TxIndexLog.EntriesAreDense | indexer/kv_indexer.go:50-122 | the entries of a block have its height and the indexes 0, 1, 2, ..., across transactions |
| TxIndexLog.CumulativeGas | indexer/kv_indexer.go:80-112 | cumulative gas is the sum so far within one cosmos transaction, modulo 2^64 |
| BlockEntries.MessagesOfBlock | indexer/kv_indexer.go:58-101 | the entries come from exactly the messages whose transaction is expected, decodes, is an eth transaction and parses, and that have an outcome, one entry for each, in the order of the block |
| BlockEntries.EntryOfMessage | indexer/kv_indexer.go:81-111 | what the entry of a message holds: its hash, its place, gas and failure told by the events, or the gas limit and failed when the code is not OK, and the gas so far in its transaction modulo 2^64 |
| TxIndexLog.RecordBytes | indexer/kv_indexer.go:214-218 | the bytes stored for a record decode to it, and are empty only for the record of zeros |
| TxIndexLog.BatchIsPutAll | indexer/kv_indexer.go:213-223 | applying the batch puts, for each entry in order, its record under the hash key and its hash under the index key |
| BlockEntries.EntriesAreStored | indexer/kv_indexer.go:214-223 | one entry more in the store: its record under its hash, its hash under height and index, every other key as before |
| TxIndexLog.HashLookupRefines | indexer/kv_indexer.go:135-148 | in the store of any log, a hash finds the last entry of the log with that hash, if its record shows |
| TxIndexLog.IndexLookupRefines | indexer/kv_indexer.go:151-160 | the same for a height and an index |
| BlockEntries.LookupByHash | indexer/kv_indexer.go:135-148 | on any store: the record that decodes from the bytes under the hash key; nothing when there are none or they do not decode |
| BlockEntries.LookupByIndex | indexer/kv_indexer.go:151-160 | on any store: the lookup of the hash under the index key, cut or padded to 32 bytes on the left; nothing when there is none |
| TxIndexLog.RunLookup | indexer/kv_indexer.go:135-160 | after any run on blocks with distinct heights above 0 and distinct hashes both lookups return the i-th accepted message of block h |
| BlockEntries.MessageIsFound | indexer/kv_indexer.go:50-160 | from block to lookup: after a run every message that is to be indexed is found by its hash and by its index, with its own height, place, gas and failure |
| TxIndexLog.RunMiss | indexer/kv_indexer.go:135-160 | and they fail for every other hash, height and index |
| TxIndexLog.InvisibleExactlyAtHeightZero | indexer/kv_indexer.go:151-160 | an entry reads as missing if and only if the block has height 0 and the entry is that of its first message, which did not fail and used no gas |
| TxIndexLog.HeightZeroIsLost | indexer/kv_indexer.go:151-160 | a block at height 0 whose first entry is written and not found |
| TxIndexLog.RepeatedHash | indexer/kv_indexer.go:214-222 | an entry is found by its hash if and only if no later entry has the same hash |
| TxIndexLog.RetriedTxMoves | indexer/kv_indexer.go:214-222 | a run in which a hash that was indexed in one block is found in a later one |
| TxIndexLog.RunIsUnion | indexer/kv_indexer.go:50-122 | a run on blocks of distinct heights and hashes leaves the union of what each block writes |
| BlockEntries.RunSteps | indexer/kv_indexer.go:50-122 | a run puts the entries of block after block |
| TxIndexLog.OrderDoesNotMatter | indexer/kv_indexer.go:50-122 | two runs over the same set of such blocks, in any order, leave the same store |
| TxIndexLog.IndexTwice | indexer/kv_indexer.go:50-122 | indexing a block again changes nothing |
| KVIndexer.FirstAndLast | indexer/kv_indexer.go:175-198 | First and Last are the least and the greatest height with an entry, and -1 exactly when there is none |
| KVIndexer.SaveTxResult | indexer/kv_indexer.go:214-223 | the two writes of an entry appended to the batch, unless the store refuses one |
| KVIndexer.IndexTx | indexer/kv_indexer.go:80-116 | the loop over the messages: the batch and the running index after one transaction, which BlockEntries.EntryOfMessage spells out |
| KVIndexer.KVIndexer.IndexBlock | indexer/kv_indexer.go:50-122 | it fails exactly when a write of the store does; the store then is unchanged, and otherwise has all entries of the block |
| KVIndexer.KVIndexer.FirstIndexedBlock | indexer/kv_indexer.go:188-198 | the height parsed from the least index key |
| KVIndexer.KVIndexer.LastIndexedBlock | indexer/kv_indexer.go:175-185 | the height parsed from the greatest index key |
| IndexDrivers.IndexOne | indexer/kv_indexer.go:50-122 | indexing a block adds its height to those with an entry, if at all, and no block that is indexed gets lost |
| IndexDrivers.StartPoints | server/indexer_cmd.go:84-107 | without any entry the drivers start at block 1, below the given height, and above the latest block; otherwise right next to the blocks that have entries |
| IndexDrivers.FillingSteps | server/indexer_cmd.go:93-111 | filling indexes one block after the other, upwards or downwards |
| IndexDrivers.NothingMissing | indexer/kv_indexer.go:50-122 | what no gap means: every entry of every block between two that have entries is under its height and index with its hash, and its hash has a record |
| IndexDrivers.RunCovers | server/indexer_cmd.go:83-111 | a run of any driver, stopped anywhere, leaves no gap, has its own blocks indexed and keeps those that were |
| IndexDrivers.CompleteRuns | server/indexer_cmd.go:83-111 | a forward run to the latest block and a backward run to block 1 leave everything up to there indexed |
| IndexDrivers.AnyRunsLeaveNoGaps | server/indexer_cmd.go:83-111 | over any sequence of forward, backward and service runs, each stopped anywhere, there is never a gap |
| IndexDrivers.BackwardOnEmptyStoreSkipsLatest | server/indexer_cmd.go:84-97 | on an empty store the backward command starts one below the latest block and never indexes that block |
| IndexDrivers.RunsStayAboveZero | server/indexer_cmd.go:93-107 | no sequence of runs gives height 0, or a height above the chain, an entry |
| IndexDrivers.FillingsAgree | server/indexer_cmd.go:93-111 | filling an empty store backward or forward over the same blocks leaves the same store |
| IndexDrivers.IndexForward | server/indexer_cmd.go:98-111 | an error exactly if a step fails at some height from the start to the latest block, and then everything below the first such height is indexed; otherwise everything up to the latest block is; never a gap |
| IndexDrivers.IndexBackward | server/indexer_cmd.go:84-97 | an error exactly if a step fails at some height from the start down to 1, and then everything above the first such height is indexed; otherwise everything down to block 1 is; never a gap |
| IndexService.NextInv | server/indexer_service.go:63-110 | every step of either goroutine keeps the blocks up to lastBlock indexed in order |
| IndexService.ServiceIsRun | server/indexer_service.go:42-111 | any interleaving, stopped anywhere, is a gap-free run: headers may come at any time and a failed fetch skips no height |
| IndexService.LatestIsGreatest | server/indexer_service.go:63-77 | latestBlock is the greatest of the first status and the headers that arrived |
| IndexService.CaughtUp | server/indexer_service.go:86-110 | when the loop leaves off, every block from the starting point to latestBlock is indexed |
| IndexService.FetchIsRetried | server/indexer_service.go:95-104 | after a failed fetch the loop enters again at the same height |
| IndexService.FailuresLeaveGaps | server/indexer_service.go:94-109 | any interleaving, failures of IndexBlock included: a gap is left if and only if a failed block has entries and lies between two heights that have one |
| IndexService.GapTrace | server/indexer_service.go:105-108 | a run over three blocks that leaves a gap |
| Coins.AddCoinLaw | precompiles/erc20/types.go:148-159 | adding a coin changes the amount of its denomination only, and drops it at zero |
| Coins.AmountOfLaw | precompiles/erc20/query.go:211-231 | the amount of a denomination is that of its first coin, and zero without one |
| Coins.SafeAddLaw | precompiles/common/types.go:104-107 | the sum, and an overflow exactly when its absolute value takes more than 256 bits |
| Coins.SubCoinLaw | precompiles/erc20/approve.go:252-277 | subtracting shows a negative amount exactly when there is less, and else leaves a valid list |
| Coins.UpdateOrAddCoin | precompiles/erc20/types.go:148-159 | the list has the new amount, every other amount as before, and stays sorted and positive |
| Allowances.MovedLaw | precompiles/erc20/tx.go:94-104 | what is sent leaves one account, arrives at the other, and changes no third one |
| Allowances.TotalOf | precompiles/erc20/query.go:162-177 | a total adds up balances, and an account without a record has none |
| Allowances.AllowanceMeans | precompiles/erc20/query.go:211-231 | the allowance is the amount of the coin in the limit of a send grant that has not expired, its last second included, and zero without one |
| Allowances.TransferConserves | precompiles/erc20/tx.go:71-142 | a transfer keeps the total of every denomination |
| Allowances.WritesSets | precompiles/erc20/approve.go:223-277 | writing one grant sets one allowance, leaves every other one what it would have been at any later time, and keeps stored limits valid |
| Allowances.GrantGoesWithLastLimit | precompiles/erc20/approve.go:271-276 | the grant is deleted if and only if no allowance is left in it; its date and type stay, and no other grant is touched |
| Allowances.UpdatesMean | precompiles/erc20/approve.go:223-277 | a call sets this allowance for as long as the grant lives and leaves every other one, and every other grant, as it was; the grant keeps its date |
| Allowances.EffectOnAllowance | precompiles/erc20/approve.go:35-221 | one call keeps stored limits valid, and what it spends and leaves of an allowance is at most what was there and what it grants |
| Allowances.EventSetsAllowance | precompiles/erc20/approve.go:35-221 | the exact effect of each event on each allowance: approved is set, increased added, decreased and spent subtracted, all others stay |
| Allowances.EventMovesTokens | precompiles/erc20/tx.go:71-142 | the exact effect of each event on each balance |
| Allowances.RunKeepsGrantsValid | precompiles/erc20/approve.go:223-333 | in every state of a run stored limits are sorted, positive, within 256 bits and not empty |
| Allowances.SpendingIsBounded | precompiles/erc20/tx.go:71-142 | over any run, for each owner, spender and token: spent plus remaining allowance is at most what was there and what was approved and added |
| Allowances.EventsCount | precompiles/erc20/tx.go:71-142 | what counts as spent and as granted in the bound: the amounts of exactly these events |
| Allowances.TotalsAreConstant | precompiles/erc20/tx.go:71-142 | over any run the total of every denomination is constant |
| Erc20.Keepers.DispatchSend | precompiles/erc20/tx.go:98-104 | a spend takes the amount out of this allowance and writes no other grant, deletes the grant when nothing is left, and is refused above it |
| Erc20.LimitLeft | precompiles/erc20/approve.go:258-269 | a coin taken out of the live limit leaves a valid limit with this one amount lower |
| Erc20.WhenCallsSucceed | precompiles/erc20/approve.go:35-221 | when approve, increase, decrease and transfer succeed, and under which date, in terms of the grant in the store: none or expired, of another type, or a send grant |
| Erc20.Precompile.CreateAuthorization | precompiles/erc20/approve.go:223-238 | success exactly for an amount in range and a date to come; then one new grant with this limit only; else no change |
| Erc20.Precompile.UpdateAuthorization | precompiles/erc20/approve.go:240-247 | this allowance becomes the amount in the same grant under its date; other tokens do not notice |
| Erc20.Precompile.RemoveSpendLimitOrDeleteAuthorization | precompiles/erc20/approve.go:252-277 | this allowance becomes 0, and the grant is deleted exactly when it held nothing else; fails exactly when the limit lacks the token, the type is another one, or the rest cannot be stored |
| Erc20.Precompile.Approve | precompiles/erc20/approve.go:35-91 | success exactly when CanApprove says so; the whole store after it; the allowance read back is the amount; every outcome is an event of the runs |
| Erc20.Precompile.IncreaseAllowance | precompiles/erc20/approve.go:102-150 | success exactly when the sum fits and can be stored; the whole store after it; the log has the allowance that is read back; every outcome is an event of the runs |
| Erc20.Precompile.DecreaseAllowance | precompiles/erc20/approve.go:164-221 | success exactly when there is that much; the whole store after it, without the grant when nothing is left in it; the log has the allowance that is read back; every outcome is an event of the runs |
| Erc20.Precompile.TransferTokens | precompiles/erc20/tx.go:71-142 | success exactly when balance, bank and allowance permit; then the sender has that much less, the recipient that much more and every other account what it had; charges this allowance only and logs what is left of it; every outcome is an event of the runs |
| Erc20.Precompile.GetAuthzExpirationAndAllowance | precompiles/erc20/query.go:211-231 | fails exactly without a live grant of the bank's type; the amount is the allowance of this token at this time, 0 on errors |
| Erc20.Precompile.Allowance | precompiles/erc20/query.go:181-207 | for anyone but the owner the allowance of the model, which is what the three methods above are proved about; 2^256 - 1 for the owner |
| Erc20.ApproveZeroNeedsALimit | precompiles/erc20/approve.go:68-70 | on a live grant approve(0) succeeds if and only if there is an allowance of this token, and the rest can be stored |
| Ics20Limits.TakeFromLimit | precompiles/ics20/approve_common.go:192-206 | the loop over its own shrinking slice: on a list without duplicates it neither panics nor misses a coin, and leaves the list with one coin reduced or removed |
| Ics20Limits.DeleteAt | precompiles/ics20/approve_common.go:200-202 | appending the tail onto the head shifts the backing array and leaves a stale last element |
| Ics20Limits.ReducedIsSub | precompiles/ics20/approve_common.go:192-206 | on a sorted list the loop's result is the subtraction of the coin |
| Ics20Limits.OnlyThisLimitChanges | precompiles/ics20/approve_common.go:105-223 | setting one limit keeps the allocations valid and changes no other (port, channel, denomination) |
| Ics20Effects.LimitMeans | precompiles/ics20/types.go:337-355 | a limit is the amount in the allocation of its channel, in a transfer grant that has not expired; zero without one |
| Ics20Effects.WhenLimitsChange | precompiles/ics20/approve_common.go:105-223 | an increase needs something left and room for the sum, a decrease something left and at least the amount, both a grant that outlives the block |
| Ics20Effects.ChangesLimitMeans | precompiles/ics20/approve_common.go:105-223 | what a changed limit leaves as it was: other grants, the date, the channels and their allow lists, every other limit at any time |
| Ics20Limits.SameAmountsSameCoins | precompiles/ics20/approve_common.go:139 | a sorted positive coin list is determined by its amounts |
| Ics20Limits.SetBack | precompiles/ics20/approve_common.go:105-223 | setting a limit and setting it back restores the list of allocations |
| Ics20.CheckAllocationExists | precompiles/ics20/types.go:337-355 | the first allocation of the channel and its coin, or an error exactly when one of them is missing |
| Ics20.ConvertToAllocation | precompiles/ics20/types.go:358-380 | the nested copy loops reproduce the allocations |
| Ics20.Approve | precompiles/ics20/approve_common.go:33-68 | success exactly for valid allocations over existing channels; the grant is replaced and no other; the store stays valid; every outcome is an event of the runs |
| Ics20.Revoke | precompiles/ics20/approve_common.go:71-102 | deletes a live transfer grant, and nothing else; an error otherwise; every outcome is an event of the runs |
| Ics20.IncreaseAllowance | precompiles/ics20/approve_common.go:105-156 | success exactly when something is left and the sum fits; only this limit changes, by the amount; nothing changes on an error; every outcome is an event of the runs |
| Ics20.DecreaseAllowance | precompiles/ics20/approve_common.go:159-223 | success exactly when at least the amount is left; only this limit changes, by the amount; nothing changes on an error; every outcome is an event of the runs |
| Ics20.AcceptSpends | precompiles/ics20/approve_common.go:226-247 | a transfer is accepted exactly within its limit, which it takes it out of unless it is unbounded; no other limit changes |
| Ics20Effects.AcceptAnswer | precompiles/ics20/approve_common.go:226-247 | the whole answer to a transfer within its limit: untouched at 2^256 - 1, the limit lowered, the allocation gone with its only coin, the grant gone with its last allocation |
| Ics20.CheckAndAccept | precompiles/ics20/types.go:394-416 | the origin needs no grant; anyone else needs a live transfer grant that accepts |
| Ics20.UpdateGrantIfNeeded | precompiles/ics20/types.go:419-424 | the grant is deleted, replaced under its date, or left alone, as the response says |
| Ics20.TransferTokens | precompiles/ics20/tx.go:56-70 | accept, transfer, update: on success exactly one limit is lower by the amount, on an error no grant changes; every outcome is an event of the runs |
| Ics20.RunKeepsGrantsValid | precompiles/ics20/approve_common.go:33-223 | in every state of a run channels are unique and limits sorted, positive and within 256 bits |
| Ics20.SendingIsBounded | precompiles/ics20/approve_common.go:33-268 | over any run, for each grant, channel and denomination: sent within the limit plus what remains is at most what was there and what was granted |
| Ics20.IncreaseThenDecreaseRestores | precompiles/ics20/approve_common.go:105-223 | an increase and a decrease by the same amount restore the whole store |
| Ics20.EffectOnLimit | precompiles/ics20/approve_common.go:33-268 | one call keeps stored grants valid, and what it sends and leaves of a limit is at most what was there and what it grants |
| Ics20Effects.EventSetsLimit | precompiles/ics20/approve_common.go:33-268 | the exact effect of each event on each limit |
| Ics20Effects.EventsCount | precompiles/ics20/approve_common.go:33-268 | what counts as sent and as granted in the bound: the amounts of exactly these events |
| Ics20.UsedUpIsFinal | precompiles/ics20/types.go:346-352 | over any run, a limit that is used up stays 0 until the next approval for its grant, and every increase or decrease of it is refused |
| Ics20.FullDecreaseIsFinal | precompiles/ics20/approve_common.go:159-223 | so it is, in any run, after a decrease by all that was left |
| Json.SortedKeysDescend | ethereum/eip712/types.go:226-246 | every key of the object once, in descending byte order |
| Json.AboveMeans | ethereum/eip712/types.go:241-243 | strings are compared at their first difference; without one the longer one is above |
| Json.LookupFirst | ethereum/eip712/types.go:79-86 | a name stands for its first field |
| Json.SortedListIsUnique | ethereum/eip712/types.go:226-246 | the order in which a Go map yields the keys does not matter |
| Json.DecimalInjective | ethereum/eip712/message.go:136-138 | different numbers print differently |
| Json.DecimalIsCanonical | ethereum/eip712/message.go:136-138 | decimal digits with their values and no leading zero |
| Eip712Names.SanitizeTypedef | ethereum/eip712/types.go:340-358 | the two loops write the parts of the prefix, titled and joined |
| Eip712Names.SplitFirst | ethereum/eip712/types.go:343-350 | a part ends at the first separator |
| Eip712Names.TitleLaw | ethereum/eip712/types.go:342-352 | only the first letter of a word changes, a small one to its capital |
| Eip712Names.SanitizedWords | ethereum/eip712/types.go:336-358 | the name for what is found under a_b and c: Type, then the three words with capital initials |
| Eip712Names.SanitizeAgain | ethereum/eip712/types.go:340-358 | sanitizing a returned name again does not change it |
| Eip712Names.NamesOfTypes | ethereum/eip712/types.go:251-257 | every name given to a type starts with Type and ends in a digit, so it is no built-in name |
| Eip712Types.DescribesKept | ethereum/eip712/types.go:145-222 | a description of an object stays right as long as earlier definitions are kept |
| Eip712Types.NewDefinition | ethereum/eip712/types.go:280-310 | defining the collected fields keeps the schema closed and makes the key describe the object |
| Eip712Types.DescribedNames | ethereum/eip712/types.go:145-246 | what a description says of the names: exactly those whose value has a type, each once, in descending order; the key is the sanitized prefix or the root type with a number below 1000 |
| Eip712Types.DescribedType | ethereum/eip712/types.go:164-219 | what a description says of a type: bool, int64, string, a key that describes the object below, or one of these with [] for the first element of an array, string[] for an empty one |
| Eip712Types.FirstName | ethereum/eip712/types.go:280-310 | the first of the names with 0 to 999 appended that is free or already stands for these fields |
| Eip712Types.TypesAreEqual | ethereum/eip712/types.go:322-334 | whether the two lists are the same |
| Eip712Types.TypeMap.AddTypesToRoot | ethereum/eip712/types.go:280-310 | the first of 1000 indexed names that is free or holds the same fields; fails exactly when there is none; no definition is overwritten |
| Eip712Types.TypeMap.TypeOfField | ethereum/eip712/types.go:164-219 | a type for every value but null and arrays of null or of arrays, and the right one |
| Eip712Types.TypeMap.CollectTypes | ethereum/eip712/types.go:151-220 | the typed fields of the object in descending order, each with its type |
| Eip712Types.TypeMap.RecursivelyAddTypesToRoot | ethereum/eip712/types.go:145-222 | the returned key describes the object, fields, order and sub-objects included; the schema stays closed and only grows; fails only on 1000 definitions of one name |
| Eip712Types.SchemaStep | ethereum/eip712/types.go:93-140 | one more message keeps the schema closed, the built-in types as they are, and all earlier descriptions |
| Eip712Types.MsgRootTypeOf | ethereum/eip712/types.go:117-131 | Type and what follows the last slash of the type field, which must be a string and not empty |
| Eip712Types.MessageMeans | ethereum/eip712/types.go:93-131 | a message is an object under msg and its number, with such a type field |
| Eip712Types.SchemaMeans | ethereum/eip712/types.go:37-89 | what a schema holds: the four built-in types as they are, one more field of Tx for each message, and beside them only names that start with Type |
| Eip712Types.SchemaIsClosed | ethereum/eip712/types.go:37-89 | every type that a schema uses, without a final [], is primitive or defined |
| Eip712Types.SchemaOfMessage | ethereum/eip712/types.go:133-140 | field 5 + i of Tx is msg and i, and names a type that describes that message |
| Eip712Types.FullIsLarge | ethereum/eip712/types.go:280-310 | when all names of a type are taken there are 1000 definitions beside the built-in ones |
| Eip712Types.ObjectsMetMeans | ethereum/eip712/types.go:145-222 | which objects of a message count: itself and those of its fields, of an array the first element |
| Eip712Types.AddMsgTypesToRoot | ethereum/eip712/types.go:93-113 | adds a message and its field in Tx; refuses what is no object or names no type |
| Eip712Types.CreateEip712Types | ethereum/eip712/types.go:37-89 | on success every type that a field names is defined, built-ins are unchanged, and Tx has a field for each message in order, whose type describes it; each field of each message has the type of its value; too many duplicates only if the messages hold more than 1000 objects, any other error only on something that is no message |
| Eip712Flatten.FlattenPayloadMessages | ethereum/eip712/message.go:71-149 | success exactly for an array of objects under msgs with no field msg0, ..., msg(n-1) there; the payload without msgs, the messages appended in order; which error otherwise |
| Eip712Flatten.CanFlattenMeans | ethereum/eip712/message.go:96-128 | when a payload can be flattened: objects in an array under msgs, and no field under msg0, msg1, ... yet |
| Eip712Flatten.FlattenedLayout | ethereum/eip712/message.go:71-149 | the fields in their order without the first msgs, then msg0, msg1, ... with the messages |
| Eip712Flatten.PayloadWithNewMessage | ethereum/eip712/message.go:112-132 | one message appended under its name, unless the name is taken or the message is no object |
| Eip712Flatten.FlattenedFields | ethereum/eip712/message.go:71-149 | message i is found as msg{i}, every other field as before, and msgs is gone if and only if the payload had it once |
| Eip712Flatten.OccurrencesMeans | ethereum/eip712/message.go:142-149 | once means that no two fields share the name |
| Eip712Flatten.FlattenThenRestore | ethereum/eip712/message.go:71-149 | putting the last n fields back under msgs gives a payload that agrees with the original on every name |
| Eip712Flatten.FlatteningLosesNothing | ethereum/eip712/message.go:71-149 | the flattened payload and the count determine what every name of the original stands for |
| Eip712Flatten.FlattenedHasMessages | ethereum/eip712/types.go:79-86 | after flattening the schema finds every message; it can only miss a type name |
| SigGas.Meter.ConsumeGas | types/gasmeter.go:58-74 | the counter goes up by the amount, or to zero with a panic when it would overflow |
| SigGas.Meter.RefundGas | types/gasmeter.go:82-88 | the counter goes down by the amount, or a panic and no change when there is less |
| SigGas.SetBitsAscend | app/ante/sigverify.go:73-76 | every set bit is visited once, in order |
| SigGas.SigVerificationGasConsumer | app/ante/sigverify.go:37-63 | outcome and counter are those of a single pass over the leaves under set bits, to any depth; for each kind of key that is no multisig, and a multisig key with a single signature, outcome and counter outright |
| SigGas.ConsumeMultisignatureVerificationGas | app/ante/sigverify.go:66-90 | the same for the leaves of one multisig |
| SigGas.ChargeByKind | app/ante/sigverify.go:37-63 | the pass for each kind of key: 21000 for an Ethereum key, the parameter and an error for ed25519, errors without a charge for another key and for a multisig key without a multisignature |
| SigGas.ChargeByBit | app/ante/sigverify.go:66-90 | the pass bit by bit: an unset bit changes nothing, a set one goes on with the key of its position and the next signature, or is out of range |
| SigGas.FlatMultisigCharge | app/ante/sigverify.go:66-90 | a multisig over Ethereum keys pays 21000 for each of its signatures |
| SigGas.ChargeClosed | app/ante/sigverify.go:37-90 | the pass in closed form: 21000 for each Ethereum key before the first other leaf, then what that leaf brings about |
| SigGas.WellFormedLeaves | app/ante/sigverify.go:66-90 | in a well-formed multisig no key or signature is missing, and the Ethereum leaves are the Ethereum keys under set bits |
| SigGas.MultisigCharge | app/ante/sigverify.go:66-90 | over Ethereum keys: success if and only if the counter does not overflow, and then 21000 for each key under a set bit |
| SigGas.WellFormedCharge | app/ante/sigverify.go:66-90 | over any keys: never an index out of range; on success all was paid for; on an error exactly the Ethereum keys before the offending one, and that one too if it is an ed25519 key |
| Topics.GenIntType | precompiles/common/abi.go:107-118 | the low bytes of the number at the end, extended with its sign |
| Topics.IntBytesNumber | precompiles/common/abi.go:107-118 | read as a number the topic is the value modulo 2^256 if and only if the value fits the size and a sign |
| Topics.MakeTopic | precompiles/common/abi.go:22-85 | the topic of every supported type, a panic for what needs more than 32 bytes, and an error for other types; hashes, texts, byte arrays, addresses and booleans byte by byte |
| Topics.TopicNumber | precompiles/common/abi.go:22-60 | sized integers, booleans and addresses become their value modulo 2^256 |
| Topics.TopicBytes | precompiles/common/abi.go:26-82 | the topic of a string is its hash, a byte array begins it, an address and a boolean end it, with zeros elsewhere |
| Topics.SignedRanges | precompiles/common/abi.go:38-45 | the ranges of the signed types |
| Topics.SignedTopicsAreInjective | precompiles/common/abi.go:38-45 | different values of a signed type have different topics |
| Topics.BigIntTopic | precompiles/common/abi.go:32-34 | the topic of a big integer is its absolute value; it is the value modulo 2^256 if and only if that is not negative or -2^255; a panic from 2^256 on |

## Left out

- IndexDrivers.RunCovers: of the records under the hashes of a block it says that they are there, not what they hold, because a later block may have repeated a hash (TxIndexLog.RepeatedHash).
- TxIndexLog.RunLookup: heights start at 1, because the entry of zeros at height 0 cannot be found (TxIndexLog.HeightZeroIsLost); TxIndexLog.InvisibleExactlyAtHeightZero says which entry that is.
- Eip712Names.SanitizeTypedef: the title caser is modelled on words of letters and digits only.
- Ics20.TransferTokens: the channel check and the check of the sender that come first are not modelled; they read nothing the grants depend on.
- Logging, error wording, event packing and wall-clock waits: no property hangs on them.
- Read and iterator errors of the database: the model's store always answers reads; failing writes are modelled.
- Decoding a transaction, `TxSucessOrExpectedFailure`, `ParseTxResult` and `isEthTx`: what they say about a transaction is an input of the model; a message of another type, which panics there, is not modelled.
- Unmarshal reads its input as a sequence, so aliasing between the input and the receiver's signature (which the source copies) is not modelled.
- Each field of the generated parsers has its own varint loop; the model has one, with the width of the accumulator as a parameter.
- Marshalling with a nil receiver, `MarshalTo`, `XXX_` wrappers and `String`: plumbing.
- Allow lists and packet data of an ICS-20 allocation are carried along; the checks on them and on identifier formats are inside the IBC library and enter Ics20.Approve and Ics20.Accept as flags.
- Revert of the EVM state after an error, balance journal entries and the static-call checks: the state database is not part of this model. A transferFrom that the bank refuses has charged the grant by then, which only the revert undoes.
- The `Decimals`, `Name` and `TotalSupply` queries and argument parsing of the precompiles: easy members around library calls.
- Dots and other path syntax of gjson in JSON names, Unicode title casing, and names whose words are split by other characters than `_`: library behaviour.
- Recovering from panics in the schema code: nothing in the model panics there.
- `PackNum`, `UnpackLog` and ABI loading: they sit on go-ethereum.
- Keccak is any function with 32-byte results; signature checks, key derivation and bech32 are left out.
- The staking, distribution, vesting and bank precompiles, the other generated codecs and the legacy EIP-712 encoder: easier cases of what is here, or driven by reflection.
