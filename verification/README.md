# Verified models of guru's transaction indexing, signing, fee, admission and token logic

guru is a Cosmos chain with an EVM, written in Go. This project models the parts of it that carry
the most logic, in Dafny, and proves what they are for. Each operation is stated as a function of
its inputs or of the state before it; where the original works by loops or by updating state, a
method or a class does the same and is proved equal to that function; and the laws are lemmas about
the functions, for every input and every run. `dafny verify dfyconfig.toml` checks the whole project.

| part | files | main results |
|---|---|---|
| protobuf codec | `Wire`, `Records`, `Groups`, `Fields`, `Grammar`, `TxResultCodec`, `Web3Codec` | `SkipExact`, `SkippedIsGuideRecord`, `RoundTrip`, `DecodeExactly`, `DecodePadded`, `DecodeConcat` |
| transaction index | `Order`, `Keys`, `KvIndexer`, `IndexRefinement`, `IndexerCmd` | `EntriesExact`, `HistoryRefines`, `PositionLookupConsistent`, `CommuteExactly`, `LookupsRightExactly`, `CatchUp`, `CatchUpFromEmpty` |
| typed-data schema | `Text`, `Json`, `Eip712Types`, `Eip712Schema`, `Eip712Message`, `Eip712Limits` | `TypedDataDescribesMessages`, `TypedDataSucceeds`, `SchemaSame`, `FlattenInjective` |
| fees | `Decimal`, `FeeChecker`, `Totals`, `DeductFee` | `CheckedBounds`, `CheckedFee`, `CheckedTip`, `PipelineWithin`, `DueMonotone`, `DueIsClose` |
| admission | `MonoAnte`, `Authz` | `AdmitsExactly`, `RunAdvances`, `AdmittedSums`, `AcceptsExactly` |
| tokens | `Erc20`, `IbcDenom`, `PreciseBank` | `ApproveSucceeds`, `AllowanceAccounts`, `RoundTrip`, `NativeComesHome`, `RunRefines`, `SupplyLaw` |

`Options` and `Outcomes` hold two datatypes that several parts share.

How the original's types are represented: byte slices are sequences of numbers below 256 (or an
array where a buffer is filled in place), and their lengths fit a signed 64-bit integer, as they do
in Go; integers are unbounded and every 32-bit or 64-bit truncation and wrap-around is written out;
decimals are integers scaled by 10^18; a key-value store is a map from byte strings; errors and
panics are values. Signature checks, hashes, clocks and modules that are not modelled appear as
parameters that may take any value, so that every result holds whatever they answer.

Where the code and its comments or a standard disagree, the model follows the code:

- The "Groups" section of the Protocol Buffers Encoding guide has a group end with the field number
  it started with. `skipIndexer` only counts open groups and looks at no field number, so that it
  skips the bytes 0x0B 0x14, a group opened by field 1 and closed by field 2
  (`Groups.SkipsMismatchedGroup`). `Groups.SkippedIsGuideRecord` says exactly when what is skipped is
  a record of the guide.
- `ante/cosmos/authz.go` describes a limit on nesting, but the level also grows with every earlier
  `MsgExec` in the same list, so that six empty ones side by side are refused
  (`Authz.SixSiblingsRefused`). `Authz.AcceptsExactly` gives the exact rule, `Authz.SiblingBound` a
  consequence for every list.
- `server/indexer_cmd.go` says that `backward` starts from the latest block when the database is
  empty; it starts one below, and on a chain of one block it does nothing
  (`IndexerCmd.BackwardMissesLatest`). `IndexerCmd.EmptyDatabase` says exactly when that makes a
  difference.
- `precompiles/erc20/tx.go` emits the allowance left after a `transferFrom` as zero, because an inner
  variable shadows the outer one (`Erc20.ApprovalEventDiffers` at an input, `Erc20.ApprovalEvent` in
  general). It checks the allowance by the name of the method and not by comparing caller and sender,
  and it refuses a transfer of zero, which the "Methods" section of EIP-20 asks to treat as a normal
  transfer (`Erc20.RefusedTransfers` at inputs, `Erc20.TransferSucceeds` and
  `Erc20.TransferFromSucceeds` in general).
- `gurud/ante/cosmos_fees.go` uses a "fixed" discount as the charge itself, so that it can raise the
  fee (`DeductFee.FixedDiscountRaisesFee` at an input, `DeductFee.FixedIsTheCharge` in general). A
  percentage is not limited to 100, and then the deduction can panic
  (`DeductFee.TwoHundredPercentPanics` at an input, `DeductFee.ExcessivePercent` in general).
- `ante/evm/mono_decorator.go` records the gas of the transaction once for each of its messages
  (`MonoAnte.TwoMessagesCountTwice` at an input, `MonoAnte.GasWantedRecorded` and
  `MonoAnte.RecordedOnceExactly` in general).

## Model

| member | source | states |
|---|---|---|
| `Wire.ReadVarint` | types/indexer.pb.go:226-239 | The decoding loop returns the value spelled by the bytes it consumes, truncated to the field's width, never reads out of range, and reports overflow and truncation as the scan of the input defines them. |
| `Wire.ScanFinds` | types/indexer.pb.go:226-239 | A varint in front of anything is consumed exactly, with the value it spells. |
| `Wire.ScanIsVarint` | types/indexer.pb.go:226-239 | Conversely, what the loop consumes is a varint. |
| `Wire.EncodeVarintCorrect` | types/indexer.pb.go:173-183 | Every 64-bit value is written as a varint that spells it. |
| `Wire.SovIsLength` | types/indexer.pb.go:214-216 | The size computed from the bit length is the number of bytes written. |
| `Wire.WriteVarint` | types/indexer.pb.go:173-183 | Writing backwards puts the encoding directly before the offset and leaves every other byte of the buffer as it was. |
| `Wire.WriteTagged` | types/indexer.pb.go:130-139 | A tag byte and its varint are written before the offset, and nothing else changes. |
| `Records.SkipPayload` | types/indexer.pb.go:425-475 | One payload is passed over as its wire type demands, with 64-bit signed indices that may overflow. |
| `Records.SkipItem` | types/indexer.pb.go:408-475 | One turn of the skip loop reads a tag and passes over its payload, or reports the error the scan defines. |
| `Records.Skip` | types/indexer.pb.go:404-481 | The skip loop terminates on every input and returns the end and the error of its specification. |
| `Records.SkipSound` | types/indexer.pb.go:404-481 | A record of the grammar, groups nested to any depth included, is skipped exactly, whatever follows it. |
| `Records.SkipExact` | types/indexer.pb.go:404-481 | The skipper accepts a prefix of its input if and only if that prefix is a record of the grammar: that of the encoding guide without its rules for field numbers, so that a group may end with any end tag. |
| `Records.SkipBadTag` | types/indexer.pb.go:425-473 | The end of a group that was not opened and wire types 6 and 7 are refused, each with its own error. |
| `Records.SkipBadLength` | types/indexer.pb.go:441-475 | A length that is negative or leads past the greatest 64-bit index is invalid. |
| `Records.SkipOpenGroup` | types/indexer.pb.go:404-481 | A group that is not closed, whatever records it holds, is an unexpected end. |
| `Records.FirstRecord` | types/indexer.pb.go:404-481 | A successful skip first passes over one complete record. |
| `Records.GroupIsRecords` | types/indexer.pb.go:461-479 | What is skipped inside a group is a sequence of records and an end tag, of whatever field number. |
| `Records.WireTypeIsLowBits` | types/indexer.pb.go:410-424 | The wire type is the low three bits of the first byte of the tag, even when the tag overflows 64 bits. |
| `Groups.GuideTagsExactly` | types/indexer.pb.go:404-481 | A record in front of the input has in-range field numbers and matching group tags at every depth if and only if a scan that keeps the numbers of the open groups accepts it. |
| `Groups.StrictExact` | types/indexer.pb.go:404-481 | That scan accepts a prefix if and only if the prefix is a record of the encoding guide. |
| `Groups.SkippedIsGuideRecord` | types/indexer.pb.go:461-479 | What the skipper passes over is a record of the encoding guide if and only if every field number is in range and every group ends with the number it started with. |
| `Groups.SkipsMismatchedGroup` | types/indexer.pb.go:461-467 | The bytes 0x0B 0x14 are skipped although they are no record of the encoding guide. |
| `Fields.ParseConcat` | types/indexer.pb.go:220-403 | If a byte string parses, appending another parses exactly when the other does, and the fields are those of the first followed by those of the second. |
| `Fields.ParseUnknown` | types/indexer.pb.go:383-396 | Records with field numbers the message does not know parse to nothing. |
| `Fields.ParseIgnoresUnknown` | types/indexer.pb.go:383-396 | Inserting any number of unknown records between two parts of an encoding changes neither success nor the fields. |
| `Fields.ParseVarintChunk` | types/indexer.pb.go:249-267 | A written varint field parses to one occurrence of the value written. |
| `Fields.ParseBytesChunk` | types/web3.pb.go:230-295 | A written length-delimited field parses to one occurrence of the bytes written. |
| `Grammar.ParseExactly` | types/indexer.pb.go:220-403 | The field loop accepts a byte string if and only if it is a sequence of records with positive field numbers in which every declared field has its declared wire type. |
| `Grammar.ParseRecords` | types/indexer.pb.go:220-403 | From such records it reads the occurrences of declared fields, in order. |
| `Grammar.ParseBadTag` | types/indexer.pb.go:223-251 | Records followed by a bad tag are read up to it, whatever comes after, and the error says what is wrong with the tag. |
| `Grammar.ParseBadLength` | types/web3.pb.go:230-262 | A declared length-delimited field is refused when its length is negative, leads past the greatest 64-bit index or leads past the input, each with its error; the records before it are read. |
| `Grammar.ParseCutFixed` | types/indexer.pb.go:383-396 | An unknown record of fixed size that breaks off is an unexpected end; the records before it are read. |
| `Grammar.ParseBadRun` | types/indexer.pb.go:226-239 | A run of continuation bytes in place of a tag is an unexpected end up to nine bytes and an overflow from ten on. |
| `Grammar.ParseCutShort` | types/indexer.pb.go:248-382 | A declared varint that is cut short, or still goes on after ten bytes, is read as far as it goes and reported as an unexpected end or an overflow; the records before it are read. |
| `TxResultCodec.Message.Size` | types/indexer.pb.go:184-212 | The computed size is the length of the encoding. |
| `TxResultCodec.SizeIsLength` | types/indexer.pb.go:184-212 | The length of the encoding is the sum of the field sizes, where negative heights and indices count as their 64-bit form. |
| `TxResultCodec.Message.MarshalToSizedBuffer` | types/indexer.pb.go:125-171 | Filling the buffer from its end writes exactly the encoding there, keeps all bytes before it and never writes out of range. |
| `TxResultCodec.Message.Marshal` | types/indexer.pb.go:110-118 | The fresh buffer holds exactly the encoding. |
| `TxResultCodec.Message.ReadField` | types/indexer.pb.go:248-382 | Each field takes the value read, truncated to its width and sign, also when the read fails. |
| `TxResultCodec.Message.UnmarshalField` | types/indexer.pb.go:223-397 | One turn of the loop sets a known field or skips an unknown record, or stops with the error of the specification. |
| `TxResultCodec.Message.Unmarshal` | types/indexer.pb.go:220-403 | On every byte string the loop terminates without reading out of range and leaves the message and the error that the specification gives. |
| `TxResultCodec.RoundTrip` | types/indexer.pb.go:110-403 | Decoding an encoding into a fresh message gives the message back, for every height and index, negative ones included. |
| `TxResultCodec.DecodeEncodeOnto` | types/indexer.pb.go:220-403 | Decoding onto an existing message overwrites exactly the fields that are present. |
| `TxResultCodec.DecodePadded` | types/indexer.pb.go:383-396 | Any unknown records before, between and after the fields of an encoding do not change what is decoded. |
| `TxResultCodec.DecodeConcat` | types/indexer.pb.go:220-403 | If x decodes, decoding x followed by y succeeds exactly when decoding y onto x's result does, with the same message: the last one wins. |
| `TxResultCodec.EncodeInjective` | types/indexer.pb.go:125-171 | Different messages have different encodings. |
| `TxResultCodec.EncodeEmpty` | types/indexer.pb.go:125-171 | The encoding is empty exactly for the all-zero message. |
| `TxResultCodec.EncodeCanonical` | types/indexer.pb.go:125-171 | The encoding is a sequence of records of fields 1 to 7 in ascending order, one for each field that is not zero, with one-byte tags and numbers in as few bytes as possible. |
| `TxResultCodec.DecodeExactly` | types/indexer.pb.go:220-403 | Bytes decode if and only if they are a sequence of records with positive field numbers in which fields 1 to 7 are varints, and then every field is that of its last record at its width and sign, or keeps its value. |
| `TxResultCodec.DecodeBadTag` | types/indexer.pb.go:223-251 | Such records followed by a bad tag are taken over, and decoding stops there: a closing group, a number that is not positive and a wrong wire type are told apart. |
| `TxResultCodec.DecodeCutShort` | types/indexer.pb.go:248-382 | Where a field is cut short or too long, the records before it are taken over and the field is left with what was read of it, except that the flag keeps its value. |
| `Web3Codec.Message.Size` | types/web3.pb.go:156-174 | The computed size is the length of the encoding. |
| `Web3Codec.Message.MarshalToSizedBuffer` | types/web3.pb.go:118-143 | The end of the buffer holds exactly the encoding, and all bytes before it are kept. |
| `Web3Codec.Message.Marshal` | types/web3.pb.go:103-111 | The fresh buffer holds exactly the encoding. |
| `Web3Codec.Message.UnmarshalField` | types/web3.pb.go:185-310 | One turn of the loop sets a known field or skips an unknown record, or stops with the error of the specification. |
| `Web3Codec.Message.Unmarshal` | types/web3.pb.go:182-316 | The loop terminates on every byte string and agrees with the specification in message and error. |
| `Web3Codec.RoundTrip` | types/web3.pb.go:103-316 | Decoding an encoding gives the message back, whatever the lengths of its string and bytes fields. |
| `Web3Codec.DecodePadded` | types/web3.pb.go:296-309 | Unknown records around the fields do not change what is decoded. |
| `Web3Codec.DecodeIgnoresUnknown` | types/web3.pb.go:296-309 | Unknown records alone decode to no change. |
| `Web3Codec.DecodeConcat` | types/web3.pb.go:182-316 | Decoding a concatenation is decoding its parts one after the other. |
| `Web3Codec.EncodeCanonical` | types/web3.pb.go:118-143 | The encoding is a sequence of records in ascending order, one for each field that is not zero or empty, with one-byte tags and numbers in as few bytes as possible. |
| `Web3Codec.DecodeExactly` | types/web3.pb.go:182-316 | Bytes decode if and only if they are a sequence of records with positive field numbers in which field 1 is a varint and fields 2 and 3 are length-delimited, and then every field is that of its last record, or keeps its value. |
| `Web3Codec.DecodeBadTag` | types/web3.pb.go:185-213 | Such records followed by a bad tag are taken over, and decoding stops there with the fault of the tag. |
| `Web3Codec.DecodeBadLength` | types/web3.pb.go:230-262 | Likewise when the length of field 2 or 3 is negative or leads past the input. |
| `Keys.TxHashKeyInjective` | indexer/kv_indexer.go:165-167 | Different hashes have different keys. |
| `Keys.TxIndexKeyInjective` | indexer/kv_indexer.go:170-174 | Different (block, index) pairs have different keys. |
| `Keys.KeyFamiliesDisjoint` | indexer/kv_indexer.go:165-174 | No hash key is an index key. |
| `Keys.BigEndianOrder` | indexer/kv_indexer.go:171-172 | The byte order of big-endian numbers is their numeric order. |
| `Keys.BigEndianRoundTrip` | indexer/kv_indexer.go:171-172 | Big-endian bytes read back as the number written. |
| `Keys.TxIndexKeyOrder` | indexer/kv_indexer.go:170-174 | Index keys are ordered by block, then index, both read as unsigned 64-bit numbers. |
| `Keys.TxIndexKeyOrderNonNegative` | indexer/kv_indexer.go:170-174 | For non-negative blocks and indices, key order is the order of (block, index). |
| `Keys.ParseIndexKey` | indexer/kv_indexer.go:227-233 | Parsing an index key gives back its block, negative or not. |
| `KvIndexer.KVIndexer.IndexBlock` | indexer/kv_indexer.go:52-124 | The writes of all indexed messages reach the database together, or nothing changes when the batch cannot be written. |
| `KvIndexer.IndexTx` | indexer/kv_indexer.go:82-118 | The message loop appends exactly the entries of this transaction and carries the running index on. |
| `KvIndexer.PositionsExact` | indexer/kv_indexer.go:59-119 | The positions visited are exactly the indexed messages, in strict (transaction, message) order. |
| `KvIndexer.EntriesExact` | indexer/kv_indexer.go:59-119 | The saved entries are exactly those of the messages of decodable Ethereum transactions with parsed events that have an event (code zero) or failed as expected; they are in block order and numbered 0, 1, ... whatever is skipped; each has the hash, position, outcome and gas of its message and, as cumulative gas, the 64-bit sum up to it within its transaction. |
| `KvIndexer.FailedTxCharged` | indexer/kv_indexer.go:93-112 | A transaction that failed as expected has all its messages indexed, whatever its events say, each as failed and charged its gas limit, with the sum of the limits as cumulative gas. |
| `KvIndexer.ParsedTxReported` | indexer/kv_indexer.go:93-112 | A transaction with code zero has exactly those messages indexed that its events mention, each with the outcome and gas of its event, and the 64-bit sum of the events' gas as cumulative gas. |
| `KvIndexer.KVIndexer.GetByTxHash` | indexer/kv_indexer.go:137-150 | The lookup reads the stored bytes, treating an empty value as missing. |
| `KvIndexer.KVIndexer.GetByBlockAndIndex` | indexer/kv_indexer.go:153-162 | The lookup follows the stored hash. |
| `KvIndexer.Seek` | indexer/kv_indexer.go:178-192 | The iterator stands on the least or greatest index key, and is invalid exactly when there is none. |
| `KvIndexer.LoadFirstBlock` | indexer/kv_indexer.go:190-200 | Returns the block of the least index key, or -1 when there is none. |
| `KvIndexer.LoadLastBlock` | indexer/kv_indexer.go:177-187 | Returns the block of the greatest index key, or -1 when there is none. |
| `IndexRefinement.ApplyRepresents` | indexer/kv_indexer.go:216-225 | Writing entries to the byte store is saving them in two plain maps, by hash and by position. |
| `IndexRefinement.HistoryRefines` | indexer/kv_indexer.go:52-124 | After any sequence of indexed blocks the byte store represents the two maps, and every position points to a present hash. |
| `IndexRefinement.LookupHashReads` | indexer/kv_indexer.go:137-150 | A hash lookup returns the map's value, except that the all-zero result reads as missing. |
| `IndexRefinement.LookupPositionReads` | indexer/kv_indexer.go:153-162 | A position lookup returns the hash lookup of the map's value. |
| `IndexRefinement.LastSaved` | indexer/kv_indexer.go:216-225 | The last result saved under a hash is the one found. |
| `IndexRefinement.OnlySaved` | indexer/kv_indexer.go:216-225 | Every result and every position in the maps was saved at some time, under that hash. |
| `IndexRefinement.PositionLookupConsistent` | indexer/kv_indexer.go:153-162 | If a hash is always indexed at the same position, however often, looking up (b, i) after any history returns height b and index i, in the result saved last under the hash, or nothing when nothing was saved there or that result is all zero. |
| `IndexRefinement.SaveKeepsConsistent` | indexer/kv_indexer.go:216-225 | Saving keeps position lookups right if and only if the hash is not already indexed at another position. |
| `IndexRefinement.LastPlaced` | indexer/kv_indexer.go:216-225 | The last hash saved at a position is the one the position points to. |
| `IndexRefinement.ConsistentExactly` | indexer/kv_indexer.go:216-225 | For every history, each position of the maps leads to a result of that position if and only if, for each position, the last result under the hash it points to is at that position. |
| `IndexRefinement.LookupsRightExactly` | indexer/kv_indexer.go:153-162 | For every history of blocks, all lookups by block and index in the bytes are right (what is found is of that block and index, and what was saved is found) under exactly that condition. |
| `IndexRefinement.IndexIsUnion` | indexer/kv_indexer.go:115-124 | Indexing a block adds a set of pairs that does not depend on the database. |
| `IndexRefinement.IndexIdempotent` | indexer/kv_indexer.go:52-124 | Indexing a block again changes nothing. |
| `IndexRefinement.BlockKeys` | indexer/kv_indexer.go:216-225 | A block writes one key for each of its hashes and index keys of its own height only. |
| `IndexRefinement.CommuteExactly` | indexer/kv_indexer.go:52-124 | Two blocks of different heights can be indexed in either order if and only if they share no hash. |
| `IndexRefinement.FirstBlockIsLeast` | indexer/kv_indexer.go:190-200 | The first block is -1 when nothing is indexed, and otherwise the least indexed block in the order of unsigned numbers. |
| `IndexRefinement.LastBlockIsGreatest` | indexer/kv_indexer.go:177-187 | The last block is -1 when nothing is indexed, and otherwise the greatest indexed block in the order of unsigned numbers. |
| `IndexRefinement.BlocksNonNegative` | indexer/kv_indexer.go:176-200 | When all indexed blocks are non-negative, first and last are -1 if and only if nothing is indexed, and otherwise the least and the greatest indexed block. |
| `IndexerCmd.IndexHeight` | server/indexer_cmd.go:68-82 | A height is indexed exactly when it is in the chain and nothing fails; otherwise the database is unchanged. |
| `IndexerCmd.Backward` | server/indexer_cmd.go:85-98 | The loop runs from below the first indexed block down to 1 and stops at the first error. |
| `IndexerCmd.Forward` | server/indexer_cmd.go:99-112 | The loop runs from above the last indexed block up to the height of the chain and stops at the first error. |
| `IndexerCmd.WrittenChain` | server/indexer_cmd.go:68-82 | The blocks of a chain with distinct heights and hashes write separate keys. |
| `IndexerCmd.BackwardConverges` | server/indexer_cmd.go:85-98 | From a database that holds exactly heights a..b, a backward run leaves exactly a'..b with a' at most a, and 1..b when it completes. |
| `IndexerCmd.ForwardConverges` | server/indexer_cmd.go:99-112 | Likewise a forward run leaves exactly a..b', up to the height of the chain when it completes. |
| `IndexerCmd.BackwardStops` | server/indexer_cmd.go:85-98 | A backward run indexes every height between the first one that fails, going down, and the first indexed block, and completes if and only if none fails. |
| `IndexerCmd.ForwardStops` | server/indexer_cmd.go:99-112 | Likewise a forward run, going up to the height of the chain. |
| `IndexerCmd.EmptyStops` | server/indexer_cmd.go:85-112 | On an empty database a backward run starts one below the latest height and a forward run at 1; each stops at its first failure. |
| `IndexerCmd.HistoryConverges` | server/indexer_cmd.go:84-112 | Any history of runs, interrupted or completed and in either direction, leaves exactly one range of heights around the original one: down to 1 once a backward run has completed, up to the height of the chain once a forward run has; backward runs alone do not move its upper end, forward runs alone not its lower end. |
| `IndexerCmd.CatchUp` | server/indexer_cmd.go:68-112 | On a valid chain whose heights a..b are indexed, any number of interrupted backward runs and a completed one give exactly what indexing blocks 1..b gives, forward runs exactly a..H, and a completed run in each direction exactly the whole chain. |
| `IndexerCmd.EmptyDatabase` | server/indexer_cmd.go:90-93 | On an empty database a completed forward run indexes everything, and a completed backward run everything but the latest block; the results agree if and only if the latest block has nothing to index. |
| `IndexerCmd.BackwardMissesLatest` | server/indexer_cmd.go:90-98 | On a chain of one block with a transaction, a backward run from an empty database completes without indexing it. |
| `IndexerCmd.HistoryFromEmpty` | server/indexer_cmd.go:84-112 | Any history of runs from an empty database, interrupted or not, leaves the index of exactly one range of heights, and of the whole chain once a run in each direction has completed; forward runs alone leave a range from 1, backward runs alone one that ends below the latest height. |
| `IndexerCmd.CatchUpFromEmpty` | server/indexer_cmd.go:68-112 | On a valid chain and an empty database, a completed history of forward runs gives what indexing all blocks gives, one of backward runs what indexing all but the latest gives. |
| `IndexerCmd.LatestMatters` | server/indexer_cmd.go:90-93 | Leaving out the latest block makes no difference exactly when it writes nothing. |
| `Text.SortDescending` | ethereum/eip712/types.go:239-241 | Sorting yields the same keys in strictly descending order. |
| `Text.DescendingUnique` | ethereum/eip712/types.go:239-241 | There is only one strictly descending list of a set of keys. |
| `Text.ItoaInjective` | ethereum/eip712/message.go:139-141 | Different numbers have different decimal texts. |
| `Text.ItoaSpells` | ethereum/eip712/message.go:139-141 | A number is written with the decimal digits that spell it, without leading zeros. |
| `Eip712Types.SanitizeTypedef` | ethereum/eip712/types.go:338-356 | The nested loops compute the sanitized name. |
| `Eip712Types.SanitizeSubField` | ethereum/eip712/types.go:334-356 | Path components are sanitized one by one. |
| `Eip712Types.SanitizeWords` | ethereum/eip712/types.go:334-356 | A component of any number of words separated by underscores becomes its words, capitalised and joined. |
| `Eip712Types.SanitizeKey` | ethereum/eip712/types.go:334-356 | A key loses its underscores, and its first letter and the first letter after each of them are raised; a lone underscore becomes the root name. |
| `Eip712Types.UpperLetters` | ethereum/eip712/types.go:340-351 | The 26 small letters become the capital ones, and nothing else changes. |
| `Eip712Types.SubFieldIsPath` | ethereum/eip712/types.go:267-269 | Names derived from paths of plain keys are alphanumeric and start with a capital. |
| `Eip712Types.SanitizeFixed` | ethereum/eip712/types.go:201 | Sanitizing a sanitized name with its index again leaves it unchanged, so nested references resolve. |
| `Eip712Types.FirstFit` | ethereum/eip712/types.go:283-303 | The probe finds the first index whose name is free or already stands for the same fields, in at most 1000 steps. |
| `Eip712Types.AddType` | ethereum/eip712/types.go:278-308 | Adding a type fails if and only if all 1000 names stand for other fields; otherwise it is stored under the first name that is free or stands for the same fields, and nothing else changes. |
| `Eip712Types.AddTypesDescribes` | ethereum/eip712/types.go:143-220 | The type returned for an object recursively describes it: exactly its typable members, in descending key order, booleans as bool, numbers as int64, strings as string, arrays by their first element and nested objects by a type named after their path in capitalised words with an index below 1000; no type is redefined and no reference is left dangling. |
| `Eip712Types.DescribesStable` | ethereum/eip712/types.go:143-220 | A description stays true while later types are added. |
| `Eip712Schema.SortedJsonKeys` | ethereum/eip712/types.go:224-244 | Whatever order the map iteration takes, the result is the one descending list of the keys; anything but an object is an error. |
| `Eip712Schema.TypesAreEqual` | ethereum/eip712/types.go:320-332 | The loop decides equality of the two lists. |
| `Eip712Schema.TypeTable.AddTypesToRoot` | ethereum/eip712/types.go:278-308 | The probing loop has the outcome and the table of the specification. |
| `Eip712Schema.TypeTable.RecursivelyAdd` | ethereum/eip712/types.go:143-220 | The recursive walk has the outcome and the table of the specification. |
| `Eip712Schema.TypeTable.AddSubField` | ethereum/eip712/types.go:162-216 | One turn of the walk's loop adds the field of one member, or none. |
| `Eip712Schema.TypeTable.AddMsgTypesToRoot` | ethereum/eip712/types.go:91-111 | A message adds its types and one field of the transaction type, or is refused. |
| `Eip712Schema.CreateEip712Types` | ethereum/eip712/types.go:35-87 | The loop over the messages returns the table of the specification or its error. |
| `Eip712Schema.RootTypeOf` | ethereum/eip712/types.go:115-128 | The type name of a message is what follows the last slash of its type, or the whole type when it has no slash. |
| `Eip712Schema.MsgFieldInjective` | ethereum/eip712/message.go:139-141 | Different messages have different fields. |
| `Eip712Schema.SchemaDescribes` | ethereum/eip712/types.go:77-86 | The finished table has the domain, fee and coin types, and a transaction type with the five base fields and then, for each message in order, a field msg0, msg1, ... whose type describes the message and is named after its type; every type mentioned is defined. |
| `Eip712Schema.SchemaSame` | ethereum/eip712/types.go:224-244 | The whole table depends on the document only up to the order in which object members are listed, at every depth. |
| `Eip712Message.FlattenPayloadMessages` | ethereum/eip712/message.go:70-92 | Flattening succeeds if and only if the messages are null or an array of objects none of whose needed keys exists, and then appends one member per message and removes the first `msgs` member. |
| `Eip712Message.FlattenedGet` | ethereum/eip712/message.go:70-152 | In the result message i is found under its key, every other key but `msgs` keeps its value, and the message keys were free before. |
| `Eip712Message.MsgsRemoved` | ethereum/eip712/message.go:145-152 | No `msgs` member is left if and only if there was exactly one. |
| `Eip712Message.FlattenInjective` | ethereum/eip712/message.go:70-152 | Two payloads flatten to the same payload and count if and only if they have the same messages and the same list of other members, in order. |
| `Eip712Message.NullFlattensLikeEmpty` | ethereum/eip712/message.go:93-111 | A null and an empty list of messages flatten alike, so that which of the two it was is lost. |
| `Eip712Message.TypedDataDescribesMessages` | ethereum/eip712/eip712.go:9-34 | Whenever typed data is produced, its schema is closed, has the base types, and describes each message of the original payload, in order and under the name msg0, msg1, ... |
| `Eip712Message.FlattenSucceeds` | ethereum/eip712/message.go:70-141 | Flattening succeeds if and only if the messages are a list of objects, or null, and none of the keys msg0, msg1, ... exists. |
| `Eip712Limits.AddTypeRoom` | ethereum/eip712/types.go:278-308 | A type can be added while fewer than 1000 indexed names are taken, and takes at most one more. |
| `Eip712Limits.SchemaSucceeds` | ethereum/eip712/types.go:35-128 | A schema can be built only if every message is an object with a non-empty type; as long as the messages hold at most 1000 objects, if and only if. |
| `Eip712Limits.TypedDataSucceeds` | ethereum/eip712/eip712.go:9-34 | The same for the messages of a payload that can be flattened. |
| `Eip712Limits.OneTooMany` | ethereum/eip712/types.go:283-303 | The limit is sharp: 1001 well-typed messages of one object each, all of one type name, have no schema. |
| `Decimal.CeilOfSum` | ante/evm/fee_checker.go:112-121 | Rounded-up sums differ from rounded-up parts by the floor or the ceiling of the other part. |
| `Decimal.ChopMonotone` | gurud/ante/cosmos_fees.go:94 | Rounding half to even is monotone. |
| `FeeChecker.Check` | ante/evm/fee_checker.go:53-142 | The checker, with its search for the first dynamic-fee option, returns the verdict of the specification. |
| `FeeChecker.CheckedAccepts` | ante/evm/fee_checker.go:89-106 | A transaction is accepted if and only if its tip cap is not negative, it asks for gas, and its offer covers the base fee for all of it. |
| `FeeChecker.CheckedFee` | ante/evm/fee_checker.go:102-118 | The fee is what base fee and tip cap add up to, unless the offer is lower, and then the offer less what the truncated price cannot represent. |
| `FeeChecker.CheckedBounds` | ante/evm/fee_checker.go:102-132 | The rounded-up base fee is at most the effective fee, which is at most the offer; the tip is zero or strictly below the fee and then leaves the base fee up to rounding. |
| `FeeChecker.CheckedTip` | ante/evm/fee_checker.go:110-132 | At the effective price the fee is the price for all the gas, rounded up, and the tip what the price exceeds the base fee by, rounded up; it counts as zero exactly when it would be the whole fee or the price is the base fee. |
| `FeeChecker.TipCapIsFirst` | ante/evm/fee_checker.go:73-88 | The tip cap is that of the first dynamic-fee option, zero if it names none, and the greatest 64-bit number without such an option. |
| `FeeChecker.CheckedPriority` | ante/evm/fee_checker.go:134-139 | The priority is the tip per gas in units of the reduction, rounded down once, or the greatest 64-bit value. |
| `DeductFee.Deduct` | gurud/ante/cosmos_fees.go:87-110 | The loops over the coins compute the deduction of the specification, or panic where it says so. |
| `DeductFee.ChargeCoins` | gurud/ante/cosmos_fees.go:90-105 | Each coin of the base fee is charged once, in whatever order. |
| `DeductFee.ChargeWithin` | gurud/ante/cosmos_fees.go:94-97 | A percentage between 0 and 100 charges between nothing and the full amount. |
| `DeductFee.ChargeMonotone` | gurud/ante/cosmos_fees.go:94-97 | A larger percentage never charges more. |
| `DeductFee.ChargeIsClose` | gurud/ante/cosmos_fees.go:94-97 | The charge is within 1 + amount * 10^-18 / 2 of the exact rational value. |
| `DeductFee.DeductedWithin` | gurud/ante/cosmos_fees.go:84-110 | With no discount or a percentage between 0 and 100, the subtraction never goes negative and in every denomination tip <= deduction <= fee. |
| `DeductFee.ExcessiveTipsPanic` | gurud/ante/cosmos_fees.go:88 | Tips that exceed the fee in some denomination make the subtraction panic, whatever the discount. |
| `DeductFee.PaidMonotone` | gurud/ante/cosmos_fees.go:84-110 | The deduction never grows with the percentage, in any denomination. |
| `DeductFee.PaidEnds` | gurud/ante/cosmos_fees.go:84-110 | No discount and 0% charge the whole fee, 100% charges only the tips. |
| `DeductFee.PipelineWithin` | gurud/ante/cosmos_fees.go:62-110 | From the offer to the deduction: tip <= deduction <= effective fee <= offer, and no other denomination is charged. |
| `DeductFee.ExcessivePercent` | gurud/ante/cosmos_fees.go:94-99 | A percentage makes the deduction panic if and only if, for some coin, its excess over 100 rounded to 18 digits reaches the least share that makes a whole unit of the amount. |
| `DeductFee.NoPanicUpToHundred` | gurud/ante/cosmos_fees.go:94-99 | A percentage of at most 100 never makes the deduction panic. |
| `DeductFee.TwoHundredPercentPanics` | gurud/ante/cosmos_fees.go:94-99 | A discount of 200% on a fee of 100 panics. |
| `DeductFee.FixedIsTheCharge` | gurud/ante/cosmos_fees.go:101-105 | A fixed discount lowers the fee of a denomination if and only if its whole part is at most the base fee, or there is no base fee; it panics if and only if it is at most -1 and there is a base fee. |
| `DeductFee.FixedDiscountRaisesFee` | gurud/ante/cosmos_fees.go:101-105 | A fixed discount of 50 on a fee of 10 charges 50. |
| `DeductFee.Ledger.CheckDeductFee` | gurud/ante/cosmos_fees.go:122-176 | The fee moves to the collector from the granter if there is one, else from the payer, if and only if grants are enabled and allow it, the account exists and each positive amount is covered; otherwise nothing changes. |
| `DeductFee.SendCoins` | gurud/ante/cosmos_fees.go:158-164 | Coins are moved all or not at all. |
| `DeductFee.Ledger.AnteHandle` | gurud/ante/cosmos_fees.go:45-120 | The decorator, with the dynamic fee checker in it, charges exactly what is due if and only if the transaction is accepted, nothing panics, and the payer may and can pay; otherwise no balance changes. |
| `DeductFee.DueWithinOffer` | gurud/ante/cosmos_fees.go:62-110 | Under the dynamic fee and a proper discount nothing panics, what is due is at most the offer, and it is all in the fee denomination. |
| `DeductFee.DueExactly` | gurud/ante/cosmos_fees.go:62-110 | Under the dynamic fee and a proper discount something is due if and only if the tip cap is not negative, gas is asked for and the offer covers the base fee. |
| `DeductFee.DueByRule` | gurud/ante/cosmos_fees.go:45-68 | Under any other fee rule something is due if and only if the rule says so and, after genesis, the transaction asks for gas. |
| `DeductFee.DueEnds` | gurud/ante/cosmos_fees.go:62-110 | Simulated or not, no discount and 0% make the whole fee due and 100% only the tip; a simulation goes by the offered fee and has no tip. |
| `DeductFee.DueMonotone` | gurud/ante/cosmos_fees.go:62-110 | A larger percentage never makes more due, in any denomination, simulated or not. |
| `DeductFee.DueIsClose` | gurud/ante/cosmos_fees.go:62-110 | At a percentage p the tip and (fee - tip) * (100 - p) / 100 are due, up to an error below one and half of 10^-18 of the base, simulated or not. |
| `DeductFee.DueFixed` | gurud/ante/cosmos_fees.go:62-110 | A fixed amount is due with the tip wherever there is a base fee, simulated or not. |
| `DeductFee.ChargedBalances` | gurud/ante/cosmos_fees.go:158-164 | A charge takes the fee from its source, gives it to the collector and leaves all other balances. |
| `DeductFee.FeeConserves` | gurud/ante/cosmos_fees.go:158-164 | Charging a fee does not change the supply of any denomination. |
| `MonoAnte.MonoDecorator.IncrementNonce` | ante/evm/09_increment_sequence.go:13-37 | The nonce must equal the sequence, which then advances by one. |
| `MonoAnte.MonoDecorator.CheckGasWanted` | ante/evm/10_gas_wanted.go:48-82 | The declared gas must fit the block, and is added to the block's gas wanted when base fees are enabled. |
| `MonoAnte.MonoDecorator.HandleMsg` | ante/evm/mono_decorator.go:80-243 | One turn of the loop has the effect and the tally of the specification, or fails. |
| `MonoAnte.MonoDecorator.AnteHandle` | ante/evm/mono_decorator.go:51-255 | The decorator admits a transaction exactly when the specification does, with its tally; a refused transaction leaves the state unchanged. |
| `MonoAnte.TallySums` | ante/evm/mono_decorator.go:212-218 | Over the loop fees add up exactly and gas limits add up as unsigned 64-bit numbers. |
| `MonoAnte.TallyWanted` | ante/evm/08_gas_consume.go:19-36 | Over the loop capped gas adds up as unsigned 64-bit numbers. |
| `MonoAnte.TallyLeast` | ante/evm/08_gas_consume.go:86-97 | The running priority is the least of the messages' priorities. |
| `MonoAnte.AdmittedSums` | ante/evm/mono_decorator.go:245-252 | An admitted transaction declares, unless rechecked, the sums of its messages' fees and gas limits; its priority is their least and its capped gas is within the block limit. |
| `MonoAnte.AdmitsExactly` | ante/evm/mono_decorator.go:51-255 | A transaction is admitted if and only if it is valid or only rechecked; each message passes its own checks, has the next nonce of its sender counting the messages before it, and can be paid after them; the declared gas fits the block once the fork is active; fee and gas are declared as the sums over the messages unless rechecked; and the gas wanted, capped in CheckTx only, fits the block. |
| `MonoAnte.GasWantedRecorded` | ante/evm/10_gas_wanted.go:48-82 | The block's gas wanted grows by the declared gas once for each message. |
| `MonoAnte.RecordedOnceExactly` | ante/evm/10_gas_wanted.go:48-82 | An admitted transaction has its declared gas recorded once if and only if the gas of its other messages is a multiple of 2^64, and nothing is recorded when base fees are off. |
| `MonoAnte.TwoMessagesCountTwice` | ante/evm/mono_decorator.go:235-238 | A transaction with two messages that declares 42000 gas has 84000 recorded. |
| `MonoAnte.RunAdvances` | ante/evm/mono_decorator.go:51-255 | Over every run and any mix of senders, each sender's admitted nonces count up from its sequence without gap or repetition, it pays exactly the fees of its admitted messages, and no coin is created or lost. |
| `MonoAnte.NoReplay` | ante/evm/09_increment_sequence.go:13-37 | Until a sequence reaches 2^64, admitted nonces are strictly consecutive. |
| `Authz.IsDisabledMsg` | ante/cosmos/authz.go:81-89 | The search decides membership in the disabled list. |
| `Authz.CheckDisabledMsgs` | ante/cosmos/authz.go:44-77 | The recursive check with its growing level decides the specification. |
| `Authz.AcceptsExactly` | ante/cosmos/authz.go:44-77 | A transaction is accepted if and only if, at every position, grants and nested messages are readable and not disabled, and for every MsgExec the sum along its chain of one plus the earlier MsgExec siblings is at most 5. |
| `Authz.RejectMessages` | ante/cosmos/reject_msgs.go:23-33 | The loop accepts exactly the lists without the rejected type. |
| `Authz.NoEthereumTxInside` | gurud/ante/cosmos_handler.go:17-21 | What passes both decorators holds no Ethereum transaction at any depth. |
| `Authz.DepthBound` | ante/cosmos/authz.go:13-14 | MsgExecs nest at most five deep. |
| `Authz.SiblingBound` | ante/cosmos/authz.go:44-57 | No list of an accepted transaction, at any depth, holds more MsgExecs than the chain to it has left of the limit of five. |
| `Authz.SixSiblingsRefused` | ante/cosmos/authz.go:44-57 | Six empty MsgExecs side by side are refused. |
| `Erc20.Precompile.SetAllowance` | x/erc20/keeper/allowance.go:76-130 | The store keeps positive values, deletes on zero, and refuses bad pairs, addresses and values. |
| `Erc20.Precompile.ApproveCall` | precompiles/erc20/approve.go:27-71 | The five cases of an approval have the effect of the specification. |
| `Erc20.ApproveSucceeds` | precompiles/erc20/approve.go:42-71 | An approval fails if and only if it lowers an allowance of zero, or the allowance has to change but the pair is unusable, an address is zero or the amount is too large; otherwise the allowance becomes the amount, or zero if that is negative, one event states the amount, and nothing else changes. |
| `Erc20.Precompile.TransferCall` | precompiles/erc20/tx.go:76-154 | Both kinds of transfer have the effect of the specification, step by step. |
| `Erc20.Precompile.Send` | precompiles/erc20/tx.go:121-143 | Coins move, the mirrored balances follow for the coin of the EVM, and the event is emitted. |
| `Erc20.TransferEffect` | precompiles/erc20/tx.go:121-143 | A transfer takes the amount from the sender, gives it to the recipient, emits one event and leaves the allowances alone. |
| `Erc20.Precompile.Run` | precompiles/erc20/tx.go:40-71 | A call has its specified effect, or none when it fails. |
| `Erc20.RunKeeps` | precompiles/erc20/tx.go:76-154 | Over every run the supply is constant, stored allowances are positive 256-bit numbers and no balance is negative. |
| `Erc20.BalanceAccounts` | precompiles/erc20/tx.go:121-125 | Over every run each balance changes by exactly what successful transfers move in and out. |
| `Erc20.AllowanceAccounts` | precompiles/erc20/tx.go:96-119 | At any time the allowance plus what transferFrom has moved since the last approval equals the amount last approved. |
| `Erc20.NeverOverspent` | precompiles/erc20/tx.go:104-107 | A spender never moves more than was last approved. |
| `Erc20.MirrorFollows` | precompiles/erc20/tx.go:127-139 | Over every run the mirrored balance of each account moves with its converted bank balance, modulo 2^256; other tokens do not touch the mirror. |
| `Erc20.ApprovalEvent` | precompiles/erc20/tx.go:94-151 | The emitted approval is zero, and equals the stored allowance if and only if the whole allowance was spent. |
| `Erc20.ApprovalEventDiffers` | precompiles/erc20/tx.go:94-151 | With an allowance of 5, moving 2 emits an approval of zero while 3 is stored. |
| `Erc20.RefusedTransfers` | precompiles/erc20/tx.go:85-107 | An account with coins cannot transfer zero, nor use transferFrom on itself without an allowance. |
| `IbcDenom.GetReceivedCoin` | ibc/utils.go:70-94 | Receiving never changes the amount or the base denomination. |
| `IbcDenom.ReverseRestores` | ibc/utils.go:70-94 | Sending a received token straight back restores it if and only if its trace did not start with the source hop followed by the destination hop. |
| `IbcDenom.SendKeeps` | ibc/utils.go:70-94 | A transfer keeps the trace free of a hop followed by its counterparty end, and keeps its home chain, base and amount. |
| `IbcDenom.SendBack` | ibc/utils.go:70-94 | On any network of paired channel ends, a transfer is undone by the transfer back. |
| `IbcDenom.RouteKeeps` | ibc/utils.go:70-94 | The same invariants hold along every route. |
| `IbcDenom.RoundTrip` | ibc/utils.go:70-94 | Any route followed by its reversal restores chain, trace and amount. |
| `IbcDenom.Unwind` | ibc/utils.go:75-86 | Following its own trace brings a token home as the native token. |
| `IbcDenom.NativeComesHome` | ibc/utils.go:70-94 | A native token can be brought back from wherever any route has taken it, unchanged. |
| `PreciseBank.Keeper.SendExtendedCoins` | x/precisebank/keeper/send.go:148-254 | The transfer with its borrow and carry cases has the outcome of the specification. |
| `PreciseBank.Keeper.MintExtendedCoin` | x/precisebank/keeper/mint.go:99-216 | Minting with its carry and remainder cases has the outcome of the specification. |
| `PreciseBank.Keeper.BurnExtendedCoin` | x/precisebank/keeper/burn.go:82-187 | Burning with its borrow and remainder cases has the outcome of the specification. |
| `PreciseBank.PutTotal` | x/precisebank/keeper/fractional_balance.go:33-70 | Storing a fraction, where zero deletes, changes the sum of the fractions by the difference. |
| `PreciseBank.SentSucceeds` | x/precisebank/keeper/send.go:148-254 | With an exact reserve a transfer never panics, and it succeeds if and only if the sender's extended balance covers the amount, or sender and recipient are the same. |
| `PreciseBank.BrokenReserve` | x/precisebank/keeper/send.go:148-253 | On states that are not backed: a send panics when a stored fraction is not below the conversion factor or the empty reserve has to give a coin, where minting and burning fail. |
| `PreciseBank.SentBalance` | x/precisebank/README.md:164-176 | The sender's extended balance falls and the recipient's grows by the amount; no other balance changes. |
| `PreciseBank.SentBacked` | x/precisebank/README.md:178-200 | A transfer keeps the reserve equal to the sum of all fractions plus the remainder. |
| `PreciseBank.MintedWhen` | x/precisebank/keeper/mint.go:99-216 | With an exact reserve minting always succeeds. |
| `PreciseBank.MintedBalance` | x/precisebank/keeper/mint.go:99-216 | Minting adds the amount to the recipient's extended balance only. |
| `PreciseBank.MintedBacked` | x/precisebank/keeper/mint.go:99-216 | Minting keeps the reserve exact. |
| `PreciseBank.BurnedWhen` | x/precisebank/keeper/burn.go:82-187 | With an exact reserve burning never panics and succeeds exactly when the account's whole coins cover the amount and its borrow. |
| `PreciseBank.BurnedBalance` | x/precisebank/keeper/burn.go:82-187 | Burning takes the amount from the account's extended balance only. |
| `PreciseBank.BurnedBacked` | x/precisebank/keeper/burn.go:82-187 | Burning keeps the reserve exact. |
| `PreciseBank.StepRefines` | x/precisebank/keeper/send.go:148-254 | Every operation succeeds, fails and acts like the same operation on plain balances. |
| `PreciseBank.RunRefines` | x/precisebank/README.md:62-115 | Along every run of transfers, mints and burns the reserve stays exact and the split balances are those of a plain ledger. |
| `PreciseBank.SupplyLaw` | x/precisebank/README.md:93-113 | The extended supply is the converted supply of the whole coin less the remainder, which is less than one whole coin. |

## Left out

- The HTTP oracle under `oralce/`, the indexer service of `server/indexer_service.go`, RPC, CLI, key management and application wiring.
- Amino and legacy typed-data encodings under `ethereum/eip712`, and the generated codecs of other messages, which have the shape of the two modelled here.
- AddTypesDescribes: is about documents whose object keys consist of letters, digits and underscores; other keys have a special meaning in the path syntax of the JSON library or depend on Unicode title casing, neither of which is modelled.
- SchemaDescribes: likewise.
- SchemaSucceeds: for messages of more than 1000 objects only the necessary half is stated; whether names run out then depends on which types coincide, one name at a time (`Eip712Types.AddType`).
- TypedDataDescribesMessages: likewise.
- CatchUp: is about a fixed chain whose blocks share no transaction hash, and so are the other results about `backward` and `forward`.
- The texts of errors, gas metering and events other than those of the ERC-20 precompile.
- Parsing of JSON text and of Ethereum transactions: the index starts from decoded transactions and parsed events, the schema from JSON values.
- Iterator and database errors in the lookups and in `LoadFirstBlock` and `LoadLastBlock`.
- The bit-length limits of the decimal and integer library, beyond which the original panics.
- The fee rule before the London fork and for genesis transactions, whose answer is a parameter of `DeductFee`, and the multi-coin priority helpers.
- Which discount the fee policy selects: any discount is allowed.
- Locked coins: an account can spend its whole balance in `DeductFee`, `Erc20` and `PreciseBank`; other reasons for the bank to refuse a transfer are a parameter in `Erc20`.
- How the signature, price and balance checks of an Ethereum message, its charged fee and its priority are computed: `MonoAnte` takes them as parameters of the message.
- The hash that turns a denomination trace into the name of a coin: `IbcDenom` works on traces.
- Transfers from or to the reserve account of the extended bank, which its callers refuse, and coins of other denominations, which are passed through to the bank.
- Order of coins in a list: `DeductFee` keeps amounts by denomination.
