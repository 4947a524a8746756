# A verified model of the go-wire codec

go-wire encodes and decodes the messages of the Bitcoin (BSV) wire protocol. This
project models its hard core in Dafny and proves what that core promises: the two
transaction decoders and the memory they share, the block decoder and its arena, the
block index, the framing layer with its two readers, and the version message with its
optional trailing fields.

## How the model is built

* **Wire formats** are pure parsers and printers over byte sequences (`VarInts`,
  `Transactions`, `ExtendedTransactions`, `Blocks`, `Versions`, `Frames`). A parser takes
  the stream and a position and gives either a value and the next position, or an error
  kind and the position reached. Every format has one law, in both directions: a parse
  succeeds with `x` exactly when `x` is within the decoder's limits and its encoding stands
  at that position. A second law says that a parser sees only the bytes from its position on.
* **The wire itself** is described a second time, byte by byte and in plain numbers, without
  the printers: which byte is which digit of which field (`WireLayout`), what a frame header
  is and which frames are returned or refused with which error (`FrameVerdicts`), which
  streams a decoder refuses for which limit (`Refusals`), and what a stream that ends too
  early gives (`Endings`). The parsers and printers are proved to agree with these
  descriptions in both directions.
* **Imperative code** keeps its form and is proved against those functions. Go slices are
  windows (array, offset, length, capacity) over heap arrays (`Memory`). Readers are classes
  with a position, a limit and a tee (`Streams`). The arena, the script pool and the
  messages are classes that are updated in place (`Arenas`, `ScriptPools`, `TxMemory`,
  `ArenaDecoding`, `PoolDecoding`, `ExtPoolDecoding`, `BlockIndex`, `Copying`,
  `VersionCodec`, `Writing`, `FrameIO`). `Denotation` says which transaction a message in
  memory is.
* **Concurrency**: any number of decoders, plain and extended, sharing the pool is a state
  machine whose steps are one channel operation, one write into a borrowed buffer, or local
  work (`Interleaving`). `PoolFlow` proves what a step does to the buffers,
  `DecodeProgress` that a step follows the parser, `PoolSafety` what every schedule
  keeps, and `OldScripts` what happens with receivers that are not empty. `PoolSimulation`
  ties the pool of the state machine to the free list on the heap, operation by operation
  and down to the bytes in the buffers. `TxForms` puts the two formats under one parser.
* SHA-256, UTF-8 validity, the excessive block size and the message types without a codec
  here are parameters (`Frames.Env`); they are arbitrary functions in every theorem.

## Where the code and what is said about it part ways

The model follows the code. Each of these is a proved statement:

* The memory of a spent output's script is never handed back by the extended decoder, on
  success or failure, while the comments say that all buffers are. The pool loses no buffer
  exactly when every input that can be read completely has a spent script of more than 512
  bytes, which the pool has no buffer for (`ExtPoolDecoding.DecodeExtTx`,
  `ExtPoolDecoding.LosesNoBuffer`, `ExtPoolDecoding.LeakingStream`). That the memory stays
  out is also what keeps the scripts of a decoded extended transaction intact
  (`PoolSafety.PoolSafe`).
* A decode that fails after the inputs began and before the outputs are replaced hands the
  receiver's *old* output scripts to the pool. It is safe on every input and schedule exactly
  when none of them has a 512-byte capacity, or when there is a single plain receiver, the
  pool is full, and the old scripts are apart from the pool and from one another
  (`OldScripts.ReceiversExact`). An extended decoder, or a second decoder of either kind,
  makes room in a full pool (`OldScripts.StaleReachesPool`).
* The limit on input scripts is a count limit used as a byte limit, so an encodable
  transaction can be refused, for a signature script or, in the extended format, for the
  script of a spent output (`Sizes.LongSignatureRefused`, `Sizes.LongSpentScriptRefused`).
  No other limit refuses an encodable one (`Sizes.SizedTxFits`, `Sizes.SizedExtTxFits`,
  `Sizes.SizedBlockFits`, `FrameTheorems.WrittenReadBack`).
* On a truncated payload the streaming reader can accept what the buffered reader refuses
  (`FrameTheorems.TruncationSplitsReaders`, `FrameTheorems.AgreementExact`).
* A payload of exactly 2^32 - 1 bytes is written as an extended announcement and does not
  come back; a longer one is dropped without an error (`FrameTheorems.FrameRoundTripExact`).
  The same length makes a reader lose alignment (`FrameTheorems.AlignmentExact`).
* For an extended announcement the header reader takes command and length from a buffer
  that is already used up, so the command becomes empty and the length zero
  (`FrameTheorems.AnnouncementEmptied`, `FrameTheorems.HeaderRoundTrip`).
* A version message for a protocol version without the relay byte loses its association
  ID, and a prefix that ends inside the ID decodes (`Versions.UnmarkedAssociationLost`,
  `Versions.VersionRoundTrip`, `Versions.PrefixesExact`).
* `maxMessagePayload` wraps around from 2^43 * 10^6 on. Right above the bound it admits no
  block, further up a band admits every block again (`Limits.MessageLimitWraps`,
  `Limits.MessageLimitAdmitsBlocks`).
* The writer converts that limit to a signed integer, so from 2^42 * 10^6 to the wrap bound
  it refuses every transaction, block and version message (`FrameTheorems.WriterAccepts`).

## Model

| member | source | states |
|---|---|---|
| `PoolSafety.PoolSafe` | msg_tx.go:360-500 | Main result on the pool. For any mix of plain and extended decoders, any streams and every schedule: no buffer is in two places; a finished decoder has the transaction (or the error kind) the parser gives for its own stream alone, spent outputs included for as long as it lives; while no more than 12500 buffers were made every buffer is accounted for, and when all decoders are finished each is back in the pool, once, or holds the script of a spent output |
| `PoolSafety.PlainAllBack` | msg_tx.go:360-500 | With plain decoders only, all buffers are back in the pool, once each, when all are finished |
| `PoolSafety.RunInv` | msg_tx.go:360-500 | The invariant behind it is kept over every schedule from every state that has it |
| `PoolSafety.StepInv` | msg_tx.go:360-500 | One step of any decoder keeps exclusive ownership, every decoder's progress and the contents every decoder relies on |
| `PoolSafety.StepExclusive` | msg_tx.go:119-153 | No step puts a buffer in two places, whether it borrows, returns on success or returns on an error path |
| `PoolSafety.OthersKept` | msg_tx.go:789-812 | A step of one decoder changes nothing another decoder holds |
| `PoolSafety.StepConserves` | msg_tx.go:139-153 | No buffer is lost by any step while no more were made than the pool takes |
| `PoolSafety.NoDrop` | msg_tx.go:146-152 | A full pool and a buffer still held are impossible until more buffers were made than the pool takes |
| `PoolSafety.FinishesAlone` | msg_tx.go:119-153 | From every reachable state every decoder finishes by its own steps alone: the channel operations never wait |
| `OldScripts.StaleReachesPool` | msg_tx.go:387-405 | If an old output script has a 512-byte capacity and the pool has room, or there is a second receiver, or the receiver is extended, then some streams and schedule put that script into the pool while the application still refers to it |
| `OldScripts.ReceiversExact` | msg_tx.go:387-405 | For every pool and any receivers of either kind, decoding is safe on every input and schedule if and only if no old output script has a 512-byte capacity, or the pool has its 12500 buffers, there is one plain receiver, and its old scripts are apart from the pool and from one another |
| `OldScripts.LonePlainSafe` | msg_tx.go:360-500 | On a full pool a lone plain decoder lets none of its receiver's old scripts in, on any stream and schedule |
| `OldScripts.LoneFollows` | msg_tx.go:387-405 | Such a decoder does to the pool exactly what it would do on an empty receiver, step by step, and keeps pool and own buffers together at the pool's size |
| `OldScripts.ExtendedKeepsOne` | msg_extended_tx.go:196-216 | Seven steps into a one-input extended message the failed decode is about to give back one buffer less than it took |
| `PoolFlow.StepFlow` | msg_tx.go:360-500 | Every step moves buffers only between the pool and the stepping decoder, or makes the next new one, drops one only into a full pool, and writes only memory it holds |
| `DecodeProgress.StepGood` | msg_tx.go:360-500 | Every step advances the decoder exactly as the parser goes through its stream, including the error it ends with and the spent outputs it keeps |
| `DecodeProgress.FillSpentGood` | msg_extended_tx.go:510-540 | Reading the script of a spent output completes the input as the parser does, or ends with the parser's error and exactly the completely read inputs' spent outputs kept |
| `TxForms.TakeMessageSplit` | msg_extended_tx.go:154-335 | Either decoder's result is decided stage by stage: head, inputs, outputs and lock time |
| `TxForms.MessageIsExtTx` | msg_extended_tx.go:16-23 | A plain projection and the list of spent outputs determine an extended transaction |
| `DecodeProgress.GoodKept` | msg_tx.go:360-500 | A decoder's progress depends on memory only through the buffers it holds |
| `PoolFlow.BorrowFlow` | msg_tx.go:119-132 | A script of at most 512 bytes, and no other, gets a buffer; that buffer is in one place less, or is the next new one, and nothing else moves; no contents change |
| `PoolFlow.BorrowInOrder` | msg_tx.go:119-132 | For every pool and size: memory of its own if and only if the size is over 512, and then the pool is untouched; otherwise the oldest buffer of a pool that has one, and from an empty pool a new one filled with zeros |
| `PoolFlow.ReturnFlow` | msg_tx.go:139-153 | A buffer joins the end of the queue exactly while that has fewer than 12500 entries; anything else leaves the pool as it is |
| `PoolSimulation.BorrowBoth` | msg_tx.go:119-132 | Simulation: from a free list and a pool of the same buffers in the same order with the same contents, borrowing on the heap and in the state machine gives the same memory and ends in the same correspondence |
| `PoolSimulation.ReturnBoth` | msg_tx.go:139-153 | Simulation: the same for handing back any slice |
| `PoolSimulation.FillBoth` | msg_tx.go:804-809 | Simulation: the same for reading into a borrowed slice, byte for byte, also when the stream ends early and only a part is stored |
| `PoolSimulation.ReturnedSame` | msg_tx.go:387-405 | The free list after a list of slices was handed in is the pool after the cells were given back, in order |
| `PoolSimulation.FillStores` | msg_tx.go:804-809 | The step that reads a script stores exactly what could be read of it, the script or the rest of the stream |
| `PoolSimulation.FailureGivesBack` | msg_tx.go:387-470 | From the step that fails, a decoder by itself gives back the buffer of the script it could not read, then those of the inputs, then those of the outputs (the receiver's old ones before the outputs are replaced), in this order, and ends with the error |
| `ScriptPools.Pool.Borrow` | msg_tx.go:119-132 | The slice has the asked length, capacity 512 or the size itself if that is larger, was not on loan, and is the oldest of the queue or newly made and zero |
| `ScriptPools.Pool.Return` | msg_tx.go:139-153 | Any slice: it leaves the loans and joins the queue exactly when its capacity is 512 and there is room; exclusive ownership is kept unless a 512-byte capacity comes in that was not on loan |
| `ScriptPools.Pool.Fill` | msg_tx.go:804-809 | Reading a script into a borrowed buffer stores what could be read at its start, keeps the rest of it, and changes no other buffer on loan |
| `ScriptPools.ReadScript` | msg_tx.go:789-812 | Same outcome and position as the parser; on success one more loan holding the script, on every error the loans as before |
| `PoolDecoding.ReadTxIn` | msg_tx.go:814-831 | Refines the input parser, with at most the one buffer borrowed, also on failure |
| `PoolDecoding.ReadTxOut` | msg_tx.go:847-864 | Refines the output parser, with at most the one buffer borrowed, also on failure |
| `PoolDecoding.ReadTxIns` | msg_tx.go:415-433 | The input loop refines the parser; exactly the inputs' buffers are on loan, and the running total is the sum of their lengths |
| `PoolDecoding.ReadTxOuts` | msg_tx.go:449-465 | The output loop refines the parser; exactly the outputs' buffers are added to the loans |
| `PoolDecoding.ReturnAll` | msg_tx.go:387-405 | The queue after handing in a list, whatever its slices are; every borrowed buffer goes back once, nil scripts are skipped, and slices foreign to the pool change nothing |
| `PoolDecoding.ReturnScriptBuffers` | msg_tx.go:387-405 | Output scripts are handed in last; afterwards nothing of this message is on loan and everyone else's loans are untouched, unless the outputs are old ones and one has a 512-byte capacity |
| `PoolDecoding.OldScriptTaken` | msg_tx.go:398-404 | What handing in means for an old script of 512-byte capacity: it is in the queue, unless the queue is full |
| `PoolDecoding.MoveIns` | msg_tx.go:477-487 | The first consolidating loop packs the input scripts at the front of the buffer and returns each one's buffer |
| `PoolDecoding.MoveOuts` | msg_tx.go:489-499 | The second loop packs the output scripts behind them and ends exactly at the end of the buffer |
| `PoolDecoding.Consolidate` | msg_tx.go:473-499 | The contiguous buffer is the concatenation of input scripts then output scripts, the final offset is its length, and all loans are given back |
| `PoolDecoding.ConsolidatedScripts` | msg_tx.go:473-499 | Every rewritten slice has capacity equal to length, lies in the one buffer, and has unchanged contents |
| `PoolDecoding.DecodeTx` | msg_tx.go:360-500 | Same outcome and position as the parser for every stream and every receiver; on success consolidated in fresh memory unknown to the pool; the loans end as they began unless the decode fails between the input count and the outputs and an old output script has a 512-byte capacity, and then the old scripts are handed in last |
| `ExtPoolDecoding.ReadExtTxIns` | msg_extended_tx.go:218-239 | For every receiver the extended input loop refines the parser; on every path the signature buffers are on loan for now, and the memory of the spent scripts of exactly the completely read inputs, with its contents, for good |
| `ExtPoolDecoding.ReadExtTxIn` | msg_extended_tx.go:510-540 | Refines the parser of one extended input; on failure at most the signature script is on loan |
| `ExtPoolDecoding.DecodeExtTx` | msg_extended_tx.go:154-335 | For every stream and receiver the same outcome and position as the parser; signature and output scripts consolidated exactly; the loans left over are exactly the memory of the spent scripts of the inputs that can be read completely, each once and with its script, and a pool buffer is among it if and only if one of those scripts has at most 512 bytes; the same exception for old output scripts as in the plain decoder |
| `ExtPoolDecoding.LeavesNoLoan` | msg_extended_tx.go:196-216 | Memory stays with the message, in a pool buffer or not, if and only if version, marker and count pass, the count is not zero and the first input can be read |
| `ExtPoolDecoding.LosesNoBuffer` | msg_extended_tx.go:196-216 | The pool loses no buffer if and only if every input that can be read completely has a spent script of more than 512 bytes |
| `ExtPoolDecoding.LeakingStream` | msg_extended_tx.go:510-540 | One input with empty scripts, followed by anything or nothing, costs the pool a buffer |
| `ExtPoolDecoding.DecodedInputsLeak` | msg_extended_tx.go:154-335 | A successfully decoded message costs the pool a buffer if and only if one of its spent scripts has at most 512 bytes |
| `Arenas.Arena.Alloc` | block_arena.go:66-113 | Length and capacity n, zeroed, inside its chunk, new, with every earlier slice unmoved and unchanged; which chunk it comes from in each of the four cases |
| `Arenas.Arena.SlicesApart` | block_arena.go:66-113 | Slices handed out at any time never overlap, and an oversize chunk is never shared |
| `Arenas.Arena.CellPlaced` | block_arena.go:66-113 | Every slice handed out still has its place in a chunk of the arena and its contents |
| `Arenas.Arena.SpaceBound` | block_arena.go:74-112 | At any time the bytes of all chunks are at most twice the bytes requested plus one standard chunk, for any size hint |
| `Arenas.LayoutWrite` | block_arena.go:66-113 | Writing inside one slice changes that slice only |
| `Arenas.Arena.Store` | msg_tx.go:533-540 | Filling one slice from the reader leaves every other slice of the arena as it was |
| `Arenas.FirstChunkSize` | block_arena.go:80-95 | The first chunk covers the request, has from 4096 to 4194304 bytes, covers a hint up to 4194304 and is exactly 4194304 for a hint from there on, and is no larger than one of these asks for |
| `ArenaDecoding.ReadTxIns` | msg_tx.go:509-553 | The input loop refines the parser and every earlier script still holds its bytes |
| `ArenaDecoding.ReadTxOuts` | msg_tx.go:555-592 | The output loop refines the parser and every earlier script still holds its bytes |
| `ArenaDecoding.DecodeTx` | msg_tx.go:509-592 | Same outcome and position as the parser; on success every script slice holds its own bytes |
| `ArenaDecoding.DecodeBlock` | msg_block.go:74-118 | Decoding a block into shared chunks refines the block parser; after the last transaction every script of every transaction holds exactly its bytes; the arena is made with a hint of 256 bytes per transaction; the chunks take at most twice the bytes of all scripts plus 4194304, hence at most twice the bytes consumed plus 4194304 |
| `ArenaDecoding.BlockScriptsInMemory` | msg_block.go:74-118 | What that means in memory: contents as on the wire, capacity equal to length |
| `ArenaDecoding.ReadHeader` | block_header.go:116-119 | Refines the header parser |
| `DecoderAgreement.DecodersAgree` | msg_tx.go:360-592 | For every byte stream the pool path and the arena path give the same outcome and error kind, the same position and the same transaction |
| `DecoderAgreement.DecodeViaPool` | msg_tx.go:360-500 | The pool path gives what the parser gives |
| `DecoderAgreement.DecodeViaArena` | msg_tx.go:509-592 | The arena path gives what the parser gives |
| `Denotation.DenotesOne` | msg_tx.go:251-256 | A transaction in memory is one transaction: fields and script bytes determine it |
| `Transactions.TakeTxIff` | msg_tx.go:615-650 | Canonical encoding: a transaction parses exactly when it is within the limits and its encoding stands there, so decode inverts encode and encode reproduces the bytes consumed |
| `Transactions.TakeTxSound` | msg_tx.go:360-500 | Every accepted input is the encoding of what was decoded |
| `Transactions.TakeTxComplete` | msg_tx.go:360-500 | Every encoding within the limits is accepted, whatever follows it |
| `Transactions.TakeTxShift` | msg_tx.go:360-500 | Success, error and consumption depend only on the bytes from the start position on |
| `WireLayout.TxOnTheWire` | msg_tx.go:615-650 | A transaction parses exactly when it is within the limits and every byte is the digit of the field the format puts there: version, counted inputs, counted outputs, lock time, with each record's fields in order |
| `WireLayout.LEDigit` | common.go:138-186 | Byte i of a little-endian number is its digit of weight 256^i |
| `WireLayout.SignedIff` | common.go:138-186 | A signed field stands on the wire as the digits of its two's complement |
| `Endings.TakeTxSettled` | msg_tx.go:360-500 | What a decoder says of a stream it also says of every longer one, unless it ran into the end of the stream |
| `Endings.CutTx` | msg_tx.go:360-500 | Every proper prefix of an encoding within the limits is refused with an end-of-stream error that uses it up: a clean end for no bytes at all, an unexpected one inside the first field |
| `Refusals.InputCountRefused` | msg_tx.go:376-381 | A count above (ebs / 10^6 * 2097152 mod 2^64) / 41 + 1 is refused as too many inputs, right behind the count |
| `Refusals.InputScriptRefused` | msg_tx.go:789-831 | After any inputs that can be read, a script length above the same number is refused as too long, right behind the length |
| `Refusals.OutputCountRefused` | msg_tx.go:440-447 | After all inputs, a count above the message limit divided by 9, plus 1, is refused as too many outputs |
| `Refusals.OutputScriptRefused` | msg_tx.go:847-864 | After any outputs that can be read, a script length above the message limit is refused as too long |
| `Refusals.TxErrors` | msg_tx.go:360-500 | A transaction decode fails with an end of stream, a long integer form, too many inputs or outputs or a long script, and with nothing else |
| `ExtendedTransactions.TakeExtTxIff` | msg_extended_tx.go:154-399 | The same law for extended transactions, marker bytes included |
| `ExtendedTransactions.TakeMarkerIff` | msg_extended_tx.go:166-180 | The marker is accepted exactly when its six bytes are there |
| `ExtendedTransactions.TakeExtTxShift` | msg_extended_tx.go:154-335 | An extended decode depends only on the bytes from its position on |
| `WireLayout.ExtTxOnTheWire` | msg_extended_tx.go:358-399 | The byte-by-byte law for extended transactions: version, the bytes 00 00 00 00 00 EF, inputs with amount and script of the spent output, outputs, lock time |
| `Endings.TakeExtTxSettled` | msg_extended_tx.go:154-335 | More bytes change nothing unless the decoder ran into the end of the stream |
| `Endings.CutExtTx` | msg_extended_tx.go:154-335 | Every proper prefix ends in an end-of-stream error that uses it up |
| `Refusals.MarkerRefused` | msg_extended_tx.go:162-177 | Any other six bytes, the first a one-byte count, are refused as a bad marker after exactly ten bytes |
| `Refusals.ExtTxErrors` | msg_extended_tx.go:154-335 | The errors of a transaction, or a bad marker, and nothing else |
| `Blocks.TakeHeaderIff` | block_header.go:116-128 | Headers parse exactly from their encodings |
| `Blocks.TakeBlockIff` | msg_block.go:74-118 | Blocks parse exactly when they are within the limits and their encoding stands there |
| `Blocks.TakeBlockShift` | msg_block.go:74-118 | A block decode depends only on the bytes from its position on |
| `WireLayout.BlockOnTheWire` | msg_block.go:190-209 | The byte-by-byte law for blocks |
| `WireLayout.HeaderAtIff` | block_header.go:116-128 | The eighty bytes of a header: version, previous block, Merkle root, timestamp, bits, nonce |
| `Endings.TakeBlockSettled` | msg_block.go:74-118 | More bytes change nothing unless the decoder ran into the end of the stream |
| `Endings.CutBlock` | msg_block.go:74-118 | Every proper prefix ends in an end-of-stream error that uses it up |
| `Refusals.TxCountRefused` | msg_block.go:83-93 | A count above ebs / 10 + 1 is refused as too many transactions, right behind the count |
| `Refusals.BlockErrors` | msg_block.go:74-118 | The errors of a transaction, or too many transactions, and nothing else |
| `Writing.WriteVarInt` | common.go:608-637 | Appends the shortest form |
| `Writing.WriteVarBytes` | common.go:745-756 | Appends the length and the bytes |
| `Writing.WriteTxIn` | msg_tx.go:833-845 | Appends the encoding of the input |
| `Writing.WriteTxOut` | msg_tx.go:866-873 | Appends the encoding of the output |
| `Writing.WriteExtTxIn` | msg_extended_tx.go:544-572 | Appends the encoding of the extended input |
| `Writing.EncodeTx` | msg_tx.go:615-650 | The encoder's loops append exactly the encoding that the parser law inverts |
| `Writing.EncodeExtTx` | msg_extended_tx.go:358-399 | The same for extended transactions |
| `Writing.EncodeBlock` | msg_block.go:190-209 | The same for blocks |
| `Writing.WriteHeader` | block_header.go:124-128 | Appends the encoding of the header |
| `Sizes.VarIntSerializeSize` | common.go:641-660 | Equals the length of the encoding |
| `Sizes.TxInSerializeSize` | msg_tx.go:202-208 | Equals the length of the encoding |
| `Sizes.TxOutSerializeSize` | msg_tx.go:230-234 | Equals the length of the encoding |
| `Sizes.ExtTxInSerializeSize` | msg_extended_tx.go:27-34 | Equals the length of the encoding |
| `Sizes.TxSerializeSize` | msg_tx.go:671-693 | The size loops compute the length of the encoding for every transaction |
| `Sizes.BlockSerializeSize` | msg_block.go:229-239 | The same for every block |
| `Sizes.PkScriptLocs` | msg_tx.go:711-744 | The encoded bytes at each offset are exactly that output's script |
| `Sizes.SizedTxFits` | msg_tx.go:92-100 | For 10^6 <= ebs < 2^43 * 10^6 a transaction of at most ebs bytes passes every count check and every output script check, and is decodable if and only if its signature scripts have at most ebs / 10^6 * 2097152 / 41 + 1 bytes |
| `Sizes.SizedExtTxFits` | msg_extended_tx.go:510-540 | The same for an extended transaction: counts and outputs pass, and it is decodable if and only if both scripts of every input are within that number |
| `Sizes.LongSignatureRefused` | msg_tx.go:816-831 | Every one-input transaction with a signature script of more than ebs / 10^6 * 2097152 / 41 + 1 and at most ebs - 60 bytes encodes within ebs and does not decode to itself |
| `Sizes.LongSpentScriptRefused` | msg_extended_tx.go:530-537 | The same for the script of a spent output, although the plain projection fits |
| `Sizes.CapBelowBlockSize` | msg_tx.go:92-94 | The cap is below the block size by more than such messages need, so they exist for every ebs in range |
| `Sizes.SizedBlockFits` | msg_block.go:40-42 | The same for a block and its transaction count |
| `Sizes.TxInMinimum` | msg_tx.go:56-59 | No input is shorter than the minimum the limits divide by, and exactly those with an empty script have it |
| `Sizes.TxOutMinimum` | msg_tx.go:61-63 | The same for outputs |
| `Sizes.TxMinimum` | msg_tx.go:65-72 | The same for transactions: exactly those without inputs and outputs have the minimum |
| `Sizes.ScriptCapIs` | msg_tx.go:92-94 | Below the wrap bound the input limit is ebs / 10^6 * 2097152 / 41 + 1 |
| `Limits.MessageLimitAdmitsBlocks` | message.go:40-42 | For every 64-bit ebs, the message limit admits a block-sized payload if and only if ebs is zero, or at least 10^6 and below the wrap bound, or in the band above it where the wrapped product has caught up |
| `Limits.MessageLimitWraps` | message.go:40-42 | For every 64-bit ebs, the limit in exact arithmetic: the product, less 2^64 from the bound on and less 2^65 from twice the bound on |
| `Limits.MessageLimitAround` | message.go:40-42 | At the bound the limit is zero; at the end of the band it admits a full block |
| `BlockIndex.DeserializeTxLoc` | msg_block.go:140-184 | Yields the block the parser yields, with the ranges of its transactions, and leaves no loan behind |
| `BlockIndex.LocsAreRanges` | msg_block.go:140-184 | The ranges are contiguous, start at 80 plus the size of the count, end with the block, and each is exactly its transaction's encoding |
| `BlockIndex.LocsInInput` | msg_block.go:140-184 | In the input itself each range equals its transaction's encoding, with the length SerializeSize computes |
| `Copying.CopyScript` | msg_tx.go:297-309 | A fresh array of exactly the script's length with the same bytes, and nil exactly for an empty script |
| `Copying.Copy` | msg_tx.go:282-345 | The copy is the same transaction, so it has the same encoding; the message, every record of it and every script array are new and disjoint from the original's |
| `Copying.CopyExt` | msg_extended_tx.go:85-148 | Copying an extended transaction gives its plain projection in a message, records and script arrays of its own |
| `Copying.WriteToCopy` | msg_tx.go:280-282 | Any write to the fields, records and script bytes of a copy leaves the original the transaction it was |
| `Copying.WriteToCopyOfExt` | msg_extended_tx.go:82-85 | The same for an extended original, spent outputs included |
| `Copying.MeansOne` | msg_tx.go:282-345 | A message of records means one transaction, so original and copy cannot differ in any field or script |
| `Copying.ExtMeansOne` | msg_extended_tx.go:85-148 | The same for extended messages, spent outputs included |
| `VarInts.TakeVarIntIff` | common.go:534-604 | A varint parses to v exactly when its shortest form stands there; any suffix is left unread |
| `VarInts.VarIntPrefixFree` | common.go:608-637 | No encoding is a proper prefix of another, and encodings are unique |
| `VarInts.VarIntShortestForm` | common.go:534-660 | Every accepted input is the shortest form of its value |
| `VarInts.TakeVarBytesIff` | common.go:715-756 | Length-prefixed bytes parse exactly from their encodings within the given maximum |
| `VarInts.TakeVarIntShift` | common.go:534-604 | A varint read depends only on the bytes from its position on |
| `WireLayout.VarIntAtIff` | common.go:608-637 | The encoding, by its first byte: itself below FD, or FD, FE or FF and 2, 4 or 8 digits |
| `Refusals.LongFormRefused` | common.go:534-604 | A wide form of a value that has a shorter one is refused as not canonical, behind its last byte |
| `Streams.ReadVarInt` | common.go:534-604 | The reader refines the parser, through limits and tees |
| `Streams.ReadVarBytes` | common.go:715-741 | The reader refines the parser |
| `Streams.Source.ReadFull` | common.go:73-134 | Reads all or reports how it fell short; a tee passes on exactly what was consumed |
| `Streams.Source.Drain` | message.go:677-682 | Reads up to the limit or the end, through the tee |
| `Streams.Source.DrainUnderTee` | message.go:665-670 | Reads up to the limit or the end, past the tee: the hasher is not fed |
| `Versions.VersionPrefixes` | msg_version.go:84-229 | A prefix of a version encoding decodes exactly when it ends on a field boundary at or after the peer's address, giving the original with the missing fields at their defaults, for every message the decoder can take back |
| `Versions.PrefixesExact` | msg_version.go:84-229 | For every message the encoder accepts, prefixes decode exactly at field boundaries if and only if the association ID is at most 129 bytes and not written without the relay byte, and the user agent is within the message limit |
| `Versions.VersionRoundTrip` | msg_version.go:84-229 | Every message the encoder accepts comes back if and only if its user agent is within the message limit, its association ID is at most 129 bytes, and the protocol version has the relay byte or there is nothing for it to carry |
| `Versions.UnmarkedAssociationLost` | msg_version.go:84-229 | Without the relay byte an association ID never comes back whole |
| `Versions.UnmarkedPrefixDecodes` | msg_version.go:84-229 | Without the relay byte a prefix that ends one byte into the association ID decodes, and that byte, a length that is never zero, is taken to mean relay |
| `Versions.AssociationBounded` | msg_version.go:152-166 | A decoded association ID has at most 129 bytes |
| `Versions.MaxPayloadLength` | msg_version.go:239-247 | The limit admits every message the decoder can take back |
| `Versions.EncVersionLength` | msg_version.go:173-229 | The length of an encoding is the sum of its fields' lengths |
| `WireLayout.VersionOnTheWire` | msg_version.go:173-229 | The encoding of a version message, byte by byte: the fields in order, 00 for no relay and 01 for relay from protocol version 70001 on, and an association ID only if there is one |
| `Refusals.VersionErrors` | msg_version.go:84-170 | A version decode fails with an end of stream, a long integer form, or a string, user agent or ID that is too long, and with nothing else |
| `VersionCodec.DecodeVersion` | msg_version.go:84-170 | The step-by-step decoder refines the parser and refuses a reader that is not a buffer |
| `VersionCodec.EncodeVersion` | msg_version.go:173-229 | Refuses a user agent of more than 256 bytes, otherwise appends the encoding `WireLayout.VersionOnTheWire` describes |
| `VersionCodec.ReadNetAddress` | net_address.go:93-125 | Refines the address parser, with the timestamp read or left as it was, IP bytes as they are and the port big-endian |
| `VersionCodec.WriteNetAddress` | net_address.go:129-153 | Appends the encoding `WireLayout.NetAddressOnTheWire` describes, with the timestamp cut to 32 bits where there is one |
| `Versions.NetAddressRoundTrip` | net_address.go:93-153 | A written address comes back in its 16-byte form, and its timestamp does if and only if it is on the wire and fits 32 bits, or is what the receiver held already |
| `Versions.TakeNetAddressSound` | net_address.go:93-153 | Every accepted address is read from exactly its own encoding |
| `WireLayout.NetAddressOnTheWire` | net_address.go:129-153 | The encoding byte by byte: the timestamp mod 2^32 if asked for and the version is at least 31402, services, sixteen bytes of IP, port with the high byte first |
| `WireLayout.IpAtIff` | net_address.go:138-144 | The sixteen bytes: the address itself if it has sixteen; ten zeros, FF FF and the four bytes if it has four; zeros otherwise |
| `WireLayout.MappedApart` | net_address.go:138-144 | Different 4-byte addresses differ on the wire, and none is written like an address of another length that is not sixteen |
| `WireLayout.AddressComesBack` | net_address.go:93-153 | An address is read back with its services and port, and its IP as those sixteen bytes |
| `Versions.EncNetAddress` | net_address.go:16-27 | An encoding with timestamp has exactly the length maxNetAddressPayload gives, and none is longer |
| `FrameTheorems.ReadersAgree` | message.go:565-706 | For every stream with the full declared payload and every command except version, both readers succeed on the same inputs with the same message, count and position; refusals end at the same position and differ only as stated |
| `FrameTheorems.AgreementExact` | message.go:565-706 | The readers agree on success if and only if the payload is whole, or the truncated bytes fail to decode or to match the checksum |
| `FrameTheorems.TruncationSplitsReaders` | message.go:565-706 | A family of truncated frames the streaming reader accepts and the buffered one refuses |
| `FrameTheorems.RunStaysAligned` | message.go:423-706 | On any concatenation of frames, with any mix of the two readers, the k-th read starts at frame k and its result depends only on frame k, whatever the earlier frames were |
| `FrameTheorems.ReadLocal` | message.go:423-706 | Reading a frame inside a stream depends on that frame only and ends where it ends |
| `FrameTheorems.AlignmentExact` | message.go:289-305 | A reader ends where the frame ends if and only if the length is not the extended announcement or the header was refused |
| `FrameTheorems.FrameRoundTrip` | message.go:329-415 | A transaction, extended transaction, block or version message written as a frame is read back equal, with count 24 plus payload length, and what follows is left unread |
| `FrameTheorems.FrameRoundTripExact` | message.go:329-415 | It is read back if and only if the payload is below 2^32 - 1 bytes |
| `FrameTheorems.PayloadRoundTrip` | message.go:329-415 | The payload written for a message decodes to that message and is used up |
| `FrameTheorems.HeaderRoundTrip` | message.go:246-283 | Reading a written header gives back its fields if and only if the command does not end in a zero byte and the header is not the extended announcement |
| `FrameTheorems.WrittenReadBack` | message.go:329-525 | For 10^6 <= ebs < 2^43 * 10^6 a transaction, extended transaction or block is accepted by the writer and read back equal if and only if its payload is at most ebs and below 2^32 - 1 bytes, its input scripts are within the byte cap, and ebs is below 2^42 * 10^6 |
| `FrameTheorems.WriterAccepts` | message.go:358-379 | For every 64-bit ebs the writer accepts a transaction, extended transaction, block or version message if and only if its payload encodes, is within the limit of its type and the message limit, and that limit is not negative as a signed integer |
| `FrameTheorems.WrittenVersionReadBack` | message.go:329-525 | For 10^6 <= ebs < 2^43 * 10^6 a version message is accepted by the writer and read back if and only if its user agent is at most 256 and its association ID at most 129 bytes, nothing is lost for want of the relay byte, and ebs is below 2^42 * 10^6 |
| `FrameTheorems.AnnouncementEmptied` | message.go:270-282 | Of an extended announcement the readers see an empty command and go by length zero |
| `FrameTheorems.OnlyFittingDecode` | message.go:423-525 | A message over the limits never decodes from its own payload |
| `FrameTheorems.TakePayloadShift` | message.go:640-668 | Payload decoders see only the bytes from their position on |
| `FrameVerdicts.FrameOnTheWire` | message.go:329-415 | A written frame, byte by byte: network, command padded with zeros to twelve bytes, length, the first four bytes of the payload's double SHA-256, payload; nothing at all from 2^32 bytes on |
| `FrameVerdicts.HeaderOnTheWire` | message.go:246-283 | What the readers see in twenty-four bytes, digit by digit; the command is without its padding, and empty for the extended announcement |
| `FrameVerdicts.HeaderVerdicts` | message.go:432-478 | For either reader and every header: the length over the general limit, another network, a command that is not UTF-8, version in the streaming reader, an unknown command, the length over the limit of its type, in this order, each give their own error with count 24, and the payload is skipped in all cases but the first |
| `FrameVerdicts.ShortHeaderVerdict` | message.go:246-283 | A stream that ends inside the header is an end of stream that uses it up, and the count says so |
| `FrameVerdicts.BufferedVerdicts` | message.go:423-525 | With a good header: a payload that is not all there is an end of stream; otherwise the message is returned if and only if bytes 20 to 24 of the header are the first four of the payload's double hash and the payload decodes; message, error, count and position in each case |
| `FrameVerdicts.StreamingVerdicts` | message.go:565-706 | The same for the streaming reader, which decodes first, sums all of the payload that is there and reports the declared length |
| `FrameVerdicts.OnlyGoodFrames` | message.go:423-706 | Whatever either reader returns has the asked network, a UTF-8 command that is handled, a length within both limits and the double hash of the bytes up to where the stream is left |
| `FrameVerdicts.ErrorsTellWhy` | message.go:423-706 | For commands with a codec of their own each framing error has exactly one cause, in both directions |
| `FrameIO.ReadMessageHeader` | message.go:246-283 | Refines the header parser |
| `FrameIO.DiscardInput` | message.go:289-305 | The chunked loop advances by exactly n bytes or to the end of the stream |
| `FrameIO.WriteMessage` | message.go:329-415 | Appends exactly the frame of `WriteFrame`, which is the one `FrameVerdicts.FrameOnTheWire` describes, and reports its length, or nothing and the error |
| `FrameIO.ReadMessage` | message.go:423-525 | Refines the buffered reader of `FrameVerdicts.BufferedVerdicts` and `FrameVerdicts.HeaderVerdicts` in message, error, count and final position, down to the memory of the message, and returns the raw payload exactly on success |
| `FrameIO.ReadMessageStreaming` | message.go:565-706 | Refines the streaming reader of `FrameVerdicts.StreamingVerdicts` and `FrameVerdicts.HeaderVerdicts` through limit, tee, hasher and deferred drain |
| `FrameIO.CarriesOne` | message.go:423-525 | A message in memory is one message value: whatever the readers are said to return is determined field by field and byte by byte |

## Left out

- The other message types (ping, inv, getdata, filters and similar): straight field lists; they are arbitrary functions in the framing layer.
- MsgAuthch and MsgAuthresp: encoder and decoder use different length formats, so there is no law to state.
- MsgExtMsg and frames with a real extended length: the header reader never obtains that length.
- MsgExtendedTx.SerializeSize and MsgExtendedTx.PkScriptLocs: they omit the six marker bytes the encoder writes.
- MsgProtoconf: its integer codec comes from another library.
- External handlers: none is registered in the model.
- Real I/O: a read either delivers all that is asked for, or what is left and an end-of-stream error; write errors do not occur.
- SHA-256, UTF-8 validity and the contents of other messages are parameters; error texts and String methods are left out.
- The free list of 8-byte buffers in common.go: primitives are little-endian functions.
- Timestamps are whole numbers of seconds in 64 bits.
- In the decoders, input and output records are values inside their message; only `Copying`, where sharing of records matters, has them as objects.
- Memory exhaustion, and lengths above what a Go slice can have: writers and size calculators take messages whose lengths fit the wire widths.
- The total script size is unbounded: wrap-around of the 64-bit sum would need scripts that do not fit in memory.
