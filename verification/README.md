# Verified models of the game server, the preview builder and the push client

The system serves slot-style games: a game is a set of bet modes, each with a table of weighted events
and a multi-gigabyte file of pre-computed "books", one JSON object per event. The native server indexes
and caches the books, draws events and keeps each player's wallet. A browser build runs the same wallet
from a published preview, whose files are halved or sampled and cut into chunks. The workbench server
computes compliance statistics of the tables, and a command-line client pushes math folders to it.

This project models the parts of that system whose correctness is not visible in one function, and
proves what they promise. Check it with `dafny verify dfyconfig.toml`.

| component | files |
|---|---|
| books index | `Bytes`, `BookId`, `IdNumbers`, `Json`, `JsonItems`, `Grammar`, `GrammarText`, `GrammarParse`, `GrammarStream`, `IndexingWriter`, `JsonStream`, `BuildIndex`, `IndexLimits`, `LineScan`, `IndexRepeats`, `Sidecar`, `OpenBooks` |
| books cache | `Lru`, `BooksCache` |
| bets, draw, wallets | `Bets`, `Doubles`, `Costs`, `CostLimits`, `WeightedDraw`, `SessionStore`, `Wallet`, `BrowserWallet`, `WalletRuns`, `Payouts` |
| preview files | `Halving`, `EventsPlace`, `HalvingProofs`, `HalvingJson`, `PreviewBooks`, `Sampler`, `FileChunker` |
| statistics | `ModeStats`, `Sequences`, `TailOptimum`, `Cvar`, `Distribution` |
| protocols | `EventFeed`, `EventStream` (live events), `BlobServer`, `PushUploads`, `Push`, `PushRuns`, `PushAttempts`, `PushSettles` |

Conventions. Bytes are a subset type of `int`; 64-bit values are natural numbers with the wrap-around or
saturation of the code written out. An index or a cell compared by identity is a class instance. JSON is
a byte automaton, proved to accept exactly the texts that the grammar of RFC 8259, sections 2 to 7, prints. Random choices are inputs or arbitrary choices.
Statistics use reals and counts are natural numbers; only for costs are doubles rounded, operation by
operation (`Doubles`). Where a Rust loop updates variables the model is a method with a loop, proved equal
to a function; lemmas then speak about that function.

What the code does differently from what it says, each with its proof:

- A complete line index is right if and only if every line scans as JSON values on its own and, of each id,
  the last line that shows it, in its head or in a record, is one object whose id its 64-byte head does not
  cut (`IndexRepeats.RightExactlyWhen`). When no id comes twice that is: the file is strict JSONL whose line
  heads do not cut an id (`IndexLimits.IndexIsRightExactlyWhen`). Two objects that white space separates on
  one line make the index complete and wrong (`IndexLimits.SpacedRecordsAreWrong`).
- Not every mismatched sidecar reads as absent: a header with the count 2^62 opens
  (`Sidecar.WrappedCountOpens`). A file that opens has all its records if and only if its count does not
  wrap (`Sidecar.OpenedIsValidExactlyWhen`).
- The check of costs promises exactness for three decimals and an error otherwise. Take a cost written as
  `k` thousandths and let `n` be `k` doubled until it is at least 1000 * 2^52. Up to `k` = 1000 * 2^43 the
  cost is accepted if and only if `n` is at least 2^62 or within 256 of a multiple of 1000, and then it is
  held as `k` (`CostLimits.AcceptedExactlyWhen`). So whole costs are accepted
  (`CostLimits.WholeCostsAreKept`) and 1.001 is refused (`CostLimits.ThreeDecimalsCanBeRefused`); one
  thousandth above the limit a cost is accepted as another (`CostLimits.NextCostChanges`). At any size a cost
  is accepted and held as written if and only if `k` passes a test of its residues
  (`CostLimits.WrittenCostIsKept`). A product of 2^64 passes the check and saturates
  (`CostLimits.LargestProductSaturates`).
- Each payout is credited once over a run if and only if no play of the run fails while a payout is
  pending (`WalletRuns.EachPayoutOnce`): such a play credits the round and keeps it.
- The native and the browser wallet can part, since each loads its modes for itself, only the native one
  checks the costs, and it credits and charges before it looks a mode up. After one play they still
  correspond if and only if their balances moved alike and both succeeded, on the same draw, or neither
  did (`WalletRuns.TwinsStayTwins`); fresh wallets part on a mode the browser has not loaded
  (`WalletRuns.FreshWalletsCanPart`).
- "At most four attempts per blob" holds for a round if and only if at most one scanned file has the blob
  (`PushAttempts.AtMostFourExactlyWhen`), and for a push if and only if none has it, since a push has two
  rounds: eight attempts for each file are the sharp bound (`PushAttempts.PushAtMostExactlyWhen`), reached
  when a server loses a blob once (`PushAttempts.EightAttempts`). A failed upload stops the push only after
  its whole batch.

## Model

| member | source | states |
|---|---|---|
| Bytes.LinesRebuild | crates/lgs/src/math_engine.rs:1143-1160 | The lines a newline ends, put together again, are the bytes up to the last newline: splitting loses and invents nothing. |
| Bytes.LinesInPlace | crates/lgs/src/math_engine.rs:1143-1170 | Every line is the slice of the buffer at its own offset and holds no newline. |
| Bytes.LinesExtend | crates/lgs/src/math_engine.rs:1147-1153 | Bytes without a newline extend the unfinished line and leave the finished ones alone. |
| BookId.ReadId | crates/lgs/src/math_engine.rs:1221-1243 | The scanning loops return the 32-bit id of the grammar `ws { ws "id" ws : ws digits`, and nothing when there is none or it does not fit. |
| BookId.FindIdOfShape | crates/lgs/src/math_engine.rs:1221-1243 | Every text of that shape is recognised with its own digits. |
| BookId.ShapeOfFindId | crates/lgs/src/math_engine.rs:1221-1243 | Whatever is recognised has that shape, with the longest run of digits. |
| BookId.FindIdCut | crates/lgs/src/math_engine.rs:1131-1137 | A prefix that holds all that was read of a record up to the end of its digits shows the same digits. |
| BookId.ReadIdDecidedBy | crates/desktop/src/preview.rs:797-819 | An id is decided by the bytes up to the first one that cannot belong to it, whatever follows. |
| BookId.ReadIdSkipsWs | crates/lgs/src/math_engine.rs:1203-1219 | White space before a record does not change its id. |
| IdNumbers.PrintedIdIsRead | crates/lgs/src/math_engine.rs:1221-1243 | Reading an id that a decimal printer wrote, with any leading zeros and white space and anything but a digit after it, gives the number below 2^32, and none from 2^32 on. |
| IdNumbers.ReadIdIsPrinted | crates/lgs/src/math_engine.rs:1221-1243 | And whatever is read as an id was such a text. |
| IndexingWriter.Writer.FeedLineSegment | crates/lgs/src/math_engine.rs:1103-1121 | Head, last visible byte and adjacency flag become those of the longer line, including a `}{` that straddles two segments. |
| IndexingWriter.Writer.FinishLine | crates/lgs/src/math_engine.rs:1123-1141 | Table and completeness become those of one more line, and the line fields those of an empty one. |
| IndexingWriter.Writer.Feed | crates/lgs/src/math_engine.rs:1143-1160 | After any write the fields describe all bytes fed so far, however they were split. |
| IndexingWriter.Writer.Finish | crates/lgs/src/math_engine.rs:1162-1170 | The table and flag are those of all lines, a last one without newline included. |
| IndexingWriter.IndexChunks | crates/lgs/src/math_engine.rs:1143-1182 | Chunk independence: any split of a stream into writes gives the table and flag of the whole stream. |
| IndexingWriter.AdjacentConcat | crates/lgs/src/math_engine.rs:1103-1121 | A `}{` of a concatenation lies in either part or across the seam, and nowhere else. |
| JsonStream.IndexByJsonStream | crates/lgs/src/math_engine.rs:1184-1219 | The loop returns what the recursive scan of values returns: the id table, or the offset of the malformed record. |
| GrammarText.PrintedIsJson | crates/lgs/src/math_engine.rs:1184-1201 | Every value of the JSON grammar, printed with any white space, is accepted: objects, arrays, strings with every escape, numbers and the three literals. |
| GrammarParse.Parse | crates/lgs/src/math_engine.rs:1184-1201 | Every text that is accepted is the printing of a value. |
| GrammarParse.JsonExactlyWhen | crates/lgs/src/math_engine.rs:1184-1201 | So a text is accepted if and only if the grammar prints it. |
| GrammarStream.RecordExactlyWhen | crates/lgs/src/math_engine.rs:1184-1201 | The scan passes a record up to a place if and only if white space and a printed value end there and the value shows its end, or the file ends, or one of the eleven bytes follows that may. |
| GrammarStream.ScansExactlyWhen | crates/lgs/src/math_engine.rs:1184-1219 | The scan of a file succeeds if and only if the file is printed values one after the other, two of them apart by white space or by a quote or bracket of either. |
| GrammarStream.StreamRecords | crates/lgs/src/math_engine.rs:1184-1219 | It then finds one range for each value, in order: from the end of the value before to its own. |
| GrammarStream.RangesCover | crates/lgs/src/math_engine.rs:1184-1219 | Each range is white space and the value as printed. |
| GrammarStream.ObjectsAreScanned | crates/lgs/src/math_engine.rs:1184-1219 | Every concatenation of printed objects is scanned, one range for each, and the table has their ids, the last of an id. |
| JsonStream.ObjectEnds | crates/lgs/src/math_engine.rs:1184-1201 | From inside an object of a text that is accepted, the scan stops right after its own closing brace, whatever follows. |
| JsonStream.ObjectLineSplits | crates/lgs/src/math_engine.rs:1184-1201 | A line with one JSON object is that object between white space, and the scan takes exactly the object. |
| BuildIndex.HeadShowsId | crates/lgs/src/math_engine.rs:1131-1137 | The 64-byte head shows the id of its line if and only if it does not end inside the digits. |
| BuildIndex.CoreIsUnique | crates/lgs/src/math_engine.rs:1009-1045 | The record two ranges name "up to white space" is unique, so that relation means something. |
| BuildIndex.LineIndexAgreesWithScan | crates/lgs/src/math_engine.rs:1009-1045 | On strict JSONL the exhaustive scan succeeds, and a complete line index has its ids and, for each, the same record up to white space (the last duplicate in both). |
| BuildIndex.SpacedRecordsPassAsOne | crates/lgs/src/math_engine.rs:1123-1141 | Two objects that white space separates on one line enter the table as one record under the first id, and leave the completeness flag as it was. |
| IndexLimits.CompleteExactlyWhen | crates/lgs/src/math_engine.rs:1123-1141 | The index is complete if and only if every line is blank or ends with a brace, holds no `}{` and shows an id in its head. |
| LineScan.LastVisible | crates/lgs/src/math_engine.rs:1115-1117 | The last byte of a line that counts is the last that is no tab, newline, form feed, carriage return or space. |
| IndexLimits.ScanFindsJson | crates/lgs/src/math_engine.rs:1184-1219 | Every range in the table of a scan that succeeds covers a JSON text that shows its id. |
| IndexLimits.NoLeadingZero | crates/lgs/src/math_engine.rs:1221-1243 | The id of a JSON text has no leading zero, so a head that cuts it shows another number. |
| IndexLimits.ScannedHasNoFormFeed | crates/lgs/src/math_engine.rs:1115-1117 | A scan that succeeds has seen no form feed, the one byte that only the line index takes for white space. |
| IndexLimits.TakenLineIsStrict | crates/lgs/src/math_engine.rs:1009-1045 | In any file, repeated ids or not: if the index has the records of the scan, a line that gives the last entry of its id is one object whose id its head does not cut. |
| IndexLimits.IndexIsRightExactlyWhen | crates/lgs/src/math_engine.rs:1009-1045 | For every file with a complete line index in which no id comes twice: the scan succeeds with the same ids and records if and only if the file is strict JSONL and no head cuts an id. |
| IndexLimits.OneLineIsRightExactlyWhen | crates/lgs/src/math_engine.rs:1123-1141 | A line that gives an entry is indexed right if and only if it is one object whose id its head does not cut. |
| IndexLimits.SpacedRecordsAreWrong | crates/lgs/src/math_engine.rs:1123-1141 | Two spaced objects on one line: the index is complete, and the scan disagrees with it. |
| LineScan.NoCrossing | crates/lgs/src/math_engine.rs:1184-1201 | A JSON value that starts on a line ending with a brace ends on it, when the next visible byte opens an object. |
| LineScan.ScanLine | crates/lgs/src/math_engine.rs:1184-1201 | A line that scans on its own is scanned in the file record by record: the same ids, and ends at the same bytes. |
| LineScan.LineScansAlone | crates/lgs/src/math_engine.rs:1184-1201 | And a line of a complete index scans on its own when the file's scan succeeds from there. |
| IndexRepeats.ScanMirrors | crates/lgs/src/math_engine.rs:1184-1219 | When every line scans on its own, so does the file, and the record of each id ends in the last line that shows it in a record. |
| IndexRepeats.IndexMirrors | crates/lgs/src/math_engine.rs:1123-1141 | A complete line index has, for each id, the last line whose head shows it. |
| IndexRepeats.RightExactlyWhen | crates/lgs/src/math_engine.rs:1009-1045 | For every file with a complete line index, ids repeated or not: the scan succeeds with the same ids and records if and only if every line scans on its own and, of each id, the last line that shows it, in its head or in a record, is one object whose id its head does not cut. |
| BuildIndex.SortedEntries | crates/lgs/src/math_engine.rs:1034-1038 | The table lists exactly the pairs of the map, with strictly increasing ids. |
| BuildIndex.Build | crates/lgs/src/math_engine.rs:1009-1045 | The line index when complete and covering the required ids, otherwise the scan or its error; on strict JSONL the same records whichever path is taken. |
| Sidecar.LeRoundTrip | crates/lgs/src/math_engine.rs:135-152 | Little-endian bytes read back as the number, when it fits. |
| Sidecar.LowByteFirst | crates/lgs/src/math_engine.rs:135-152 | The numbers have their low byte first. |
| Sidecar.OpenedIsValidExactlyWhen | crates/lgs/src/math_engine.rs:106-110 | A file that opens has all its records if and only if the count in its header does not wrap 64 bits. |
| Sidecar.WrappedCountOpens | crates/lgs/src/math_engine.rs:94-111 | A header with the count 2^62 opens, without the records. |
| Sidecar.OpenedIsWritten | crates/lgs/src/math_engine.rs:97-111 | A file that opens with all its records is, byte for byte, the one that writing those records gives. |
| Sidecar.WriteIndex | crates/lgs/src/math_engine.rs:135-152 | The written file is the header and the records, in order. |
| Sidecar.OpenWritten | crates/lgs/src/math_engine.rs:97-111 | Opening what was written for a buffer of that length gives a valid index with the same length and records. |
| Sidecar.OpenForOtherBuffer | crates/lgs/src/math_engine.rs:102-105 | The same file for a buffer of another length reads as absent. |
| Sidecar.OpenTruncated | crates/lgs/src/math_engine.rs:97-111 | Every proper prefix of the file reads as absent, although the size check is done in wrapping 64-bit arithmetic. |
| Sidecar.RecordSlice | crates/lgs/src/math_engine.rs:65-78 | The bytes at the place of record `i` are those of entry `i`. |
| Sidecar.IdIndex.Get | crates/lgs/src/math_engine.rs:80-92 | On increasing ids the binary search returns the range of the id when it is there, and nothing exactly when it is not, for both forms. |
| Sidecar.Persist | crates/lgs/src/math_engine.rs:115-130 | Written or not, the index returned has the entries as its records. |
| OpenBooks.OpenIndexed | crates/lgs/src/math_engine.rs:902-932 | A sidecar that opens is reused, otherwise the table is built and persisted. Over any series of opens with whatever required ids the sidecar stays one that an open wrote; on strict JSONL the index has exactly the ids and the records of the exhaustive scan. |
| OpenBooks.EventRange | crates/lgs/src/math_engine.rs:1270-1286 | The lookup of an event gives the record of the scan up to white space, which is one object with that id, and nothing exactly when the scan has no such id. |
| OpenBooks.SortedIdsAreSpread | crates/lgs/src/math_engine.rs:1034-1038 | Entry `i` of a sorted table has an id of at least `i`, so a table of 32-bit ids fits its count field. |
| Lru.TenantPhaseIsMinimal | crates/lgs/src/math_engine.rs:348-359 | The tenant phase drops the shortest run of the tenant's oldest entries, the touched one excepted, that settles it. |
| Lru.TenantPhaseKeeps | crates/lgs/src/math_engine.rs:348-359 | It drops no entry of another tenant, and never the touched key. |
| Lru.GlobalPhaseIsMinimal | crates/lgs/src/math_engine.rs:361-369 | The global phase drops the shortest oldest-first prefix after which one entry is left or both limits hold. |
| Lru.BytesAdd | crates/lgs/src/math_engine.rs:348-369 | The bytes held, in all or by a tenant, are the sum over the entries. |
| Lru.BytesOfOne | crates/lgs/src/math_engine.rs:348-369 | And an entry counts with its own bytes, for its own tenant. |
| Lru.AfterTouchGuarantees | crates/lgs/src/math_engine.rs:337-370 | After a touch the touched entry is the newest; one entry is left or both global limits hold; a capped tenant is within its cap or keeps only the touched entry. |
| Lru.WithoutKey | crates/lgs/src/math_engine.rs:337-337 | Dropping a key drops its entries alone and keeps keys distinct. |
| BooksCache.Cache.constructor | crates/lgs/src/math_engine.rs:252-270 | A new cache is empty and settled, with its limits. |
| BooksCache.Cache.SetTenantCap | crates/lgs/src/math_engine.rs:274-283 | Sets or clears one tenant's cap; nothing else changes. |
| BooksCache.Cache.GetModeCell | crates/lgs/src/math_engine.rs:300-305 | The cell already there, or one new empty cell. |
| BooksCache.Cache.GetFileCell | crates/lgs/src/math_engine.rs:310-315 | The cell already there, or one new empty cell; the agreement with the recency list stays. |
| BooksCache.Cache.Evict | crates/lgs/src/math_engine.rs:376-395 | Drops the file only while the map holds that very cell, and with it exactly the modes that draw from its index. |
| BooksCache.Cache.Touch | crates/lgs/src/math_engine.rs:317-370 | In every reachable state: list keys stay distinct and each entry's cell is the one the map holds, also after a stale touch, which changes nothing; otherwise the list is that of the functions above, and files and modes leave exactly with their entries. |
| BooksCache.Cache.LoadBooks | crates/lgs/src/math_engine.rs:545-602 | A load that is not interleaved leaves the loaded files exactly the listed ones and every loaded mode on one of them; it fails exactly when the file was not loaded and cannot be opened. |
| BooksCache.Cache.LoadAssets | crates/lgs/src/math_engine.rs:514-537 | The same for the load of a mode; a mode already loaded is a hit that does not touch the recency list. |
| BooksCache.FilesSettle | crates/lgs/src/math_engine.rs:361-395 | After the touch that ends a load, a file is loaded exactly when it is listed. |
| BooksCache.ModesSettle | crates/lgs/src/math_engine.rs:381-387 | And no mode is left that draws from an index no longer listed. |
| Doubles.RoundsToOne | crates/lgs/src/types.rs:79-79 | Rounding to nearest, ties to even, gives every number one double at most. |
| Doubles.RoundingError | crates/lgs/src/types.rs:79-79 | A number of at most 2^52 units of a power of two moves by at most a quarter of that power when it is rounded. |
| Doubles.LargeDoubleIsEven | crates/lgs/src/types.rs:108-111 | An integer from 2^53 on that a number rounds to is even. |
| Costs.CostIsItsProduct | crates/lgs/src/types.rs:78-85 | An accepted cost is held as the product that the check saw if and only if that is not 2^64. |
| Costs.CostIsNearest | crates/lgs/src/types.rs:78-85 | Any cost, accepted or not, is held as the nearest whole number of thousandths, as one unit when that is zero or not finite, and saturated when too big. |
| CostLimits.ProductIsAsWritten | crates/lgs/src/types.rs:113-115 | However a cost of `k` thousandths is read and multiplied, the product is `k` if and only if `k` comes back from rounding its thousandth part, times 1000. |
| CostLimits.ComesBackExactlyWhen | crates/lgs/src/types.rs:113-115 | A number of thousandths comes back if and only if, doubled or halved to where the rounded thousandth part has the unit one, it is a double within half its own unit of a multiple of 1000, ties to even. |
| CostLimits.AcceptedExactlyWhen | crates/lgs/src/types.rs:113-123 | Up to 1000 * 2^43 thousandths: a cost is accepted if and only if its thousandths, doubled to 1000 * 2^52 or more, are at least 2^62 or within 256 of a multiple of 1000; an accepted cost is held as written. |
| CostLimits.WholeCostsAreKept | crates/lgs/src/types.rs:108-117 | Every whole cost up to 2^43 is accepted and held as written. |
| CostLimits.WrittenCostIsKept | crates/lgs/src/types.rs:75-123 | At any size below 2^64 a cost is accepted and held as written if and only if its thousandths pass that test of residues. |
| CostLimits.ThreeDecimalsCanBeRefused | crates/lgs/src/types.rs:115-121 | 1.001 is refused although it has three decimals. |
| CostLimits.NextCostChanges | crates/lgs/src/types.rs:113-117 | The limit is sharp: a cost of 1000 * 2^43 + 1 thousandths is accepted and held as one more. |
| CostLimits.LargestProductSaturates | crates/lgs/src/types.rs:115-117 | A product of 2^64 is accepted and saturates. |
| Bets.RoundTripLoss | crates/lgs/src/types.rs:87-98 | A base bet staked and read back loses exactly `ceil((b*c mod 1000)/c)`. |
| Bets.RoundTripBound | crates/lgs/src/types.rs:87-98 | That loss is at most `ceil(999/c)` for every cost of `c` thousandths. |
| Bets.RoundTripExact | crates/lgs/src/types.rs:87-98 | It is none if and only if 1000 divides `b*c`. |
| Bets.StepBetsRoundTrip | crates/lgs/src/config.rs:22-73 | Every multiple of the bet step comes back exactly, at any cost. |
| Bets.StakeOfBaseBet | crates/lgs/src/types.rs:87-98 | The base bet bought by a stake never costs more than the stake. |
| Bets.BetsAreMonotone | crates/lgs/src/types.rs:87-98 | Both maps are monotone, saturation included. |
| Payouts.NativeRoundPays | crates/lgs/src/math_engine.rs:670-687 | Every round played natively takes the amount times the cost, rounded down, and pays the amount times the multiplier in hundredths, rounded down, when the stake needs no fraction of a thousandth and nothing saturates; otherwise never more, and less by at most the multiplier of ceil(999/c) units. |
| Payouts.BrowserRoundPays | crates/lgs-wasm/src/lib.rs:453-463 | The same of every round played in the browser. |
| Payouts.StepBetsPayInFull | crates/lgs/src/math_engine.rs:676-681 | So a multiple of the bet step is paid on in full at any cost. |
| Payouts.RoundIsDrawn | crates/lgs/src/math_engine.rs:622-668 | The round has the event and multiplier of the entry whose share of the weights holds the raw value, or of the first entry of a forced id. |
| Payouts.FirstMode | crates/lgs/src/math_engine.rs:485-495 | Of several modes with one name, the first is played. |
| Payouts.UnknownModeTakesAmount | crates/lgs/src/math_engine.rs:497-512 | Of a mode it does not know, and of any mode when one listed cost is not accepted, the native wallet takes the bare amount when it can, and the play fails. |
| WeightedDraw.BuildSampler | crates/lgs/src/math_engine.rs:864-877 | Running sums of the weights; an error exactly when the total does not fit 64 bits. |
| WeightedDraw.WeightedPick | crates/lgs/src/math_engine.rs:1252-1268 | The binary search returns the entry whose share of the total holds the pick. |
| WeightedDraw.ChosenInShare | crates/lgs/src/math_engine.rs:1256-1267 | The chosen entry's share, from the sum before it to the sum with it, holds the pick. |
| WeightedDraw.ShareIsUnique | crates/lgs/src/math_engine.rs:1256-1267 | No pick lies in two shares. |
| WeightedDraw.DrawIsExact | crates/lgs/src/math_engine.rs:1252-1268 | Entry `i` is drawn for exactly its weight many of the values below the total, so never when its weight is zero. |
| WeightedDraw.DrawIsNearlyFair | crates/lgs/src/math_engine.rs:1252-1256 | Over the first `n` raw values (2^64 for the generator), between `weight*floor(n/total)` and `weight*ceil(n/total)` times. |
| SessionStore.Store.Upsert | crates/lgs/src/session.rs:109-132 | The session is the initial one of its parameters; no other session changes. |
| SessionStore.Store.Prepare | crates/lgs/src/session.rs:134-152 | An existing session keeps balance, pending round and history. |
| SessionStore.Store.GetOrCreate | crates/lgs/src/session.rs:189-196 | Returns the session that is there, or one with the defaults. |
| SessionStore.Store.PushEvent | crates/lgs/src/session.rs:170-187 | Puts the entry first and keeps the newest hundred. |
| SessionStore.Store.DeductBet | crates/lgs/src/session.rs:212-223 | Takes the amount exactly when the balance covers it; otherwise nothing changes. |
| SessionStore.Store.AddWinnings | crates/lgs/src/session.rs:225-233 | Adds the amount, saturating. |
| SessionStore.Store.SetActiveRound | crates/lgs/src/session.rs:202-210 | Replaces the pending round alone. |
| SessionStore.Store.NextBetId | crates/lgs/src/session.rs:235-237 | Bet ids count up from the counter. |
| Wallet.Draw | crates/lgs/src/math_engine.rs:622-688 | The outcome of a play, forced or drawn, with every way it can fail. |
| Wallet.Drawable | crates/lgs/src/math_engine.rs:628-679 | An outcome comes if and only if the mode is listed and loaded, and the event, drawn with positive total weight or forced and in the weights, has a book that can be read. |
| Wallet.Play | crates/lgs/src/routes.rs:93-201 | The handler moves the session exactly as the transition function, on every failing branch too, and touches no other session. |
| Wallet.EndRound | crates/lgs/src/routes.rs:209-243 | Credits the pending payout once and clears the round. |
| BrowserWallet.PreviewEngine.Play | crates/lgs-wasm/src/lib.rs:428-492 | The browser's play moves its state as its transition function, failures included. |
| BrowserWallet.PreviewEngine.EndRound | crates/lgs-wasm/src/lib.rs:497-516 | The browser's end of a round does the same. |
| WalletRuns.RunFlow | crates/lgs/src/routes.rs:93-243 | Over every run, with failed plays and saturation: the change of balance plus pending payout is exactly the sum of what each operation is charged with. |
| WalletRuns.Conservation | crates/lgs/src/routes.rs:93-243 | Over every run without failed plays and without saturation, balance plus pending payout is the initial one minus the stakes plus the payouts of all rounds. |
| WalletRuns.NewPlayerConserves | crates/lgs/src/session.rs:109-131 | A new session holds the balance it was given, or the default, and a clean run ends with that and the net of its rounds. |
| WalletRuns.SucceedsWhen | crates/lgs/src/routes.rs:93-201 | A play succeeds if and only if the credited balance covers the stake and the event can be drawn. |
| WalletRuns.PlayConservesExactlyWhen | crates/lgs/src/routes.rs:107-122 | One play without saturation conserves money if and only if those guards hold or the payout it credits twice equals the stake it takes for nothing. |
| WalletRuns.CreditCount | crates/lgs/src/routes.rs:107-115 | Over every run: credits and pending payouts are the pending one at the start, the wins, and one more for each play that fails while a payout is pending. |
| WalletRuns.EachPayoutOnce | crates/lgs/src/routes.rs:107-122 | Over every run: the rounds credited are the winning rounds in order, each once, the last one possibly still pending, if and only if no play fails while a payout is pending. |
| WalletRuns.WinsIncrease | crates/lgs/src/session.rs:235-237 | The bet ids of the winning rounds of a run strictly increase. |
| WalletRuns.FailedPlayCreditsTwice | crates/lgs/src/routes.rs:107-122 | After a failed play the next operation credits the same round again. |
| WalletRuns.TwinPlay | crates/lgs-wasm/src/lib.rs:428-492 | One play of both wallets on the same draw, of a mode loaded alike: the same reply, and states that correspond again. |
| WalletRuns.WalletsAgree | crates/lgs-wasm/src/lib.rs:425-516 | Over every run of plays and ends of rounds, the two wallets show the same balances, payouts, bet ids and failures at each step. |
| WalletRuns.FreshTwins | crates/lgs-wasm/src/lib.rs:282-298 | A fresh in-memory session and a fresh browser engine correspond. |
| WalletRuns.WebSucceedsWhen | crates/lgs-wasm/src/lib.rs:428-469 | The browser's play succeeds if and only if the guards of its branches hold, and its balance moves by the credit less the stake it could take. |
| WalletRuns.TwinsStayTwins | crates/lgs-wasm/src/lib.rs:428-492 | One unforced play of corresponding wallets, whatever each has loaded, draws or thinks of the costs: they correspond afterwards if and only if the balances move alike and both succeed, on the same event and multiplier, or neither does; two successes answer the same exactly on the same draw. |
| WalletRuns.NativeModeParts | crates/lgs-wasm/src/lib.rs:439-442 | A play that succeeds natively, of a mode the browser has not loaded, is refused there and ends the correspondence. |
| WalletRuns.FreshWalletsCanPart | crates/lgs/src/math_engine.rs:622-630 | Such a play of fresh wallets: one mode of cost 1 and one event, amount 0, nothing pending. |
| EventsPlace.SearchFindsFirst | crates/desktop/src/preview.rs:831-852 | The search returns the bracket of the first key, taken from the left without overlap, that white space, a colon, white space and a bracket follow, and nothing if and only if there is no such place. |
| Halving.FindEventsArrayOpen | crates/desktop/src/preview.rs:831-852 | The loop finds the bracket of the first `"events"` key that an array follows. |
| Halving.WalkArray | crates/desktop/src/preview.rs:432-469 | The loop over depth, string and escape flags finds the array's own commas and its closing bracket. |
| Halving.WriteHalvedLine | crates/desktop/src/preview.rs:426-500 | Appends the halved line, or the line itself when there is no array, no end, or at most one item. |
| HalvingProofs.WalkItem | crates/desktop/src/preview.rs:440-469 | The walk over a whole JSON text, however nested and escaped, ends where it began, having seen no comma or bracket of the array itself. |
| HalvingProofs.HalvedKeepsFirstHalf | crates/desktop/src/preview.rs:476-499 | Of an array of `n` JSON texts at the first such place exactly the first `ceil(n/2)` remain, and every byte outside the dropped items. |
| HalvingProofs.HalvedKeepsTheRest | crates/desktop/src/preview.rs:427-430 | A line with no such place, or with an empty array there, comes out unchanged. |
| JsonItems.LiftRun | crates/desktop/src/preview.rs:440-469 | A JSON scan inside a value does not depend on what the value is nested in. |
| JsonItems.ItemsOf | crates/desktop/src/preview.rs:476-486 | What a valid text holds between an array's brackets is a list of JSON texts. |
| JsonItems.RunItems | crates/desktop/src/preview.rs:494-499 | And any non-empty list of JSON texts there is accepted, up to the same state. |
| HalvingJson.HalvedIsJson | crates/desktop/src/preview.rs:422-500 | Of every JSON text, halving makes a JSON text: the same one but for the items past the first half of the array at the first such place. |
| PreviewBooks.HalveBooks | crates/desktop/src/preview.rs:376-399 | The line loop writes the halved non-empty lines, in order. |
| PreviewBooks.HalvedKeepsId | crates/desktop/src/preview.rs:422-500 | A halved line, valid or not, keeps its id. |
| PreviewBooks.HalvedBooksKeepIds | crates/desktop/src/preview.rs:362-420 | Read back line by line, the halved file has the lines of the original, halved, and the same ids in the same order. |
| PreviewBooks.DrainLines | crates/desktop/src/preview.rs:650-659 | Takes exactly the complete lines off the buffer and writes the picked ones. |
| PreviewBooks.StreamFilterBooks | crates/desktop/src/preview.rs:630-668 | For any sizes of the decoder's reads the output is the picked lines of the whole stream, in order. |
| PreviewBooks.FilteredBooksAreClosed | crates/desktop/src/preview.rs:630-668 | In the filtered file a picked id has exactly the books it had, and any other id none. |
| Sampler.AverageIsTheMean | crates/desktop/src/preview.rs:715-721 | The quotient of the wide sums, cut to 32 bits as in the code, is the weighted mean itself: the cut loses nothing. |
| Sampler.WeightedSumAdds | crates/desktop/src/preview.rs:715-720 | The sum behind the mean is the sum of weight times payout over the winners. |
| Sampler.ClosestTo | crates/desktop/src/preview.rs:722-727 | The winner found is the first of those closest to the average. |
| Sampler.SampleEventIds | crates/desktop/src/preview.rs:686-751 | Whatever the shuffles: at most 77 ids, all of the table, so the cut at 100 never applies. Among them are the five highest winners and one closest to the average and, when ids are distinct, exactly fifty of the losing events or all when there are fewer, and seven of each quartile window or all of it, or all winners when there are fewer than four. |
| Sampler.RewrittenHasPicked | crates/desktop/src/preview.rs:570-576 | The rewritten table has each picked entry as often as the original, with weight one, and nothing else. |
| Sampler.SampledPreviewIsClosed | crates/desktop/src/preview.rs:562-597 | Whatever the rewritten table can draw is an entry of the original with its payout, and the filtered file has exactly its books. |
| FileChunker.ReadUpTo | crates/desktop/src/file_chunker.rs:97-106 | Short reads add up to exactly the bytes asked for. |
| FileChunker.MeasureParts | crates/desktop/src/file_chunker.rs:83-109 | The first pass has the sizes and digests of the parts of the file, and the digest of the whole. |
| FileChunker.SplitOne | crates/desktop/src/file_chunker.rs:69-149 | For every length and every pattern of short reads the chunks concatenate to the file; all but the last are full and none is larger; sizes and digests of the first pass are those of the bytes of the second. |
| FileChunker.SplitThenFetch | crates/lgs-wasm/src/lib.rs:366-380 | What the browser puts together is the file. |
| ModeStats.ModeStatsFromRows | crates/server/src/stats.rs:234-273 | Return, hit rate, top win and entries of the table; an error exactly when it has no row or no weight. |
| ModeStats.AnalyseRows | crates/server/src/stats_analysis.rs:47-154 | The analysis has the eight weights of its bands, the return, the variance, its parts above 40 costs and above 10000, the top and the least win, the odds of the top one and the number of distinct payouts. |
| ModeStats.VarianceIsNonNegative | crates/server/src/stats_analysis.rs:146-146 | The variance is the mean square distance from the return, so that clamping it at zero changes nothing. |
| ModeStats.ExtremesAreRows | crates/server/src/stats_analysis.rs:142-145 | The top and the least payout are payouts of the table and bound all others. |
| ModeStats.WeightsAdd | crates/server/src/stats_analysis.rs:91-120 | The weights and payouts of two tables in one are added. |
| ModeStats.WeightsOfOne | crates/server/src/stats_analysis.rs:91-120 | And a row counts with its own weight, in the bands it falls in. |
| ModeStats.BandsAreMultiples | crates/server/src/stats_analysis.rs:91-108 | The integer comparisons of the bands are those of the multiples with the cost, with 40 costs, and with 5000 and 10000. |
| ModeStats.SameThousandths | crates/server/src/stats_analysis.rs:47-60 | Both crates take the same thousandths from an accepted cost, and a cost that is not positive counts as one. |
| ModeStats.OddsOfWeight | crates/server/src/stats_analysis.rs:150-154 | The odds of the top win times its weight are the whole. |
| ModeStats.BandsPartition | crates/server/src/stats_analysis.rs:91-108 | Zero or positive, below the cost or at least it, at most the cost or above it: each pair of weights adds up to the total. |
| ModeStats.ZeroSubBetWinPartition | crates/server/src/stats_analysis.rs:91-99 | For any number of thousandths those three weights add up to the total if and only if it is positive or no weight pays zero. |
| ModeStats.AcceptedCostsPartition | crates/lgs/src/types.rs:108-123 | For every cost the game configuration accepts, the zero, sub-bet and win weights add up to the total. |
| ModeStats.RtpIsWeightedPayout | crates/server/src/stats.rs:261-261 | The sum of shares is the weighted payout over weight and cost. |
| ModeStats.BothAgree | crates/server/src/stats_analysis.rs:139-142 | Return, hit rate, top win and entries of the two aggregations are equal. |
| TailOptimum.WeakDuality | crates/server/src/stats_analysis.rs:362-381 | No choice of masses gains more than a price times the mass plus the excess over that price. |
| TailOptimum.StrongDuality | crates/server/src/stats_analysis.rs:362-381 | For descending values the greedy choice gains exactly that at the price where it stops. |
| TailOptimum.GreedyIsFeasible | crates/server/src/stats_analysis.rs:370-379 | The greedy loop's masses are a choice: each within its row's, together the tail. |
| TailOptimum.GreedyIsOptimal | crates/server/src/stats_analysis.rs:362-381 | No choice gains more than the greedy one. |
| TailOptimum.OptimumOfReordered | crates/server/src/stats_analysis.rs:365-366 | The optimum does not depend on the order of the rows. |
| Cvar.SortDescending | crates/server/src/stats_analysis.rs:365-366 | Sorts by payout, and is a permutation. |
| Cvar.CvarTopTail | crates/server/src/stats_analysis.rs:362-381 | The value is the largest mean any 0.1% of the probability can have. |
| Cvar.TailMeanIgnoresOrder | crates/server/src/stats_analysis.rs:362-366 | Two orders of one table have the same value, however ties are sorted. |
| Cvar.TailMeanBounds | crates/server/src/stats_analysis.rs:358-381 | The value lies between the return and the top win over the cost. |
| Distribution.BucketIndex | crates/server/src/stats_analysis.rs:441-448 | Every positive multiplier has a bucket, the one found. |
| Distribution.BucketOfPayout | crates/server/src/stats_analysis.rs:35-40 | In hundredths, each bucket takes the payouts above its lower and up to its upper edge. |
| Distribution.BucketIsUnique | crates/server/src/stats_analysis.rs:35-40 | And no other. |
| Distribution.AddRow | crates/server/src/stats_analysis.rs:399-409 | A row adds its weight, its payout and its share of the return to its own bucket alone. |
| Distribution.DropTrailing | crates/server/src/stats_analysis.rs:411-420 | Leaving out the empty buckets at the end loses nothing from the sums. |
| Distribution.Distribute | crates/server/src/stats_analysis.rs:385-437 | Each bucket has the edges, share, one-in-how-many, return and number of distinct payouts of its rows; shares add up to the hit rate and contributions to the return; the last bucket listed is the last that holds weight. |
| Distribution.HitRate | crates/server/src/stats_analysis.rs:131-140 | The share that pays is one minus the share that does not. |
| EventStream.HistoryAt | crates/lgs/src/session.rs:173-187 | In every run the event of a push is at place `j` of the history exactly when `j` newer ones came after it, fewer than a hundred, and no reset. |
| EventStream.InFlightUntilSent | crates/lgs/src/session.rs:173-187 | A push is in flight from its insert to its one send. |
| EventStream.SubscribeBeforeSnapshot | crates/lgs/src/devtool.rs:235-246 | A client reads the history only after it has subscribed. |
| EventStream.SnapshotIsHistory | crates/lgs/src/devtool.rs:242-251 | What it is shown is the history at that moment, empty when there is no session, and stays so. |
| EventStream.ChannelCarries | crates/lgs/src/session.rs:87-92 | The client's channel carries exactly what is sent after its subscription and before a reset. |
| EventStream.WhereAnEventArrives | crates/lgs/src/devtool.rs:235-263 | For every interleaving, with resets: exactly when an event is in the snapshot and exactly when it is in the live stream. |
| EventStream.NoLostEvent | crates/lgs/src/devtool.rs:235-263 | Without a reset, an event is in neither only if it was sent before the subscription and a hundred newer ones came before the snapshot, and in both exactly when it was inserted before the snapshot and sent after the subscription. |
| EventStream.DrainedFeedIsComplete | crates/lgs/src/devtool.rs:253-262 | The channel repeats nothing, and a client that has drained it and never fell a channelful behind has heard all of it in order. |
| EventStream.DrainedFeedHasTheLast | crates/lgs/src/devtool.rs:253-262 | However often it fell behind, a client that has drained its channel has heard, last and in order, the last 64 events it carried, or all of fewer. |
| BlobServer.Server.CheckFiles | crates/server/src/api/math.rs:185-195 | Answers with the hashes of the manifest that are not stored, each once, or fails. |
| BlobServer.Server.UploadBlob | crates/server/src/api/math.rs:262-416 | Stores the blob, unless it is refused; the answer may be lost after it is stored. |
| BlobServer.Server.CreateRevision | crates/server/src/api/math.rs:469-563 | Unless refused outright, names the missing hashes as long as there are any, before a quota or a stale parent is looked at. |
| BlobServer.MissingIs | crates/server/src/api/math.rs:212-231 | The hashes named are exactly those of the manifest that are not stored. |
| BlobServer.MissingOnce | crates/server/src/api/math.rs:197-209 | And each is named once. |
| BlobServer.NothingVanishes | crates/protocol/src/math.rs:49-66 | While nothing vanishes, what is stored stays, and every accepted upload is stored. |
| PushUploads.UploadMissing | crates/cli/src/push.rs:255-309 | For every interleaving of at most four uploads: each entry gets one to four attempts, each after the first only upon a retryable failure, ended only by success, a fatal failure or the fourth; the result is the total size exactly when all were accepted, otherwise one of the final failures. |
| Push.ManifestLists | crates/cli/src/push.rs:78-86 | The manifest lists the scanned files in order, each with its path, hash and size. |
| Push.BytesAdd | crates/cli/src/push.rs:226-234 | The bytes reported are the sum of the sizes. |
| Push.SelectedIsWanted | crates/cli/src/push.rs:238-250 | Only scanned files whose hash is asked for are selected. |
| Push.WantedIsSelected | crates/cli/src/push.rs:238-250 | All of them are. |
| Push.ExecutePush | crates/cli/src/push.rs:169-234 | The calls of a push and its outcome, on every branch: check, uploads, commit, at most one retry, and the totals reported. |
| PushRuns.AtMostTwoCommits | crates/cli/src/push.rs:194-225 | At most two commits, both of the scanned manifest on the given parent; a second one only after missing blobs; a stale parent ends the push. |
| PushRuns.MissingIsRetried | crates/cli/src/push.rs:204-216 | Whatever blobs a refused commit names, their files are uploaded again, and the commit is made again if and only if all are accepted. |
| PushRuns.UploadsAreNamed | crates/cli/src/push.rs:178-214 | Every upload is of a manifest hash that the server named in an earlier answer. |
| PushRuns.NoCommitAfterFailure | crates/cli/src/push.rs:192-216 | Between a failed upload and any later commit the same entry was uploaded with success. |
| PushRuns.FourAttemptsARound | crates/cli/src/push.rs:285-309 | In each round at most four attempts at a blob for each scanned file that holds it. |
| PushAttempts.FatalFailureStops | crates/cli/src/push.rs:285-305 | After a failure other than a lost connection, a server error or a request to slow down, an entry is not tried again in its round. |
| PushAttempts.LostAttemptIsRepeated | crates/cli/src/push.rs:285-305 | After one of those it is, unless it was the fourth attempt. |
| PushAttempts.AtMostFourExactlyWhen | crates/cli/src/push.rs:28-29 | No round tries a blob more than four times, whatever the server asks and answers, if and only if at most one scanned file holds it. |
| PushAttempts.PushAtMostExactlyWhen | crates/cli/src/push.rs:169-234 | For every manifest, blob and number: no push tries the blob more often than that number if and only if the number is at least eight for each scanned file that holds it. |
| PushAttempts.PushAtMostFourExactlyWhen | crates/cli/src/push.rs:28-29 | So no push tries a blob more than four times if and only if no scanned file holds it. |
| PushAttempts.EightAttempts | crates/cli/src/push.rs:204-216 | A push that tries the blob of its one file eight times, and succeeds, against a server that turns uploads away and loses the blob once. |
| PushSettles.CommitNeedsBlobs | crates/server/src/api/math.rs:481-507 | A commit that is not otherwise refused goes through if and only if every blob is there, and otherwise names the missing ones. |
| PushSettles.RetryCompletes | crates/cli/src/push.rs:204-216 | If nothing of the manifest vanishes after the first commit, an accepted retry round leaves the whole manifest stored. |
| PushSettles.RetryDecides | crates/cli/src/push.rs:216-216 | A retried commit decides the push: it succeeds if and only if the whole manifest is stored at that moment. |
| PushSettles.SettledPush | crates/cli/src/push.rs:169-234 | If nothing of the manifest vanishes after the first commit and the server refuses only for missing blobs, then a push either succeeds or ends with a failed upload. |

## Left out

- IndexLimits.IndexIsRightExactlyWhen: for files in which no id comes twice; `IndexRepeats.RightExactlyWhen` has the condition for every complete index.
- BuildIndex.LineIndexAgreesWithScan: stated for strict JSONL (one object per non-blank line, head not ending inside the digits); the exact condition for any file is `IndexRepeats.RightExactlyWhen`.
- OpenBooks.EventRange: requires a sidecar that an open of the same buffer wrote, or one that does not open; the code trusts the records of any other that opens. What is read of the record's `events` is not modelled.
- BooksCache.Cache.LoadAssets: holds when loads do not interleave; the mode cell is set after the file's touch, so an eviction in between can leave a mode on an unlisted file. `Touch` and `Evict` hold for any interleaving, since the list's lock makes them atomic.
- WalletRuns.Conservation: excludes failed plays and saturated credits, for which `RunFlow` gives the exact drift.
- WalletRuns.WalletsAgree: excludes forced events, configs with a cost that is not accepted, and modes that are not listed or that the two sides have not loaded alike; `TwinsStayTwins` has the exact condition for each unforced play of those. The state text of a round is not compared.
- Tables whose weights add up to zero: a draw from one panics, which ends the native process and leaves the browser engine unusable, so the wallets take only tables with a positive total.
- Sampler.SampleEventIds: counts losers and quartile picks for tables whose ids are distinct; of an id that comes twice one pick stands for both entries.
- EventStream.NoLostEvent: excludes resets, which `WhereAnEventArrives` covers, and a client that falls a channelful behind, which `DrainedFeedIsComplete` covers.
- PushSettles.SettledPush: one direction; a push may also succeed although blobs vanish, and `RetryDecides` has the exact condition on the stored blobs.
- Halving.WalkArray: the depth counter wraps below zero as in a release build; a debug build would panic on such a line, which no JSON text is.
- ModeStats.AnalyseRows: the square root of the variance and its label, the streaks, and the compliance rows built from the figures are not modelled.
- Doubles.IsNearest: normal doubles of any exponent; subnormal results are left out, and infinite ones are the absent product.
- Rounding in the statistics, whose numbers are reals.
- Parsing of the weights text, identical in its four copies; tables are sequences of entries.
- The overflow of the sum of cached bytes and of the bet counter at 2^64.
- Persistence of sessions, locks and timing: each handler is one atomic step on its session, except the pushes of the live feed.
- Compression, digests, memory mapping, temporary files and renames; a decoder is a sequence of reads and a digest a given function.
- HTTP, authentication, quotas, billing, and the pruning of old revisions, which appear only as refusals or vanishing blobs.
- The names of chunk files and their URLs; progress reports, waiting for statistics, and the second push client for front bundles, which repeats the first.
- Sleeping between upload attempts; the order in which attempts interleave is arbitrary.
