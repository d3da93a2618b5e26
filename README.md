# Log-structured key/value store: verified model of the storage engine

This project models the storage engine in `datastore/db.go` in Dafny and proves its properties. The engine keeps one append-only log file, `current-data`, in a directory:

- `Put` appends a length-prefixed record of a key and a value to that file.
- The in-memory hash index maps each key to the offset where its newest record starts.
- `Get` seeks to that offset and decodes the record found there.
- Opening a store (`NewDb`) replays the log from offset 0 and rebuilds the index (`recover`).
- Segment files are named from a counter (`generateSegmentFileName`).
- Segment files are chained (`createNewSegment`).
- The chain is compacted (`mergeSegments`): every segment but the tail is merged into one new segment, which keeps only each key's newest value. The chain is then that segment followed by the old tail.

Modules:

- `Codec` (codec.dfy): the record format. Each record is `total_size | key_len | key | value_len | value`, with every length a little-endian uint32, so a record is 12 + |key| + |value| bytes. This module has Encode, Decode, readValue, the log a sequence of puts writes, and the round trips between them. The Go code defining the entry type, its Encode and Decode, and readValue is not part of this model, so the codec is written from that record layout.
- `Recovery` (recovery.dfy): `recover`'s loop as a function over the file's bytes, written for any record reader. It also proves what recovering a log of puts rebuilds.
- `Segments` (segments.dfy): the segment datatype, segment file names, `hasKeyInSegments`, `fetchValueFromSegment`, and the newest-holder rule compaction follows.
- `Compaction` (compaction.dfy): what a merge must produce. Each key of the merged segments appears once, with the value of its newest occurrence. It also has the invariants of the merge loops.
- `Datastore` (datastore.dfy): the `Db` class, whose methods update its fields in place. The loops of `recover` and `mergeSegments` are methods proved against the functions above.
- `Scenarios` (scenarios.dfy): the claims of `datastore/db_test.go`, stated for any keys and values, as client methods with postconditions.

The files of the store's directory are a field `files: map<Path, Bytes>` of `Db`. An operating-system call that can fail (open, write) takes a boolean that says whether it fails. Keys and values are Go strings, which are byte strings, so they are modelled as sequences of bytes (`Bytes`).

## Model

| member | source | states |
|---|---|---|
| Codec.Encode | datastore/db.go:157-160 | The record of an entry is exactly 12 + key length + value length bytes, and it starts with that size as a uint32. The offset advances by this amount. |
| Codec.Decode | datastore/db.go:114-115 | A decoded entry's fields fit within the buffer and are shorter than 2^32. Every failure is a malformed-record error. |
| Codec.DecodeEncode | datastore/db.go:114-115 | Decoding the record Encode produced for an entry that fits the uint32 prefix gives back that entry. |
| Codec.EncodeDecode | datastore/db.go:100-115 | Converse round trip: a buffer that decodes to an entry, has that entry's record length and starts with the right size prefix is that entry's encoding. |
| Codec.DecodeExtend | datastore/db.go:144-145 | Decoding depends only on the record's own bytes: bytes after it do not change the result. |
| Codec.ReadValue | datastore/db.go:139-148 | A value readValue returns lies wholly inside the file, after the 12 framing bytes at the offset. readValue never reports not-found. |
| Codec.ReadValueStable | datastore/db.go:139-148 | A value that can be read at an offset is still read the same after more records are appended to the file. |
| Codec.ReadValueAppended | datastore/db.go:152-163 | Put's round trip at the byte level: reading at the old end of a file to which a record was appended yields that record's value. |
| Codec.LogGrowthDoubles | datastore/db_test.go:68-83 | The log of a sequence of puts followed by the same puts again is exactly twice as long as the log of the first sequence. |
| Recovery.ReadRecord | datastore/db.go:88-118 | One turn of recover's loop fails with io.EOF exactly at the end of the file. A record it reads is at least as long as its fields and lies within the remaining bytes. Its only errors are io.EOF, "corrupted file" and a malformed record, and a size prefix larger than the bytes left is always "corrupted file". |
| Recovery.ReplayWith | datastore/db.go:87-120 | recover's loop as a function: each record read maps its key to its start offset, until the first failed read. Keys already indexed stay indexed. Where it stops is stated by Recovery.ReplayBounds, and what it indexes by Recovery.ReplayIndexes and Recovery.RecoveredLog. |
| Recovery.Recovered | datastore/db.go:78-121 | recover run from offset 0 with an empty index. It never passes the end of the file, and it consumes the whole file exactly when it stops with io.EOF. |
| Recovery.ReplayBounds | datastore/db.go:87-120 | Replay stops between its start and the end of the file. It stops at the end exactly when the error that stops it is io.EOF. |
| Recovery.ReplayIndexes | datastore/db.go:114-116 | Replay only ever points a key at an offset where a record of that key is read. |
| Recovery.ReadValueOfRecord | datastore/db.go:139-145 | The record recover reads at an offset is the one readValue finds there. The two readers agree on its value. |
| Recovery.RecoveredAppend | datastore/db.go:78-121 | If a file's recovery ends cleanly, the same file with one record appended also recovers cleanly. The index is then the old one with the record's key mapped to the old end, and the offset grows by the record's length. |
| Recovery.RecoveredIndexReadable | datastore/db.go:78-121 | After a clean recovery the offset is the file's length, and every indexed key's value can be read. |
| Recovery.ReadRecordTruncated | datastore/db.go:100-112 | Only the first bytes of a record, its size prefix among them but not all of it, read as "corrupted file" at the record's start. |
| Recovery.RecoveredTruncated | datastore/db.go:100-112 | A write cut short stops recovery: a cleanly recovering file followed by only part of one more record (its size prefix and fewer than all its bytes) recovers with "corrupted file" at the old end, keeping the index of the whole records before it. NewDb then fails. |
| Recovery.RecoveredLog | datastore/db.go:78-121 | Recovering the log written by a sequence of puts ends with io.EOF at its end. The index maps each key to the start of its newest record. |
| Recovery.LogReadsNewestValues | datastore/db.go:127-150 | Under the index rebuilt from a log of puts, the indexed keys are exactly the keys put. Each key reads back as the value put last for it. |
| Segments.DecimalRoundTrip | datastore/db.go:188 | The digits %d prints for a counter value are decimal digits and spell that value. |
| Segments.SegmentFileNameParses | datastore/db.go:187-191 | A segment file name carries the counter value it was built from: parsing the name gives the value back. |
| Segments.SegmentFileNamesDistinct | datastore/db.go:187-191 | Distinct counter values give distinct segment file names, and no segment file name is the active log's name. |
| Segments.HasKeyInSegments | datastore/db.go:231-238 | True exactly when some segment's index holds the key. |
| Segments.FetchValueFromSegment | datastore/db.go:240-258 | Succeeds exactly when the segment's file exists and a value can be read at the offset. It then gives the value found there. |
| Segments.FetchOrEmpty | datastore/db.go:215 | mergeSegments' fetch, which drops the error: a failed fetch gives the empty value, and a non-empty value lies inside the segment's file. Which value a merged key gets is stated by Datastore.MergeKey. |
| Segments.NewestHolder | datastore/db.go:206-214 | The last segment whose index holds the key. It is -1 exactly when none does, and no later segment holds the key. |
| Segments.NewerHolder | datastore/db.go:209-213 | A key of segment i is held by a later segment exactly when segment i is not its newest holder. |
| Segments.SkipUnlessNewest | datastore/db.go:205-214 | mergeSegments' skip test skips a key met in a merged segment exactly when that segment is not its newest holder among the merged segments. The last merged segment skips nothing. |
| Compaction.MergedReadsNewest | datastore/db.go:194-228 | The index of a merge holds exactly the merged segments' keys, except those whose write failed. Reading the merged file at those offsets gives each key the value of its newest occurrence. |
| Compaction.MergedRecordCount | datastore/db_test.go:152-162 | A merge holds one record per key, and its file's size is the sum of those records' lengths. |
| Datastore.Db.constructor | datastore/db.go:65-69 | The Db struct NewDb builds: writing to the active log, with an empty index, offset 0 and no segments. Its directory is the one given (corrected; see ## Findings). |
| Datastore.Db.NewDb | datastore/db.go:59-75 | A failed open returns the error. Otherwise the store exists exactly when recovery of the (possibly new, empty) log ends at io.EOF, and any other error is returned. An opened store's index and offset are those recovery rebuilds, and its directory is the one given (corrected; see ## Findings). |
| Datastore.Db.Recover | datastore/db.go:78-121 | The index and offset are those of replaying the active log from offset 0, and the error is the one that stopped the replay. An active log that cannot be opened is an error. |
| Datastore.ReplayLog | datastore/db.go:87-120 | recover's loop, for any record reader, returns the stopping error, index and offset that the replay function defines. |
| Datastore.Db.Get | datastore/db.go:127-150 | ErrNotFound exactly for keys the index does not hold. A value read lies wholly inside the active log. |
| Datastore.Db.SyncedKeysReadable | datastore/db.go:127-150 | While the index is the one recovering the active log would rebuild, every indexed key can be read. |
| Datastore.Db.GetReadsLastPut | datastore/db.go:127-150 | While the active log is the log of a sequence of puts, Get gives each key the value put last for it, and ErrNotFound for a key never put. |
| Datastore.Db.Put | datastore/db.go:152-163 | A successful write appends the record to the file being written, indexes the key at the old offset, advances the offset by the record's length and leaves every other key's entry alone. A failed write changes nothing. Put keeps the index the one recovery would rebuild, the key reads back as the value just put, and a log of puts stays a log of puts. |
| Datastore.Db.GenerateSegmentFileName | datastore/db.go:187-191 | Returns the name built from the counter's current value, then advances the counter by one. |
| Datastore.Db.SegmentFilesDistinct | datastore/db.go:187-191 | No two segments of the chain share a file. |
| Datastore.Db.CreateNewSegment | datastore/db.go:166-185 | The counter always advances. When the open succeeds, writes go to the new file from offset 0, and a segment with an empty index joins the tail of the chain. When it fails, nothing else changes. Segment names stay distinct. |
| Datastore.Db.CurrentSegment | datastore/db.go:261-264 | getCurrentSegment: the chain's last segment, named from the counter value recorded for it. Under Valid() its name pins it to the tail. After a merge the tail's counter value is older than the merged head's, because the merged file is named after it. MergeSegments' ensures keep it as the tail of the new chain. |
| Datastore.Db.MergeSegments | datastore/db.go:194-228 | When the open fails, only the counter moves. Otherwise the entries written are a merge of every segment but the tail, the new file holds their log, and the chain becomes the merged segment (indexed from offset 0) followed by the old tail (getCurrentSegment, datastore/db.go:261-264). |
| Datastore.WriteMerged | datastore/db.go:200-226 | The loops of mergeSegments write a merge of the segments but the tail. The bytes written are its log, and the index maps each key to where its record starts. |
| Datastore.MergeSegment | datastore/db.go:206-226 | One turn of the outer loop extends the merge by exactly the keys whose newest holder is segment i. The bytes already written stay as a prefix, and keys already indexed stay indexed. |
| Datastore.MergeKey | datastore/db.go:208-225 | One key of segment i is written exactly when segment i is its newest holder and its write succeeds. The outputs are then the old bytes followed by the record of the key and the value fetched from that segment, the key indexed at the old offset, and the offset advanced by the record's length. Otherwise the bytes, index and offset are unchanged. |
| Datastore.SegmentNameAsWritten | datastore/db.go:187-191 | With db.dir left empty, as NewDb leaves it, the first segment of a store opened on "tmp" is "current-data0", not "tmp/current-data0" beside "tmp/current-data". |
| Scenarios.TestPairsLog | datastore/db_test.go:158 | The three test pairs fit the record format and have distinct keys, and their three records take 66 bytes. |
| Scenarios.PutGet | datastore/db_test.go:43-58 | On a fresh store, each pair put reads back as its value at once. |
| Scenarios.FileGrowth | datastore/db_test.go:61-83 | Putting the same pairs a second time exactly doubles the log's size. The size measured is that of `current-data`, the file Put writes to. The test measures `current-data0` (datastore/db_test.go:35-36), a file the shown NewDb never creates. |
| Scenarios.Reopen | datastore/db_test.go:84-103 | After the pairs are put twice, a store opened again on the same files reads each key back as its value. This holds for pairs with distinct keys, as the test's are. |
| Scenarios.LastWriteWins | datastore/db_test.go:164-172 | A key put again after other pairs reads as its second value, and it still does after the store is reopened. |

## Left out

- I/O is modelled as a map from paths to byte sequences. This covers file handles, `Seek`, `Close` and file permissions.
- Recovery.ReadRecord: the 8192-byte bufio buffer is not modelled. recover reads min(size, remaining) bytes. In the program, `Read` after `Peek(8192)` returns at most the buffered bytes, so a record longer than 8192 bytes reads short and recover stops with "corrupted file" (datastore/db.go:92, 102-112). Every result about a recovered log therefore holds in the program only for records of at most 8192 bytes. This includes Recovery.RecoveredAppend, Recovery.RecoveredLog, Datastore.Db.NewDb, Scenarios.Reopen and the reopen half of Scenarios.LastWriteWins.
- Truncated records: a final record shorter than its size prefix is a "corrupted file" error, which stops NewDb (Recovery.RecoveredTruncated).
- Codec.Decode: the code defining the entry type is not part of this model. A header shorter than four bytes makes `binary.LittleEndian.Uint32` panic (datastore/db.go:100), which the model reports as a malformed-record error. For field lengths that do not fit the record, the model assumes decoding fails with a malformed-record error. The Go code may instead panic, or read bytes left over in the 8192-byte buffer (datastore/db.go:85, 103), index the key and go on. A size prefix of 0 is also a malformed record in the model. In the Go code, reading into an empty slice returns 0 bytes and no error while bytes are buffered (datastore/db.go:103, 107). Then n == size and the offset advances by 0 (datastore/db.go:117), so unless decoding panics, recover reads the same record forever.
- Codec.ReadValue: readValue is not part of this model. The model assumes it decodes the record at the offset, and reports any failure as io.EOF.
- Codec.PutUint32: sizes of 2^32 bytes or more wrap modulo 2^32, as the uint32 conversion does. The round trips require the record to fit (`Fits`).
- int64 offsets are unbounded integers. Overflow past 2^63 bytes is not modelled.
- Segments.JoinPath: filepath.Join is modelled as concatenation with "/". Its lexical cleaning of paths is not modelled.
- Datastore.Db.Get: as written, it reads the active log (`outPath`) even after createNewSegment redirects writes to a segment file. Its round trip is proved only while writes go to the active log (`Synced`, `Logs`).
- Put never fills a segment's index, and segment files are not recovered when a store is opened. Both are as written.
- Segment rotation at a size budget, and compaction triggered from createNewSegment, are not modelled. The code has no rotation, and the compaction trigger is commented out. createNewSegment and mergeSegments are modelled as explicit operations. The same applies to the segment-size argument the tests pass to NewDb, which takes only a directory.
- The channel fields of Db, the background timing the segmentation test waits for, and closing the store are not modelled: they are concurrency and resource handling.
- Datastore.Db.MergeSegments: it requires a non-empty chain. On an empty chain, getCurrentSegment indexes out of range and panics.
- mergeSegments visits map keys in Go's unspecified order. Each step is modelled as an arbitrary choice, so the model states index contents and values, not the byte order of the merged file.
- Errors from fetchValueFromSegment are ignored, as written: the value is then empty.
- A write failure is a set of keys whose writes fail. A failed write appends nothing.
- Writes to a file opened with O_APPEND go after whatever the file already holds. A merged log starts at offset 0 of its index even if the file already held bytes, as written.
- The HTTP server, the db command, the load balancer and its integration test are not part of this model.

## Findings

| source | as written | input that shows it | evidently intended | confidence | as-written member | corrected member |
|---|---|---|---|---|---|---|
| datastore/db.go:59-75 | NewDb never assigns db.dir, so generateSegmentFileName (datastore/db.go:187-191) joins segment names onto the empty string. | NewDb("tmp") then createNewSegment creates "current-data0" in the working directory, not "tmp/current-data0" next to "tmp/current-data". The test expects the latter (datastore/db_test.go:35). | db.dir is set to the directory the store is opened on. | not executed; high | Datastore.SegmentNameAsWritten | Datastore.Db.NewDb |
