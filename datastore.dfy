/** The store itself: the Db of datastore/db.go, whose methods append records to the active log,
    look keys up through the in-memory index, rebuild that index from the log when the store is
    opened, chain segment files and merge them.  The files of the directory are the field
    `files`; an operating-system call that can fail takes a boolean saying whether it does. */
module Datastore {
  import opened Codec
  import opened Recovery
  import opened Segments
  import opened Compaction

  /** What a file holds, or nothing if it is not there (os.O_CREATE creates it empty). */
  function Contents(files: map<Path, Bytes>, path: Path): Bytes
  {
    if path in files then files[path] else []
  }

  class Db {
    /** The files of the store's directory, by path. */
    var files: map<Path, Bytes>
    /** The file db.out writes to: the active log, or the newest segment file once one is created. */
    var out: Path
    /** The active log, current-data in the store's directory. */
    const outPath: Path
    /** The directory segment files are created in. */
    const dir: Path
    /** Where the next record written to `out` starts. */
    var outOffset: int
    /** The counter segment file names are built from. */
    var lastSegmentIndex: nat
    /** Where each key's newest record starts. */
    var index: map<Bytes, int>
    var segments: seq<Segment>
    /** The counter value each segment's file name was built from. */
    ghost var counters: seq<nat>

    /** The file db.out writes to is open, and every segment has a file name of its own built
        from a counter value already used. */
    ghost predicate Valid()
      reads this
    {
      out in files && SegmentsNamed(dir, segments, counters, lastSegmentIndex)
    }

    /** Writes go to the active log, and the index and offset are exactly what recovering that
        log rebuilds: every key indexed there resolves to its newest record. */
    ghost predicate Synced()
      reads this
    {
      && out == outPath && outPath in files
      && Recovered(files[outPath]).err == EndOfFile
      && Recovered(files[outPath]).index == index && Recovered(files[outPath]).offset == outOffset
    }

    /** The struct NewDb builds: the active log already opened, an empty index, no segment. */
    constructor(dir: Path, outPath: Path, files: map<Path, Bytes>)
      requires outPath in files
      ensures this.dir == dir && this.outPath == outPath && this.files == files
      ensures out == outPath && index == map[] && outOffset == 0
      ensures lastSegmentIndex == 0 && segments == []
      ensures Valid()
    {
      this.dir := dir;
      this.outPath := outPath;
      this.files := files;
      out := outPath;
      index := map[];
      outOffset := 0;
      lastSegmentIndex := 0;
      segments := [];
      counters := [];
    }

    /** NewDb: open (creating it if need be) current-data in dir, then rebuild the index from
        it.  Recovery ending at io.EOF is success; any other error is returned. */
    static method NewDb(dir: Path, files: map<Path, Bytes>, openFails: bool) returns (db: Db?, result: Outcome)
      ensures openFails ==> db == null && result == Fail(IoFailure)
      ensures !openFails ==>
        var path := JoinPath(dir, OutFileName);
        var log := Contents(files, path);
        && (db != null <==> Recovered(log).err == EndOfFile)
        && (db == null ==> result == Fail(Recovered(log).err))
        && (db != null ==>
              && fresh(db) && result == Pass && db.Valid() && db.Synced()
              && db.dir == dir && db.outPath == path && db.files == files[path := log]
              && db.index == Recovered(log).index && db.outOffset == |log|
              && db.segments == [] && db.lastSegmentIndex == 0)
    {
      var outputPath := JoinPath(dir, OutFileName);
      if openFails {
        return null, Fail(IoFailure);
      }
      var withLog := files[outputPath := Contents(files, outputPath)];
      db := new Db(dir, outputPath, withLog);
      var err := db.Recover();
      if err != EndOfFile {
        return null, Fail(err);
      }
      RecoveredIndexReadable(withLog[outputPath]);
      result := Pass;
    }

    /** recover: replay the active log from its start, mapping each record's key to the offset
        the record starts at and advancing by the record's size, until a read fails.  The error
        that stops it is returned; io.EOF means the log ended cleanly. */
    method Recover() returns (err: Error)
      requires index == map[] && outOffset == 0
      modifies this`index, this`outOffset
      ensures outPath !in files ==> err == IoFailure && index == map[] && outOffset == 0
      ensures outPath in files ==>
        var r := Recovered(files[outPath]);
        err == r.err && index == r.index && outOffset == r.offset
    {
      if outPath !in files {
        return IoFailure;
      }
      ReadRecordIsReader();
      err, index, outOffset := ReplayLog(ReadRecord, files[outPath]);
    }

    /** Get: ErrNotFound for a key the index does not hold; otherwise the value of the record at
        the key's offset in the active log. */
    function Get(key: Bytes): (r: Result<Bytes>)
      reads this
      ensures r == Err(NotFound) <==> key !in index
      ensures r.Ok? ==>
        outPath in files && 0 <= index[key] && index[key] + FramingSize + |r.value| <= |files[outPath]|
    {
      if key !in index then Err(NotFound)
      else if outPath !in files then Err(IoFailure)
      else ReadValue(files[outPath], index[key])
    }

    /** While the index is the one recovery would rebuild, every key it holds can be read. */
    lemma SyncedKeysReadable(key: Bytes)
      requires Synced() && key in index
      ensures Get(key).Ok?
    {
      RecoveredIndexReadable(files[outPath]);
    }

    /** The active log is the log of these puts, written to from its end, and the index maps
        each key to the newest of their records. */
    ghost predicate Logs(entries: seq<Entry>)
      reads this
    {
      && out == outPath && outPath in files
      && files[outPath] == LogOf(entries) && index == IndexOfLog(entries) && outOffset == |LogOf(entries)|
      && forall i :: 0 <= i < |entries| ==> Fits(entries[i])
    }

    /** While the active log is the log of a sequence of puts, Get gives each key the value put
        last for it, and ErrNotFound for a key never put. */
    lemma GetReadsLastPut(entries: seq<Entry>)
      requires Logs(entries)
      ensures forall k :: Get(k) == if k in ValuesOfLog(entries) then Ok(ValuesOfLog(entries)[k]) else Err(NotFound)
    {
      LogReadsNewestValues(entries);
    }

    /** Put: append the record of (key, value) to db.out; if the write succeeds, index the key
        at the offset the record starts at and advance the offset by the bytes written.  Writing
        the active log keeps the index the one recovery would rebuild, and the key then reads
        back as the value just put. */
    method Put(key: Bytes, value: Bytes, writeFails: bool) returns (result: Outcome)
      requires Valid()
      modifies this`files, this`index, this`outOffset
      ensures Valid()
      ensures writeFails ==> result == Fail(IoFailure) && files == old(files) && index == old(index) && outOffset == old(outOffset)
      ensures !writeFails ==>
        && result == Pass
        && files == old(files)[out := old(files[out]) + Encode(Entry(key, value))]
        && index == old(index)[key := old(outOffset)]
        && outOffset == old(outOffset) + RecordLength(Entry(key, value))
      ensures old(Synced()) && Fits(Entry(key, value)) ==> Synced()
      ensures old(Synced()) && Fits(Entry(key, value)) && result == Pass ==> Get(key) == Ok(value)
      ensures forall entries :: old(Logs(entries)) && Fits(Entry(key, value)) && result == Pass ==>
        Logs(entries + [Entry(key, value)])
    {
      var e := Entry(key, value);
      if writeFails {
        return Fail(IoFailure);
      }
      if Synced() && Fits(e) {
        RecoveredIndexReadable(files[out]);
        RecoveredAppend(files[out], e);
        ReadValueAppended(files[out], e);
      }
      forall entries | Logs(entries) && Fits(e) {
        LogStep(entries, e);
      }
      var record := Encode(e);
      files := files[out := files[out] + record];
      index := index[key := outOffset];
      outOffset := outOffset + |record|;
      result := Pass;
    }

    /** No two segments of the chain share a file. */
    lemma SegmentFilesDistinct()
      requires Valid()
      ensures forall i, j :: 0 <= i < j < |segments| ==> segments[i].filePath != segments[j].filePath
    {
      SegmentsNamedDistinct(dir, segments, counters, lastSegmentIndex);
    }

    /** generateSegmentFileName: the name built from the counter, which then moves on. */
    method GenerateSegmentFileName() returns (name: Path)
      modifies this`lastSegmentIndex
      ensures lastSegmentIndex == old(lastSegmentIndex) + 1
      ensures name == SegmentFileName(dir, old(lastSegmentIndex))
    {
      name := SegmentFileName(dir, lastSegmentIndex);
      lastSegmentIndex := lastSegmentIndex + 1;
    }

    /** createNewSegment: open a segment file under a new name and make it the file written
        to, from offset 0, with an empty-index segment for it at the tail of the chain.  If the
        file cannot be opened only the counter has moved. */
    method CreateNewSegment(openFails: bool) returns (result: Outcome)
      requires Valid()
      modifies this`files, this`out, this`outOffset, this`segments, this`counters, this`lastSegmentIndex
      ensures Valid()
      ensures lastSegmentIndex == old(lastSegmentIndex) + 1
      ensures openFails ==> result == Fail(IoFailure) && unchanged(this`files, this`out, this`outOffset, this`segments)
      ensures !openFails ==>
        var name := SegmentFileName(dir, old(lastSegmentIndex));
        && result == Pass
        && files == old(files)[name := Contents(old(files), name)]
        && out == name && outOffset == 0
        && segments == old(segments) + [Segment(0, map[], name)]
    {
      var name := GenerateSegmentFileName();
      if openFails {
        SegmentsNamedCounter(dir, segments, counters, old(lastSegmentIndex));
        return Fail(IoFailure);
      }
      SegmentsNamedPush(dir, segments, counters, old(lastSegmentIndex), Segment(0, map[], name));
      counters := counters + [old(lastSegmentIndex)];
      files := files[name := Contents(files, name)];
      out := name;
      outOffset := 0;
      segments := segments + [Segment(0, map[], name)];
      result := Pass;
    }

    /** getCurrentSegment: the tail of the chain. */
    function CurrentSegment(): (r: Segment)
      reads this
      requires |segments| > 0
      ensures r in segments
      ensures Valid() ==> r.filePath == SegmentFileName(dir, counters[|counters| - 1])
    {
      segments[|segments| - 1]
    }

    /** mergeSegments: write every key of the segments but the tail, visiting them oldest first
        and skipping a key a newer one of them holds, into a new segment file, and make the chain
        that segment followed by the tail.  If the file cannot be opened only the counter has
        moved.  `merged` is the sequence of entries written, in order. */
    method MergeSegments(openFails: bool, failedWrites: set<Bytes>) returns (ghost merged: seq<Entry>)
      requires Valid() && |segments| > 0
      modifies this`files, this`segments, this`counters, this`lastSegmentIndex
      ensures Valid()
      ensures lastSegmentIndex == old(lastSegmentIndex) + 1
      ensures openFails ==> files == old(files) && segments == old(segments)
      ensures !openFails ==>
        MergedChain(old(files), old(segments), failedWrites, merged, SegmentFileName(dir, old(lastSegmentIndex)), files, segments)
    {
      var chain, before := segments, files;
      // The chain's tail, read up front: nothing below changes the chain before it is replaced.
      var tail := CurrentSegment();
      var name := GenerateSegmentFileName();
      merged := [];
      if openFails {
        SegmentsNamedCounter(dir, chain, counters, old(lastSegmentIndex));
        return;
      }
      var newIndex, written;
      newIndex, written, merged := WriteMerged(before, chain, failedWrites);
      SegmentsNamedMerge(dir, chain, counters, old(lastSegmentIndex), Segment(0, newIndex, name));
      counters := [old(lastSegmentIndex), counters[|counters| - 1]];
      MergedChainOf(before, chain, failedWrites, merged, name, newIndex, written);
      files := before[name := Contents(before, name) + written];
      segments := [Segment(0, newIndex, name), tail];
    }
  }

  /** As written, NewDb never assigns db.dir, which keeps Go's zero value, the empty string;
      generateSegmentFileName then names the first segment of a store opened on "tmp"
      "current-data0", in the working directory, not "tmp/current-data0" beside the log. */
  lemma SegmentNameAsWritten()
    ensures SegmentFileName([], 0) == "current-data0"
    ensures SegmentFileName("tmp", 0) == "tmp/current-data0"
    ensures JoinPath("tmp", OutFileName) == "tmp/current-data"
  {
  }

  /** After mergeSegments: `merged` is a compaction of all segments of `segments` but the tail,
      its log is appended to the file `name`, and the chain is that file's segment, indexed as
      the log says, followed by the tail. */
  ghost predicate MergedChain(files: map<Path, Bytes>, segments: seq<Segment>, failedWrites: set<Bytes>,
                              merged: seq<Entry>, name: Path, filesAfter: map<Path, Bytes>, segmentsAfter: seq<Segment>)
  {
    && |segments| > 0
    && IsMergeOf(files, segments[..|segments| - 1], failedWrites, merged)
    && filesAfter == files[name := Contents(files, name) + LogOf(merged)]
    && segmentsAfter == [Segment(0, IndexOfLog(merged), name), segments[|segments| - 1]]
  }

  /** The merged log and index, appended to the file `name` and put at the head of the chain
      before the tail, give the state MergedChain describes. */
  lemma MergedChainOf(files: map<Path, Bytes>, segments: seq<Segment>, failedWrites: set<Bytes>,
                      merged: seq<Entry>, name: Path, newIndex: map<Bytes, int>, written: Bytes)
    requires |segments| > 0 && IsMergeOf(files, segments[..|segments| - 1], failedWrites, merged)
    requires written == LogOf(merged) && newIndex == IndexOfLog(merged)
    ensures MergedChain(files, segments, failedWrites, merged, name,
                        files[name := Contents(files, name) + written], [Segment(0, newIndex, name), segments[|segments| - 1]])
  {
  }

  /** The loops of mergeSegments: the bytes written to the new segment file and its index.
      Keys are visited in Go's map order (a choice here); fetch errors give the empty value; a
      key whose write fails is left out of the new index. */
  method WriteMerged(files: map<Path, Bytes>, segments: seq<Segment>, failedWrites: set<Bytes>)
    returns (newIndex: map<Bytes, int>, written: Bytes, ghost merged: seq<Entry>)
    requires |segments| > 0
    ensures IsMergeOf(files, segments[..|segments| - 1], failedWrites, merged)
    ensures written == LogOf(merged) && newIndex == IndexOfLog(merged)
  {
    ghost var sealed := segments[..|segments| - 1];
    ghost var values := MergedValues(files, sealed);
    merged := [];
    newIndex := map[];
    var offset := 0;
    written := [];
    var last := |segments| - 2;
    MergedSoFarStart(values, sealed, failedWrites);
    var i := 0;
    while i <= last
      invariant 0 <= i <= |sealed|
      invariant LogWritten(merged, newIndex, offset, written)
      invariant MergedSoFar(values, sealed, failedWrites, merged, i, {})
    {
      MergedValuesFetched(files, sealed, i);
      newIndex, offset, written, merged := MergeSegment(files, segments, i, failedWrites, values, newIndex, offset, written, merged);
      i := i + 1;
    }
    MergedSoFarDone(files, sealed, failedWrites, merged);
  }

  /** One turn of mergeSegments' outer loop: write, after the `written` bytes, the keys of
      segment i that no newer merged segment holds, indexing each at the offset its record
      starts at. */
  method MergeSegment(files: map<Path, Bytes>, segments: seq<Segment>, i: nat, failedWrites: set<Bytes>,
                      ghost values: map<Bytes, Bytes>,
                      newIndex: map<Bytes, int>, offset: int, written: Bytes, ghost merged: seq<Entry>)
    returns (newIndexOut: map<Bytes, int>, offsetOut: int, writtenOut: Bytes, ghost mergedOut: seq<Entry>)
    requires i < |segments| - 1
    requires NewestFetchedFrom(values, files, segments[..|segments| - 1], i)
    requires LogWritten(merged, newIndex, offset, written)
    requires MergedSoFar(values, segments[..|segments| - 1], failedWrites, merged, i, {})
    ensures LogWritten(mergedOut, newIndexOut, offsetOut, writtenOut)
    ensures MergedSoFar(values, segments[..|segments| - 1], failedWrites, mergedOut, i + 1, {})
    ensures written <= writtenOut && newIndex.Keys <= newIndexOut.Keys && offset <= offsetOut
  {
    newIndexOut, offsetOut, writtenOut, mergedOut := newIndex, offset, written, merged;
    var segment := segments[i];
    var todo := segment.index.Keys;
    while todo != {}
      invariant todo <= segment.index.Keys
      invariant LogWritten(mergedOut, newIndexOut, offsetOut, writtenOut)
      invariant MergedSoFar(values, segments[..|segments| - 1], failedWrites, mergedOut, i, segment.index.Keys - todo)
      invariant written <= writtenOut && newIndex.Keys <= newIndexOut.Keys && offset <= offsetOut
      decreases |todo|
    {
      var key :| key in todo;
      ghost var done := segment.index.Keys - todo;
      newIndexOut, offsetOut, writtenOut, mergedOut :=
        MergeKey(files, segments, i, key, failedWrites, values, done, newIndexOut, offsetOut, writtenOut, mergedOut);
      VisitOne(segment.index.Keys, todo, key);
      todo := todo - {key};
    }
    assert segments[..|segments| - 1][i] == segment;
    MergedSoFarNext(values, segments[..|segments| - 1], failedWrites, mergedOut, i);
  }

  /** One key of segment i met by mergeSegments' inner loop: skipped when a newer merged
      segment holds it; otherwise its value is fetched (an error gives the empty value) and its
      record written after the `written` bytes, and indexed at `offset` unless the write fails. */
  method MergeKey(files: map<Path, Bytes>, segments: seq<Segment>, i: nat, key: Bytes, failedWrites: set<Bytes>,
                  ghost values: map<Bytes, Bytes>, ghost done: set<Bytes>,
                  newIndex: map<Bytes, int>, offset: int, written: Bytes, ghost merged: seq<Entry>)
    returns (newIndexOut: map<Bytes, int>, offsetOut: int, writtenOut: Bytes, ghost mergedOut: seq<Entry>)
    requires i < |segments| - 1 && key in segments[i].index && key !in done
    requires NewestFetchedFrom(values, files, segments[..|segments| - 1], i)
    requires LogWritten(merged, newIndex, offset, written)
    requires MergedSoFar(values, segments[..|segments| - 1], failedWrites, merged, i, done)
    ensures LogWritten(mergedOut, newIndexOut, offsetOut, writtenOut)
    ensures MergedSoFar(values, segments[..|segments| - 1], failedWrites, mergedOut, i, done + {key})
    ensures || (newIndexOut == newIndex && offsetOut == offset && writtenOut == written)
            || (&& writtenOut == written + Encode(Entry(key, FetchOrEmpty(files, segments[i], key)))
                && newIndexOut == newIndex[key := offset]
                && offsetOut == offset + RecordLength(Entry(key, FetchOrEmpty(files, segments[i], key))))
  {
    newIndexOut, offsetOut, writtenOut, mergedOut := newIndex, offset, written, merged;
    ghost var sealed := segments[..|segments| - 1];
    var last := |segments| - 2;
    SkipUnlessNewest(segments, i, key);
    if i < last {
      var isInNewerSegments := HasKeyInSegments(segments[i + 1..last + 1], key);
      if isInNewerSegments {
        MergedSoFarSkip(values, sealed, failedWrites, merged, i, done, key);
        return;
      }
    }
    var segment := segments[i];
    var fetched := FetchValueFromSegment(files, segment, segment.index[key]);
    var value := if fetched.Ok? then fetched.value else [];
    var e := Entry(key, value);
    if key in failedWrites {
      MergedSoFarSkip(values, sealed, failedWrites, merged, i, done, key);
      return;
    }
    assert sealed[i] == segment;
    MergedSoFarWrite(values, files, sealed, failedWrites, merged, i, done, key, value, newIndex, offset, written);
    var record := Encode(e);
    newIndexOut := newIndex[key := offset];
    writtenOut := written + record;
    offsetOut := offset + |record|;
    mergedOut := merged + [e];
  }

  /** recover's loop, for any reader of records: read the record at the current offset, map
      its key to that offset and move past it, until a read fails; the failure is returned with
      the index and offset reached. */
  method ReplayLog(read: (Bytes, nat) -> Result<(Entry, nat)>, input: Bytes)
    returns (err: Error, index: map<Bytes, int>, offset: nat)
    requires IsRecordReader(read)
    ensures Replayed(err, index, offset) == ReplayWith(read, input, 0, map[])
  {
    index, offset := map[], 0;
    while true
      invariant offset <= |input|
      invariant ReplayWith(read, input, offset, index) == ReplayWith(read, input, 0, map[])
      decreases |input| - offset
    {
      var record := read(input, offset);
      if record.Err? {
        return record.error, index, offset;
      }
      var (e, n) := record.value;
      ReplayStep(read, input, offset, index, e, n);
      index := index[e.key := offset];
      offset := offset + n;
    }
  }
}
