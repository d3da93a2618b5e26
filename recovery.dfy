/** Rebuilding the in-memory index from a log: the loop of `recover` in datastore/db.go,
    stated as a function over the file's bytes.  Db.Recover runs the loop and is proved
    against this function. */
module Recovery {
  import opened Codec

  /** Where a replay stopped: the error that ended it, the index it rebuilt and the offset it
      reached.  The loop only ever stops on an error; io.EOF is the clean stop. */
  datatype Replayed = Replayed(err: Error, index: map<Bytes, int>, offset: nat)

  /** What the body of recover's loop needs from the way it reads one record at an offset:
      it reports io.EOF exactly at the end of the file, and a record it reads is not empty
      and lies within the file. */
  ghost predicate IsRecordReader(read: (Bytes, nat) -> Result<(Entry, nat)>)
  {
    forall file: Bytes, pos: nat {:trigger read(file, pos)} ::
      && (read(file, pos) == Err(EndOfFile) <==> pos >= |file|)
      && (read(file, pos).Ok? ==> 0 < read(file, pos).value.1 <= |file| - pos)
  }

  /** A record read from a file is read the same way from any longer file that starts with
      it. */
  ghost predicate ReadsPrefix(read: (Bytes, nat) -> Result<(Entry, nat)>)
  {
    forall file: Bytes, longer: Bytes, pos: nat {:trigger read(file, pos), read(longer, pos)} ::
      read(file, pos).Ok? && file <= longer ==> read(longer, pos) == read(file, pos)
  }

  /** recover's loop, from stream position pos with the index built so far: each record read
      maps its key to the offset where the record starts, until the first read that fails;
      io.EOF is the clean stop at the end of the file. */
  function ReplayWith(read: (Bytes, nat) -> Result<(Entry, nat)>, file: Bytes, pos: nat, index: map<Bytes, int>): (r: Replayed)
    requires IsRecordReader(read) && pos <= |file|
    ensures index.Keys <= r.index.Keys
    decreases |file| - pos
  {
    match read(file, pos)
      case Err(err) => Replayed(err, index, pos)
      case Ok((e, size)) => ReplayWith(read, file, pos + size, index[e.key := pos])
  }

  /** One turn of the loop: a record read at pos moves the replay past it. */
  lemma ReplayStep(read: (Bytes, nat) -> Result<(Entry, nat)>, file: Bytes, pos: nat, index: map<Bytes, int>,
                   e: Entry, size: nat)
    requires IsRecordReader(read) && pos <= |file| && read(file, pos) == Ok((e, size))
    ensures pos + size <= |file|
    ensures ReplayWith(read, file, pos, index) == ReplayWith(read, file, pos + size, index[e.key := pos])
  {
  }

  /** The replay stops between pos and the end of the file, and it stops at the end exactly
      when the stop is io.EOF. */
  lemma {:induction false} ReplayBounds(read: (Bytes, nat) -> Result<(Entry, nat)>, file: Bytes, pos: nat,
                                        index: map<Bytes, int>)
    requires IsRecordReader(read) && pos <= |file|
    ensures pos <= ReplayWith(read, file, pos, index).offset <= |file|
    ensures ReplayWith(read, file, pos, index).err == EndOfFile <==> ReplayWith(read, file, pos, index).offset == |file|
    decreases |file| - pos
  {
    match read(file, pos)
      case Err(_) =>
      case Ok((e, size)) =>
        ReplayStep(read, file, pos, index, e, size);
        ReplayBounds(read, file, pos + size, index[e.key := pos]);
  }

  /** Appending bytes to a file whose replay ends cleanly does not change how the old bytes
      are replayed: the replay of the longer file passes the old end with the same index. */
  lemma {:induction false} ReplayExtend(read: (Bytes, nat) -> Result<(Entry, nat)>, file: Bytes, pos: nat,
                                        index: map<Bytes, int>, tail: Bytes)
    requires IsRecordReader(read) && ReadsPrefix(read)
    requires pos <= |file| && ReplayWith(read, file, pos, index).err == EndOfFile
    ensures ReplayWith(read, file + tail, pos, index)
         == ReplayWith(read, file + tail, |file|, ReplayWith(read, file, pos, index).index)
    decreases |file| - pos
  {
    match read(file, pos)
      case Err(_) =>
      case Ok((e, size)) =>
        assert file <= file + tail;
        ReplayStep(read, file, pos, index, e, size);
        ReplayExtend(read, file, pos + size, index[e.key := pos], tail);
        ReplayStep(read, file + tail, pos, index, e, size);
  }

  /** Appending one record to a file whose replay ends cleanly: the replay of the longer file
      also ends cleanly, having mapped the record's key to the offset where it starts. */
  lemma ReplayAppend(read: (Bytes, nat) -> Result<(Entry, nat)>, file: Bytes, pos: nat, index: map<Bytes, int>,
                     record: Bytes, e: Entry)
    requires IsRecordReader(read) && ReadsPrefix(read)
    requires pos <= |file| && ReplayWith(read, file, pos, index).err == EndOfFile
    requires read(file + record, |file|) == Ok((e, |record|))
    ensures ReplayWith(read, file + record, pos, index)
         == Replayed(EndOfFile, ReplayWith(read, file, pos, index).index[e.key := |file|], |file| + |record|)
  {
    var before := ReplayWith(read, file, pos, index).index;
    ReplayExtend(read, file, pos, index, record);
    ReplayStep(read, file + record, |file|, before, e, |record|);
    ReplayAtEnd(read, file + record, before[e.key := |file|]);
  }

  /** At the end of the file the loop stops at once with io.EOF. */
  lemma ReplayAtEnd(read: (Bytes, nat) -> Result<(Entry, nat)>, file: Bytes, index: map<Bytes, int>)
    requires IsRecordReader(read)
    ensures ReplayWith(read, file, |file|, index) == Replayed(EndOfFile, index, |file|)
  {
    assert read(file, |file|) == Err(EndOfFile);
  }

  /** At offset p of the file the reader finds a record of key k. */
  ghost predicate RecordOfKeyAt(read: (Bytes, nat) -> Result<(Entry, nat)>, file: Bytes, p: int, k: Bytes)
  {
    0 <= p && read(file, p).Ok? && read(file, p).value.0.key == k
  }

  /** Every indexed offset holds a record of that key. */
  ghost predicate Indexes(read: (Bytes, nat) -> Result<(Entry, nat)>, file: Bytes, index: map<Bytes, int>)
  {
    forall k :: k in index ==> RecordOfKeyAt(read, file, index[k], k)
  }

  /** Replay only ever points a key at a record of that key, one key at a time. */
  lemma {:induction false} ReplayIndexesKey(read: (Bytes, nat) -> Result<(Entry, nat)>, file: Bytes, pos: nat,
                                            index: map<Bytes, int>, k: Bytes)
    requires IsRecordReader(read) && pos <= |file|
    requires k in index ==> RecordOfKeyAt(read, file, index[k], k)
    ensures var r := ReplayWith(read, file, pos, index);
      k in r.index ==> RecordOfKeyAt(read, file, r.index[k], k)
    decreases |file| - pos
  {
    match read(file, pos)
      case Err(_) =>
      case Ok((e, size)) =>
        ReplayStep(read, file, pos, index, e, size);
        ReplayIndexesKey(read, file, pos + size, index[e.key := pos], k);
  }

  /** Replay only ever points a key at a record of that key. */
  lemma ReplayIndexes(read: (Bytes, nat) -> Result<(Entry, nat)>, file: Bytes, pos: nat, index: map<Bytes, int>)
    requires IsRecordReader(read) && pos <= |file| && Indexes(read, file, index)
    ensures Indexes(read, file, ReplayWith(read, file, pos, index).index)
  {
    forall k | k in ReplayWith(read, file, pos, index).index
      ensures RecordOfKeyAt(read, file, ReplayWith(read, file, pos, index).index[k], k)
    {
      ReplayIndexesKey(read, file, pos, index, k);
    }
  }

  /** One turn of recover's loop at stream position pos: peek at the uint32 size prefix
      (io.EOF when nothing is left), read min(size, remaining) bytes, reject a short read as
      "corrupted file", and decode the bytes read.  Gives the record and its size. */
  function ReadRecord(file: Bytes, pos: nat): (r: Result<(Entry, nat)>)
    ensures r == Err(EndOfFile) <==> pos >= |file|
    ensures r.Ok? ==> RecordLength(r.value.0) <= r.value.1 <= |file| - pos
    ensures r.Err? ==> r.error in {EndOfFile, CorruptedFile, MalformedRecord}
    ensures pos + 4 <= |file| && Uint32At(file, pos) > |file| - pos ==> r == Err(CorruptedFile)
  {
    if pos >= |file| then Err(EndOfFile)
    else if |file| - pos < 4 then Err(MalformedRecord)
    else
      var size := Uint32At(file, pos);
      var remaining := |file| - pos;
      var n := if size <= remaining then size else remaining;
      if n != size then Err(CorruptedFile)
      else match Decode(file[pos..pos + size])
        case Err(_) => Err(MalformedRecord)
        case Ok(e) => Ok((e, size))
  }

  lemma ReadRecordIsReader()
    ensures IsRecordReader(ReadRecord)
  {
  }

  /** A record that can be read is read the same way after more bytes are appended. */
  lemma ReadRecordExtend(file: Bytes, pos: nat, tail: Bytes)
    requires ReadRecord(file, pos).Ok?
    ensures ReadRecord(file + tail, pos) == ReadRecord(file, pos)
  {
    var size := ReadRecord(file, pos).value.1;
    Uint32AtAppend(file, tail, pos);
    SliceAppend(file, tail, pos, pos + size);
    ReadRecordSameBytes(file, file + tail, pos, size);
  }

  /** Two files that agree on the size prefix and on the bytes of a record that can be read
      from the first give the same record. */
  lemma ReadRecordSameBytes(a: Bytes, b: Bytes, pos: nat, size: nat)
    requires ReadRecord(a, pos).Ok? && ReadRecord(a, pos).value.1 == size && pos + size <= |b|
    requires Uint32At(b, pos) == Uint32At(a, pos) && b[pos..pos + size] == a[pos..pos + size]
    ensures ReadRecord(b, pos) == ReadRecord(a, pos)
  {
    assert size == Uint32At(a, pos) && FramingSize <= size;
    assert pos + 4 <= |b| && Uint32At(b, pos) <= |b| - pos;
  }

  lemma ReadRecordReadsPrefix()
    ensures ReadsPrefix(ReadRecord)
  {
    forall file: Bytes, longer: Bytes, pos: nat | ReadRecord(file, pos).Ok? && file <= longer
      ensures ReadRecord(longer, pos) == ReadRecord(file, pos)
    {
      assert longer == file + longer[|file|..];
      ReadRecordExtend(file, pos, longer[|file|..]);
    }
  }

  /** The record Encode wrote is read back whole. */
  lemma ReadRecordEncoded(file: Bytes, e: Entry)
    requires Fits(e)
    ensures ReadRecord(file + Encode(e), |file|) == Ok((e, RecordLength(e)))
  {
    SizeOfAppended(file, e);
    assert (file + Encode(e))[|file|..|file| + RecordLength(e)] == Encode(e);
    DecodeEncode(e);
  }

  /** A record that recover reads at an offset is one readValue finds there. */
  lemma ReadValueOfRecord(file: Bytes, pos: nat)
    requires ReadRecord(file, pos).Ok?
    ensures ReadValue(file, pos) == Ok(ReadRecord(file, pos).value.0.value)
  {
    var size := ReadRecord(file, pos).value.1;
    assert Decode(file[pos..pos + size]) == Ok(ReadRecord(file, pos).value.0);
    assert file[pos..] == file[pos..pos + size] + file[pos + size..];
    DecodeExtend(file[pos..pos + size], file[pos + size..]);
  }

  /** recover: the loop run from the start of the file with an empty index. */
  function Recovered(file: Bytes): (r: Replayed)
    ensures r.offset <= |file| && (r.err == EndOfFile <==> r.offset == |file|)
  {
    ReadRecordIsReader();
    ReplayBounds(ReadRecord, file, 0, map[]);
    ReplayWith(ReadRecord, file, 0, map[])
  }

  /** Put followed by a later recovery: when the recovery of a file ends cleanly, the
      recovery of that file with one more record appended also ends cleanly, having mapped the
      record's key to the offset where the record starts. */
  lemma RecoveredAppend(file: Bytes, e: Entry)
    requires Fits(e) && Recovered(file).err == EndOfFile
    ensures Recovered(file + Encode(e))
         == Replayed(EndOfFile, Recovered(file).index[e.key := |file|], |file| + RecordLength(e))
  {
    ReadRecordIsReader();
    ReadRecordReadsPrefix();
    ReadRecordEncoded(file, e);
    ReplayAppend(ReadRecord, file, 0, map[], Encode(e), e);
  }

  /** After a clean recovery the offset is the file's length and every indexed key can be
      read back. */
  lemma RecoveredIndexReadable(file: Bytes)
    requires Recovered(file).err == EndOfFile
    ensures Recovered(file).offset == |file|
    ensures forall k :: k in Recovered(file).index ==> ReadValue(file, Recovered(file).index[k]).Ok?
  {
    ReadRecordIsReader();
    ReplayBounds(ReadRecord, file, 0, map[]);
    ReplayIndexes(ReadRecord, file, 0, map[]);
    forall k | k in Recovered(file).index
      ensures ReadValue(file, Recovered(file).index[k]).Ok?
    {
      ReadValueOfRecord(file, Recovered(file).index[k]);
    }
  }

  /** The replay stops at once where the reader fails, with the reader's error. */
  lemma ReplayStopsAt(read: (Bytes, nat) -> Result<(Entry, nat)>, file: Bytes, pos: nat, index: map<Bytes, int>)
    requires IsRecordReader(read) && pos <= |file| && read(file, pos).Err?
    ensures ReplayWith(read, file, pos, index) == Replayed(read(file, pos).error, index, pos)
  {
  }

  /** Only the first m bytes of a record, its size prefix among them, read as "corrupted
      file". */
  lemma ReadRecordTruncated(file: Bytes, e: Entry, m: nat)
    requires Fits(e) && 4 <= m < RecordLength(e)
    ensures ReadRecord(file + Encode(e)[..m], |file|) == Err(CorruptedFile)
  {
    var cut := Encode(e)[..m];
    SizeOfAppended(file, e);
    assert (file + cut)[|file|..|file| + 4] == (file + Encode(e))[|file|..|file| + 4];
    Uint32AtSame(file + cut, |file|, file + Encode(e), |file|);
  }

  /** A write cut short: when a file recovers cleanly and only the first m bytes of one more
      record follow it, size prefix included, recovery stops at the old end with "corrupted
      file" (so NewDb fails), keeping the index built from the whole records before it. */
  lemma RecoveredTruncated(file: Bytes, e: Entry, m: nat)
    requires Fits(e) && Recovered(file).err == EndOfFile && 4 <= m < RecordLength(e)
    ensures Recovered(file + Encode(e)[..m]) == Replayed(CorruptedFile, Recovered(file).index, |file|)
  {
    var cut := Encode(e)[..m];
    ReadRecordIsReader();
    ReadRecordReadsPrefix();
    ReplayExtend(ReadRecord, file, 0, map[], cut);
    ReadRecordTruncated(file, e, m);
    ReplayStopsAt(ReadRecord, file + cut, |file|, Recovered(file).index);
  }

  /** Where each key's newest record starts in the log written by these puts. */
  function IndexOfLog(entries: seq<Entry>): (r: map<Bytes, int>)
    ensures forall k :: k in r ==> exists i :: 0 <= i < |entries| && entries[i].key == k
  {
    if entries == [] then map[]
    else
      var init := entries[..|entries| - 1];
      var last := entries[|entries| - 1];
      assert forall i :: 0 <= i < |init| ==> init[i] == entries[i];
      IndexOfLog(init)[last.key := |LogOf(init)|]
  }

  /** The newest value written for each key by these puts. */
  function ValuesOfLog(entries: seq<Entry>): map<Bytes, Bytes>
  {
    if entries == [] then map[]
    else
      var last := entries[|entries| - 1];
      ValuesOfLog(entries[..|entries| - 1])[last.key := last.value]
  }

  /** Recovering the log written by a sequence of puts ends cleanly at its end, with the index
      that maps each key to its newest record. */
  lemma {:induction false} RecoveredLog(entries: seq<Entry>)
    requires forall i :: 0 <= i < |entries| ==> Fits(entries[i])
    ensures Recovered(LogOf(entries)) == Replayed(EndOfFile, IndexOfLog(entries), |LogOf(entries)|)
  {
    if entries != [] {
      var init := entries[..|entries| - 1];
      assert forall i :: 0 <= i < |init| ==> init[i] == entries[i];
      RecoveredLog(init);
      RecoveredAppend(LogOf(init), entries[|entries| - 1]);
    }
  }

  /** Under the index recovery rebuilds, every key written resolves to the value written last
      for it, and no other key is indexed. */
  lemma {:induction false} LogReadsNewestValues(entries: seq<Entry>)
    requires forall i :: 0 <= i < |entries| ==> Fits(entries[i])
    ensures IndexOfLog(entries).Keys == ValuesOfLog(entries).Keys
    ensures forall k :: k in IndexOfLog(entries) ==>
      ReadValue(LogOf(entries), IndexOfLog(entries)[k]) == Ok(ValuesOfLog(entries)[k])
  {
    if entries != [] {
      var init := entries[..|entries| - 1];
      var last := entries[|entries| - 1];
      assert forall i :: 0 <= i < |init| ==> init[i] == entries[i];
      LogReadsNewestValues(init);
      ReadValueAppended(LogOf(init), last);
      forall k | k in IndexOfLog(init) && k != last.key
        ensures ReadValue(LogOf(entries), IndexOfLog(entries)[k]) == Ok(ValuesOfLog(entries)[k])
      {
        ReadValueStable(LogOf(init), IndexOfLog(init)[k], Encode(last));
      }
    }
  }
}
