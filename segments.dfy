/** Segments of the store and how they are named: the Segment struct of datastore/db.go, the
    file names generateSegmentFileName builds from the segment counter, hasKeyInSegments,
    fetchValueFromSegment, and the newest-wins rule mergeSegments follows. */
module Segments {
  import opened Codec

  /** A file path; Go strings are byte strings, paths here are plain character strings. */
  type Path = seq<char>

  /** outFileName: the active log file, and the stem of every segment file name. */
  const OutFileName: Path := "current-data"

  datatype Option<T> = None | Some(value: T)

  /** A segment: the write offset, the index of the keys it holds and the file holding it. */
  datatype Segment = Segment(outOffset: int, index: map<Bytes, int>, filePath: Path)

  /** filepath.Join of a directory and a file name (without the lexical cleaning Join also
      does). */
  function JoinPath(dir: Path, name: Path): Path
  {
    if dir == [] then name else dir + "/" + name
  }

  function DigitChar(d: nat): (c: char)
    requires d < 10
    ensures '0' <= c <= '9'
  {
    "0123456789"[d]
  }

  function DigitValue(c: char): (d: nat)
    requires '0' <= c <= '9'
    ensures d < 10
  {
    (c as int) - ('0' as int)
  }

  /** fmt's %d of a natural number: its decimal digits, most significant first. */
  function NatToDecimal(n: nat): (s: seq<char>)
    ensures |s| > 0 && forall i :: 0 <= i < |s| ==> '0' <= s[i] <= '9'
  {
    if n < 10 then [DigitChar(n)] else NatToDecimal(n / 10) + [DigitChar(n % 10)]
  }

  predicate AllDigits(s: seq<char>)
  {
    forall i :: 0 <= i < |s| ==> '0' <= s[i] <= '9'
  }

  /** The number a string of decimal digits spells. */
  function DecimalValue(s: seq<char>): nat
    requires AllDigits(s)
  {
    if s == [] then 0 else 10 * DecimalValue(s[..|s| - 1]) + DigitValue(s[|s| - 1])
  }

  /** Reading back the digits %d printed gives the number. */
  lemma {:induction false} DecimalRoundTrip(n: nat)
    ensures AllDigits(NatToDecimal(n)) && DecimalValue(NatToDecimal(n)) == n
  {
    var s := NatToDecimal(n);
    if n >= 10 {
      DecimalRoundTrip(n / 10);
      assert s[..|s| - 1] == NatToDecimal(n / 10);
    }
  }

  /** The file name generateSegmentFileName builds for counter value n. */
  function SegmentFileName(dir: Path, n: nat): (r: Path)
  {
    JoinPath(dir, OutFileName + NatToDecimal(n))
  }

  /** The counter value a segment file name of dir carries, if it is one. */
  function ParseSegmentCounter(dir: Path, name: Path): Option<nat>
  {
    var stem := JoinPath(dir, OutFileName);
    if |name| > |stem| && name[..|stem|] == stem && AllDigits(name[|stem|..])
    then Some(DecimalValue(name[|stem|..]))
    else None
  }

  /** Segment file names carry their counter value: parsing one gives it back. */
  lemma SegmentFileNameParses(dir: Path, n: nat)
    ensures ParseSegmentCounter(dir, SegmentFileName(dir, n)) == Some(n)
  {
    var stem := JoinPath(dir, OutFileName);
    var name := SegmentFileName(dir, n);
    assert name == stem + NatToDecimal(n);
    assert name[..|stem|] == stem && name[|stem|..] == NatToDecimal(n);
    DecimalRoundTrip(n);
  }

  /** Distinct counter values give distinct segment file names, and none of them is the
      active log's own name. */
  lemma SegmentFileNamesDistinct(dir: Path, a: nat, b: nat)
    ensures SegmentFileName(dir, a) == SegmentFileName(dir, b) ==> a == b
    ensures SegmentFileName(dir, a) != JoinPath(dir, OutFileName)
  {
    SegmentFileNameParses(dir, a);
    SegmentFileNameParses(dir, b);
    assert SegmentFileName(dir, a) == JoinPath(dir, OutFileName) + NatToDecimal(a);
  }

  /** Segment i is named from counter value counters[i]; the values are distinct and below
      `counter`, the next value the counter gives. */
  ghost predicate SegmentsNamed(dir: Path, segments: seq<Segment>, counters: seq<nat>, counter: nat)
  {
    && |counters| == |segments|
    && (forall i :: 0 <= i < |segments| ==>
          segments[i].filePath == SegmentFileName(dir, counters[i]) && counters[i] < counter)
    && (forall i, j :: 0 <= i < j < |counters| ==> counters[i] != counters[j])
  }

  /** No two segments share a file. */
  lemma SegmentsNamedDistinct(dir: Path, segments: seq<Segment>, counters: seq<nat>, counter: nat)
    requires SegmentsNamed(dir, segments, counters, counter)
    ensures forall i, j :: 0 <= i < j < |segments| ==> segments[i].filePath != segments[j].filePath
  {
    forall i, j | 0 <= i < j < |segments|
      ensures segments[i].filePath != segments[j].filePath
    {
      SegmentFileNamesDistinct(dir, counters[i], counters[j]);
    }
  }

  /** Moving the counter on keeps the names below it. */
  lemma SegmentsNamedCounter(dir: Path, segments: seq<Segment>, counters: seq<nat>, counter: nat)
    requires SegmentsNamed(dir, segments, counters, counter)
    ensures SegmentsNamed(dir, segments, counters, counter + 1)
  {
  }

  /** A segment named from the counter's current value can join the chain. */
  lemma SegmentsNamedPush(dir: Path, segments: seq<Segment>, counters: seq<nat>, counter: nat, segment: Segment)
    requires SegmentsNamed(dir, segments, counters, counter) && segment.filePath == SegmentFileName(dir, counter)
    ensures SegmentsNamed(dir, segments + [segment], counters + [counter], counter + 1)
  {
  }

  /** The chain a merge leaves, a segment named from the counter's current value followed by
      the old tail, is named from the counter too. */
  lemma SegmentsNamedMerge(dir: Path, segments: seq<Segment>, counters: seq<nat>, counter: nat, segment: Segment)
    requires SegmentsNamed(dir, segments, counters, counter) && |segments| > 0
    requires segment.filePath == SegmentFileName(dir, counter)
    ensures SegmentsNamed(dir, [segment, segments[|segments| - 1]], [counter, counters[|counters| - 1]], counter + 1)
  {
  }

  /** hasKeyInSegments: whether the index of some segment holds the key. */
  function HasKeyInSegments(segments: seq<Segment>, key: Bytes): (r: bool)
    ensures r <==> exists i :: 0 <= i < |segments| && key in segments[i].index
  {
    if segments == [] then false
    else key in segments[0].index || HasKeyInSegments(segments[1..], key)
  }

  /** fetchValueFromSegment: open the segment's file, seek to the offset and read the value of
      the record there.  A file that is not there cannot be opened. */
  function FetchValueFromSegment(files: map<Path, Bytes>, segment: Segment, offset: int): (r: Result<Bytes>)
    ensures r.Ok? <==> segment.filePath in files && ReadValue(files[segment.filePath], offset).Ok?
    ensures r.Ok? ==> r == ReadValue(files[segment.filePath], offset)
  {
    if segment.filePath !in files then Err(IoFailure)
    else ReadValue(files[segment.filePath], offset)
  }

  /** mergeSegments keeps the value fetched and drops the error: a failed fetch gives "". */
  function FetchOrEmpty(files: map<Path, Bytes>, segment: Segment, key: Bytes): (r: Bytes)
    requires key in segment.index
    ensures r != [] ==>
      && segment.filePath in files
      && 0 <= segment.index[key] && segment.index[key] + FramingSize + |r| <= |files[segment.filePath]|
  {
    match FetchValueFromSegment(files, segment, segment.index[key])
      case Ok(v) => v
      case Err(_) => []
  }

  /** The newest of the segments whose index holds the key, or -1 if none does. */
  function NewestHolder(segments: seq<Segment>, key: Bytes): (r: int)
    ensures -1 <= r < |segments|
    ensures r == -1 <==> !HasKeyInSegments(segments, key)
    ensures r >= 0 ==> key in segments[r].index
    ensures forall j :: r < j < |segments| ==> key !in segments[j].index
  {
    if segments == [] then -1
    else if key in segments[|segments| - 1].index then |segments| - 1
    else
      var older := segments[..|segments| - 1];
      assert forall j :: 0 <= j < |older| ==> older[j] == segments[j];
      NewestHolder(older, key)
  }

  /** Every key some segment's index holds. */
  function KeysOf(segments: seq<Segment>): (r: set<Bytes>)
    ensures forall k :: k in r <==> HasKeyInSegments(segments, k)
  {
    if segments == [] then {} else segments[0].index.Keys + KeysOf(segments[1..])
  }

  /** The value compaction keeps for a key: the one its newest holder's record gives. */
  function NewestValue(files: map<Path, Bytes>, segments: seq<Segment>, key: Bytes): Bytes
    requires HasKeyInSegments(segments, key)
  {
    var h := NewestHolder(segments, key);
    FetchOrEmpty(files, segments[h], key)
  }

  /** A key of segment i is held by a later segment exactly when i is not its newest holder. */
  lemma NewerHolder(sealed: seq<Segment>, i: nat, key: Bytes)
    requires i < |sealed| && key in sealed[i].index
    ensures HasKeyInSegments(sealed[i + 1..], key) <==> NewestHolder(sealed, key) != i
  {
    var newer := sealed[i + 1..];
    var h := NewestHolder(sealed, key);
    if h != i {
      assert key in newer[h - i - 1].index;
    }
    if HasKeyInSegments(newer, key) {
      var j :| 0 <= j < |newer| && key in newer[j].index;
      assert key in sealed[i + 1 + j].index;
    }
  }

  /** mergeSegments' skip test: a key met in segment i of the segments being merged (all but
      the tail, the last one being number |segments| - 2) is written exactly when no newer
      merged segment holds it, that is when i is its newest holder among them. */
  lemma SkipUnlessNewest(segments: seq<Segment>, i: nat, key: Bytes)
    requires i < |segments| - 1 && key in segments[i].index
    ensures (i < |segments| - 2 && HasKeyInSegments(segments[i + 1..|segments| - 1], key))
        <==> NewestHolder(segments[..|segments| - 1], key) != i
  {
    var sealed := segments[..|segments| - 1];
    assert segments[i + 1..|segments| - 1] == sealed[i + 1..];
    NewerHolder(sealed, i, key);
  }
}
