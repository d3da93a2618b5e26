/** What mergeSegments promises: every segment but the tail is merged into one file that holds
    each key once, with the value of its newest occurrence, at offsets counted from 0. */
module Compaction {
  import opened Codec
  import opened Recovery
  import opened Segments

  /** The keys these entries carry. */
  function EntryKeys(entries: seq<Entry>): set<Bytes>
  {
    set i | 0 <= i < |entries| :: entries[i].key
  }

  lemma EntryKeysAppend(entries: seq<Entry>, e: Entry)
    ensures EntryKeys(entries + [e]) == EntryKeys(entries) + {e.key}
  {
    var next := entries + [e];
    assert next[|entries|] == e;
    forall x | x in EntryKeys(next)
      ensures x in EntryKeys(entries) || x == e.key
    {
      var i :| 0 <= i < |next| && next[i].key == x;
      if i < |entries| {
        assert entries[i].key == x;
      }
    }
    forall x | x in EntryKeys(entries)
      ensures x in EntryKeys(next)
    {
      var i :| 0 <= i < |entries| && entries[i].key == x;
      assert next[i].key == x;
    }
  }

  ghost predicate DistinctKeys(entries: seq<Entry>)
  {
    forall i, j :: 0 <= i < j < |entries| ==> entries[i].key != entries[j].key
  }

  /** The value compaction keeps for each key some merged segment holds. */
  function MergedValues(files: map<Path, Bytes>, sealed: seq<Segment>): (r: map<Bytes, Bytes>)
    ensures r.Keys == KeysOf(sealed)
  {
    map k | k in KeysOf(sealed) :: NewestValue(files, sealed, k)
  }

  /** Each entry carries the value `values` gives its key. */
  ghost predicate ValuesAgree(values: map<Bytes, Bytes>, merged: seq<Entry>)
  {
    forall j :: 0 <= j < |merged| ==> merged[j].key in values && merged[j].value == values[merged[j].key]
  }

  /** The entries written so far: all keys whose newest holder comes before segment i, and
      those of segment i already visited (`done`), each once, except the failed writes. */
  ghost predicate MergedSoFar(values: map<Bytes, Bytes>, sealed: seq<Segment>, failedWrites: set<Bytes>,
                              merged: seq<Entry>, i: int, done: set<Bytes>)
  {
    && DistinctKeys(merged)
    && ValuesAgree(values, merged)
    && forall k :: k in EntryKeys(merged) <==>
         && k in KeysOf(sealed) && k !in failedWrites
         && (NewestHolder(sealed, k) < i || (NewestHolder(sealed, k) == i && k in done))
  }

  /** `merged` is a compaction of `sealed`: each key of theirs once (but those whose write
      failed), each with the value of its newest occurrence. */
  ghost predicate IsMergeOf(files: map<Path, Bytes>, sealed: seq<Segment>, failedWrites: set<Bytes>, merged: seq<Entry>)
  {
    && DistinctKeys(merged)
    && ValuesAgree(MergedValues(files, sealed), merged)
    && EntryKeys(merged) == KeysOf(sealed) - failedWrites
  }

  /** Appending an entry to a log: its record follows the log, and its key is indexed at the
      offset the record starts at. */
  lemma LogStep(entries: seq<Entry>, e: Entry)
    ensures LogOf(entries + [e]) == LogOf(entries) + Encode(e)
    ensures IndexOfLog(entries + [e]) == IndexOfLog(entries)[e.key := |LogOf(entries)|]
  {
    assert (entries + [e])[..|entries|] == entries;
  }

  /** Nothing is written before the first segment is visited. */
  lemma MergedSoFarStart(values: map<Bytes, Bytes>, sealed: seq<Segment>, failedWrites: set<Bytes>)
    ensures MergedSoFar(values, sealed, failedWrites, [], 0, {})
  {
  }

  /** The value compaction keeps for a key is the one fetched from its newest holder. */
  lemma NewestValueAt(files: map<Path, Bytes>, sealed: seq<Segment>, i: nat, key: Bytes)
    requires i < |sealed| && key in sealed[i].index && NewestHolder(sealed, key) == i
    ensures key in MergedValues(files, sealed) && MergedValues(files, sealed)[key] == FetchOrEmpty(files, sealed[i], key)
  {
  }

  /** For the keys whose newest holder is segment i, `values` holds the value fetched from it. */
  ghost predicate NewestFetchedFrom(values: map<Bytes, Bytes>, files: map<Path, Bytes>, sealed: seq<Segment>, i: nat)
    requires i < |sealed|
  {
    forall k :: k in sealed[i].index && NewestHolder(sealed, k) == i ==>
      k in values && values[k] == FetchOrEmpty(files, sealed[i], k)
  }

  /** The values compaction keeps are those fetched from each key's newest holder. */
  lemma MergedValuesFetched(files: map<Path, Bytes>, sealed: seq<Segment>, i: nat)
    requires i < |sealed|
    ensures NewestFetchedFrom(MergedValues(files, sealed), files, sealed, i)
  {
    forall k | k in sealed[i].index && NewestHolder(sealed, k) == i
      ensures k in MergedValues(files, sealed) && MergedValues(files, sealed)[k] == FetchOrEmpty(files, sealed[i], k)
    {
      NewestValueAt(files, sealed, i, k);
    }
  }

  /** Visiting a key of segment i that a newer merged segment holds, or whose write fails:
      nothing is appended. */
  lemma MergedSoFarSkip(values: map<Bytes, Bytes>, sealed: seq<Segment>, failedWrites: set<Bytes>,
                        merged: seq<Entry>, i: nat, done: set<Bytes>, key: Bytes)
    requires i < |sealed| && key in sealed[i].index
    requires NewestHolder(sealed, key) != i || key in failedWrites
    requires MergedSoFar(values, sealed, failedWrites, merged, i, done)
    ensures MergedSoFar(values, sealed, failedWrites, merged, i, done + {key})
  {
  }

  /** Visiting a key of segment i, its newest holder, whose write succeeds: its entry is
      appended, with the value compaction keeps for it. */
  lemma MergedSoFarAppend(values: map<Bytes, Bytes>, sealed: seq<Segment>, failedWrites: set<Bytes>,
                          merged: seq<Entry>, i: nat, done: set<Bytes>, key: Bytes, value: Bytes)
    requires i < |sealed| && key in sealed[i].index && key !in done && key !in failedWrites
    requires NewestHolder(sealed, key) == i
    requires key in values && value == values[key]
    requires MergedSoFar(values, sealed, failedWrites, merged, i, done)
    ensures MergedSoFar(values, sealed, failedWrites, merged + [Entry(key, value)], i, done + {key})
  {
    var next := merged + [Entry(key, value)];
    assert key !in EntryKeys(merged);
    forall j | 0 <= j < |merged|
      ensures next[j] == merged[j] && merged[j].key != key
    {
      assert merged[j].key in EntryKeys(merged);
    }
    EntryKeysAppend(merged, Entry(key, value));
  }

  /** `written` is the log of the merged entries, `offset` its size and `newIndex` the offsets
      its records start at. */
  ghost predicate LogWritten(merged: seq<Entry>, newIndex: map<Bytes, int>, offset: int, written: Bytes)
  {
    written == LogOf(merged) && offset == |written| && newIndex == IndexOfLog(merged)
  }

  /** Writing the record of a key of segment i, its newest holder, with the value fetched from
      there: the entry joins the merged ones, its record follows the merged log and the key is
      indexed where that record starts. */
  lemma MergedSoFarWrite(values: map<Bytes, Bytes>, files: map<Path, Bytes>, sealed: seq<Segment>,
                         failedWrites: set<Bytes>, merged: seq<Entry>, i: nat, done: set<Bytes>, key: Bytes, value: Bytes,
                         newIndex: map<Bytes, int>, offset: int, written: Bytes)
    requires i < |sealed| && key in sealed[i].index && key !in done && key !in failedWrites
    requires NewestHolder(sealed, key) == i && NewestFetchedFrom(values, files, sealed, i)
    requires value == FetchOrEmpty(files, sealed[i], key)
    requires MergedSoFar(values, sealed, failedWrites, merged, i, done)
    requires LogWritten(merged, newIndex, offset, written)
    ensures MergedSoFar(values, sealed, failedWrites, merged + [Entry(key, value)], i, done + {key})
    ensures LogWritten(merged + [Entry(key, value)], newIndex[key := offset],
                       offset + |Encode(Entry(key, value))|, written + Encode(Entry(key, value)))
  {
    MergedSoFarAppend(values, sealed, failedWrites, merged, i, done, key, value);
    LogStep(merged, Entry(key, value));
  }

  /** Visiting one more key of those still to visit. */
  lemma VisitOne(keys: set<Bytes>, todo: set<Bytes>, key: Bytes)
    requires key in todo && todo <= keys
    ensures keys - (todo - {key}) == (keys - todo) + {key}
  {
  }

  /** Once all of segment i is visited, compaction moves on to segment i + 1. */
  lemma MergedSoFarNext(values: map<Bytes, Bytes>, sealed: seq<Segment>, failedWrites: set<Bytes>,
                        merged: seq<Entry>, i: nat)
    requires i < |sealed|
    requires MergedSoFar(values, sealed, failedWrites, merged, i, sealed[i].index.Keys)
    ensures MergedSoFar(values, sealed, failedWrites, merged, i + 1, {})
  {
  }

  /** Once every merged segment is visited, the entries are a compaction of them. */
  lemma MergedSoFarDone(files: map<Path, Bytes>, sealed: seq<Segment>, failedWrites: set<Bytes>, merged: seq<Entry>)
    requires MergedSoFar(MergedValues(files, sealed), sealed, failedWrites, merged, |sealed|, {})
    ensures IsMergeOf(files, sealed, failedWrites, merged)
  {
  }

  /** The newest values the log of these entries ends with, key by key, are the ones each entry
      carries when all entries agree with a map of values. */
  lemma {:induction false} ValuesOfLogAgree(entries: seq<Entry>, values: map<Bytes, Bytes>)
    requires forall j :: 0 <= j < |entries| ==> entries[j].key in values && entries[j].value == values[entries[j].key]
    ensures ValuesOfLog(entries).Keys == EntryKeys(entries)
    ensures forall k :: k in ValuesOfLog(entries) ==> ValuesOfLog(entries)[k] == values[k]
  {
    if entries != [] {
      var init := entries[..|entries| - 1];
      assert forall j :: 0 <= j < |init| ==> init[j] == entries[j];
      ValuesOfLogAgree(init, values);
      assert entries == init + [entries[|entries| - 1]];
      EntryKeysAppend(init, entries[|entries| - 1]);
    }
  }

  /** The merged file, read at the offsets of the merged index, gives each key the value of its
      newest occurrence in the merged segments; its index holds exactly their keys but those
      whose write failed. */
  lemma MergedReadsNewest(files: map<Path, Bytes>, sealed: seq<Segment>, failedWrites: set<Bytes>, merged: seq<Entry>)
    requires IsMergeOf(files, sealed, failedWrites, merged)
    requires forall j :: 0 <= j < |merged| ==> Fits(merged[j])
    ensures IndexOfLog(merged).Keys == KeysOf(sealed) - failedWrites
    ensures forall k :: k in IndexOfLog(merged) ==>
      ReadValue(LogOf(merged), IndexOfLog(merged)[k]) == Ok(NewestValue(files, sealed, k))
  {
    LogReadsNewestValues(merged);
    ValuesOfLogAgree(merged, MergedValues(files, sealed));
  }

  /** Entries with distinct keys are as many as their keys. */
  lemma {:induction false} DistinctKeysCount(entries: seq<Entry>)
    requires DistinctKeys(entries)
    ensures |EntryKeys(entries)| == |entries|
  {
    if entries != [] {
      var init := entries[..|entries| - 1];
      assert forall j :: 0 <= j < |init| ==> init[j] == entries[j];
      DistinctKeysCount(init);
      assert entries == init + [entries[|entries| - 1]];
      EntryKeysAppend(init, entries[|entries| - 1]);
    }
  }

  /** The merged file holds one record per key: as many records as merged keys, and its size is
      the sum of their record lengths. */
  lemma MergedRecordCount(files: map<Path, Bytes>, sealed: seq<Segment>, failedWrites: set<Bytes>, merged: seq<Entry>)
    requires IsMergeOf(files, sealed, failedWrites, merged)
    ensures |merged| == |KeysOf(sealed) - failedWrites|
    ensures |LogOf(merged)| == LogLength(merged)
  {
    DistinctKeysCount(merged);
    LogOfLength(merged);
  }
}
