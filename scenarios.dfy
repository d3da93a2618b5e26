/** The scenarios of datastore/db_test.go, stated against the model for any pairs of keys
    and values: a fresh store in an empty directory, puts each read back at once, the log doubling
    when the same pairs are put again, a reopened store reading back what was put, and the last
    of two puts of a key winning. */
module Scenarios {
  import opened Codec
  import opened Recovery
  import opened Segments
  import opened Compaction
  import opened Datastore

  /** The bytes of a string of 8-bit characters. */
  function Ascii(s: seq<char>): (r: Bytes)
    requires forall i :: 0 <= i < |s| ==> s[i] as int < 256
    ensures |r| == |s|
    ensures forall i :: 0 <= i < |s| ==> r[i] == s[i] as int
  {
    seq(|s|, i requires 0 <= i < |s| => s[i] as int)
  }

  /** The key/value pairs the tests put. */
  function TestPairs(): seq<Entry>
  {
    [Entry(Ascii("key1"), Ascii("value1")), Entry(Ascii("key2"), Ascii("value2")), Entry(Ascii("key3"), Ascii("value3"))]
  }

  /** The tests' pairs fit the record format, have distinct keys, and their three records take
      66 bytes. */
  lemma TestPairsLog()
    ensures forall i :: 0 <= i < |TestPairs()| ==> Fits(TestPairs()[i])
    ensures DistinctKeys(TestPairs())
    ensures |LogOf(TestPairs())| == 66
  {
    var pairs := TestPairs();
    assert pairs[0].key[3] != pairs[1].key[3] && pairs[0].key[3] != pairs[2].key[3] && pairs[1].key[3] != pairs[2].key[3];
    LogOfLength(pairs);
    assert LogLength(pairs) == LogLength(pairs[..2]) + RecordLength(pairs[2]);
    assert LogLength(pairs[..2]) == LogLength(pairs[..1]) + RecordLength(pairs[1]) by {
      assert pairs[..2][..1] == pairs[..1];
    }
    assert LogLength(pairs[..1]) == RecordLength(pairs[0]) by {
      assert pairs[..1][..0] == [];
    }
  }

  /** A store opened on an empty directory: it recovers an empty log. */
  method OpenEmpty(dir: Path) returns (db: Db)
    ensures fresh(db) && db.Valid() && db.Logs([])
    ensures db.outPath == JoinPath(dir, OutFileName)
  {
    var store, result := Db.NewDb(dir, map[], false);
    RecoveredLog([]);
    db := store;
  }

  /** A store opened on a directory whose log is the log of a sequence of puts: recovery
      rebuilds the index those puts left. */
  method OpenLogged(dir: Path, files: map<Path, Bytes>, ghost entries: seq<Entry>) returns (db: Db)
    requires JoinPath(dir, OutFileName) in files && files[JoinPath(dir, OutFileName)] == LogOf(entries)
    requires forall i :: 0 <= i < |entries| ==> Fits(entries[i])
    ensures fresh(db) && db.Valid() && db.Logs(entries)
  {
    RecoveredLog(entries);
    var store, result := Db.NewDb(dir, files, false);
    db := store;
  }

  /** Put each pair, writes all succeeding, to a store whose active log is the log of `entries`. */
  method PutAll(db: Db, pairs: seq<Entry>, ghost entries: seq<Entry>)
    requires db.Valid() && db.Logs(entries)
    requires forall i :: 0 <= i < |pairs| ==> Fits(pairs[i])
    modifies db`files, db`index, db`outOffset
    ensures db.Valid() && db.Logs(entries + pairs)
  {
    assert entries + pairs[..0] == entries;
    for i := 0 to |pairs|
      invariant db.Valid() && db.Logs(entries + pairs[..i])
    {
      PutLogged(db, pairs[i].key, pairs[i].value, entries + pairs[..i]);
      assert entries + pairs[..i + 1] == (entries + pairs[..i]) + [pairs[i]];
    }
    assert pairs[..|pairs|] == pairs;
  }

  /** Put one pair, the write succeeding: its record extends the log of the puts before it. */
  method PutLogged(db: Db, key: Bytes, value: Bytes, ghost entries: seq<Entry>)
    requires db.Valid() && db.Logs(entries) && Fits(Entry(key, value))
    modifies db`files, db`index, db`outOffset
    ensures db.Valid() && db.Logs(entries + [Entry(key, value)])
  {
    var result := db.Put(key, value, false);
  }

  /** Put one pair, the write succeeding, and read its key back at once. */
  method PutThenGet(db: Db, key: Bytes, value: Bytes, ghost entries: seq<Entry>) returns (got: Result<Bytes>)
    requires db.Valid() && db.Logs(entries) && Fits(Entry(key, value))
    modifies db`files, db`index, db`outOffset
    ensures db.Valid() && db.Logs(entries + [Entry(key, value)])
    ensures got == Ok(value)
  {
    PutLogged(db, key, value, entries);
    db.GetReadsLastPut(entries + [Entry(key, value)]);
    got := db.Get(key);
  }

  /** TestDb_Put, "put/get": each pair put reads back at once. */
  method PutGet(dir: Path, pairs: seq<Entry>) returns (got: seq<Result<Bytes>>)
    requires forall i :: 0 <= i < |pairs| ==> Fits(pairs[i])
    ensures |got| == |pairs| && forall i :: 0 <= i < |pairs| ==> got[i] == Ok(pairs[i].value)
  {
    var db := OpenEmpty(dir);
    got := [];
    assert pairs[..0] == [];
    for i := 0 to |pairs|
      invariant db.Valid() && db.Logs(pairs[..i])
      invariant |got| == i && forall j :: 0 <= j < i ==> got[j] == Ok(pairs[j].value)
    {
      var r := PutThenGet(db, pairs[i].key, pairs[i].value, pairs[..i]);
      assert pairs[..i + 1] == pairs[..i] + [pairs[i]];
      got := got + [r];
    }
  }

  /** TestDb_Put, "file growth": putting the same pairs a second time doubles the size of the
      log, which holds one record per put. */
  method FileGrowth(dir: Path, pairs: seq<Entry>) returns (first: nat, second: nat)
    requires forall i :: 0 <= i < |pairs| ==> Fits(pairs[i])
    ensures first == LogLength(pairs) && second == 2 * first
  {
    var db := OpenEmpty(dir);
    PutAll(db, pairs, []);
    assert [] + pairs == pairs;
    first := |db.files[db.outPath]|;
    PutAll(db, pairs, pairs);
    second := |db.files[db.outPath]|;
    LogGrowthDoubles(pairs);
    LogOfLength(pairs);
  }

  /** TestDb_Put, "new db process": after the pairs are put twice, a store opened again on
      the same directory reads each key back as its value. */
  method Reopen(dir: Path, pairs: seq<Entry>) returns (got: seq<Result<Bytes>>)
    requires forall i :: 0 <= i < |pairs| ==> Fits(pairs[i])
    requires DistinctKeys(pairs)
    ensures |got| == |pairs| && forall i :: 0 <= i < |pairs| ==> got[i] == Ok(pairs[i].value)
  {
    var db := OpenEmpty(dir);
    PutAll(db, pairs, []);
    assert [] + pairs == pairs;
    PutAll(db, pairs, pairs);
    var again := OpenLogged(dir, db.files, pairs + pairs);
    got := GetAll(again, pairs);
    ReadsPairs(again, pairs);
  }

  /** Get the key of each pair in turn. */
  method GetAll(db: Db, pairs: seq<Entry>) returns (got: seq<Result<Bytes>>)
    ensures |got| == |pairs| && forall i :: 0 <= i < |pairs| ==> got[i] == db.Get(pairs[i].key)
  {
    got := [];
    for i := 0 to |pairs|
      invariant |got| == i && forall j :: 0 <= j < i ==> got[j] == db.Get(pairs[j].key)
    {
      got := got + [db.Get(pairs[i].key)];
    }
  }

  /** TestDb_Segmentation, "should keep the last value of a duplicate key", for the active
      log: a key put again after other pairs reads as its second value, and still does once
      the store is opened again. */
  method LastWriteWins(dir: Path, pairs: seq<Entry>, key: Bytes, value: Bytes)
    returns (got: Result<Bytes>, reopened: Result<Bytes>)
    requires forall i :: 0 <= i < |pairs| ==> Fits(pairs[i])
    requires Fits(Entry(key, value))
    ensures got == Ok(value) && reopened == Ok(value)
  {
    var db := OpenEmpty(dir);
    var entries := pairs + [Entry(key, value)];
    PutAll(db, entries, []);
    assert [] + entries == entries;
    got := db.Get(key);
    db.GetReadsLastPut(entries);
    var again := OpenLogged(dir, db.files, entries);
    again.GetReadsLastPut(entries);
    reopened := again.Get(key);
  }

  /** A store whose log holds the pairs put twice reads each key back as its value. */
  lemma ReadsPairs(db: Db, pairs: seq<Entry>)
    requires db.Logs(pairs + pairs) && DistinctKeys(pairs)
    ensures forall i :: 0 <= i < |pairs| ==> db.Get(pairs[i].key) == Ok(pairs[i].value)
  {
    db.GetReadsLastPut(pairs + pairs);
    ValuesOfDistinct(pairs);
    ValuesOfLogSuffix(pairs, pairs);
  }

  /** Of puts with distinct keys, each key's last put is its only one. */
  lemma {:induction false} ValuesOfDistinct(entries: seq<Entry>)
    requires DistinctKeys(entries)
    ensures forall i :: 0 <= i < |entries| ==>
      (entries[i].key in ValuesOfLog(entries) && ValuesOfLog(entries)[entries[i].key] == entries[i].value)
  {
    if entries != [] {
      var init := entries[..|entries| - 1];
      assert forall i :: 0 <= i < |init| ==> init[i] == entries[i];
      ValuesOfDistinct(init);
    }
  }

  /** Puts made after others decide the values of their own keys. */
  lemma {:induction false} ValuesOfLogSuffix(earlier: seq<Entry>, later: seq<Entry>)
    ensures forall k :: k in ValuesOfLog(later) ==>
      (k in ValuesOfLog(earlier + later) && ValuesOfLog(earlier + later)[k] == ValuesOfLog(later)[k])
  {
    if later != [] {
      var init := later[..|later| - 1];
      ValuesOfLogSuffix(earlier, init);
      assert (earlier + later)[..|earlier + later| - 1] == earlier + init;
    }
  }
}
