/** The binary record format of one key/value entry.
    A record is laid out as four little-endian uint32 length fields around the raw bytes:
      total_size | key_len | key bytes | value_len | value bytes
    where total_size counts the whole record, its own four bytes included. */
module Codec {

  /** A Go `byte`; Go strings (keys and values) are byte strings. */
  type Byte = b: int | 0 <= b < 256
  type Bytes = seq<Byte>

  /** One more than the largest uint32. */
  const Uint32Limit: int := 0x1_0000_0000

  /** Number of bytes the three length fields occupy. */
  const FramingSize: nat := 12

  /** The errors the store can report.  `MalformedRecord` stands for a header shorter than four
      bytes, on which reading the size prefix panics, and for field lengths that do not fit the
      record, which the model takes to make decoding fail. */
  datatype Error =
    | NotFound          // datastore.ErrNotFound
    | CorruptedFile     // "corrupted file": fewer bytes read than a record declares
    | MalformedRecord   // a record whose fields cannot be decoded
    | EndOfFile         // io.EOF: a read ran past the end of a file
    | IoFailure         // an open, seek or write refused by the operating system

  datatype Result<+T> = Ok(value: T) | Err(error: Error)

  datatype Outcome = Pass | Fail(error: Error)

  datatype Entry = Entry(key: Bytes, value: Bytes)

  /** binary.LittleEndian.PutUint32(uint32(x)): the conversion to uint32 keeps x modulo 2^32. */
  function PutUint32(x: nat): (r: Bytes)
    ensures |r| == 4
  {
    var u0 := x % Uint32Limit;
    var u1 := u0 / 256;
    var u2 := u1 / 256;
    [u0 % 256, u1 % 256, u2 % 256, u2 / 256]
  }

  /** binary.LittleEndian.Uint32 of the four bytes starting at pos, least significant first. */
  function Uint32At(b: Bytes, pos: nat): (r: nat)
    requires pos + 4 <= |b|
    ensures r < Uint32Limit
  {
    b[pos] as int + 256 * (b[pos + 1] as int + 256 * (b[pos + 2] as int + 256 * b[pos + 3] as int))
  }

  /** The same four bytes spell the same uint32, wherever they sit. */
  lemma Uint32AtSame(a: Bytes, i: nat, b: Bytes, j: nat)
    requires i + 4 <= |a| && j + 4 <= |b| && a[i..i + 4] == b[j..j + 4]
    ensures Uint32At(a, i) == Uint32At(b, j)
  {
    assert a[i] == a[i..i + 4][0] && a[i + 1] == a[i..i + 4][1];
    assert a[i + 2] == a[i..i + 4][2] && a[i + 3] == a[i..i + 4][3];
  }

  lemma Uint32RoundTrip(x: nat)
    requires x < Uint32Limit
    ensures Uint32At(PutUint32(x), 0) == x
  {
    Base256Digits(x, x / 256, x / 256 / 256);
  }

  /** x written with its base-256 digits, least significant first. */
  lemma Base256Digits(x: nat, u1: nat, u2: nat)
    requires u1 == x / 256 && u2 == u1 / 256
    ensures x == x % 256 + 256 * (u1 % 256 + 256 * (u2 % 256 + 256 * (u2 / 256)))
  {
    assert x == x % 256 + 256 * u1;
    assert u1 == u1 % 256 + 256 * u2;
    assert u2 == u2 % 256 + 256 * (u2 / 256);
  }

  /** Four bytes are determined by the uint32 they spell. */
  lemma Uint32Injective(a: Bytes, i: nat, b: Bytes, j: nat)
    requires i + 4 <= |a| && j + 4 <= |b| && Uint32At(a, i) == Uint32At(b, j)
    ensures a[i..i + 4] == b[j..j + 4]
  {
    var a0, a1, a2, a3: int := a[i], a[i + 1], a[i + 2], a[i + 3];
    var b0, b1, b2, b3: int := b[j], b[j + 1], b[j + 2], b[j + 3];
    LowDigit(a0, a1 + 256 * (a2 + 256 * a3), b0, b1 + 256 * (b2 + 256 * b3));
    LowDigit(a1, a2 + 256 * a3, b1, b2 + 256 * b3);
    LowDigit(a2, a3, b2, b3);
    assert a[i..i + 4] == [a[i], a[i + 1], a[i + 2], a[i + 3]];
    assert b[j..j + 4] == [b[j], b[j + 1], b[j + 2], b[j + 3]];
  }

  lemma LowDigit(a: int, x: int, b: int, y: int)
    requires 0 <= a < 256 && 0 <= b < 256 && a + 256 * x == b + 256 * y
    ensures a == b && x == y
  {
  }

  /** The exact size of the record of key and value, without building it. */
  function RecordLength(e: Entry): nat
  {
    FramingSize + |e.key| + |e.value|
  }

  /** A record whose size fits the uint32 length prefix. */
  predicate Fits(e: Entry)
  {
    RecordLength(e) < Uint32Limit
  }

  /** entry.Encode. */
  function Encode(e: Entry): (r: Bytes)
    ensures |r| == RecordLength(e)
    ensures r[..4] == PutUint32(RecordLength(e))
  {
    PutUint32(RecordLength(e)) + PutUint32(|e.key|) + e.key + PutUint32(|e.value|) + e.value
  }

  /** entry.Decode: reads key_len at offset 4 and value_len right after the key; the total
      size field is not consulted, and bytes after the value are ignored.  Fails where the
      declared field lengths do not fit the buffer. */
  function Decode(data: Bytes): (r: Result<Entry>)
    ensures r.Ok? ==> RecordLength(r.value) <= |data|
    ensures r.Ok? ==> |r.value.key| < Uint32Limit && |r.value.value| < Uint32Limit
    ensures r.Err? ==> r.error == MalformedRecord
  {
    if |data| < 8 then Err(MalformedRecord)
    else
      var kl := Uint32At(data, 4);
      if |data| < FramingSize + kl then Err(MalformedRecord)
      else
        var vl := Uint32At(data, 8 + kl);
        if |data| < FramingSize + kl + vl then Err(MalformedRecord)
        else Ok(Entry(data[8..8 + kl], data[FramingSize + kl..FramingSize + kl + vl]))
  }

  /** The fields of a buffer that decodes: its two length prefixes and its two byte strings. */
  lemma DecodedFields(data: Bytes)
    requires Decode(data).Ok?
    ensures var e := Decode(data).value;
      && Uint32At(data, 4) == |e.key| && Uint32At(data, 8 + |e.key|) == |e.value|
      && data[8..8 + |e.key|] == e.key
      && data[FramingSize + |e.key|..RecordLength(e)] == e.value
  {
  }

  /** A buffer whose length prefixes and fields are those of e decodes to e. */
  lemma DecodeFields(data: Bytes, e: Entry)
    requires RecordLength(e) <= |data|
    requires Uint32At(data, 4) == |e.key| && Uint32At(data, 8 + |e.key|) == |e.value|
    requires data[8..8 + |e.key|] == e.key
    requires data[FramingSize + |e.key|..RecordLength(e)] == e.value
    ensures Decode(data) == Ok(e)
  {
  }

  lemma Uint32AtAppend(b: Bytes, tail: Bytes, pos: nat)
    requires pos + 4 <= |b|
    ensures Uint32At(b + tail, pos) == Uint32At(b, pos)
  {
  }

  lemma SliceAppend(b: Bytes, tail: Bytes, x: nat, y: nat)
    requires x <= y <= |b|
    ensures (b + tail)[x..y] == b[x..y]
  {
  }

  /** Decode looks only at the record's own bytes: whatever follows it does not matter. */
  lemma DecodeExtend(data: Bytes, tail: Bytes)
    requires Decode(data).Ok?
    ensures Decode(data + tail) == Decode(data)
  {
    var e := Decode(data).value;
    DecodedFields(data);
    Uint32AtAppend(data, tail, 4);
    Uint32AtAppend(data, tail, 8 + |e.key|);
    SliceAppend(data, tail, 8, 8 + |e.key|);
    SliceAppend(data, tail, FramingSize + |e.key|, RecordLength(e));
    DecodeFields(data + tail, e);
  }

  /** readValue on a reader positioned at pos of a file: decode the record found there and
      return its value.  A read past the end of the file is io.EOF; a negative seek fails. */
  function ReadValue(file: Bytes, pos: int): (r: Result<Bytes>)
    ensures r.Ok? ==> 0 <= pos && pos + FramingSize + |r.value| <= |file|
    ensures r.Err? ==> r.error != NotFound
  {
    if pos < 0 then Err(IoFailure)
    else if pos > |file| then Err(EndOfFile)
    else match Decode(file[pos..])
      case Ok(e) => Ok(e.value)
      case Err(_) => Err(EndOfFile)
  }

  /** Where Encode puts each field: the three length prefixes and the two byte strings. */
  lemma EncodeLayout(e: Entry)
    requires Fits(e)
    ensures var r, kl, vl := Encode(e), |e.key|, |e.value|;
      && Uint32At(r, 0) == RecordLength(e) && Uint32At(r, 4) == kl && Uint32At(r, 8 + kl) == vl
      && r[8..8 + kl] == e.key && r[FramingSize + kl..FramingSize + kl + vl] == e.value
  {
    var r := Encode(e);
    var kl, vl := |e.key|, |e.value|;
    Uint32RoundTrip(RecordLength(e));
    Uint32RoundTrip(kl);
    Uint32RoundTrip(vl);
    assert r[0..4] == PutUint32(RecordLength(e))[0..4];
    Uint32AtSame(r, 0, PutUint32(RecordLength(e)), 0);
    assert r[4..8] == PutUint32(kl)[0..4];
    Uint32AtSame(r, 4, PutUint32(kl), 0);
    assert r[8 + kl..FramingSize + kl] == PutUint32(vl)[0..4];
    Uint32AtSame(r, 8 + kl, PutUint32(vl), 0);
    assert r[8..8 + kl] == e.key;
    assert r[FramingSize + kl..FramingSize + kl + vl] == e.value;
  }

  /** Decoding what Encode produced gives back the entry. */
  lemma DecodeEncode(e: Entry)
    requires Fits(e)
    ensures Decode(Encode(e)) == Ok(e)
  {
    EncodeLayout(e);
    DecodeFields(Encode(e), e);
  }

  /** The other direction: a buffer that decodes to e, is exactly as long as e's record and
      starts with the right size prefix is the encoding of e. */
  lemma EncodeDecode(data: Bytes, e: Entry)
    requires Decode(data) == Ok(e)
    requires |data| == RecordLength(e) && Uint32At(data, 0) == RecordLength(e)
    ensures Encode(e) == data
  {
    var kl, vl := |e.key|, |e.value|;
    DecodedFields(data);
    Uint32RoundTrip(RecordLength(e));
    Uint32RoundTrip(kl);
    Uint32RoundTrip(vl);
    Uint32Injective(data, 0, PutUint32(RecordLength(e)), 0);
    Uint32Injective(data, 4, PutUint32(kl), 0);
    Uint32Injective(data, 8 + kl, PutUint32(vl), 0);
    EncodeOfFields(data, e);
  }

  /** A buffer made of e's five fields, in Encode's order, is Encode(e). */
  lemma EncodeOfFields(data: Bytes, e: Entry)
    requires |data| == RecordLength(e)
    requires data[0..4] == PutUint32(RecordLength(e))[0..4]
    requires data[4..8] == PutUint32(|e.key|)[0..4]
    requires data[8..8 + |e.key|] == e.key
    requires data[8 + |e.key|..FramingSize + |e.key|] == PutUint32(|e.value|)[0..4]
    requires data[FramingSize + |e.key|..RecordLength(e)] == e.value
    ensures Encode(e) == data
  {
    var kl := |e.key|;
    assert data == data[0..4] + data[4..8] + data[8..8 + kl] + data[8 + kl..FramingSize + kl]
                   + data[FramingSize + kl..];
  }

  /** The size prefix of a record appended to a file, read in place. */
  lemma SizeOfAppended(file: Bytes, e: Entry)
    requires Fits(e)
    ensures Uint32At(file + Encode(e), |file|) == RecordLength(e)
  {
    var r := Encode(e);
    EncodeLayout(e);
    assert (file + r)[|file|..|file| + 4] == r[0..4];
    Uint32AtSame(file + r, |file|, r, 0);
  }

  /** A value that could be read from a file can still be read after more bytes are appended. */
  lemma ReadValueStable(file: Bytes, pos: int, tail: Bytes)
    requires ReadValue(file, pos).Ok?
    ensures ReadValue(file + tail, pos) == ReadValue(file, pos)
  {
    assert (file + tail)[pos..] == file[pos..] + tail;
    DecodeExtend(file[pos..], tail);
  }

  /** Put's round trip at the byte level: the record appended at the end of a file yields its
      value when read back from the offset where it starts. */
  lemma ReadValueAppended(file: Bytes, e: Entry)
    requires Fits(e)
    ensures ReadValue(file + Encode(e), |file|) == Ok(e.value)
  {
    assert (file + Encode(e))[|file|..] == Encode(e);
    DecodeEncode(e);
  }

  /** The log written by a sequence of puts, in order. */
  function LogOf(entries: seq<Entry>): (r: Bytes)
  {
    if entries == [] then [] else LogOf(entries[..|entries| - 1]) + Encode(entries[|entries| - 1])
  }

  /** Total size of a log, entry by entry. */
  function LogLength(entries: seq<Entry>): nat
  {
    if entries == [] then 0 else LogLength(entries[..|entries| - 1]) + RecordLength(entries[|entries| - 1])
  }

  lemma {:induction false} LogOfLength(entries: seq<Entry>)
    ensures |LogOf(entries)| == LogLength(entries)
  {
    if entries != [] {
      LogOfLength(entries[..|entries| - 1]);
    }
  }

  lemma {:induction false} LogLengthConcat(a: seq<Entry>, b: seq<Entry>)
    ensures LogLength(a + b) == LogLength(a) + LogLength(b)
    decreases |b|
  {
    if b != [] {
      assert (a + b)[..|a + b| - 1] == a + b[..|b| - 1];
      assert (a + b)[|a + b| - 1] == b[|b| - 1];
      LogLengthConcat(a, b[..|b| - 1]);
    } else {
      assert a + b == a;
    }
  }

  /** The size of the log depends only on the keys and values written, so writing the same
      pairs a second time exactly doubles it. */
  lemma LogGrowthDoubles(entries: seq<Entry>)
    ensures |LogOf(entries + entries)| == 2 * |LogOf(entries)|
  {
    LogOfLength(entries + entries);
    LogOfLength(entries);
    LogLengthConcat(entries, entries);
  }
}
