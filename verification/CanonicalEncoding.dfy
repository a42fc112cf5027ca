/** The CE-v1 record encoding: each record is a 2-byte label length, the label,
    a 4-byte value length and the value (signing-service/src/canonical.rs). */
module CanonicalEncoding {
  import opened Bytes

  datatype Record = Record(tag: bytes, value: bytes)

  /** The widths the encoder checks before it writes a record. */
  predicate Fits(r: Record) {
    |r.tag| < 0x1_0000 && |r.value| < 0x1_0000_0000
  }

  predicate AllFit(records: seq<Record>) {
    forall r :: r in records ==> Fits(r)
  }

  function EncodeRecord(r: Record): (b: bytes)
    ensures |b| == 2 + |r.tag| + 4 + |r.value|
  {
    BigEndian(|r.tag|, 2) + r.tag + BigEndian(|r.value|, 4) + r.value
  }

  /** The bytes of a record list. It is what the source produces when every record
      fits; on any other list the source panics (see `CeV1Bytes`). */
  function Encode(records: seq<Record>): bytes {
    if records == [] then [] else EncodeRecord(records[0]) + Encode(records[1..])
  }

  /** The length that the source reserves in advance. */
  function TotalLength(records: seq<Record>): nat {
    if records == [] then 0
    else 2 + |records[0].tag| + 4 + |records[0].value| + TotalLength(records[1..])
  }

  /** Reads one record off the front, and returns what follows it. */
  function DecodeRecord(b: bytes): (r: Option<(Record, bytes)>)
    ensures r.Some? ==> |r.value.1| < |b|
  {
    if |b| < 2 then None
    else
      var tagLength, afterLength := FromBigEndian(b[..2]), b[2..];
      if |afterLength| < tagLength then None
      else
        var tag, afterTag := afterLength[..tagLength], afterLength[tagLength..];
        if |afterTag| < 4 then None
        else
          var valueLength, tail := FromBigEndian(afterTag[..4]), afterTag[4..];
          if |tail| < valueLength then None
          else Some((Record(tag, tail[..valueLength]), tail[valueLength..]))
  }

  /** A reference decoder; None when the bytes are not a whole number of records. */
  function Decode(b: bytes): Option<seq<Record>>
    decreases |b|
  {
    if b == [] then Some([])
    else
      var first := DecodeRecord(b);
      if first.None? then None
      else
        var rest := Decode(first.value.1);
        if rest.None? then None else Some([first.value.0] + rest.value)
  }

  lemma Appended(buffer: bytes, r: Record, rest: bytes)
    ensures buffer + (EncodeRecord(r) + rest)
            == buffer + BigEndian(|r.tag|, 2) + r.tag + BigEndian(|r.value|, 4) + r.value + rest
  {
  }

  lemma {:induction false} EncodeLength(records: seq<Record>)
    ensures |Encode(records)| == TotalLength(records)
  {
    if records == [] {
    } else {
      EncodeLength(records[1..]);
    }
  }

  /** The encoder as written: one pass that extends a buffer. None is the panic of
      an over-long label or value. */
  method CeV1Bytes(records: seq<Record>) returns (out: Option<bytes>)
    ensures out == if AllFit(records) then Some(Encode(records)) else None
    ensures out.Some? ==> |out.value| == TotalLength(records)
  {
    var buffer: bytes := [];
    for i := 0 to |records|
      invariant AllFit(records[..i])
      invariant buffer + Encode(records[i..]) == Encode(records)
    {
      var record := records[i];
      if |record.tag| >= 0x1_0000 || |record.value| >= 0x1_0000_0000 {
        assert record in records && !Fits(record);
        return None;
      }
      assert records[i..][1..] == records[i + 1..];
      Appended(buffer, record, Encode(records[i + 1..]));
      buffer := buffer + BigEndian(|record.tag|, 2);
      buffer := buffer + record.tag;
      buffer := buffer + BigEndian(|record.value|, 4);
      buffer := buffer + record.value;
      assert records[..i + 1] == records[..i] + [record];
    }
    assert records[..|records|] == records && records[|records|..] == [] && buffer + [] == buffer;
    EncodeLength(records);
    return Some(buffer);
  }

  /** Encoding distributes over concatenation of record lists. */
  lemma {:induction false} EncodeConcat(a: seq<Record>, b: seq<Record>)
    ensures Encode(a + b) == Encode(a) + Encode(b)
  {
    if a == [] {
      assert a + b == b;
    } else {
      EncodeConcat(a[1..], b);
      assert (a + b)[1..] == a[1..] + b;
    }
  }

  lemma DecodeEncodeRecord(r: Record, rest: bytes)
    requires Fits(r)
    ensures DecodeRecord(EncodeRecord(r) + rest) == Some((r, rest))
  {
    PowValues();
    FromToBigEndian(|r.tag|, 2);
    FromToBigEndian(|r.value|, 4);
    var tail := r.value + rest;
    var afterTag := BigEndian(|r.value|, 4) + tail;
    var afterLength := r.tag + afterTag;
    assert EncodeRecord(r) + rest == BigEndian(|r.tag|, 2) + afterLength;
    Halves(BigEndian(|r.tag|, 2), afterLength);
    Halves(r.tag, afterTag);
    Halves(BigEndian(|r.value|, 4), tail);
    Halves(r.value, rest);
  }

  lemma EncodeDecodeRecord(b: bytes)
    requires DecodeRecord(b).Some?
    ensures Fits(DecodeRecord(b).value.0)
    ensures b == EncodeRecord(DecodeRecord(b).value.0) + DecodeRecord(b).value.1
  {
    var tagLength, afterLength := FromBigEndian(b[..2]), b[2..];
    var afterTag := afterLength[tagLength..];
    var valueLength, tail := FromBigEndian(afterTag[..4]), afterTag[4..];
    var tag, value, rest := afterLength[..tagLength], tail[..valueLength], tail[valueLength..];
    assert b[..2] == BigEndian(|tag|, 2) by { ToFromBigEndian(b[..2]); }
    assert afterTag[..4] == BigEndian(|value|, 4) by { ToFromBigEndian(afterTag[..4]); }
    assert Fits(Record(tag, value)) by { PowValues(); }
    Regroup(b[..2], tag, afterTag[..4], value, rest);
    assert tail == value + rest;
    assert afterTag == afterTag[..4] + tail;
    assert afterLength == tag + afterTag;
    assert b == b[..2] + afterLength;
  }

  lemma Regroup(a: bytes, b: bytes, c: bytes, d: bytes, e: bytes)
    ensures a + b + c + d + e == a + (b + (c + (d + e)))
  {
  }

  lemma DecodeFront(r: Record, rest: bytes)
    requires Fits(r) && Decode(rest).Some?
    ensures Decode(EncodeRecord(r) + rest) == Some([r] + Decode(rest).value)
  {
    DecodeEncodeRecord(r, rest);
  }

  /** Decoding gives back exactly the list that was encoded. */
  lemma {:induction false} DecodeEncode(records: seq<Record>)
    requires AllFit(records)
    ensures Decode(Encode(records)) == Some(records)
  {
    if records == [] {
    } else {
      DecodeEncode(records[1..]);
      DecodeFront(records[0], Encode(records[1..]));
      assert records == [records[0]] + records[1..];
    }
  }

  /** Every byte string the decoder accepts is the encoding of what it returns. */
  lemma {:induction false} EncodeDecode(b: bytes)
    requires Decode(b).Some?
    ensures AllFit(Decode(b).value) && Encode(Decode(b).value) == b
    decreases |b|
  {
    if b == [] {
    } else {
      EncodeDecodeRecord(b);
      EncodeDecode(DecodeRecord(b).value.1);
      assert Decode(b).value[1..] == Decode(DecodeRecord(b).value.1).value;
    }
  }

  /** Equal bytes mean equal record lists. */
  lemma EncodeInjective(a: seq<Record>, b: seq<Record>)
    requires AllFit(a) && AllFit(b)
    requires Encode(a) == Encode(b)
    ensures a == b
  {
    DecodeEncode(a);
    DecodeEncode(b);
  }
}
