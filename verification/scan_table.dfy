/** The scan table: `n_scans` 9-octet entries from offset 0xc8, in on-disk
    order, and the two ways `process` walks it: finding the first
    data-bearing entry, and visiting every data-bearing entry in order. */
module ScanTableDecoder {
  import opened Wrappers
  import opened Bytes
  import opened Reader
  import opened Layout

  /** The type tag of a data-bearing scan; entries with any other tag carry
      no per-cycle data. */
  const DataScanType: byte := 0x11

  /** `scan_header_dtype`: a type tag, the offset of the scan info (the same
      in every cycle) and the offset of the cycle-0 data block. */
  datatype ScanEntry = ScanEntry(kind: byte, infoPosition: int, dataPosition: int)

  predicate IsData(e: ScanEntry)
  {
    e.kind == DataScanType
  }

  /** The 9-octet entry stored at octet `at`. */
  function DecodeEntry(buf: seq<byte>, at: nat): ScanEntry
    requires at + EntrySize <= |buf|
  {
    ScanEntry(buf[at], I32At(buf, at + EntryInfoOffset), I32At(buf, at + EntryDataOffset))
  }

  predicate WellFormedEntry(e: ScanEntry)
  {
    -0x8000_0000 <= e.infoPosition < 0x8000_0000 && -0x8000_0000 <= e.dataPosition < 0x8000_0000
  }

  function EncodeEntry(e: ScanEntry): (rec: seq<byte>)
    requires WellFormedEntry(e)
    ensures |rec| == EntrySize
  {
    [e.kind] + EncodeI32(e.infoPosition) + EncodeI32(e.dataPosition)
  }

  /** Entries and their 9-octet records correspond one to one. */
  lemma EntryRoundTrip(e: ScanEntry, rec: seq<byte>)
    requires |rec| == EntrySize && WellFormedEntry(e)
    ensures DecodeEntry(EncodeEntry(e), 0) == e
    ensures WellFormedEntry(DecodeEntry(rec, 0)) && EncodeEntry(DecodeEntry(rec, 0)) == rec
  {
    var enc := EncodeEntry(e);
    ReadWithin(enc, 1, EncodeI32(e.infoPosition), 0);
    ReadWithin(enc, 5, EncodeI32(e.dataPosition), 0);
    I32FieldRoundTrip(rec, 1);
    I32FieldRoundTrip(rec, 5);
    assert rec == [rec[0]] + rec[1 .. 5] + rec[5 .. 9];
  }

  /** `_read_values(sac, 0x00C8, scan_header_dtype, n_scans)`. A negative
      `n_scans` makes numpy read entries up to the end of the file. */
  function DecodeScanTable(buf: seq<byte>, nScans: int): (r: Parse<seq<ScanEntry>>)
    ensures nScans >= 0 ==> (r.Success? <==> |buf| >= 0xc8 + 9 * nScans)
    ensures nScans < 0 ==> (r.Success? <==> |buf| >= 0xc8 && (|buf| - 0xc8) % 9 == 0)
    ensures r.Success? && nScans >= 0 ==> |r.value| == nScans
    ensures r.Success? && nScans < 0 ==> 0xc8 + 9 * |r.value| == |buf|
    ensures r.Success? ==> forall k :: 0 <= k < |r.value| ==>
      0xc8 + 9 * k + 9 <= |buf| && r.value[k] == DecodeEntry(buf, 0xc8 + 9 * k)
    ensures nScans >= 0 && r.Failure? ==> r.error == Truncated(0xc8, 9 * nScans)
    ensures nScans < 0 && r.Failure? ==>
      r.error == if |buf| < 0xc8 then Truncated(0xc8, 0) else Ragged(0xc8, 9)
  {
    var n :- RecordCount(|buf|, 0xc8, 9, nScans);
    Success(seq(n, k requires 0 <= k < n => DecodeEntry(buf, 0xc8 + 9 * k)))
  }

  /** The data-bearing entries, in table order. */
  function DataEntries(entries: seq<ScanEntry>): (d: seq<ScanEntry>)
    ensures |d| <= |entries|
    ensures forall i :: 0 <= i < |d| ==> IsData(d[i])
  {
    if |entries| == 0 then []
    else if IsData(entries[0]) then [entries[0]] + DataEntries(entries[1..])
    else DataEntries(entries[1..])
  }

  lemma {:induction false} DataEntriesAppend(a: seq<ScanEntry>, b: seq<ScanEntry>)
    ensures DataEntries(a + b) == DataEntries(a) + DataEntries(b)
    decreases |a|
  {
    if |a| > 0 {
      assert (a + b)[1..] == a[1..] + b;
      DataEntriesAppend(a[1..], b);
    } else {
      assert a + b == b;
    }
  }

  /** A data-bearing entry at table index `i` is the data entry at index
      "number of data entries before it": the filter keeps table order. */
  lemma {:induction false} DataEntryIndex(entries: seq<ScanEntry>, i: nat)
    requires i < |entries| && IsData(entries[i])
    ensures |DataEntries(entries[..i])| < |DataEntries(entries)|
    ensures DataEntries(entries)[|DataEntries(entries[..i])|] == entries[i]
  {
    assert entries == entries[..i] + ([entries[i]] + entries[i + 1 ..]);
    DataEntriesAppend(entries[..i], [entries[i]] + entries[i + 1 ..]);
  }

  /** An entry of any other type contributes nothing wherever it stands. */
  lemma {:induction false} NonDataEntryIgnored(a: seq<ScanEntry>, e: ScanEntry, b: seq<ScanEntry>)
    requires !IsData(e)
    ensures DataEntries(a + [e] + b) == DataEntries(a + b)
  {
    DataEntriesAppend(a + [e], b);
    DataEntriesAppend(a, [e]);
    DataEntriesAppend(a, b);
  }

  /** `_find_first_data_position`: the data position of the first entry of
      type 0x11, or nothing (Python's implicit `None`) when there is none. */
  function FirstDataPosition(entries: seq<ScanEntry>): (r: Option<int>)
    ensures r.None? ==> forall i :: 0 <= i < |entries| ==> !IsData(entries[i])
  {
    if |entries| == 0 then None
    else if !IsData(entries[0]) then FirstDataPosition(entries[1..])
    else Some(entries[0].dataPosition)
  }

  /** The anchor is the data position of the first data-bearing entry, the
      same entry that the first scan of every cycle is decoded from. */
  lemma {:induction false} FirstDataPositionIsFirstDataEntry(entries: seq<ScanEntry>)
    ensures FirstDataPosition(entries) ==
      if |DataEntries(entries)| == 0 then None else Some(DataEntries(entries)[0].dataPosition)
  {
    if |entries| > 0 && !IsData(entries[0]) {
      FirstDataPositionIsFirstDataEntry(entries[1..]);
    }
  }

  /** There is an anchor exactly when some entry has type 0x11. */
  lemma {:induction false} FirstDataPositionFound(entries: seq<ScanEntry>)
    ensures FirstDataPosition(entries).None? <==> forall i :: 0 <= i < |entries| ==> !IsData(entries[i])
  {
    if |entries| > 0 {
      FirstDataPositionFound(entries[1..]);
      assert forall i :: 1 <= i < |entries| ==> entries[i] == entries[1..][i - 1];
    }
  }

  /** The anchor comes from an entry that no data-bearing entry precedes. */
  lemma {:induction false} FirstDataPositionWitness(entries: seq<ScanEntry>)
    requires FirstDataPosition(entries).Some?
    ensures exists i :: (0 <= i < |entries| && IsData(entries[i])
                         && FirstDataPosition(entries).value == entries[i].dataPosition
                         && forall j :: 0 <= j < i ==> !IsData(entries[j]))
  {
    FirstDataPositionFound(entries);
    var i :| 0 <= i < |entries| && IsData(entries[i]);
    var j := 0;
    while !IsData(entries[j])
      invariant 0 <= j <= i
      invariant forall m :: 0 <= m < j ==> !IsData(entries[m])
      invariant FirstDataPosition(entries) == FirstDataPosition(entries[j..])
      decreases i - j
    {
      assert entries[j..][1..] == entries[j + 1 ..];
      j := j + 1;
    }
  }

  /** The per-cycle loop body applied to the data-bearing entries: `decode`
      on each of `data` in order, stopping at the first failure. */
  function DecodeEach<T>(data: seq<ScanEntry>, decode: ScanEntry -> Parse<T>): (r: Parse<seq<T>>)
    ensures r.Success? ==> |r.value| == |data|
    ensures r.Success? ==> forall j :: 0 <= j < |data| ==> decode(data[j]) == Success(r.value[j])
    decreases |data|
  {
    if |data| == 0 then Success([])
    else
      match decode(data[0])
      case Failure(e) => Failure(e)
      case Success(x) =>
        match DecodeEach(data[1..], decode)
        case Failure(e) => Failure(e)
        case Success(rest) =>
          assert forall j :: 1 <= j < |data| ==> data[j] == data[1..][j - 1];
          Success([x] + rest)
  }

  /** The loop completes when every data-bearing entry decodes. */
  lemma {:induction false} DecodeEachSucceeds<T>(data: seq<ScanEntry>, decode: ScanEntry -> Parse<T>)
    requires forall j :: 0 <= j < |data| ==> decode(data[j]).Success?
    ensures DecodeEach(data, decode).Success?
    decreases |data|
  {
    if |data| > 0 {
      assert forall j :: 0 <= j < |data| - 1 ==> data[1..][j] == data[j + 1];
      DecodeEachSucceeds(data[1..], decode);
    }
  }

  /** `j` is the first of `data` whose decoding fails. */
  predicate FirstFailure<T>(data: seq<ScanEntry>, decode: ScanEntry -> Parse<T>, j: int)
  {
    && 0 <= j < |data|
    && decode(data[j]).Failure?
    && forall i :: 0 <= i < j ==> decode(data[i]).Success?
  }

  /** A failed loop reports the error of the first entry that fails. */
  lemma {:induction false} DecodeEachFailure<T>(data: seq<ScanEntry>, decode: ScanEntry -> Parse<T>)
    requires DecodeEach(data, decode).Failure?
    ensures exists j :: FirstFailure(data, decode, j) && decode(data[j]) == Failure(DecodeEach(data, decode).error)
    decreases |data|
  {
    var e := DecodeEach(data, decode).error;
    if decode(data[0]).Failure? {
      assert FirstFailure(data, decode, 0);
    } else {
      DecodeEachFailure(data[1..], decode);
      var j :| FirstFailure(data[1..], decode, j) && decode(data[1..][j]) == Failure(e);
      assert FirstFailure(data, decode, j + 1);
    }
  }
}
