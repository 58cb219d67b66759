/** Whole event logs: parsing inverts encoding, and parses nothing else. */
module LogWalk {
  import opened Bytes
  import opened EventLog

  /** Consecutive records, each at the address where the one before ends. */
  function EntriesAt(es: seq<EventRecord>, address: int): (r: seq<Entry>)
    ensures |r| == |es|
  {
    if |es| == 0 then [] else [EntryOf(es[0], address)] + EntriesAt(es[1..], address + |EncodeEvent(es[0])|)
  }

  /** What must stand where the records stop: the declared end has been reached, exactly or not, or there
      is an end mark with four more bytes. */
  predicate Ends(data: bytes, length: nat, at: nat)
  {
    length <= at || (at + 8 <= |data| && FromLE(data[at..at + 4]) == END_MARK)
  }

  lemma {:induction false} WalkEnds(data: bytes, base: int, length: nat, at: nat, spec: Option<SpecId>)
    requires Ends(data, length, at)
    ensures Walk(data, base, length, at, spec) == Some(Walked(spec, [], at))
  {
    hide FromLE, ParseSpecId, ParseEntry;
  }

  /** With fewer than eight bytes left before the declared end, the walk raises, even at an end mark. */
  lemma {:induction false} CutShortRaises(data: bytes, base: int, length: nat, at: nat, spec: Option<SpecId>)
    requires at < length && |data| < at + 8
    ensures Walk(data, base, length, at, spec) == None
  {
    hide FromLE, ParseSpecId, ParseEntry;
  }

  /** Where the last of the records starts. */
  function LastStart(es: seq<EventRecord>, index: nat): nat
    requires |es| > 0
  {
    index + |EncodeEvents(es[..|es| - 1])|
  }

  lemma {:induction false} LastOfRest(es: seq<EventRecord>, index: nat)
    requires |es| > 0
    ensures index <= LastStart(es, index)
    ensures |es| > 1 ==> LastStart(es, index) == LastStart(es[1..], index + |EncodeEvent(es[0])|)
  {
    hide EncodeEvent;
    if |es| > 1 {
      assert es[..|es| - 1][1..] == es[1..][..|es| - 2];
      assert es[..|es| - 1][0] == es[0];
    }
  }

  lemma {:induction false} WalkEvents(data: bytes, base: int, length: nat, index: nat, spec: SpecId,
                                      es: seq<EventRecord>)
    requires index <= |data| && EncodeEvents(es) <= data[index..]
    requires forall i :: 0 <= i < |es| ==> ValidEvent(es[i], spec.sizes)
    requires |es| > 0 ==> LastStart(es, index) < length
    requires Ends(data, length, index + |EncodeEvents(es)|)
    ensures Walk(data, base, length, index, Some(spec))
         == Some(Walked(Some(spec), EntriesAt(es, base + index), index + |EncodeEvents(es)|))
    decreases |es|
  {
    hide EncodeEvent, ParseEntry, ParseSpecId, EntryOf, ValidEvent, Ends, GetUint, Limit, LastStart;
    if |es| == 0 {
      WalkEnds(data, base, length, index, Some(spec));
    } else {
      var e, rest := es[0], EncodeEvents(es[1..]);
      At(data, index, EncodeEvent(e), rest);
      EventRoundTrip(data[index..], e, spec, base + index);
      assert EncodeEvent(e) <= data[index..];
      HeaderAllowed(e, spec);
      HeaderOf(data, index, e);
      EntryLength(e, base + index);
      LastOfRest(es, index);
      WalkEvents(data, base, length, index + |EncodeEvent(e)|, spec, es[1..]);
    }
  }

  lemma {:induction false} HeaderAllowed(e: EventRecord, spec: SpecId)
    requires ValidEvent(e, spec.sizes)
    ensures e.reg < Limit(4) && e.etype < Limit(4) && e.reg != END_MARK && e.etype != EV_NO_ACTION
  {
    hide ValidDigests;
    Limits();
  }

  lemma {:induction false} EntryLength(e: EventRecord, address: int)
    ensures EntryOf(e, address).length == |EncodeEvent(e)| == |EntryOf(e, address).raw|
    ensures EntryOf(e, address).raw == EncodeEvent(e) && EntryOf(e, address).address == address
  {
  }

  /** The eight bytes the walk looks at before it dispatches. */
  lemma {:induction false} HeaderOf(data: bytes, index: nat, e: EventRecord)
    requires index <= |data| && EncodeEvent(e) <= data[index..]
    requires e.reg < Limit(4) && e.etype < Limit(4)
    ensures GetUint(data, index, 4) == Some((e.reg, index + 4))
    ensures GetUint(data, index + 4, 4) == Some((e.etype, index + 8))
  {
    hide LE, FromLE, Limit, GetUint, EncodeDigests;
    var tail := LE(|e.digests|, 4) + EncodeDigests(e.digests) + LE(|e.event|, 4) + e.event;
    assert EncodeEvent(e) == LE(e.reg, 4) + (LE(e.etype, 4) + tail);
    At(data, index, LE(e.reg, 4), LE(e.etype, 4) + tail);
    At(data, index + 4, LE(e.etype, 4), tail);
    GetEncoded(data, index, e.reg, 4);
    GetEncoded(data, index + 4, e.etype, 4);
  }

  lemma {:induction false} SpecHeader(data: bytes, s: SpecRecord)
    requires ValidSpec(s) && EncodeSpec(s) <= data
    ensures GetUint(data, 0, 4) == Some((s.reg, 4)) && GetUint(data, 4, 4) == Some((EV_NO_ACTION, 8))
    ensures |EncodeSpec(s)| > 0
  {
    hide LE, FromLE, Limit, GetUint, EncodeSizes;
    var tail := s.skipped + LE(|s.algorithms|, 4) + EncodeSizes(s.algorithms) + LE(|s.vendor|, 1) + s.vendor;
    assert EncodeSpec(s) == LE(s.reg, 4) + (LE(EV_NO_ACTION, 4) + tail);
    assert data == data[0..];
    At(data, 0, LE(s.reg, 4), LE(EV_NO_ACTION, 4) + tail);
    At(data, 4, LE(EV_NO_ACTION, 4), tail);
    Limits();
    GetEncoded(data, 0, s.reg, 4);
    GetEncoded(data, 4, EV_NO_ACTION, 4);
  }

  /** For every log made of a Spec ID record, event records it declares sizes for, and then an end mark or
      the declared end, which the last record may exceed, the parser recovers the size table and every
      record, in order. */
  lemma {:induction false} LogRoundTrip(data: bytes, base: int, length: nat, s: SpecRecord, es: seq<EventRecord>)
    requires ValidSpec(s)
    requires forall i :: 0 <= i < |es| ==> ValidEvent(es[i], SizeTable(s.algorithms))
    requires EncodeSpec(s) + EncodeEvents(es) <= data
    requires length > if |es| == 0 then 0 else LastStart(es, |EncodeSpec(s)|)
    requires Ends(data, length, |EncodeSpec(s)| + |EncodeEvents(es)|)
    ensures Walk(data, base, length, 0, None)
         == Some(Walked(Some(SpecOf(s, base)), EntriesAt(es, base + |EncodeSpec(s)|),
                        |EncodeSpec(s)| + |EncodeEvents(es)|))
  {
    hide EncodeSpec, EncodeEvents, ParseSpecId, ParseEntry, SpecOf, ValidEvent, EntriesAt, Ends, SizeTable,
         LastStart;
    var n := |EncodeSpec(s)|;
    assert data == data[0..];
    At(data, 0, EncodeSpec(s), EncodeEvents(es));
    SpecHeader(data, s);
    SpecRoundTrip(data, s, base);
    SpecLength(s, base);
    WalkEvents(data, base, length, n, SpecOf(s, base), es);
  }

  lemma {:induction false} SpecLength(s: SpecRecord, address: int)
    requires ValidSpec(s)
    ensures SpecOf(s, address).length == |EncodeSpec(s)| && SpecOf(s, address).sizes == SizeTable(s.algorithms)
    ensures SpecOf(s, address).raw == EncodeSpec(s)
  {
  }

  // The parser accepts nothing but encodings

  lemma {:induction false} EncodedGet(data: bytes, pos: nat, w: nat)
    requires GetUint(data, pos, w).Some?
    ensures data[pos..pos + w] == LE(GetUint(data, pos, w).value.0, w)
  {
    LEofFromLE(data[pos..pos + w]);
  }

  lemma {:induction false} DigestsSound(data: bytes, index: nat, n: nat, sizes: map<nat, nat>, last: nat)
    returns (digests: seq<(nat, bytes)>)
    requires index <= |data| && ParseDigests(data, index, n, Some(sizes), last).Some?
    ensures |digests| == n && ValidDigests(digests, sizes)
    ensures var r := ParseDigests(data, index, n, Some(sizes), last).value;
            && r.0 == Values(digests) && r.1 == LastAlgorithm(digests, last)
            && index <= r.2 <= |data| && data[index..r.2] == EncodeDigests(digests)
    decreases n
  {
    hide LE, FromLE, Limit, EncodeDigests, Values, LastAlgorithm, ValidDigests;
    if n == 0 {
      digests := [];
      NoDigests(sizes, last);
    } else {
      EncodedGet(data, index, 2);
      var (id, at) := GetUint(data, index, 2).value;
      var (digest, next) := GetBytes(data, at, sizes[id]).value;
      var rest := DigestsSound(data, next, n - 1, sizes, id);
      digests := [(id, digest)] + rest;
      var end := ParseDigests(data, next, n - 1, Some(sizes), id).value.2;
      DigestsJoin(data, index, at, next, end, id, rest, sizes, last);
    }
  }

  lemma {:induction false} NoDigests(sizes: map<nat, nat>, last: nat)
    ensures EncodeDigests([]) == [] && Values([]) == [] && LastAlgorithm([], last) == last && ValidDigests([], sizes)
  {
  }

  lemma {:induction false} DigestsJoin(data: bytes, index: nat, at: nat, next: nat, end: nat, id: nat,
                                       rest: seq<(nat, bytes)>, sizes: map<nat, nat>, last: nat)
    requires index <= at < next <= end <= |data| && data[index..at] == LE(id, 2)
    requires data[next..end] == EncodeDigests(rest)
    requires id < Limit(2) && id in sizes && sizes[id] == next - at && ValidDigests(rest, sizes)
    ensures var digests := [(id, data[at..next])] + rest;
            && data[index..end] == EncodeDigests(digests) && ValidDigests(digests, sizes)
            && Values(digests) == [data[at..next]] + Values(rest)
            && LastAlgorithm(digests, last) == LastAlgorithm(rest, id)
  {
    hide LE, Limit;
    var digests := [(id, data[at..next])] + rest;
    assert digests[1..] == rest;
    assert data[index..end] == data[index..at] + data[at..next] + data[next..end];
  }

  lemma {:induction false} EntrySound(data: bytes, address: int, spec: SpecId) returns (e: EventRecord)
    requires ParseEntry(data, address, Some(spec)).Some?
    ensures EncodeEvent(e) <= data && ParseEntry(data, address, Some(spec)) == Some(EntryOf(e, address))
    ensures e.reg < Limit(4) && e.etype < Limit(4) && |e.digests| < Limit(4) && 0 < |e.event| < Limit(4)
    ensures ValidDigests(e.digests, spec.sizes)
  {
    hide LE, FromLE, Limit, ValidDigests, EncodeDigests, ParseDigests, Values, LastAlgorithm;
    EncodedGet(data, 0, 4);
    EncodedGet(data, 4, 4);
    EncodedGet(data, 8, 4);
    var reg, etype, n := GetUint(data, 0, 4).value.0, GetUint(data, 4, 4).value.0, GetUint(data, 8, 4).value.0;
    var digests := DigestsSound(data, 12, n, spec.sizes, 0);
    var at := ParseDigests(data, 12, n, Some(spec.sizes), 0).value.2;
    EncodedGet(data, at, 4);
    var size := GetUint(data, at, 4).value.0;
    var end := at + 4 + size;
    e := EventRecord(reg, etype, digests, data[at + 4..end]);
    assert EncodeEvent(e) == data[..end] by {
      SixSlices(data, at, end);
    }
    hide EncodeEvent;
    assert EncodeEvent(e) <= data;
  }

  lemma {:induction false} SixSlices(data: bytes, at: nat, end: nat)
    requires 12 <= at && at + 4 <= end <= |data|
    ensures data[..end] == data[0..4] + data[4..8] + data[8..12] + data[12..at] + data[at..at + 4] + data[at + 4..end]
  {
  }

  /** The walk never forgets a Spec ID record for an earlier one. */
  lemma {:induction false} SpecAddressGrows(data: bytes, base: int, length: nat, index: nat, spec: SpecId)
    requires Walk(data, base, length, index, Some(spec)).Some?
    ensures var w := Walk(data, base, length, index, Some(spec)).value;
            w.spec.Some? && (w.spec.value.address == spec.address || w.spec.value.address >= base + index)
    decreases length - index
  {
    hide GetUint, ParseSpecId, ParseEntry;
    if index < length {
      var reg, etype := GetUint(data, index, 4).value.0, GetUint(data, index + 4, 4).value.0;
      UintNext(data, index);
      if reg != END_MARK {
        if etype == EV_NO_ACTION {
          var s := ParseSpecId(data[index..], base + index).value;
          SpecAt(data[index..], base + index);
          SpecAddressGrows(data, base, length, index + s.length, s);
        } else {
          var e := ParseEntry(data[index..], base + index, Some(spec)).value;
          SpecAddressGrows(data, base, length, index + e.length, spec);
        }
      }
    }
  }

  lemma {:induction false} UintNext(data: bytes, index: nat)
    ensures GetUint(data, index, 4).Some? ==> GetUint(data, index, 4).value.1 == index + 4 <= |data|
  {
  }

  lemma {:induction false} SpecAt(data: bytes, address: int)
    requires ParseSpecId(data, address).Some?
    ensures ParseSpecId(data, address).value.address == address
  {
  }

  /** Behind its Spec ID record, a log that parses without meeting another one is a concatenation of
      encoded event records, and the entries are those records at their own addresses. */
  lemma {:induction false} WalkSound(data: bytes, base: int, length: nat, index: nat, spec: SpecId)
    returns (es: seq<EventRecord>)
    requires index <= |data| && spec.address < base + index
    requires Walk(data, base, length, index, Some(spec)).Some?
    requires Walk(data, base, length, index, Some(spec)).value.spec.Some?
    requires Walk(data, base, length, index, Some(spec)).value.spec.value.address == spec.address
    ensures forall i :: 0 <= i < |es| ==> ValidEvent(es[i], spec.sizes)
    ensures var w := Walk(data, base, length, index, Some(spec)).value;
            && w.spec == Some(spec) && w.entries == EntriesAt(es, base + index)
            && index <= w.end <= |data| && data[index..w.end] == EncodeEvents(es)
            && (w.end < length ==> GetUint(data, w.end, 4).Some? && GetUint(data, w.end, 4).value.0 == END_MARK)
    decreases length - index
  {
    hide GetUint, EncodeEvent, EntryOf, ValidDigests, ParseEntry, ParseSpecId, Limit;
    es := [];
    if index < length {
      var reg, etype := GetUint(data, index, 4).value.0, GetUint(data, index + 4, 4).value.0;
      UintNext(data, index);
      if reg != END_MARK {
        if etype == EV_NO_ACTION {
          var s := ParseSpecId(data[index..], base + index).value;
          SpecAt(data[index..], base + index);
          SpecAddressGrows(data, base, length, index + s.length, s);
          assert false;
        } else {
          var entry := ParseEntry(data[index..], base + index, Some(spec)).value;
          var e := EntrySound(data[index..], base + index, spec);
          EntryLength(e, base + index);
          HeaderOf(data, index, e);
          Limits();
          assert ValidEvent(e, spec.sizes);
          var next := index + entry.length;
          var rest := WalkSound(data, base, length, next, spec);
          es := [e] + rest;
          var end := Walk(data, base, length, next, Some(spec)).value.end;
          assert es[1..] == rest;
          assert data[index..end] == data[index..next] + data[next..end];
          assert data[index..next] == data[index..][..entry.length] == EncodeEvent(e);
        }
      }
    }
  }

  lemma {:induction false} SizesSound(data: bytes, index: nat, n: nat, sizes: map<nat, nat>)
    returns (algorithms: seq<(nat, nat)>)
    requires index <= |data| && ParseSizes(data, index, n, sizes).Some?
    ensures |algorithms| == n
    ensures forall i :: 0 <= i < n ==> algorithms[i].0 < Limit(2) && algorithms[i].1 < Limit(2)
    ensures var end := ParseSizes(data, index, n, sizes).value.1;
            index <= end <= |data| && data[index..end] == EncodeSizes(algorithms)
    decreases n
  {
    hide LE, FromLE, Limit;
    algorithms := [];
    if n > 0 {
      EncodedGet(data, index, 2);
      EncodedGet(data, index + 2, 2);
      var id, size := GetUint(data, index, 2).value.0, GetUint(data, index + 2, 2).value.0;
      var rest := SizesSound(data, index + 4, n - 1, sizes[id := size]);
      algorithms := [(id, size)] + rest;
      var end := ParseSizes(data, index, n, sizes).value.1;
      assert algorithms[1..] == rest;
      assert data[index..end] == data[index..index + 2] + data[index + 2..index + 4] + data[index + 4..end];
    }
  }

  /** Whatever parses as a Spec ID record, under its event type and within the data, is the encoding of
      one. */
  lemma {:induction false} SpecSound(data: bytes, address: int) returns (s: SpecRecord)
    requires ParseSpecId(data, address).Some? && ParseSpecId(data, address).value.length <= |data|
    requires GetUint(data, 0, 4).Some? && GetUint(data, 0, 4).value.0 != END_MARK
    requires GetUint(data, 4, 4) == Some((EV_NO_ACTION, 8))
    ensures ValidSpec(s) && EncodeSpec(s) <= data && ParseSpecId(data, address) == Some(SpecOf(s, address))
  {
    hide LE, FromLE, Limit, EncodeSizes, ParseSizes, SpecOf;
    Limits();
    EncodedGet(data, 0, 4);
    EncodedGet(data, 4, 4);
    EncodedGet(data, 56, 4);
    var n := GetUint(data, 56, 4).value.0;
    var algorithms := SizesSound(data, 60, n, map[]);
    var at := ParseSizes(data, 60, n, map[]).value.1;
    EncodedGet(data, at, 1);
    var vendor := GetUint(data, at, 1).value.0;
    var end := at + 1 + vendor;
    s := SpecRecord(GetUint(data, 0, 4).value.0, data[8..56], algorithms, data[at + 1..end]);
    assert ValidSpec(s);
    assert EncodeSpec(s) == data[..end] by {
      SevenSlices(data, at, end);
    }
    hide EncodeSpec;
    SpecRoundTrip(data, s, address);
  }

  lemma {:induction false} SevenSlices(data: bytes, at: nat, end: nat)
    requires 60 <= at && at + 1 <= end <= |data|
    ensures data[..end] == data[0..4] + data[4..8] + data[8..56] + data[56..60] + data[60..at] + data[at..at + 1]
                           + data[at + 1..end]
  {
  }

  /** The converse of the round trip. Whatever parses with a single Spec ID record, at its start and within
      the data, is the encoding of one valid Spec ID record and valid events, parsed as exactly those. */
  lemma {:induction false} LogSound(data: bytes, base: int, length: nat) returns (s: SpecRecord, es: seq<EventRecord>)
    requires Walk(data, base, length, 0, None).Some?
    requires Walk(data, base, length, 0, None).value.spec.Some?
    requires Walk(data, base, length, 0, None).value.spec.value.address == base
    requires Walk(data, base, length, 0, None).value.spec.value.length <= |data|
    ensures ValidSpec(s) && forall i :: 0 <= i < |es| ==> ValidEvent(es[i], SizeTable(s.algorithms))
    ensures EncodeSpec(s) + EncodeEvents(es) <= data
    ensures Walk(data, base, length, 0, None)
         == Some(Walked(Some(SpecOf(s, base)), EntriesAt(es, base + |EncodeSpec(s)|),
                        |EncodeSpec(s)| + |EncodeEvents(es)|))
    ensures var end := |EncodeSpec(s)| + |EncodeEvents(es)|;
            end < length ==> GetUint(data, end, 4).Some? && GetUint(data, end, 4).value.0 == END_MARK
  {
    hide GetUint, ParseSpecId, ParseEntry, EntriesAt, EncodeSpec, EncodeEvents, SpecOf, ValidSpec, ValidEvent,
         SizeTable;
    StartsWithSpec(data, base, length);
    assert data[0..] == data;
    SpecAt(data, base);
    var spec := ParseSpecId(data, base).value;
    if spec.length > |data| {
      PastTheEnd(data, base, length, spec.length, Some(spec));
      assert false;
    }
    s := SpecSound(data, base);
    SpecLength(s, base);
    es := WalkSound(data, base, length, spec.length, spec);
    var end := Walk(data, base, length, 0, None).value.end;
    assert data[..end] == data[..spec.length] + data[spec.length..end];
  }

  // Records tile the log

  function Raws(entries: seq<Entry>): bytes
  {
    if |entries| == 0 then [] else entries[0].raw + Raws(entries[1..])
  }

  /** The addresses a re-walk prints: it sums the recorded lengths from the log's base. */
  function DumpAddresses(entries: seq<Entry>, start: int): seq<int>
  {
    if |entries| == 0 then [] else [start] + DumpAddresses(entries[1..], start + entries[0].length)
  }

  function Addresses(entries: seq<Entry>): seq<int>
  {
    if |entries| == 0 then [] else [entries[0].address] + Addresses(entries[1..])
  }

  lemma {:induction false} EntriesTile(es: seq<EventRecord>, address: int)
    ensures Raws(EntriesAt(es, address)) == EncodeEvents(es)
    ensures DumpAddresses(EntriesAt(es, address), address) == Addresses(EntriesAt(es, address))
    decreases |es|
  {
    hide EncodeEvent, EntryOf;
    if |es| > 0 {
      EntryLength(es[0], address);
      EntriesTile(es[1..], address + |EncodeEvent(es[0])|);
      assert EntriesAt(es, address)[1..] == EntriesAt(es[1..], address + |EncodeEvent(es[0])|);
    }
  }

  /** A Spec ID record whose vendor data is cut short can only be the last record. */
  lemma {:induction false} PastTheEnd(data: bytes, base: int, length: nat, index: nat, spec: Option<SpecId>)
    requires index >= |data| && Walk(data, base, length, index, spec).Some?
    ensures Walk(data, base, length, index, spec) == Some(Walked(spec, [], index))
  {
  }

  lemma {:induction false} SpecSlice(data: bytes, address: int)
    requires ParseSpecId(data, address).Some?
    ensures var s := ParseSpecId(data, address).value; s.raw == Slice(data, 0, s.length) && s.length > 0
  {
    hide ParseSizes, GetUint;
  }

  /** In a parsed log whose Spec ID record is the one at the start, the raw slices of that record and
      of the events join to the consumed bytes, and the addresses a re-walk sums up are the ones
      assigned while parsing. */
  lemma {:induction false} LogTiles(data: bytes, base: int, length: nat)
    requires Walk(data, base, length, 0, None).Some?
    requires Walk(data, base, length, 0, None).value.spec.Some?
    requires Walk(data, base, length, 0, None).value.spec.value.address == base
    ensures var w := Walk(data, base, length, 0, None).value;
            && w.spec.value.raw + Raws(w.entries) == Slice(data, 0, w.end)
            && DumpAddresses(w.entries, base + w.spec.value.length) == Addresses(w.entries)
  {
    hide GetUint, ParseSpecId, ParseEntry, EntriesAt, Raws, DumpAddresses, Addresses;
    StartsWithSpec(data, base, length);
    var s := ParseSpecId(data[0..], base).value;
    assert data[0..] == data;
    SpecSlice(data, base);
    SpecAt(data, base);
    if s.length >= |data| {
      PastTheEnd(data, base, length, s.length, Some(s));
      NoEntries(base + s.length);
      assert s.raw + [] == s.raw;
    } else {
      var es := WalkSound(data, base, length, s.length, s);
      EntriesTile(es, base + s.length);
      var end := Walk(data, base, length, 0, None).value.end;
      assert Slice(data, 0, end) == data[..s.length] + data[s.length..end];
    }
  }

  lemma {:induction false} NoEntries(address: int)
    ensures EntriesAt([], address) == []
    ensures Raws([]) == [] && DumpAddresses([], address) == [] == Addresses([])
  {
  }

  /** Only a Spec ID record at the very start has the base address. */
  lemma {:induction false} StartsWithSpec(data: bytes, base: int, length: nat)
    requires Walk(data, base, length, 0, None).Some?
    requires Walk(data, base, length, 0, None).value.spec.Some?
    requires Walk(data, base, length, 0, None).value.spec.value.address == base
    ensures ParseSpecId(data[0..], base).Some?
    ensures var s := ParseSpecId(data[0..], base).value;
            Walk(data, base, length, 0, None) == Walk(data, base, length, s.length, Some(s))
    ensures GetUint(data, 0, 4).Some? && GetUint(data, 0, 4).value.0 != END_MARK
    ensures GetUint(data, 4, 4) == Some((EV_NO_ACTION, 8))
  {
    hide GetUint, ParseSpecId, ParseEntry;
    UintNext(data, 0);
    if 0 < length {
      var reg, etype := GetUint(data, 0, 4).value.0, GetUint(data, 4, 4).value.0;
      if reg != END_MARK && etype != EV_NO_ACTION {
        var e := ParseEntry(data[0..], base, None).value;
        LaterSpec(data, base, length, e.length);
      }
    }
  }

  lemma {:induction false} LaterSpec(data: bytes, base: int, length: nat, index: nat)
    requires Walk(data, base, length, index, None).Some?
    ensures var w := Walk(data, base, length, index, None).value;
            w.spec.Some? ==> w.spec.value.address >= base + index
    decreases length - index
  {
    hide GetUint, ParseSpecId, ParseEntry;
    if index < length {
      var reg, etype := GetUint(data, index, 4).value.0, GetUint(data, index + 4, 4).value.0;
      UintNext(data, index);
      if reg != END_MARK {
        if etype == EV_NO_ACTION {
          var s := ParseSpecId(data[index..], base + index).value;
          SpecAt(data[index..], base + index);
          SpecAddressGrows(data, base, length, index + s.length, s);
        } else {
          LaterSpec(data, base, length, index + ParseEntry(data[index..], base + index, None).value.length);
        }
      }
    }
  }
}
