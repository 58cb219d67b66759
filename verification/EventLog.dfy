/** The TD event log: records as the parser reads them, and as the specification encodes them. */
module EventLog {
  import opened Bytes

  const EV_NO_ACTION := 3
  const END_MARK := 0xFFFF_FFFF
  /** Register index and event type are followed by 48 bytes the Spec ID parser does not interpret. */
  const SPEC_SKIP: nat := 48

  /** A little-endian integer of `w` bytes and the next position; None when the assertion fails. */
  function GetUint(data: bytes, pos: nat, w: nat): (r: Option<(nat, nat)>)
    ensures r.Some? ==> r.value.1 == pos + w && r.value.0 < Limit(w)
  {
    if pos + w <= |data| then Some((FromLE(data[pos..pos + w]), pos + w)) else None
  }

  /** Asking for no bytes at all makes the caller's unpacking fail. */
  function GetBytes(data: bytes, pos: nat, count: nat): Option<(bytes, nat)>
  {
    if count == 0 || pos + count > |data| then None else Some((data[pos..pos + count], pos + count))
  }

  // What the parser produces

  datatype SpecId = SpecId(address: int, rtmr: int, etype: nat, digestCount: nat, algorithms: nat,
                           sizes: map<nat, nat>, length: nat, raw: bytes)

  datatype Entry = Entry(address: int, rtmr: int, etype: nat, digestCount: nat, digests: seq<bytes>,
                         algorithm: nat, eventSize: nat, event: bytes, length: nat, raw: bytes)

  /** Reads `n` algorithm and digest-size pairs; a repeated algorithm keeps its last size. */
  function ParseSizes(data: bytes, index: nat, n: nat, sizes: map<nat, nat>): Option<(map<nat, nat>, nat)>
    decreases n
  {
    if n == 0 then Some((sizes, index))
    else
      var (id, at) :- GetUint(data, index, 2);
      var (size, next) :- GetUint(data, at, 2);
      ParseSizes(data, next, n - 1, sizes[id := size])
  }

  function ParseSpecId(data: bytes, address: int): (r: Option<SpecId>)
    ensures r.Some? ==> r.value.length > 0
  {
    var (reg, i0) :- GetUint(data, 0, 4);
    var (etype, i1) :- GetUint(data, i0, 4);
    var (count, i2) :- GetUint(data, i1, 4);
    var (n, i3) :- GetUint(data, i2 + 20 + 24, 4);
    var (sizes, i4) :- ParseSizes(data, i3, n, map[]);
    var (vendor, i5) :- GetUint(data, i4, 1);
    Some(SpecId(address, reg - 1, etype, count, n, sizes, i5 + vendor, Slice(data, 0, i5 + vendor)))
  }

  /** The table as the pairs read so far leave it, and the next position unless reading them raised. */
  function SizesAfter(data: bytes, index: nat, n: nat, sizes: map<nat, nat>): (map<nat, nat>, Option<nat>)
    decreases n
  {
    if n == 0 then (sizes, Some(index))
    else
      match GetUint(data, index, 2)
      case None => (sizes, None)
      case Some((id, at)) =>
        match GetUint(data, at, 2)
        case None => (sizes, None)
        case Some((size, next)) => SizesAfter(data, next, n - 1, sizes[id := size])
  }

  /** The Spec ID object as parsing leaves it, also when it raises half-way: fields not reached keep
      their initial values. */
  function SpecAfter(data: bytes, address: int): SpecId
  {
    var blank := SpecId(address, 0, 0, 0, 0, map[], 0, []);
    match GetUint(data, 0, 4)
    case None => blank
    case Some((reg, i0)) =>
      match GetUint(data, i0, 4)
      case None => blank
      case Some((etype, i1)) =>
        match GetUint(data, i1, 4)
        case None => blank.(etype := etype)
        case Some((count, i2)) =>
          SpecBody(data, i2 + 20 + 24, blank.(rtmr := reg - 1, etype := etype, digestCount := count))
  }

  function SpecBody(data: bytes, index: nat, header: SpecId): SpecId
  {
    match GetUint(data, index, 4)
    case None => header
    case Some((n, i3)) =>
      var (sizes, end) := SizesAfter(data, i3, n, map[]);
      var listed := header.(algorithms := n, sizes := sizes);
      if end.None? then listed
      else
        match GetUint(data, end.value, 1)
        case None => listed
        case Some((vendor, i5)) => listed.(length := i5 + vendor, raw := Slice(data, 0, i5 + vendor))
  }

  lemma {:induction false} SizesAfterIs(data: bytes, index: nat, n: nat, sizes: map<nat, nat>)
    ensures var r := SizesAfter(data, index, n, sizes);
            ParseSizes(data, index, n, sizes) == if r.1.None? then None else Some((r.0, r.1.value))
    decreases n
  {
    hide GetUint;
    if n > 0 && GetUint(data, index, 2).Some? {
      var (id, at) := GetUint(data, index, 2).value;
      if GetUint(data, at, 2).Some? {
        var (size, next) := GetUint(data, at, 2).value;
        SizesAfterIs(data, next, n - 1, sizes[id := size]);
      }
    }
  }

  /** Parsing raises exactly when the object is left without its raw data. */
  lemma {:induction false} SpecAfterIs(data: bytes, address: int)
    ensures var s := SpecAfter(data, address);
            ParseSpecId(data, address) == if s.raw == [] then None else Some(s)
  {
    hide GetUint, ParseSizes, SizesAfter;
    if GetUint(data, 0, 4).Some? && GetUint(data, 4, 4).Some? && GetUint(data, 8, 4).Some? {
      FirstByte(data);
      if GetUint(data, 56, 4).Some? {
        var (n, i3) := GetUint(data, 56, 4).value;
        SizesAfterIs(data, i3, n, map[]);
      }
    }
  }

  lemma {:induction false} FirstByte(data: bytes)
    requires GetUint(data, 0, 4).Some?
    ensures |data| > 0
  {
  }

  /** Reads `n` digests; without a Spec ID record, or for an undeclared algorithm, this raises. */
  function ParseDigests(data: bytes, index: nat, n: nat, sizes: Option<map<nat, nat>>, last: nat):
    Option<(seq<bytes>, nat, nat)>
    decreases n
  {
    if n == 0 then Some(([], last, index))
    else
      var (id, at) :- GetUint(data, index, 2);
      if sizes.None? || id !in sizes.value then None
      else
        var (digest, next) :- GetBytes(data, at, sizes.value[id]);
        var (digests, final, end) :- ParseDigests(data, next, n - 1, sizes, id);
        Some(([digest] + digests, final, end))
  }

  function SizesOf(spec: Option<SpecId>): Option<map<nat, nat>>
  {
    if spec.None? then None else Some(spec.value.sizes)
  }

  lemma {:induction false} DigestsAdvance(data: bytes, index: nat, n: nat, sizes: Option<map<nat, nat>>, last: nat)
    ensures var r := ParseDigests(data, index, n, sizes, last); r.Some? ==> r.value.2 >= index && |r.value.0| == n
    decreases n
  {
    if n > 0 && GetUint(data, index, 2).Some? {
      var (id, at) := GetUint(data, index, 2).value;
      if sizes.Some? && id in sizes.value && GetBytes(data, at, sizes.value[id]).Some? {
        DigestsAdvance(data, GetBytes(data, at, sizes.value[id]).value.1, n - 1, sizes, id);
      }
    }
  }

  function ParseEntry(data: bytes, address: int, spec: Option<SpecId>): (r: Option<Entry>)
    ensures r.Some? ==> 0 < r.value.length <= |data| && r.value.raw == data[..r.value.length]
  {
    var (reg, i0) :- GetUint(data, 0, 4);
    var (etype, i1) :- GetUint(data, i0, 4);
    var (count, i2) :- GetUint(data, i1, 4);
    var (digests, last, i3) :- ParseDigests(data, i2, count, SizesOf(spec), 0);
    DigestsAdvance(data, i2, count, SizesOf(spec), 0);
    var (size, i4) :- GetUint(data, i3, 4);
    var (event, i5) :- GetBytes(data, i4, size);
    Some(Entry(address, reg - 1, etype, count, digests, last, size, event, i5, Slice(data, 0, i5)))
  }

  /** Where the walk stopped, with the last Spec ID record and the events in order. */
  datatype Walked = Walked(spec: Option<SpecId>, entries: seq<Entry>, end: nat)

  /** The record walk; None when an exception escapes. The first eight bytes are read before the end
      mark is tested. */
  function Walk(data: bytes, base: int, length: nat, index: nat, spec: Option<SpecId>): (r: Option<Walked>)
    decreases length - index
  {
    if index >= length then Some(Walked(spec, [], index))
    else
      var (reg, i0) :- GetUint(data, index, 4);
      var (etype, i1) :- GetUint(data, i0, 4);
      if reg == END_MARK then Some(Walked(spec, [], index))
      else if etype == EV_NO_ACTION then
        var s :- ParseSpecId(data[index..], base + index);
        Walk(data, base, length, index + s.length, Some(s))
      else
        var e :- ParseEntry(data[index..], base + index, spec);
        var rest :- Walk(data, base, length, index + e.length, spec);
        Some(rest.(entries := [e] + rest.entries))
  }

  // What the specification encodes

  /** A Spec ID record: TCG_PCR_EVENT carrying TCG_EfiSpecIdEvent. */
  datatype SpecRecord = SpecRecord(reg: nat, skipped: bytes, algorithms: seq<(nat, nat)>, vendor: bytes)

  /** A TCG_PCR_EVENT2 record. */
  datatype EventRecord = EventRecord(reg: nat, etype: nat, digests: seq<(nat, bytes)>, event: bytes)

  function EncodeSizes(algorithms: seq<(nat, nat)>): bytes
  {
    if |algorithms| == 0 then []
    else LE(algorithms[0].0, 2) + LE(algorithms[0].1, 2) + EncodeSizes(algorithms[1..])
  }

  function EncodeSpec(s: SpecRecord): bytes
    requires |s.vendor| < 256
  {
    LE(s.reg, 4) + LE(EV_NO_ACTION, 4) + s.skipped + LE(|s.algorithms|, 4) + EncodeSizes(s.algorithms)
    + LE(|s.vendor|, 1) + s.vendor
  }

  function EncodeDigests(digests: seq<(nat, bytes)>): bytes
  {
    if |digests| == 0 then [] else LE(digests[0].0, 2) + digests[0].1 + EncodeDigests(digests[1..])
  }

  function EncodeEvent(e: EventRecord): (r: bytes)
    ensures |r| >= 16
  {
    LE(e.reg, 4) + LE(e.etype, 4) + LE(|e.digests|, 4) + EncodeDigests(e.digests) + LE(|e.event|, 4) + e.event
  }

  function EncodeEvents(es: seq<EventRecord>): bytes
  {
    if |es| == 0 then [] else EncodeEvent(es[0]) + EncodeEvents(es[1..])
  }

  /** The declared sizes as a table. */
  function SizeTable(algorithms: seq<(nat, nat)>): map<nat, nat>
  {
    if |algorithms| == 0 then map[]
    else
      var rest := SizeTable(algorithms[1..]);
      if algorithms[0].0 in rest then rest else rest[algorithms[0].0 := algorithms[0].1]
  }

  predicate ValidSpec(s: SpecRecord)
  {
    && s.reg < END_MARK && |s.skipped| == SPEC_SKIP && |s.vendor| < 256 && |s.algorithms| < Limit(4)
    && (forall i :: 0 <= i < |s.algorithms| ==> s.algorithms[i].0 < Limit(2) && s.algorithms[i].1 < Limit(2))
  }

  /** Declared algorithms, digests of the declared non-zero size, a non-empty event. */
  predicate ValidEvent(e: EventRecord, sizes: map<nat, nat>)
  {
    && e.reg < END_MARK && e.etype < Limit(4) && e.etype != EV_NO_ACTION
    && |e.digests| < Limit(4) && 0 < |e.event| < Limit(4)
    && ValidDigests(e.digests, sizes)
  }

  predicate ValidDigests(digests: seq<(nat, bytes)>, sizes: map<nat, nat>)
  {
    forall i :: 0 <= i < |digests| ==>
      digests[i].0 < Limit(2) && digests[i].0 in sizes && 0 < |digests[i].1| == sizes[digests[i].0]
  }

  // Parsing one record inverts encoding it

  /** The integer encoded at a position is the integer read there. */
  lemma {:induction false} GetEncoded(data: bytes, pos: nat, n: nat, w: nat)
    requires n < Limit(w) && pos + w <= |data| && data[pos..pos + w] == LE(n, w)
    ensures GetUint(data, pos, w) == Some((n, pos + w))
  {
    FromLEofLE(n, w);
  }

  function AddSizes(algorithms: seq<(nat, nat)>, sizes: map<nat, nat>): map<nat, nat>
  {
    if |algorithms| == 0 then sizes
    else AddSizes(algorithms[1..], sizes[algorithms[0].0 := algorithms[0].1])
  }

  lemma {:induction false} AddSizesIs(algorithms: seq<(nat, nat)>, sizes: map<nat, nat>)
    ensures AddSizes(algorithms, sizes) == sizes + SizeTable(algorithms)
    decreases |algorithms|
  {
    if |algorithms| > 0 {
      AddSizesIs(algorithms[1..], sizes[algorithms[0].0 := algorithms[0].1]);
    }
  }

  lemma {:induction false} SizesRoundTrip(data: bytes, index: nat, algorithms: seq<(nat, nat)>, sizes: map<nat, nat>)
    requires index <= |data| && EncodeSizes(algorithms) <= data[index..]
    requires forall i :: 0 <= i < |algorithms| ==> algorithms[i].0 < Limit(2) && algorithms[i].1 < Limit(2)
    ensures ParseSizes(data, index, |algorithms|, sizes)
         == Some((AddSizes(algorithms, sizes), index + |EncodeSizes(algorithms)|))
    decreases |algorithms|
  {
    hide LE, FromLE, Limit, GetUint;
    if |algorithms| > 0 {
      var (id, size) := algorithms[0];
      var rest := EncodeSizes(algorithms[1..]);
      assert LE(id, 2) + LE(size, 2) + rest == LE(id, 2) + (LE(size, 2) + rest);
      At(data, index, LE(id, 2), LE(size, 2) + rest);
      GetEncoded(data, index, id, 2);
      At(data, index + 2, LE(size, 2), rest);
      GetEncoded(data, index + 2, size, 2);
      SizesRoundTrip(data, index + 4, algorithms[1..], sizes[id := size]);
    }
  }

  lemma {:induction false} DigestsRoundTrip(data: bytes, index: nat, digests: seq<(nat, bytes)>,
                                            sizes: map<nat, nat>, last: nat)
    requires index <= |data| && EncodeDigests(digests) <= data[index..]
    requires ValidDigests(digests, sizes)
    ensures ParseDigests(data, index, |digests|, Some(sizes), last)
         == Some((Values(digests), LastAlgorithm(digests, last), index + |EncodeDigests(digests)|))
    decreases |digests|
  {
    hide LE, FromLE, Limit, GetUint, ValidDigests, Values, LastAlgorithm;
    FirstOf(digests, sizes, last);
    if |digests| > 0 {
      var (id, digest) := digests[0];
      var rest := EncodeDigests(digests[1..]);
      assert LE(id, 2) + digest + rest == LE(id, 2) + (digest + rest);
      At(data, index, LE(id, 2), digest + rest);
      GetEncoded(data, index, id, 2);
      At(data, index + 2, digest, rest);
      DigestsRoundTrip(data, index + 2 + |digest|, digests[1..], sizes, id);
    }
  }

  /** What valid digests say about the first of them and the others. */
  lemma {:induction false} FirstOf(digests: seq<(nat, bytes)>, sizes: map<nat, nat>, last: nat)
    requires ValidDigests(digests, sizes)
    ensures |digests| == 0 ==> Values(digests) == [] && LastAlgorithm(digests, last) == last
    ensures |digests| > 0 ==>
              var (id, digest) := digests[0];
              && id < Limit(2) && id in sizes && 0 < |digest| == sizes[id]
              && ValidDigests(digests[1..], sizes)
              && Values(digests) == [digest] + Values(digests[1..])
              && LastAlgorithm(digests, last) == LastAlgorithm(digests[1..], id)
  {
    hide Limit;
  }

  function Values(digests: seq<(nat, bytes)>): (r: seq<bytes>)
    ensures |r| == |digests| && forall i :: 0 <= i < |digests| ==> r[i] == digests[i].1
  {
    if |digests| == 0 then [] else [digests[0].1] + Values(digests[1..])
  }

  function LastAlgorithm(digests: seq<(nat, bytes)>, last: nat): nat
  {
    if |digests| == 0 then last else digests[|digests| - 1].0
  }

  /** What the parser must make of an event record at an address. */
  function EntryOf(e: EventRecord, address: int): Entry
  {
    var raw := EncodeEvent(e);
    Entry(address, e.reg - 1, e.etype, |e.digests|, Values(e.digests), LastAlgorithm(e.digests, 0), |e.event|,
          e.event, |raw|, raw)
  }

  function SpecOf(s: SpecRecord, address: int): SpecId
    requires |s.vendor| < 256 && |s.skipped| == SPEC_SKIP
  {
    var raw := EncodeSpec(s);
    SpecId(address, s.reg - 1, EV_NO_ACTION, FromLE(s.skipped[..4]), |s.algorithms|, SizeTable(s.algorithms),
           |raw|, raw)
  }

  lemma {:induction false} EventRoundTrip(data: bytes, e: EventRecord, spec: SpecId, address: int)
    requires ValidEvent(e, spec.sizes) && EncodeEvent(e) <= data
    ensures ParseEntry(data, address, Some(spec)) == Some(EntryOf(e, address))
  {
    hide LE, FromLE, Limit, GetUint, ParseDigests, EncodeDigests, ValidDigests;
    var ds, ev := EncodeDigests(e.digests), LE(|e.event|, 4) + e.event;
    assert data == data[0..];
    assert EncodeEvent(e) == LE(e.reg, 4) + (LE(e.etype, 4) + (LE(|e.digests|, 4) + (ds + ev)));
    At(data, 0, LE(e.reg, 4), LE(e.etype, 4) + (LE(|e.digests|, 4) + (ds + ev)));
    At(data, 4, LE(e.etype, 4), LE(|e.digests|, 4) + (ds + ev));
    At(data, 8, LE(|e.digests|, 4), ds + ev);
    At(data, 12, ds, ev);
    At(data, 12 + |ds|, LE(|e.event|, 4), e.event);
    At(data, 16 + |ds|, e.event, []);
    Limits();
    GetEncoded(data, 0, e.reg, 4);
    GetEncoded(data, 4, e.etype, 4);
    GetEncoded(data, 8, |e.digests|, 4);
    DigestsRoundTrip(data, 12, e.digests, spec.sizes, 0);
    GetEncoded(data, 12 + |ds|, |e.event|, 4);
    var len := |EncodeEvent(e)|;
    assert GetBytes(data, 16 + |ds|, |e.event|) == Some((e.event, len));
    assert Slice(data, 0, len) == data[..len] == EncodeEvent(e);
  }

  lemma {:induction false} SpecNested(s: SpecRecord)
    requires |s.vendor| < 256
    ensures EncodeSpec(s) == LE(s.reg, 4) + (LE(EV_NO_ACTION, 4) + (s.skipped + (LE(|s.algorithms|, 4)
                             + (EncodeSizes(s.algorithms) + (LE(|s.vendor|, 1) + s.vendor)))))
  {
    hide LE, EncodeSizes;
  }

  /** Where the fields of an encoded Spec ID record lie. */
  lemma {:induction false} SpecLayout(data: bytes, s: SpecRecord)
    requires ValidSpec(s) && EncodeSpec(s) <= data
    ensures var n := |EncodeSizes(s.algorithms)|;
            && |EncodeSpec(s)| == 61 + n + |s.vendor| <= |data|
            && data[0..4] == LE(s.reg, 4) && data[4..8] == LE(EV_NO_ACTION, 4)
            && data[8..12] == s.skipped[..4]
            && data[56..60] == LE(|s.algorithms|, 4)
            && EncodeSizes(s.algorithms) <= data[60..]
            && data[60 + n..61 + n] == LE(|s.vendor|, 1)
  {
    hide LE, Limit, EncodeSizes;
    var sizes, v := EncodeSizes(s.algorithms), LE(|s.vendor|, 1) + s.vendor;
    var tail := s.skipped + (LE(|s.algorithms|, 4) + (sizes + v));
    assert data == data[0..];
    SpecNested(s);
    hide EncodeSpec;
    At(data, 0, LE(s.reg, 4), LE(EV_NO_ACTION, 4) + tail);
    At(data, 4, LE(EV_NO_ACTION, 4), tail);
    At(data, 8, s.skipped, LE(|s.algorithms|, 4) + (sizes + v));
    At(data, 56, LE(|s.algorithms|, 4), sizes + v);
    At(data, 60, sizes, v);
    At(data, 60 + |sizes|, LE(|s.vendor|, 1), s.vendor);
    assert data[8..12] == data[8..56][..4];
  }

  lemma {:induction false} SpecRoundTrip(data: bytes, s: SpecRecord, address: int)
    requires ValidSpec(s) && EncodeSpec(s) <= data
    ensures ParseSpecId(data, address) == Some(SpecOf(s, address))
  {
    hide LE, FromLE, Limit, GetUint, ParseSizes, EncodeSizes, SizeTable, EncodeSpec;
    SpecLayout(data, s);
    Limits();
    var n := |EncodeSizes(s.algorithms)|;
    GetEncoded(data, 0, s.reg, 4);
    GetEncoded(data, 4, EV_NO_ACTION, 4);
    GetSkipped(data, s.skipped[..4]);
    GetEncoded(data, 56, |s.algorithms|, 4);
    SizesRoundTrip(data, 60, s.algorithms, map[]);
    AddSizesIs(s.algorithms, map[]);
    assert map[] + SizeTable(s.algorithms) == SizeTable(s.algorithms);
    GetEncoded(data, 60 + n, |s.vendor|, 1);
    var len := |EncodeSpec(s)|;
    assert Slice(data, 0, len) == data[..len] == EncodeSpec(s);
  }

  lemma {:induction false} GetSkipped(data: bytes, four: bytes)
    requires |data| >= 12 && data[8..12] == four
    ensures GetUint(data, 8, 4) == Some((FromLE(four), 12))
  {
  }

  /** A Spec ID record whose vendor bytes are cut off by the end of the data still parses: nothing reads
      them. Its length is the declared one, its raw bytes are those that are there. */
  lemma {:induction false} SpecCut(data: bytes, s: SpecRecord, address: int)
    requires ValidSpec(s) && data <= EncodeSpec(s) && |data| >= |EncodeSpec(s)| - |s.vendor|
    ensures ParseSpecId(data, address) == Some(SpecOf(s, address).(raw := data))
  {
    hide LE, FromLE, Limit, GetUint, ParseSizes, EncodeSizes, SizeTable, EncodeSpec;
    var whole := EncodeSpec(s);
    SpecLayout(whole, s);
    SameFront(data, whole);
    Limits();
    var n := |EncodeSizes(s.algorithms)|;
    GetEncoded(data, 0, s.reg, 4);
    GetEncoded(data, 4, EV_NO_ACTION, 4);
    GetSkipped(data, s.skipped[..4]);
    GetEncoded(data, 56, |s.algorithms|, 4);
    assert EncodeSizes(s.algorithms) == whole[60..][..n] == whole[60..60 + n] == data[60..60 + n];
    assert EncodeSizes(s.algorithms) <= data[60..];
    SizesRoundTrip(data, 60, s.algorithms, map[]);
    AddSizesIs(s.algorithms, map[]);
    assert map[] + SizeTable(s.algorithms) == SizeTable(s.algorithms);
    GetEncoded(data, 60 + n, |s.vendor|, 1);
    assert Slice(data, 0, |whole|) == data;
  }

  lemma {:induction false} SameFront(a: bytes, b: bytes)
    requires a <= b
    ensures forall i, j :: 0 <= i <= j <= |a| ==> a[i..j] == b[i..j]
  {
  }
}
