/** The firmware image: locating the variable store in it, reading the records out and writing
    them back. These functions specify the methods of VariableStore. */
module StoreImage {
  import opened Bytes
  import opened Struct
  import opened Guid
  import opened Variables

  const VOLUME_CODES: seq<Code> := [S(16), S(16), U(8), S(4), U(4), U(2), U(2), U(2), S(1), U(1)]
  const STORE_CODES: seq<Code> := [S(16), U(4), U(1), U(1), U(2), U(4)]
  const VOLUME_HEADER: nat := 0x38
  const STORE_HEADER: nat := 28
  const MAGIC: bytes := [0x5f, 0x46, 0x56, 0x48] // "_FVH"
  const NVRAM := "fff12b8d" + "-" + "7696" + "-" + "4c8b" + "-" + "a985" + "-" + "2747075b4f50"
  const TIME_BASED := "aaf32c78" + "-" + "947b" + "-" + "439a" + "-" + "a180" + "-" + "2e144ec37792"

  /** The three numbers the store is found by: volume length, volume header length, store size. */
  datatype Layout = Layout(volumeSize: nat, headerLen: nat, storeSize: nat) {
    /** Where the variable region starts in the image. */
    function Start(): nat {
      headerLen + STORE_HEADER
    }

    /** How many bytes the region holds. */
    function Capacity(): int {
      storeSize - STORE_HEADER
    }
  }

  predicate VolumeShape(vals: seq<Val>)
  {
    |vals| == 10 && vals[1].Str? && vals[2].Num? && vals[2].n >= 0 && vals[3].Str? && vals[5].Num? && vals[5].n >= 0
  }

  lemma {:induction false} VolumeUnpacks(data: bytes)
    ensures var r := Unpack(VOLUME_CODES, data); r.Some? ==> VolumeShape(r.value)
  {
    hide Unpack, Size;
    assert VOLUME_CODES[1].S? && VOLUME_CODES[2].U? && VOLUME_CODES[3].S? && VOLUME_CODES[5].U?;
  }

  /** The volume size and header length, if `data` starts with a valid NVRAM volume header. */
  function Volume(data: bytes): (r: Option<(nat, nat)>)
  {
    hide Guid2Str, Size;
    VolumeUnpacks(Slice(data, 0, VOLUME_HEADER));
    var vals :- Unpack(VOLUME_CODES, Slice(data, 0, VOLUME_HEADER));
    if vals[3].s == MAGIC && Guid2Str(vals[1].s) == NVRAM then Some((vals[2].n, vals[5].n)) else None
  }

  datatype StoreKind = Unreadable | Unsupported | Supported(size: nat)

  lemma {:induction false} StoreUnpacks(data: bytes)
    ensures var r := Unpack(STORE_CODES, data);
            r.Some? ==> |r.value| == 6 && r.value[0].Str? && r.value[1].Num? && 0 <= r.value[1].n < Limit(4)
  {
    hide Unpack, Size;
    assert STORE_CODES[0].S? && STORE_CODES[1].U?;
  }

  /** The store header at the front of `raw`; a short one makes the constructor fail half-way. */
  function StoreHeader(raw: bytes): (r: StoreKind)
    ensures r.Supported? ==> r.size < Limit(4)
  {
    StoreUnpacks(Slice(raw, 0, STORE_HEADER));
    match Unpack(STORE_CODES, Slice(raw, 0, STORE_HEADER))
    case None => Unreadable
    case Some(vals) => if Guid2Str(vals[0].s) == TIME_BASED then Supported(vals[1].n) else Unsupported
  }

  /** The volume search: at an offset, stopped with a valid NVRAM volume there, or past the end. */
  datatype Search = Looking(offset: nat) | FoundAt(offset: nat, volumeSize: nat, headerLen: nat) | PastEnd

  /** One round of the loop. Nothing in it moves the offset. */
  function SearchRound(image: bytes, s: Search): Search
  {
    if !s.Looking? then s
    else if s.offset >= |image| then PastEnd
    else
      match Volume(Slice(image, s.offset, s.offset + 128))
      case Some((volumeSize, headerLen)) => FoundAt(s.offset, volumeSize, headerLen)
      case None => s
  }

  function SearchRounds(image: bytes, k: nat): Search
  {
    if k == 0 then Looking(0) else SearchRound(image, SearchRounds(image, k - 1))
  }

  /** After any number of rounds the search is where one round left it: it has ended at offset 0, or it
      never will. */
  lemma {:induction false} SearchSettles(image: bytes, k: nat)
    requires k > 0
    ensures SearchRounds(image, k) == SearchRound(image, Looking(0))
  {
    hide Volume;
    if k > 1 {
      SearchSettles(image, k - 1);
    } else {
      assert SearchRounds(image, 0) == Looking(0);
    }
  }

  /** What the record walk meets at one position. */
  datatype Scan = Stop | Raise | Skip(next: nat) | Take(v: Variable, next: nat)

  function ScanAt(raw: bytes, begin: nat): (r: Scan)
    ensures r.Skip? || r.Take? ==> r.next > begin && r.next % 4 == 0
  {
    var sig := Slice(raw, begin, begin + 2);
    if |sig| != 2 then Raise
    else if FromLE(sig) != START_ID then Stop
    else
      match ParseHeader(Slice(raw, begin, begin + HEADER_SIZE))
      case None => Stop
      case Some(h) =>
        var full := h.dataSize + h.nameSize + HEADER_SIZE;
        var record := Slice(raw, begin, begin + full);
        var next := Align4(begin + full);
        if h.state != VAR_ADDED then Skip(next)
        else
          var name := Slice(record, HEADER_SIZE, HEADER_SIZE + h.nameSize);
          var data := Slice(record, HEADER_SIZE + h.nameSize, |record|);
          if Utf8(name) then Take(h.(nameBlob := name, data := data), next) else Raise
  }

  datatype Parsed = Parsed(vars: seq<Variable>, end: nat)

  /** The live records of a store, in order, and the position where the walk stopped. */
  function ParseVars(raw: bytes, begin: nat, end: nat): (r: Option<Parsed>)
    ensures r.Some? ==> r.value.end >= begin
    decreases end - begin
  {
    if begin >= end then Some(Parsed([], begin))
    else
      match ScanAt(raw, begin)
      case Stop => Some(Parsed([], begin))
      case Raise => None
      case Skip(next) => ParseVars(raw, next, end)
      case Take(v, next) =>
        var rest :- ParseVars(raw, next, end);
        Some(Parsed([v] + rest.vars, rest.end))
  }

  /** Every record the walk meets, live or not, ends within the store, padding included. */
  predicate InStore(raw: bytes, begin: nat, end: nat)
    decreases end - begin
  {
    begin >= end ||
    match ScanAt(raw, begin)
    case Stop => true
    case Raise => false
    case Skip(next) => next <= end && InStore(raw, next, end)
    case Take(_, next) => next <= end && InStore(raw, next, end)
  }

  /** All records, padded and joined. */
  function Serialize(vars: seq<Variable>): Option<bytes>
  {
    if |vars| == 0 then Some([])
    else
      var head :- vars[0].Padded();
      var tail :- Serialize(vars[1..]);
      Some(head + tail)
  }

  ghost predicate AllLive(vars: seq<Variable>)
  {
    forall i :: 0 <= i < |vars| ==> vars[i].Live()
  }

  ghost predicate AllPrintable(vars: seq<Variable>)
  {
    forall i :: 0 <= i < |vars| ==> vars[i].Printable()
  }

  predicate AllReadable(vars: seq<Variable>)
  {
    forall i :: 0 <= i < |vars| ==> Utf8(vars[i].nameBlob)
  }

  function TotalSize(vars: seq<Variable>): nat
  {
    if |vars| == 0 then 0 else vars[0].PaddedSize() + TotalSize(vars[1..])
  }

  lemma {:induction false} SerializeLive(vars: seq<Variable>)
    requires AllPrintable(vars)
    ensures Serialize(vars).Some? && |Serialize(vars).value| == TotalSize(vars)
  {
    hide Variable.Padded, Variable.PaddedSize, Variable.Printable;
    if |vars| > 0 {
      SerializeLive(vars[1..]);
      PaddedLive(vars[0]);
    }
  }

  lemma {:induction false} PaddedLive(v: Variable)
    requires v.Printable()
    ensures v.Blob().Some? && v.Padded().Some?
    ensures |v.Padded().value| == v.PaddedSize() > 0 && v.PaddedSize() % 4 == 0
    ensures |v.Blob().value| <= v.PaddedSize() && v.Padded().value[..|v.Blob().value|] == v.Blob().value
  {
    hide Variable.Recorded, Variable.Padded, Variable.Blob, Variable.PaddedSize;
    PaddedRecord(v);
  }

  lemma {:induction false} PaddedRecord(v: Variable)
    requires v.Recorded()
    ensures v.Blob().Some? && v.Padded().Some?
    ensures |v.Padded().value| == v.PaddedSize() > 0 && v.PaddedSize() % 4 == 0
    ensures |v.Blob().value| <= v.PaddedSize() && v.Padded().value[..|v.Blob().value|] == v.Blob().value
  {
    hide Pack, ParseHeader, Variable.Recorded, Fill;
    BlobRoundTrip(v);
  }

  // Reading back what was written

  /** At a record, the walk goes past it if it is not in the added state, and takes exactly that record if
      it is, unless the name does not decode; either way it moves to the next multiple of 4. */
  lemma {:induction false} ScanReads(raw: bytes, begin: nat, v: Variable)
    requires v.Recorded() && begin % 4 == 0 && v.Blob().Some?
    requires begin + |v.Blob().value| <= |raw|
    requires raw[begin..begin + |v.Blob().value|] == v.Blob().value
    ensures ScanAt(raw, begin)
         == if v.state != 0x3f then Skip(begin + v.PaddedSize())
            else if Utf8(v.nameBlob) then Take(v, begin + v.PaddedSize())
            else Raise
  {
    hide Pack, Unpack, Size, Utf8, FromLE, Guid2Str, Struct.Fits, Limit;
    BlobRoundTrip(v);
    var b := v.Blob().value;
    assert Slice(raw, begin, begin + |b|) == b;
    assert Slice(raw, begin, begin + 2) == b[..2];
    assert Slice(raw, begin, begin + HEADER_SIZE) == b[..HEADER_SIZE];
    Align4Add(begin, |b|);
  }

  /** What must follow the records for the walk to stop there: the end of the store, or two bytes that
      are not the start id, or too few bytes for a header. */
  predicate Terminated(raw: bytes, at: nat, end: nat)
  {
    at >= end || (at + 2 <= |raw| && (raw[at..at + 2] != [0xaa, 0x55] || at + HEADER_SIZE > |raw|))
  }

  lemma {:induction false} TerminatedStops(raw: bytes, at: nat, end: nat)
    requires Terminated(raw, at, end)
    ensures ParseVars(raw, at, end) == Some(Parsed([], at)) && InStore(raw, at, end)
  {
    hide ParseHeader, Utf8, Limit, Guid2Str, FromLE;
    if at < end && raw[at..at + 2] != [0xaa, 0x55] {
      StartId(raw[at..at + 2]);
    }
  }

  lemma {:induction false} StartId(bs: bytes)
    requires |bs| == 2
    ensures FromLE(bs) == START_ID <==> bs == [0xaa, 0x55]
  {
    assert FromLE(bs[1..]) == bs[1] + 256 * FromLE(bs[1..][1..]);
    var lo, hi: int := bs[0], bs[1];
    assert FromLE(bs) == lo + 256 * hi;
    assert bs == [bs[0], bs[1]];
  }

  /** With less than two bytes left before the end of the store, reading the start id raises. */
  lemma {:induction false} CutShortRaises(raw: bytes, at: nat, end: nat)
    requires at < end && |raw| < at + 2
    ensures ParseVars(raw, at, end) == None
  {
    hide ParseHeader, FromLE;
  }

  /** The records of a store, deleted ones included: they stand one behind the other from `at`, each on
      the next multiple of 4 with any bytes in the gap, up to where the walk stops. */
  ghost predicate Laid(raw: bytes, at: nat, end: nat, vars: seq<Variable>)
    decreases |vars|
  {
    if |vars| == 0 then Terminated(raw, at, end)
    else
      && at < end && StandsAt(raw, at, vars[0])
      && Laid(raw, at + vars[0].PaddedSize(), end, vars[1..])
  }

  ghost predicate StandsAt(raw: bytes, at: nat, v: Variable)
  {
    && v.Recorded() && v.Blob().Some?
    && at + |v.Blob().value| <= |raw| && raw[at..at + |v.Blob().value|] == v.Blob().value
  }

  /** Those in the added state, in order. */
  function LiveOnes(vars: seq<Variable>): seq<Variable>
  {
    if |vars| == 0 then []
    else if vars[0].state == 0x3f then [vars[0]] + LiveOnes(vars[1..])
    else LiveOnes(vars[1..])
  }

  /** Whatever records are laid out, deleted or not, the walk lists exactly those in the added state, in
      order, and covers all of them; it raises if and only if the name of one of these does not decode. */
  lemma {:induction false} LaidParses(raw: bytes, at: nat, end: nat, vars: seq<Variable>)
    requires Laid(raw, at, end, vars) && at % 4 == 0
    ensures ParseVars(raw, at, end)
         == if AllReadable(LiveOnes(vars)) then Some(Parsed(LiveOnes(vars), at + TotalSize(vars))) else None
    ensures AllReadable(LiveOnes(vars)) && at + TotalSize(vars) <= end ==> InStore(raw, at, end)
    decreases |vars|
  {
    hide ScanAt, Variable.Blob, Variable.PaddedSize, Variable.Recorded, Utf8;
    if |vars| == 0 {
      TerminatedStops(raw, at, end);
    } else {
      var v, rest := vars[0], vars[1..];
      RecordSize(v);
      ScanReads(raw, at, v);
      LaidParses(raw, at + v.PaddedSize(), end, rest);
      ReadableHead(v, LiveOnes(rest));
    }
  }

  lemma {:induction false} ReadableHead(v: Variable, rest: seq<Variable>)
    ensures AllReadable([v] + rest) <==> Utf8(v.nameBlob) && AllReadable(rest)
  {
    hide Utf8;
    assert ([v] + rest)[1..] == rest;
    if AllReadable([v] + rest) {
      assert Utf8(([v] + rest)[0].nameBlob);
      forall i | 0 <= i < |rest|
        ensures Utf8(rest[i].nameBlob)
      {
        assert ([v] + rest)[i + 1] == rest[i];
      }
    }
  }

  lemma {:induction false} RecordSize(v: Variable)
    requires v.Recorded()
    ensures v.Blob().Some? && |v.Blob().value| == HEADER_SIZE + |v.nameBlob| + |v.data| <= v.PaddedSize()
    ensures v.PaddedSize() % 4 == 0
  {
    hide Pack, ParseHeader, Variable.Recorded;
    BlobRoundTrip(v);
  }

  /** And every store whose records lie inside it is laid out like that. */
  lemma {:induction false} LaidExists(raw: bytes, at: nat, end: nat) returns (vars: seq<Variable>)
    requires InStore(raw, at, end) && end <= |raw| && at % 4 == 0 && at <= end
    ensures Laid(raw, at, end, vars) && at + TotalSize(vars) <= end && AllReadable(LiveOnes(vars))
    decreases end - at
  {
    hide ScanAt, StandsAt, Utf8, Variable.PaddedSize, Terminated;
    vars := [];
    if at < end {
      match ScanAt(raw, at)
      case Stop => StopIsTerminated(raw, at, end);
      case Raise =>
      case Skip(next) =>
        var v := RecordAt(raw, at, end);
        var rest := LaidExists(raw, next, end);
        vars := [v] + rest;
        assert vars[1..] == rest;
      case Take(w, next) =>
        var v := RecordAt(raw, at, end);
        var rest := LaidExists(raw, next, end);
        vars := [v] + rest;
        assert vars[1..] == rest;
        ReadableHead(v, LiveOnes(rest));
    } else {
      assert Terminated(raw, at, end) by {
        EndTerminates(raw, at, end);
      }
    }
  }

  lemma {:induction false} EndTerminates(raw: bytes, at: nat, end: nat)
    requires at >= end
    ensures Terminated(raw, at, end)
  {
  }

  lemma {:induction false} StopIsTerminated(raw: bytes, at: nat, end: nat)
    requires ScanAt(raw, at).Stop?
    ensures Terminated(raw, at, end)
  {
    hide FromLE, Unpack, Guid2Str, Utf8;
    var sig := Slice(raw, at, at + 2);
    StartId(sig);
    assert sig == raw[at..at + 2];
  }

  /** The record the walk meets at a position: the header there, and what it declares behind it. */
  lemma {:induction false} RecordAt(raw: bytes, at: nat, end: nat) returns (v: Variable)
    requires ScanAt(raw, at).Skip? || ScanAt(raw, at).Take?
    requires ScanAt(raw, at).next <= end <= |raw| && at % 4 == 0
    ensures StandsAt(raw, at, v) && ScanAt(raw, at).next == at + v.PaddedSize()
    ensures if v.state == 0x3f then ScanAt(raw, at) == Take(v, at + v.PaddedSize()) && Utf8(v.nameBlob)
            else ScanAt(raw, at).Skip?
  {
    hide Pack, Unpack, Size, Utf8, Guid2Str, Limit, FromLE, Align4, Variable.Recorded, Variable.Blob;
    var hs := Slice(raw, at, at + HEADER_SIZE);
    var h := ParseHeader(hs).value;
    var full := h.dataSize + h.nameSize + HEADER_SIZE;
    assert at + full <= |raw|;
    var record := raw[at..at + full];
    var name, data := record[HEADER_SIZE..HEADER_SIZE + h.nameSize], record[HEADER_SIZE + h.nameSize..];
    v := h.(nameBlob := name, data := data);
    assert Slice(raw, at, at + full) == record;
    assert hs == record[..HEADER_SIZE];
    HeaderLayout(hs);
    assert hs[0..2] == Slice(raw, at, at + 2);
    HeaderPacks(hs, h, v);
    assert record == hs + name + data;
    Align4Add(at, full);
  }

  lemma {:induction false} HeaderPacks(hs: bytes, h: Variable, v: Variable)
    requires ParseHeader(hs) == Some(h) && h.startId == START_ID
    requires v == h.(nameBlob := v.nameBlob, data := v.data) && |v.nameBlob| == h.nameSize && |v.data| == h.dataSize
    ensures v.Recorded() && v.Blob() == Some(hs + v.nameBlob + v.data)
  {
    hide Guid2Str;
    HeaderSize();
    assert v.HeaderVals() == h.HeaderVals() == Unpack(VAR_CODES, hs).value;
    PackOfUnpack(VAR_CODES, hs);
  }

  /** Joined and padded records are such a layout. */
  lemma {:induction false} SerializedLaid(raw: bytes, at: nat, end: nat, vars: seq<Variable>)
    requires AllRecorded(vars) && Serialize(vars).Some?
    requires at + |Serialize(vars).value| <= Min(end, |raw|)
    requires raw[at..at + |Serialize(vars).value|] == Serialize(vars).value
    requires Terminated(raw, at + |Serialize(vars).value|, end)
    ensures Laid(raw, at, end, vars) && TotalSize(vars) == |Serialize(vars).value|
    decreases |vars|
  {
    hide Variable.Padded, Variable.Blob, Variable.PaddedSize, Variable.Recorded, Terminated;
    if |vars| > 0 {
      var v, blob := vars[0], Serialize(vars).value;
      var head, tail := v.Padded().value, Serialize(vars[1..]).value;
      PaddedRecord(v);
      var b := v.Blob().value;
      assert raw[at..at + |b|] == raw[at..at + |blob|][..|b|] == head[..|b|] == b;
      var next := at + |head|;
      assert raw[next..next + |tail|] == raw[at..at + |blob|][|head|..] == tail;
      SerializedLaid(raw, next, end, vars[1..]);
    }
  }

  ghost predicate AllRecorded(vars: seq<Variable>)
  {
    forall i :: 0 <= i < |vars| ==> vars[i].Recorded()
  }

  /** So records that were written, whatever their states, are read back as exactly the live ones. */
  lemma {:induction false} ParseSerialized(raw: bytes, begin: nat, end: nat, vars: seq<Variable>)
    requires AllRecorded(vars) && begin % 4 == 0
    requires Serialize(vars).Some?
    requires begin + |Serialize(vars).value| <= Min(end, |raw|)
    requires raw[begin..begin + |Serialize(vars).value|] == Serialize(vars).value
    requires Terminated(raw, begin + |Serialize(vars).value|, end)
    ensures ParseVars(raw, begin, end)
         == if AllReadable(LiveOnes(vars)) then Some(Parsed(LiveOnes(vars), begin + |Serialize(vars).value|)) else None
    ensures AllReadable(LiveOnes(vars)) ==> InStore(raw, begin, end)
  {
    hide Serialize, Terminated, Variable.Recorded, ParseVars, InStore, Laid;
    SerializedLaid(raw, begin, end, vars);
    LaidParses(raw, begin, end, vars);
  }

  lemma {:induction false} AllAreLive(vars: seq<Variable>)
    requires AllPrintable(vars)
    ensures AllRecorded(vars) && LiveOnes(vars) == vars
  {
    hide Variable.Recorded;
    if |vars| > 0 {
      assert vars[0].Printable();
      AllAreLive(vars[1..]);
    }
    forall i | 0 <= i < |vars|
      ensures vars[i].Recorded()
    {
      assert vars[i].Printable();
    }
  }

  /** Parsed records are live with matching sizes, and written back they take no more room than the
      walk covered: what the deleted records held is only ever given back. */
  lemma {:induction false} ParsedFits(raw: bytes, begin: nat, end: nat)
    requires InStore(raw, begin, end) && begin <= end <= |raw| && begin % 4 == 0
    ensures ParseVars(raw, begin, end).Some?
    ensures var p := ParseVars(raw, begin, end).value;
            AllLive(p.vars) && TotalSize(p.vars) <= p.end - begin && p.end <= end
    decreases end - begin
  {
    hide ScanAt, Variable.Live, Guid2Str;
    if begin < end {
      match ScanAt(raw, begin)
      case Stop =>
      case Skip(next) => ParsedFits(raw, next, end);
      case Take(v, next) =>
        ParsedFits(raw, next, end);
        TakenIsLive(raw, begin, end);
        assert TotalSize(ParseVars(raw, begin, end).value.vars)
            == v.PaddedSize() + TotalSize(ParseVars(raw, next, end).value.vars);
      case Raise =>
    }
  }

  lemma {:induction false} TakenIsLive(raw: bytes, begin: nat, end: nat)
    requires ScanAt(raw, begin).Take? && ScanAt(raw, begin).next <= end <= |raw| && begin % 4 == 0
    ensures var s := ScanAt(raw, begin); s.v.Live() && s.next == begin + s.v.PaddedSize()
  {
    hide Pack, Size, Utf8, Guid2Str, Limit;
    var sig := Slice(raw, begin, begin + 2);
    var hs := Slice(raw, begin, begin + HEADER_SIZE);
    var h := ParseHeader(hs).value;
    var full := h.dataSize + h.nameSize + HEADER_SIZE;
    assert begin + full <= |raw|;
    var v := ScanAt(raw, begin).v;
    assert v.nameSize == |v.nameBlob| && v.dataSize == |v.data|;
    assert v.HeaderVals() == h.HeaderVals() == Unpack(VAR_CODES, hs).value;
    assert h.startId == FromLE(sig) by {
      assert Unpack(VAR_CODES, hs).value[0] == UnpackOne(VAR_CODES[0], hs[..2]);
      assert hs[..2] == sig;
    }
    Align4Add(begin, full);
  }

  // Whole images

  /** The bytes from the store header to the end of the volume, clipped at the end of the image. */
  function Raw(image: bytes, volumeSize: nat, headerLen: nat): bytes
  {
    var volume := Slice(image, 0, volumeSize);
    volume[Min(headerLen, |volume|)..]
  }

  /** NotFound: no supported store. Fails: an exception escapes. */
  datatype Lookup = NotFound | Fails | Found(layout: Layout, vars: seq<Variable>, varsSize: int)

  /** The search loop returns only for images that start with a valid NVRAM volume. */
  function FindVarInfo(image: bytes): Lookup
    requires Volume(Slice(image, 0, 128)).Some?
  {
    var (volumeSize, headerLen) := Volume(Slice(image, 0, 128)).value;
    var raw := Raw(image, volumeSize, headerLen);
    match StoreHeader(raw)
    case Unreadable => Fails
    case Unsupported => NotFound
    case Supported(size) =>
      match ParseVars(raw, STORE_HEADER, size)
      case None => Fails
      case Some(p) => Found(Layout(volumeSize, headerLen, size), p.vars, p.end - STORE_HEADER)
  }

  /** Clears the region to 0xFF, then lays the records over it. */
  function WriteBack(image: bytes, layout: Layout, blob: bytes): bytes
  {
    var cleared := SliceAssign(image, layout.Start(), layout.headerLen + layout.storeSize,
                               Fill(0xff, Max(0, layout.Capacity())));
    SliceAssign(cleared, layout.Start(), layout.Start() + |blob|, blob)
  }

  predicate RegionInside(image: bytes, layout: Layout)
  {
    layout.Capacity() >= 0 && layout.headerLen + layout.storeSize <= |image|
  }

  /** Byte for byte, what rewriting does to an image that holds the whole region. */
  lemma {:induction false} SyncEffect(image: bytes, layout: Layout, blob: bytes)
    requires RegionInside(image, layout)
    ensures var r := WriteBack(image, layout, blob);
            var lo, hi := layout.Start(), layout.headerLen + layout.storeSize;
            && |r| == Max(|image|, lo + |blob|)
            && r[..lo] == image[..lo]
            && r[lo..lo + |blob|] == blob
            && (forall i :: lo + |blob| <= i < hi ==> r[i] == 0xff)
            && (forall i :: Max(lo + |blob|, hi) <= i < |image| ==> r[i] == image[i])
  {
    var lo, hi := layout.Start(), layout.headerLen + layout.storeSize;
    hide SliceAssign, Fill;
    var ff := Fill(0xff, hi - lo);
    var cleared := SliceAssign(image, lo, hi, ff);
    SliceAssignAt(image, lo, hi, ff);
    ClearedBytes(image, cleared, lo, hi);
    SliceAssignAt(cleared, lo, lo + |blob|, blob);
    OverlaidBytes(cleared, WriteBack(image, layout, blob), lo, blob);
  }

  lemma {:induction false} ClearedBytes(image: bytes, cleared: bytes, lo: nat, hi: nat)
    requires lo <= hi <= |image| == |cleared|
    requires cleared[lo..hi] == Fill(0xff, hi - lo) && cleared[hi..] == image[hi..]
    ensures forall i :: lo <= i < hi ==> cleared[i] == 0xff
    ensures forall i :: hi <= i < |image| ==> cleared[i] == image[i]
  {
    forall i | lo <= i < hi
      ensures cleared[i] == 0xff
    {
      assert cleared[i] == cleared[lo..hi][i - lo];
    }
    forall i | hi <= i < |image|
      ensures cleared[i] == image[i]
    {
      assert cleared[i] == cleared[hi..][i - hi] == image[hi..][i - hi];
    }
  }

  lemma {:induction false} OverlaidBytes(cleared: bytes, r: bytes, lo: nat, blob: bytes)
    requires lo <= |cleared| && r == SliceAssign(cleared, lo, lo + |blob|, blob)
    requires |r| == Max(|cleared|, lo + |blob|)
    requires r[lo + |blob|..] == cleared[Max(lo, Min(lo + |blob|, |cleared|))..]
    ensures forall i :: lo + |blob| <= i < |cleared| ==> r[i] == cleared[i]
  {
    forall i | lo + |blob| <= i < |cleared|
      ensures r[i] == cleared[i]
    {
      assert r[i] == r[lo + |blob|..][i - lo - |blob|] == cleared[lo + |blob|..][i - lo - |blob|];
    }
  }

  /** The store found at `layout`, wholly inside volume and image. A volume header that reaches
      into the region would be overwritten, hence the least header length. */
  predicate Placed(image: bytes, layout: Layout)
  {
    var volume := Min(layout.volumeSize, |image|);
    && Volume(Slice(image, 0, 128)) == Some((layout.volumeSize, layout.headerLen))
    && StoreHeader(Raw(image, layout.volumeSize, layout.headerLen)) == Supported(layout.storeSize)
    && layout.headerLen + STORE_HEADER >= VOLUME_HEADER
    && layout.storeSize >= STORE_HEADER
    && layout.headerLen + layout.storeSize <= volume
    && (layout.storeSize % 4 == 1 ==> layout.headerLen + layout.storeSize < volume)
  }

  /** Changing only what follows the store header leaves both headers where they are. */
  lemma {:induction false} PlacedStays(image: bytes, other: bytes, layout: Layout)
    requires Placed(image, layout) && |other| == |image|
    requires other[..layout.Start()] == image[..layout.Start()]
    ensures Placed(other, layout)
  {
    hide Volume, StoreHeader;
    assert Volume(Slice(other, 0, 128)) == Volume(Slice(image, 0, 128)) by {
      VolumeReads(image, other, layout.Start());
    }
    assert StoreHeader(Raw(other, layout.volumeSize, layout.headerLen))
        == StoreHeader(Raw(image, layout.volumeSize, layout.headerLen)) by {
      StoreHeaderReads(image, other, layout);
    }
  }

  lemma {:induction false} VolumeReads(image: bytes, other: bytes, lo: nat)
    requires VOLUME_HEADER <= lo <= |image| == |other| && other[..lo] == image[..lo]
    ensures Volume(Slice(other, 0, 128)) == Volume(Slice(image, 0, 128))
  {
    hide Unpack, Guid2Str;
    assert Slice(Slice(image, 0, 128), 0, VOLUME_HEADER) == image[..lo][..VOLUME_HEADER];
    assert Slice(Slice(other, 0, 128), 0, VOLUME_HEADER) == other[..lo][..VOLUME_HEADER];
  }

  lemma {:induction false} StoreHeaderReads(image: bytes, other: bytes, layout: Layout)
    requires layout.Start() <= Min(layout.volumeSize, |image|) && |image| == |other|
    requires other[..layout.Start()] == image[..layout.Start()]
    ensures StoreHeader(Raw(other, layout.volumeSize, layout.headerLen))
         == StoreHeader(Raw(image, layout.volumeSize, layout.headerLen))
  {
    hide Unpack, Guid2Str;
    var lo := layout.Start();
    assert Slice(Raw(image, layout.volumeSize, layout.headerLen), 0, STORE_HEADER) == image[..lo][layout.headerLen..];
    assert Slice(Raw(other, layout.volumeSize, layout.headerLen), 0, STORE_HEADER) == other[..lo][layout.headerLen..];
  }

  /** Writing printable records that fit, then searching the result, finds the same headers and
      exactly those records in order if every name decodes, and fails otherwise. */
  lemma {:induction false} ImageRoundTrip(image: bytes, layout: Layout, vars: seq<Variable>)
    requires Placed(image, layout) && AllPrintable(vars)
    requires TotalSize(vars) <= layout.Capacity()
    ensures Serialize(vars).Some?
    ensures var r := WriteBack(image, layout, Serialize(vars).value);
            && Placed(r, layout)
            && FindVarInfo(r) == (if AllReadable(vars) then Found(layout, vars, TotalSize(vars)) else Fails)
            && (AllReadable(vars) ==> RecordsInside(r, layout))
  {
    hide Volume, StoreHeader, Serialize, ParseVars, InStore, WriteBack;
    SerializeLive(vars);
    TotalSizeAligned(vars);
    var blob := Serialize(vars).value;
    var r := WriteBack(image, layout, blob);
    SyncEffect(image, layout, blob);
    PlacedStays(image, r, layout);
    var raw := Raw(r, layout.volumeSize, layout.headerLen);
    RawAfterWrite(r, layout, blob);
    AllAreLive(vars);
    ParseSerialized(raw, STORE_HEADER, layout.storeSize, vars);
  }

  lemma {:induction false} RawAfterWrite(r: bytes, layout: Layout, blob: bytes)
    requires Placed(r, layout) && |blob| <= layout.Capacity() && |blob| % 4 == 0
    requires r[layout.Start()..layout.Start() + |blob|] == blob
    requires forall i :: layout.Start() + |blob| <= i < layout.headerLen + layout.storeSize ==> r[i] == 0xff
    ensures var raw := Raw(r, layout.volumeSize, layout.headerLen);
            && layout.storeSize <= |raw|
            && raw[STORE_HEADER..STORE_HEADER + |blob|] == blob
            && Terminated(raw, STORE_HEADER + |blob|, layout.storeSize)
  {
    hide Volume, StoreHeader;
    var raw := Raw(r, layout.volumeSize, layout.headerLen);
    var volume := Min(layout.volumeSize, |r|);
    assert raw == r[layout.headerLen..volume];
    SliceOfTail(r[..volume], layout.headerLen, STORE_HEADER, |blob|);
    SubSlices(r, volume);
    var at := STORE_HEADER + |blob|;
    if at < layout.storeSize {
      assert raw[at..at + 2][0] == raw[at] == r[layout.headerLen + at] == 0xff;
    }
  }

  lemma {:induction false} TotalSizeAligned(vars: seq<Variable>)
    ensures TotalSize(vars) % 4 == 0
  {
    if |vars| > 0 {
      TotalSizeAligned(vars[1..]);
    }
  }

  /** An image whose store reads without exception, every record inside it. */
  predicate WellFormed(image: bytes)
  {
    && Volume(Slice(image, 0, 128)).Some?
    && FindVarInfo(image).Found?
    && Placed(image, FindVarInfo(image).layout)
    && RecordsInside(image, FindVarInfo(image).layout)
  }

  predicate RecordsInside(image: bytes, layout: Layout)
  {
    InStore(Raw(image, layout.volumeSize, layout.headerLen), STORE_HEADER, layout.storeSize)
  }

  function VarsOf(image: bytes): seq<Variable>
    requires WellFormed(image)
  {
    FindVarInfo(image).vars
  }

  function LayoutOf(image: bytes): Layout
    requires WellFormed(image)
  {
    FindVarInfo(image).layout
  }

  /** What a well-formed image holds: live records whose padded size never exceeds what the walk
      covered, which never exceeds the region. Compaction alone cannot overflow. */
  lemma {:induction false} WellFormedFits(image: bytes)
    requires WellFormed(image)
    ensures AllLive(VarsOf(image)) && Serialize(VarsOf(image)).Some?
    ensures |Serialize(VarsOf(image)).value| == TotalSize(VarsOf(image))
    ensures TotalSize(VarsOf(image)) <= FindVarInfo(image).varsSize <= LayoutOf(image).Capacity()
  {
    hide Volume, StoreHeader, Serialize;
    var layout := LayoutOf(image);
    ParsedFits(Raw(image, layout.volumeSize, layout.headerLen), STORE_HEADER, layout.storeSize);
    hide Variable.Printable;
    SerializeLive(VarsOf(image));
  }

  /** Parse, then write the records back unchanged. */
  function Rewrite(image: bytes): bytes
    requires WellFormed(image)
  {
    WellFormedFits(image);
    WriteBack(image, LayoutOf(image), Serialize(VarsOf(image)).value)
  }

  /** Rewriting keeps the live records and their order, drops the deleted ones, and a second
      rewriting changes no byte. */
  lemma {:induction false} RewriteNormalises(image: bytes)
    requires WellFormed(image)
    ensures WellFormed(Rewrite(image))
    ensures VarsOf(Rewrite(image)) == VarsOf(image) && LayoutOf(Rewrite(image)) == LayoutOf(image)
    ensures Rewrite(Rewrite(image)) == Rewrite(image)
  {
    hide Volume, StoreHeader, Serialize, ParseVars, InStore, WriteBack, RecordsInside;
    WellFormedFits(image);
    var layout, vars := LayoutOf(image), VarsOf(image);
    ImageRoundTrip(image, layout, vars);
    WriteTwice(image, layout, Serialize(vars).value);
  }

  /** Which records those are. In an image with records of any state laid out in the region, exactly those
      in the added state are found, and exactly those are written back. */
  lemma {:induction false} RewriteKeepsLive(image: bytes, layout: Layout, vars: seq<Variable>)
    requires Placed(image, layout) && layout.Start() + TotalSize(vars) <= layout.headerLen + layout.storeSize
    requires Laid(Raw(image, layout.volumeSize, layout.headerLen), STORE_HEADER, layout.storeSize, vars)
    requires AllReadable(LiveOnes(vars))
    ensures WellFormed(image) && FindVarInfo(image) == Found(layout, LiveOnes(vars), TotalSize(vars))
    ensures Serialize(LiveOnes(vars)).Some?
    ensures Rewrite(image) == WriteBack(image, layout, Serialize(LiveOnes(vars)).value)
    ensures WellFormed(Rewrite(image)) && VarsOf(Rewrite(image)) == LiveOnes(vars)
  {
    hide Volume, StoreHeader, Serialize, ParseVars, InStore, WriteBack, Laid, LiveOnes, AllReadable;
    LaidParses(Raw(image, layout.volumeSize, layout.headerLen), STORE_HEADER, layout.storeSize, vars);
    assert WellFormed(image);
    RewriteNormalises(image);
    WellFormedFits(image);
  }

  /** Every well-formed image is of that kind. */
  lemma {:induction false} WellFormedLaid(image: bytes) returns (vars: seq<Variable>)
    requires WellFormed(image)
    ensures var layout := LayoutOf(image);
            && Laid(Raw(image, layout.volumeSize, layout.headerLen), STORE_HEADER, layout.storeSize, vars)
            && layout.Start() + TotalSize(vars) <= layout.headerLen + layout.storeSize
            && AllReadable(LiveOnes(vars)) && VarsOf(image) == LiveOnes(vars)
  {
    hide Volume, StoreHeader, ParseVars, InStore, Laid, LiveOnes, AllReadable;
    var layout := LayoutOf(image);
    var raw := Raw(image, layout.volumeSize, layout.headerLen);
    vars := LaidExists(raw, STORE_HEADER, layout.storeSize);
    LaidParses(raw, STORE_HEADER, layout.storeSize, vars);
  }

  lemma {:induction false} WriteTwice(image: bytes, layout: Layout, blob: bytes)
    requires Placed(image, layout) && |blob| <= layout.Capacity()
    ensures WriteBack(WriteBack(image, layout, blob), layout, blob) == WriteBack(image, layout, blob)
  {
    hide Volume, StoreHeader, WriteBack;
    var r := WriteBack(image, layout, blob);
    SyncEffect(image, layout, blob);
    SyncEffect(r, layout, blob);
    var lo, hi, s := layout.Start(), layout.headerLen + layout.storeSize, WriteBack(r, layout, blob);
    assert forall i :: lo <= i < lo + |blob| ==>
             s[i] == s[lo..lo + |blob|][i - lo] == r[lo..lo + |blob|][i - lo] == r[i];
    assert forall i :: 0 <= i < lo ==> s[i] == s[..lo][i] == r[..lo][i] == r[i];
  }
}
