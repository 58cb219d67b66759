/** The parser and replay objects, stepping through the log as the source does. */
module EventLogActor {
  import opened Bytes
  import opened EventLog
  import opened LogWalk
  import opened Replay

  class TDEventLogSpecIdHeader {
    const address: int
    var rtmr: int
    var etype: nat
    var digestCount: nat
    var algorithmsNumber: nat
    var digestSizes: map<nat, nat>
    var length: nat
    var data: bytes

    function View(): SpecId
      reads this
    {
      SpecId(address, rtmr, etype, digestCount, algorithmsNumber, digestSizes, length, data)
    }

    constructor (address: int)
      ensures this.address == address && View() == SpecId(address, 0, 0, 0, 0, map[], 0, [])
    {
      this.address := address;
      rtmr, etype, digestCount, algorithmsNumber, digestSizes, length, data := 0, 0, 0, 0, map[], 0, [];
    }

    /** False where an assertion of the source fails; the fields reached so far stay set. */
    method Parse(bs: bytes) returns (ok: bool)
      requires View() == SpecId(address, 0, 0, 0, 0, map[], 0, [])
      modifies this
      ensures View() == SpecAfter(bs, address)
      ensures ok == ParseSpecId(bs, address).Some?
      ensures ok ==> View() == ParseSpecId(bs, address).value
    {
      hide GetUint, SizesAfter, ParseSpecId;
      SpecAfterIs(bs, address);
      var reg := GetUint(bs, 0, 4);
      if reg.None? {
        return false;
      }
      var kind := GetUint(bs, reg.value.1, 4);
      if kind.None? {
        return false;
      }
      etype := kind.value.0;
      var count := GetUint(bs, kind.value.1, 4);
      if count.None? {
        return false;
      }
      digestCount := count.value.0;
      var number: int := reg.value.0;
      rtmr := number - 1;
      var index := count.value.1;
      index := index + 20;
      index := index + 24;
      FirstByte(bs);
      ok := ParseBody(bs, index);
    }

    /** What follows the header: the table of digest sizes and the vendor bytes. */
    method ParseBody(bs: bytes, start: nat) returns (ok: bool)
      requires algorithmsNumber == 0 && digestSizes == map[] && length == 0 && data == [] && |bs| > 0
      modifies this
      ensures View() == SpecBody(bs, start, old(View()))
      ensures ok <==> View().raw != []
    {
      hide GetUint, SizesAfter;
      var number := GetUint(bs, start, 4);
      if number.None? {
        return false;
      }
      var n, index := number.value.0, number.value.1;
      algorithmsNumber := n;
      ghost var header := View();
      ghost var all := SizesAfter(bs, index, n, map[]);
      for k := 0 to n
        invariant SizesAfter(bs, index, n - k, digestSizes) == all
        invariant View() == header.(sizes := digestSizes)
      {
        SizesTurn(bs, index, n - k, digestSizes);
        var id := GetUint(bs, index, 2);
        if id.None? {
          return false;
        }
        var size := GetUint(bs, id.value.1, 2);
        if size.None? {
          return false;
        }
        digestSizes := digestSizes[id.value.0 := size.value.0];
        index := size.value.1;
      }
      SizesEnd(bs, index, digestSizes);
      var vendor := GetUint(bs, index, 1);
      if vendor.None? {
        return false;
      }
      VendorAfter(bs, index);
      index := vendor.value.1 + vendor.value.0;
      length := index;
      data := Slice(bs, 0, index);
      return true;
    }
  }

  lemma {:induction false} SizesTurn(bs: bytes, index: nat, n: nat, sizes: map<nat, nat>)
    requires n > 0
    ensures var id, all := GetUint(bs, index, 2), SizesAfter(bs, index, n, sizes);
            if id.None? || GetUint(bs, id.value.1, 2).None? then all == (sizes, None)
            else
              var size := GetUint(bs, id.value.1, 2).value;
              all == SizesAfter(bs, size.1, n - 1, sizes[id.value.0 := size.0])
  {
    hide GetUint;
  }

  lemma {:induction false} SizesEnd(bs: bytes, index: nat, sizes: map<nat, nat>)
    ensures SizesAfter(bs, index, 0, sizes) == (sizes, Some(index))
  {
  }

  lemma {:induction false} VendorAfter(bs: bytes, index: nat)
    requires GetUint(bs, index, 1).Some?
    ensures GetUint(bs, index, 1).value.1 > 0 && |bs| > 0
  {
  }

  /** Register field, event type, digest count, and the position after them. */
  function ParseHeader(bs: bytes): Option<(nat, nat, nat, nat)>
  {
    var (reg, i0) :- GetUint(bs, 0, 4);
    var (etype, i1) :- GetUint(bs, i0, 4);
    var (count, i2) :- GetUint(bs, i1, 4);
    Some((reg, etype, count, i2))
  }

  class TDEventLogEntry {
    const address: int
    const spec: Option<SpecId>
    var rtmr: int
    var etype: nat
    var digestCount: nat
    var digests: seq<bytes>
    var algorithmsId: nat
    var eventSize: nat
    var event: bytes
    var length: nat
    var data: bytes

    function View(): Entry
      reads this
    {
      Entry(address, rtmr, etype, digestCount, digests, algorithmsId, eventSize, event, length, data)
    }

    constructor (address: int, spec: Option<SpecId>)
      ensures this.address == address && this.spec == spec && digests == [] && algorithmsId == 0
    {
      this.address, this.spec := address, spec;
      rtmr, etype, digestCount, digests, algorithmsId := 0, 0, 0, [], 0;
      eventSize, event, length, data := 0, [], 0, [];
    }

    /** False where the source raises: an assertion, an undeclared algorithm, no Spec ID record, or an
        empty digest or event. */
    method Parse(bs: bytes) returns (ok: bool)
      requires digests == [] && algorithmsId == 0
      modifies this
      ensures ok == ParseEntry(bs, address, spec).Some?
      ensures ok ==> View() == ParseEntry(bs, address, spec).value
    {
      hide FromLE, Limit;
      var header := ParseHeader(bs);
      if header.None? {
        return false;
      }
      var index := header.value.3;
      var reg: int := header.value.0;
      rtmr, etype, digestCount := reg - 1, header.value.1, header.value.2;
      var read := ParseAllDigests(bs, index);
      if read.None? {
        return false;
      }
      index := read.value;
      var size := GetUint(bs, index, 4);
      if size.None? {
        return false;
      }
      eventSize := size.value.0;
      var body := GetBytes(bs, size.value.1, eventSize);
      if body.None? {
        return false;
      }
      event, index := body.value.0, body.value.1;
      length := index;
      data := Slice(bs, 0, index);
      return true;
    }

    /** The digest loop: the position after the last digest, or None where it raises. */
    method ParseAllDigests(bs: bytes, start: nat) returns (end: Option<nat>)
      requires digests == [] && algorithmsId == 0
      modifies this`digests, this`algorithmsId
      ensures var r := ParseDigests(bs, start, digestCount, SizesOf(spec), 0);
              && end.Some? == r.Some?
              && (end.Some? ==> r.value == (digests, algorithmsId, end.value))
    {
      hide FromLE, Limit;
      var index := start;
      ghost var whole := ParseDigests(bs, start, digestCount, SizesOf(spec), 0);
      FirstDigest(whole);
      for k := 0 to digestCount
        invariant whole == Prefixed(digests, ParseDigests(bs, index, digestCount - k, SizesOf(spec), algorithmsId))
      {
        var id := GetUint(bs, index, 2);
        if id.None? || spec.None? || id.value.0 !in spec.value.sizes {
          return None;
        }
        var digest := GetBytes(bs, id.value.1, spec.value.sizes[id.value.0]);
        if digest.None? {
          return None;
        }
        ghost var rest := ParseDigests(bs, digest.value.1, digestCount - k - 1, SizesOf(spec), id.value.0);
        NextDigest(digests, digest.value.0, rest);
        algorithmsId := id.value.0;
        digests := digests + [digest.value.0];
        index := digest.value.1;
      }
      assert digests + [] == digests;
      return Some(index);
    }
  }

  ghost function Prefixed(read: seq<bytes>, r: Option<(seq<bytes>, nat, nat)>): Option<(seq<bytes>, nat, nat)>
  {
    if r.None? then None else Some((read + r.value.0, r.value.1, r.value.2))
  }

  lemma {:induction false} FirstDigest(r: Option<(seq<bytes>, nat, nat)>)
    ensures Prefixed([], r) == r
  {
    assert r.Some? ==> [] + r.value.0 == r.value.0;
  }

  lemma {:induction false} NextDigest(read: seq<bytes>, digest: bytes, r: Option<(seq<bytes>, nat, nat)>)
    ensures r.Some? ==> read + ([digest] + r.value.0) == read + [digest] + r.value.0
  {
  }

  // The actor

  /** What an actor has learned of the log. */
  datatype LogState = LogState(spec: Option<SpecId>, entries: seq<Entry>)

  const FRESH := LogState(None, [])

  /** The record loop from a position: whether it ends without an exception, and what the actor holds
      then. A Spec ID object is kept before it is parsed, so it stays even if parsing it raises. */
  function Scan(data: bytes, base: int, length: nat, index: nat, st: LogState): (bool, LogState)
    decreases length - index
  {
    if index >= length then (true, st)
    else
      match GetUint(data, index, 4)
      case None => (false, st)
      case Some((reg, i0)) =>
        match GetUint(data, i0, 4)
        case None => (false, st)
        case Some((etype, i1)) =>
          if reg == END_MARK then (true, st)
          else if etype == EV_NO_ACTION then
            var next := st.(spec := Some(SpecAfter(data[index..], base + index)));
            match ParseSpecId(data[index..], base + index)
            case None => (false, next)
            case Some(s) => Scan(data, base, length, index + s.length, next)
          else
            match ParseEntry(data[index..], base + index, st.spec)
            case None => (false, st)
            case Some(e) => Scan(data, base, length, index + e.length, st.(entries := st.entries + [e]))
  }

  /** One call of `process`: nothing once a Spec ID object is held or when the file cannot be read;
      false where an exception escapes. */
  function ProcessStep(st: LogState, file: Option<bytes>, base: int, length: nat): (bool, LogState)
  {
    if st.spec.Some? || file.None? then (true, st)
    else if |file.value| == 0 then (false, st)
    else Scan(file.value, base, length, 0, st)
  }

  /** The loop succeeds exactly when the log parses, and then lists the parsed events. */
  lemma {:induction false} ScanIsWalk(data: bytes, base: int, length: nat, index: nat, st: LogState)
    ensures var r, w := Scan(data, base, length, index, st), Walk(data, base, length, index, st.spec);
            r.0 == w.Some? && (r.0 ==> r.1 == LogState(w.value.spec, st.entries + w.value.entries))
    decreases length - index
  {
    hide GetUint, ParseSpecId, ParseEntry, SpecAfter;
    if index >= length {
      assert st.entries + [] == st.entries;
    } else if GetUint(data, index, 4).Some? && GetUint(data, index + 4, 4).Some? {
      UintNext(data, index);
      var reg, etype := GetUint(data, index, 4).value.0, GetUint(data, index + 4, 4).value.0;
      if reg == END_MARK {
        assert st.entries + [] == st.entries;
      } else if etype == EV_NO_ACTION {
        SpecAfterIs(data[index..], base + index);
        var s := ParseSpecId(data[index..], base + index);
        if s.Some? {
          ScanIsWalk(data, base, length, index + s.value.length, st.(spec := s));
        }
      } else {
        var e := ParseEntry(data[index..], base + index, st.spec);
        if e.Some? {
          ScanIsWalk(data, base, length, index + e.value.length, st.(entries := st.entries + [e.value]));
          WalkAppend(st.entries, e.value, Walk(data, base, length, index + e.value.length, st.spec));
        }
      }
    } else {
      UintNext(data, index);
    }
  }

  lemma {:induction false} WalkAppend(listed: seq<Entry>, e: Entry, w: Option<Walked>)
    ensures w.Some? ==> listed + ([e] + w.value.entries) == listed + [e] + w.value.entries
  {
  }

  /** The loop only ever appends events, and what it appends does not depend on what was listed. */
  lemma {:induction false} ScanAppends(data: bytes, base: int, length: nat, index: nat, spec: Option<SpecId>,
                                       listed: seq<Entry>, more: seq<Entry>)
    ensures var r := Scan(data, base, length, index, LogState(spec, more));
            var s := Scan(data, base, length, index, LogState(spec, listed + more));
            s == (r.0, r.1.(entries := listed + r.1.entries))
    decreases length - index
  {
    hide GetUint, ParseSpecId, ParseEntry, SpecAfter;
    if index < length && GetUint(data, index, 4).Some? {
      UintNext(data, index);
      if GetUint(data, index + 4, 4).Some? {
        var reg, etype := GetUint(data, index, 4).value.0, GetUint(data, index + 4, 4).value.0;
        if reg != END_MARK {
          if etype == EV_NO_ACTION {
            SpecAfterIs(data[index..], base + index);
            var s := ParseSpecId(data[index..], base + index);
            if s.Some? {
              ScanAppends(data, base, length, index + s.value.length, s, listed, more);
            }
          } else {
            var e := ParseEntry(data[index..], base + index, spec);
            if e.Some? {
              assert listed + (more + [e.value]) == (listed + more) + [e.value];
              ScanAppends(data, base, length, index + e.value.length, spec, listed, more + [e.value]);
            }
          }
        }
      }
    }
  }

  /** What a second call does after any first one. Once a Spec ID object is held it does nothing and
      reports success, even if parsing that object raised; otherwise it reports what the first call
      reported and lists every event once more. */
  lemma {:induction false} ProcessAgain(file: bytes, base: int, length: nat)
    ensures var (ok, once) := ProcessStep(FRESH, Some(file), base, length);
            ProcessStep(once, Some(file), base, length)
            == if once.spec.Some? then (true, once) else (ok, LogState(None, once.entries + once.entries))
  {
    hide Scan;
    var (ok, once) := ProcessStep(FRESH, Some(file), base, length);
    if once.spec.None? && |file| > 0 {
      assert once.entries + [] == once.entries;
      ScanAppends(file, base, length, 0, None, once.entries, []);
    }
  }

  /** So a successful call can be repeated without effect if and only if it found a Spec ID record or no
      events at all. */
  lemma {:induction false} ProcessTwice(file: bytes, base: int, length: nat)
    requires ProcessStep(FRESH, Some(file), base, length).0
    ensures var once := ProcessStep(FRESH, Some(file), base, length).1;
            ProcessStep(once, Some(file), base, length) == (true, once) <==> once.spec.Some? || once.entries == []
  {
    hide ProcessStep;
    ProcessAgain(file, base, length);
    var once := ProcessStep(FRESH, Some(file), base, length).1;
    if once.entries != [] {
      assert |once.entries + once.entries| != |once.entries|;
    }
  }

  /** An event of register 0, without digests, holding one byte. */
  function BareEvent(content: byte): EventRecord
  {
    EventRecord(1, 1, [], [content])
  }

  /** A log of that event alone is one whose events are listed twice. */
  lemma {:induction false} BareLogListedTwice(content: byte, base: int)
    ensures var data := EncodeEvent(BareEvent(content));
            var (ok, once) := ProcessStep(FRESH, Some(data), base, |data|);
            && ok && once == LogState(None, [EntryOf(BareEvent(content), base)])
            && ProcessStep(once, Some(data), base, |data|) == (true, LogState(None, once.entries + once.entries))
  {
    hide GetUint, ParseEntry, ParseSpecId, SpecAfter, Limit, EncodeEvent, EntryOf;
    var e := BareEvent(content);
    var data := EncodeEvent(e);
    BareParses(content, base);
    assert data[0..] == data;
    Limits();
    HeaderOf(data, 0, e);
    EntryLength(e, base);
    assert [] + [EntryOf(e, base)] == [EntryOf(e, base)];
    var st := LogState(None, [EntryOf(e, base)]);
    assert Scan(data, base, |data|, |data|, st) == (true, st);
    assert Scan(data, base, |data|, 0, FRESH) == (true, st);
    ProcessAgain(data, base, |data|);
  }

  /** Without digests no Spec ID record is needed. */
  lemma {:induction false} BareParses(content: byte, address: int)
    ensures var e := BareEvent(content);
            ParseEntry(EncodeEvent(e), address, None) == Some(EntryOf(e, address))
  {
    hide EncodeEvent, EntryOf, ParseEntry, Limit;
    var e, spec := BareEvent(content), SpecId(0, 0, 0, 0, 0, map[], 0, []);
    Limits();
    assert ValidEvent(e, spec.sizes);
    EventRoundTrip(EncodeEvent(e), e, spec, address);
    BareCount(e);
    SpecUnused(EncodeEvent(e), address, spec);
  }

  lemma {:induction false} BareCount(e: EventRecord)
    requires e.digests == []
    ensures GetUint(EncodeEvent(e), 8, 4) == Some((0, 12))
  {
    hide LE, FromLE, Limit;
    var data := EncodeEvent(e);
    Limits();
    assert data[8..12] == LE(0, 4);
    GetEncoded(data, 8, 0, 4);
  }

  lemma {:induction false} SpecUnused(data: bytes, address: int, spec: SpecId)
    requires GetUint(data, 8, 4) == Some((0, 12))
    ensures ParseEntry(data, address, None) == ParseEntry(data, address, Some(spec))
  {
    hide FromLE, Limit;
  }

  // Sequences of calls

  datatype Call = DoProcess | DoReplay | DoDump

  /** What an actor holds: the log, and the registers of the last successful replay. */
  datatype ActorState = ActorState(log: LogState, rtmrs: map<int, bytes>)

  /** The dictionary a replay leaves, or nothing if it raises. */
  function Registers(h: Hash, entries: seq<Entry>): Option<map<int, bytes>>
  {
    var values :- ReplayAll(h, entries);
    Some(RegisterMap(values))
  }

  /** Dumping a Spec ID object that was not fully parsed raises. */
  predicate Dumpable(log: LogState)
  {
    log.spec.Some? && log.spec.value.raw != []
  }

  function CallStep(h: Hash, st: ActorState, c: Call, file: Option<bytes>, base: int, length: nat): (bool, ActorState)
  {
    var (ok, log) := ProcessStep(st.log, file, base, length);
    var next := st.(log := log);
    if !ok then (false, next)
    else
      match c
      case DoProcess => (true, next)
      case DoDump => (Dumpable(log), next)
      case DoReplay =>
        match Registers(h, log.entries)
        case None => (false, next)
        case Some(values) => (true, next.(rtmrs := values))
  }

  /** Any calls, whatever each of them reports. */
  function CallAll(h: Hash, st: ActorState, calls: seq<Call>, file: Option<bytes>, base: int, length: nat): ActorState
    decreases |calls|
  {
    if |calls| == 0 then st
    else CallAll(h, CallStep(h, st, calls[0], file, base, length).1, calls[1..], file, base, length)
  }

  lemma {:induction false} SettledCalls(h: Hash, st: ActorState, calls: seq<Call>, file: Option<bytes>, base: int,
                                        length: nat)
    requires ProcessStep(st.log, file, base, length) == (true, st.log)
    ensures CallAll(h, st, calls, file, base, length)
         == ActorState(st.log, RegistersAfter(DoReplay in calls, Registers(h, st.log.entries), st.rtmrs))
    decreases |calls|
  {
    hide ProcessStep, Registers;
    if |calls| > 0 {
      SettledCalls(h, CallStep(h, st, calls[0], file, base, length).1, calls[1..], file, base, length);
      assert DoReplay in calls <==> calls[0] == DoReplay || DoReplay in calls[1..];
    }
  }

  function RegistersAfter(replayed: bool, values: Option<map<int, bytes>>, before: map<int, bytes>): map<int, bytes>
  {
    if replayed && values.Some? then values.value else before
  }

  /** If the first call meets a Spec ID record, or no events at all without an exception, then after any
      calls in any order the actor holds what that first call made of the log, no event twice, and the
      registers are the replayed values as soon as one replay went through. A first call that raised
      counts for nothing; all later ones take its half-read log for the whole. */
  lemma {:induction false} CallsSettle(h: Hash, calls: seq<Call>, file: bytes, base: int, length: nat)
    requires |calls| > 0
    requires var (ok, once) := ProcessStep(FRESH, Some(file), base, length);
             once.spec.Some? || (ok && once.entries == [])
    ensures var (ok, once) := ProcessStep(FRESH, Some(file), base, length);
            var counted := if ok then calls else calls[1..];
            CallAll(h, ActorState(FRESH, map[]), calls, Some(file), base, length)
            == ActorState(once, RegistersAfter(DoReplay in counted, Registers(h, once.entries), map[]))
  {
    hide ProcessStep, Registers;
    var (ok, once) := ProcessStep(FRESH, Some(file), base, length);
    ProcessAgain(file, base, length);
    assert [] + [] == once.entries + once.entries || once.spec.Some?;
    var start := ActorState(FRESH, map[]);
    var next := CallStep(h, start, calls[0], Some(file), base, length).1;
    assert once.spec.None? ==> once == LogState(None, once.entries + once.entries);
    SettledCalls(h, next, calls[1..], Some(file), base, length);
    assert DoReplay in calls <==> calls[0] == DoReplay || DoReplay in calls[1..];
  }

  /** In particular, if the very first record is a Spec ID record that cannot be parsed, the first replay
      raises and the second one succeeds with four zero registers, while dumping goes on raising. */
  lemma {:induction false} CutSpecReplaysZero(h: Hash, file: bytes, base: int, length: nat)
    requires length > 0 && GetUint(file, 0, 4).Some? && GetUint(file, 4, 4).Some?
    requires GetUint(file, 0, 4).value.0 != END_MARK && GetUint(file, 4, 4).value.0 == EV_NO_ACTION
    requires ParseSpecId(file, base).None?
    ensures var one := CallStep(h, ActorState(FRESH, map[]), DoReplay, Some(file), base, length);
            var two := CallStep(h, one.1, DoReplay, Some(file), base, length);
            && !one.0 && two.0 && two.1.rtmrs == map[0 := ZERO, 1 := ZERO, 2 := ZERO, 3 := ZERO]
            && !CallStep(h, two.1, DoDump, Some(file), base, length).0
  {
    hide ParseEntry, ParseSpecId, SpecAfter, FromLE, Limit;
    assert file[0..] == file;
    var spec := SpecAfter(file, base);
    assert ProcessStep(FRESH, Some(file), base, length) == (false, LogState(Some(spec), []));
    SpecAfterIs(file, base);
    NothingReplays(h);
  }

  lemma {:induction false} NothingReplays(h: Hash)
    ensures Registers(h, []) == Some(map[0 := ZERO, 1 := ZERO, 2 := ZERO, 3 := ZERO])
  {
  }

  /** Such a log: eight bytes that announce a Spec ID record. */
  lemma {:induction false} CutSpecExists(base: int)
    ensures var file := LE(1, 4) + LE(EV_NO_ACTION, 4);
            && GetUint(file, 0, 4) == Some((1, 4)) && GetUint(file, 4, 4) == Some((EV_NO_ACTION, 8))
            && ParseSpecId(file, base).None?
  {
    hide LE, FromLE, Limit;
    Limits();
    var file := LE(1, 4) + LE(EV_NO_ACTION, 4);
    assert file[0..4] == LE(1, 4) && file[4..8] == LE(EV_NO_ACTION, 4);
    GetEncoded(file, 0, 1, 4);
    GetEncoded(file, 4, EV_NO_ACTION, 4);
  }

  class TDEventLogActor {
    const logBase: int
    const logLength: nat
    var specid: TDEventLogSpecIdHeader?
    var eventLogs: seq<Entry>
    var rtmrs: map<int, bytes>

    constructor (base: int, length: nat)
      ensures logBase == base && logLength == length && Actor() == ActorState(FRESH, map[])
    {
      logBase, logLength, specid, eventLogs, rtmrs := base, length, null, [], map[];
    }

    ghost function State(): LogState
      reads this, specid
    {
      LogState(if specid == null then None else Some(specid.View()), eventLogs)
    }

    ghost function Actor(): ActorState
      reads this, specid
    {
      ActorState(State(), rtmrs)
    }

    /** Reads the log once; false when an exception escapes, with whatever was read by then kept. */
    method Process(file: Option<bytes>) returns (ok: bool)
      modifies this`specid, this`eventLogs
      ensures (ok, State()) == ProcessStep(old(State()), file, logBase, logLength)
    {
      hide GetUint, ParseSpecId, ParseEntry, SpecAfter, Scan;
      if specid != null || file.None? {
        return true;
      }
      var data := file.value;
      if |data| == 0 {
        return false;
      }
      var index := 0;
      ghost var whole := Scan(data, logBase, logLength, 0, State());
      while index < logLength
        invariant whole == Scan(data, logBase, logLength, index, State())
        decreases logLength - index
      {
        ScanTurn(data, logBase, logLength, index, State());
        var reg := GetUint(data, index, 4);
        if reg.None? {
          return false;
        }
        var etype := GetUint(data, index + 4, 4);
        if etype.None? {
          return false;
        }
        if reg.value.0 == END_MARK {
          break;
        }
        if etype.value.0 == EV_NO_ACTION {
          specid := new TDEventLogSpecIdHeader(logBase + index);
          var parsed := specid.Parse(data[index..]);
          if !parsed {
            return false;
          }
          index := index + specid.length;
        } else {
          var spec := if specid == null then None else Some(specid.View());
          var entry := new TDEventLogEntry(logBase + index, spec);
          var parsed := entry.Parse(data[index..]);
          if !parsed {
            return false;
          }
          index := index + entry.length;
          eventLogs := eventLogs + [entry.View()];
        }
      }
      ScanStops(data, logBase, logLength, index, State());
      return true;
    }

    /** Hashes one register's events in order; None when an event has no digest. */
    static method ReplaySingle(h: Hash, events: seq<Entry>) returns (r: Option<bytes>)
      ensures r.Some? == Digested(events)
      ensures r.Some? ==> r.value == Chain(h, FirstDigests(events))
    {
      hide Link, FirstDigests;
      var rtmr := Fill(0, RTMR_LENGTH);
      EmptyChain(h);
      ghost var hashed: seq<bytes> := [];
      for k := 0 to |events|
        invariant |hashed| == k
        invariant forall i :: 0 <= i < k ==> |events[i].digests| > 0 && hashed[i] == events[i].digests[0]
        invariant rtmr == Chain(h, hashed)
      {
        if |events[k].digests| == 0 {
          return None;
        }
        var digest := events[k].digests[0];
        ChainSnoc(h, hashed, digest);
        rtmr := h(rtmr + digest);
        hashed := hashed + [digest];
      }
      assert hashed == FirstDigests(events);
      return Some(rtmr);
    }

    /** The events of each register; None when an event names no register. */
    static method GroupByIndex(events: seq<Entry>) returns (r: Option<map<int, seq<Entry>>>)
      ensures r.Some? == InRange(events)
      ensures r.Some? ==> Grouped(r.value, events)
    {
      hide Grouped;
      var byIndex: map<int, seq<Entry>> := map[];
      for index := 0 to RTMR_COUNT
        invariant forall i :: i in byIndex <==> 0 <= i < index
        invariant forall i :: i in byIndex ==> byIndex[i] == []
      {
        byIndex := byIndex[index := []];
      }
      NothingGrouped(byIndex);
      for k := 0 to |events|
        invariant Grouped(byIndex, events[..k])
        invariant forall j :: 0 <= j < k ==> 0 <= events[j].rtmr < RTMR_COUNT
      {
        var e := events[k];
        GroupedSnoc(byIndex, events, k);
        if e.rtmr !in byIndex {
          return None;
        }
        byIndex := byIndex[e.rtmr := byIndex[e.rtmr] + [e]];
      }
      assert events[..|events|] == events;
      return Some(byIndex);
    }

    /** All four values, or None where grouping or hashing raises: an event names no register or has no
        digest. */
    static method ReplayGroups(h: Hash, events: seq<Entry>) returns (r: Option<map<int, bytes>>)
      ensures r == Registers(h, events)
      ensures r.None? <==> exists i :: 0 <= i < |events| &&
                             (events[i].rtmr < 0 || events[i].rtmr >= RTMR_COUNT || events[i].digests == [])
    {
      hide Chain, FirstDigests, Group, Grouped, Digested, AllDigested, InRange, ReplayAll, RegisterMap, Filled,
           RegisterValue;
      RaisesWhen(h, events);
      NotGrouped(h, events);
      var byIndex := GroupByIndex(events);
      if byIndex.None? {
        return None;
      }
      var result: map<int, bytes> := map[];
      ghost var expected := [RegisterValue(h, events, 0), RegisterValue(h, events, 1),
                             RegisterValue(h, events, 2), RegisterValue(h, events, 3)];
      NothingFilled(expected);
      DigestedSoFar(events, 0);
      for i := 0 to RTMR_COUNT
        invariant Filled(result, expected, i)
        invariant AllDigested(events, i)
      {
        GroupAt(byIndex.value, events, i);
        var value := ReplaySingle(h, byIndex.value[i]);
        if value.None? {
          NotDigested(h, events, i);
          return None;
        }
        assert value.value == expected[i] by {
          DigestedValue(h, events, i);
        }
        DigestedSoFar(events, i);
        FilledSnoc(result, expected, i);
        result := result[i := value.value];
      }
      AllFilled(result, expected);
      AllExpected(h, events);
      return Some(result);
    }

    /** Groups the events by register and sets all four values; on failure they stay as they were. */
    method Replay(h: Hash, file: Option<bytes>) returns (ok: bool)
      modifies this
      ensures (ok, Actor()) == CallStep(h, old(Actor()), DoReplay, file, logBase, logLength)
    {
      hide ProcessStep, Registers;
      ok := Process(file);
      if !ok {
        return;
      }
      var values := ReplayGroups(h, eventLogs);
      if values.None? {
        return false;
      }
      rtmrs := values.value;
      return true;
    }

    /** Walks the parsed records again and prints where each starts; false where that raises. */
    method DumpTdEventLogs(file: Option<bytes>) returns (ok: bool, addresses: seq<int>)
      modifies this`specid, this`eventLogs
      ensures var r := ProcessStep(old(State()), file, logBase, logLength);
              State() == r.1 && ok == (r.0 && Dumpable(r.1))
      ensures ok ==> specid != null && addresses == [logBase] + DumpAddresses(eventLogs, logBase + specid.length)
    {
      hide ProcessStep, DumpAddresses;
      addresses := [];
      ok := Process(file);
      if !ok || specid == null || specid.data == [] {
        return false, [];
      }
      var start := logBase;
      addresses := [start];
      start := start + specid.length;
      var events := eventLogs;
      ghost var all := [logBase] + DumpAddresses(events, start);
      assert events[0..] == events;
      for k := 0 to |events|
        modifies {}
        invariant addresses + DumpAddresses(events[k..], start) == all
      {
        DumpTurn(addresses, events, k, start);
        addresses := addresses + [start];
        start := start + events[k].length;
      }
      DumpEnd(addresses, events, start);
    }
  }

  /** A log replays exactly when every event names one of the four registers and has a digest. */
  lemma {:induction false} RaisesWhen(h: Hash, events: seq<Entry>)
    ensures Registers(h, events).None? <==>
              exists i :: 0 <= i < |events| &&
                (events[i].rtmr < 0 || events[i].rtmr >= RTMR_COUNT || events[i].digests == [])
  {
    hide Chain, DigestsFor;
    if Registers(h, events).None? {
      var i :| 0 <= i < |events| && !Replayable(events[i]);
    }
  }

  // Verification

  /** The four verdicts on the reported registers: replayed from a fresh actor, then compared one by one;
      None where that raises. */
  function Verdicts(h: Hash, file: Option<bytes>, base: int, length: nat, reported: seq<bytes>): Option<seq<bool>>
    requires |reported| == RTMR_COUNT
  {
    var (ok, st) := CallStep(h, ActorState(FRESH, map[]), DoReplay, file, base, length);
    if !ok then None
    else
      var values :- Registers(h, st.log.entries);
      var v0 :- RtmrEqual(values[0], reported[0]);
      var v1 :- RtmrEqual(values[1], reported[1]);
      var v2 :- RtmrEqual(values[2], reported[2]);
      var v3 :- RtmrEqual(values[3], reported[3]);
      Some([v0, v1, v2, v3])
  }

  class VerifyActor {
    constructor ()
    {
    }

    /** Compares the replayed registers with the reported ones; None where the source raises. */
    method VerifyRtmr(h: Hash, file: Option<bytes>, base: int, length: nat, reported: seq<bytes>)
      returns (verdicts: Option<seq<bool>>)
      requires |reported| == RTMR_COUNT
      ensures verdicts == Verdicts(h, file, base, length, reported)
    {
      hide ProcessStep, ReplayAll, RtmrEqual;
      var actor := new TDEventLogActor(base, length);
      var ok := actor.Replay(h, file);
      if !ok {
        return None;
      }
      var v0 := RtmrEqual(actor.rtmrs[0], reported[0]);
      if v0.None? {
        return None;
      }
      var v1 := RtmrEqual(actor.rtmrs[1], reported[1]);
      if v1.None? {
        return None;
      }
      var v2 := RtmrEqual(actor.rtmrs[2], reported[2]);
      if v2.None? {
        return None;
      }
      var v3 := RtmrEqual(actor.rtmrs[3], reported[3]);
      if v3.None? {
        return None;
      }
      return Some([v0.value, v1.value, v2.value, v3.value]);
    }
  }

  /** For every log that is read and replays, each verdict is true if and only if the reported register
      is what zeroing it and extending it by the log's events, in order, gives. */
  lemma {:induction false} VerdictsAreExact(h: Hash, file: bytes, base: int, length: nat, reported: seq<bytes>)
    requires |reported| == RTMR_COUNT && forall i :: 0 <= i < RTMR_COUNT ==> |reported[i]| == 48
    requires ProcessStep(FRESH, Some(file), base, length).0
    requires AllReplayable(ProcessStep(FRESH, Some(file), base, length).1.entries)
    ensures var m := Machine(h, ZEROED, ProcessStep(FRESH, Some(file), base, length).1.entries);
            Verdicts(h, Some(file), base, length, reported)
            == Some([reported[0] == m[0], reported[1] == m[1], reported[2] == m[2], reported[3] == m[3]])
  {
    hide ProcessStep, ReplayAll, RtmrEqual, Machine, AllReplayable;
    var entries := ProcessStep(FRESH, Some(file), base, length).1.entries;
    HonestLogPasses(h, entries, 0, reported[0]);
    HonestLogPasses(h, entries, 1, reported[1]);
    HonestLogPasses(h, entries, 2, reported[2]);
    HonestLogPasses(h, entries, 3, reported[3]);
  }

  /** A log that cannot be read counts as empty: the replay succeeds with four zero registers. An empty
      file raises instead. */
  lemma {:induction false} UnreadableLog(h: Hash, base: int, length: nat)
    ensures CallStep(h, ActorState(FRESH, map[]), DoReplay, None, base, length)
         == (true, ActorState(FRESH, map[0 := ZERO, 1 := ZERO, 2 := ZERO, 3 := ZERO]))
    ensures CallStep(h, ActorState(FRESH, map[]), DoReplay, Some([]), base, length)
         == (false, ActorState(FRESH, map[]))
  {
    hide Registers;
    NothingReplays(h);
  }

  lemma {:induction false} DumpEnd(printed: seq<int>, entries: seq<Entry>, start: int)
    ensures printed + DumpAddresses(entries[|entries|..], start) == printed
  {
    assert printed + [] == printed;
  }

  lemma {:induction false} DumpTurn(printed: seq<int>, entries: seq<Entry>, k: nat, start: int)
    requires k < |entries|
    ensures printed + DumpAddresses(entries[k..], start)
         == printed + [start] + DumpAddresses(entries[k + 1..], start + entries[k].length)
  {
    assert entries[k..][0] == entries[k] && entries[k..][1..] == entries[k + 1..];
    assert printed + ([start] + DumpAddresses(entries[k + 1..], start + entries[k].length))
        == printed + [start] + DumpAddresses(entries[k + 1..], start + entries[k].length);
  }

  /** Every event names one of the four registers. */
  predicate InRange(events: seq<Entry>)
  {
    forall j :: 0 <= j < |events| ==> 0 <= events[j].rtmr < RTMR_COUNT
  }

  /** The first `n` groups have digests throughout. */
  ghost predicate AllDigested(events: seq<Entry>, n: nat)
  {
    forall i :: 0 <= i < n ==> Digested(Group(events, i))
  }

  lemma {:induction false} DigestedSoFar(events: seq<Entry>, n: nat)
    ensures AllDigested(events, 0)
    ensures AllDigested(events, n) && Digested(Group(events, n)) ==> AllDigested(events, n + 1)
  {
    hide Digested, Group;
  }

  lemma {:induction false} GroupAt(byIndex: map<int, seq<Entry>>, events: seq<Entry>, i: nat)
    requires Grouped(byIndex, events) && i < RTMR_COUNT
    ensures i in byIndex && byIndex[i] == Group(events, i)
  {
  }

  /** The dictionary of groups: the four registers, each with its events. */
  ghost predicate Grouped(byIndex: map<int, seq<Entry>>, events: seq<Entry>)
  {
    && (forall i :: i in byIndex <==> 0 <= i < RTMR_COUNT)
    && (forall i :: i in byIndex ==> byIndex[i] == Group(events, i))
  }

  lemma {:induction false} NothingGrouped(byIndex: map<int, seq<Entry>>)
    requires forall i :: i in byIndex <==> 0 <= i < RTMR_COUNT
    requires forall i :: i in byIndex ==> byIndex[i] == []
    ensures Grouped(byIndex, [])
  {
  }

  lemma {:induction false} GroupedSnoc(byIndex: map<int, seq<Entry>>, events: seq<Entry>, k: nat)
    requires k < |events| && Grouped(byIndex, events[..k])
    ensures var e := events[k];
            && (e.rtmr in byIndex <==> 0 <= e.rtmr < RTMR_COUNT)
            && (e.rtmr in byIndex ==> Grouped(byIndex[e.rtmr := byIndex[e.rtmr] + [e]], events[..k + 1]))
  {
    hide Group;
    forall i | i in byIndex
      ensures Group(events[..k + 1], i)
           == if i == events[k].rtmr then Group(events[..k], i) + [events[k]] else Group(events[..k], i)
    {
      GroupSnoc(events, k, i);
    }
  }

  /** The value of one register, where it can be computed. */
  ghost function RegisterValue(h: Hash, events: seq<Entry>, j: int): bytes
  {
    if Digested(Group(events, j)) then Chain(h, FirstDigests(Group(events, j))) else []
  }

  lemma {:induction false} DigestedValue(h: Hash, events: seq<Entry>, j: int)
    requires Digested(Group(events, j))
    ensures RegisterValue(h, events, j) == Chain(h, FirstDigests(Group(events, j)))
  {
  }

  lemma {:induction false} AllExpected(h: Hash, events: seq<Entry>)
    requires InRange(events)
    requires AllDigested(events, RTMR_COUNT)
    ensures ReplayAll(h, events) == Some([RegisterValue(h, events, 0), RegisterValue(h, events, 1),
                                          RegisterValue(h, events, 2), RegisterValue(h, events, 3)])
  {
    hide Group, Chain, FirstDigests, Digested, AllReplayable;
    EveryEventGrouped(events);
    assert Digested(Group(events, 0)) && Digested(Group(events, 1)) && Digested(Group(events, 2))
        && Digested(Group(events, 3));
  }

  /** A dictionary holding the first `n` of the expected values. */
  ghost predicate Filled(result: map<int, bytes>, expected: seq<bytes>, n: nat)
  {
    && n <= |expected|
    && (forall j :: j in result <==> 0 <= j < n)
    && (forall j :: 0 <= j < n ==> result[j] == expected[j])
  }

  lemma {:induction false} NothingFilled(expected: seq<bytes>)
    ensures Filled(map[], expected, 0)
  {
  }

  lemma {:induction false} FilledSnoc(result: map<int, bytes>, expected: seq<bytes>, n: nat)
    requires n < |expected| && Filled(result, expected, n)
    ensures Filled(result[n := expected[n]], expected, n + 1)
  {
  }

  lemma {:induction false} AllFilled(result: map<int, bytes>, expected: seq<bytes>)
    requires |expected| == RTMR_COUNT && Filled(result, expected, RTMR_COUNT)
    ensures result == RegisterMap(expected)
  {
    assert forall j :: j in result <==> j in RegisterMap(expected);
  }

  /** The dictionary of the four register values. */
  function RegisterMap(values: seq<bytes>): map<int, bytes>
    requires |values| == RTMR_COUNT
  {
    map[0 := values[0], 1 := values[1], 2 := values[2], 3 := values[3]]
  }

  lemma {:induction false} NotGrouped(h: Hash, entries: seq<Entry>)
    ensures !InRange(entries) ==> ReplayAll(h, entries).None?
  {
  }

  lemma {:induction false} NotDigested(h: Hash, entries: seq<Entry>, i: int)
    requires !Digested(Group(entries, i))
    ensures ReplayAll(h, entries).None?
  {
    var g := Group(entries, i);
    var l :| 0 <= l < |g| && |g[l].digests| == 0;
    GroupMembers(entries, i, l);
  }

  /** One turn of the record loop. */
  lemma {:induction false} ScanTurn(data: bytes, base: int, length: nat, index: nat, st: LogState)
    requires index < length
    ensures var whole := Scan(data, base, length, index, st);
            var reg, etype := GetUint(data, index, 4), GetUint(data, index + 4, 4);
            if reg.None? || etype.None? then whole == (false, st)
            else if reg.value.0 == END_MARK then whole == (true, st)
            else if etype.value.0 == EV_NO_ACTION then
              index < |data| &&
              var s, next := ParseSpecId(data[index..], base + index), SpecAfter(data[index..], base + index);
              whole == if s.None? then (false, st.(spec := Some(next)))
                       else Scan(data, base, length, index + s.value.length, st.(spec := Some(next)))
            else
              index < |data| &&
              var e := ParseEntry(data[index..], base + index, st.spec);
              whole == if e.None? then (false, st)
                       else Scan(data, base, length, index + e.value.length, st.(entries := st.entries + [e.value]))
  {
    hide ParseSpecId, ParseEntry, SpecAfter, FromLE, Limit;
  }

  lemma {:induction false} ScanStops(data: bytes, base: int, length: nat, index: nat, st: LogState)
    requires index < length ==> Scan(data, base, length, index, st) == (true, st)
    ensures Scan(data, base, length, index, st) == (true, st)
  {
  }

  lemma {:induction false} ChainSnoc(h: Hash, ds: seq<bytes>, d: bytes)
    ensures Chain(h, ds + [d]) == h(Chain(h, ds) + d)
  {
    assert (ds + [d])[..|ds|] == ds;
  }

  lemma {:induction false} GroupSnoc(entries: seq<Entry>, k: nat, i: int)
    requires k < |entries|
    ensures Group(entries[..k + 1], i)
         == if i == entries[k].rtmr then Group(entries[..k], i) + [entries[k]] else Group(entries[..k], i)
  {
    assert entries[..k + 1][..k] == entries[..k];
  }

  /** Every event with a register index is in that register's group, so all of them were checked. */
  lemma {:induction false} InGroup(entries: seq<Entry>, j: nat)
    requires j < |entries|
    ensures entries[j] in Group(entries, entries[j].rtmr)
    decreases |entries|
  {
    var init, last := entries[..|entries| - 1], entries[|entries| - 1];
    if j < |init| {
      InGroup(init, j);
      var l :| 0 <= l < |Group(init, entries[j].rtmr)| && Group(init, entries[j].rtmr)[l] == entries[j];
      assert Group(entries, entries[j].rtmr)[l] == entries[j];
    } else {
      var g := Group(entries, last.rtmr);
      assert g[|g| - 1] == last;
    }
  }

  lemma {:induction false} EveryEventGrouped(entries: seq<Entry>)
    requires InRange(entries)
    requires AllDigested(entries, RTMR_COUNT)
    ensures AllReplayable(entries)
  {
    hide Group;
    forall j | 0 <= j < |entries|
      ensures Replayable(entries[j])
    {
      InGroup(entries, j);
      assert Digested(Group(entries, entries[j].rtmr));
    }
  }
}
