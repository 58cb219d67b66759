/** The tool's objects, updated in place as the source does, and proved against the functions above. */
module VariableStore {
  import opened Bytes
  import opened Struct
  import opened Guid
  import opened Variables
  import opened StoreImage
  import opened VarList
  import opened Enroll
  import opened SecureBoot

  class VariableTimeBasedAuth {
    var startId: int
    var state: int
    var rsvd: int
    var attributes: int
    var count: int
    var timeStamp: bytes
    var pkIndex: int
    var nameSize: int
    var dataSize: int
    var vendorGuid: bytes
    var guidText: string
    var nameBlob: bytes
    var data: bytes
    var fullSize: int
    var validHeader: bool

    /** The record this object stands for; `fullSize` only steers the walk that parsed it. */
    ghost function View(): Variable
      reads this
    {
      Variable(startId, state, rsvd, attributes, count, timeStamp, pkIndex, nameSize, dataSize, vendorGuid,
               guidText, nameBlob, data)
    }

    /** A new record for a key that is not listed yet. */
    constructor FromEdit(e: Edit, guid: bytes)
      ensures View() == Created(e, guid) && validHeader
      ensures fullSize == dataSize + nameSize + HEADER_SIZE
    {
      var blob := Str2Blob(e.name);
      startId, state, rsvd, attributes, count := START_ID, VAR_ADDED, 0, e.attributes, 0;
      timeStamp, pkIndex, nameSize, dataSize := e.Time(), 0, |blob|, e.size;
      vendorGuid, guidText, nameBlob, data := guid, Lower(e.guid), blob, e.buffer;
      fullSize, validHeader := e.size + |blob| + HEADER_SIZE, true;
    }

    /** A header of the wrong size is reported through `validHeader`. */
    constructor FromHeader(bs: bytes)
      ensures validHeader <==> ParseHeader(bs).Some?
      ensures validHeader ==> View() == ParseHeader(bs).value && fullSize == dataSize + nameSize + HEADER_SIZE
    {
      var header := ParseHeader(bs);
      var h := if header.Some? then header.value
               else Variable(START_ID, VAR_ADDED, 0, 0, 0, [], 0, 0, 0, [], "", [], []);
      startId, state, rsvd, attributes, count := h.startId, h.state, h.rsvd, h.attributes, h.count;
      timeStamp, pkIndex, nameSize, dataSize := h.timeStamp, h.pkIndex, h.nameSize, h.dataSize;
      vendorGuid, guidText, nameBlob, data := h.vendorGuid, h.guidText, h.nameBlob, h.data;
      fullSize := if header.Some? then h.dataSize + h.nameSize + HEADER_SIZE else 0;
      validHeader := header.Some?;
    }

    /** Cuts name and data out of the record; false when the name does not decode. */
    method ParseBody(record: bytes) returns (ok: bool)
      requires nameSize >= 0
      modifies this
      ensures var name := Slice(record, HEADER_SIZE, HEADER_SIZE + old(nameSize));
              && ok == Utf8(name)
              && (ok ==> View() == old(View()).(nameBlob := name,
                                                data := Slice(record, HEADER_SIZE + old(nameSize), |record|)))
    {
      nameBlob := Slice(record, HEADER_SIZE, HEADER_SIZE + nameSize);
      if !Utf8(nameBlob) {
        return false;
      }
      data := Slice(record, HEADER_SIZE + nameSize, |record|);
      return true;
    }

    /** Replacing leaves `fullSize` as it was; appending recomputes it. */
    method Update(e: Edit)
      modifies this
      ensures View() == Updated(old(View()), e)
      ensures fullSize == if e.append then dataSize + nameSize + HEADER_SIZE else old(fullSize)
    {
      attributes := e.attributes;
      timeStamp := e.Time();
      if e.append {
        data := data + e.buffer;
        dataSize := dataSize + e.size;
        fullSize := dataSize + nameSize + HEADER_SIZE;
      } else {
        data := e.buffer;
        dataSize := e.size;
      }
    }

    method Blob() returns (r: Option<bytes>)
      ensures r == View().Blob()
    {
      var header := Pack(VAR_CODES, [Num(startId), Num(state), Num(rsvd), Num(attributes), Num(count),
                                     Str(timeStamp), Num(pkIndex), Num(nameSize), Num(dataSize), Str(vendorGuid)]);
      if header.None? {
        return None;
      }
      return Some(header.value + nameBlob + data);
    }
  }

  ghost function Views(vs: seq<VariableTimeBasedAuth>): (r: seq<Variable>)
    reads vs
    ensures |r| == |vs| && forall i :: 0 <= i < |vs| ==> r[i] == vs[i].View()
  {
    if |vs| == 0 then [] else [vs[0].View()] + Views(vs[1..])
  }

  lemma {:induction false} FirstIndexIs(vars: seq<Variable>, k: Key, i: nat)
    requires i <= |vars| && (forall j :: 0 <= j < i ==> KeyOf(vars[j]) != k)
    requires i < |vars| ==> KeyOf(vars[i]) == k
    ensures FirstIndex(vars, k) == i
  {
  }

  /** What the walk does with a position: leave the loop, raise, go past it, or keep the record. */
  datatype Turn = Leave | Escape | Ignore | Keep

  // Loop steps of the two walks

  ghost function Prepend(listed: seq<Variable>, p: Option<Parsed>): Option<Parsed>
  {
    match p
    case None => None
    case Some(rest) => Some(Parsed(listed + rest.vars, rest.end))
  }

  lemma {:induction false} WalkStep(raw: bytes, at: nat, end: nat, listed: seq<Variable>)
    requires at < end
    ensures var whole := Prepend(listed, ParseVars(raw, at, end));
            match ScanAt(raw, at)
            case Stop => ParseVars(raw, at, end) == Some(Parsed([], at))
            case Raise => whole == None
            case Skip(next) => whole == Prepend(listed, ParseVars(raw, next, end))
            case Take(v, next) => whole == Prepend(listed + [v], ParseVars(raw, next, end))
  {
    hide ScanAt;
    match ScanAt(raw, at)
    case Take(v, next) =>
      if ParseVars(raw, next, end).Some? {
        var rest := ParseVars(raw, next, end).value.vars;
        assert listed + ([v] + rest) == (listed + [v]) + rest;
      }
    case _ =>
  }

  lemma {:induction false} WalkStarts(p: Option<Parsed>)
    ensures Prepend([], p) == p
  {
    assert p.Some? ==> [] + p.value.vars == p.value.vars;
  }

  lemma {:induction false} WalkEnds(raw: bytes, at: nat, end: nat, listed: seq<Variable>)
    requires at < end ==> ScanAt(raw, at).Stop?
    ensures Prepend(listed, ParseVars(raw, at, end)) == Some(Parsed(listed, at))
  {
    hide ScanAt;
    assert listed + [] == listed;
  }

  lemma {:induction false} JoinStep(all: seq<Variable>, i: nat, blob: bytes)
    requires i < |all|
    requires Serialize(all) == (match Serialize(all[i..]) case None => None case Some(rest) => Some(blob + rest))
    ensures all[i].Blob().None? ==> Serialize(all).None?
    ensures all[i].Blob().Some? ==>
              && all[i].Padded().Some?
              && Serialize(all) == (match Serialize(all[i + 1..])
                                    case None => None
                                    case Some(rest) => Some(blob + all[i].Padded().value + rest))
  {
    hide Variable.Blob;
    assert all[i..][0] == all[i] && all[i..][1..] == all[i + 1..];
    if all[i].Blob().Some? && Serialize(all[i + 1..]).Some? {
      var padded, rest := all[i].Padded().value, Serialize(all[i + 1..]).value;
      assert blob + (padded + rest) == (blob + padded) + rest;
    }
  }

  lemma {:induction false} StartJoin(all: seq<Variable>)
    ensures Serialize(all) == (match Serialize(all[0..]) case None => None case Some(rest) => Some([] + rest))
  {
    assert all[0..] == all;
    assert Serialize(all).Some? ==> [] + Serialize(all).value == Serialize(all).value;
  }

  lemma {:induction false} EndJoin(all: seq<Variable>, blob: bytes)
    requires Serialize(all) == (match Serialize(all[|all|..]) case None => None case Some(rest) => Some(blob + rest))
    ensures Serialize(all) == Some(blob)
  {
    assert all[|all|..] == [] && blob + [] == blob;
  }

  class Store {
    const layout: Layout
    const raw: bytes
    var varsList: seq<VariableTimeBasedAuth>
    var varsSize: int

    /** No object is listed twice, so an in-place update shows at one position only. */
    ghost predicate Valid()
      reads this
    {
      forall i, j :: 0 <= i < j < |varsList| ==> varsList[i] != varsList[j]
    }

    ghost function Contents(): seq<Variable>
      reads this, varsList
    {
      Views(varsList)
    }

    constructor (layout: Layout, raw: bytes)
      ensures this.layout == layout && this.raw == raw && varsList == [] && Valid()
    {
      this.layout, this.raw := layout, raw;
      varsList, varsSize := [], 0;
    }

    method FindVarInList(k: Key) returns (v: VariableTimeBasedAuth?)
      ensures var i := FirstIndex(Contents(), k);
              if i < |varsList| then v == varsList[i] else v == null
    {
      for i := 0 to |varsList|
        invariant forall j :: 0 <= j < i ==> KeyOf(varsList[j].View()) != k
      {
        if Key(varsList[i].nameBlob, varsList[i].guidText) == k {
          FirstIndexIs(Contents(), k, i);
          return varsList[i];
        }
      }
      FirstIndexIs(Contents(), k, |varsList|);
      return null;
    }

    /** Removes the first variable with the key and says whether there was one. */
    method DelVariable(k: Key) returns (hit: bool)
      requires Valid()
      modifies this`varsList
      ensures Valid() && hit == (FirstIndex(old(Contents()), k) < |old(varsList)|)
      ensures Contents() == DelFrom(old(Contents()), k)
      ensures forall v :: v in varsList ==> v in old(varsList)
    {
      hide FirstIndex, Views;
      var count := |varsList|;
      if count == 0 {
        return false;
      }
      var i := 0;
      hit := false;
      while i < count
        invariant i <= count == |varsList| && varsList == old(varsList)
        invariant forall j :: 0 <= j < i ==> KeyOf(varsList[j].View()) != k
        invariant !hit
      {
        if Key(varsList[i].nameBlob, varsList[i].guidText) == k {
          hit := true;
          break;
        }
        i := i + 1;
      }
      FirstIndexIs(Contents(), k, i);
      if !hit {
        return false;
      }
      varsList := varsList[..i] + varsList[i + 1..];
      return true;
    }

    /** Updates the variable in place or appends a fresh one; false when the GUID text raises. */
    method AddVariable(e: Edit) returns (ok: bool)
      requires Valid()
      modifies this`varsList, varsList
      ensures Valid() && ok == AddTo(old(Contents()), e).Some?
      ensures Contents() == if ok then AddTo(old(Contents()), e).value else old(Contents())
      ensures forall v :: v in varsList ==> v in old(varsList) || fresh(v)
    {
      hide FirstIndex, Views, Str2Guid, Str2Blob, Lower, Edit.Target, Edit.Time;
      var v := FindVarInList(e.Target());
      ghost var i := FirstIndex(Contents(), e.Target());
      if v != null {
        v.Update(e);
        assert forall j :: 0 <= j < |varsList| && j != i ==> varsList[j] != v;
        assert Contents() == old(Contents())[i := Updated(old(Contents())[i], e)];
        return true;
      }
      var guid := Str2Guid(e.guid);
      if guid.None? {
        return false;
      }
      var created := new VariableTimeBasedAuth.FromEdit(e, guid.value);
      varsList := varsList + [created];
      assert Contents() == old(Contents()) + [Created(e, guid.value)];
      return true;
    }

    /** The image with the region rewritten, or None when a record does not pack. */
    method SyncToFile(image: bytes) returns (r: Option<bytes>)
      ensures var blob := Serialize(Contents());
              r == if blob.None? then None else Some(WriteBack(image, layout, blob.value))
    {
      hide Views, Serialize, Variable.Blob;
      var buffer := image;
      var start := layout.headerLen + STORE_HEADER;
      var size := layout.storeSize - STORE_HEADER;
      buffer := SliceAssign(buffer, start, start + size, Fill(0xff, Max(0, size)));
      var blob := [];
      ghost var all := Contents();
      StartJoin(all);
      for i := 0 to |varsList|
        invariant Serialize(all) == (match Serialize(all[i..]) case None => None case Some(rest) => Some(blob + rest))
      {
        JoinStep(all, i, blob);
        var vbin := varsList[i].Blob();
        if vbin.None? {
          return None;
        }
        var aligned := Align4(|vbin.value|);
        blob := blob + (vbin.value + Fill(0xff, aligned - |vbin.value|));
      }
      EndJoin(all, blob);
      buffer := SliceAssign(buffer, start, start + |blob|, blob);
      return Some(buffer);
    }

    /** One turn of the walk: what to do at `begin`, the record to keep, and where to go on. */
    method ReadRecord(begin: nat) returns (turn: Turn, v: VariableTimeBasedAuth?, next: nat)
      ensures v != null ==> fresh(v)
      ensures match ScanAt(raw, begin)
              case Stop => turn == Leave
              case Raise => turn == Escape
              case Skip(n) => turn == Ignore && next == n
              case Take(w, n) => turn == Keep && next == n && v != null && v.View() == w
    {
      hide ParseHeader, Utf8, FromLE;
      v, next := null, begin;
      var sig := Slice(raw, begin, begin + 2);
      if |sig| != 2 {
        return Escape, v, next;
      }
      if FromLE(sig) != START_ID {
        return Leave, v, next;
      }
      v := new VariableTimeBasedAuth.FromHeader(Slice(raw, begin, begin + HEADER_SIZE));
      if !v.validHeader {
        return Leave, v, next;
      }
      var record := Slice(raw, begin, begin + v.fullSize);
      next := Align4(begin + v.fullSize);
      if v.state != VAR_ADDED {
        return Ignore, v, next;
      }
      var readable := v.ParseBody(record);
      turn := if readable then Keep else Escape;
    }

    /** Walks the raw store and lists the live records; false when an exception escapes. */
    method SyncToVarsList() returns (ok: bool)
      requires varsList == [] && Valid()
      modifies this
      ensures var p := ParseVars(raw, STORE_HEADER, layout.storeSize);
              && ok == p.Some?
              && (ok ==> Valid() && Contents() == p.value.vars && varsSize == p.value.end - STORE_HEADER)
      ensures forall i :: 0 <= i < |varsList| ==> fresh(varsList[i])
    {
      hide Views, ParseVars, ScanAt, Prepend;
      var begin: nat, end := STORE_HEADER, layout.storeSize;
      ghost var whole := ParseVars(raw, STORE_HEADER, end);
      WalkStarts(whole);
      while begin < end
        invariant Valid() && forall i :: 0 <= i < |varsList| ==> fresh(varsList[i])
        invariant whole == Prepend(Contents(), ParseVars(raw, begin, end))
        decreases end - begin
      {
        WalkStep(raw, begin, end, Contents());
        ghost var listed := Contents();
        var turn, v, next := ReadRecord(begin);
        if turn == Escape {
          return false;
        }
        if turn == Leave {
          break;
        }
        begin := next;
        if turn == Keep {
          varsList := varsList + [v];
          assert Contents() == listed + [v.View()];
        }
      }
      WalkEnds(raw, begin, end, Contents());
      varsSize := begin - STORE_HEADER;
      return true;
    }
  }

  // The functions around the store

  /** The volume search, for an image on which it ends. */
  method SearchVolume(image: bytes) returns (s: Search)
    requires SearchRound(image, Looking(0)) != Looking(0)
    ensures s == SearchRound(image, Looking(0)) && !s.Looking?
  {
    s := Looking(0);
    while s.Looking?
      invariant s == Looking(0) || s == SearchRound(image, Looking(0))
      decreases s.Looking?
    {
      s := SearchRound(image, s);
    }
  }

  lemma {:induction false} SearchEnds(image: bytes)
    ensures SearchRound(image, Looking(0))
         == if |image| == 0 then PastEnd
            else match Volume(Slice(image, 0, 128))
                 case None => Looking(0)
                 case Some((volumeSize, headerLen)) => FoundAt(0, volumeSize, headerLen)
  {
  }

  /** The store of an image, null when there is no supported one, or a flag that an exception escaped. */
  method FindStore(image: bytes) returns (store: Store?, escaped: bool)
    requires |image| == 0 || Volume(Slice(image, 0, 128)).Some?
    ensures store != null ==> fresh(store) && store.Valid()
    ensures store != null ==> forall i :: 0 <= i < |store.varsList| ==> fresh(store.varsList[i])
    ensures |image| == 0 ==> store == null && escaped
    ensures |image| > 0 ==>
              match FindVarInfo(image)
              case NotFound => store == null && !escaped
              case Fails => store == null && escaped
              case Found(layout, vars, size) =>
                && !escaped && store != null && store.layout == layout && store.Contents() == vars
                && store.varsSize == size
  {
    hide Volume, StoreHeader, ParseVars, Views, SearchRound;
    SearchEnds(image);
    var found := SearchVolume(image);
    if found.PastEnd? {
      return null, true;
    }
    var raw := Raw(image, found.volumeSize, found.headerLen);
    match StoreHeader(raw) {
      case Unreadable => return null, true;
      case Unsupported => return null, false;
      case Supported(size) =>
        store := new Store(Layout(found.volumeSize, found.headerLen, size), raw);
        var ok := store.SyncToVarsList();
        escaped := !ok;
        if escaped {
          store := null;
        }
    }
  }

  /** Adds what the arguments resolve to; false where the source raises. */
  method AddResolved(store: Store, e: Option<Edit>) returns (ok: bool)
    requires store.Valid()
    modifies store`varsList, store.varsList
    ensures store.Valid()
    ensures var o := Enrolled(old(store.Contents()), e);
            ok == o.Changed? && (ok ==> store.Contents() == o.vars)
  {
    if e.None? {
      return false;
    }
    ok := store.AddVariable(e.value);
  }

  /** Edits the listed variables, then writes the image unless nothing was edited. */
  method Process(store: Store, a: Args, image: bytes) returns (r: RunResult)
    requires store.Valid() && CheckArgs(a)
    modifies store, store.varsList
    ensures r == Finish(image, store.layout, ProcessVar(old(store.Contents()), a))
  {
    hide Resolve, AddTo, DelFrom, FirstIndex, Serialize, WriteBack, Views, CheckArgs, Args.Target;
    if a.attributes.Malformed? {
      return Done(false, image);
    }
    ghost var before := store.Contents();
    assert a.operation != DEL ==> a.dataFile.Some? by {
      if a.operation != DEL {
        CheckedHasFile(a);
      }
    }
    match a.operation {
      case ADD =>
        var ok := AddResolved(store, Resolve(a, false));
        if !ok {
          return Done(false, image);
        }
      case APPEND =>
        var ok := AddResolved(store, Resolve(a, true));
        if !ok {
          return Done(false, image);
        }
      case DEL =>
        var hit := store.DelVariable(a.Target());
        if !hit {
          return Done(true, image);
        }
      case UPDATE =>
        var v := store.FindVarInList(a.Target());
        if v == null {
          return Done(true, image);
        }
        var hit := store.DelVariable(a.Target());
        assert forall i :: 0 <= i < |store.varsList| ==> store.varsList[i] in old(store.varsList);
        var ok := AddResolved(store, Resolve(a, true));
        if !ok {
          return Done(false, image);
        }
    }
    var written := store.SyncToFile(image);
    r := if written.None? then Done(false, image) else Done(true, written.value);
  }

  lemma {:induction false} CheckedHasFile(a: Args)
    requires CheckArgs(a) && a.operation != DEL
    ensures a.dataFile.Some?
  {
    hide IsGuid, IsKeyVariable;
  }

  /** One run of the tool. */
  method VarEnroll(image: bytes, a: Args) returns (r: RunResult)
    requires !Run(image, a).Hangs?
    ensures r == Run(image, a)
  {
    hide Volume, FindVarInfo, ProcessVar, Finish, CheckArgs, Views;
    var store, escaped := FindStore(image);
    if escaped {
      return Escapes;
    }
    if store == null || !CheckArgs(a) {
      return Done(false, image);
    }
    r := Process(store, a, image);
  }

  /** Enrolls one optional key into the temporary image. */
  method EnrollIfGiven(tmp: bytes, name: bytes, s: Option<Source>, ghost rest: seq<Args>) returns (r: RunResult)
    requires !StopAtFirst(tmp, OptionalRun(name, s) + rest).Hangs?
    ensures StopAtFirst(tmp, OptionalRun(name, s) + rest)
         == if r.Done? && r.ok then StopAtFirst(r.image, rest) else r
  {
    hide Run, StopAtFirst;
    if s.None? {
      assert [] + rest == rest;
      return Done(true, tmp);
    }
    NextRun(tmp, AddArgs(name, s.value, Absent), rest);
    r := VarEnroll(tmp, AddArgs(name, s.value, Absent));
  }

  /** The secure-boot run over a temporary copy: the image for the output file, or why there is none. */
  method DoVarEnroll(input: bytes, c: Config) returns (r: RunResult)
    requires !StopAtFirst(input, SecureBootRuns(c)).Hangs?
    ensures r == StopAtFirst(input, SecureBootRuns(c))
  {
    hide Run, StopAtFirst, AddArgs, OptionalRun;
    var last := AddArgs(SECURE_BOOT_ENABLE, c.enable, Given(0x3));
    ghost var afterDb := OptionalRun(DBX, c.dbx) + [last];
    ghost var afterKek := OptionalRun(DB, c.db) + afterDb;
    ghost var afterPk := OptionalRun(KEK, c.kek) + afterKek;
    assert SecureBootRuns(c) == OptionalRun(PK, c.pk) + afterPk;
    r := EnrollIfGiven(input, PK, c.pk, afterPk);
    if !r.Done? || !r.ok {
      return;
    }
    r := EnrollIfGiven(r.image, KEK, c.kek, afterKek);
    if !r.Done? || !r.ok {
      return;
    }
    r := EnrollIfGiven(r.image, DB, c.db, afterDb);
    if !r.Done? || !r.ok {
      return;
    }
    r := EnrollIfGiven(r.image, DBX, c.dbx, [last]);
    if !r.Done? || !r.ok {
      return;
    }
    var tmp := r.image;
    LastRun(tmp, last);
    r := VarEnroll(tmp, last);
  }

  lemma {:induction false} NextRun(image: bytes, a: Args, rest: seq<Args>)
    ensures StopAtFirst(image, [a] + rest)
         == match Run(image, a) case Done(true, next) => StopAtFirst(next, rest) case other => other
  {
    hide Run;
    assert ([a] + rest)[1..] == rest;
  }

  lemma {:induction false} LastRun(image: bytes, a: Args)
    ensures StopAtFirst(image, [a]) == Run(image, a)
  {
    hide Run;
    assert [a][1..] == [];
    assert forall i: bytes :: StopAtFirst(i, []) == Done(true, i);
  }
}
