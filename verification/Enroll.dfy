/** One run of the tool over an image, and whole sequences of runs. */
module Enroll {
  import opened Bytes
  import opened Struct
  import opened Guid
  import opened Variables
  import opened StoreImage
  import opened VarList
  import opened Signatures

  const EFI_GLOBAL_VARIABLE := "8BE4DF61" + "-" + "93CA" + "-" + "11d2" + "-" + "AA0D" + "-" + "00E098032B8C"
  const EFI_IMAGE_SECURITY_DATABASE_GUID :=
    "d719b2cb" + "-" + "3d3a" + "-" + "4596" + "-" + "a3bc" + "-" + "dad00e67656f"
  const PK: bytes := [0x50, 0x4b]
  const KEK: bytes := [0x4b, 0x45, 0x4b]
  const DB: bytes := [0x64, 0x62]
  const DBX: bytes := [0x64, 0x62, 0x78]
  const LOWER_PK: bytes := [0x70, 0x6b]
  const LOWER_KEK: bytes := [0x6b, 0x65, 0x6b]
  /** Non-volatile, boot-service, runtime and time-based authenticated write access. */
  const KEY_ATTRIBUTES := 0x1 + 0x2 + 0x4 + 0x20

  function LowerName(name: bytes): bytes
  {
    seq(|name|, i requires 0 <= i < |name| => if 0x41 <= name[i] <= 0x5a then name[i] + 0x20 else name[i])
  }

  /** The variables whose vendor GUID is fixed, so that `-g` means the signature owner. */
  predicate IsKeyVariable(name: bytes)
  {
    LowerName(name) in {LOWER_PK, LOWER_KEK, DB, DBX}
  }

  datatype Operation = ADD | DEL | APPEND | UPDATE

  /** The attributes argument: missing or empty, not a hexadecimal number, or a number. */
  datatype Attributes = Absent | Malformed | Given(n: int)

  /** The arguments of a run. `dataFile` is the content of the data file, None if there is no such
      file; `now` is the clock; the output file is the input file. */
  datatype Args = Args(operation: Operation, name: bytes, guid: string, attributes: Attributes,
                       dataFile: Option<bytes>, now: EfiTime)
  {
    function Target(): Key {
      Key(Str2Blob(name), Lower(guid))
    }
  }

  predicate CheckArgs(a: Args)
  {
    && IsGuid(a.guid)
    && (a.operation == DEL || (a.dataFile.Some? && (IsKeyVariable(a.name) || a.attributes.Given?)))
  }

  function EnrollX509(name: bytes, vendor: string, a: Args, append: bool): Option<Edit>
    requires a.dataFile.Some?
  {
    var owner :- Str2Guid(a.guid);
    var blob :- ListBlob(X509(owner, a.dataFile.value));
    Some(Edit(name, vendor, KEY_ATTRIBUTES, None, a.now, blob, X509(owner, a.dataFile.value).ListSize(), append))
  }

  /** The size of the authentication header in front of a dbx payload. */
  function AuthSize(data: bytes): nat
    requires |data| >= 20
  {
    FromLE(data[16..20]) + 16
  }

  /** The declared size is computed from the header, the bytes are sliced: they can disagree. */
  function EnrollDbx(a: Args, append: bool): Option<Edit>
    requires a.dataFile.Some?
  {
    var data := a.dataFile.value;
    if |data| < 20 then None
    else
      Some(Edit(DBX, EFI_IMAGE_SECURITY_DATABASE_GUID, KEY_ATTRIBUTES, Some(data[..16]), a.now,
                Slice(data, AuthSize(data), |data|), |data| - AuthSize(data), append))
  }

  /** Dispatch on the name; None where the source raises. */
  function Resolve(a: Args, append: bool): Option<Edit>
    requires a.dataFile.Some?
  {
    var lower := LowerName(a.name);
    if lower == LOWER_PK then
      if append then None else EnrollX509(PK, EFI_GLOBAL_VARIABLE, a, append)
    else if lower == LOWER_KEK then EnrollX509(KEK, EFI_GLOBAL_VARIABLE, a, append)
    else if lower == DB then EnrollX509(DB, EFI_IMAGE_SECURITY_DATABASE_GUID, a, append)
    else if lower == DBX then EnrollDbx(a, append)
    else
      var attributes := if a.attributes.Given? then a.attributes.n else 0;
      Some(Edit(a.name, a.guid, attributes, None, a.now, a.dataFile.value, |a.dataFile.value|, append))
  }

  datatype Outcome = Raised | Refused | Changed(vars: seq<Variable>)

  /** The edit a run makes to the list, before anything is written. */
  function ProcessVar(vars: seq<Variable>, a: Args): Outcome
    requires CheckArgs(a)
  {
    if a.attributes.Malformed? then Raised
    else
      match a.operation
      case ADD => Enrolled(vars, Resolve(a, false))
      case APPEND => Enrolled(vars, Resolve(a, true))
      case DEL =>
        if FirstIndex(vars, a.Target()) < |vars| then Changed(DelFrom(vars, a.Target())) else Refused
      case UPDATE =>
        if FirstIndex(vars, a.Target()) < |vars| then
          Enrolled(DelFrom(vars, a.Target()), Resolve(a, true))
        else Refused
  }

  function Enrolled(vars: seq<Variable>, e: Option<Edit>): Outcome
  {
    if e.None? then Raised
    else
      match AddTo(vars, e.value)
      case None => Raised
      case Some(r) => Changed(r)
  }

  /** Hangs: the volume search never ends. Escapes: an exception leaves the run. Otherwise the
      reported success and the image left in the file. */
  datatype RunResult = Hangs | Escapes | Done(ok: bool, image: bytes)

  function Run(image: bytes, a: Args): RunResult
  {
    if |image| == 0 then Escapes
    else if Volume(Slice(image, 0, 128)).None? then Hangs
    else
      match FindVarInfo(image)
      case NotFound => Done(false, image)
      case Fails => Escapes
      case Found(layout, vars, _) =>
        if !CheckArgs(a) then Done(false, image)
        else Finish(image, layout, ProcessVar(vars, a))
  }

  /** Success is reported unless something raised, even if nothing was edited. A record that does not
      pack raises before the file is opened. */
  function Finish(image: bytes, layout: Layout, o: Outcome): RunResult
  {
    match o
    case Raised => Done(false, image)
    case Refused => Done(true, image)
    case Changed(r) =>
      match Serialize(r)
      case None => Done(false, image)
      case Some(blob) => Done(true, WriteBack(image, layout, blob))
  }

  /** A run hangs if and only if its volume search is still looking after every number of rounds, which
      is so when the image is not empty and holds no valid NVRAM volume at its very start. */
  lemma {:induction false} RunHangs(image: bytes, a: Args)
    ensures Run(image, a).Hangs? <==> forall k: nat :: SearchRounds(image, k).Looking?
    ensures Run(image, a).Hangs? <==> |image| > 0 && Volume(Slice(image, 0, 128)).None?
  {
    hide Volume, FindVarInfo, CheckArgs, ProcessVar, Serialize, WriteBack;
    SearchSettles(image, 1);
    forall k: nat | Run(image, a).Hangs?
      ensures SearchRounds(image, k).Looking?
    {
      if k > 0 {
        SearchSettles(image, k);
      }
    }
  }

  // The same run on the ordered map

  predicate Packable(attributes: int)
  {
    0 <= attributes < Limit(4)
  }

  /** The size the edited record declares; it can be negative for a dbx file. */
  function DeclaredSize(m: OrderedMap, e: Edit): int
  {
    (if e.append && e.Target() in m.at then |m.at[e.Target()].data| else 0) + e.size
  }

  /** The map after an edit; an edit whose record does not pack is refused. */
  function MapEnrolled(before: OrderedMap, m: OrderedMap, e: Option<Edit>): (bool, OrderedMap)
  {
    if e.None? then (false, before)
    else
      match MapAdd(m, e.value)
      case None => (false, before)
      case Some(r) =>
        if Packable(e.value.attributes) && Packable(DeclaredSize(m, e.value)) then (true, r) else (false, before)
  }

  /** What a run reports and what it makes of the map. */
  function MapRun(m: OrderedMap, a: Args): (bool, OrderedMap)
  {
    if !CheckArgs(a) || a.attributes.Malformed? then (false, m)
    else
      match a.operation
      case ADD => MapEnrolled(m, m, Resolve(a, false))
      case APPEND => MapEnrolled(m, m, Resolve(a, true))
      case DEL => (true, if a.Target() in m.at then m.Remove(a.Target()) else m)
      case UPDATE => if a.Target() in m.at then MapEnrolled(m, m.Remove(a.Target()), Resolve(a, true)) else (true, m)
  }

  /** An ordinary name is ASCII, and a dbx file holds the whole authentication header it announces. */
  predicate Plain(a: Args)
  {
    a.operation == DEL || a.dataFile.None?
    || (if LowerName(a.name) == DBX then |a.dataFile.value| >= 20 ==> AuthSize(a.dataFile.value) <= |a.dataFile.value|
        else IsKeyVariable(a.name) || Ascii(a.name))
  }

  /** Whether the run stores something: its edit is neither refused nor skipped. */
  predicate Stores(m: OrderedMap, a: Args)
  {
    a.operation != DEL && (a.operation == UPDATE ==> a.Target() in m.at) && MapRun(m, a).0
  }

  /** A run whose effect the next run can read back. */
  predicate Safe(m: OrderedMap, a: Args)
  {
    Stores(m, a) ==> Plain(a)
  }

  /** An edit that keeps sizes and contents together and leaves a readable name. */
  predicate SafeEdit(e: Edit)
  {
    e.size == |e.buffer| && Ascii(e.name)
  }

  /** What arguments resolve to: sizes disagree only for a dbx file cut short, which has no payload. */
  predicate Resolved(e: Edit)
  {
    e.size == |e.buffer| || (e.size < 0 && e.buffer == [] && Ascii(e.name))
  }

  /** The edit keeps sizes together and its name readable exactly when the arguments are plain. */
  lemma {:induction false} SafeResolves(a: Args, append: bool)
    requires CheckArgs(a) && a.operation != DEL
    requires Resolve(a, append).Some?
    ensures Resolved(Resolve(a, append).value)
    ensures SafeEdit(Resolve(a, append).value) <==> Plain(a)
  {
    hide ListBlob, Str2Guid, IsGuid, FromLE;
    var lower := LowerName(a.name);
    if lower in {LOWER_PK, LOWER_KEK, DB} {
      var owner := Str2Guid(a.guid).value;
      ListBlobReads(X509(owner, a.dataFile.value), []);
    }
  }

  lemma {:induction false} VendorGuids()
    ensures IsGuid(EFI_GLOBAL_VARIABLE) && IsGuid(EFI_IMAGE_SECURITY_DATABASE_GUID)
  {
    JoinedIsGuid("8BE4DF61", "93CA", "11d2", "AA0D", "00E098032B8C");
    JoinedIsGuid("d719b2cb", "3d3a", "4596", "a3bc", "dad00e67656f");
  }

  // An edit keeps the list live

  lemma {:induction false} UpdatedPrintable(v: Variable, e: Edit)
    requires v.Printable() && e.size == |e.buffer| && Packable(e.attributes)
    requires |Updated(v, e).data| < Limit(4)
    ensures Updated(v, e).Printable()
  {
    hide Guid2Str, Limit;
    var u := Updated(v, e);
    forall i | 0 <= i < |VAR_CODES|
      ensures Struct.Fits(VAR_CODES[i], u.HeaderVals()[i])
    {
      assert Struct.Fits(VAR_CODES[i], v.HeaderVals()[i]);
    }
  }

  lemma {:induction false} CreatedPrintable(e: Edit)
    requires IsGuid(e.guid) && e.size == |e.buffer| && Packable(e.attributes)
    requires |e.buffer| < Limit(4) && |Str2Blob(e.name)| < Limit(4)
    ensures Created(e, Str2Guid(e.guid).value).Printable()
  {
    Limits();
    TextRoundTrip(e.guid);
    hide Guid2Str, Limit, IsGuid, Str2Blob, Lower;
    var u := Created(e, Str2Guid(e.guid).value);
    forall i | 0 <= i < |VAR_CODES|
      ensures Struct.Fits(VAR_CODES[i], u.HeaderVals()[i])
    {
    }
  }

  lemma {:induction false} TotalSizeAt(vars: seq<Variable>, i: nat)
    requires i < |vars|
    ensures HEADER_SIZE + |vars[i].nameBlob| + |vars[i].data| <= TotalSize(vars)
  {
    if i > 0 {
      TotalSizeAt(vars[1..], i - 1);
    }
  }

  /** After an edit of live records that fits 32-bit sizes, every record prints, and every name
      decodes exactly when the edited name is ASCII or was there before. */
  lemma {:induction false} AddPrintable(vars: seq<Variable>, e: Edit)
    requires AllLive(vars) && AddTo(vars, e).Some? && e.size == |e.buffer| && Packable(e.attributes)
    requires TotalSize(AddTo(vars, e).value) < Limit(4)
    ensures var r := AddTo(vars, e).value;
            AllPrintable(r) && (AllReadable(r) <==> Ascii(e.name) || FirstIndex(vars, e.Target()) < |vars|)
  {
    hide Variable.Printable, TotalSize, Utf8, FirstIndex, Str2Guid, Lower, Limit, Str2Blob;
    var r, i := AddTo(vars, e).value, FirstIndex(vars, e.Target());
    TotalSizeAt(r, i);
    NameReadableIffAscii(e.name);
    if i < |vars| {
      UpdatedPrintable(vars[i], e);
    } else {
      CreatedPrintable(e);
      assert r[i].nameBlob == Str2Blob(e.name);
    }
  }

  lemma {:induction false} SerializeRaises(vars: seq<Variable>, i: nat)
    requires i < |vars| && !(Packable(vars[i].attributes) && Packable(vars[i].dataSize))
    ensures Serialize(vars).None?
  {
    hide Pack;
    if i > 0 {
      SerializeRaises(vars[1..], i - 1);
    } else {
      assert VAR_CODES[3] == U(4) && vars[0].HeaderVals()[3] == Num(vars[0].attributes);
      assert VAR_CODES[8] == U(4) && vars[0].HeaderVals()[8] == Num(vars[0].dataSize);
      PackRaises(VAR_CODES, vars[0].HeaderVals(), if Packable(vars[0].attributes) then 8 else 3);
    }
  }

  // One run refines one map step

  /** The bytes a run may touch lie in the region. */
  ghost predicate OutsideKept(image: bytes, other: bytes, layout: Layout)
  {
    && |other| == |image|
    && (forall i :: 0 <= i < |image| && !(layout.Start() <= i < layout.headerLen + layout.storeSize) ==>
          other[i] == image[i])
  }

  /** A well-formed image with unique keys, its map, and its layout. */
  ghost predicate Holds(image: bytes, layout: Layout, m: OrderedMap)
  {
    WellFormed(image) && Unique(VarsOf(image)) && Abs(VarsOf(image)) == m && LayoutOf(image) == layout
  }

  lemma {:induction false} WriteStep(image: bytes, vars: seq<Variable>)
    requires WellFormed(image) && AllLive(vars) && Unique(vars)
    requires TotalSize(vars) <= LayoutOf(image).Capacity()
    ensures Serialize(vars).Some?
    ensures var r := WriteBack(image, LayoutOf(image), Serialize(vars).value);
            WellFormed(r) && VarsOf(r) == vars && LayoutOf(r) == LayoutOf(image)
            && OutsideKept(image, r, LayoutOf(image))
  {
    hide Volume, StoreHeader, Serialize, ParseVars, InStore, WriteBack, RecordsInside, Variable.Live, Unique;
    var layout := LayoutOf(image);
    assert AllPrintable(vars) && AllReadable(vars) by {
      LiveParts(vars);
    }
    SerializeLive(vars);
    ImageRoundTrip(image, layout, vars);
    WriteKept(image, layout, Serialize(vars).value);
  }

  /** Records that fit leave every byte outside the region as it was. */
  lemma {:induction false} WriteKept(image: bytes, layout: Layout, blob: bytes)
    requires RegionInside(image, layout) && |blob| <= layout.Capacity()
    ensures OutsideKept(image, WriteBack(image, layout, blob), layout)
  {
    hide WriteBack;
    SyncEffect(image, layout, blob);
    var r := WriteBack(image, layout, blob);
    assert forall i :: 0 <= i < layout.Start() ==> r[i] == r[..layout.Start()][i] == image[..layout.Start()][i];
  }

  lemma {:induction false} LiveParts(vars: seq<Variable>)
    ensures AllLive(vars) <==> AllPrintable(vars) && AllReadable(vars)
  {
    hide Variable.Printable, Utf8;
    if AllPrintable(vars) && AllReadable(vars) {
      assert forall i :: 0 <= i < |vars| ==> vars[i].Printable() && Utf8(vars[i].nameBlob);
    }
    if AllLive(vars) {
      assert forall i :: 0 <= i < |vars| ==> vars[i].Live();
    }
  }
}
