/** What whole sequences of runs do to an image: they act as an ordered map. */
module Runs {
  import opened Bytes
  import opened Struct
  import opened Guid
  import opened Variables
  import opened StoreImage
  import opened VarList
  import opened Enroll
  import opened Misread

  lemma {:induction false} EmptyChange(image: bytes, layout: Layout)
    ensures OutsideKept(image, image, layout)
  {
  }

  lemma {:induction false} StoreSizeFits(image: bytes)
    requires WellFormed(image)
    ensures LayoutOf(image).storeSize < Limit(4)
  {
    hide Volume, Limit, InStore, ParseVars;
  }

  lemma {:induction false} WellFormedPlaced(image: bytes)
    requires WellFormed(image)
    ensures Placed(image, LayoutOf(image)) && RegionInside(image, LayoutOf(image)) && Volume(Slice(image, 0, 128)).Some?
    ensures FindVarInfo(image) == Found(LayoutOf(image), VarsOf(image), FindVarInfo(image).varsSize)
  {
    hide Volume, StoreHeader, ParseVars, InStore;
  }

  lemma {:induction false} PlacedVolume(image: bytes, layout: Layout)
    requires Placed(image, layout)
    ensures Volume(Slice(image, 0, 128)).Some?
  {
    hide Volume, StoreHeader;
  }

  /** A list that stands for `m` and fits is written back as an image that stands for `m`. */
  lemma {:induction false} WriteHolds(image: bytes, layout: Layout, r: seq<Variable>, m: OrderedMap)
    requires WellFormed(image) && LayoutOf(image) == layout
    requires AllLive(r) && Unique(r) && Abs(r) == m && m.Size() <= layout.Capacity()
    ensures var w := Finish(image, layout, Changed(r));
            w.Done? && w.ok && Holds(w.image, layout, m) && OutsideKept(image, w.image, layout)
  {
    hide WellFormed, Unique, Abs, Serialize, WriteBack, OutsideKept, AllLive, OrderedMap.Size, TotalSize, FindVarInfo;
    AbsSize(r);
    WriteStep(image, r);
  }

  lemma {:induction false} AddLive(vars: seq<Variable>, e: Edit, capacity: int)
    requires AllLive(vars) && Unique(vars) && SafeEdit(e) && Packable(e.attributes) && AddTo(vars, e).Some?
    requires Abs(AddTo(vars, e).value).Size() <= capacity < Limit(4)
    ensures AllLive(AddTo(vars, e).value)
  {
    hide Unique, Abs, AddTo, AllLive, AllPrintable, AllReadable, OrderedMap.Size, TotalSize, Limit, Ascii, FirstIndex;
    AddRefines(vars, e);
    AbsSize(AddTo(vars, e).value);
    AddPrintable(vars, e);
    LiveParts(AddTo(vars, e).value);
  }

  /** Writing an edited list matches the map step that made it, if and only if the edit is refused or
      keeps sizes together and names readable. */
  lemma {:induction false} EnrollStep(image: bytes, layout: Layout, before: OrderedMap,
                                      vars: seq<Variable>, e: Option<Edit>)
    requires Holds(image, layout, before)
    requires AllLive(vars) && Unique(vars)
    requires e.Some? ==> Resolved(e.value)
    requires MapEnrolled(before, Abs(vars), e).1.Size() <= layout.Capacity()
    ensures var r, m := Finish(image, layout, Enrolled(vars, e)), MapEnrolled(before, Abs(vars), e);
            && r.Done? && r.ok == m.0 && OutsideKept(image, r.image, layout)
            && (Holds(r.image, layout, m.1) <==> (m.0 ==> SafeEdit(e.value)))
  {
    hide WellFormed, Unique, Abs, AddTo, MapAdd, Serialize, WriteBack, OutsideKept, AllLive, OrderedMap.Size,
         Limit, SafeEdit, FindVarInfo, Edit.Target, Packable, DeclaredSize, Resolved;
    EmptyChange(image, layout);
    if e.Some? {
      AddRefines(vars, e.value);
      if AddTo(vars, e.value).Some? {
        EditedSize(vars, e.value);
        if Packable(e.value.attributes) && Packable(DeclaredSize(Abs(vars), e.value)) {
          AcceptedEdit(image, layout, vars, e.value);
        } else {
          SerializeRaises(AddTo(vars, e.value).value, FirstIndex(vars, e.value.Target()));
        }
      }
    }
  }

  lemma {:induction false} AcceptedEdit(image: bytes, layout: Layout, vars: seq<Variable>, e: Edit)
    requires WellFormed(image) && LayoutOf(image) == layout && AllLive(vars) && Unique(vars)
    requires Resolved(e) && AddTo(vars, e).Some?
    requires Packable(e.attributes) && Packable(DeclaredSize(Abs(vars), e))
    requires Abs(AddTo(vars, e).value).Size() <= layout.Capacity()
    ensures var r := AddTo(vars, e).value;
            && Serialize(r).Some?
            && OutsideKept(image, WriteBack(image, layout, Serialize(r).value), layout)
            && (Holds(WriteBack(image, layout, Serialize(r).value), layout, Abs(r)) <==> SafeEdit(e))
  {
    hide WellFormed, Holds, Unique, Abs, AddTo, Serialize, WriteBack, OutsideKept, AllLive, OrderedMap.Size, Limit,
         Edit.Target, Packable, DeclaredSize, Ascii, FindVarInfo, Finish, MapAdd;
    if SafeEdit(e) {
      ReadableEdit(image, layout, vars, e);
    } else if e.size == |e.buffer| {
      UnreadableEdit(image, layout, vars, e);
    } else {
      OverlongEdit(image, layout, vars, e);
    }
  }

  lemma {:induction false} ReadableEdit(image: bytes, layout: Layout, vars: seq<Variable>, e: Edit)
    requires WellFormed(image) && LayoutOf(image) == layout && AllLive(vars) && Unique(vars)
    requires SafeEdit(e) && AddTo(vars, e).Some? && Packable(e.attributes)
    requires Abs(AddTo(vars, e).value).Size() <= layout.Capacity()
    ensures var r := AddTo(vars, e).value;
            && Serialize(r).Some?
            && OutsideKept(image, WriteBack(image, layout, Serialize(r).value), layout)
            && Holds(WriteBack(image, layout, Serialize(r).value), layout, Abs(r))
  {
    hide WellFormed, Holds, Unique, Abs, AddTo, MapAdd, Serialize, WriteBack, OutsideKept, AllLive, OrderedMap.Size,
         Limit, Edit.Target, Packable, SafeEdit, FindVarInfo;
    StoreSizeFits(image);
    AddLive(vars, e, layout.Capacity());
    AddRefines(vars, e);
    WriteHolds(image, layout, AddTo(vars, e).value, Abs(AddTo(vars, e).value));
  }

  lemma {:induction false} UnreadableEdit(image: bytes, layout: Layout, vars: seq<Variable>, e: Edit)
    requires WellFormed(image) && LayoutOf(image) == layout && AllLive(vars) && Unique(vars)
    requires e.size == |e.buffer| && !Ascii(e.name) && AddTo(vars, e).Some? && Packable(e.attributes)
    requires Abs(AddTo(vars, e).value).Size() <= layout.Capacity()
    ensures var r := AddTo(vars, e).value;
            && Serialize(r).Some?
            && OutsideKept(image, WriteBack(image, layout, Serialize(r).value), layout)
            && !Holds(WriteBack(image, layout, Serialize(r).value), layout, Abs(r))
  {
    hide WellFormed, Holds, Unique, Abs, AddTo, Serialize, WriteBack, OutsideKept, AllLive, OrderedMap.Size, TotalSize,
         Limit, FindVarInfo, Edit.Target, Packable, Placed, Ascii;
    StoreSizeFits(image);
    WellFormedPlaced(image);
    UnreadableAbsent(vars, e);
    AddedWritten(image, layout, vars, e);
    var r := AddTo(vars, e).value;
    var w := WriteBack(image, layout, Serialize(r).value);
    PlacedVolume(w, layout);
    WriteKept(image, layout, Serialize(r).value);
    Unfound(w, layout, Abs(r));
  }

  lemma {:induction false} OverlongEdit(image: bytes, layout: Layout, vars: seq<Variable>, e: Edit)
    requires WellFormed(image) && LayoutOf(image) == layout && AllLive(vars) && Unique(vars)
    requires e.size < 0 && e.buffer == [] && AddTo(vars, e).Some?
    requires Packable(e.attributes) && Packable(DeclaredSize(Abs(vars), e))
    requires Abs(AddTo(vars, e).value).Size() <= layout.Capacity()
    ensures var r := AddTo(vars, e).value;
            && Serialize(r).Some?
            && OutsideKept(image, WriteBack(image, layout, Serialize(r).value), layout)
            && !Holds(WriteBack(image, layout, Serialize(r).value), layout, Abs(r))
  {
    hide WellFormed, Holds, Unique, Abs, AddTo, Serialize, WriteBack, OutsideKept, AllLive, OrderedMap.Size, TotalSize,
         Limit, FindVarInfo, Edit.Target, Packable, Placed, LiveUpTo, ReadsCut;
    WellFormedPlaced(image);
    ShortEdit(vars, e);
    var r, i := AddTo(vars, e).value, FirstIndex(vars, e.Target());
    AddRefines(vars, e);
    AbsSize(r);
    OverlongWritten(image, layout, r, i);
    WriteKept(image, layout, Serialize(r).value);
    OverlongLost(image, layout, r, i);
  }

  lemma {:induction false} Unfound(image: bytes, layout: Layout, m: OrderedMap)
    requires Volume(Slice(image, 0, 128)).Some? && FindVarInfo(image).Fails?
    ensures !Holds(image, layout, m)
  {
    hide FindVarInfo, Volume, Abs, Unique;
  }

  lemma {:induction false} DelLive(vars: seq<Variable>, k: Key)
    requires AllLive(vars)
    ensures AllLive(DelFrom(vars, k))
  {
    hide Variable.Live;
    var i, r := FirstIndex(vars, k), DelFrom(vars, k);
    forall j | 0 <= j < |r|
      ensures r[j].Live()
    {
      if i < |vars| {
        assert r[j] == vars[if j < i then j else j + 1];
      }
    }
  }

  lemma {:induction false} DeleteStep(image: bytes, layout: Layout, m: OrderedMap, k: Key)
    requires Holds(image, layout, m) && AllLive(VarsOf(image)) && FirstIndex(VarsOf(image), k) < |VarsOf(image)|
    requires m.Remove(k).Size() <= layout.Capacity()
    ensures var r := Finish(image, layout, Changed(DelFrom(VarsOf(image), k)));
            && r.Done? && r.ok && Holds(r.image, layout, m.Remove(k))
            && OutsideKept(image, r.image, layout)
  {
    hide WellFormed, Unique, Abs, Finish, OutsideKept, AllLive, OrderedMap.Size, OrderedMap.Remove, DelFrom, FirstIndex;
    DelRefines(VarsOf(image), k);
    DelLive(VarsOf(image), k);
    WriteHolds(image, layout, DelFrom(VarsOf(image), k), m.Remove(k));
  }

  /** One run over a well-formed image with unique keys: the report is the map's, no byte outside the
      region changes, and the result stands for the map after the step if and only if the run is safe. */
  lemma {:induction false} RunRefines(image: bytes, layout: Layout, m: OrderedMap, a: Args)
    requires Holds(image, layout, m)
    requires MapRun(m, a).1.Size() <= layout.Capacity()
    ensures var r := Run(image, a);
            && r.Done? && r.ok == MapRun(m, a).0 && OutsideKept(image, r.image, layout)
            && (Holds(r.image, layout, MapRun(m, a).1) <==> Safe(m, a))
  {
    hide Volume, StoreHeader, ParseVars, Placed, RecordsInside, Unique, Abs, Serialize, WriteBack, OutsideKept,
         AllLive, OrderedMap.Size, TotalSize, OrderedMap.Remove, DelFrom, FirstIndex, Resolve, MapEnrolled, Finish,
         Enrolled, IsGuid, Plain;
    EmptyChange(image, layout);
    var vars := VarsOf(image);
    WellFormedFits(image);
    NotEmpty(image);
    assert Run(image, a) == if !CheckArgs(a) then Done(false, image) else Finish(image, layout, ProcessVar(vars, a));
    if CheckArgs(a) && !a.attributes.Malformed? {
      RunRefinesChecked(image, layout, m, a);
    } else if CheckArgs(a) {
      RejectedRun(image, layout, a);
    }
  }

  lemma {:induction false} NotEmpty(image: bytes)
    requires WellFormed(image)
    ensures |image| > 0
  {
    hide Volume, StoreHeader, ParseVars, InStore;
  }

  lemma {:induction false} RejectedRun(image: bytes, layout: Layout, a: Args)
    requires WellFormed(image) && CheckArgs(a) && a.attributes.Malformed?
    ensures Finish(image, layout, ProcessVar(VarsOf(image), a)) == Done(false, image)
  {
  }

  lemma {:induction false} RunRefinesChecked(image: bytes, layout: Layout, m: OrderedMap, a: Args)
    requires Holds(image, layout, m) && CheckArgs(a) && !a.attributes.Malformed?
    requires AllLive(VarsOf(image))
    requires MapRun(m, a).1.Size() <= layout.Capacity()
    ensures var r := Finish(image, layout, ProcessVar(VarsOf(image), a));
            && r.Done? && r.ok == MapRun(m, a).0 && OutsideKept(image, r.image, layout)
            && (Holds(r.image, layout, MapRun(m, a).1) <==> Safe(m, a))
  {
    hide WellFormed, Unique, Abs, Serialize, WriteBack, OutsideKept,
         AllLive, OrderedMap.Size, TotalSize, OrderedMap.Remove, DelFrom, FirstIndex, Resolve, MapEnrolled,
         Enrolled, IsGuid, Plain, SafeEdit, Resolved;
    EmptyChange(image, layout);
    var vars := VarsOf(image);
    AbsKnows(vars, a.Target());
    match a.operation {
      case ADD =>
        EnrollArgs(image, layout, m, vars, a, false);
      case APPEND =>
        EnrollArgs(image, layout, m, vars, a, true);
      case DEL =>
        if a.Target() in m.at {
          DeleteStep(image, layout, m, a.Target());
        }
      case UPDATE =>
        if a.Target() in m.at {
          DelRefines(vars, a.Target());
          DelLive(vars, a.Target());
          EnrollArgs(image, layout, m, DelFrom(vars, a.Target()), a, true);
        }
    }
  }

  lemma {:induction false} EnrollArgs(image: bytes, layout: Layout, before: OrderedMap,
                                      vars: seq<Variable>, a: Args, append: bool)
    requires Holds(image, layout, before) && AllLive(vars) && Unique(vars)
    requires CheckArgs(a) && a.operation != DEL
    requires MapEnrolled(before, Abs(vars), Resolve(a, append)).1.Size() <= layout.Capacity()
    ensures var e := Resolve(a, append);
            var r, m := Finish(image, layout, Enrolled(vars, e)), MapEnrolled(before, Abs(vars), e);
            && r.Done? && r.ok == m.0 && OutsideKept(image, r.image, layout)
            && (Holds(r.image, layout, m.1) <==> (m.0 ==> Plain(a)))
  {
    hide Holds, Unique, Abs, Finish, Enrolled, OutsideKept, AllLive, OrderedMap.Size, Resolve, IsGuid, Plain, SafeEdit,
         Resolved, MapAdd, Packable, DeclaredSize;
    if Resolve(a, append).Some? {
      SafeResolves(a, append);
    }
    EnrollStep(image, layout, before, vars, Resolve(a, append));
  }

  // Sequences of runs

  /** Each run reads the image the one before left; `ok` says that all reported success. */
  function RunAll(image: bytes, runs: seq<Args>): RunResult
    decreases |runs|
  {
    if |runs| == 0 then Done(true, image)
    else
      match Run(image, runs[0])
      case Done(ok, next) =>
        (match RunAll(next, runs[1..])
         case Done(rest, last) => Done(ok && rest, last)
         case other => other)
      case other => other
  }

  function MapRunAll(m: OrderedMap, runs: seq<Args>): (bool, OrderedMap)
    decreases |runs|
  {
    if |runs| == 0 then (true, m)
    else
      var (ok, next) := MapRun(m, runs[0]);
      var (rest, last) := MapRunAll(next, runs[1..]);
      (ok && rest, last)
  }

  /** Every map on the way fits the region. */
  predicate FitsThroughout(m: OrderedMap, runs: seq<Args>, capacity: int)
    decreases |runs|
  {
    |runs| > 0 ==>
      && MapRun(m, runs[0]).1.Size() <= capacity
      && FitsThroughout(MapRun(m, runs[0]).1, runs[1..], capacity)
  }

  /** Every run on the way is safe in the map it finds. */
  predicate SafeThroughout(m: OrderedMap, runs: seq<Args>)
    decreases |runs|
  {
    |runs| > 0 ==> Safe(m, runs[0]) && SafeThroughout(MapRun(m, runs[0]).1, runs[1..])
  }

  /** Every image on the way holds the map of the runs so far. */
  ghost predicate Tracks(image: bytes, layout: Layout, m: OrderedMap, runs: seq<Args>)
    decreases |runs|
  {
    |runs| > 0 ==>
      var r, n := Run(image, runs[0]), MapRun(m, runs[0]).1;
      r.Done? && Holds(r.image, layout, n) && Tracks(r.image, layout, n, runs[1..])
  }

  /** Any sequence of safe runs over one image file computes exactly what the same sequence computes on
      an ordered map, and touches only the region. */
  lemma {:induction false} RunsRefineOrderedMap(image: bytes, layout: Layout, m: OrderedMap, runs: seq<Args>)
    requires Holds(image, layout, m)
    requires SafeThroughout(m, runs)
    requires FitsThroughout(m, runs, layout.Capacity())
    ensures var r := RunAll(image, runs);
            && r.Done? && r.ok == MapRunAll(m, runs).0
            && Holds(r.image, layout, MapRunAll(m, runs).1)
            && OutsideKept(image, r.image, layout)
    decreases |runs|
  {
    hide Holds, Run, MapRun, OrderedMap.Size, Safe;
    if |runs| == 0 {
      EmptyChange(image, layout);
    } else {
      RunRefines(image, layout, m, runs[0]);
      RunsRefineOrderedMap(Run(image, runs[0]).image, layout, MapRun(m, runs[0]).1, runs[1..]);
    }
  }

  /** Nothing weaker would do: the images follow the map all the way if and only if the runs are safe. */
  lemma {:induction false} TracksIffSafe(image: bytes, layout: Layout, m: OrderedMap, runs: seq<Args>)
    requires Holds(image, layout, m)
    requires FitsThroughout(m, runs, layout.Capacity())
    ensures Tracks(image, layout, m, runs) <==> SafeThroughout(m, runs)
    decreases |runs|
  {
    hide Holds, Run, MapRun, OrderedMap.Size, Safe;
    if |runs| > 0 {
      RunRefines(image, layout, m, runs[0]);
      if Safe(m, runs[0]) {
        TracksIffSafe(Run(image, runs[0]).image, layout, MapRun(m, runs[0]).1, runs[1..]);
      }
    }
  }

  /** Runs with plain arguments are safe whatever the store holds. */
  lemma {:induction false} PlainIsSafe(m: OrderedMap, runs: seq<Args>)
    requires forall i :: 0 <= i < |runs| ==> Plain(runs[i])
    ensures SafeThroughout(m, runs)
    decreases |runs|
  {
    hide Plain, Stores, MapRun;
    if |runs| > 0 {
      PlainIsSafe(MapRun(m, runs[0]).1, runs[1..]);
    }
  }

  // What the code does not promise: names and dbx files

  /** Adding a new ordinary variable that fits, or appending to one that is not there, always reports
      success, but the next run can open the image exactly when the name is ASCII. */
  lemma {:induction false} AddedNameReadable(image: bytes, layout: Layout, m: OrderedMap, a: Args)
    requires Holds(image, layout, m) && a.operation in {ADD, APPEND} && CheckArgs(a) && !IsKeyVariable(a.name)
    requires a.Target() !in m.at && Packable(a.attributes.n) && Packable(|a.dataFile.value|)
    requires MapRun(m, a).1.Size() <= layout.Capacity()
    ensures var r := Run(image, a);
            && r.Done? && r.ok && Volume(Slice(r.image, 0, 128)).Some?
            && (FindVarInfo(r.image).Found? <==> Ascii(a.name))
            && (FindVarInfo(r.image).Fails? <==> !Ascii(a.name))
  {
    hide Run, MapRun, WellFormed, Unique, Abs, AddTo, MapAdd, Serialize, WriteBack, AllLive, OrderedMap.Size, Limit,
         Ascii, FirstIndex, CheckArgs, Placed, FindVarInfo, IsKeyVariable, Packable, Edit.Target, Args.Target,
         Resolve, DeclaredSize;
    var append := a.operation == APPEND;
    OrdinaryEdit(a, append);
    var e, vars := Resolve(a, append).value, VarsOf(image);
    AbsKnows(vars, e.Target());
    AddAbsent(vars, e);
    var r := AddTo(vars, e).value;
    assert MapRun(m, a).1 == Abs(r) by {
      AddRefines(vars, e);
      DeclaredNew(m, e);
      MapRunOfAdd(m, a, append);
    }
    assert AllLive(vars) && Placed(image, layout) && layout.storeSize < Limit(4) by {
      StoreSizeFits(image);
      WellFormedFits(image);
      WellFormedPlaced(image);
    }
    AddedWritten(image, layout, vars, e);
    var w := WriteBack(image, layout, Serialize(r).value);
    assert Run(image, a) == Done(true, w) by {
      RunOfAdd(image, a, append);
    }
    PlacedVolume(w, layout);
  }

  lemma {:induction false} DeclaredNew(m: OrderedMap, e: Edit)
    requires e.Target() !in m.at
    ensures DeclaredSize(m, e) == e.size
  {
  }

  lemma {:induction false} MapRunOfAdd(m: OrderedMap, a: Args, append: bool)
    requires CheckArgs(a) && a.operation == (if append then APPEND else ADD) && !a.attributes.Malformed?
    requires Resolve(a, append).Some? && MapAdd(m, Resolve(a, append).value).Some?
    requires Packable(Resolve(a, append).value.attributes) && Packable(DeclaredSize(m, Resolve(a, append).value))
    ensures MapRun(m, a) == (true, MapAdd(m, Resolve(a, append).value).value)
  {
    hide MapAdd, Resolve, Packable, IsGuid, IsKeyVariable, DeclaredSize;
  }

  lemma {:induction false} RunOfAdd(image: bytes, a: Args, append: bool)
    requires WellFormed(image) && CheckArgs(a) && a.operation == (if append then APPEND else ADD)
    requires !a.attributes.Malformed?
    requires Resolve(a, append).Some? && AddTo(VarsOf(image), Resolve(a, append).value).Some?
    ensures var r := AddTo(VarsOf(image), Resolve(a, append).value).value;
            Run(image, a) == Finish(image, LayoutOf(image), Changed(r))
  {
    hide AddTo, Resolve, IsGuid, IsKeyVariable, Serialize, WriteBack, Volume, Placed, ParseVars, InStore, StoreHeader;
    NotEmpty(image);
  }

  lemma {:induction false} OrdinaryEdit(a: Args, append: bool)
    requires CheckArgs(a) && a.operation != DEL && !IsKeyVariable(a.name)
    ensures a.dataFile.Some? && a.attributes.Given? && IsGuid(a.guid) && Resolve(a, append).Some?
    ensures var e := Resolve(a, append).value;
            e.Target() == a.Target() && e.size == |e.buffer| == |a.dataFile.value| && e.name == a.name
            && e.guid == a.guid && e.attributes == a.attributes.n
  {
  }

  lemma {:induction false} AddAbsent(vars: seq<Variable>, e: Edit)
    requires FirstIndex(vars, e.Target()) == |vars| && IsGuid(e.guid)
    ensures AddTo(vars, e).Some? && MapAdd(Abs(vars), e).Some?
  {
    hide IsGuid, Str2Blob, Lower;
    AbsKnows(vars, e.Target());
  }

  /** A dbx edit declares the size of what it stores exactly when the file holds the whole
      authentication header it announces. */
  lemma {:induction false} DbxSizeAgrees(a: Args, append: bool)
    requires a.dataFile.Some? && EnrollDbx(a, append).Some?
    ensures var e := EnrollDbx(a, append).value;
            e.size == |e.buffer| <==> AuthSize(a.dataFile.value) <= |a.dataFile.value|
  {
    hide FromLE;
  }

  const DBX_KEY := Key(Str2Blob(DBX), Lower(EFI_IMAGE_SECURITY_DATABASE_GUID))

  /** Appending a dbx file to a stored dbx. Success is reported exactly when the size to declare fits its
      field, and otherwise nothing is written. The image holds the appended map if and only if the file
      is not short of its header, or so short that the run is refused. In between the record is written
      declaring less than it holds, and whoever opens the image next finds the variables before it as
      they were and the stored dbx without its last bytes. */
  lemma {:induction false} DbxAppendWritten(image: bytes, layout: Layout, m: OrderedMap, a: Args)
    requires Holds(image, layout, m) && DBX_KEY in m.at
    requires a.operation == APPEND && LowerName(a.name) == DBX && CheckArgs(a) && !a.attributes.Malformed?
    requires a.dataFile.Some? && |a.dataFile.value| >= 20
    requires MapRun(m, a).1.Size() <= layout.Capacity()
    ensures var r, stored := Run(image, a), m.at[DBX_KEY].data;
            var missing := AuthSize(a.dataFile.value) - |a.dataFile.value|;
            && r.Done? && r.ok == Packable(|stored| - missing) && (!r.ok ==> r.image == image)
            && (Holds(r.image, layout, MapRun(m, a).1) <==> missing <= 0 || missing > |stored|)
            && (0 < missing <= |stored| ==>
                  HeldShort(image, r.image, stored[..|stored| - missing]))
  {
    hide Run, Holds, OrderedMap.Size, HeldShort, CheckArgs, Safe, MapRun, Packable, LowerName, Limit, AuthSize;
    var missing := AuthSize(a.dataFile.value) - |a.dataFile.value|;
    RunRefines(image, layout, m, a);
    RefusedKeeps(image, a);
    DbxSafe(m, a);
    assert |m.at[DBX_KEY].data| < Limit(4) by {
      HeldFits(image, layout, m, DBX_KEY);
    }
    PackableWithout(|m.at[DBX_KEY].data|, missing);
    if 0 < missing <= |m.at[DBX_KEY].data| {
      DbxRead(image, layout, m, a);
    }
  }

  lemma {:induction false} HeldFits(image: bytes, layout: Layout, m: OrderedMap, k: Key)
    requires Holds(image, layout, m) && k in m.at
    ensures |m.at[k].data| < Limit(4)
  {
    hide WellFormed, Unique, Abs, FirstIndex, Limit;
    StoredFits(image, m, k);
  }

  lemma {:induction false} RefusedKeeps(image: bytes, a: Args)
    ensures var r := Run(image, a); r.Done? && !r.ok ==> r.image == image
  {
    hide Volume, FindVarInfo, CheckArgs, ProcessVar, Serialize, WriteBack;
  }

  lemma {:induction false} PackableWithout(stored: nat, missing: int)
    requires stored < Limit(4)
    ensures missing > 0 ==> (Packable(stored - missing) <==> missing <= stored)
  {
    hide Limit;
  }

  lemma {:induction false} StoredFits(image: bytes, m: OrderedMap, k: Key)
    requires WellFormed(image) && Unique(VarsOf(image)) && Abs(VarsOf(image)) == m && k in m.at
    ensures var i := FirstIndex(VarsOf(image), k);
            i < |VarsOf(image)| && m.at[k].data == VarsOf(image)[i].data && |m.at[k].data| < Limit(4)
  {
    hide WellFormed, Unique, Abs, FirstIndex, Limit, Variable.Live;
    var vars := VarsOf(image);
    WellFormedFits(image);
    AbsKnows(vars, k);
    AbsAt(vars, FirstIndex(vars, k));
    LiveFits(vars[FirstIndex(vars, k)]);
  }

  lemma {:induction false} LiveFits(v: Variable)
    requires v.Live()
    ensures |v.data| < Limit(4)
  {
    hide Limit, Utf8, Guid2Str;
    assert VAR_CODES[8] == U(4) && v.HeaderVals()[8] == Num(v.dataSize);
  }

  /** What appending a dbx file resolves to. */
  lemma {:induction false} DbxEdit(a: Args)
    requires LowerName(a.name) == DBX && a.dataFile.Some? && |a.dataFile.value| >= 20
    ensures Resolve(a, true).Some?
    ensures var e, missing := Resolve(a, true).value, AuthSize(a.dataFile.value) - |a.dataFile.value|;
            && e.Target() == DBX_KEY && e.append && e.size == -missing && Packable(e.attributes)
            && (missing > 0 ==> e.buffer == []) && (Plain(a) <==> a.operation == DEL || missing <= 0)
  {
    hide FromLE, Lower, Str2Blob;
    Limits();
  }

  lemma {:induction false} DbxSafe(m: OrderedMap, a: Args)
    requires a.operation == APPEND && LowerName(a.name) == DBX && CheckArgs(a) && !a.attributes.Malformed?
    requires a.dataFile.Some? && |a.dataFile.value| >= 20 && DBX_KEY in m.at
    ensures var missing := AuthSize(a.dataFile.value) - |a.dataFile.value|;
            && MapRun(m, a).0 == Packable(|m.at[DBX_KEY].data| - missing)
            && (Safe(m, a) <==> (MapRun(m, a).0 ==> missing <= 0))
  {
    hide Resolve, CheckArgs, Packable, Plain, Lower, Str2Blob;
    DbxEdit(a);
  }

  /** Opening the image shows the variables before position `i` as they were, and that one with `data`. */
  ghost predicate ReadShort(vars: seq<Variable>, image: bytes, i: nat, data: bytes)
  {
    && i < |vars| && Volume(Slice(image, 0, 128)).Some?
    && (FindVarInfo(image).Found? ==>
          var read := FindVarInfo(image).vars;
          i < |read| && read[..i] == vars[..i] && KeyOf(read[i]) == KeyOf(vars[i]) && read[i].data == data)
  }

  /** Of the variables of `before`, `after` shows those in front of dbx as they were, and dbx with `data`. */
  ghost predicate HeldShort(before: bytes, after: bytes, data: bytes)
  {
    WellFormed(before) && ReadShort(VarsOf(before), after, FirstIndex(VarsOf(before), DBX_KEY), data)
  }

  lemma {:induction false} DbxRead(image: bytes, layout: Layout, m: OrderedMap, a: Args)
    requires Holds(image, layout, m) && DBX_KEY in m.at
    requires a.operation == APPEND && LowerName(a.name) == DBX && CheckArgs(a) && !a.attributes.Malformed?
    requires a.dataFile.Some? && |a.dataFile.value| >= 20
    requires 0 < AuthSize(a.dataFile.value) - |a.dataFile.value| <= |m.at[DBX_KEY].data|
    requires MapRun(m, a).1.Size() <= layout.Capacity()
    ensures var missing, stored := AuthSize(a.dataFile.value) - |a.dataFile.value|, m.at[DBX_KEY].data;
            Run(image, a).Done? && HeldShort(image, Run(image, a).image, stored[..|stored| - missing])
  {
    hide Run, MapRun, WellFormed, Unique, Abs, AddTo, MapAdd, Serialize, Finish, AllLive, OrderedMap.Size, Limit,
         FirstIndex, CheckArgs, Packable, Resolve, ReadShort, AuthSize, LowerName, DeclaredSize, Plain, Edit.Target;
    DbxEdit(a);
    var e := Resolve(a, true).value;
    StoredFits(image, m, DBX_KEY);
    PackableWithout(|m.at[DBX_KEY].data|, -e.size);
    DeclaredStored(m, e);
    AddPresent(VarsOf(image), m, e);
    MapRunOfAdd(m, a, true);
    EditRead(image, layout, m, e);
    RunOfAdd(image, a, true);
  }

  lemma {:induction false} EditRead(image: bytes, layout: Layout, m: OrderedMap, e: Edit)
    requires Holds(image, layout, m) && AddTo(VarsOf(image), e).Some? && MapAdd(m, e).Some?
    requires e.size < 0 && e.buffer == [] && Packable(e.attributes) && Packable(DeclaredSize(m, e))
    requires MapAdd(m, e).value.Size() <= layout.Capacity()
    ensures var vars := VarsOf(image);
            var r, i := Finish(image, layout, Changed(AddTo(vars, e).value)), FirstIndex(vars, e.Target());
            && r.Done? && i < |vars| && 0 <= |vars[i].data| + e.size
            && ReadShort(vars, r.image, i, vars[i].data[..|vars[i].data| + e.size])
  {
    hide WellFormed, Unique, Abs, AddTo, MapAdd, Serialize, WriteBack, AllLive, OrderedMap.Size,
         FirstIndex, Packable, ReadShort, DeclaredSize, Edit.Target, Limit, FindVarInfo, VarsOf, TotalSize;
    WellFormedFits(image);
    AddRefines(VarsOf(image), e);
    ShortRead(image, layout, VarsOf(image), e);
  }

  lemma {:induction false} DeclaredStored(m: OrderedMap, e: Edit)
    requires e.append && e.Target() in m.at
    ensures DeclaredSize(m, e) == |m.at[e.Target()].data| + e.size
  {
  }

  lemma {:induction false} AddPresent(vars: seq<Variable>, m: OrderedMap, e: Edit)
    requires FirstIndex(vars, e.Target()) < |vars| && e.Target() in m.at
    ensures AddTo(vars, e).Some? && MapAdd(m, e).Some?
  {
    hide FirstIndex;
  }

  lemma {:induction false} ShortRead(image: bytes, layout: Layout, vars: seq<Variable>, e: Edit)
    requires WellFormed(image) && LayoutOf(image) == layout && AllLive(vars) && Unique(vars)
    requires e.size < 0 && e.buffer == [] && AddTo(vars, e).Some?
    requires Packable(e.attributes) && Packable(DeclaredSize(Abs(vars), e))
    requires Abs(AddTo(vars, e).value).Size() <= layout.Capacity()
    ensures var r, i := AddTo(vars, e).value, FirstIndex(vars, e.Target());
            && Serialize(r).Some? && i < |vars| && 0 <= |vars[i].data| + e.size
            && ReadShort(vars, WriteBack(image, layout, Serialize(r).value), i, vars[i].data[..|vars[i].data| + e.size])
  {
    hide WellFormed, Unique, Abs, AddTo, Serialize, WriteBack, OutsideKept, AllLive, OrderedMap.Size, TotalSize,
         Limit, FindVarInfo, Edit.Target, Packable, DeclaredSize, Placed, LiveUpTo, ReadsCut, ReadShort, FirstIndex;
    WellFormedPlaced(image);
    ShortEdit(vars, e);
    var r, i := AddTo(vars, e).value, FirstIndex(vars, e.Target());
    AddRefines(vars, e);
    AbsSize(r);
    OverlongWritten(image, layout, r, i);
    ReadCutShort(vars, r, WriteBack(image, layout, Serialize(r).value), i, vars[i].data[..|vars[i].data| + e.size]);
  }

  lemma {:induction false} ReadCutShort(vars: seq<Variable>, r: seq<Variable>, image: bytes, i: nat, data: bytes)
    requires i < |vars| && ReadsCut(r, image, i) && r[..i] == vars[..i] && KeyOf(r[i]) == KeyOf(vars[i])
    requires Cut(r[i]).data == data
    ensures ReadShort(vars, image, i, data)
  {
    hide FindVarInfo, Volume;
  }

  /** Such a file: twenty bytes announcing a header of 116. */
  lemma {:induction false} DbxOversizedExists(now: EfiTime)
    ensures var data := Fill(0, 16) + LE(100, 4);
            var a := Args(APPEND, DBX, EFI_GLOBAL_VARIABLE, Absent, Some(data), now);
            CheckArgs(a) && EnrollDbx(a, true).Some? && AuthSize(data) == 116 > |data|
  {
    hide LE, FromLE, IsGuid;
    VendorGuids();
    FromLEofLE(100, 4);
    Limits();
    var data := Fill(0, 16) + LE(100, 4);
    assert data[16..20] == LE(100, 4);
    assert LowerName(DBX) == DBX;
  }
}
