/** The cached fields of a VM description against its element tree. */
module VirtXml {
  import opened Bytes
  import opened XmlTree

  datatype Field = Name | Uuid | Kernel | CmdLine | Vcpu | Memory | Loader | IoMode | Cache | ImageFile

  function PathOf(f: Field): (path: seq<string>)
    ensures |path| > 0
  {
    match f
    case Name => ["name"]
    case Uuid => ["uuid"]
    case Kernel => ["os", "kernel"]
    case CmdLine => ["os", "cmdline"]
    case Vcpu => ["vcpu"]
    case Memory => ["memory"]
    case Loader => ["os", "loader"]
    case IoMode => ["devices", "disk", "driver"]
    case Cache => ["devices", "disk", "driver"]
    case ImageFile => ["devices", "disk", "source"]
  }

  /** The attribute a disk field lives in; the other fields are element texts. */
  function AttribOf(f: Field): Option<string>
  {
    match f
    case IoMode => Some("io")
    case Cache => Some("cache")
    case ImageFile => Some("file")
    case _ => None
  }

  /** What a fresh single-element lookup of the tree returns. */
  function Lookup(root: Element, f: Field): Option<string>
  {
    if AttribOf(f).None? then Text(root, PathOf(f)) else Attrib(root, PathOf(f), AttribOf(f).value)
  }

  datatype State = State(root: Element, cached: map<Field, Option<string>>)

  predicate Agrees(s: State)
  {
    forall f: Field :: f in s.cached && s.cached[f] == Lookup(s.root, f)
  }

  /** Reads every field; the disk driver and source must exist. */
  function Load(root: Element): Option<State>
  {
    if Single(root, PathOf(IoMode)).None? || Single(root, PathOf(ImageFile)).None? then None
    else Some(State(root, map f: Field | true :: Lookup(root, f)))
  }

  /** The calls that touch the tree. Additions give the tag path, the attributes, and whether several
      leaves are allowed; settings follow an addition at the path it made. */
  datatype Call =
    | SetField(f: Field, value: Option<string>)
    | AddElement(path: seq<string>, attribs: map<string, string>, multi: bool)
    | SetAdded(path: seq<string>, change: Change)

  /** Deleting is for kernel and command line only: the other setters write an empty text. */
  predicate Deletes(f: Field, value: Option<string>)
  {
    value.None? && f in {Kernel, CmdLine}
  }

  /** One call; None where the source raises: setting a disk field of a missing element, or setting one
      to nothing, which cannot be saved. */
  function Apply(s: State, c: Call): Option<State>
    requires Agrees(s) && (c.AddElement? ==> |c.path| > 0)
  {
    match c
    case SetField(f, value) =>
      if s.cached[f] == value then Some(s)
      else if Deletes(f, value) then Some(State(Delete(s.root, PathOf(f)), s.cached[f := None]))
      else if AttribOf(f).None? then
        (match Update(s.root, PathOf(f), SetText(value))
         case None => Some(s)
         case Some(r) => Some(State(r, s.cached[f := value])))
      else if value.None? then None
      else
        (match Update(s.root, PathOf(f), SetAttrib(AttribOf(f).value, value.value))
         case None => None
         case Some(r) => Some(State(r, s.cached[f := value])))
    case AddElement(path, attribs, multi) => Some(s.(root := Add(s.root, path, attribs, multi)))
    case SetAdded(path, change) =>
      match Update(s.root, path, change)
      case None => Some(s)
      case Some(r) => Some(s.(root := r))
  }

  /** A call that is a field setter, or works on a path that parts ways with every field's path. */
  predicate Apart(c: Call)
  {
    c.SetField? || forall f: Field :: Diverge(c.path, PathOf(f))
  }

  lemma {:induction false} FieldsDiverge(f: Field, g: Field)
    requires PathOf(f) != PathOf(g)
    ensures Diverge(PathOf(f), PathOf(g))
  {
    var p, q := PathOf(f), PathOf(g);
    if p[0] == q[0] {
      assert |p| == |q| > 1;
      var p1, q1 := p[1..], q[1..];
      if p1[0] == q1[0] {
        assert |p1| == 2 && p1[1..][0] != q1[1..][0];
      }
    }
  }

  lemma {:induction false} LookupKept(root: Element, other: Element, f: Field)
    requires Single(other, PathOf(f)) == Single(root, PathOf(f))
    ensures Lookup(other, f) == Lookup(root, f)
  {
  }

  /** Setting a field is seen by a lookup of that field and of no other. */
  lemma {:induction false} FieldUpdated(root: Element, f: Field, value: Option<string>, g: Field)
    requires Single(root, PathOf(f)).Some? && (AttribOf(f).Some? ==> value.Some?)
    ensures var c := if AttribOf(f).None? then SetText(value) else SetAttrib(AttribOf(f).value, value.value);
            Lookup(Update(root, PathOf(f), c).value, g) == if g == f then value else Lookup(root, g)
  {
    hide Single, Update, Diverge;
    var c := if AttribOf(f).None? then SetText(value) else SetAttrib(AttribOf(f).value, value.value);
    if PathOf(g) == PathOf(f) {
      UpdateSets(root, PathOf(f), c);
    } else {
      FieldsDiverge(f, g);
      UpdateKeeps(root, PathOf(f), c, PathOf(g));
    }
  }

  /** Every call keeps the cached fields equal to fresh lookups. */
  lemma {:induction false} ApplyAgrees(s: State, c: Call)
    requires Agrees(s) && (c.AddElement? ==> |c.path| > 0) && Apart(c) && Apply(s, c).Some?
    ensures Agrees(Apply(s, c).value)
  {
    hide Single, Update, Add, Delete, Diverge, Lookup, PathOf;
    var r := Apply(s, c).value;
    forall g: Field
      ensures g in r.cached && r.cached[g] == Lookup(r.root, g)
    {
      match c
      case SetField(f, value) =>
        if s.cached[f] != value {
          if Deletes(f, value) {
            FieldDeleted(s.root, f, g);
          } else if Single(s.root, PathOf(f)).Some? {
            FieldUpdated(s.root, f, value, g);
          }
        }
      case AddElement(path, attribs, multi) =>
        AddKeeps(s.root, path, attribs, multi, PathOf(g));
        LookupKept(s.root, r.root, g);
      case SetAdded(path, change) =>
        if Update(s.root, path, change).Some? {
          UpdateKeeps(s.root, path, change, PathOf(g));
          LookupKept(s.root, r.root, g);
        }
    }
  }

  lemma {:induction false} FieldDeleted(root: Element, f: Field, g: Field)
    requires f in {Kernel, CmdLine} && Lookup(root, f).Some?
    ensures Lookup(Delete(root, PathOf(f)), g) == if g == f then None else Lookup(root, g)
  {
    hide Single, Delete, Diverge;
    if g == f {
      DeleteRemoves(root, PathOf(f));
    } else {
      assert PathOf(f) != PathOf(g) by {
        assert PathOf(f)[1] in {"kernel", "cmdline"};
      }
      FieldsDiverge(f, g);
      DeleteKeeps(root, PathOf(f), PathOf(g));
    }
  }

  /** Loading makes the cache agree. */
  lemma {:induction false} LoadAgrees(root: Element)
    ensures Load(root).Some? ==> Agrees(Load(root).value)
  {
  }

  /** Any sequence of calls. */
  function ApplyAll(s: State, calls: seq<Call>): Option<State>
    requires Agrees(s) && forall i :: 0 <= i < |calls| ==> Apart(calls[i])
    decreases |calls|
  {
    if |calls| == 0 then Some(s)
    else
      PathNonEmpty(calls[0]);
      var next :- Apply(s, calls[0]);
      ApplyAgrees(s, calls[0]);
      ApplyAll(next, calls[1..])
  }

  lemma {:induction false} PathNonEmpty(c: Call)
    requires Apart(c)
    ensures c.AddElement? ==> |c.path| > 0
  {
    if c.AddElement? {
      assert Diverge(c.path, PathOf(Name));
    }
  }

  lemma {:induction false} ApplyAllAgrees(s: State, calls: seq<Call>)
    requires Agrees(s) && forall i :: 0 <= i < |calls| ==> Apart(calls[i])
    ensures ApplyAll(s, calls).Some? ==> Agrees(ApplyAll(s, calls).value)
    decreases |calls|
  {
    hide Apply, Agrees, Apart;
    if |calls| > 0 {
      PathNonEmpty(calls[0]);
      if Apply(s, calls[0]).Some? {
        ApplyAgrees(s, calls[0]);
        ApplyAllAgrees(Apply(s, calls[0]).value, calls[1..]);
      }
    }
  }

  // The additions the source makes

  const COMMAND_LINE := "{http://libvirt.org/schemas/domain/qemu/1.0}commandline"
  const COMMAND_ARG := "{http://libvirt.org/schemas/domain/qemu/1.0}arg"

  function HugepageParams(unit: string, size: string): seq<Call>
  {
    [AddElement(["memoryBacking", "hugepages", "page"], map["unit" := unit, "size" := size], false)]
  }

  function HugepagePath(path: string): seq<Call>
  {
    [AddElement(["memoryBacking", "path"], map[], false), SetAdded(["memoryBacking", "path"], SetText(Some(path)))]
  }

  function MemNuma(near: bool): seq<Call>
  {
    [AddElement(["numatune", "memory"], map[], false),
     SetAdded(["numatune", "memory"], SetAttrib("mode", "strict")),
     SetAdded(["numatune", "memory"], SetAttrib("nodeset", if near then "0" else "1"))]
  }

  function Vsock(cid: string): seq<Call>
  {
    [AddElement(["devices", "vsock", "cid"], map["auto" := "no", "address" := cid], false),
     SetAdded(["devices", "vsock"], SetAttrib("model", "virtio"))]
  }

  function Vtpm(path: string, log: string): seq<Call>
  {
    [AddElement(["launchSecurity", "vtpm", "loader"], map[], false),
     SetAdded(["launchSecurity", "vtpm", "loader"], SetText(Some(path))),
     AddElement(["launchSecurity", "vtpm", "log"], map[], false),
     SetAdded(["launchSecurity", "vtpm", "log"], SetText(Some(log)))]
  }

  function CommandArg(value: string): seq<Call>
  {
    [AddElement([COMMAND_LINE, COMMAND_ARG], map["value" := value], true)]
  }

  function Pin(tag: string, attribs: map<string, string>): Call
  {
    AddElement(["cputune", tag], attribs, true)
  }

  /** A path that starts elsewhere, or goes from the devices to something other than a disk. */
  lemma {:induction false} ApartPath(path: seq<string>)
    requires |path| > 0
    requires path[0] !in {"name", "uuid", "os", "vcpu", "memory", "devices"}
          || (path[0] == "devices" && |path| > 1 && path[1] != "disk")
    ensures forall f: Field :: Diverge(path, PathOf(f))
  {
    forall f: Field
      ensures Diverge(path, PathOf(f))
    {
      var q := PathOf(f);
      if path[0] == q[0] {
        assert q[1..][0] == "disk" && path[1..][0] != "disk";
      }
    }
  }

  /** None of them touches a cached field. */
  lemma {:induction false} AdditionsApart(x: string, y: string, near: bool, attribs: map<string, string>)
    ensures forall c :: c in HugepageParams(x, y) + HugepagePath(x) + MemNuma(near) ==> Apart(c)
    ensures forall c :: c in Vsock(x) + Vtpm(x, y) + CommandArg(x) ==> Apart(c)
    ensures Apart(Pin(x, attribs))
  {
    hide Diverge, PathOf;
    ApartPath(["memoryBacking", "hugepages", "page"]);
    ApartPath(["memoryBacking", "path"]);
    ApartPath(["numatune", "memory"]);
    ApartPath(["devices", "vsock", "cid"]);
    ApartPath(["devices", "vsock"]);
    ApartPath(["launchSecurity", "vtpm", "loader"]);
    ApartPath(["launchSecurity", "vtpm", "log"]);
    assert |COMMAND_LINE| > 7;
    ApartPath([COMMAND_LINE, COMMAND_ARG]);
    ApartPath(["cputune", x]);
  }

  // Any operations on a loaded description

  /** The setters and additions a caller can use. */
  datatype Operation =
    | SetTo(f: Field, value: Option<string>)
    | SetHugepageParams(unit: string, size: string)
    | SetHugepagePath(path: string)
    | SetMemNuma(near: bool)
    | SetVsock(cid: string)
    | SetVtpm(path: string, log: string)
    | AddCommandArg(arg: string)
    | AddPin(tag: string, attribs: map<string, string>)

  function CallsOf(op: Operation): seq<Call>
  {
    match op
    case SetTo(f, value) => [SetField(f, value)]
    case SetHugepageParams(unit, size) => HugepageParams(unit, size)
    case SetHugepagePath(path) => HugepagePath(path)
    case SetMemNuma(near) => MemNuma(near)
    case SetVsock(cid) => Vsock(cid)
    case SetVtpm(path, log) => Vtpm(path, log)
    case AddCommandArg(arg) => CommandArg(arg)
    case AddPin(tag, attribs) => [Pin(tag, attribs)]
  }

  /** Every operation is a setter of one field or stays away from all of them. */
  lemma {:induction false} OperationsApart(op: Operation)
    ensures forall i :: 0 <= i < |CallsOf(op)| ==> Apart(CallsOf(op)[i])
    ensures forall i :: 0 <= i < |CallsOf(op)| ==> (CallsOf(op)[i].SetField? <==> op.SetTo?)
    ensures op.SetTo? ==> CallsOf(op) == [SetField(op.f, op.value)]
  {
    hide Apart;
    match op {
      case SetTo(f, value) =>
        assert Apart(SetField(f, value)) by {
          SettersApart(f, value);
        }
      case SetHugepageParams(unit, size) =>
        AdditionsApart(unit, size, true, map[]);
      case SetHugepagePath(path) =>
        AdditionsApart(path, "", true, map[]);
      case SetMemNuma(near) =>
        AdditionsApart("", "", near, map[]);
      case SetVsock(cid) =>
        AdditionsApart(cid, "", true, map[]);
      case SetVtpm(path, log) =>
        AdditionsApart(path, log, true, map[]);
      case AddCommandArg(arg) =>
        AdditionsApart(arg, "", true, map[]);
      case AddPin(tag, attribs) =>
        AdditionsApart(tag, "", true, attribs);
    }
  }

  lemma {:induction false} SettersApart(f: Field, value: Option<string>)
    ensures Apart(SetField(f, value))
  {
  }

  /** All the calls of a sequence of operations, one after the other. */
  function AllCalls(ops: seq<Operation>): seq<Call>
  {
    if |ops| == 0 then [] else CallsOf(ops[0]) + AllCalls(ops[1..])
  }

  lemma {:induction false} AllApart(ops: seq<Operation>)
    ensures forall i :: 0 <= i < |AllCalls(ops)| ==> Apart(AllCalls(ops)[i])
    ensures forall i :: 0 <= i < |AllCalls(ops)| && AllCalls(ops)[i].SetField? ==>
              SetTo(AllCalls(ops)[i].f, AllCalls(ops)[i].value) in ops
  {
    hide Apart, CallsOf;
    if |ops| > 0 {
      OperationsApart(ops[0]);
      AllApart(ops[1..]);
    }
  }

  /** Loads a description and carries out the operations; None where one of them raises. */
  function LoadAndApply(root: Element, ops: seq<Operation>): Option<State>
  {
    var loaded :- Load(root);
    AllApart(ops);
    ApplyAll(loaded, AllCalls(ops))
  }

  /** Whatever description is loaded and whatever operations follow, each cached field equals a fresh
      lookup of the tree, and a field that no setter named is still what was loaded. */
  lemma {:induction false} LoadAndApplyAgrees(root: Element, ops: seq<Operation>)
    requires LoadAndApply(root, ops).Some?
    ensures var s := LoadAndApply(root, ops).value;
            && Agrees(s)
            && forall f: Field :: (forall v :: SetTo(f, v) !in ops) ==> s.cached[f] == Lookup(root, f)
  {
    hide Agrees, Apart, Lookup, Load, ApplyAll;
    var loaded := Load(root).value;
    LoadAgrees(root);
    AllApart(ops);
    ApplyAllAgrees(loaded, AllCalls(ops));
    forall f: Field | forall v :: SetTo(f, v) !in ops
      ensures f in LoadAndApply(root, ops).value.cached && LoadAndApply(root, ops).value.cached[f] == Lookup(root, f)
    {
      UnnamedKept(loaded, AllCalls(ops), f);
      LoadedField(root, f);
    }
  }

  lemma {:induction false} LoadedField(root: Element, f: Field)
    requires Load(root).Some?
    ensures f in Load(root).value.cached && Load(root).value.cached[f] == Lookup(root, f)
  {
  }

  lemma {:induction false} UnnamedKept(s: State, calls: seq<Call>, f: Field)
    requires Agrees(s) && forall i :: 0 <= i < |calls| ==> Apart(calls[i])
    requires forall i :: 0 <= i < |calls| ==> !(calls[i].SetField? && calls[i].f == f)
    requires ApplyAll(s, calls).Some?
    ensures f in ApplyAll(s, calls).value.cached && ApplyAll(s, calls).value.cached[f] == s.cached[f]
    decreases |calls|
  {
    hide Apart, Lookup, Apply;
    if |calls| > 0 {
      PathNonEmpty(calls[0]);
      ApplyAgrees(s, calls[0]);
      FieldKept(s, calls[0], f);
      UnnamedKept(Apply(s, calls[0]).value, calls[1..], f);
    }
  }

  lemma {:induction false} FieldKept(s: State, c: Call, f: Field)
    requires Agrees(s) && (c.AddElement? ==> |c.path| > 0) && !(c.SetField? && c.f == f)
    requires Apply(s, c).Some?
    ensures f in s.cached && f in Apply(s, c).value.cached && Apply(s, c).value.cached[f] == s.cached[f]
  {
    hide Lookup, Update, Delete, Add;
  }

  // Where the fields live

  /** The text of the only child with a tag; None if there are none or several. */
  function OnlyText(e: Element, tag: string): Option<string>
  {
    var items := Kids(e.children, tag);
    if |items| == 1 then items[0].text else None
  }

  function Only(e: Element, tag: string): Option<Element>
  {
    var items := Kids(e.children, tag);
    if |items| == 1 then Some(items[0]) else None
  }

  function OnlyAttrib(e: Element, tag: string, name: string): Option<string>
  {
    var items := Kids(e.children, tag);
    if |items| == 1 && name in items[0].attribs then Some(items[0].attribs[name]) else None
  }

  /** What each field reads. */
  lemma {:induction false} FieldElements(root: Element)
    ensures Lookup(root, Name) == OnlyText(root, "name") && Lookup(root, Uuid) == OnlyText(root, "uuid")
    ensures Lookup(root, Vcpu) == OnlyText(root, "vcpu") && Lookup(root, Memory) == OnlyText(root, "memory")
    ensures var os := Only(root, "os");
            if os.None? then Lookup(root, Kernel) == Lookup(root, CmdLine) == Lookup(root, Loader) == None
            else Lookup(root, Kernel) == OnlyText(os.value, "kernel")
                 && Lookup(root, CmdLine) == OnlyText(os.value, "cmdline")
                 && Lookup(root, Loader) == OnlyText(os.value, "loader")
    ensures var devices := Only(root, "devices");
            var disk := if devices.None? then None else Only(devices.value, "disk");
            if disk.None? then Lookup(root, IoMode) == Lookup(root, Cache) == Lookup(root, ImageFile) == None
            else Lookup(root, IoMode) == OnlyAttrib(disk.value, "driver", "io")
                 && Lookup(root, Cache) == OnlyAttrib(disk.value, "driver", "cache")
                 && Lookup(root, ImageFile) == OnlyAttrib(disk.value, "source", "file")
  {
    hide Kids;
    SingleStep(root, ["name"]);
    SingleStep(root, ["uuid"]);
    SingleStep(root, ["vcpu"]);
    SingleStep(root, ["memory"]);
    OsField(root, "kernel");
    OsField(root, "cmdline");
    OsField(root, "loader");
    DiskField(root, "driver");
    DiskField(root, "source");
  }

  lemma {:induction false} SingleStep(root: Element, path: seq<string>)
    requires |path| > 0
    ensures var e := Only(root, path[0]);
            Single(root, path)
            == if e.None? then None else if |path| == 1 then e else Single(e.value, path[1..])
  {
    hide Kids;
  }

  lemma {:induction false} OsField(root: Element, tag: string)
    ensures Single(root, ["os", tag])
         == if Only(root, "os").None? then None else Only(Only(root, "os").value, tag)
  {
    hide Kids, Single, Only;
    SingleStep(root, ["os", tag]);
    assert ["os", tag][1..] == [tag];
    if Only(root, "os").Some? {
      SingleStep(Only(root, "os").value, [tag]);
    }
  }

  lemma {:induction false} DiskField(root: Element, tag: string)
    ensures var devices := Only(root, "devices");
            var disk := if devices.None? then None else Only(devices.value, "disk");
            Single(root, ["devices", "disk", tag]) == if disk.None? then None else Only(disk.value, tag)
  {
    hide Kids, Single, Only;
    SingleStep(root, ["devices", "disk", tag]);
    assert ["devices", "disk", tag][1..] == ["disk", tag] && ["disk", tag][1..] == [tag];
    if Only(root, "devices").Some? {
      var devices := Only(root, "devices").value;
      SingleStep(devices, ["disk", tag]);
      if Only(devices, "disk").Some? {
        SingleStep(Only(devices, "disk").value, [tag]);
      }
    }
  }

  // Setters take effect

  /** What one setter makes of whether its element is there and of the value it holds; None where it
      raises. */
  function AfterSet(f: Field, present: bool, before: Option<string>, value: Option<string>):
    Option<(bool, Option<string>)>
  {
    if before == value then Some((present, before))
    else if value.None? && (f == Kernel || f == CmdLine) then Some((false, None))
    else if f in {IoMode, Cache, ImageFile} then
      if present && value.Some? then Some((true, value)) else None
    else Some((present, if present then value else before))
  }

  /** One setter on an agreeing state. If the element is there, cache and tree hold the given value
      afterwards, and a kernel or command line set to nothing is gone; if it is missing, a text setter
      changes nothing and an attribute setter raises. All other fields are as they were. */
  lemma {:induction false} SetTakesEffect(s: State, f: Field, value: Option<string>)
    requires Agrees(s)
    ensures var r := Apply(s, SetField(f, value));
            var after := AfterSet(f, Single(s.root, PathOf(f)).Some?, s.cached[f], value);
            && r.Some? == after.Some?
            && (r.Some? ==>
                  && Single(r.value.root, PathOf(f)).Some? == after.value.0
                  && f in r.value.cached && r.value.cached[f] == after.value.1 == Lookup(r.value.root, f)
                  && forall g: Field :: g != f ==>
                       g in r.value.cached && r.value.cached[g] == s.cached[g] == Lookup(r.value.root, g))
  {
    hide Update, Delete, Lookup, PathOf, Single, Agrees;
    CachedIs(s, f);
    DiskFields(f);
    var r := Apply(s, SetField(f, value));
    if s.cached[f] == value {
    } else if Deletes(f, value) {
      LookupPresent(s.root, f);
      DeleteRemoves(s.root, PathOf(f));
    } else if Single(s.root, PathOf(f)).Some? && (AttribOf(f).None? || value.Some?) {
      var c := if AttribOf(f).None? then SetText(value) else SetAttrib(AttribOf(f).value, value.value);
      UpdateSets(s.root, PathOf(f), c);
    } else if Single(s.root, PathOf(f)).None? {
      MissingLookup(s.root, f);
    }
    if r.Some? {
      assert Apart(SetField(f, value));
      ApplyAgrees(s, SetField(f, value));
      forall g: Field | g != f
        ensures g in r.value.cached && r.value.cached[g] == s.cached[g] == Lookup(r.value.root, g)
      {
        CachedIs(s, g);
        CachedIs(r.value, g);
      }
      CachedIs(r.value, f);
    }
  }

  lemma {:induction false} CachedIs(s: State, f: Field)
    requires Agrees(s)
    ensures f in s.cached && s.cached[f] == Lookup(s.root, f)
  {
  }

  lemma {:induction false} DiskFields(f: Field)
    ensures AttribOf(f).Some? <==> f in {IoMode, Cache, ImageFile}
    ensures |PathOf(f)| > 0
  {
  }

  lemma {:induction false} LookupPresent(root: Element, f: Field)
    requires Lookup(root, f).Some?
    ensures Single(root, PathOf(f)).Some?
  {
    hide Single;
  }

  lemma {:induction false} MissingLookup(root: Element, f: Field)
    requires Single(root, PathOf(f)).None?
    ensures Lookup(root, f) == None
  {
    hide Single;
  }

  /** A field's element and value after any operations, by the setters of that field alone. */
  function AfterAll(ops: seq<Operation>, f: Field, present: bool, value: Option<string>): Option<(bool, Option<string>)>
    decreases |ops|
  {
    if |ops| == 0 then Some((present, value))
    else if ops[0].SetTo? && ops[0].f == f then
      var (p, v) :- AfterSet(f, present, value, ops[0].value);
      AfterAll(ops[1..], f, p, v)
    else AfterAll(ops[1..], f, present, value)
  }

  /** The setters of one field on a list of calls. */
  function AfterCalls(calls: seq<Call>, f: Field, present: bool, value: Option<string>): Option<(bool, Option<string>)>
    decreases |calls|
  {
    if |calls| == 0 then Some((present, value))
    else if calls[0].SetField? && calls[0].f == f then
      var (p, v) :- AfterSet(f, present, value, calls[0].value);
      AfterCalls(calls[1..], f, p, v)
    else AfterCalls(calls[1..], f, present, value)
  }

  lemma {:induction false} AfterCallsAppend(a: seq<Call>, b: seq<Call>, f: Field, present: bool, value: Option<string>)
    ensures AfterCalls(a + b, f, present, value)
         == match AfterCalls(a, f, present, value) case None => None case Some((p, v)) => AfterCalls(b, f, p, v)
    decreases |a|
  {
    hide AfterSet;
    if |a| == 0 {
      assert a + b == b;
    } else {
      assert (a + b)[1..] == a[1..] + b;
      if a[0].SetField? && a[0].f == f {
        var next := AfterSet(f, present, value, a[0].value);
        if next.Some? {
          AfterCallsAppend(a[1..], b, f, next.value.0, next.value.1);
        }
      } else {
        AfterCallsAppend(a[1..], b, f, present, value);
      }
    }
  }

  lemma {:induction false} AfterOne(op: Operation, f: Field, present: bool, value: Option<string>)
    ensures AfterCalls(CallsOf(op), f, present, value)
         == if op.SetTo? && op.f == f then AfterSet(f, present, value, op.value) else Some((present, value))
  {
    hide AfterSet;
    OperationsApart(op);
    var calls := CallsOf(op);
    if op.SetTo? {
      assert calls[0] == SetField(op.f, op.value) && calls[1..] == [];
      var next := AfterSet(f, present, value, op.value);
      if op.f == f && next.Some? {
        assert AfterCalls([], f, next.value.0, next.value.1) == Some((next.value.0, next.value.1)) == next;
      }
    } else {
      NoSetters(calls, f, present, value);
    }
  }

  lemma {:induction false} NoSetters(calls: seq<Call>, f: Field, present: bool, value: Option<string>)
    requires forall i :: 0 <= i < |calls| ==> !calls[i].SetField?
    ensures AfterCalls(calls, f, present, value) == Some((present, value))
    decreases |calls|
  {
    if |calls| > 0 {
      NoSetters(calls[1..], f, present, value);
    }
  }

  lemma {:induction false} AfterOperations(ops: seq<Operation>, f: Field, present: bool, value: Option<string>)
    ensures AfterCalls(AllCalls(ops), f, present, value) == AfterAll(ops, f, present, value)
    decreases |ops|
  {
    hide AfterSet, CallsOf;
    if |ops| > 0 {
      AfterCallsAppend(CallsOf(ops[0]), AllCalls(ops[1..]), f, present, value);
      AfterOne(ops[0], f, present, value);
      if ops[0].SetTo? && ops[0].f == f {
        var next := AfterSet(f, present, value, ops[0].value);
        if next.Some? {
          AfterOperations(ops[1..], f, next.value.0, next.value.1);
        }
      } else {
        AfterOperations(ops[1..], f, present, value);
      }
    }
  }

  /** One call moves each field as the setters say. */
  lemma {:induction false} CallMoves(s: State, c: Call, f: Field)
    requires Agrees(s) && Apart(c) && (c.AddElement? ==> |c.path| > 0) && Apply(s, c).Some?
    ensures var r := Apply(s, c).value;
            f in s.cached && f in r.cached
            && AfterCalls([c], f, Single(s.root, PathOf(f)).Some?, s.cached[f])
               == Some((Single(r.root, PathOf(f)).Some?, r.cached[f]))
  {
    hide Single, Update, Delete, Add, Lookup, PathOf, AfterSet, Diverge, Agrees;
    assert [c][1..] == [];
    CachedIs(s, f);
    var r := Apply(s, c).value;
    match c
    case SetField(g, value) =>
      SetTakesEffect(s, g, value);
      if g != f {
        OthersPresent(s, g, value, f);
      }
    case AddElement(path, attribs, multi) =>
      AddKeeps(s.root, path, attribs, multi, PathOf(f));
    case SetAdded(path, change) =>
      if Update(s.root, path, change).Some? {
        UpdateKeeps(s.root, path, change, PathOf(f));
      }
  }

  lemma {:induction false} OthersPresent(s: State, g: Field, value: Option<string>, f: Field)
    requires Agrees(s) && f != g && Apply(s, SetField(g, value)).Some?
    ensures Single(Apply(s, SetField(g, value)).value.root, PathOf(f)).Some? == Single(s.root, PathOf(f)).Some?
  {
    hide Single, Update, Delete, Lookup, Diverge, Agrees;
    CachedIs(s, g);
    DiskFields(g);
    if PathOf(f) != PathOf(g) {
      FieldsDiverge(g, f);
    } else {
      assert !Deletes(g, value);
    }
    if s.cached[g] != value {
      if Deletes(g, value) {
        DeleteKeeps(s.root, PathOf(g), PathOf(f));
      } else if Single(s.root, PathOf(g)).Some? {
        var c := if AttribOf(g).None? then SetText(value) else SetAttrib(AttribOf(g).value, value.value);
        if PathOf(f) != PathOf(g) {
          UpdateKeeps(s.root, PathOf(g), c, PathOf(f));
        } else {
          UpdateSets(s.root, PathOf(g), c);
        }
      }
    }
  }

  lemma {:induction false} CallsMove(s: State, calls: seq<Call>, f: Field)
    requires Agrees(s) && forall i :: 0 <= i < |calls| ==> Apart(calls[i])
    requires ApplyAll(s, calls).Some?
    ensures var r := ApplyAll(s, calls).value;
            f in s.cached && f in r.cached
            && AfterCalls(calls, f, Single(s.root, PathOf(f)).Some?, s.cached[f])
               == Some((Single(r.root, PathOf(f)).Some?, r.cached[f]))
    decreases |calls|
  {
    hide Apart, Lookup, Apply, Single, PathOf, AfterSet;
    if |calls| > 0 {
      PathNonEmpty(calls[0]);
      ApplyAgrees(s, calls[0]);
      CallMoves(s, calls[0], f);
      CallsMove(Apply(s, calls[0]).value, calls[1..], f);
      AfterCallsAppend([calls[0]], calls[1..], f, Single(s.root, PathOf(f)).Some?, s.cached[f]);
      assert [calls[0]] + calls[1..] == calls;
    }
  }

  /** After loading and any operations, each field is what its own setters, in order, make of what was
      loaded: its last value, if its element was there to be set. */
  lemma {:induction false} LastSetterWins(root: Element, ops: seq<Operation>, f: Field)
    requires LoadAndApply(root, ops).Some?
    ensures var s := LoadAndApply(root, ops).value;
            f in s.cached && s.cached[f] == Lookup(s.root, f)
            && AfterAll(ops, f, Single(root, PathOf(f)).Some?, Lookup(root, f))
               == Some((Single(s.root, PathOf(f)).Some?, s.cached[f]))
  {
    hide Agrees, Apart, Lookup, ApplyAll, Single, PathOf, AfterAll;
    var loaded := Load(root).value;
    LoadAgrees(root);
    LoadedField(root, f);
    AllApart(ops);
    ApplyAllAgrees(loaded, AllCalls(ops));
    CallsMove(loaded, AllCalls(ops), f);
    AfterOperations(ops, f, Single(root, PathOf(f)).Some?, Lookup(root, f));
    CachedIs(LoadAndApply(root, ops).value, f);
  }

  /** Loading raises if and only if there is not exactly one disk driver and one disk source. */
  lemma {:induction false} LoadRaises(root: Element)
    ensures var devices := Only(root, "devices");
            var disk := if devices.None? then None else Only(devices.value, "disk");
            Load(root).Some?
            <==> disk.Some? && Only(disk.value, "driver").Some? && Only(disk.value, "source").Some?
  {
    hide Single, Only, Lookup;
    DiskField(root, "driver");
    DiskField(root, "source");
  }

  lemma {:induction false} CallsRaise(s: State, calls: seq<Call>) returns (f: Field)
    requires Agrees(s) && forall i :: 0 <= i < |calls| ==> Apart(calls[i])
    requires ApplyAll(s, calls).None?
    ensures f in s.cached && AfterCalls(calls, f, Single(s.root, PathOf(f)).Some?, s.cached[f]).None?
    decreases |calls|
  {
    hide Apart, Lookup, Single, PathOf, AfterSet, Agrees;
    var c := calls[0];
    PathNonEmpty(c);
    if Apply(s, c).None? {
      f := c.f;
      SetTakesEffect(s, f, c.value);
      CachedIs(s, f);
    } else {
      ApplyAgrees(s, c);
      f := CallsRaise(Apply(s, c).value, calls[1..]);
      CallMoves(s, c, f);
      AfterCallsAppend([c], calls[1..], f, Single(s.root, PathOf(f)).Some?, s.cached[f]);
      assert [c] + calls[1..] == calls;
    }
  }

  /** Operations on a loaded description raise if and only if the setters of some field do. */
  lemma {:induction false} OperationsRaise(root: Element, ops: seq<Operation>)
    requires Load(root).Some?
    ensures LoadAndApply(root, ops).None?
       <==> exists f: Field :: AfterAll(ops, f, Single(root, PathOf(f)).Some?, Lookup(root, f)).None?
  {
    hide Agrees, Apart, Lookup, ApplyAll, Single, PathOf, AfterAll;
    var loaded := Load(root).value;
    LoadAgrees(root);
    AllApart(ops);
    if LoadAndApply(root, ops).None? {
      var f := CallsRaise(loaded, AllCalls(ops));
      LoadedField(root, f);
      AfterOperations(ops, f, Single(root, PathOf(f)).Some?, Lookup(root, f));
    } else {
      forall f: Field
        ensures AfterAll(ops, f, Single(root, PathOf(f)).Some?, Lookup(root, f)).Some?
      {
        LastSetterWins(root, ops, f);
      }
    }
  }

  // Additions take effect

  /** The tree after an operation that sets no field. */
  function Added(root: Element, op: Operation): Element
    requires !op.SetTo?
  {
    AddedBy(root, CallsOf(op))
  }

  function AddedBy(root: Element, calls: seq<Call>): Element
    decreases |calls|
  {
    if |calls| == 0 then root
    else
      match calls[0]
      case AddElement(path, attribs, multi) =>
        AddedBy(if |path| > 0 then Add(root, path, attribs, multi) else root, calls[1..])
      case SetAdded(path, change) =>
        var r := Update(root, path, change);
        AddedBy(if r.Some? then r.value else root, calls[1..])
      case SetField(_, _) => AddedBy(root, calls[1..])
  }

  /** An addition never raises, and leaves the cache alone. */
  lemma {:induction false} AdditionsApply(s: State, calls: seq<Call>)
    requires Agrees(s) && forall i :: 0 <= i < |calls| ==> Apart(calls[i]) && !calls[i].SetField?
    ensures ApplyAll(s, calls) == Some(State(AddedBy(s.root, calls), s.cached))
    decreases |calls|
  {
    hide Apart, Agrees, Lookup, Single, Update, Add;
    if |calls| > 0 {
      PathNonEmpty(calls[0]);
      ApplyAgrees(s, calls[0]);
      AdditionsApply(Apply(s, calls[0]).value, calls[1..]);
    }
  }

  lemma {:induction false} OneAddition(root: Element, c: Call)
    requires c.AddElement? && |c.path| > 0
    ensures AddedBy(root, [c]) == Add(root, c.path, c.attribs, c.multi)
  {
    assert [c][1..] == [];
  }

  lemma {:induction false} NextAddition(root: Element, c: Call, rest: seq<Call>)
    requires c.AddElement? && |c.path| > 0
    ensures AddedBy(root, [c] + rest) == AddedBy(Add(root, c.path, c.attribs, c.multi), rest)
  {
    assert ([c] + rest)[1..] == rest;
  }

  lemma {:induction false} NextSetting(root: Element, path: seq<string>, change: Change, rest: seq<Call>)
    requires Single(root, path).Some?
    ensures Update(root, path, change).Some?
    ensures AddedBy(root, [SetAdded(path, change)] + rest) == AddedBy(Update(root, path, change).value, rest)
  {
    assert ([SetAdded(path, change)] + rest)[1..] == rest;
  }

  lemma {:induction false} NoMore(root: Element)
    ensures AddedBy(root, []) == root
  {
  }

  /** The huge page element gets its unit and size, and keeps any other attributes. */
  lemma {:induction false} HugepageParamsEffect(root: Element, unit: string, size: string)
    requires Unambiguous(root, ["memoryBacking", "hugepages", "page"])
    ensures var r := Added(root, SetHugepageParams(unit, size));
            && Attrib(r, ["memoryBacking", "hugepages", "page"], "unit") == Some(unit)
            && Attrib(r, ["memoryBacking", "hugepages", "page"], "size") == Some(size)
  {
    hide Single, Add, Unambiguous;
    var path, attribs := ["memoryBacking", "hugepages", "page"], map["unit" := unit, "size" := size];
    OneAddition(root, AddElement(path, attribs, false));
    AddSets(root, path, attribs);
  }

  /** The huge page path is the text of its element. */
  lemma {:induction false} HugepagePathEffect(root: Element, path: string)
    requires Unambiguous(root, ["memoryBacking", "path"])
    ensures Text(Added(root, SetHugepagePath(path)), ["memoryBacking", "path"]) == Some(path)
  {
    hide Single, Add, Unambiguous, Update, AddedBy;
    TextAdded(root, ["memoryBacking", "path"], path, []);
    NoMore(WithText(root, ["memoryBacking", "path"], path));
    var calls := [AddElement(["memoryBacking", "path"], map[], false),
                  SetAdded(["memoryBacking", "path"], SetText(Some(path)))];
    assert calls + [] == calls;
  }

  /** The tree after adding an element and setting its text. */
  function WithText(root: Element, path: seq<string>, text: string): Element
    requires |path| > 0
  {
    var r := Update(Add(root, path, map[], false), path, SetText(Some(text)));
    if r.Some? then r.value else root
  }

  lemma {:induction false} TextAdded(root: Element, path: seq<string>, text: string, rest: seq<Call>)
    requires |path| > 0 && Unambiguous(root, path)
    ensures AddedBy(root, [AddElement(path, map[], false), SetAdded(path, SetText(Some(text)))] + rest)
         == AddedBy(WithText(root, path, text), rest)
    ensures Text(WithText(root, path, text), path) == Some(text)
  {
    hide Single, Add, Unambiguous, Update, AddedBy;
    AddSets(root, path, map[]);
    var added := Add(root, path, map[], false);
    var setting := [SetAdded(path, SetText(Some(text)))] + rest;
    NextAddition(root, AddElement(path, map[], false), setting);
    NextSetting(added, path, SetText(Some(text)), rest);
    UpdateSets(added, path, SetText(Some(text)));
    assert [AddElement(path, map[], false), SetAdded(path, SetText(Some(text)))] + rest
        == [AddElement(path, map[], false)] + setting;
  }

  /** The NUMA memory element is strict, on node 0 for near memory and on node 1 otherwise. */
  lemma {:induction false} MemNumaEffect(root: Element, near: bool)
    requires Unambiguous(root, ["numatune", "memory"])
    ensures var r := Added(root, SetMemNuma(near));
            && Attrib(r, ["numatune", "memory"], "mode") == Some("strict")
            && Attrib(r, ["numatune", "memory"], "nodeset") == Some(if near then "0" else "1")
  {
    hide Single, Add, Unambiguous, Update, AddedBy;
    var path, node := ["numatune", "memory"], if near then "0" else "1";
    AddSets(root, path, map[]);
    var added := Add(root, path, map[], false);
    var mode, nodeset := SetAttrib("mode", "strict"), SetAttrib("nodeset", node);
    UpdateSets(added, path, mode);
    var strict := Update(added, path, mode).value;
    UpdateSets(strict, path, nodeset);
    NextAddition(root, AddElement(path, map[], false), [SetAdded(path, mode), SetAdded(path, nodeset)]);
    NextSetting(added, path, mode, [SetAdded(path, nodeset)]);
    NextSetting(strict, path, nodeset, []);
    NoMore(Update(strict, path, nodeset).value);
    assert [SetAdded(path, nodeset)] + [] == [SetAdded(path, nodeset)];
    assert [SetAdded(path, mode)] + [SetAdded(path, nodeset)] == [SetAdded(path, mode), SetAdded(path, nodeset)];
    assert [AddElement(path, map[], false)] + [SetAdded(path, mode), SetAdded(path, nodeset)] == MemNuma(near);
  }

  /** The vsock element is a virtio one with a fixed context id. */
  lemma {:induction false} VsockEffect(root: Element, cid: string)
    requires Unambiguous(root, ["devices", "vsock", "cid"])
    ensures var r := Added(root, SetVsock(cid));
            && Attrib(r, ["devices", "vsock", "cid"], "auto") == Some("no")
            && Attrib(r, ["devices", "vsock", "cid"], "address") == Some(cid)
            && Attrib(r, ["devices", "vsock"], "model") == Some("virtio")
  {
    hide Single, Add, Unambiguous, Update, AddedBy;
    var leaf, path, attribs := ["devices", "vsock", "cid"], ["devices", "vsock"], map["auto" := "no", "address" := cid];
    var model := SetAttrib("model", "virtio");
    AddSets(root, leaf, attribs);
    var added := Add(root, leaf, attribs, false);
    assert leaf[..2] == path;
    AddMakesPath(root, leaf, attribs, 2);
    UpdateSets(added, path, model);
    UpdateAbove(added, path, model, leaf);
    NextAddition(root, AddElement(leaf, attribs, false), [SetAdded(path, model)]);
    NextSetting(added, path, model, []);
    NoMore(Update(added, path, model).value);
    assert [SetAdded(path, model)] + [] == [SetAdded(path, model)];
    assert [AddElement(leaf, attribs, false)] + [SetAdded(path, model)] == Vsock(cid);
  }

  /** The two vTPM paths are the texts of their elements. */
  lemma {:induction false} VtpmEffect(root: Element, path: string, log: string)
    requires Unambiguous(root, ["launchSecurity", "vtpm", "loader"])
    requires Unambiguous(root, ["launchSecurity", "vtpm", "log"])
    ensures var r := Added(root, SetVtpm(path, log));
            && Text(r, ["launchSecurity", "vtpm", "loader"]) == Some(path)
            && Text(r, ["launchSecurity", "vtpm", "log"]) == Some(log)
  {
    hide Single, Add, Unambiguous, Update, AddedBy;
    var p, q := ["launchSecurity", "vtpm", "loader"], ["launchSecurity", "vtpm", "log"];
    var second := [AddElement(q, map[], false), SetAdded(q, SetText(Some(log)))];
    TextAdded(root, p, path, second);
    var one := WithText(root, p, path);
    TextUnambiguous(root, p, path, q);
    TextAdded(one, q, log, []);
    NoMore(WithText(one, q, log));
    assert second + [] == second;
    assert [AddElement(p, map[], false), SetAdded(p, SetText(Some(path)))] + second == Vtpm(path, log);
    assert Diverge(q, p) by {
      assert q[1..] == ["vtpm", "log"] && p[1..] == ["vtpm", "loader"];
      assert q[1..][1..] == ["log"] && p[1..][1..] == ["loader"];
    }
    OtherTextKept(one, q, log, p);
  }

  lemma {:induction false} TextUnambiguous(root: Element, p: seq<string>, text: string, q: seq<string>)
    requires |p| > 0 && Unambiguous(root, p) && Unambiguous(root, q)
    ensures Unambiguous(WithText(root, p, text), q)
  {
    hide Single, Add, Unambiguous, Update;
    AddUnambiguous(root, p, map[], q);
    var added := Add(root, p, map[], false);
    if Update(added, p, SetText(Some(text))).Some? {
      UpdateUnambiguous(added, p, SetText(Some(text)), q);
    }
  }

  lemma {:induction false} OtherTextKept(root: Element, q: seq<string>, text: string, p: seq<string>)
    requires |q| > 0 && Unambiguous(root, q) && Diverge(q, p)
    ensures Text(WithText(root, q, text), p) == Text(root, p)
  {
    hide Single, Add, Unambiguous, Update;
    AddSets(root, q, map[]);
    AddKeeps(root, q, map[], false, p);
    UpdateKeeps(Add(root, q, map[], false), q, SetText(Some(text)), p);
  }

  /** A command-line argument is put last among the arguments, and so is a pin among its kind. */
  lemma {:induction false} RepeatedEffect(root: Element, arg: string, tag: string, attribs: map<string, string>)
    ensures Leaves(Added(root, AddCommandArg(arg)), COMMAND_LINE, COMMAND_ARG)
         == Leaves(root, COMMAND_LINE, COMMAND_ARG) + [map["value" := arg]]
    ensures Leaves(Added(root, AddPin(tag, attribs)), "cputune", tag) == Leaves(root, "cputune", tag) + [attribs]
  {
    hide Leaves, Add;
    OneAddition(root, AddElement([COMMAND_LINE, COMMAND_ARG], map["value" := arg], true));
    LeafAdded(root, COMMAND_LINE, COMMAND_ARG, map["value" := arg], COMMAND_ARG);
    OneAddition(root, Pin(tag, attribs));
    LeafAdded(root, "cputune", tag, attribs, tag);
  }

  /** These operations are what the sequences above carry out. */
  lemma {:induction false} AddedIsApplied(s: State, op: Operation)
    requires Agrees(s) && !op.SetTo?
    ensures forall i :: 0 <= i < |CallsOf(op)| ==> Apart(CallsOf(op)[i])
    ensures ApplyAll(s, CallsOf(op)) == Some(State(Added(s.root, op), s.cached))
  {
    hide Apart, Agrees, ApplyAll, AddedBy, CallsOf;
    OperationsApart(op);
    AdditionsApply(s, CallsOf(op));
  }

  // The object

  class VirtXml {
    var root: Element
    var cached: map<Field, Option<string>>

    ghost function View(): State
      reads this
    {
      State(root, cached)
    }

    constructor (s: State)
      requires Agrees(s)
      ensures View() == s
    {
      root, cached := s.root, s.cached;
    }

    /** Follows a tag path while each step finds exactly one child. */
    method FindSingleElement(path: seq<string>) returns (e: Option<Element>)
      ensures e == Single(root, path)
    {
      var parent, rest := root, path;
      while |rest| > 0
        invariant Single(root, path) == Single(parent, rest)
        decreases |rest|
      {
        var items := Kids(parent.children, rest[0]);
        rest := rest[1..];
        if |items| != 1 {
          return None;
        }
        if |rest| == 0 {
          return Some(items[0]);
        }
        parent := items[0];
      }
      return None;
    }

    /** A field setter; false where the source raises. */
    method SetField(f: Field, value: Option<string>) returns (ok: bool)
      requires Agrees(View())
      modifies this
      ensures Agrees(View())
      ensures var r := Apply(old(View()), Call.SetField(f, value));
              ok == r.Some? && View() == if ok then r.value else old(View())
    {
      hide Lookup, PathOf, Update, Delete;
      ghost var before := View();
      ok := true;
      if cached[f] == value {
        return;
      }
      if Deletes(f, value) {
        root := Delete(root, PathOf(f));
        cached := cached[f := None];
      } else if AttribOf(f).Some? && value.None? {
        return false;
      } else {
        var change := if AttribOf(f).None? then SetText(value) else SetAttrib(AttribOf(f).value, value.value);
        var updated := Update(root, PathOf(f), change);
        if updated.Some? {
          root := updated.value;
          cached := cached[f := value];
        } else {
          ok := AttribOf(f).None?;
        }
      }
      if ok {
        ApplyAgrees(before, Call.SetField(f, value));
      }
    }

    /** Adds an element on a path of its own. */
    method AddNewElement(path: seq<string>, attribs: map<string, string>, multi: bool)
      requires Agrees(View()) && |path| > 0 && Apart(AddElement(path, attribs, multi))
      modifies this`root
      ensures Agrees(View()) && root == Add(old(root), path, attribs, multi)
    {
      ApplyAgrees(View(), AddElement(path, attribs, multi));
      root := Add(root, path, attribs, multi);
    }
  }
}
