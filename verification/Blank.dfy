/** A freshly formatted image: every layout that fits its header fields has one, and the tool's runs
    start from it. */
module Blank {
  import opened Bytes
  import opened Struct
  import opened Guid
  import opened Variables
  import opened StoreImage
  import opened ImageLayout
  import opened VarList
  import opened Enroll
  import opened Runs
  import opened SecureBoot

  /** A layout whose numbers fit their header fields, with an aligned region. */
  predicate Formattable(l: Layout)
  {
    && VOLUME_HEADER <= l.headerLen < Limit(2)
    && STORE_HEADER <= l.storeSize < Limit(4) && l.storeSize % 4 == 0
    && l.headerLen + l.storeSize <= l.volumeSize < Limit(8)
  }

  function VolumeVals(l: Layout, guid: bytes): seq<Val>
  {
    [Str(Fill(0, 16)), Str(guid), Num(l.volumeSize), Str(MAGIC), Num(0), Num(l.headerLen), Num(0),
     Num(0), Str([0]), Num(0)]
  }

  function StoreVals(l: Layout, guid: bytes): seq<Val>
  {
    [Str(guid), Num(l.storeSize), Num(0), Num(0), Num(0), Num(0)]
  }

  lemma {:induction false} VolumePacks(l: Layout, guid: bytes)
    requires Formattable(l) && |guid| == 16
    ensures var r := Pack(VOLUME_CODES, VolumeVals(l, guid));
            r.Some? && |r.value| == VOLUME_HEADER && Unpack(VOLUME_CODES, r.value) == Some(VolumeVals(l, guid))
  {
    hide Pack, Unpack, Limit, Size;
    Limits();
    var v := VolumeVals(l, guid);
    assert forall i :: 0 <= i < |VOLUME_CODES| ==> Struct.Fits(VOLUME_CODES[i], v[i]);
    UnpackOfPack(VOLUME_CODES, v);
    HeaderSizes();
  }

  lemma {:induction false} StorePacks(l: Layout, guid: bytes)
    requires Formattable(l) && |guid| == 16
    ensures var r := Pack(STORE_CODES, StoreVals(l, guid));
            r.Some? && |r.value| == STORE_HEADER && Unpack(STORE_CODES, r.value) == Some(StoreVals(l, guid))
  {
    hide Pack, Unpack, Limit, Size;
    Limits();
    var v := StoreVals(l, guid);
    assert forall i :: 0 <= i < |STORE_CODES| ==> Struct.Fits(STORE_CODES[i], v[i]);
    UnpackOfPack(STORE_CODES, v);
    HeaderSizes();
  }

  /** Both headers in place and 0xFF behind them, whatever lies between. */
  predicate Formatted(b: bytes, l: Layout, nvram: bytes, timeBased: bytes)
  {
    && Formattable(l) && |b| == l.volumeSize
    && Unpack(VOLUME_CODES, b[..VOLUME_HEADER]) == Some(VolumeVals(l, nvram))
    && Unpack(STORE_CODES, b[l.headerLen..l.headerLen + STORE_HEADER]) == Some(StoreVals(l, timeBased))
    && forall i :: l.headerLen + STORE_HEADER <= i < |b| ==> b[i] == 0xff
  }

  /** Volume header, room up to its declared length, store header, and 0xFF to the end. */
  function BlankImage(l: Layout): bytes
    requires Formattable(l)
  {
    NvramGuid();
    TimeBasedGuid();
    VolumePacks(l, Str2Guid(NVRAM).value);
    StorePacks(l, Str2Guid(TIME_BASED).value);
    Pack(VOLUME_CODES, VolumeVals(l, Str2Guid(NVRAM).value)).value + Fill(0, l.headerLen - VOLUME_HEADER)
    + Pack(STORE_CODES, StoreVals(l, Str2Guid(TIME_BASED).value)).value
    + Fill(0xff, l.volumeSize - l.headerLen - STORE_HEADER)
  }

  lemma {:induction false} FourParts(a: bytes, b: bytes, c: bytes, d: bytes)
    ensures var s := a + b + c + d;
            && s[..|a|] == a && s[|a| + |b|..|a| + |b| + |c|] == c
            && forall i :: |a| + |b| + |c| <= i < |s| ==> s[i] == d[i - |a| - |b| - |c|]
  {
  }

  lemma {:induction false} BlankFormatted(l: Layout)
    requires Formattable(l)
    ensures IsGuid(NVRAM) && IsGuid(TIME_BASED)
    ensures Formatted(BlankImage(l), l, Str2Guid(NVRAM).value, Str2Guid(TIME_BASED).value)
  {
    hide Pack, Unpack, VolumeVals, StoreVals, IsGuid, Str2Guid, Formattable;
    NvramGuid();
    TimeBasedGuid();
    var nvram, timeBased := Str2Guid(NVRAM).value, Str2Guid(TIME_BASED).value;
    VolumePacks(l, nvram);
    StorePacks(l, timeBased);
    FormattableBounds(l);
    FourParts(Pack(VOLUME_CODES, VolumeVals(l, nvram)).value, Fill(0, l.headerLen - VOLUME_HEADER),
              Pack(STORE_CODES, StoreVals(l, timeBased)).value, Fill(0xff, l.volumeSize - l.headerLen - STORE_HEADER));
  }

  lemma {:induction false} FormattableBounds(l: Layout)
    requires Formattable(l)
    ensures VOLUME_HEADER <= l.headerLen && l.headerLen + STORE_HEADER <= l.headerLen + l.storeSize <= l.volumeSize
    ensures l.storeSize % 4 == 0
  {
    hide Limit;
  }

  lemma {:induction false} VolumeFound(b: bytes, l: Layout, nvram: bytes)
    requires VOLUME_HEADER <= |b| && Unpack(VOLUME_CODES, b[..VOLUME_HEADER]) == Some(VolumeVals(l, nvram))
    requires Guid2Str(nvram) == NVRAM
    ensures Volume(Slice(b, 0, 128)) == Some((l.volumeSize, l.headerLen))
  {
    hide Unpack, Guid2Str, Size;
    assert Slice(Slice(b, 0, 128), 0, VOLUME_HEADER) == b[..VOLUME_HEADER];
  }

  lemma {:induction false} StoreFound(b: bytes, l: Layout, timeBased: bytes)
    requires l.headerLen + STORE_HEADER <= |b| == l.volumeSize
    requires Unpack(STORE_CODES, b[l.headerLen..l.headerLen + STORE_HEADER]) == Some(StoreVals(l, timeBased))
    requires Guid2Str(timeBased) == TIME_BASED
    ensures StoreHeader(Raw(b, l.volumeSize, l.headerLen)) == Supported(l.storeSize)
  {
    hide Unpack, Guid2Str, Size;
    assert Slice(Raw(b, l.volumeSize, l.headerLen), 0, STORE_HEADER) == b[l.headerLen..l.headerLen + STORE_HEADER];
  }

  lemma {:induction false} BlankStops(b: bytes, l: Layout)
    requires l.headerLen + STORE_HEADER <= l.headerLen + l.storeSize <= |b| == l.volumeSize && l.storeSize % 4 == 0
    requires forall i :: l.headerLen + STORE_HEADER <= i < |b| ==> b[i] == 0xff
    ensures var raw := Raw(b, l.volumeSize, l.headerLen);
            ParseVars(raw, STORE_HEADER, l.storeSize) == Some(Parsed([], STORE_HEADER))
            && InStore(raw, STORE_HEADER, l.storeSize)
  {
    hide ParseVars, InStore;
    var raw := Raw(b, l.volumeSize, l.headerLen);
    if l.storeSize > STORE_HEADER {
      assert raw[STORE_HEADER] == b[l.headerLen + STORE_HEADER];
    }
    TerminatedStops(raw, STORE_HEADER, l.storeSize);
  }

  lemma {:induction false} EmptyStore(b: bytes, l: Layout)
    requires Volume(Slice(b, 0, 128)) == Some((l.volumeSize, l.headerLen))
    requires StoreHeader(Raw(b, l.volumeSize, l.headerLen)) == Supported(l.storeSize)
    requires ParseVars(Raw(b, l.volumeSize, l.headerLen), STORE_HEADER, l.storeSize) == Some(Parsed([], STORE_HEADER))
    requires InStore(Raw(b, l.volumeSize, l.headerLen), STORE_HEADER, l.storeSize)
    requires VOLUME_HEADER <= l.headerLen && STORE_HEADER <= l.storeSize && l.storeSize % 4 == 0
    requires l.headerLen + l.storeSize <= l.volumeSize == |b|
    ensures Holds(b, l, OrderedMap([], map[]))
  {
    hide Volume, StoreHeader, ParseVars, InStore, Raw, Abs, Unique;
    EmptyAbs();
  }

  /** A formatted image is well-formed and holds no variables, so the run theorems have a start for
      every layout. */
  lemma {:induction false} BlankHolds(l: Layout)
    requires Formattable(l)
    ensures Holds(BlankImage(l), l, OrderedMap([], map[]))
  {
    hide BlankImage, Holds, Volume, StoreHeader, ParseVars, InStore, Raw, IsGuid, Str2Guid, Guid2Str, Lower, VolumeVals,
         StoreVals, Unpack, Formattable;
    BlankFormatted(l);
    HeaderTexts();
    FormattableBounds(l);
    var b := BlankImage(l);
    VolumeFound(b, l, Str2Guid(NVRAM).value);
    StoreFound(b, l, Str2Guid(TIME_BASED).value);
    BlankStops(b, l);
    EmptyStore(b, l);
  }

  lemma {:induction false} EmptyAbs()
    ensures Abs([]) == OrderedMap([], map[]) && Unique([])
  {
    assert Keys([]) == [];
  }

  // The default configuration over a blank image

  const SECURE_BOOT_GUID := "f0a30bc7" + "-" + "af08" + "-" + "4556" + "-" + "99c4" + "-" + "001009c93a44"

  /** Nothing but SecureBootEnable, from a one-byte file. */
  function DefaultConfig(flag: byte, now: EfiTime): Config
  {
    Config(None, None, None, None, Source(SECURE_BOOT_GUID, Some([flag]), now))
  }

  /** The requirements of the secure-boot theorem are met by the default configuration on every blank
      image with room for one 96-byte record; the run leaves exactly that variable. */
  lemma {:induction false} DefaultSecureBoot(l: Layout, flag: byte, now: EfiTime)
    requires Formattable(l) && l.Capacity() >= 96
    ensures var c, start := DefaultConfig(flag, now), OrderedMap([], map[]);
            var done, r := StopAtFirst(BlankImage(l), SecureBootRuns(c)), MapRunAll(start, SecureBootRuns(c)).1;
            && done.Done? && done.ok && Holds(done.image, l, r) && EnrolledAs(start, r, c)
            && r.order == [Key(Str2Blob(SECURE_BOOT_ENABLE), Lower(SECURE_BOOT_GUID))]
  {
    hide Holds, BlankImage, StopAtFirst, EnrolledAs, IsGuid, Str2Blob, Lower, Limit, Str2Guid, Formattable;
    var c, start := DefaultConfig(flag, now), OrderedMap([], map[]);
    var a := AddArgs(SECURE_BOOT_ENABLE, c.enable, Given(0x3));
    BlankHolds(l);
    DefaultRuns(c, a);
    DefaultAdds(a, flag);
    FirstAdd(start, a);
    DefaultFits(start, a, l.Capacity());
    SecureBootEnrolls(BlankImage(l), l, start, c);
  }

  lemma {:induction false} DefaultRuns(c: Config, a: Args)
    requires c.pk.None? && c.kek.None? && c.db.None? && c.dbx.None?
    requires a == AddArgs(SECURE_BOOT_ENABLE, c.enable, Given(0x3))
    ensures SecureBootRuns(c) == [a]
  {
  }

  lemma {:induction false} DefaultAdds(a: Args, flag: byte)
    requires a.operation == ADD && a.name == SECURE_BOOT_ENABLE && a.guid == SECURE_BOOT_GUID
    requires a.attributes == Given(0x3) && a.dataFile == Some([flag])
    ensures AddRun(a) && EditOf(a).buffer == [flag] && EditOf(a).Target() == a.Target()
    ensures EditOf(a).attributes == 0x3
  {
    hide Str2Blob, Lower, IsGuid;
    SecureBootGuid();
    Spellings();
    Limits();
  }

  lemma {:induction false} SecureBootGuid()
    ensures IsGuid(SECURE_BOOT_GUID)
  {
    hide IsGuid;
    JoinedIsGuid("f0a30bc7", "af08", "4556", "99c4", "001009c93a44");
  }

  /** Adding to the empty map leaves one key, which takes one padded record. */
  lemma {:induction false} FirstAdd(start: OrderedMap, a: Args)
    requires start == OrderedMap([], map[]) && AddRun(a)
    ensures var k, m := EditOf(a).Target(), MapRun(start, a).1;
            && MapRun(start, a).0 && MapRunAll(start, [a]).1 == m
            && m.order == [k] && k in m.at && m.at[k].data == EditOf(a).buffer
            && m.Size() == Align4(HEADER_SIZE + |k.nameBlob| + |EditOf(a).buffer|)
  {
    hide Str2Blob, Lower, IsGuid, Str2Guid, Resolve, CheckArgs, Edit.Target, Edit.Time, Packable, Align4;
    var k, m := EditOf(a).Target(), MapRun(start, a).1;
    EditOfAdds(a);
    AcceptedAdd(start, a);
    MapEnrolledEffect(start, EditOf(a));
    assert [] + EditOf(a).buffer == EditOf(a).buffer;
    assert m.order == [] + [k] == [k];
    OneKey(k, m.at);
    assert [a][1..] == [];
    assert MapRunAll(m, []) == (true, m);
  }

  lemma {:induction false} OneKey(k: Key, at: map<Key, VarList.Entry>)
    requires k in at
    ensures SizeOf([k], at) == Align4(HEADER_SIZE + |k.nameBlob| + |at[k].data|)
  {
    assert [k][1..] == [] && SizeOf([], at) == 0;
  }

  lemma {:induction false} DefaultFits(start: OrderedMap, a: Args, capacity: int)
    requires MapRun(start, a).1.Size() <= capacity
    ensures FitsThroughout(start, [a], capacity)
  {
    hide MapRun, OrderedMap.Size;
    assert [a][1..] == [];
    assert FitsThroughout(MapRun(start, a).1, [], capacity);
  }

  // Runs that report success and spoil the store

  const E_ACUTE: bytes := [0xc3, 0xa9]

  /** An ADD of a variable named by one letter that is not ASCII. */
  function AccentedAdd(data: bytes, now: EfiTime): Args
  {
    Args(ADD, E_ACUTE, SECURE_BOOT_GUID, Given(0x7), Some(data), now)
  }

  /** On every blank image with room for it, that run reports success, and every later run raises. */
  lemma {:induction false} AccentedNameLocksOut(l: Layout, flag: byte, now: EfiTime, later: Args)
    requires Formattable(l) && l.Capacity() >= 68
    ensures var r := Run(BlankImage(l), AccentedAdd([flag], now));
            r.Done? && r.ok && Run(r.image, later) == Escapes
  {
    hide BlankImage, Holds, Run, MapRun, IsGuid, Str2Blob, Lower, Limit, Formattable, Ascii;
    var start, a := OrderedMap([], map[]), AccentedAdd([flag], now);
    BlankHolds(l);
    AccentedEdit(flag, now);
    FirstAdd(start, a);
    AddedNameReadable(BlankImage(l), l, start, a);
    RaisesUnread(Run(BlankImage(l), a).image, later);
  }

  lemma {:induction false} AccentedEdit(flag: byte, now: EfiTime)
    ensures var a := AccentedAdd([flag], now);
            && AddRun(a) && !IsKeyVariable(a.name) && !Ascii(a.name) && EditOf(a).Target() == a.Target()
            && |a.Target().nameBlob| == 6 && EditOf(a).buffer == [flag]
            && Packable(a.attributes.n) && Packable(|a.dataFile.value|)
  {
    hide Str2Blob, Lower, IsGuid;
    SecureBootGuid();
    Limits();
    assert LowerName(E_ACUTE)[0] == 0xc3;
    assert !Ascii(E_ACUTE) by {
      assert E_ACUTE[0] >= 0x80;
    }
  }

  lemma {:induction false} RaisesUnread(image: bytes, a: Args)
    requires Volume(Slice(image, 0, 128)).Some? && FindVarInfo(image).Fails?
    ensures Run(image, a) == Escapes
  {
    hide Volume, StoreHeader, ParseVars, CheckArgs, ProcessVar;
    VolumeFillsHeader(image);
  }

  lemma {:induction false} VolumeFillsHeader(image: bytes)
    requires Volume(Slice(image, 0, 128)).Some?
    ensures |image| > 0
  {
    hide Guid2Str;
    HeaderSizes();
  }

  /** An authentication header that announces `n` bytes beyond its first sixteen, and what follows it. */
  function DbxFile(n: nat, rest: bytes): bytes
  {
    Fill(0, 16) + LE(n, 4) + rest
  }

  lemma {:induction false} DbxFileSize(n: nat, rest: bytes)
    requires n < Limit(4)
    ensures |DbxFile(n, rest)| == 20 + |rest| && AuthSize(DbxFile(n, rest)) == n + 16
  {
    hide LE, FromLE, Limit;
    FromLEofLE(n, 4);
    assert DbxFile(n, rest)[16..20] == LE(n, 4);
  }

  function DbxArgs(op: Operation, file: bytes, now: EfiTime): Args
  {
    Args(op, DBX, EFI_GLOBAL_VARIABLE, Absent, Some(file), now)
  }

  /** On every blank image with room for it: enroll a dbx file of 100 payload bytes, then append one that
      is 96 bytes short of its header. Both runs report success, and the image does not hold the result. */
  lemma {:induction false} ShortDbxSpoils(l: Layout, now: EfiTime)
    requires Formattable(l) && l.Capacity() >= 168
    ensures var add, append := DbxArgs(ADD, DbxFile(4, Fill(7, 100)), now), DbxArgs(APPEND, DbxFile(100, []), now);
            var m := MapRun(OrderedMap([], map[]), add).1;
            var one := Run(BlankImage(l), add);
            && one.Done? && one.ok && Holds(one.image, l, m)
            && var two := Run(one.image, append); two.Done? && two.ok && !Holds(two.image, l, MapRun(m, append).1)
  {
    hide BlankImage, Holds, Run, MapRun, Formattable, Plain, Limit, AuthSize, OrderedMap.Size, Packable, CheckArgs,
         AddRun, DbxFile;
    var add, append := DbxArgs(ADD, DbxFile(4, Fill(7, 100)), now), DbxArgs(APPEND, DbxFile(100, []), now);
    var start := OrderedMap([], map[]);
    var m := MapRun(start, add).1;
    BlankHolds(l);
    DbxAdded(start, add, Fill(7, 100), now);
    RunRefines(BlankImage(l), l, start, add);
    DbxAppended(m, append, now);
    DbxAppendWritten(Run(BlankImage(l), add).image, l, m, append);
  }

  lemma {:induction false} DbxAdded(start: OrderedMap, a: Args, payload: bytes, now: EfiTime)
    requires start == OrderedMap([], map[]) && a == DbxArgs(ADD, DbxFile(4, payload), now) && |payload| == 100
    ensures MapRun(start, a).0 && Safe(start, a)
    ensures var m := MapRun(start, a).1;
            m.order == [DBX_KEY] && DBX_KEY in m.at && |m.at[DBX_KEY].data| == 100 && m.Size() == 168
  {
    hide MapRun, OrderedMap.Size;
    DbxEdits(a, payload);
    FirstAdd(start, a);
  }

  lemma {:induction false} DbxEdits(a: Args, payload: bytes)
    requires a.operation == ADD && a.name == DBX && a.guid == EFI_GLOBAL_VARIABLE && a.attributes == Absent
    requires a.dataFile == Some(DbxFile(4, payload)) && |payload| == 100
    ensures AddRun(a) && EditOf(a).Target() == DBX_KEY && |EditOf(a).buffer| == 100
    ensures |DBX_KEY.nameBlob| == 8 && Plain(a)
  {
    Limits();
    VendorGuids();
    Spellings();
    DbxFileSize(4, payload);
    hide IsGuid, Lower, DbxFile, Limit, FromLE, Str2Blob;
  }

  lemma {:induction false} DbxAppended(m: OrderedMap, a: Args, now: EfiTime)
    requires m.order == [DBX_KEY] && DBX_KEY in m.at && |m.at[DBX_KEY].data| == 100
    requires a == DbxArgs(APPEND, DbxFile(100, []), now)
    ensures CheckArgs(a) && LowerName(a.name) == DBX && |a.dataFile.value| == 20 && AuthSize(a.dataFile.value) == 116
    ensures MapRun(m, a).1.Size() == 168 && Packable(100 - 96)
  {
    hide IsGuid, Lower, Str2Blob, Str2Guid, Resolve, Limit, LowerName, DbxFile, FromLE;
    Limits();
    VendorGuids();
    Spellings();
    DbxFileSize(100, []);
    DbxEdit(a);
    var e := Resolve(a, true).value;
    assert IsGuid(e.guid) by {
      DbxVendor(a);
    }
    MapEnrolledEffect(m, e);
    var r := MapRun(m, a).1;
    assert r.order == [DBX_KEY];
    OneKey(DBX_KEY, r.at);
  }

  lemma {:induction false} DbxVendor(a: Args)
    requires LowerName(a.name) == DBX && a.dataFile.Some? && |a.dataFile.value| >= 20
    ensures Resolve(a, true).Some? && Resolve(a, true).value.guid == EFI_IMAGE_SECURITY_DATABASE_GUID
  {
    hide FromLE;
  }
}
