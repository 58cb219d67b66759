/** Enrolling keys: certificates accumulate in KEK and db, and the secure-boot run sets up all five
    variables. */
module SecureBoot {
  import opened Bytes
  import opened Guid
  import opened Variables
  import opened StoreImage
  import opened VarList
  import opened Signatures
  import opened Enroll
  import opened Runs

  /** Where a key variable is stored, whatever spelling of its name is given. */
  function StoredKey(name: bytes): Key
  {
    var lower := LowerName(name);
    if lower == LOWER_PK then Key(Str2Blob(PK), Lower(EFI_GLOBAL_VARIABLE))
    else if lower == LOWER_KEK then Key(Str2Blob(KEK), Lower(EFI_GLOBAL_VARIABLE))
    else if lower == DB then Key(Str2Blob(DB), Lower(EFI_IMAGE_SECURITY_DATABASE_GUID))
    else Key(Str2Blob(DBX), Lower(EFI_IMAGE_SECURITY_DATABASE_GUID))
  }

  /** A run that enrolls a certificate whose signature list has 32-bit sizes. */
  predicate CertRun(a: Args)
  {
    && CheckArgs(a) && !a.attributes.Malformed?
    && LowerName(a.name) in {LOWER_PK, LOWER_KEK, DB}
    && (a.operation == ADD || (a.operation == APPEND && LowerName(a.name) != LOWER_PK))
    && ListBlob(CertOf(a)).Some?
  }

  /** The certificate a run enrolls, owned by the GUID it was given. */
  function CertOf(a: Args): X509
  {
    X509(if IsGuid(a.guid) then Str2Guid(a.guid).value else [], if a.dataFile.Some? then a.dataFile.value else [])
  }

  ghost predicate OthersKept(m: OrderedMap, r: OrderedMap, k: Key)
  {
    forall q :: q != k ==> (q in r.at <==> q in m.at) && (q in m.at ==> r.at[q] == m.at[q])
  }

  /** What a run enrolls, whatever the store holds. */
  lemma {:induction false} CertRunResolves(a: Args)
    requires CertRun(a)
    ensures var e := Resolve(a, a.operation == APPEND);
            && e.Some? && e.value.Target() == StoredKey(a.name) && e.value.append == (a.operation == APPEND)
            && e.value.buffer == ListBlob(CertOf(a)).value
            && e.value.attributes == KEY_ATTRIBUTES && IsGuid(e.value.guid)
  {
    hide ListBlob, Str2Guid, Str2Blob, Lower, LowerName;
    assert IsGuid(a.guid);
    VendorGuids();
    hide IsGuid;
  }

  /** One accepted edit replaces the entry's data, or extends it when appending, and keeps the rest. */
  lemma {:induction false} MapEnrolledEffect(m: OrderedMap, e: Edit)
    requires IsGuid(e.guid) && Packable(e.attributes) && Packable(DeclaredSize(m, e))
    ensures var (ok, r), k := MapEnrolled(m, m, Some(e)), e.Target();
            && ok && k in r.at && OthersKept(m, r, k)
            && r.at[k].data == (if e.append && k in m.at then m.at[k].data else []) + e.buffer
            && r.at[k].attributes == e.attributes && r.at[k].timeStamp == e.Time()
  {
    hide Str2Guid, IsGuid, Str2Blob, Lower, Edit.Time, Packable, DeclaredSize;
    assert Str2Guid(e.guid).Some?;
    assert e.buffer == [] + e.buffer;
  }

  /** What a variable holds before a run adds to it. */
  function Kept(m: OrderedMap, a: Args): bytes
  {
    var k := StoredKey(a.name);
    if a.operation == APPEND && k in m.at then m.at[k].data else []
  }

  /** One enrollment replaces the variable's data, or extends it when appending; it is refused exactly
      when the size no longer fits 32 bits. */
  lemma {:induction false} CertRunEffect(m: OrderedMap, a: Args)
    requires CertRun(a)
    ensures var (ok, r), k := MapRun(m, a), StoredKey(a.name);
            && (ok <==> |Kept(m, a)| + CertOf(a).ListSize() < Limit(4))
            && OthersKept(m, r, k)
            && (ok ==> k in r.at && r.at[k].data == Kept(m, a) + ListBlob(CertOf(a)).value)
  {
    hide MapEnrolled, Resolve, ListBlob, IsGuid, LowerName, StoredKey, OthersKept, Limit, Lower, Str2Guid, Edit.Target;
    CertRunResolves(a);
    CertSizes(a);
    var e := Resolve(a, a.operation == APPEND).value;
    assert DeclaredSize(m, e) == |Kept(m, a)| + CertOf(a).ListSize();
    if Packable(DeclaredSize(m, e)) {
      MapEnrolledEffect(m, e);
    } else {
      MapRefuses(m, e);
      NothingChanged(m, StoredKey(a.name));
    }
  }

  lemma {:induction false} MapRefuses(m: OrderedMap, e: Edit)
    requires !Packable(DeclaredSize(m, e))
    ensures MapEnrolled(m, m, Some(e)) == (false, m)
  {
    hide MapAdd, Packable, DeclaredSize;
  }

  lemma {:induction false} CertSizes(a: Args)
    requires CertRun(a)
    ensures var e := Resolve(a, a.operation == APPEND);
            e.Some? && e.value.size == CertOf(a).ListSize() == |ListBlob(CertOf(a)).value| && Packable(KEY_ATTRIBUTES)
  {
    hide ListBlob, Str2Guid, Lower;
    Limits();
    assert IsGuid(a.guid);
    hide IsGuid, Limit;
    ListBlobReads(CertOf(a), []);
  }

  function Certs(runs: seq<Args>): (r: seq<X509>)
    ensures |r| == |runs| && forall i :: 0 <= i < |runs| ==> r[i] == CertOf(runs[i])
  {
    if |runs| == 0 then [] else [CertOf(runs[0])] + Certs(runs[1..])
  }

  lemma {:induction false} AppendsEffect(m: OrderedMap, runs: seq<Args>, k: Key, done: seq<X509>)
    requires forall i :: 0 <= i < |runs| ==> IsAppend(runs[i], k)
    requires k in m.at && Database(done) == Some(m.at[k].data) && |m.at[k].data| < Limit(4)
    ensures var (ok, r) := MapRunAll(m, runs);
            && OthersKept(m, r, k)
            && (ok <==> |m.at[k].data| + SumSizes(Certs(runs)) < Limit(4))
            && (ok ==> k in r.at && Database(done + Certs(runs)) == Some(r.at[k].data))
    decreases |runs|
  {
    hide MapRun, ListBlob, CertRun, StoredKey, Database, CertOf, OthersKept, Certs, SumSizes, Limit;
    CertsSum(runs);
    if |runs| == 0 {
      assert done + Certs(runs) == done;
      NothingChanged(m, k);
    } else {
      var a, rest, n := runs[0], runs[1..], MapRun(m, runs[0]).1;
      CertRunEffect(m, a);
      CertRunHasBlob(a);
      DatabaseSnoc(done, CertOf(a));
      if MapRun(m, a).0 {
        AppendsEffect(n, rest, k, done + [CertOf(a)]);
        OthersChain(m, n, MapRunAll(n, rest).1, k);
        CertsStep(runs, done);
      } else {
        OthersOnly(n, rest, k);
        OthersChain(m, n, MapRunAll(n, rest).1, k);
      }
    }
  }

  predicate IsAppend(a: Args, k: Key)
  {
    CertRun(a) && a.operation == APPEND && StoredKey(a.name) == k
  }

  lemma {:induction false} CertsSum(runs: seq<Args>)
    ensures |runs| == 0 ==> SumSizes(Certs(runs)) == 0
    ensures |runs| > 0 ==> SumSizes(Certs(runs)) == CertOf(runs[0]).ListSize() + SumSizes(Certs(runs[1..]))
  {
    hide CertOf;
    if |runs| > 0 {
      assert Certs(runs)[1..] == Certs(runs[1..]);
    }
  }

  /** Whether accepted or not, enrollments leave all other variables alone. */
  lemma {:induction false} OthersOnly(m: OrderedMap, runs: seq<Args>, k: Key)
    requires forall i :: 0 <= i < |runs| ==> CertRun(runs[i]) && StoredKey(runs[i].name) == k
    ensures OthersKept(m, MapRunAll(m, runs).1, k)
    decreases |runs|
  {
    hide MapRun, CertRun, StoredKey, OthersKept;
    if |runs| == 0 {
      NothingChanged(m, k);
    } else {
      var n := MapRun(m, runs[0]).1;
      CertRunEffect(m, runs[0]);
      OthersOnly(n, runs[1..], k);
      OthersChain(m, n, MapRunAll(n, runs[1..]).1, k);
    }
  }

  lemma {:induction false} NothingChanged(m: OrderedMap, k: Key)
    ensures OthersKept(m, m, k)
  {
  }

  lemma {:induction false} OthersChain(m: OrderedMap, n: OrderedMap, r: OrderedMap, k: Key)
    requires OthersKept(m, n, k) && OthersKept(n, r, k)
    ensures OthersKept(m, r, k)
  {
  }

  lemma {:induction false} CertsStep(runs: seq<Args>, done: seq<X509>)
    requires |runs| > 0
    ensures done + [CertOf(runs[0])] + Certs(runs[1..]) == done + Certs(runs)
  {
    hide CertOf;
  }

  lemma {:induction false} CertRunHasBlob(a: Args)
    requires CertRun(a)
    ensures ListBlob(CertOf(a)).Some? && CertOf(a).Valid()
    ensures |ListBlob(CertOf(a)).value| == CertOf(a).ListSize() < Limit(4)
  {
    hide ListBlob, Limit, Str2Guid;
    assert CertOf(a).Valid();
    ListBlobReads(CertOf(a), []);
    ListBlobFits(CertOf(a));
  }

  lemma {:induction false} ListBlobFits(x: X509)
    requires ListBlob(x).Some?
    ensures x.ListSize() < Limit(4)
  {
    hide Limit, LE;
    Signatures.SizesPack(x.ListSize(), 0, OWNER + |x.cert|);
  }

  /** On the map: one ADD followed by any number of APPENDs leaves the joined lists, if and only if their
      sizes together fit 32 bits. */
  lemma {:induction false} EnrollmentEffect(m: OrderedMap, runs: seq<Args>, k: Key)
    requires |runs| > 0 && runs[0].operation == ADD
    requires forall i :: 0 <= i < |runs| ==> CertRun(runs[i]) && StoredKey(runs[i].name) == k
    requires forall i :: 1 <= i < |runs| ==> runs[i].operation == APPEND
    ensures var (ok, r) := MapRunAll(m, runs);
            && OthersKept(m, r, k)
            && (ok <==> SumSizes(Certs(runs)) < Limit(4))
            && (ok ==> k in r.at && Database(Certs(runs)) == Some(r.at[k].data))
  {
    hide MapRun, ListBlob, CertRun, StoredKey, Database, CertOf, Certs, SumSizes, Limit, OthersKept;
    var a, rest := runs[0], runs[1..];
    CertRunEffect(m, a);
    CertRunHasBlob(a);
    assert Database([]) == Some([]) by {
      EmptyDatabase();
    }
    DatabaseSnoc([], CertOf(a));
    var blob := ListBlob(CertOf(a)).value;
    assert [] + [CertOf(a)] == [CertOf(a)] && [] + blob == blob;
    assert forall i :: 0 <= i < |rest| ==> rest[i] == runs[i + 1];
    var n := MapRun(m, a).1;
    CertsSum(runs);
    AppendsEffect(n, rest, k, [CertOf(a)]);
    OthersChain(m, n, MapRunAll(n, rest).1, k);
    CertsStep(runs, []);
    assert [] + Certs(runs) == Certs(runs) && [] + [CertOf(a)] + Certs(rest) == [CertOf(a)] + Certs(rest);
  }

  lemma {:induction false} EmptyDatabase()
    ensures Database([]) == Some([])
  {
  }

  /** On the image: those runs all report success if and only if the sizes together fit 32 bits, and then
      the stored variable splits, by each list's own size field, into exactly the enrolled certificates in
      order, and its declared size is the sum of theirs. */
  lemma {:induction false} CertificatesDecode(image: bytes, layout: Layout, m: OrderedMap, runs: seq<Args>, k: Key)
    requires Holds(image, layout, m)
    requires |runs| > 0 && runs[0].operation == ADD
    requires forall i :: 0 <= i < |runs| ==> CertRun(runs[i]) && StoredKey(runs[i].name) == k
    requires forall i :: 1 <= i < |runs| ==> runs[i].operation == APPEND
    requires FitsThroughout(m, runs, layout.Capacity())
    ensures RunAll(image, runs).Done? && WellFormed(RunAll(image, runs).image)
    ensures RunAll(image, runs).ok <==> SumSizes(Certs(runs)) < Limit(4)
    ensures RunAll(image, runs).ok ==>
              var vars := VarsOf(RunAll(image, runs).image);
              var i := FirstIndex(vars, k);
              && i < |vars|
              && ReadDatabase(vars[i].data) == Some(Certs(runs))
              && vars[i].dataSize == SumSizes(Certs(runs))
  {
    hide RunAll, MapRunAll, WellFormed, Abs, FirstIndex, CertRun, StoredKey, Database, ReadDatabase, FitsThroughout,
         SafeThroughout, Unique, SumSizes, Variable.Live, Limit, OthersKept, Plain;
    forall i | 0 <= i < |runs|
      ensures Plain(runs[i])
    {
      CertRunPlain(runs[i]);
    }
    PlainIsSafe(m, runs);
    RunsRefineOrderedMap(image, layout, m, runs);
    EnrollmentEffect(m, runs, k);
    if RunAll(image, runs).ok {
      StoredCerts(RunAll(image, runs).image, runs, k);
    }
  }

  lemma {:induction false} StoredCerts(image: bytes, runs: seq<Args>, k: Key)
    requires WellFormed(image) && Unique(VarsOf(image)) && k in Abs(VarsOf(image)).at
    requires forall i :: 0 <= i < |runs| ==> CertRun(runs[i])
    requires Database(Certs(runs)) == Some(Abs(VarsOf(image)).at[k].data)
    ensures var vars := VarsOf(image);
            var i := FirstIndex(vars, k);
            && i < |vars|
            && ReadDatabase(vars[i].data) == Some(Certs(runs))
            && vars[i].dataSize == SumSizes(Certs(runs))
  {
    hide WellFormed, Abs, FirstIndex, CertRun, Database, ReadDatabase, Unique, SumSizes, Variable.Live;
    var vars := VarsOf(image);
    AbsKnows(vars, k);
    AbsAt(vars, FirstIndex(vars, k));
    forall i | 0 <= i < |runs|
      ensures Certs(runs)[i].Valid()
    {
      CertRunHasBlob(runs[i]);
    }
    DatabaseRoundTrip(Certs(runs));
    DatabaseSize(Certs(runs));
    WellFormedFits(image);
    LiveSize(vars, FirstIndex(vars, k));
  }

  lemma {:induction false} LiveSize(vars: seq<Variable>, i: nat)
    requires AllLive(vars) && i < |vars|
    ensures vars[i].dataSize == |vars[i].data|
  {
  }

  lemma {:induction false} CertRunPlain(a: Args)
    requires CertRun(a)
    ensures Plain(a)
  {
    hide ListBlob;
  }

  // The secure-boot run

  const SECURE_BOOT_ENABLE: bytes :=
    [0x53, 0x65, 0x63, 0x75, 0x72, 0x65, 0x42, 0x6f, 0x6f, 0x74, 0x45, 0x6e, 0x61, 0x62, 0x6c, 0x65]

  /** A configured variable: the GUID given for it, its file, and the clock when it is enrolled. */
  datatype Source = Source(guid: string, file: Option<bytes>, now: EfiTime)

  /** The four keys are optional, SecureBootEnable is not. */
  datatype Config = Config(pk: Option<Source>, kek: Option<Source>, db: Option<Source>, dbx: Option<Source>,
                           enable: Source)

  function AddArgs(name: bytes, s: Source, attributes: Attributes): Args
  {
    Args(ADD, name, s.guid, attributes, s.file, s.now)
  }

  function OptionalRun(name: bytes, s: Option<Source>): seq<Args>
  {
    if s.None? then [] else [AddArgs(name, s.value, Absent)]
  }

  /** The runs, in order: PK, KEK, db, dbx where configured, then SecureBootEnable with 0x3. */
  function SecureBootRuns(c: Config): seq<Args>
  {
    OptionalRun(PK, c.pk) + OptionalRun(KEK, c.kek) + OptionalRun(DB, c.db) + OptionalRun(DBX, c.dbx)
    + [AddArgs(SECURE_BOOT_ENABLE, c.enable, Given(0x3))]
  }

  /** Runs that stop at the first one reporting failure. */
  function StopAtFirst(image: bytes, runs: seq<Args>): RunResult
    decreases |runs|
  {
    if |runs| == 0 then Done(true, image)
    else
      match Run(image, runs[0])
      case Done(true, next) => StopAtFirst(next, runs[1..])
      case other => other
  }

  /** Stopping at the first failure reports success exactly when going on would, and then leaves the
      same image. */
  lemma {:induction false} NoneStops(image: bytes, runs: seq<Args>)
    requires RunAll(image, runs).Done?
    ensures StopAtFirst(image, runs).Done?
    ensures StopAtFirst(image, runs).ok <==> RunAll(image, runs).ok
    ensures RunAll(image, runs).ok ==> StopAtFirst(image, runs) == RunAll(image, runs)
    decreases |runs|
  {
    hide Run;
    if |runs| > 0 {
      NoneStops(Run(image, runs[0]).image, runs[1..]);
    }
  }

  /** An ADD that resolves to an edit whose numbers fit their fields. */
  predicate AddRun(a: Args)
  {
    && CheckArgs(a) && !a.attributes.Malformed? && a.operation == ADD
    && Resolve(a, false).Some?
    && IsGuid(Resolve(a, false).value.guid)
    && Packable(Resolve(a, false).value.attributes) && Packable(Resolve(a, false).value.size)
  }

  function EditOf(a: Args): Edit
    requires AddRun(a)
  {
    Resolve(a, false).value
  }

  /** What an ADD leaves under its key. */
  ghost predicate Left(r: OrderedMap, e: Edit)
  {
    && e.Target() in r.at
    && var x := r.at[e.Target()]; x.data == e.buffer && x.attributes == e.attributes && x.timeStamp == e.Time()
  }

  /** ADDs of distinct variables each leave their own data and nothing else. */
  lemma {:induction false} AddRunsEffect(m: OrderedMap, runs: seq<Args>)
    requires forall i :: 0 <= i < |runs| ==> AddRun(runs[i])
    requires forall i, j :: 0 <= i < j < |runs| ==> EditOf(runs[i]).Target() != EditOf(runs[j]).Target()
    ensures var (ok, r) := MapRunAll(m, runs);
            && ok
            && (forall i :: 0 <= i < |runs| ==> Left(r, EditOf(runs[i])))
            && (forall q :: (forall i :: 0 <= i < |runs| ==> EditOf(runs[i]).Target() != q) ==>
                  (q in r.at <==> q in m.at) && (q in m.at ==> r.at[q] == m.at[q]))
    decreases |runs|
  {
    hide Resolve, CheckArgs, MapEnrolled, Edit.Target, Edit.Time, IsGuid;
    if |runs| > 0 {
      var a, rest := runs[0], runs[1..];
      var e, n := EditOf(a), MapRun(m, a).1;
      EditOfAdds(a);
      MapEnrolledEffect(m, e);
      assert [] + e.buffer == e.buffer;
      assert forall i :: 0 <= i < |rest| ==> rest[i] == runs[i + 1];
      AddRunsEffect(n, rest);
      var r := MapRunAll(n, rest).1;
      assert r == MapRunAll(m, runs).1;
      assert forall i :: 0 <= i < |rest| ==> EditOf(rest[i]).Target() != e.Target();
      forall i | 0 <= i < |runs|
        ensures Left(r, EditOf(runs[i]))
      {
        if i > 0 {
          assert runs[i] == rest[i - 1];
        }
      }
      forall q | forall i :: 0 <= i < |runs| ==> EditOf(runs[i]).Target() != q
        ensures (q in r.at <==> q in m.at) && (q in m.at ==> r.at[q] == m.at[q])
      {
        assert forall i :: 0 <= i < |rest| ==> EditOf(rest[i]).Target() != q;
        assert EditOf(runs[0]).Target() != q;
      }
    }
  }

  lemma {:induction false} EditOfAdds(a: Args)
    requires AddRun(a)
    ensures !EditOf(a).append
  {
    hide ListBlob, IsGuid, LowerName, FromLE;
  }

  ghost predicate NamedIn(runs: seq<Args>, names: set<bytes>)
  {
    && (forall i :: 0 <= i < |runs| ==> runs[i].name in names)
    && (forall i, j :: 0 <= i < j < |runs| ==> runs[i].name != runs[j].name)
  }

  lemma {:induction false} NamedExtend(runs: seq<Args>, names: set<bytes>, more: seq<Args>, name: bytes)
    requires NamedIn(runs, names) && name !in names
    requires |more| <= 1 && (|more| == 1 ==> more[0].name == name)
    ensures NamedIn(runs + more, names + {name})
  {
  }

  lemma {:induction false} SecureBootNames(c: Config)
    ensures NamedIn(SecureBootRuns(c), {PK, KEK, DB, DBX, SECURE_BOOT_ENABLE})
  {
    assert |PK| != |KEK| && PK[0] != DB[0] && |PK| != |DBX| && KEK[0] != DB[0] && KEK[0] != DBX[0] && |DB| != |DBX|;
    var runs := OptionalRun(PK, c.pk);
    NamedExtend([], {}, runs, PK);
    assert [] + runs == runs;
    NamedExtend(runs, {PK}, OptionalRun(KEK, c.kek), KEK);
    runs := runs + OptionalRun(KEK, c.kek);
    NamedExtend(runs, {PK, KEK}, OptionalRun(DB, c.db), DB);
    runs := runs + OptionalRun(DB, c.db);
    NamedExtend(runs, {PK, KEK, DB}, OptionalRun(DBX, c.dbx), DBX);
    runs := runs + OptionalRun(DBX, c.dbx);
    assert |SECURE_BOOT_ENABLE| == 16;
    NamedExtend(runs, {PK, KEK, DB, DBX}, [AddArgs(SECURE_BOOT_ENABLE, c.enable, Given(0x3))], SECURE_BOOT_ENABLE);
  }

  /** Spelled as here, each of the five names is stored as it is given. */
  lemma {:induction false} EditKeepsName(a: Args)
    requires AddRun(a) && a.name in {PK, KEK, DB, DBX, SECURE_BOOT_ENABLE}
    ensures EditOf(a).Target().nameBlob == Str2Blob(a.name)
  {
    hide ListBlob, IsGuid, FromLE, Str2Blob, Lower;
    Spellings();
  }

  lemma {:induction false} Spellings()
    ensures LowerName(PK) == LOWER_PK && LowerName(KEK) == LOWER_KEK && LowerName(DB) == DB && LowerName(DBX) == DBX
    ensures !IsKeyVariable(SECURE_BOOT_ENABLE)
  {
    assert |LowerName(SECURE_BOOT_ENABLE)| == 16;
  }

  lemma {:induction false} SecureBootTargets(runs: seq<Args>)
    requires NamedIn(runs, {PK, KEK, DB, DBX, SECURE_BOOT_ENABLE})
    requires forall i :: 0 <= i < |runs| ==> AddRun(runs[i])
    ensures forall i, j :: 0 <= i < j < |runs| ==> EditOf(runs[i]).Target() != EditOf(runs[j]).Target()
  {
    hide AddRun, EditOf, Edit.Target, Str2Blob;
    forall i, j | 0 <= i < j < |runs|
      ensures EditOf(runs[i]).Target() != EditOf(runs[j]).Target()
    {
      EditKeepsName(runs[i]);
      EditKeepsName(runs[j]);
      if EditOf(runs[i]).Target() == EditOf(runs[j]).Target() {
        Str2BlobInjective(runs[i].name, runs[j].name);
      }
    }
  }

  /** The map `r` holds exactly this certificate under the key of `name`, stamped with the clock. */
  ghost predicate HoldsOnly(r: OrderedMap, name: bytes, s: Source)
  {
    var k, x := StoredKey(name), CertOf(AddArgs(name, s, Absent));
    && k in r.at
    && ReadDatabase(r.at[k].data) == Some([x])
    && r.at[k].attributes == KEY_ATTRIBUTES && r.at[k].timeStamp == s.now
  }

  /** The map `r` holds the payload of a dbx file, under the time stamp the file starts with. */
  ghost predicate HoldsDbx(r: OrderedMap, s: Source)
  {
    && s.file.Some? && |s.file.value| >= 20 && AuthSize(s.file.value) <= |s.file.value|
    && StoredKey(DBX) in r.at
    && DbxEntry(r.at[StoredKey(DBX)], s.file.value)
  }

  ghost predicate DbxEntry(x: Entry, f: bytes)
    requires |f| >= 20 && AuthSize(f) <= |f|
  {
    x.data == f[AuthSize(f)..] && x.timeStamp == f[..16] && x.attributes == KEY_ATTRIBUTES
  }

  lemma {:induction false} EnrolledCert(r: OrderedMap, name: bytes, s: Source)
    requires name in {PK, KEK, DB} && AddRun(AddArgs(name, s, Absent))
    requires Left(r, EditOf(AddArgs(name, s, Absent)))
    ensures HoldsOnly(r, name, s)
  {
    hide StoredKey, ListBlob, Edit.Target, IsGuid;
    Spellings();
    var a := AddArgs(name, s, Absent);
    assert CertRun(a);
    CertRunResolves(a);
    EmptyDatabase();
    DatabaseSnoc([], CertOf(a));
    assert [] + [CertOf(a)] == [CertOf(a)] && [] + ListBlob(CertOf(a)).value == ListBlob(CertOf(a)).value;
    DatabaseRoundTrip([CertOf(a)]);
    KeyTime(a);
  }

  /** Key variables carry time-based authentication, so they are stamped with the clock. */
  lemma {:induction false} KeyTime(a: Args)
    requires CertRun(a) && a.operation == ADD
    ensures Resolve(a, false).value.Time() == a.now
  {
    hide ListBlob, IsGuid;
    assert KEY_ATTRIBUTES / TIMEBASED_AUTH_WRITE_ACCESS % 2 == 1;
  }

  lemma {:induction false} EnrolledDbx(r: OrderedMap, s: Source)
    requires AddRun(AddArgs(DBX, s, Absent))
    requires Left(r, EditOf(AddArgs(DBX, s, Absent)))
    ensures HoldsDbx(r, s)
  {
    hide FromLE, IsGuid, Str2Blob, Lower;
    Spellings();
  }

  /** On any map, an ADD is accepted exactly when it resolves to an edit whose numbers fit. */
  lemma {:induction false} AcceptedAdd(m: OrderedMap, a: Args)
    requires a.operation == ADD
    ensures MapRun(m, a).0 <==> AddRun(a)
  {
    hide ListBlob, Str2Blob, Lower, FromLE, Packable;
    VendorGuids();
    hide IsGuid;
    if CheckArgs(a) && !a.attributes.Malformed? && Resolve(a, false).Some? {
      EditOfGuid(a);
    }
  }

  lemma {:induction false} EditOfGuid(a: Args)
    requires CheckArgs(a) && a.operation == ADD && Resolve(a, false).Some?
    ensures IsGuid(Resolve(a, false).value.guid) && !Resolve(a, false).value.append
  {
    hide ListBlob, FromLE;
    VendorGuids();
    hide IsGuid;
  }

  lemma {:induction false} AcceptedAdds(m: OrderedMap, runs: seq<Args>)
    requires forall i :: 0 <= i < |runs| ==> runs[i].operation == ADD
    ensures MapRunAll(m, runs).0 <==> forall i :: 0 <= i < |runs| ==> AddRun(runs[i])
    decreases |runs|
  {
    hide MapRun, AddRun;
    if |runs| > 0 {
      var rest := runs[1..];
      AcceptedAdd(m, runs[0]);
      AcceptedAdds(MapRun(m, runs[0]).1, rest);
      assert forall i :: 0 <= i < |rest| ==> rest[i] == runs[i + 1];
      assert (forall i :: 0 <= i < |runs| ==> AddRun(runs[i])) <==>
               AddRun(runs[0]) && forall i :: 0 <= i < |rest| ==> AddRun(rest[i]) by {
        assert forall i :: 0 < i < |runs| ==> runs[i] == rest[i - 1];
      }
    }
  }

  /** The five names are ASCII, and an accepted dbx file holds its header. */
  lemma {:induction false} AddedPlain(a: Args)
    requires AddRun(a) && a.name in {PK, KEK, DB, DBX, SECURE_BOOT_ENABLE}
    ensures Plain(a)
  {
    hide ListBlob, IsGuid, FromLE, Str2Blob, Lower;
    Spellings();
  }

  lemma {:induction false} AddsSafe(m: OrderedMap, runs: seq<Args>)
    requires forall i :: 0 <= i < |runs| ==> IsAddOf(runs[i], {PK, KEK, DB, DBX, SECURE_BOOT_ENABLE})
    ensures SafeThroughout(m, runs)
    decreases |runs|
  {
    hide MapRun, AddRun, Plain;
    if |runs| > 0 {
      AcceptedAdd(m, runs[0]);
      if AddRun(runs[0]) {
        AddedPlain(runs[0]);
      }
      AddsSafe(MapRun(m, runs[0]).1, runs[1..]);
    }
  }

  predicate IsAddOf(a: Args, names: set<bytes>)
  {
    a.operation == ADD && a.name in names
  }

  lemma {:induction false} SecureBootAdds(c: Config)
    ensures forall i :: 0 <= i < |SecureBootRuns(c)| ==>
              IsAddOf(SecureBootRuns(c)[i], {PK, KEK, DB, DBX, SECURE_BOOT_ENABLE})
  {
  }

  /** The whole secure-boot run, over any well-formed image with unique keys: it succeeds if and only if
      every configured run resolves to an edit whose numbers fit, and then every configured key holds
      exactly its certificate, dbx the payload of its file, SecureBootEnable its file with attributes 3,
      and every variable with another key is as it was. */
  lemma {:induction false} SecureBootEnrolls(image: bytes, layout: Layout, m: OrderedMap, c: Config)
    requires Holds(image, layout, m)
    requires FitsThroughout(m, SecureBootRuns(c), layout.Capacity())
    ensures var runs := SecureBootRuns(c);
            var done, r := StopAtFirst(image, runs), MapRunAll(m, runs).1;
            && done.Done?
            && (done.ok <==> forall i :: 0 <= i < |runs| ==> AddRun(runs[i]))
            && (done.ok ==> Holds(done.image, layout, r) && OutsideKept(image, done.image, layout)
                            && EnrolledAs(m, r, c))
  {
    hide Holds, MapRun, Run, AddRun, FitsThroughout, SafeThroughout, SecureBootRuns, OutsideKept, EnrolledAs;
    var runs := SecureBootRuns(c);
    SecureBootAdds(c);
    AddsSafe(m, runs);
    RunsRefineOrderedMap(image, layout, m, runs);
    AcceptedAdds(m, runs);
    NoneStops(image, runs);
    if RunAll(image, runs).ok {
      SecureBootMap(m, c);
    }
  }

  ghost predicate EnrolledAs(m: OrderedMap, r: OrderedMap, c: Config)
  {
    var enable := Key(Str2Blob(SECURE_BOOT_ENABLE), Lower(c.enable.guid));
    && (c.pk.Some? ==> HoldsOnly(r, PK, c.pk.value))
    && (c.kek.Some? ==> HoldsOnly(r, KEK, c.kek.value))
    && (c.db.Some? ==> HoldsOnly(r, DB, c.db.value))
    && (c.dbx.Some? ==> HoldsDbx(r, c.dbx.value))
    && c.enable.file.Some? && enable in r.at && r.at[enable].data == c.enable.file.value
    && r.at[enable].attributes == 0x3 && r.at[enable].timeStamp == Fill(0, 16)
    && (forall q :: q !in {StoredKey(PK), StoredKey(KEK), StoredKey(DB), StoredKey(DBX), enable} ==>
          (q in r.at <==> q in m.at) && (q in m.at ==> r.at[q] == m.at[q]))
  }

  lemma {:induction false} SecureBootMap(m: OrderedMap, c: Config)
    requires forall i :: 0 <= i < |SecureBootRuns(c)| ==> AddRun(SecureBootRuns(c)[i])
    ensures EnrolledAs(m, MapRunAll(m, SecureBootRuns(c)).1, c)
  {
    hide MapRunAll, AddRun, HoldsOnly, HoldsDbx, SecureBootRuns, StoredKey, Edit.Target, EditOf, Left,
         Str2Blob, Lower;
    var runs, r := SecureBootRuns(c), MapRunAll(m, SecureBootRuns(c)).1;
    SecureBootNames(c);
    SecureBootTargets(runs);
    AddRunsEffect(m, runs);
    KeysHeld(r, c);
    EnableHeld(r, c);
    forall i | 0 <= i < |runs|
      ensures EditOf(runs[i]).Target() in {StoredKey(PK), StoredKey(KEK), StoredKey(DB), StoredKey(DBX),
                                           Key(Str2Blob(SECURE_BOOT_ENABLE), Lower(c.enable.guid))}
    {
      TargetKnown(c, i);
    }
  }

  lemma {:induction false} KeysHeld(r: OrderedMap, c: Config)
    requires forall i :: 0 <= i < |SecureBootRuns(c)| ==>
               AddRun(SecureBootRuns(c)[i]) && Left(r, EditOf(SecureBootRuns(c)[i]))
    ensures c.pk.Some? ==> HoldsOnly(r, PK, c.pk.value)
    ensures c.kek.Some? ==> HoldsOnly(r, KEK, c.kek.value)
    ensures c.db.Some? ==> HoldsOnly(r, DB, c.db.value)
    ensures c.dbx.Some? ==> HoldsDbx(r, c.dbx.value)
  {
    hide AddRun, HoldsOnly, HoldsDbx, SecureBootRuns, EditOf, Left;
    RunAt(c);
    if c.pk.Some? {
      EnrolledCert(r, PK, c.pk.value);
    }
    if c.kek.Some? {
      EnrolledCert(r, KEK, c.kek.value);
    }
    if c.db.Some? {
      EnrolledCert(r, DB, c.db.value);
    }
    if c.dbx.Some? {
      EnrolledDbx(r, c.dbx.value);
    }
  }

  lemma {:induction false} EnableHeld(r: OrderedMap, c: Config)
    requires forall i :: 0 <= i < |SecureBootRuns(c)| ==>
               AddRun(SecureBootRuns(c)[i]) && Left(r, EditOf(SecureBootRuns(c)[i]))
    ensures var enable := Key(Str2Blob(SECURE_BOOT_ENABLE), Lower(c.enable.guid));
            && c.enable.file.Some? && enable in r.at && r.at[enable].data == c.enable.file.value
            && r.at[enable].attributes == 0x3 && r.at[enable].timeStamp == Fill(0, 16)
  {
    hide AddRun, SecureBootRuns, EditOf, Edit.Target, Edit.Time, Str2Blob, Lower;
    RunAt(c);
    EnableEdit(c);
  }

  /** Each configured run is among the runs. */
  lemma {:induction false} RunAt(c: Config)
    ensures var runs := SecureBootRuns(c);
            && (c.pk.Some? ==> AddArgs(PK, c.pk.value, Absent) in runs)
            && (c.kek.Some? ==> AddArgs(KEK, c.kek.value, Absent) in runs)
            && (c.db.Some? ==> AddArgs(DB, c.db.value, Absent) in runs)
            && (c.dbx.Some? ==> AddArgs(DBX, c.dbx.value, Absent) in runs)
            && AddArgs(SECURE_BOOT_ENABLE, c.enable, Given(0x3)) in runs
  {
  }

  lemma {:induction false} EnableEdit(c: Config)
    requires AddRun(AddArgs(SECURE_BOOT_ENABLE, c.enable, Given(0x3)))
    ensures var e := EditOf(AddArgs(SECURE_BOOT_ENABLE, c.enable, Given(0x3)));
            && c.enable.file.Some? && e.buffer == c.enable.file.value && e.attributes == 0x3 && e.Time() == Fill(0, 16)
            && e.Target() == Key(Str2Blob(SECURE_BOOT_ENABLE), Lower(c.enable.guid))
  {
    hide Str2Blob, Lower, IsGuid;
    Spellings();
  }

  lemma {:induction false} TargetKnown(c: Config, i: nat)
    requires i < |SecureBootRuns(c)| && AddRun(SecureBootRuns(c)[i])
    ensures EditOf(SecureBootRuns(c)[i]).Target() in
            {StoredKey(PK), StoredKey(KEK), StoredKey(DB), StoredKey(DBX),
             Key(Str2Blob(SECURE_BOOT_ENABLE), Lower(c.enable.guid))}
  {
    hide Str2Blob, Lower, IsGuid, ListBlob, FromLE;
    Spellings();
  }
}
