/** What a run does, in terms of its arguments alone: when it is accepted, and what it then stores. */
module Effects {
  import opened Bytes
  import opened Guid
  import opened Variables
  import opened StoreImage
  import opened ImageLayout
  import opened VarList
  import opened Signatures
  import opened Enroll
  import opened Runs
  import opened SecureBoot

  // Names and GUIDs

  /** The key variables in all their spellings: letters of PK, KEK, db and dbx in either case. */
  lemma {:induction false} KeyNames(name: bytes)
    ensures LowerName(name) == LOWER_PK <==> |name| == 2 && name[0] in {0x50, 0x70} && name[1] in {0x4b, 0x6b}
    ensures LowerName(name) == LOWER_KEK
       <==> |name| == 3 && name[0] in {0x4b, 0x6b} && name[1] in {0x45, 0x65} && name[2] in {0x4b, 0x6b}
    ensures LowerName(name) == DB <==> |name| == 2 && name[0] in {0x44, 0x64} && name[1] in {0x42, 0x62}
    ensures LowerName(name) == DBX
       <==> |name| == 3 && name[0] in {0x44, 0x64} && name[1] in {0x42, 0x62} && name[2] in {0x58, 0x78}
  {
    var s := LowerName(name);
    assert |s| == |name|;
    if |name| == 2 {
      assert s == [s[0], s[1]];
    } else if |name| == 3 {
      assert s == [s[0], s[1], s[2]];
    }
  }

  const GLOBAL_BYTES: bytes :=
    [0x61, 0xdf, 0xe4, 0x8b, 0xca, 0x93, 0xd2, 0x11, 0xaa, 0x0d, 0x00, 0xe0, 0x98, 0x03, 0x2b, 0x8c]
  const SECURITY_BYTES: bytes :=
    [0xcb, 0xb2, 0x19, 0xd7, 0x3a, 0x3d, 0x96, 0x45, 0xa3, 0xbc, 0xda, 0xd0, 0x0e, 0x67, 0x65, 0x6f]

  /** The vendor GUIDs of the key variables as they are stored. */
  lemma {:induction false} VendorBytes()
    ensures Str2Guid(EFI_GLOBAL_VARIABLE) == Some(GLOBAL_BYTES)
    ensures Str2Guid(EFI_IMAGE_SECURITY_DATABASE_GUID) == Some(SECURITY_BYTES)
  {
    hide IsGuid, Str2Guid;
    VendorGuids();
    GlobalBytes();
    SecurityBytes();
  }

  lemma {:induction false} GlobalBytes()
    requires IsGuid(EFI_GLOBAL_VARIABLE)
    ensures Str2Guid(EFI_GLOBAL_VARIABLE) == Some(GLOBAL_BYTES)
  {
    hide IsGuid, Str2Guid;
    GroupBytes("8BE4DF61", "93CA", "11d2", "AA0D", "00E098032B8C");
  }

  lemma {:induction false} SecurityBytes()
    requires IsGuid(EFI_IMAGE_SECURITY_DATABASE_GUID)
    ensures Str2Guid(EFI_IMAGE_SECURITY_DATABASE_GUID) == Some(SECURITY_BYTES)
  {
    hide IsGuid, Str2Guid;
    GroupBytes("d719b2cb", "3d3a", "4596", "a3bc", "dad00e67656f");
  }

  // What is stored

  datatype Kind = PlatformKey | Certificates | Revocations | Ordinary

  function KindOf(name: bytes): Kind
  {
    var lower := LowerName(name);
    if lower == LOWER_PK then PlatformKey
    else if lower == LOWER_KEK || lower == DB then Certificates
    else if lower == DBX then Revocations
    else Ordinary
  }

  function KeyFor(a: Args): Key
  {
    if KindOf(a.name).Ordinary? then Key(Str2Blob(a.name), Lower(a.guid)) else StoredKey(a.name)
  }

  /** How many bytes the data file adds to what a variable declares. */
  function Growth(a: Args, file: bytes): int
  {
    match KindOf(a.name)
    case Revocations => if |file| < 20 then 0 else |file| - (FromLE(file[16..20]) + 16)
    case Ordinary => |file|
    case _ => 44 + |file|
  }

  /** The bytes themselves. */
  function Payload(a: Args, file: bytes): bytes
  {
    match KindOf(a.name)
    case Revocations => if |file| < 20 then [] else Slice(file, FromLE(file[16..20]) + 16, |file|)
    case Ordinary => file
    case _ =>
      var list := ListBlob(X509(if IsGuid(a.guid) then Str2Guid(a.guid).value else [], file));
      if list.Some? then list.value else []
  }

  function AttributesFor(a: Args): int
  {
    if !KindOf(a.name).Ordinary? then 0x27 else if a.attributes.Given? then a.attributes.n else 0
  }

  /** A dbx file brings its time stamp; otherwise the clock is used where the attributes ask for
      authenticated writes, and no time elsewhere. */
  function TimeFor(a: Args, file: bytes): bytes
  {
    if KindOf(a.name).Revocations? && |file| >= 20 then file[..16]
    else if AttributesFor(a) / 0x20 % 2 == 1 then a.now
    else Fill(0, 16)
  }

  function VendorFor(a: Args): bytes
  {
    var lower := LowerName(a.name);
    if lower == LOWER_PK || lower == LOWER_KEK then GLOBAL_BYTES
    else if lower == DB || lower == DBX then SECURITY_BYTES
    else if IsGuid(a.guid) then Str2Guid(a.guid).value
    else []
  }

  /** What the variable holds before the file's bytes come behind it. */
  function Before(m: OrderedMap, a: Args, append: bool): bytes
  {
    if append && KeyFor(a) in m.at then m.at[KeyFor(a)].data else []
  }

  /** Whether the file can be stored: PK cannot be appended to, a dbx file must reach its own length
      field, and attributes and sizes must fit 32 bits. */
  predicate Storable(m: OrderedMap, a: Args, append: bool)
  {
    a.dataFile.Some? &&
    var file := a.dataFile.value;
    && (KindOf(a.name).PlatformKey? ==> !append)
    && (KindOf(a.name).Revocations? ==> |file| >= 20)
    && (KindOf(a.name) in {PlatformKey, Certificates} ==> 44 + |file| < 0x1_0000_0000)
    && 0 <= AttributesFor(a) < 0x1_0000_0000
    && 0 <= |Before(m, a, append)| + Growth(a, file) < 0x1_0000_0000
  }

  /** The map `r` is `m` with the file's bytes stored: at the end of the order if the key is new, with new
      attributes and time, all other entries untouched. */
  ghost predicate StoredIn(m: OrderedMap, r: OrderedMap, a: Args, append: bool)
    requires a.dataFile.Some?
  {
    var k, file := KeyFor(a), a.dataFile.value;
    && OthersKept(m, r, k) && k in r.at
    && r.order == (if k in m.at then m.order else m.order + [k])
    && r.at[k].data == Before(m, a, append) + Payload(a, file)
    && r.at[k].attributes == AttributesFor(a) && r.at[k].timeStamp == TimeFor(a, file)
    && (if k in m.at then
          r.at[k].count == m.at[k].count && r.at[k].pkIndex == m.at[k].pkIndex && r.at[k].rsvd == m.at[k].rsvd
          && r.at[k].vendorGuid == m.at[k].vendorGuid
        else
          r.at[k].count == 0 && r.at[k].pkIndex == 0 && r.at[k].rsvd == 0 && r.at[k].vendorGuid == VendorFor(a))
  }

  /** What the arguments resolve to, if to anything. */
  lemma {:induction false} ResolveIs(a: Args, append: bool)
    requires CheckArgs(a) && !a.attributes.Malformed? && a.operation != DEL
    ensures a.dataFile.Some?
    ensures Resolve(a, append).Some?
       <==> (KindOf(a.name).PlatformKey? ==> !append) && (KindOf(a.name).Revocations? ==> |a.dataFile.value| >= 20)
            && (KindOf(a.name) in {PlatformKey, Certificates} ==> 44 + |a.dataFile.value| < 0x1_0000_0000)
    ensures Resolve(a, append).Some? ==>
              var e, file := Resolve(a, append).value, a.dataFile.value;
              && e.Target() == KeyFor(a) && e.size == Growth(a, file) && e.buffer == Payload(a, file)
              && e.attributes == AttributesFor(a) && e.Time() == TimeFor(a, file) && e.append == append
              && Str2Guid(e.guid) == Some(VendorFor(a))
  {
    hide ListBlob, Str2Guid, Str2Blob, Lower, FromLE, Limit;
    Limits();
    VendorBytes();
    assert IsGuid(a.guid) && a.dataFile.Some?;
    hide IsGuid;
    ListPrints(X509(Str2Guid(a.guid).value, a.dataFile.value));
  }

  /** One edit on the map, in those terms. */
  lemma {:induction false} EnrolledIs(before: OrderedMap, m: OrderedMap, a: Args, append: bool)
    requires CheckArgs(a) && !a.attributes.Malformed? && a.operation != DEL
    ensures a.dataFile.Some?
    ensures var r := MapEnrolled(before, m, Resolve(a, append));
            && r.0 == Storable(m, a, append)
            && (if r.0 then StoredIn(m, r.1, a, append) else r.1 == before)
  {
    hide Resolve, CheckArgs, KeyFor, Growth, Payload, AttributesFor, TimeFor, VendorFor, Str2Guid, KindOf, Limit,
         Edit.Target, Edit.Time;
    Limits();
    ResolveIs(a, append);
    if Resolve(a, append).Some? {
      var e := Resolve(a, append).value;
      assert e.buffer == [] + e.buffer;
      assert MapAdd(m, e).Some?;
    }
  }

  /** Whether a run reports success. */
  predicate Reports(m: OrderedMap, a: Args)
  {
    && IsGuid(a.guid) && !a.attributes.Malformed?
    && (a.operation.DEL?
        || (a.dataFile.Some? && (KindOf(a.name).Ordinary? ==> a.attributes.Given?)
            && (match a.operation
                case ADD => Storable(m, a, false)
                case APPEND => Storable(m, a, true)
                case _ => a.Target() in m.at ==> Storable(m.Remove(a.Target()), a, true))))
  }

  /** What one run does to the map, operation by operation. Deleting needs no data file and no attributes,
      and succeeds whether or not there is such a variable; updating an absent variable does nothing; an
      update moves the variable to the end. */
  lemma {:induction false} RunEffect(m: OrderedMap, a: Args)
    ensures var (ok, r), k := MapRun(m, a), a.Target();
            && ok == Reports(m, a)
            && (!ok ==> r == m)
            && (ok && a.operation.ADD? ==> StoredIn(m, r, a, false))
            && (ok && a.operation.APPEND? ==> StoredIn(m, r, a, true))
            && (ok && a.operation.DEL? ==> Removed(m, r, k))
            && (ok && a.operation.UPDATE? && k !in m.at ==> r == m)
            && (ok && a.operation.UPDATE? && k in m.at ==>
                  Removed(m, m.Remove(k), k) && StoredIn(m.Remove(k), r, a, true))
  {
    hide MapEnrolled, Resolve, Storable, StoredIn, IsGuid, OrderedMap.Remove, Removed;
    RemovedIs(m, a.Target());
    KeyKinds(a.name);
    if CheckArgs(a) && !a.attributes.Malformed? && a.operation != DEL {
      match a.operation
      case ADD => EnrolledIs(m, m, a, false);
      case APPEND => EnrolledIs(m, m, a, true);
      case _ => EnrolledIs(m, m.Remove(a.Target()), a, true);
    }
  }

  lemma {:induction false} KeyKinds(name: bytes)
    ensures IsKeyVariable(name) <==> !KindOf(name).Ordinary?
  {
    hide LowerName;
  }

  /** The map `r` is `m` without the key; the others keep their entries and their order. */
  ghost predicate Removed(m: OrderedMap, r: OrderedMap, k: Key)
  {
    && k !in r.at && OthersKept(m, r, k)
    && (k !in m.at ==> r == m)
    && (k in m.at ==> r.order == Without(m.order, k))
  }

  lemma {:induction false} RemovedIs(m: OrderedMap, k: Key)
    ensures Removed(m, if k in m.at then m.Remove(k) else m, k)
  {
    hide Without;
  }

  /** An NVRAM volume header at the front. */
  predicate HasVolume(image: bytes)
  {
    |image| >= 56 && image[16..32] == NVRAM_BYTES && image[40..44] == [0x5f, 0x46, 0x56, 0x48]
  }

  /** A run on an image, down to its bytes: when it raises, when it never ends, and when it fails without
      looking at the arguments. In all other cases the arguments are checked and the listed variables
      processed. */
  lemma {:induction false} RunOnImage(image: bytes, a: Args)
    ensures |image| == 0 ==> Run(image, a) == Escapes
    ensures |image| > 0 && !HasVolume(image) ==> Run(image, a) == Hangs
    ensures HasVolume(image) ==>
              var size, start := FromLE(image[32..40]), FromLE(image[48..50]);
              var raw := Raw(image, size, start);
              Run(image, a)
              == if |raw| < 28 then Escapes
                 else if raw[0..16] != TIME_BASED_BYTES then Done(false, image)
                 else
                   var parsed := ParseVars(raw, 28, FromLE(raw[16..20]));
                   if parsed.None? then Escapes
                   else if !CheckArgs(a) then Done(false, image)
                   else Finish(image, Layout(size, start, FromLE(raw[16..20])), ProcessVar(parsed.value.vars, a))
  {
    hide Volume, StoreHeader, ParseVars, CheckArgs, ProcessVar, Finish, FromLE;
    var head := Slice(image, 0, 128);
    VolumeLayout(head);
    if |image| >= 56 {
      assert head[16..32] == image[16..32] && head[40..44] == image[40..44];
      assert head[32..40] == image[32..40] && head[48..50] == image[48..50];
      if Volume(head).Some? {
        StoreHeaderLayout(Raw(image, FromLE(image[32..40]), FromLE(image[48..50])));
      }
    }
  }

  /** The arguments are checked like this: an accepted GUID always, a data file except for deleting, and
      numeric attributes for ordinary variables, again except for deleting. */
  lemma {:induction false} ArgumentsChecked(a: Args)
    ensures CheckArgs(a)
       <==> IsGuid(a.guid)
            && (a.operation != DEL ==> a.dataFile.Some? && (KindOf(a.name).Ordinary? ==> a.attributes.Given?))
  {
    hide IsGuid;
    KeyKinds(a.name);
  }

  // The order of the secure-boot variables

  function Configured(name: bytes, s: Option<Source>): seq<Key>
  {
    if s.None? then [] else [StoredKey(name)]
  }

  /** On a store without them, the secure-boot run puts PK, KEK, db, dbx and SecureBootEnable behind the
      variables that are there, in this order, as far as they are configured. */
  lemma {:induction false} SecureBootOrder(m: OrderedMap, c: Config)
    requires forall i :: 0 <= i < |SecureBootRuns(c)| ==> AddRun(SecureBootRuns(c)[i])
    requires forall i :: 0 <= i < |SecureBootRuns(c)| ==> KeyFor(SecureBootRuns(c)[i]) !in m.at
    ensures MapRunAll(m, SecureBootRuns(c)).1.order
         == m.order + (Configured(PK, c.pk) + Configured(KEK, c.kek) + Configured(DB, c.db) + Configured(DBX, c.dbx)
                       + [Key(Str2Blob(SECURE_BOOT_ENABLE), Lower(c.enable.guid))])
  {
    hide MapRun, AddRun, KeyFor, Str2Blob, Lower, StoredKey, EditOf, Edit.Target;
    var runs := SecureBootRuns(c);
    SecureBootNames(c);
    SecureBootTargets(runs);
    forall i | 0 <= i < |runs|
      ensures EditOf(runs[i]).Target() == KeyFor(runs[i])
    {
      TargetIsKey(runs[i]);
    }
    AddsInOrder(m, runs);
    ConfiguredKeys(c);
  }

  function KeysFor(runs: seq<Args>): (r: seq<Key>)
    ensures |r| == |runs| && forall i :: 0 <= i < |runs| ==> r[i] == KeyFor(runs[i])
  {
    if |runs| == 0 then [] else [KeyFor(runs[0])] + KeysFor(runs[1..])
  }

  lemma {:induction false} TargetIsKey(a: Args)
    requires AddRun(a)
    ensures EditOf(a).Target() == KeyFor(a)
  {
    hide Resolve, CheckArgs, KeyFor, IsGuid, Edit.Target, Edit.Time, Growth, Payload, AttributesFor, TimeFor, VendorFor,
         Str2Guid;
    ResolveIs(a, false);
  }

  lemma {:induction false} AddsInOrder(m: OrderedMap, runs: seq<Args>)
    requires forall i :: 0 <= i < |runs| ==> AddRun(runs[i]) && KeyFor(runs[i]) !in m.at
    requires forall i, j :: 0 <= i < j < |runs| ==> KeyFor(runs[i]) != KeyFor(runs[j])
    ensures MapRunAll(m, runs).1.order == m.order + KeysFor(runs)
    decreases |runs|
  {
    hide MapRun, AddRun, KeyFor;
    if |runs| == 0 {
      assert m.order + [] == m.order;
    } else {
      var a, rest, n := runs[0], runs[1..], MapRun(m, runs[0]).1;
      OneAdd(m, a);
      assert forall i :: 0 <= i < |rest| ==> rest[i] == runs[i + 1];
      AddsInOrder(n, rest);
      assert m.order + [KeyFor(a)] + KeysFor(rest) == m.order + ([KeyFor(a)] + KeysFor(rest));
    }
  }

  lemma {:induction false} OneAdd(m: OrderedMap, a: Args)
    requires AddRun(a) && KeyFor(a) !in m.at
    ensures MapRun(m, a).1.order == m.order + [KeyFor(a)]
    ensures forall q :: q in MapRun(m, a).1.at <==> q in m.at || q == KeyFor(a)
  {
    hide MapRun, KeyFor, Resolve, CheckArgs, IsGuid, Reports;
    AcceptedAdd(m, a);
    RunEffect(m, a);
  }

  lemma {:induction false} ConfiguredKeys(c: Config)
    ensures KeysFor(SecureBootRuns(c))
         == Configured(PK, c.pk) + Configured(KEK, c.kek) + Configured(DB, c.db) + Configured(DBX, c.dbx)
            + [Key(Str2Blob(SECURE_BOOT_ENABLE), Lower(c.enable.guid))]
  {
    hide KeyFor, Str2Blob, Lower, StoredKey;
    KeyOfName(PK);
    KeyOfName(KEK);
    KeyOfName(DB);
    KeyOfName(DBX);
    EnableKey(c.enable);
  }

  lemma {:induction false} KeyOfName(name: bytes)
    requires name in {PK, KEK, DB, DBX}
    ensures forall s: Source, t: Attributes :: KeyFor(AddArgs(name, s, t)) == StoredKey(name)
  {
    hide StoredKey, Str2Blob, Lower;
    Spellings();
  }

  lemma {:induction false} EnableKey(s: Source)
    ensures KeyFor(AddArgs(SECURE_BOOT_ENABLE, s, Given(0x3))) == Key(Str2Blob(SECURE_BOOT_ENABLE), Lower(s.guid))
  {
    hide StoredKey, Str2Blob, Lower;
    Spellings();
    KeyKinds(SECURE_BOOT_ENABLE);
  }
}
