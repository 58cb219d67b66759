/** Records that are written but not read back as they were written: names that do not decode, and
    records declaring less than they hold. */
module Misread {
  import opened Bytes
  import opened Struct
  import opened Guid
  import opened Variables
  import opened StoreImage
  import opened VarList
  import opened Enroll

  lemma {:induction false} AddedWritten(image: bytes, layout: Layout, vars: seq<Variable>, e: Edit)
    requires Placed(image, layout) && AllLive(vars) && Unique(vars) && FirstIndex(vars, e.Target()) == |vars|
    requires AddTo(vars, e).Some? && e.size == |e.buffer| && Packable(e.attributes)
    requires Abs(AddTo(vars, e).value).Size() <= layout.Capacity() && layout.storeSize < Limit(4)
    ensures var r := AddTo(vars, e).value;
            && Serialize(r).Some? && |Serialize(r).value| <= layout.Capacity()
            && Placed(WriteBack(image, layout, Serialize(r).value), layout)
            && FindVarInfo(WriteBack(image, layout, Serialize(r).value))
            == if Ascii(e.name) then Found(layout, r, TotalSize(r)) else Fails
  {
    hide Unique, Abs, AddTo, Serialize, WriteBack, AllLive, OrderedMap.Size, TotalSize, Limit,
         AllPrintable, AllReadable, Ascii, FirstIndex, Placed, FindVarInfo, Packable;
    var r := AddTo(vars, e).value;
    AddRefines(vars, e);
    AbsSize(r);
    AddPrintable(vars, e);
    SerializeLive(r);
    ImageRoundTrip(image, layout, r);
  }

  /** A live record that goes on after the bytes it declares. */
  ghost predicate Overlong(u: Variable)
  {
    0 <= u.dataSize < |u.data| && Cut(u).Live()
  }

  /** The part of a record that its declared size covers. */
  function Cut(u: Variable): Variable
    requires 0 <= u.dataSize <= |u.data|
  {
    u.(data := u.data[..u.dataSize])
  }

  /** An overlong record packs, and starts with what its cut packs to. */
  lemma {:induction false} OverlongPacks(u: Variable)
    requires Overlong(u)
    ensures u.Padded().Some? && |u.Padded().value| == u.PaddedSize() && u.PaddedSize() % 4 == 0
    ensures Cut(u).Blob().Some? && |Cut(u).Blob().value| < |u.Padded().value|
    ensures u.Padded().value[..|Cut(u).Blob().value|] == Cut(u).Blob().value
  {
    hide Pack, Size, Variable.Printable, Utf8;
    assert Cut(u).Blob().Some? by {
      PaddedLive(Cut(u));
    }
    HeaderSize();
    assert Cut(u).HeaderVals() == u.HeaderVals();
    SplitCut(Pack(VAR_CODES, u.HeaderVals()).value, u.nameBlob, u.data, u.dataSize);
  }

  lemma {:induction false} SplitCut(h: bytes, n: bytes, d: bytes, k: nat)
    requires k <= |d|
    ensures forall pad: bytes :: ((h + n + d) + pad)[..|h + n + d[..k]|] == h + n + d[..k]
  {
    forall pad: bytes
      ensures ((h + n + d) + pad)[..|h + n + d[..k]|] == h + n + d[..k]
    {
      assert (h + n + d) + pad == (h + n + d[..k]) + (d[k..] + pad);
    }
  }

  /** Records up to position `i` are live, and the one there is overlong. */
  ghost predicate LiveUpTo(vars: seq<Variable>, i: nat)
  {
    i < |vars| && (forall j :: 0 <= j < |vars| && j != i ==> vars[j].Live()) && Overlong(vars[i])
  }

  lemma {:induction false} SerializeOverlong(vars: seq<Variable>, i: nat)
    requires LiveUpTo(vars, i)
    ensures Serialize(vars).Some? && |Serialize(vars).value| == TotalSize(vars)
  {
    hide Variable.Padded, Variable.PaddedSize, Variable.Printable, Overlong, Utf8;
    var rest := vars[1..];
    if i == 0 {
      OverlongPacks(vars[0]);
      assert AllPrintable(rest);
      SerializeLive(rest);
    } else {
      assert forall j :: 0 <= j < |rest| ==> rest[j] == vars[j + 1];
      SerializeOverlong(rest, i - 1);
      PaddedLive(vars[0]);
    }
  }

  /** Reading them back, the walk lists the records before it and then its cut; what follows depends on
      the bytes it left over. */
  lemma {:induction false} ParseOverlong(raw: bytes, begin: nat, end: nat, vars: seq<Variable>, i: nat)
    requires LiveUpTo(vars, i) && begin % 4 == 0 && Serialize(vars).Some?
    requires begin + |Serialize(vars).value| <= Min(end, |raw|)
    requires raw[begin..begin + |Serialize(vars).value|] == Serialize(vars).value
    ensures var p := ParseVars(raw, begin, end);
            p.Some? ==> vars[..i] + [Cut(vars[i])] <= p.value.vars
    decreases |vars|
  {
    hide ScanAt, Variable.Padded, Variable.Blob, Variable.PaddedSize, Variable.Printable, Variable.Recorded, Utf8,
         Overlong, LiveUpTo, Variable.Live;
    FirstOrLater(vars, i);
    var v, blob := vars[0], Serialize(vars).value;
    var head, tail := v.Padded().value, Serialize(vars[1..]).value;
    assert blob == head + tail;
    if i == 0 {
      OverlongPacks(v);
      OverlongLive(v);
      LiveIsRecorded(Cut(v));
      HeadStands(raw, begin, head, tail, Cut(v).Blob().value);
      ScanReads(raw, begin, Cut(v));
    } else {
      LiveIsRecorded(v);
      LivePads(v);
      HeadStands(raw, begin, head, tail, v.Blob().value);
      ScanReads(raw, begin, v);
      ParseOverlong(raw, begin + |head|, end, vars[1..], i - 1);
      assert vars[..i] == [v] + vars[1..][..i - 1];
    }
  }

  lemma {:induction false} FirstOrLater(vars: seq<Variable>, i: nat)
    requires LiveUpTo(vars, i)
    ensures i < |vars|
    ensures if i == 0 then Overlong(vars[0]) else vars[0].Live() && LiveUpTo(vars[1..], i - 1)
  {
    hide Variable.Live, Overlong;
    assert forall j :: 0 <= j < |vars[1..]| ==> vars[1..][j] == vars[j + 1];
  }

  lemma {:induction false} LivePads(v: Variable)
    requires v.Live()
    ensures v.Blob().Some? && v.Padded().Some?
    ensures |v.Padded().value| == v.PaddedSize() > 0 && v.PaddedSize() % 4 == 0
    ensures |v.Blob().value| <= v.PaddedSize() && v.Padded().value[..|v.Blob().value|] == v.Blob().value
  {
    hide Variable.Padded, Variable.Blob, Variable.PaddedSize, Variable.Printable;
    PaddedLive(v);
  }

  lemma {:induction false} HeadStands(raw: bytes, at: nat, head: bytes, tail: bytes, b: bytes)
    requires at + |head| + |tail| <= |raw| && raw[at..at + |head + tail|] == head + tail
    requires |b| <= |head| && head[..|b|] == b
    ensures raw[at..at + |b|] == b && raw[at + |head|..at + |head| + |tail|] == tail
  {
    var all := raw[at..at + |head + tail|];
    assert raw[at..at + |b|] == all[..|b|] == head[..|b|];
    assert raw[at + |head|..at + |head| + |tail|] == all[|head|..];
  }

  lemma {:induction false} LiveIsRecorded(v: Variable)
    requires v.Live()
    ensures v.Recorded() && v.state == 0x3f && Utf8(v.nameBlob)
  {
  }

  lemma {:induction false} OverlongLive(u: Variable)
    requires Overlong(u)
    ensures Cut(u).Live() && 0 <= u.dataSize < |u.data|
  {
  }

  /** Writing them to an image: the write goes through, and whoever opens the result finds the records
      before the overlong one as they were, and that one cut to the size it declares. */
  lemma {:induction false} OverlongWritten(image: bytes, layout: Layout, vars: seq<Variable>, i: nat)
    requires Placed(image, layout) && LiveUpTo(vars, i) && TotalSize(vars) <= layout.Capacity()
    ensures Serialize(vars).Some? && |Serialize(vars).value| <= layout.Capacity()
    ensures var w := WriteBack(image, layout, Serialize(vars).value);
            Placed(w, layout) && ReadsCut(vars, w, i)
  {
    hide Volume, StoreHeader, Serialize, ParseVars, InStore, WriteBack, LiveUpTo;
    SerializeOverlong(vars, i);
    TotalSizeAligned(vars);
    var blob := Serialize(vars).value;
    var w := WriteBack(image, layout, blob);
    SyncEffect(image, layout, blob);
    PlacedStays(image, w, layout);
    var raw := Raw(w, layout.volumeSize, layout.headerLen);
    RawAfterWrite(w, layout, blob);
    assert i < |vars| && 0 <= vars[i].dataSize <= |vars[i].data| by {
      LiveUpToAt(vars, i);
    }
    ParseOverlong(raw, STORE_HEADER, layout.storeSize, vars, i);
    if FindVarInfo(w).Found? {
      var read := FindVarInfo(w).vars;
      assert read[..i] == read[..i + 1][..i] == vars[..i] && read[i] == read[..i + 1][i];
    }
  }

  /** Opening the image, if that works, shows the first `i` variables as they are and the next one cut. */
  ghost predicate ReadsCut(vars: seq<Variable>, image: bytes, i: nat)
  {
    && i < |vars| && 0 <= vars[i].dataSize <= |vars[i].data| && Volume(Slice(image, 0, 128)).Some?
    && (FindVarInfo(image).Found? ==>
          var read := FindVarInfo(image).vars;
          i < |read| && read[..i] == vars[..i] && read[i] == Cut(vars[i]))
  }

  lemma {:induction false} LiveUpToAt(vars: seq<Variable>, i: nat)
    requires LiveUpTo(vars, i)
    ensures i < |vars| && 0 <= vars[i].dataSize < |vars[i].data|
  {
  }

  /** So the result does not hold the list that was written. */
  lemma {:induction false} OverlongLost(image: bytes, layout: Layout, vars: seq<Variable>, i: nat)
    requires Placed(image, layout) && LiveUpTo(vars, i) && Unique(vars) && TotalSize(vars) <= layout.Capacity()
    ensures Serialize(vars).Some?
    ensures !Holds(WriteBack(image, layout, Serialize(vars).value), layout, Abs(vars))
  {
    hide Volume, StoreHeader, Serialize, ParseVars, InStore, WriteBack, LiveUpTo, Placed, TotalSize, RecordsInside,
         Abs, FirstIndex, Unique;
    OverlongWritten(image, layout, vars, i);
    LiveUpToAt(vars, i);
    var w := WriteBack(image, layout, Serialize(vars).value);
    if Holds(w, layout, Abs(vars)) {
      var read := VarsOf(w);
      SameData(read, vars, i);
      assert false;
    }
  }

  lemma {:induction false} SameData(a: seq<Variable>, b: seq<Variable>, i: nat)
    requires Unique(a) && Unique(b) && Abs(a) == Abs(b)
    requires i < |a| && i < |b| && KeyOf(a[i]) == KeyOf(b[i])
    ensures a[i].data == b[i].data
  {
    hide Abs, FirstIndex, Unique;
    AbsAt(a, i);
    AbsAt(b, i);
  }

  // Edits that make such records

  /** The size an edited record declares, as on the map. */
  lemma {:induction false} EditedSize(vars: seq<Variable>, e: Edit)
    requires AllLive(vars) && Unique(vars) && AddTo(vars, e).Some?
    ensures var i, r := FirstIndex(vars, e.Target()), AddTo(vars, e).value;
            i < |r| && r[i].attributes == e.attributes && r[i].dataSize == DeclaredSize(Abs(vars), e)
  {
    hide Variable.Live, Abs, FirstIndex, Str2Blob, Lower, Str2Guid, Edit.Time;
    var i := FirstIndex(vars, e.Target());
    AbsKnows(vars, e.Target());
    if i < |vars| {
      AbsAt(vars, i);
      LiveSizes(vars[i]);
    }
  }

  lemma {:induction false} LiveSizes(v: Variable)
    requires v.Live()
    ensures v.dataSize == |v.data| && Utf8(v.nameBlob)
  {
  }

  /** An accepted edit of a payload cut short makes an overlong record of a stored one. */
  lemma {:induction false} ShortEdit(vars: seq<Variable>, e: Edit)
    requires AllLive(vars) && Unique(vars) && AddTo(vars, e).Some?
    requires e.size < 0 && e.buffer == [] && Packable(e.attributes) && Packable(DeclaredSize(Abs(vars), e))
    ensures var i := FirstIndex(vars, e.Target());
            && e.append && i < |vars|
            && LiveUpTo(AddTo(vars, e).value, i)
            && AddTo(vars, e).value[..i] == vars[..i]
            && KeyOf(AddTo(vars, e).value[i]) == KeyOf(vars[i])
            && 0 <= |vars[i].data| + e.size <= |vars[i].data|
            && Cut(AddTo(vars, e).value[i]).data == vars[i].data[..|vars[i].data| + e.size]
  {
    hide Variable.Live, Abs, FirstIndex, Str2Blob, Lower, Str2Guid, Edit.Time, Overlong, Limit;
    var i, r := FirstIndex(vars, e.Target()), AddTo(vars, e).value;
    AbsKnows(vars, e.Target());
    AbsAt(vars, i);
    EditedSize(vars, e);
    ShortRecord(vars[i], e);
    assert LiveUpTo(r, i);
    assert r[i].data == vars[i].data;
  }

  lemma {:induction false} ShortRecord(v: Variable, e: Edit)
    requires v.Live() && e.append && e.size < 0 && e.buffer == [] && Packable(e.attributes)
    requires Packable(|v.data| + e.size)
    ensures Overlong(Updated(v, e)) && Updated(v, e).data == v.data && Updated(v, e).dataSize == |v.data| + e.size
  {
    hide Guid2Str, Limit, Utf8;
    var u := Updated(v, e);
    assert u.data == v.data;
    forall i | 0 <= i < |VAR_CODES|
      ensures Struct.Fits(VAR_CODES[i], Cut(u).HeaderVals()[i])
    {
      assert Struct.Fits(VAR_CODES[i], v.HeaderVals()[i]);
    }
  }

  /** A name that is not ASCII is never a stored one: it could not have been read. */
  lemma {:induction false} UnreadableAbsent(vars: seq<Variable>, e: Edit)
    requires AllLive(vars) && !Ascii(e.name)
    ensures FirstIndex(vars, e.Target()) == |vars|
  {
    hide Variable.Live, Ascii, Str2Blob, Lower, FirstIndex, Utf8;
    var i := FirstIndex(vars, e.Target());
    NameReadableIffAscii(e.name);
    if i < |vars| {
      StoredReadable(vars, i);
      assert false;
    }
  }

  lemma {:induction false} StoredReadable(vars: seq<Variable>, i: nat)
    requires AllLive(vars) && i < |vars|
    ensures Utf8(KeyOf(vars[i]).nameBlob)
  {
    hide Utf8, Variable.Printable;
  }
}
