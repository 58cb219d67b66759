/** Where the two headers of an image keep what the tool reads from them, byte for byte. */
module ImageLayout {
  import opened Bytes
  import opened Struct
  import opened Guid
  import opened StoreImage
  import opened Variables

  predicate IsLower(s: string)
  {
    forall i :: 0 <= i < |s| ==> LowerChar(s[i]) == s[i]
  }

  lemma {:induction false} JoinedIsLower(f0: string, f1: string, f2: string, f3: string, f4: string)
    requires IsLower(f0) && IsLower(f1) && IsLower(f2) && IsLower(f3) && IsLower(f4)
    ensures var s := f0 + "-" + f1 + "-" + f2 + "-" + f3 + "-" + f4; Lower(s) == s
  {
  }

  /** The two GUIDs the tool looks for are accepted texts, already in lower case. */
  lemma {:induction false} NvramGuid()
    ensures IsGuid(NVRAM)
  {
    hide IsGuid;
    JoinedIsGuid("fff12b8d", "7696", "4c8b", "a985", "2747075b4f50");
  }

  lemma {:induction false} NvramLower()
    ensures Lower(NVRAM) == NVRAM
  {
    hide Lower;
    JoinedIsLower("fff12b8d", "7696", "4c8b", "a985", "2747075b4f50");
  }

  lemma {:induction false} TimeBasedGuid()
    ensures IsGuid(TIME_BASED)
  {
    hide IsGuid;
    JoinedIsGuid("aaf32c78", "947b", "439a", "a180", "2e144ec37792");
  }

  lemma {:induction false} TimeBasedLower()
    ensures Lower(TIME_BASED) == TIME_BASED
  {
    hide Lower;
    JoinedIsLower("aaf32c78", "947b", "439a", "a180", "2e144ec37792");
  }

  lemma {:induction false} HeaderTexts()
    ensures IsGuid(NVRAM) && Guid2Str(Str2Guid(NVRAM).value) == NVRAM
    ensures IsGuid(TIME_BASED) && Guid2Str(Str2Guid(TIME_BASED).value) == TIME_BASED
  {
    hide IsGuid, Str2Guid, Guid2Str, Lower;
    NvramGuid();
    NvramLower();
    TextRoundTrip(NVRAM);
    TimeBasedGuid();
    TimeBasedLower();
    TextRoundTrip(TIME_BASED);
  }

  lemma {:induction false} HeaderSizes()
    ensures Size(VOLUME_CODES) == VOLUME_HEADER && Size(STORE_CODES) == STORE_HEADER
  {
    SizeFrom(VOLUME_CODES, 9);
    SizeFrom(VOLUME_CODES, 6);
    SizeFrom(VOLUME_CODES, 3);
    SizeFrom(STORE_CODES, 5);
    SizeFrom(STORE_CODES, 2);
  }

  // The two GUIDs as they are stored

  const NVRAM_BYTES: bytes :=
    [0x8d, 0x2b, 0xf1, 0xff, 0x96, 0x76, 0x8b, 0x4c, 0xa9, 0x85, 0x27, 0x47, 0x07, 0x5b, 0x4f, 0x50]
  const TIME_BASED_BYTES: bytes :=
    [0x78, 0x2c, 0xf3, 0xaa, 0x7b, 0x94, 0x9a, 0x43, 0xa1, 0x80, 0x2e, 0x14, 0x4e, 0xc3, 0x77, 0x92]

  lemma {:induction false} NvramBytes()
    ensures IsGuid(NVRAM) && Str2Guid(NVRAM) == Some(NVRAM_BYTES)
  {
    hide IsGuid, Str2Guid;
    NvramGuid();
    GroupBytes("fff12b8d", "7696", "4c8b", "a985", "2747075b4f50");
  }

  lemma {:induction false} TimeBasedBytes()
    ensures IsGuid(TIME_BASED) && Str2Guid(TIME_BASED) == Some(TIME_BASED_BYTES)
  {
    hide IsGuid, Str2Guid;
    TimeBasedGuid();
    GroupBytes("aaf32c78", "947b", "439a", "a180", "2e144ec37792");
  }

  /** Sixteen bytes print as an accepted lower-case text exactly when they are its stored form. */
  lemma {:induction false} PrintsAs(b: bytes, s: string)
    requires |b| == 16 && IsGuid(s) && Guid2Str(Str2Guid(s).value) == s
    ensures Guid2Str(b) == s <==> b == Str2Guid(s).value
  {
    hide Guid2Str, Str2Guid, IsGuid, AllowedNibbles;
    PrintedIsGuid(b);
    if Guid2Str(b) == s {
      BinaryRoundTrip(b);
    }
  }

  // The headers

  /** A volume is accepted if and only if its GUID and magic stand at bytes 16 and 40 of a header of at
      least 56 bytes; its size is read from byte 32 and its header length from byte 48. */
  lemma {:induction false} VolumeLayout(data: bytes)
    ensures Volume(data)
         == if |data| >= 56 && data[16..32] == NVRAM_BYTES && data[40..44] == [0x5f, 0x46, 0x56, 0x48]
            then Some((FromLE(data[32..40]), FromLE(data[48..50])))
            else None
  {
    hide FromLE, Unpack, Guid2Str, Size, Str2Guid, IsGuid;
    HeaderSizes();
    var h := Slice(data, 0, 56);
    VolumeUnpacks(h);
    if |data| >= 56 {
      SubSlices(data, 56);
      VolumeFields(h);
      HeaderTexts();
      NvramBytes();
      PrintsAs(h[16..32], NVRAM);
    }
  }

  lemma {:induction false} VolumeFields(h: bytes)
    requires |h| == 56 && Size(VOLUME_CODES) == 56
    ensures var vals := Unpack(VOLUME_CODES, h).value;
            && vals[1] == Str(h[16..32]) && vals[2] == Num(FromLE(h[32..40])) && vals[3] == Str(h[40..44])
            && vals[5] == Num(FromLE(h[48..50]))
  {
    hide FromLE, Unpack, Size;
    VolumeOffsets();
    hide Offset;
    UnpackAt(VOLUME_CODES, h, 1);
    UnpackAt(VOLUME_CODES, h, 2);
    UnpackAt(VOLUME_CODES, h, 3);
    UnpackAt(VOLUME_CODES, h, 5);
  }

  lemma {:induction false} VolumeOffsets()
    ensures Offset(VOLUME_CODES, 1) == 16 && Offset(VOLUME_CODES, 2) == 32 && Offset(VOLUME_CODES, 3) == 40
    ensures Offset(VOLUME_CODES, 5) == 48
  {
    assert Offset(VOLUME_CODES, 1) == 16;
    assert Offset(VOLUME_CODES, 3) == 40;
  }

  /** A store is accepted if and only if its GUID stands at the front of a header of at least 28 bytes;
      its size is read from byte 16. */
  lemma {:induction false} StoreHeaderLayout(raw: bytes)
    ensures StoreHeader(raw)
         == if |raw| < 28 then Unreadable
            else if raw[0..16] == TIME_BASED_BYTES then Supported(FromLE(raw[16..20]))
            else Unsupported
  {
    hide FromLE, Unpack, Guid2Str, Size, Str2Guid, IsGuid, Limit;
    HeaderSizes();
    var h := Slice(raw, 0, 28);
    StoreUnpacks(h);
    if |raw| >= 28 {
      SubSlices(raw, 28);
      StoreFields(h);
      HeaderTexts();
      TimeBasedBytes();
      PrintsAs(h[0..16], TIME_BASED);
    }
  }

  lemma {:induction false} StoreFields(h: bytes)
    requires |h| == 28 && Size(STORE_CODES) == 28
    ensures var vals := Unpack(STORE_CODES, h).value;
            vals[0] == Str(h[0..16]) && vals[1] == Num(FromLE(h[16..20]))
  {
    hide FromLE, Unpack, Size;
    assert Offset(STORE_CODES, 0) == 0 && Offset(STORE_CODES, 1) == 16;
    hide Offset;
    UnpackAt(STORE_CODES, h, 0);
    UnpackAt(STORE_CODES, h, 1);
  }
}
