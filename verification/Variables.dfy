/** One variable record: the 60-byte time-based authenticated header, the name and the data. */
module Variables {
  import opened Bytes
  import opened Struct
  import opened Guid

  const VAR_CODES: seq<Code> := [U(2), U(1), U(1), U(4), U(8), S(16), U(4), U(4), U(4), S(16)]
  const HEADER_SIZE: nat := 60
  const START_ID := 0x55aa
  const VAR_ADDED := 0x3f

  /** The state of a variable record. `guidText` is what lookups compare; `nameBlob` is UTF-16. */
  datatype Variable = Variable(
    startId: int, state: int, rsvd: int, attributes: int, count: int, timeStamp: bytes,
    pkIndex: int, nameSize: int, dataSize: int, vendorGuid: bytes, guidText: string,
    nameBlob: bytes, data: bytes)
  {
    function HeaderVals(): (vals: seq<Val>)
      ensures |vals| == |VAR_CODES|
    {
      [Num(startId), Num(state), Num(rsvd), Num(attributes), Num(count), Str(timeStamp),
       Num(pkIndex), Num(nameSize), Num(dataSize), Str(vendorGuid)]
    }

    /** The binary form; packing raises when a field does not fit its width. */
    function Blob(): Option<bytes>
    {
      var header :- Pack(VAR_CODES, HeaderVals());
      Some(header + nameBlob + data)
    }

    /** The binary form followed by 0xFF up to a multiple of four. */
    function Padded(): Option<bytes>
    {
      var blob :- Blob();
      Some(blob + Fill(0xff, Align4(|blob|) - |blob|))
    }

    /** A record in any state whose fields fit and whose stored sizes are the sizes of what is stored. */
    ghost predicate Recorded()
    {
      && startId == START_ID
      && (forall i :: 0 <= i < |VAR_CODES| ==> Struct.Fits(VAR_CODES[i], HeaderVals()[i]))
      && nameSize == |nameBlob| && dataSize == |data|
      && guidText == Guid2Str(vendorGuid)
    }

    /** ... which is in the added state, not deleted or being deleted. */
    ghost predicate Printable()
    {
      Recorded() && state == VAR_ADDED
    }

    /** ... and whose name decodes when it is read back. */
    ghost predicate Live()
    {
      Printable() && Utf8(nameBlob)
    }

    function PaddedSize(): nat
    {
      Align4(HEADER_SIZE + |nameBlob| + |data|)
    }
  }

  ghost predicate HeaderShape(vals: seq<Val>)
  {
    && |vals| == 10
    && vals[0].Num? && vals[1].Num? && vals[2].Num? && vals[3].Num? && vals[4].Num?
    && vals[5].Str? && vals[6].Num? && vals[7].Num? && vals[8].Num? && vals[9].Str?
    && vals[7].n >= 0 && vals[8].n >= 0
  }

  lemma {:induction false} UnpackedShape(vals: seq<Val>)
    requires |vals| == |VAR_CODES| && forall i :: 0 <= i < |VAR_CODES| ==> Struct.Fits(VAR_CODES[i], vals[i])
    ensures HeaderShape(vals)
  {
    assert VAR_CODES[0].U? && VAR_CODES[1].U? && VAR_CODES[2].U? && VAR_CODES[3].U? && VAR_CODES[4].U?;
    assert VAR_CODES[5].S? && VAR_CODES[6].U? && VAR_CODES[7].U? && VAR_CODES[8].U? && VAR_CODES[9].S?;
  }

  function FromHeader(vals: seq<Val>): (v: Variable)
    requires HeaderShape(vals)
    ensures v.nameSize >= 0 && v.dataSize >= 0 && v.HeaderVals() == vals
  {
    Variable(vals[0].n, vals[1].n, vals[2].n, vals[3].n, vals[4].n, vals[5].s, vals[6].n,
             vals[7].n, vals[8].n, vals[9].s, Guid2Str(vals[9].s), [], [])
  }

  /** The header fields, with name and data still empty. */
  function ParseHeader(bs: bytes): (r: Option<Variable>)
    ensures r.Some? <==> |bs| == HEADER_SIZE
    ensures r.Some? ==> r.value.nameSize >= 0 && r.value.dataSize >= 0
  {
    HeaderSize();
    match Unpack(VAR_CODES, bs)
    case None => None
    case Some(vals) =>
      UnpackedShape(vals);
      Some(FromHeader(vals))
  }

  lemma {:induction false} HeaderSize()
    ensures Size(VAR_CODES) == HEADER_SIZE
  {
    SizeFrom(VAR_CODES, 9);
    SizeFrom(VAR_CODES, 6);
    SizeFrom(VAR_CODES, 3);
  }

  lemma {:induction false} SizeFrom(fmt: seq<Code>, k: nat)
    requires k < |fmt|
    ensures Size(fmt[k..]) == fmt[k].width + Size(fmt[k + 1..])
    ensures k + 1 < |fmt| ==> Size(fmt[k + 1..]) == fmt[k + 1].width + Size(fmt[k + 2..])
    ensures k + 2 < |fmt| ==> Size(fmt[k + 2..]) == fmt[k + 2].width + Size(fmt[k + 3..])
  {
    assert fmt[k..][1..] == fmt[k + 1..];
    if k + 1 < |fmt| {
      assert fmt[k + 1..][1..] == fmt[k + 2..];
      if k + 2 < |fmt| {
        assert fmt[k + 2..][1..] == fmt[k + 3..];
      }
    }
  }

  /** Printing then parsing a header loses nothing. */
  lemma {:induction false} HeaderRoundTrip(v: Variable)
    requires v.Recorded()
    ensures Pack(VAR_CODES, v.HeaderVals()).Some?
    ensures var h := Pack(VAR_CODES, v.HeaderVals()).value;
            |h| == HEADER_SIZE && FromLE(h[..2]) == START_ID && ParseHeader(h) == Some(v.(nameBlob := [], data := []))
  {
    HeaderSize();
    var vals := v.HeaderVals();
    UnpackOfPack(VAR_CODES, vals);
    var h := Pack(VAR_CODES, vals).value;
    assert vals[0] == UnpackOne(VAR_CODES[0], h[..2]);
  }

  /** The printed record splits back into header, name and data at the stored sizes. */
  lemma {:induction false} BlobRoundTrip(v: Variable)
    requires v.Recorded()
    ensures v.Blob().Some?
    ensures var b := v.Blob().value;
            && |b| == HEADER_SIZE + |v.nameBlob| + |v.data|
            && FromLE(b[..2]) == START_ID
            && ParseHeader(b[..HEADER_SIZE]) == Some(v.(nameBlob := [], data := []))
            && b[HEADER_SIZE..HEADER_SIZE + v.nameSize] == v.nameBlob
            && b[HEADER_SIZE + v.nameSize..] == v.data
  {
    HeaderRoundTrip(v);
    Split3(Pack(VAR_CODES, v.HeaderVals()).value, v.nameBlob, v.data);
  }

  lemma {:induction false} Split3(h: bytes, n: bytes, d: bytes)
    requires |h| >= 2
    ensures var b := h + n + d;
            && b[..2] == h[..2] && b[..|h|] == h && b[|h|..|h| + |n|] == n && b[|h| + |n|..] == d
  {
  }

  // Where the fields of a record lie

  lemma {:induction false} VarOffsets()
    ensures Offset(VAR_CODES, 0) == 0 && Offset(VAR_CODES, 1) == 2 && Offset(VAR_CODES, 2) == 3
    ensures Offset(VAR_CODES, 3) == 4 && Offset(VAR_CODES, 4) == 8 && Offset(VAR_CODES, 5) == 16
    ensures Offset(VAR_CODES, 6) == 32 && Offset(VAR_CODES, 7) == 36 && Offset(VAR_CODES, 8) == 40
    ensures Offset(VAR_CODES, 9) == 44
  {
    assert Offset(VAR_CODES, 1) == 2;
    assert Offset(VAR_CODES, 3) == 4;
    assert Offset(VAR_CODES, 5) == 16;
    assert Offset(VAR_CODES, 7) == 36;
  }

  /** The 60 header bytes of a record: start id, state, reserved byte, attributes, count, time stamp, key
      index, name size, data size and vendor GUID. */
  ghost predicate HeaderLaidOut(v: Variable, b: bytes)
  {
    && |b| >= 60
    && b[0..2] == [0xaa, 0x55] && b[2] == v.state && b[3] == v.rsvd
    && FromLE(b[4..8]) == v.attributes && FromLE(b[8..16]) == v.count && b[16..32] == v.timeStamp
    && FromLE(b[32..36]) == v.pkIndex && FromLE(b[36..40]) == v.nameSize && FromLE(b[40..44]) == v.dataSize
    && b[44..60] == v.vendorGuid
  }

  /** A printed record, byte for byte: the header as laid out, then name and data. */
  lemma {:induction false} RecordLayout(v: Variable)
    requires v.Recorded()
    ensures v.Blob().Some?
    ensures var b := v.Blob().value;
            && HeaderLaidOut(v, b) && |b| == 60 + |v.nameBlob| + |v.data|
            && b[60..60 + |v.nameBlob|] == v.nameBlob && b[60 + |v.nameBlob|..] == v.data
  {
    hide FromLE, Pack, Unpack, Guid2Str, Limit, ParseHeader, Struct.Fits;
    BlobRoundTrip(v);
    var b := v.Blob().value;
    var h := b[..HEADER_SIZE];
    HeaderLayout(h);
    SubSlices(b, HEADER_SIZE);
    StartBytes(b[0..2]);
  }

  lemma {:induction false} SubSlices(b: bytes, n: nat)
    requires n <= |b|
    ensures forall i, j :: 0 <= i <= j <= n ==> b[..n][i..j] == b[i..j]
  {
  }

  lemma {:induction false} StartBytes(bs: bytes)
    requires |bs| == 2 && FromLE(bs) == START_ID
    ensures bs == [0xaa, 0x55]
  {
    assert FromLE(bs[1..]) == bs[1] + 256 * FromLE(bs[1..][1..]);
    var lo, hi: int := bs[0], bs[1];
    assert lo + 256 * hi == 0x55aa;
  }

  /** And reading: the fields of any 60 bytes are those laid out there, whatever the start id. */
  lemma {:induction false} HeaderLayout(bs: bytes)
    requires |bs| == 60
    ensures ParseHeader(bs).Some?
    ensures var v := ParseHeader(bs).value;
            && v.startId == FromLE(bs[0..2]) && v.state == bs[2] && v.rsvd == bs[3]
            && v.attributes == FromLE(bs[4..8]) && v.count == FromLE(bs[8..16]) && v.timeStamp == bs[16..32]
            && v.pkIndex == FromLE(bs[32..36]) && v.nameSize == FromLE(bs[36..40])
            && v.dataSize == FromLE(bs[40..44]) && v.vendorGuid == bs[44..60] && v.guidText == Guid2Str(bs[44..60])
  {
    hide FromLE, Unpack, Guid2Str, Size, Offset;
    HeaderSize();
    FirstFields(bs);
    MiddleFields(bs);
    LastFields(bs);
  }

  lemma {:induction false} FirstFields(bs: bytes)
    requires |bs| == 60 && Size(VAR_CODES) == 60
    ensures var vals := Unpack(VAR_CODES, bs).value;
            vals[0] == Num(FromLE(bs[0..2])) && vals[1] == Num(bs[2]) && vals[2] == Num(bs[3])
            && vals[3] == Num(FromLE(bs[4..8]))
  {
    hide FromLE, Unpack, Size, Offset;
    VarOffsets();
    UnpackAt(VAR_CODES, bs, 0);
    UnpackAt(VAR_CODES, bs, 1);
    UnpackAt(VAR_CODES, bs, 2);
    UnpackAt(VAR_CODES, bs, 3);
    ByteValue(bs[2..3]);
    ByteValue(bs[3..4]);
  }

  lemma {:induction false} MiddleFields(bs: bytes)
    requires |bs| == 60 && Size(VAR_CODES) == 60
    ensures var vals := Unpack(VAR_CODES, bs).value;
            vals[4] == Num(FromLE(bs[8..16])) && vals[5] == Str(bs[16..32]) && vals[6] == Num(FromLE(bs[32..36]))
  {
    hide FromLE, Unpack, Size, Offset;
    VarOffsets();
    UnpackAt(VAR_CODES, bs, 4);
    UnpackAt(VAR_CODES, bs, 5);
    UnpackAt(VAR_CODES, bs, 6);
  }

  lemma {:induction false} LastFields(bs: bytes)
    requires |bs| == 60 && Size(VAR_CODES) == 60
    ensures var vals := Unpack(VAR_CODES, bs).value;
            vals[7] == Num(FromLE(bs[36..40])) && vals[8] == Num(FromLE(bs[40..44])) && vals[9] == Str(bs[44..60])
  {
    hide FromLE, Unpack, Size, Offset;
    VarOffsets();
    UnpackAt(VAR_CODES, bs, 7);
    UnpackAt(VAR_CODES, bs, 8);
    UnpackAt(VAR_CODES, bs, 9);
  }

  lemma {:induction false} ByteValue(bs: bytes)
    requires |bs| == 1
    ensures FromLE(bs) == bs[0]
  {
    assert FromLE(bs[1..]) == 0;
  }

  // Names

  predicate Cont(b: byte)
  {
    0x80 <= b < 0xc0
  }

  /** Whether `bytes.decode()` accepts the bytes: well-formed UTF-8, without surrogates. */
  predicate Utf8(bs: bytes)
  {
    if |bs| == 0 then true
    else if bs[0] < 0x80 then Utf8(bs[1..])
    else if 0xc2 <= bs[0] <= 0xdf then
      |bs| >= 2 && Cont(bs[1]) && Utf8(bs[2..])
    else if 0xe0 <= bs[0] <= 0xef then
      && |bs| >= 3 && Cont(bs[1]) && Cont(bs[2])
      && (bs[0] == 0xe0 ==> bs[1] >= 0xa0) && (bs[0] == 0xed ==> bs[1] < 0xa0)
      && Utf8(bs[3..])
    else if 0xf0 <= bs[0] <= 0xf4 then
      && |bs| >= 4 && Cont(bs[1]) && Cont(bs[2]) && Cont(bs[3])
      && (bs[0] == 0xf0 ==> bs[1] >= 0x90) && (bs[0] == 0xf4 ==> bs[1] < 0x90)
      && Utf8(bs[4..])
    else false
  }

  predicate Ascii(name: bytes)
  {
    forall i :: 0 <= i < |name| ==> name[i] < 0x80
  }

  /** The stored form of a name given as its UTF-8 bytes: each byte widened to 16 bits, then a
      16-bit zero. */
  function Str2Blob(name: bytes): (r: bytes)
    ensures |r| == 2 * |name| + 2
  {
    if |name| == 0 then [0, 0] else [name[0], 0] + Str2Blob(name[1..])
  }

  lemma {:induction false} Str2BlobAt(name: bytes, i: nat)
    requires i < |name|
    ensures Str2Blob(name)[2 * i] == name[i] && Str2Blob(name)[2 * i + 1] == 0
    ensures Str2Blob(name)[2 * |name|..] == [0, 0]
  {
    var s := Str2Blob(name);
    assert s[2..] == Str2Blob(name[1..]);
    if i > 0 {
      Str2BlobAt(name[1..], i - 1);
      assert s[2 * i] == s[2..][2 * (i - 1)] && s[2 * i + 1] == s[2..][2 * (i - 1) + 1];
    }
    if |name| > 1 {
      Str2BlobAt(name[1..], 0);
    }
    assert s[2 * |name|..] == s[2..][2 * (|name| - 1)..];
  }

  lemma {:induction false} Str2BlobInjective(a: bytes, b: bytes)
    requires Str2Blob(a) == Str2Blob(b)
    ensures a == b
  {
    if |a| == |b| && |a| > 0 {
      var s, t := Str2Blob(a), Str2Blob(b);
      assert s[0] == a[0] && t[0] == b[0];
      assert s[2..] == Str2Blob(a[1..]) && t[2..] == Str2Blob(b[1..]);
      Str2BlobInjective(a[1..], b[1..]);
      assert a == [a[0]] + a[1..] && b == [b[0]] + b[1..];
    }
  }

  /** A stored name can be read back by the next run exactly when it is ASCII: widening separates
      the bytes of every longer UTF-8 sequence by a zero. */
  lemma {:induction false} NameReadableIffAscii(name: bytes)
    ensures Utf8(Str2Blob(name)) <==> Ascii(name)
  {
    var s := Str2Blob(name);
    if |name| == 0 {
      assert s[1..][1..] == [];
      assert Utf8(s[1..][1..]) && Utf8(s[1..]);
    } else {
      NameReadableIffAscii(name[1..]);
      assert s[0] == name[0] && s[1] == 0;
      assert s[1..][1..] == Str2Blob(name[1..]);
      if name[0] < 0x80 {
        assert Utf8(s) == Utf8(s[1..]) == Utf8(s[1..][1..]);
        assert name == [name[0]] + name[1..];
      } else {
        assert !Cont(s[1]);
      }
    }
  }

  // What decodes

  /** A Unicode scalar value. */
  predicate Scalar(c: nat)
  {
    c < 0xd800 || 0xe000 <= c < 0x11_0000
  }

  /** Its UTF-8 form. */
  function EncodeScalar(c: nat): (r: bytes)
    requires Scalar(c)
    ensures 0 < |r|
  {
    if c < 0x80 then [c]
    else if c < 0x800 then [0xc0 + c / 64, 0x80 + c % 64]
    else if c < 0x1_0000 then [0xe0 + c / 4096, 0x80 + c / 64 % 64, 0x80 + c % 64]
    else [0xf0 + c / 262144, 0x80 + c / 4096 % 64, 0x80 + c / 64 % 64, 0x80 + c % 64]
  }

  ghost predicate Scalars(cs: seq<nat>)
  {
    forall i :: 0 <= i < |cs| ==> Scalar(cs[i])
  }

  function EncodeAll(cs: seq<nat>): bytes
    requires Scalars(cs)
  {
    if |cs| == 0 then [] else EncodeScalar(cs[0]) + EncodeAll(cs[1..])
  }

  /** Encoded text decodes ... */
  lemma {:induction false} EncodedDecodes(cs: seq<nat>)
    requires Scalars(cs)
    ensures Utf8(EncodeAll(cs))
  {
    if |cs| > 0 {
      EncodedDecodes(cs[1..]);
      FirstScalar(cs[0], EncodeAll(cs[1..]));
    }
  }

  lemma {:induction false} FirstScalar(c: nat, rest: bytes)
    requires Scalar(c)
    ensures Utf8(EncodeScalar(c) + rest) == Utf8(rest)
  {
    var a := EncodeScalar(c);
    assert (a + rest)[|a|..] == rest;
  }

  /** ... and nothing else does. */
  lemma {:induction false} DecodesEncoded(bs: bytes) returns (cs: seq<nat>)
    requires Utf8(bs)
    ensures Scalars(cs) && EncodeAll(cs) == bs
  {
    if |bs| == 0 {
      return [];
    }
    var c, n := FirstOf(bs);
    var rest := DecodesEncoded(bs[n..]);
    cs := [c] + rest;
    assert cs[1..] == rest;
    assert bs == bs[..n] + bs[n..];
  }

  lemma {:induction false} FirstOf(bs: bytes) returns (c: nat, n: nat)
    requires Utf8(bs) && |bs| > 0
    ensures Scalar(c) && 0 < n <= |bs| && EncodeScalar(c) == bs[..n] && Utf8(bs[n..])
  {
    if bs[0] < 0x80 {
      return bs[0], 1;
    } else if bs[0] <= 0xdf {
      c, n := 64 * (bs[0] as int - 0xc0) + (bs[1] as int - 0x80), 2;
    } else if bs[0] <= 0xef {
      n := 3;
      c := ThreeBytes(bs[0], bs[1], bs[2]);
    } else {
      n := 4;
      c := FourBytes(bs[0], bs[1], bs[2], bs[3]);
    }
  }

  lemma {:induction false} ThreeBytes(a: int, b: int, d: int) returns (c: nat)
    requires 0xe0 <= a <= 0xef && 0x80 <= b < 0xc0 && 0x80 <= d < 0xc0
    requires (a == 0xe0 ==> b >= 0xa0) && (a == 0xed ==> b < 0xa0)
    ensures Scalar(c) && EncodeScalar(c) == [a, b, d]
  {
    c := 64 * (64 * (a - 0xe0) + (b - 0x80)) + (d - 0x80);
    Digits(a - 0xe0, b - 0x80, d - 0x80);
  }

  lemma {:induction false} FourBytes(a: int, b: int, d: int, e: int) returns (c: nat)
    requires 0xf0 <= a <= 0xf4 && 0x80 <= b < 0xc0 && 0x80 <= d < 0xc0 && 0x80 <= e < 0xc0
    requires (a == 0xf0 ==> b >= 0x90) && (a == 0xf4 ==> b < 0x90)
    ensures Scalar(c) && EncodeScalar(c) == [a, b, d, e]
  {
    c := 64 * (64 * (64 * (a - 0xf0) + (b - 0x80)) + (d - 0x80)) + (e - 0x80);
    Digits(64 * (a - 0xf0) + (b - 0x80), d - 0x80, e - 0x80);
    Digits(a - 0xf0, b - 0x80, d - 0x80);
  }

  lemma {:induction false} Digits(a: nat, x: nat, y: nat)
    requires x < 64 && y < 64
    ensures var c := 64 * (64 * a + x) + y;
            c / 64 == 64 * a + x && c % 64 == y && c / 4096 == a && c / 64 % 64 == x
  {
  }
}
