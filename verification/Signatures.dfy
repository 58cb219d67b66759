/** Signature lists holding one X.509 certificate each, and databases made by joining them. */
module Signatures {
  import opened Bytes
  import opened Struct
  import opened Guid

  const EFI_CERT_X509_GUID := "a5c059a1" + "-" + "94e4" + "-" + "4aa7" + "-" + "87b5" + "-" + "ab155c2bf072"
  const LIST_HEADER: nat := 28
  const OWNER: nat := 16
  const SIZE_CODES: seq<Code> := [U(4), U(4), U(4)]

  /** An enrolled certificate and the GUID of whoever enrolled it. */
  datatype X509 = X509(owner: bytes, cert: bytes) {
    predicate Valid() {
      |owner| == OWNER
    }

    function ListSize(): nat {
      LIST_HEADER + OWNER + |cert|
    }
  }

  lemma {:induction false} X509GuidIsGuid()
    ensures IsGuid(EFI_CERT_X509_GUID)
  {
    JoinedIsGuid("a5c059a1", "94e4", "4aa7", "87b5", "ab155c2bf072");
  }

  function X509Type(): (r: bytes)
    ensures |r| == 16
  {
    X509GuidIsGuid();
    Str2Guid(EFI_CERT_X509_GUID).value
  }

  /** The list as bytes: type, the three sizes, then owner and certificate. */
  function ListBlob(x: X509): (r: Option<bytes>)
  {
    var sizes :- Pack(SIZE_CODES, [Num(x.ListSize()), Num(0), Num(OWNER + |x.cert|)]);
    Some(X509Type() + sizes + x.owner + x.cert)
  }

  lemma {:induction false} SizesPack(a: nat, b: nat, c: nat)
    ensures var r := Pack(SIZE_CODES, [Num(a), Num(b), Num(c)]);
            && (r.Some? <==> a < Limit(4) && b < Limit(4) && c < Limit(4))
            && (r.Some? ==> r.value == LE(a, 4) + LE(b, 4) + LE(c, 4))
  {
    hide LE, Limit;
    var va, vb, vc := Num(a), Num(b), Num(c);
    assert [va, vb, vc][1..] == [vb, vc] && SIZE_CODES[1..] == [U(4), U(4)];
    assert [vb, vc][1..] == [vc] && [U(4), U(4)][1..] == [U(4)];
    assert [vc][1..] == [] && [U(4)][1..] == [];
    assert Pack([], []) == Some([]);
    assert LE(c, 4) + [] == LE(c, 4);
    assert Pack([U(4)], [vc]) == if c < Limit(4) then Some(LE(c, 4)) else None;
    assert Pack([U(4), U(4)], [vb, vc]) ==
      if b < Limit(4) && c < Limit(4) then Some(LE(b, 4) + LE(c, 4)) else None;
    assert LE(a, 4) + (LE(b, 4) + LE(c, 4)) == LE(a, 4) + LE(b, 4) + LE(c, 4);
  }

  /** What a reader of one list recovers, by the layout of EFI_SIGNATURE_LIST: an X.509 list with no
      extra header and a single signature. */
  function ReadList(bs: bytes): Option<X509>
  {
    if |bs| < LIST_HEADER + OWNER then None
    else if bs[..16] != X509Type() || FromLE(bs[16..20]) != |bs| then None
    else if FromLE(bs[20..24]) != 0 || FromLE(bs[24..28]) != |bs| - LIST_HEADER then None
    else Some(X509(bs[LIST_HEADER..LIST_HEADER + OWNER], bs[LIST_HEADER + OWNER..]))
  }

  /** Splits a database by each list's own size field. */
  function ReadDatabase(bs: bytes): Option<seq<X509>>
  {
    if |bs| == 0 then Some([])
    else if |bs| < LIST_HEADER then None
    else
      var size := FromLE(bs[16..20]);
      if !(LIST_HEADER <= size <= |bs|) then None
      else
        var head :- ReadList(bs[..size]);
        var tail :- ReadDatabase(bs[size..]);
        Some([head] + tail)
  }

  /** The database after the given certificates were enrolled one after another. */
  function Database(xs: seq<X509>): Option<bytes>
  {
    if |xs| == 0 then Some([])
    else
      var head :- ListBlob(xs[0]);
      var tail :- Database(xs[1..]);
      Some(head + tail)
  }

  lemma {:induction false} ListBlobReads(x: X509, rest: bytes)
    requires x.Valid() && ListBlob(x).Some?
    ensures var b := ListBlob(x).value;
            && |b| == x.ListSize() && ReadList(b) == Some(x)
            && FromLE((b + rest)[16..20]) == |b| && (b + rest)[..|b|] == b && (b + rest)[|b|..] == rest
  {
    hide X509Type, LE, FromLE, Limit;
    var n, m := x.ListSize(), OWNER + |x.cert|;
    SizesPack(n, 0, m);
    Fields(X509Type(), LE(n, 4), LE(0, 4), LE(m, 4), x.owner, x.cert, rest);
    FromLEofLE(n, 4);
    FromLEofLE(0, 4);
    FromLEofLE(m, 4);
  }

  lemma {:induction false} Fields(t: bytes, a: bytes, b: bytes, c: bytes, owner: bytes, cert: bytes, rest: bytes)
    requires |t| == |owner| == 16 && |a| == |b| == |c| == 4
    ensures var s := t + (a + b + c) + owner + cert;
            && |s| == 44 + |cert| && s[..16] == t && s[16..20] == a && s[20..24] == b && s[24..28] == c
            && s[28..44] == owner && s[44..] == cert && (s + rest)[16..20] == a
            && (s + rest)[..|s|] == s && (s + rest)[|s|..] == rest
  {
  }

  const X509_BYTES: bytes :=
    [0xa1, 0x59, 0xc0, 0xa5, 0xe4, 0x94, 0xa7, 0x4a, 0x87, 0xb5, 0xab, 0x15, 0x5c, 0x2b, 0xf0, 0x72]

  /** A printed list, byte for byte, as the signature list of the UEFI specification is laid out: type,
      list size, header size, signature size, owner and certificate. */
  lemma {:induction false} ListLayout(x: X509)
    requires x.Valid() && ListBlob(x).Some?
    ensures var b, n := ListBlob(x).value, |x.cert|;
            && |b| == 44 + n && b[0..16] == X509_BYTES
            && FromLE(b[16..20]) == 44 + n && FromLE(b[20..24]) == 0 && FromLE(b[24..28]) == 16 + n
            && b[28..44] == x.owner && b[44..] == x.cert
  {
    hide X509Type, LE, FromLE, Limit, Pack;
    var n, m := x.ListSize(), OWNER + |x.cert|;
    SizesPack(n, 0, m);
    Fields(X509Type(), LE(n, 4), LE(0, 4), LE(m, 4), x.owner, x.cert, []);
    FromLEofLE(n, 4);
    FromLEofLE(0, 4);
    FromLEofLE(m, 4);
    TypeBytes();
  }

  lemma {:induction false} TypeBytes()
    ensures X509Type() == X509_BYTES
  {
    hide IsGuid, Str2Guid;
    X509GuidIsGuid();
    GroupBytes("a5c059a1", "94e4", "4aa7", "87b5", "ab155c2bf072");
  }

  /** A list has a printed form exactly when its sizes fit 32 bits. */
  lemma {:induction false} ListPrints(x: X509)
    ensures ListBlob(x).Some? <==> 44 + |x.cert| < Limit(4)
  {
    hide X509Type, LE, Limit, Pack;
    SizesPack(x.ListSize(), 0, OWNER + |x.cert|);
  }

  /** Joined lists read back as exactly the enrolled certificates, in order. */
  lemma {:induction false} DatabaseRoundTrip(xs: seq<X509>)
    requires forall i :: 0 <= i < |xs| ==> xs[i].Valid()
    requires Database(xs).Some?
    ensures ReadDatabase(Database(xs).value) == Some(xs)
    decreases |xs|
  {
    hide ListBlob, ReadList, FromLE;
    if |xs| > 0 {
      var tail := Database(xs[1..]).value;
      ListBlobReads(xs[0], tail);
      DatabaseRoundTrip(xs[1..]);
      assert xs == [xs[0]] + xs[1..];
    }
  }

  /** And the reader accepts nothing but printed lists ... */
  lemma {:induction false} ReadListSound(bs: bytes)
    requires ReadList(bs).Some?
    ensures ReadList(bs).value.Valid() && ListBlob(ReadList(bs).value) == Some(bs)
  {
    hide X509Type, LE, FromLE, Limit, Pack;
    var x := ReadList(bs).value;
    SizesPack(x.ListSize(), 0, OWNER + |x.cert|);
    LEofFromLE(bs[16..20]);
    LEofFromLE(bs[20..24]);
    LEofFromLE(bs[24..28]);
    assert bs == bs[..16] + (bs[16..20] + bs[20..24] + bs[24..28]) + bs[28..44] + bs[44..];
  }

  /** ... and joined ones. */
  lemma {:induction false} ReadDatabaseSound(bs: bytes)
    requires ReadDatabase(bs).Some?
    ensures var xs := ReadDatabase(bs).value;
            (forall i :: 0 <= i < |xs| ==> xs[i].Valid()) && Database(xs) == Some(bs)
    decreases |bs|
  {
    hide ListBlob, ReadList, FromLE;
    if |bs| > 0 {
      var size := FromLE(bs[16..20]);
      ReadListSound(bs[..size]);
      ReadDatabaseSound(bs[size..]);
      var head, tail := ReadList(bs[..size]).value, ReadDatabase(bs[size..]).value;
      assert ([head] + tail)[1..] == tail;
      assert bs == bs[..size] + bs[size..];
    }
  }

  function SumSizes(xs: seq<X509>): nat
  {
    if |xs| == 0 then 0 else xs[0].ListSize() + SumSizes(xs[1..])
  }

  lemma {:induction false} DatabaseSize(xs: seq<X509>)
    requires forall i :: 0 <= i < |xs| ==> xs[i].Valid()
    requires Database(xs).Some?
    ensures |Database(xs).value| == SumSizes(xs)
    decreases |xs|
  {
    hide ListBlob, ReadList, FromLE;
    if |xs| > 0 {
      ListBlobReads(xs[0], []);
      DatabaseSize(xs[1..]);
    }
  }

  lemma {:induction false} DatabaseSnoc(xs: seq<X509>, x: X509)
    requires Database(xs).Some? && ListBlob(x).Some?
    ensures Database(xs + [x]) == Some(Database(xs).value + ListBlob(x).value)
    decreases |xs|
  {
    hide ListBlob;
    if |xs| == 0 {
      assert (xs + [x])[1..] == [];
      assert Database((xs + [x])[1..]) == Some([]);
      assert ListBlob(x).value + [] == [] + ListBlob(x).value;
    } else {
      DatabaseSnoc(xs[1..], x);
      assert (xs + [x])[1..] == xs[1..] + [x];
      var a, b, c := ListBlob(xs[0]).value, Database(xs[1..]).value, ListBlob(x).value;
      assert a + (b + c) == (a + b) + c;
    }
  }
}
