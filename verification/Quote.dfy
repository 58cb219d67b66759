/** Framing of quote requests and responses in the shared GetQuote buffer (section 3.3 of the Intel
    TDX Guest-Hypervisor Communication Interface). */
module Quote {
  import opened Bytes
  import opened Struct

  const QUOTE_LEN: nat := 4 * 4096
  /** Version, status, in_len and out_len. */
  const BUFFER_HEADER: nat := 24
  const MESSAGE_HEADER: nat := 24
  const PREFIX: nat := 4

  const MESSAGE_CODES: seq<Code> := [U(2), U(2), U(4), U(4), U(4), U(4), U(4)]

  /** The fixed fields of a QGS message, before its body. */
  function MessageHeader(major: int, minor: int, kind: int, size: int, error: int, a: int, b: int): Option<bytes>
  {
    Pack(MESSAGE_CODES, [Num(major), Num(minor), Num(kind), Num(size), Num(error), Num(a), Num(b)])
  }

  lemma {:induction false} HeaderPacks(major: nat, minor: nat, kind: nat, size: nat, error: nat, a: nat, b: nat)
    requires major < Limit(2) && minor < Limit(2) && kind < Limit(4) && size < Limit(4) && error < Limit(4)
    requires a < Limit(4) && b < Limit(4)
    ensures MessageHeader(major, minor, kind, size, error, a, b)
         == Some(LE(major, 2) + (LE(minor, 2) + (LE(kind, 4) + (LE(size, 4) + (LE(error, 4)
                 + (LE(a, 4) + (LE(b, 4) + [])))))))
  {
    hide LE, Limit, Pack;
    var codes := MESSAGE_CODES;
    var vals := [Num(major), Num(minor), Num(kind), Num(size), Num(error), Num(a), Num(b)];
    PackNothing(codes, vals);
    PackFrom(codes, vals, 6, []);
    PackFrom(codes, vals, 5, LE(b, 4) + []);
    PackFrom(codes, vals, 4, LE(a, 4) + (LE(b, 4) + []));
    PackFrom(codes, vals, 3, LE(error, 4) + (LE(a, 4) + (LE(b, 4) + [])));
    PackFrom(codes, vals, 2, LE(size, 4) + (LE(error, 4) + (LE(a, 4) + (LE(b, 4) + []))));
    PackFrom(codes, vals, 1, LE(kind, 4) + (LE(size, 4) + (LE(error, 4) + (LE(a, 4) + (LE(b, 4) + [])))));
    PackFrom(codes, vals, 0, LE(minor, 2) + (LE(kind, 4) + (LE(size, 4) + (LE(error, 4)
                             + (LE(a, 4) + (LE(b, 4) + []))))));
    assert codes[0..] == codes && vals[0..] == vals;
  }

  lemma {:induction false} PackNothing(codes: seq<Code>, vals: seq<Val>)
    requires |codes| == |vals|
    ensures Pack(codes[|codes|..], vals[|vals|..]) == Some([])
  {
  }

  // Requests

  /** The QGS message for a report: header, report size, no id list, report. */
  function QuoteMessage(report: bytes): Option<bytes>
  {
    var header :- MessageHeader(1, 0, 0, MESSAGE_HEADER + |report|, 0, |report|, 0);
    Some(header + report)
  }

  const REQUEST_CODES: seq<Code> := [U(8), U(8), U(4), U(4)]

  /** The shared buffer: header, big-endian message length, and the message cut to the report's size.
      None where packing raises or the buffer is too small. */
  function RequestBuffer(report: bytes): Option<bytes>
  {
    var message :- QuoteMessage(report);
    var header :- Pack(REQUEST_CODES, [Num(1), Num(0), Num(|message| + PREFIX), Num(0)]);
    var body :- PackOne(S(|report|), Str(message));
    var framed := header + BE(|message|, PREFIX) + body;
    if |message| >= Limit(PREFIX) || |framed| > QUOTE_LEN then None
    else Some(framed + Fill(0, QUOTE_LEN - |framed|))
  }

  /** What a receiver reads: as many bytes as the big-endian prefix says, as far as the buffer goes. */
  function ReceivedMessage(buffer: bytes): bytes
    requires |buffer| == QUOTE_LEN
  {
    var length := FromBE(buffer[BUFFER_HEADER..BUFFER_HEADER + PREFIX]);
    Slice(buffer, BUFFER_HEADER + PREFIX, BUFFER_HEADER + PREFIX + length)
  }

  lemma {:induction false} MessageIs(report: bytes)
    requires QuoteMessage(report).Some?
    ensures var m := QuoteMessage(report).value;
            && |m| == MESSAGE_HEADER + |report| && m[MESSAGE_HEADER..] == report
            && |report| < Limit(4) && m[..MESSAGE_HEADER] == HeaderBytes(|report|)
  {
    hide LE, Limit, Pack;
    var n := |report|;
    MessageRanges(report);
    Limits();
    HeaderPacks(1, 0, 0, MESSAGE_HEADER + n, 0, n, 0);
    assert HeaderBytes(n) + [] == HeaderBytes(n);
    SplitAppend(HeaderBytes(n), report);
  }

  function HeaderBytes(n: nat): (r: bytes)
    ensures |r| == MESSAGE_HEADER
  {
    LE(1, 2) + (LE(0, 2) + (LE(0, 4) + (LE(MESSAGE_HEADER + n, 4) + (LE(0, 4) + (LE(n, 4) + (LE(0, 4) + []))))))
  }

  lemma {:induction false} MessageRanges(report: bytes)
    requires QuoteMessage(report).Some?
    ensures MESSAGE_HEADER + |report| < Limit(4)
  {
    hide Limit;
    var n := |report|;
    var vals := [Num(1), Num(0), Num(0), Num(MESSAGE_HEADER + n), Num(0), Num(n), Num(0)];
    if MESSAGE_HEADER + n >= Limit(4) {
      PackRaises(MESSAGE_CODES, vals, 3);
    }
  }

  lemma {:induction false} RequestHeader(n: nat)
    requires n < Limit(4)
    ensures var r := Pack(REQUEST_CODES, [Num(1), Num(0), Num(n), Num(0)]);
            r.Some? && |r.value| == BUFFER_HEADER
  {
    hide LE, Limit, Pack;
    Limits();
    var codes, vals := REQUEST_CODES, [Num(1), Num(0), Num(n), Num(0)];
    PackNothing(codes, vals);
    PackFrom(codes, vals, 3, []);
    PackFrom(codes, vals, 2, LE(0, 4) + []);
    PackFrom(codes, vals, 1, LE(n, 4) + (LE(0, 4) + []));
    PackFrom(codes, vals, 0, LE(0, 8) + (LE(n, 4) + (LE(0, 4) + [])));
    assert codes[0..] == codes && vals[0..] == vals;
  }

  /** What is in the buffer: the message loses its last 24 bytes. */
  lemma {:induction false} RequestLayout(report: bytes)
    requires RequestBuffer(report).Some?
    ensures QuoteMessage(report).Some?
    ensures var m, b, n := QuoteMessage(report).value, RequestBuffer(report).value, |report|;
            && |m| == MESSAGE_HEADER + n && BUFFER_HEADER + PREFIX + n <= QUOTE_LEN == |b|
            && b[BUFFER_HEADER..BUFFER_HEADER + PREFIX] == BE(|m|, PREFIX) && |m| < Limit(PREFIX)
            && b[BUFFER_HEADER + PREFIX..BUFFER_HEADER + PREFIX + n] == m[..n]
            && (forall i :: BUFFER_HEADER + PREFIX + n <= i < QUOTE_LEN ==> b[i] == 0)
  {
    hide LE, BE, Limit, QuoteMessage;
    MessageIs(report);
    var m, n := QuoteMessage(report).value, |report|;
    var header := Pack(REQUEST_CODES, [Num(1), Num(0), Num(|m| + PREFIX), Num(0)]).value;
    assert |header| == BUFFER_HEADER by {
      RequestSize(header, |m| + PREFIX);
    }
    var framed := header + BE(|m|, PREFIX) + m[..n];
    var b := RequestBuffer(report).value;
    assert b == framed + Fill(0, QUOTE_LEN - |framed|);
    assert framed[BUFFER_HEADER..BUFFER_HEADER + PREFIX] == BE(|m|, PREFIX);
    assert b[..|framed|] == framed;
  }

  lemma {:induction false} RequestSize(header: bytes, n: nat)
    requires Pack(REQUEST_CODES, [Num(1), Num(0), Num(n), Num(0)]) == Some(header)
    ensures |header| == BUFFER_HEADER
  {
    hide Limit;
    if n >= Limit(4) {
      PackRaises(REQUEST_CODES, [Num(1), Num(0), Num(n), Num(0)], 2);
    } else {
      RequestHeader(n);
    }
  }

  lemma {:induction false} RequestOffsets()
    ensures Offset(REQUEST_CODES, 0) == 0 && Offset(REQUEST_CODES, 1) == 8 && Offset(REQUEST_CODES, 2) == 16
    ensures Offset(REQUEST_CODES, 3) == 20
  {
    assert Offset(REQUEST_CODES, 1) == 8;
  }

  lemma {:induction false} MessageOffsets()
    ensures Offset(MESSAGE_CODES, 0) == 0 && Offset(MESSAGE_CODES, 1) == 2 && Offset(MESSAGE_CODES, 2) == 4
    ensures Offset(MESSAGE_CODES, 3) == 8 && Offset(MESSAGE_CODES, 4) == 12 && Offset(MESSAGE_CODES, 5) == 16
    ensures Offset(MESSAGE_CODES, 6) == 20
  {
    assert Offset(MESSAGE_CODES, 1) == 2;
    assert Offset(MESSAGE_CODES, 3) == 8;
    assert Offset(MESSAGE_CODES, 5) == 16;
  }

  /** A number that packed is read back at its place, whatever is packed behind it. */
  lemma {:induction false} NumberAt(codes: seq<Code>, vals: seq<Val>, i: nat, whole: bytes)
    requires |codes| == |vals| && i < |codes| && codes[i].U? && vals[i].Num?
    requires forall j :: 0 <= j < |codes| ==> Struct.Fits(codes[j], vals[j])
    requires Pack(codes, vals).Some? && Pack(codes, vals).value <= whole
    ensures Offset(codes, i) + codes[i].width <= |whole|
    ensures FromLE(whole[Offset(codes, i)..Offset(codes, i) + codes[i].width]) == vals[i].n
  {
    hide LE, FromLE, Limit, Pack, Offset;
    PackAt(codes, vals, i);
    var h, at, w := Pack(codes, vals).value, Offset(codes, i), codes[i].width;
    assert whole[at..at + w] == h[at..at + w] == LE(vals[i].n, w);
    FromLEofLE(vals[i].n, w);
  }

  /** The message a report is wrapped in: version 1.0, type 0, its whole size, no error, the report's
      size, no id list, and the report. */
  lemma {:induction false} MessageFields(report: bytes)
    requires QuoteMessage(report).Some?
    ensures var m, n := QuoteMessage(report).value, |report|;
            && |m| == 24 + n && FromLE(m[0..2]) == 1 && FromLE(m[2..4]) == 0 && FromLE(m[4..8]) == 0
            && FromLE(m[8..12]) == 24 + n && FromLE(m[12..16]) == 0 && FromLE(m[16..20]) == n
            && FromLE(m[20..24]) == 0 && m[24..] == report
  {
    hide LE, FromLE, Limit, Pack, Offset;
    MessageIs(report);
    MessageRanges(report);
    Limits();
    MessageOffsets();
    var m, n := QuoteMessage(report).value, |report|;
    var vals := [Num(1), Num(0), Num(0), Num(MESSAGE_HEADER + n), Num(0), Num(n), Num(0)];
    NumberAt(MESSAGE_CODES, vals, 0, m);
    NumberAt(MESSAGE_CODES, vals, 1, m);
    NumberAt(MESSAGE_CODES, vals, 2, m);
    NumberAt(MESSAGE_CODES, vals, 3, m);
    NumberAt(MESSAGE_CODES, vals, 4, m);
    NumberAt(MESSAGE_CODES, vals, 5, m);
    NumberAt(MESSAGE_CODES, vals, 6, m);
  }

  /** What the host reads in front of the message: version 1, status 0, an input length that covers the
      length prefix and the message, and no output yet. */
  lemma {:induction false} RequestFields(report: bytes)
    requires RequestBuffer(report).Some?
    ensures var b := RequestBuffer(report).value;
            && |b| == 16384
            && FromLE(b[0..8]) == 1 && FromLE(b[8..16]) == 0 && FromLE(b[16..20]) == |report| + 28
            && FromLE(b[20..24]) == 0 && FromBE(b[24..28]) == |report| + 24
  {
    hide LE, BE, FromLE, FromBE, Limit, Pack, Offset, QuoteMessage;
    RequestLayout(report);
    RequestInputs(report);
    Limits();
    RequestOffsets();
    var b, m := RequestBuffer(report).value, QuoteMessage(report).value;
    FromBEofBE(|m|, PREFIX);
    var vals := [Num(1), Num(0), Num(|m| + PREFIX), Num(0)];
    NumberAt(REQUEST_CODES, vals, 0, b);
    NumberAt(REQUEST_CODES, vals, 1, b);
    NumberAt(REQUEST_CODES, vals, 2, b);
    NumberAt(REQUEST_CODES, vals, 3, b);
  }

  lemma {:induction false} RequestInputs(report: bytes)
    requires RequestBuffer(report).Some?
    ensures QuoteMessage(report).Some?
    ensures var m := QuoteMessage(report).value;
            var h := Pack(REQUEST_CODES, [Num(1), Num(0), Num(|m| + PREFIX), Num(0)]);
            h.Some? && h.value <= RequestBuffer(report).value && |m| + PREFIX < Limit(4)
  {
    hide LE, BE, Limit, Pack, QuoteMessage;
    var m := QuoteMessage(report).value;
    if |m| + PREFIX >= Limit(4) {
      PackRaises(REQUEST_CODES, [Num(1), Num(0), Num(|m| + PREFIX), Num(0)], 2);
    }
  }

  /** A request can be built exactly for the reports that leave room for the 28 bytes in front, though
      the message is 24 bytes longer than what is then put there. */
  lemma {:induction false} RequestExists(report: bytes)
    ensures RequestBuffer(report).Some? <==> |report| + 28 <= 16384
  {
    hide LE, BE, Limit, Pack;
    if RequestBuffer(report).Some? {
      RequestLayout(report);
    } else if |report| + 28 <= 16384 {
      Limits();
      var n := |report|;
      HeaderPacks(1, 0, 0, MESSAGE_HEADER + n, 0, n, 0);
      assert QuoteMessage(report).Some?;
      MessageIs(report);
      RequestHeader(MESSAGE_HEADER + n + PREFIX);
    }
  }

  /** A receiver gets the built message back exactly when the message fits and its last 24 bytes are
      zero, since those are the bytes that the packing cuts off. */
  lemma {:induction false} ReceivedIffTailZero(report: bytes)
    requires RequestBuffer(report).Some?
    ensures var m := QuoteMessage(report).value;
            ReceivedMessage(RequestBuffer(report).value) == m
            <==> |report| + BUFFER_HEADER + PREFIX + MESSAGE_HEADER <= QUOTE_LEN
                 && (forall i :: |report| <= i < |m| ==> m[i] == 0)
  {
    hide BE, FromBE, Limit, RequestBuffer, QuoteMessage;
    RequestLayout(report);
    var m, b, n := QuoteMessage(report).value, RequestBuffer(report).value, |report|;
    FromBEofBE(|m|, PREFIX);
    var start := BUFFER_HEADER + PREFIX;
    var r := ReceivedMessage(b);
    assert r == Slice(b, start, start + |m|);
    if start + |m| <= QUOTE_LEN {
      assert r == b[start..start + |m|];
      assert forall i :: 0 <= i < n ==> r[i] == b[start..start + n][i] == m[i];
      assert forall i :: n <= i < |m| ==> r[i] == b[start + i] == 0;
    } else {
      assert |r| < |m|;
    }
  }

  /** In terms of the report: a report of at least 24 bytes whose message fits is delivered exactly when
      its last 24 bytes are zero; a shorter one only if it has 17 bytes or more, all zero. */
  lemma {:induction false} RequestFaithful(report: bytes)
    requires RequestBuffer(report).Some?
    ensures ReceivedMessage(RequestBuffer(report).value) == QuoteMessage(report).value
            <==> |report| + BUFFER_HEADER + PREFIX + MESSAGE_HEADER <= QUOTE_LEN
                 && |report| >= 17
                 && (forall i :: Max(0, |report| - 24) <= i < |report| ==> report[i] == 0)
  {
    hide RequestBuffer, ReceivedMessage, HeaderBytes, QuoteMessage, Limit;
    ReceivedIffTailZero(report);
    RequestLayout(report);
    MessageIs(report);
    var m, n := QuoteMessage(report).value, |report|;
    assert forall i :: 0 <= i < n ==> m[MESSAGE_HEADER + i] == m[MESSAGE_HEADER..][i] == report[i];
    if n < 24 {
      SmallHeader(n);
      assert forall i :: 0 <= i < MESSAGE_HEADER ==> m[i] == m[..MESSAGE_HEADER][i] == HeaderBytes(n)[i];
      if n < 17 {
        var k := if n == 0 then 0 else 16;
        assert m[k] != 0 && n <= k < |m|;
      } else {
        assert forall i :: n <= i < MESSAGE_HEADER ==> m[i] == 0;
        assert (forall i :: n <= i < |m| ==> m[i] == 0) <==> (forall i :: 0 <= i < n ==> report[i] == 0) by {
          TailZero(m, report);
        }
      }
    } else {
      assert (forall i :: n <= i < |m| ==> m[i] == 0) <==> (forall i :: n - 24 <= i < n ==> report[i] == 0) by {
        LongTailZero(m, report);
      }
    }
  }

  lemma {:induction false} TailZero(m: bytes, report: bytes)
    requires |m| == MESSAGE_HEADER + |report| && m[MESSAGE_HEADER..] == report && |report| <= MESSAGE_HEADER
    requires forall i :: |report| <= i < MESSAGE_HEADER ==> m[i] == 0
    ensures (forall i :: |report| <= i < |m| ==> m[i] == 0) <==> (forall i :: 0 <= i < |report| ==> report[i] == 0)
  {
    assert forall i :: 0 <= i < |report| ==> report[i] == m[MESSAGE_HEADER..][i] == m[MESSAGE_HEADER + i];
    assert forall i :: MESSAGE_HEADER <= i < |m| ==>
             m[i] == m[MESSAGE_HEADER..][i - MESSAGE_HEADER] == report[i - MESSAGE_HEADER];
  }

  lemma {:induction false} LongTailZero(m: bytes, report: bytes)
    requires |m| == MESSAGE_HEADER + |report| && m[MESSAGE_HEADER..] == report && |report| >= MESSAGE_HEADER
    ensures (forall i :: |report| <= i < |m| ==> m[i] == 0)
       <==> (forall i :: |report| - MESSAGE_HEADER <= i < |report| ==> report[i] == 0)
  {
    assert forall i :: 0 <= i < |report| ==> report[i] == m[MESSAGE_HEADER..][i] == m[MESSAGE_HEADER + i];
    assert forall i :: MESSAGE_HEADER <= i < |m| ==>
             m[i] == m[MESSAGE_HEADER..][i - MESSAGE_HEADER] == report[i - MESSAGE_HEADER];
  }

  /** The header bytes that decide for reports shorter than the header. */
  lemma {:induction false} SmallHeader(n: nat)
    requires n < 24
    ensures var h := HeaderBytes(n);
            && h[0] == 1 && h[16] == n && (forall i :: 17 <= i < 24 ==> h[i] == 0)
  {
    var h := HeaderBytes(n);
    assert LE(1, 2)[0] == 1;
    assert h[0] == LE(1, 2)[0];
    ZeroLE(4);
    SmallLE(n);
    assert h[16..20] == LE(n, 4) && h[20..24] == LE(0, 4);
    assert h[16] == h[16..20][0] && h[17] == h[16..20][1] && h[18] == h[16..20][2] && h[19] == h[16..20][3];
    assert h[20] == h[20..24][0] && h[21] == h[20..24][1] && h[22] == h[20..24][2] && h[23] == h[20..24][3];
  }

  lemma {:induction false} ZeroLE(w: nat)
    ensures forall i :: 0 <= i < w ==> LE(0, w)[i] == 0
  {
    if w > 0 {
      ZeroLE(w - 1);
    }
  }

  lemma {:induction false} SmallLE(n: nat)
    requires n < 256
    ensures LE(n, 4)[0] == n && LE(n, 4)[1] == 0 && LE(n, 4)[2] == 0 && LE(n, 4)[3] == 0
  {
    ZeroLE(3);
    assert LE(n, 4) == [n] + LE(0, 3);
  }

  // Responses

  datatype Response = Refused | Received(quote: bytes)

  /** Reads the QGS response: refused only if every one of four header fields is wrong. */
  function ReadMessage(message: bytes): Response
    requires |message| >= MESSAGE_HEADER
  {
    var major, minor := FromLE(message[0..2]), FromLE(message[2..4]);
    var kind, error := FromLE(message[4..8]), FromLE(message[12..16]);
    var quoteSize := FromLE(message[20..24]);
    if major != 1 && minor != 0 && kind != 1 && error != 0 then Refused
    else Received(Slice(message[MESSAGE_HEADER..], 0, quoteSize))
  }

  /** Reads the returned buffer: the two lengths in front must agree. */
  function ReadBuffer(buffer: bytes): Response
    requires |buffer| == QUOTE_LEN
  {
    var outLen := FromLE(buffer[20..24]);
    var length := FromBE(buffer[24..28]);
    if length != outLen - 4 then Refused else ReadMessage(buffer[28..])
  }

  /** A response as it is framed: buffer header, inner length, the fields of the message header, and
      whatever the buffer holds behind it. */
  datatype Frame = Frame(front: bytes, outLen: nat, inner: nat, major: nat, minor: nat, kind: nat, size: nat,
                         error: nat, idSize: nat, quoteSize: nat, body: bytes)
  {
    function Bytes(): bytes {
      front + (LE(outLen, 4) + (BE(inner, 4) + (LE(major, 2) + (LE(minor, 2) + (LE(kind, 4) + (LE(size, 4)
      + (LE(error, 4) + (LE(idSize, 4) + (LE(quoteSize, 4) + body)))))))))
    }

    predicate Valid() {
      && |front| == 20 && outLen < Limit(4) && inner < Limit(4) && major < Limit(2) && minor < Limit(2)
      && kind < Limit(4) && size < Limit(4) && error < Limit(4) && idSize < Limit(4) && quoteSize < Limit(4)
      && |Bytes()| == QUOTE_LEN
    }
  }

  lemma {:induction false} FrameFields(f: Frame)
    requires f.Valid()
    ensures var b := f.Bytes();
            && b[20..24] == LE(f.outLen, 4) && b[24..28] == BE(f.inner, 4)
            && b[28..30] == LE(f.major, 2) && b[30..32] == LE(f.minor, 2) && b[32..36] == LE(f.kind, 4)
            && b[40..44] == LE(f.error, 4) && b[48..52] == LE(f.quoteSize, 4)
            && b[52..] == f.body
  {
    hide LE, BE, Limit;
    var b := f.Bytes();
    var t8 := LE(f.quoteSize, 4) + f.body;
    var t7 := LE(f.idSize, 4) + t8;
    var t6 := LE(f.error, 4) + t7;
    var t5 := LE(f.size, 4) + t6;
    var t4 := LE(f.kind, 4) + t5;
    var t3 := LE(f.minor, 2) + t4;
    var t2 := LE(f.major, 2) + t3;
    var t1 := BE(f.inner, 4) + t2;
    assert b == b[0..];
    At(b, 0, f.front, LE(f.outLen, 4) + t1);
    At(b, 20, LE(f.outLen, 4), t1);
    At(b, 24, BE(f.inner, 4), t2);
    At(b, 28, LE(f.major, 2), t3);
    At(b, 30, LE(f.minor, 2), t4);
    At(b, 32, LE(f.kind, 4), t5);
    At(b, 36, LE(f.size, 4), t6);
    At(b, 40, LE(f.error, 4), t7);
    At(b, 44, LE(f.idSize, 4), t8);
    At(b, 48, LE(f.quoteSize, 4), f.body);
    assert |b| == 52 + |f.body|;
    assert b[52..][..|f.body|] == b[52..];
  }

  /** Exactly what is made of a framed response. It is refused if and only if the two lengths disagree
      or all four header fields are wrong; otherwise the quote is what follows the header, a selected id
      included, as far as its declared size and the buffer go. */
  lemma {:induction false} FrameRead(f: Frame)
    requires f.Valid()
    ensures ReadBuffer(f.Bytes())
         == if f.inner != f.outLen - 4 || (f.major != 1 && f.minor != 0 && f.kind != 1 && f.error != 0) then Refused
            else Received(f.body[..Min(f.quoteSize, |f.body|)])
  {
    hide LE, BE, FromLE, FromBE, Limit, Frame.Bytes;
    var b := f.Bytes();
    FrameFields(f);
    FromLEofLE(f.outLen, 4);
    FromBEofBE(f.inner, 4);
    FromLEofLE(f.major, 2);
    FromLEofLE(f.minor, 2);
    FromLEofLE(f.kind, 4);
    FromLEofLE(f.error, 4);
    FromLEofLE(f.quoteSize, 4);
    var m := b[28..];
    assert m[0..2] == b[28..30] && m[2..4] == b[30..32] && m[4..8] == b[32..36] && m[12..16] == b[40..44];
    assert m[20..24] == b[48..52] && m[24..] == b[52..];
  }

  /** Every returned buffer is such a frame, so that is what is made of any of them. */
  lemma {:induction false} EveryBufferIsFramed(b: bytes) returns (f: Frame)
    requires |b| == QUOTE_LEN
    ensures f.Valid() && f.Bytes() == b
  {
    hide LE, BE, FromLE, FromBE, Limit;
    f := Frame(b[..20], FromLE(b[20..24]), FromBE(b[24..28]), FromLE(b[28..30]), FromLE(b[30..32]), FromLE(b[32..36]),
               FromLE(b[36..40]), FromLE(b[40..44]), FromLE(b[44..48]), FromLE(b[48..52]), b[52..]);
    LEofFromLE(b[20..24]);
    BEofFromBE(b[24..28]);
    LEofFromLE(b[28..30]);
    LEofFromLE(b[30..32]);
    LEofFromLE(b[32..36]);
    LEofFromLE(b[36..40]);
    LEofFromLE(b[40..44]);
    LEofFromLE(b[44..48]);
    LEofFromLE(b[48..52]);
    Joined(b);
  }

  lemma {:induction false} Joined(b: bytes)
    requires |b| == QUOTE_LEN
    ensures b == b[..20] + (b[20..24] + (b[24..28] + (b[28..30] + (b[30..32] + (b[32..36] + (b[36..40]
                 + (b[40..44] + (b[44..48] + (b[48..52] + b[52..])))))))))
  {
  }

  /** So with no selected id, agreeing lengths and one right header field, the quote comes back whole. */
  lemma {:induction false} QuoteRoundTrip(f: Frame, quote: bytes)
    requires f.Valid() && f.quoteSize == |quote| && quote <= f.body && f.outLen == f.inner + 4
    requires f.major == 1 || f.minor == 0 || f.kind == 1 || f.error == 0
    ensures ReadBuffer(f.Bytes()) == Received(quote)
  {
    hide LE, BE, FromLE, FromBE, Limit, Frame.Bytes;
    FrameRead(f);
  }

  /** With one, its bytes are taken for the start of the quote, and as many are missing at its end. */
  lemma {:induction false} SelectedIdTaken(f: Frame, id: bytes, quote: bytes)
    requires f.Valid() && f.idSize == |id| && f.quoteSize == |quote| && id + quote <= f.body
    requires f.outLen == f.inner + 4 && (f.major == 1 || f.minor == 0 || f.kind == 1 || f.error == 0)
    ensures ReadBuffer(f.Bytes()) == Received((id + quote)[..|quote|])
  {
    hide LE, BE, FromLE, FromBE, Limit, Frame.Bytes;
    FrameRead(f);
    assert f.body[..|quote|] == f.body[..|id + quote|][..|quote|];
  }

  // The device object

  datatype Node = V1_0 | V1_5 | Unknown

  class DeviceNode {
    const node: Node
    var tdquote: array<byte>

    constructor (node: Node)
      ensures this.node == node
    {
      this.node := node;
      tdquote := new byte[0];
    }

    /** Builds the request in a fresh zeroed buffer; false where the source raises or the device does
        not support quotes. */
    method CreateTdxQuoteReq(report: bytes) returns (ok: bool)
      modifies this
      ensures ok == (node.V1_0? && RequestBuffer(report).Some?)
      ensures ok ==> fresh(tdquote) && tdquote[..] == RequestBuffer(report).value
    {
      hide QuoteMessage, LE, BE, Limit, Pack;
      var message := QuoteMessage(report);
      if message.None? || !node.V1_0? {
        return false;
      }
      var header := Pack(REQUEST_CODES, [Num(1), Num(0), Num(|message.value| + PREFIX), Num(0)]);
      var body := PackOne(S(|report|), Str(message.value));
      if header.None? || body.None? || |message.value| >= Limit(PREFIX) {
        return false;
      }
      var framed := header.value + BE(|message.value|, PREFIX) + body.value;
      tdquote := new byte[QUOTE_LEN](_ => 0);
      if |framed| > QUOTE_LEN {
        return false;
      }
      for i := 0 to |framed|
        invariant tdquote.Length == QUOTE_LEN && fresh(tdquote)
        invariant forall j :: 0 <= j < i ==> tdquote[j] == framed[j]
        invariant forall j :: i <= j < QUOTE_LEN ==> tdquote[j] == 0
      {
        tdquote[i] := framed[i];
      }
      assert tdquote[..] == framed + Fill(0, QUOTE_LEN - |framed|);
      return true;
    }

    /** Reads the quote out of the buffer the device filled in; None when the device is not supported. */
    method GetTdquoteBytes() returns (r: Option<Response>)
      requires tdquote.Length == QUOTE_LEN
      ensures r == if node.V1_0? then Some(ReadBuffer(tdquote[..])) else None
    {
      if !node.V1_0? {
        return None;
      }
      return Some(ReadBuffer(tdquote[..]));
    }
  }
}
