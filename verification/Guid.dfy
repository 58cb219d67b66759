/** GUID text and binary forms (RFC 4122 text, mixed-endian binary). */
module Guid {
  import opened Bytes

  function DigitVal(c: char): int
  {
    if '0' <= c <= '9' then c as int - '0' as int
    else if 'a' <= c <= 'f' then c as int - 'a' as int + 10
    else if 'A' <= c <= 'F' then c as int - 'A' as int + 10
    else -1
  }

  function DigitChar(d: nat): (c: char)
    requires d < 16
    ensures DigitVal(c) == d && LowerChar(c) == c
  {
    if d < 10 then '0' + d as char else 'a' + (d - 10) as char
  }

  function LowerChar(c: char): char
  {
    if 'A' <= c <= 'Z' then c - 'A' + 'a' else c
  }

  function Lower(s: string): (r: string)
    ensures |r| == |s| && forall i :: 0 <= i < |s| ==> r[i] == LowerChar(s[i])
  {
    seq(|s|, i requires 0 <= i < |s| => LowerChar(s[i]))
  }

  predicate IsHex(s: string)
  {
    forall i :: 0 <= i < |s| ==> DigitVal(s[i]) >= 0
  }

  function Limit16(w: nat): nat
  {
    if w == 0 then 1 else 16 * Limit16(w - 1)
  }

  /** `'%0wx' % n` for n below 16^w. */
  function Hex(n: nat, w: nat): (s: string)
    ensures |s| == w && IsHex(s)
  {
    if w == 0 then "" else Hex(n / 16, w - 1) + [DigitChar(n % 16)]
  }

  /** `int(s, 16)`. */
  function FromHex(s: string): (n: nat)
    requires IsHex(s)
    ensures n < Limit16(|s|)
  {
    if |s| == 0 then 0 else 16 * FromHex(s[..|s| - 1]) + DigitVal(s[|s| - 1])
  }

  lemma {:induction false} FromHexOfHex(n: nat, w: nat)
    requires n < Limit16(w)
    ensures FromHex(Hex(n, w)) == n
  {
    if w > 0 {
      FromHexOfHex(n / 16, w - 1);
      assert Hex(n, w)[..w - 1] == Hex(n / 16, w - 1);
    }
  }

  lemma {:induction false} DigitRoundTrip(c: char)
    requires DigitVal(c) >= 0
    ensures DigitVal(c) < 16 && DigitChar(DigitVal(c)) == LowerChar(c)
  {
  }

  lemma {:induction false} LowerSnoc(s: string)
    requires |s| > 0
    ensures Lower(s) == Lower(s[..|s| - 1]) + [LowerChar(s[|s| - 1])]
  {
  }

  lemma {:induction false} HexOfFromHex(s: string)
    requires IsHex(s)
    ensures Hex(FromHex(s), |s|) == Lower(s)
  {
    if |s| > 0 {
      var init, last := s[..|s| - 1], s[|s| - 1];
      HexOfFromHex(init);
      DigitRoundTrip(last);
      var n := FromHex(s);
      assert n / 16 == FromHex(init) && n % 16 == DigitVal(last);
      LowerSnoc(s);
    }
  }

  lemma {:induction false} Limit16s()
    ensures Limit16(2) == Limit(1) && Limit16(4) == Limit(2) && Limit16(8) == Limit(4)
    ensures Limit16(12) == Limit(6)
  {
    assert Limit16(3) == 16 * Limit16(2) && Limit16(5) == 16 * Limit16(4) && Limit16(7) == 16 * Limit16(6);
    assert Limit16(9) == 16 * Limit16(8) && Limit16(11) == 16 * Limit16(10);
    assert Limit(5) == 256 * Limit(4) && Limit(6) == 256 * Limit(5);
    assert Limit(3) == 256 * Limit(2);
  }

  /** Two hex digits a byte, as `'%02x' % byte` joined. */
  function HexBytes(bs: bytes): (s: string)
    ensures |s| == 2 * |bs| && IsHex(s)
  {
    if |bs| == 0 then "" else HexBytes(bs[..|bs| - 1]) + Hex(bs[|bs| - 1], 2)
  }

  lemma {:induction false} HexPair(n: nat)
    requires n < 256
    ensures Hex(n, 2) == [DigitChar(n / 16), DigitChar(n % 16)]
  {
    assert Hex(n / 16, 1) == Hex(n / 256, 0) + [DigitChar(n / 16 % 16)];
  }

  /** The value of a text is that of all but its last two digits, times 256, plus theirs. */
  lemma {:induction false} FromHexPair(s: string)
    requires IsHex(s) && |s| >= 2
    ensures FromHex(s) == 256 * FromHex(s[..|s| - 2]) + 16 * DigitVal(s[|s| - 2]) + DigitVal(s[|s| - 1])
  {
    assert s[..|s| - 1][..|s| - 2] == s[..|s| - 2];
  }

  /** Big-endian bytes and hex text denote the same number. */
  lemma {:induction false} FromHexOfHexBytes(bs: bytes)
    ensures FromHex(HexBytes(bs)) == FromBE(bs)
  {
    if |bs| > 0 {
      var init, last := bs[..|bs| - 1], bs[|bs| - 1];
      FromHexOfHexBytes(init);
      HexPair(last);
      var u := HexBytes(bs);
      assert u[..|u| - 2] == HexBytes(init);
      FromHexPair(u);
    }
  }

  lemma {:induction false} HexBytesOfBE(s: string, w: nat)
    requires IsHex(s) && |s| == 2 * w
    ensures HexBytes(BE(FromHex(s), w)) == Lower(s)
  {
    if w > 0 {
      HexBytesOfBE(s[..|s| - 2], w - 1);
      HexBytesOfBEStep(s, w);
    }
  }

  lemma {:induction false} HexBytesOfBEStep(s: string, w: nat)
    requires IsHex(s) && |s| == 2 * w && w > 0
    requires HexBytes(BE(FromHex(s[..|s| - 2]), w - 1)) == Lower(s[..|s| - 2])
    ensures HexBytes(BE(FromHex(s), w)) == Lower(s)
  {
    hide HexBytes, BE, FromHex, Lower;
    var n, hi, lo := FromHex(s[..|s| - 2]), DigitVal(s[|s| - 2]), DigitVal(s[|s| - 1]);
    DigitRoundTrip(s[|s| - 2]);
    DigitRoundTrip(s[|s| - 1]);
    FromHexPair(s);
    HexBytesSnoc(n, hi, lo, w - 1);
    LowerPair(s);
  }

  lemma {:induction false} HexBytesSnoc(n: nat, hi: nat, lo: nat, w: nat)
    requires hi < 16 && lo < 16
    ensures HexBytes(BE(256 * n + 16 * hi + lo, w + 1)) == HexBytes(BE(n, w)) + [DigitChar(hi), DigitChar(lo)]
  {
    var pair := 16 * hi + lo;
    assert (256 * n + pair) / 256 == n && (256 * n + pair) % 256 == pair;
    var bs := BE(256 * n + pair, w + 1);
    assert bs[..w] == BE(n, w) && bs[w] == pair;
    assert pair / 16 == hi && pair % 16 == lo;
    HexPair(pair);
  }

  lemma {:induction false} LowerPair(s: string)
    requires |s| >= 2
    ensures Lower(s) == Lower(s[..|s| - 2]) + [LowerChar(s[|s| - 2]), LowerChar(s[|s| - 1])]
  {
  }

  /** The accepted text, restricted to its full 36-character form: hyphens in place, hex digits
      elsewhere, a version nibble 1-5 and a variant nibble 8-b. */
  predicate IsGuid(s: string)
  {
    && |s| == 36
    && s[8] == s[13] == s[18] == s[23] == '-'
    && IsHex(s[..8]) && IsHex(s[9..13]) && IsHex(s[14..18]) && IsHex(s[19..23]) && IsHex(s[24..])
    && 1 <= DigitVal(s[14]) <= 5
    && 8 <= DigitVal(s[19]) <= 11
  }

  function Guid2Str(b: bytes): (s: string)
    ensures |b| == 16 ==> |s| == 36
  {
    if |b| != 16 then ""
    else
      var d := HexBytes(b[8..]);
      Hex(FromLE(b[..4]), 8) + "-" + Hex(FromLE(b[4..6]), 4) + "-" + Hex(FromLE(b[6..8]), 4)
      + "-" + d[..4] + "-" + d[4..]
  }

  function Str2Guid(s: string): (r: Option<bytes>)
    ensures r.Some? <==> IsGuid(s)
    ensures r.Some? ==> |r.value| == 16
  {
    if !IsGuid(s) then None
    else
      var clock := s[19..23];
      Some(LE(FromHex(s[..8]), 4) + LE(FromHex(s[9..13]), 2) + LE(FromHex(s[14..18]), 2)
           + LE(FromHex(clock[..2]), 1) + LE(FromHex(clock[2..]), 1)
           + BE(FromHex(s[24..]), 6))
  }

  /** Reading back the binary form of an accepted text gives that text in lower case. */
  lemma {:induction false} TextRoundTrip(s: string)
    requires IsGuid(s)
    ensures Guid2Str(Str2Guid(s).value) == Lower(s)
  {
    Limit16s();
    FieldRoundTrip(s[..8], 4);
    FieldRoundTrip(s[9..13], 2);
    FieldRoundTrip(s[14..18], 2);
    TailRoundTrip(s[19..23], s[24..]);
    BinaryFields(s);
    LowerFields(s);
  }

  lemma {:induction false} BinaryFields(s: string)
    requires IsGuid(s)
    ensures var b := Str2Guid(s).value;
            && b[..4] == LE(FromHex(s[..8]), 4)
            && b[4..6] == LE(FromHex(s[9..13]), 2)
            && b[6..8] == LE(FromHex(s[14..18]), 2)
            && b[8..] == LE(FromHex(s[19..23][..2]), 1) + LE(FromHex(s[19..23][2..]), 1) + BE(FromHex(s[24..]), 6)
  {
  }

  lemma {:induction false} LowerFields(s: string)
    requires |s| == 36 && s[8] == s[13] == s[18] == s[23] == '-'
    ensures Lower(s) == Lower(s[..8]) + "-" + Lower(s[9..13]) + "-" + Lower(s[14..18]) + "-"
                        + Lower(s[19..23]) + "-" + Lower(s[24..])
  {
    var t := Lower(s[..8]) + "-" + Lower(s[9..13]) + "-" + Lower(s[14..18]) + "-"
                        + Lower(s[19..23]) + "-" + Lower(s[24..]);
    assert |t| == 36;
    forall i | 0 <= i < 36
      ensures t[i] == LowerChar(s[i])
    {
    }
  }

  /** The eight trailing bytes print as the last two groups. */
  lemma {:induction false} TailRoundTrip(clock: string, node: string)
    requires IsHex(clock) && IsHex(node) && |clock| == 4 && |node| == 12
    ensures var d := HexBytes(LE(FromHex(clock[..2]), 1) + LE(FromHex(clock[2..]), 1) + BE(FromHex(node), 6));
            d[..4] == Lower(clock) && d[4..] == Lower(node)
  {
    ClockBytes(clock);
    HexBytesOfBE(clock, 2);
    HexBytesOfBE(node, 6);
    HexBytesConcat(BE(FromHex(clock), 2), BE(FromHex(node), 6));
  }

  lemma {:induction false} FieldRoundTrip(s: string, w: nat)
    requires IsHex(s) && |s| == 2 * w && Limit16(|s|) == Limit(w)
    ensures Hex(FromLE(LE(FromHex(s), w)), |s|) == Lower(s)
  {
    FromLEofLE(FromHex(s), w);
    HexOfFromHex(s);
  }

  /** The two clock-sequence bytes, packed one by one, are the big-endian pair. */
  lemma {:induction false} ClockBytes(s: string)
    requires IsHex(s) && |s| == 4
    ensures LE(FromHex(s[..2]), 1) + LE(FromHex(s[2..]), 1) == BE(FromHex(s), 2)
  {
    FromHexPair(s);
    FromHexPair(s[..2]);
    FromHexPair(s[2..]);
    assert FromHex(s[..2][..0]) == 0 && FromHex(s[2..][..0]) == 0;
    var hi, lo := FromHex(s[..2]), FromHex(s[2..]);
    Limit16s();
    assert lo < 256 && hi < 256;
    assert FromHex(s) == 256 * hi + lo;
    assert (256 * hi + lo) / 256 == hi && (256 * hi + lo) % 256 == lo;
    assert BE(256 * hi + lo, 2) == BE(hi, 1) + [lo];
    assert BE(hi, 1) == BE(0, 0) + [hi];
    assert LE(hi, 1) == [hi] + LE(0, 0) && LE(lo, 1) == [lo] + LE(0, 0);
  }

  lemma {:induction false} HexBytesConcat(a: bytes, b: bytes)
    ensures HexBytes(a + b) == HexBytes(a) + HexBytes(b)
  {
    if |b| == 0 {
      assert a + b == a;
    } else {
      var init, ab := b[..|b| - 1], a + b;
      assert ab[..|ab| - 1] == a + init && ab[|ab| - 1] == b[|b| - 1];
      var t := Hex(b[|b| - 1], 2);
      calc {
        HexBytes(ab);
        HexBytes(a + init) + t;
        { HexBytesConcat(a, init); }
        (HexBytes(a) + HexBytes(init)) + t;
        HexBytes(a) + (HexBytes(init) + t);
        HexBytes(a) + HexBytes(b);
      }
    }
  }

  /** The version and variant nibbles that the text pattern allows, read off the binary form. */
  predicate AllowedNibbles(b: bytes)
    requires |b| == 16
  {
    1 <= b[7] / 16 <= 5 && 8 <= b[8] / 16 <= 11
  }

  lemma {:induction false} BEofHexBytes(bs: bytes)
    ensures BE(FromHex(HexBytes(bs)), |bs|) == bs
  {
    FromHexOfHexBytes(bs);
    BEofFromBE(bs);
  }

  /** Printing 16 bytes gives accepted text exactly when their nibbles are allowed ... */
  lemma {:induction false} PrintedIsGuid(b: bytes)
    requires |b| == 16
    ensures IsGuid(Guid2Str(b)) <==> AllowedNibbles(b)
  {
    var s, d := Guid2Str(b), HexBytes(b[8..]);
    PrintedFields(b);
    VersionDigit(b[6..8]);
    VariantDigit(b[8..]);
    assert s[14] == s[14..18][0] && s[19] == s[19..23][0];
    assert s[19..23][0] == d[0];
    assert IsHex(d[..4]) && IsHex(d[4..]);
  }

  lemma {:induction false} PrintedFields(b: bytes)
    requires |b| == 16
    ensures var s, d := Guid2Str(b), HexBytes(b[8..]);
            && s[8] == s[13] == s[18] == s[23] == '-'
            && s[..8] == Hex(FromLE(b[..4]), 8) && s[9..13] == Hex(FromLE(b[4..6]), 4)
            && s[14..18] == Hex(FromLE(b[6..8]), 4) && s[19..23] == d[..4] && s[24..] == d[4..]
  {
    var d := HexBytes(b[8..]);
    HyphenFields(Hex(FromLE(b[..4]), 8), Hex(FromLE(b[4..6]), 4), Hex(FromLE(b[6..8]), 4), d[..4], d[4..]);
  }

  lemma {:induction false} HyphenFields(f0: string, f1: string, f2: string, f3: string, f4: string)
    requires |f0| == 8 && |f1| == |f2| == |f3| == 4 && |f4| == 12
    ensures var s := f0 + "-" + f1 + "-" + f2 + "-" + f3 + "-" + f4;
            && s[8] == s[13] == s[18] == s[23] == '-'
            && s[..8] == f0 && s[9..13] == f1 && s[14..18] == f2 && s[19..23] == f3 && s[24..] == f4
  {
  }

  lemma {:induction false} VersionDigit(b: bytes)
    requires |b| == 2
    ensures DigitVal(Hex(FromLE(b), 4)[0]) == b[1] / 16
  {
    assert FromLE(b[1..]) == b[1] + 256 * FromLE(b[1..][1..]);
    var n, lo: int, hi: int := FromLE(b), b[0], b[1];
    assert n == lo + 256 * hi;
    assert Hex(n, 4)[0] == Hex(n / 16, 3)[0] == Hex(n / 16 / 16, 2)[0];
    assert n / 16 / 16 == b[1];
    HexPair(b[1]);
  }

  lemma {:induction false} VariantDigit(bs: bytes)
    requires |bs| > 0
    ensures DigitVal(HexBytes(bs)[0]) == bs[0] / 16
  {
    if |bs| == 1 {
      HexPair(bs[0]);
      assert HexBytes(bs[..0]) == "";
    } else {
      VariantDigit(bs[..|bs| - 1]);
    }
  }

  /** ... and then parsing that text restores the bytes. */
  lemma {:induction false} BinaryRoundTrip(b: bytes)
    requires |b| == 16 && AllowedNibbles(b)
    ensures Str2Guid(Guid2Str(b)) == Some(b)
  {
    PrintedIsGuid(b);
    var s, d := Guid2Str(b), HexBytes(b[8..]);
    assert LE(FromHex(s[..8]), 4) == b[..4] && LE(FromHex(s[9..13]), 2) == b[4..6]
        && LE(FromHex(s[14..18]), 2) == b[6..8] by {
      PrintedFields(b);
      Limit16s();
      NumberRoundTrip(b[..4]);
      NumberRoundTrip(b[4..6]);
      NumberRoundTrip(b[6..8]);
    }
    assert s[19..23] == d[..4] && s[24..] == d[4..] by {
      PrintedFields(b);
    }
    TailBytes(b[8..]);
    Assemble(s, b);
  }

  lemma {:induction false} Assemble(s: string, b: bytes)
    requires |b| == 16 && IsGuid(s)
    requires LE(FromHex(s[..8]), 4) == b[..4]
    requires LE(FromHex(s[9..13]), 2) == b[4..6]
    requires LE(FromHex(s[14..18]), 2) == b[6..8]
    requires LE(FromHex(s[19..23][..2]), 1) + LE(FromHex(s[19..23][2..]), 1) + BE(FromHex(s[24..]), 6) == b[8..]
    ensures Str2Guid(s) == Some(b)
  {
    BinaryFields(s);
    var r := Str2Guid(s).value;
    assert r == r[..4] + r[4..6] + r[6..8] + r[8..];
    assert b == b[..4] + b[4..6] + b[6..8] + b[8..];
  }

  lemma {:induction false} TailBytes(b: bytes)
    requires |b| == 8
    ensures var d := HexBytes(b);
            LE(FromHex(d[..4][..2]), 1) + LE(FromHex(d[..4][2..]), 1) + BE(FromHex(d[4..]), 6) == b
  {
    var d := HexBytes(b);
    HexBytesConcat(b[..2], b[2..]);
    assert b == b[..2] + b[2..];
    assert d[..4] == HexBytes(b[..2]) && d[4..] == HexBytes(b[2..]);
    ClockBytes(d[..4]);
    BEofHexBytes(b[..2]);
    BEofHexBytes(b[2..]);
  }

  lemma {:induction false} NumberRoundTrip(bs: bytes)
    requires Limit16(2 * |bs|) == Limit(|bs|)
    ensures LE(FromHex(Hex(FromLE(bs), 2 * |bs|)), |bs|) == bs
  {
    FromHexOfHex(FromLE(bs), 2 * |bs|);
    LEofFromLE(bs);
  }

  /** Hence two texts name the same GUID exactly when they agree up to letter case, and a lookup by
      any spelling compares equal to the text printed from the stored bytes. */
  lemma {:induction false} SameGuidAnyCase(s: string, t: string)
    requires IsGuid(s) && IsGuid(t)
    ensures Lower(s) == Lower(t) <==> Str2Guid(s) == Str2Guid(t)
  {
    TextRoundTrip(s);
    TextRoundTrip(t);
    if Lower(s) == Lower(t) {
      LowerNibbles(s);
      LowerNibbles(t);
      BinaryRoundTrip(Str2Guid(s).value);
      BinaryRoundTrip(Str2Guid(t).value);
    }
  }

  lemma {:induction false} LowerNibbles(s: string)
    requires IsGuid(s)
    ensures AllowedNibbles(Str2Guid(s).value)
  {
    TextRoundTrip(s);
    PrintedIsGuid(Str2Guid(s).value);
    var t := Lower(s);
    forall i | 0 <= i < 36 && DigitVal(s[i]) >= 0
      ensures DigitVal(t[i]) == DigitVal(s[i])
    {
      DigitRoundTrip(s[i]);
    }
    LowerIsHex(s[..8], t[..8]);
    LowerIsHex(s[9..13], t[9..13]);
    LowerIsHex(s[14..18], t[14..18]);
    LowerIsHex(s[19..23], t[19..23]);
    LowerIsHex(s[24..], t[24..]);
    assert s[14] == s[14..18][0] && s[19] == s[19..23][0];
  }

  lemma {:induction false} LowerIsHex(s: string, t: string)
    requires IsHex(s) && |s| == |t| && forall i :: 0 <= i < |s| ==> t[i] == LowerChar(s[i])
    ensures IsHex(t)
  {
  }

  lemma {:induction false} JoinedIsGuid(f0: string, f1: string, f2: string, f3: string, f4: string)
    requires |f0| == 8 && |f1| == |f2| == |f3| == 4 && |f4| == 12
    requires IsHex(f0) && IsHex(f1) && IsHex(f2) && IsHex(f3) && IsHex(f4)
    requires 1 <= DigitVal(f2[0]) <= 5 && 8 <= DigitVal(f3[0]) <= 11
    ensures IsGuid(f0 + "-" + f1 + "-" + f2 + "-" + f3 + "-" + f4)
  {
    HyphenFields(f0, f1, f2, f3, f4);
    var s := f0 + "-" + f1 + "-" + f2 + "-" + f3 + "-" + f4;
    assert s[14] == s[14..18][0] && s[19] == s[19..23][0];
  }

  // Which digits make which byte

  /** The byte two hex digits denote. */
  function Pair(s: string, i: nat): (b: byte)
    requires IsHex(s) && i + 2 <= |s|
  {
    DigitRoundTrip(s[i]);
    DigitRoundTrip(s[i + 1]);
    16 * DigitVal(s[i]) + DigitVal(s[i + 1])
  }

  lemma {:induction false} FromHexLast(s: string)
    requires IsHex(s) && |s| >= 2
    ensures FromHex(s) / 256 == FromHex(s[..|s| - 2]) && FromHex(s) % 256 == Pair(s, |s| - 2)
  {
    FromHexPair(s);
    var n, p: int := FromHex(s[..|s| - 2]), Pair(s, |s| - 2);
    assert FromHex(s) == 256 * n + p;
  }

  lemma {:induction false} LEOfHex(s: string, w: nat, k: nat)
    requires IsHex(s) && |s| == 2 * w && k < w
    ensures LE(FromHex(s), w)[k] == Pair(s, 2 * (w - 1 - k))
  {
    hide FromHex;
    FromHexLast(s);
    if k > 0 {
      LEOfHex(s[..|s| - 2], w - 1, k - 1);
    }
  }

  lemma {:induction false} BEOfHex(s: string, w: nat, k: nat)
    requires IsHex(s) && |s| == 2 * w && k < w
    ensures BE(FromHex(s), w)[k] == Pair(s, 2 * k)
    decreases w
  {
    hide FromHex;
    FromHexLast(s);
    if k < w - 1 {
      BEOfHex(s[..|s| - 2], w - 1, k);
    }
  }

  /** Where the two digits of each byte stand in the text: the first three groups are stored back to
      front, the last two as they are written. */
  const DIGITS: seq<nat> := [6, 4, 2, 0, 11, 9, 16, 14, 19, 21, 24, 26, 28, 30, 32, 34]

  /** The value of the two characters at a position of a text. */
  function CharPair(s: string, i: nat): int
    requires i + 2 <= |s|
  {
    16 * DigitVal(s[i]) + DigitVal(s[i + 1])
  }

  lemma {:induction false} GuidLayout(s: string, k: nat)
    requires IsGuid(s) && k < 16
    ensures Str2Guid(s).value[k] == CharPair(s, DIGITS[k])
  {
    hide LE, BE, FromHex, IsHex;
    BinaryFields(s);
    var b := Str2Guid(s).value;
    if k < 4 {
      LEOfHex(s[..8], 4, k);
      assert b[k] == b[..4][k];
    } else if k < 6 {
      LEOfHex(s[9..13], 2, k - 4);
      assert b[k] == b[4..6][k - 4];
    } else if k < 8 {
      LEOfHex(s[14..18], 2, k - 6);
      assert b[k] == b[6..8][k - 6];
    } else if k < 10 {
      ClockBytes(s[19..23]);
      BEOfHex(s[19..23], 2, k - 8);
      assert b[k] == b[8..][k - 8];
    } else {
      BEOfHex(s[24..], 6, k - 10);
      assert b[k] == b[8..][k - 8];
    }
  }

  /** The stored form of a GUID given by its five groups. */
  lemma {:induction false} GroupBytes(f0: string, f1: string, f2: string, f3: string, f4: string)
    requires |f0| == 8 && |f1| == |f2| == |f3| == 4 && |f4| == 12
    requires IsGuid(f0 + "-" + f1 + "-" + f2 + "-" + f3 + "-" + f4)
    ensures Str2Guid(f0 + "-" + f1 + "-" + f2 + "-" + f3 + "-" + f4).value
         == [CharPair(f0, 6), CharPair(f0, 4), CharPair(f0, 2), CharPair(f0, 0), CharPair(f1, 2), CharPair(f1, 0),
             CharPair(f2, 2), CharPair(f2, 0), CharPair(f3, 0), CharPair(f3, 2), CharPair(f4, 0), CharPair(f4, 2),
             CharPair(f4, 4), CharPair(f4, 6), CharPair(f4, 8), CharPair(f4, 10)]
  {
    hide IsGuid, Str2Guid, DigitVal;
    var s := f0 + "-" + f1 + "-" + f2 + "-" + f3 + "-" + f4;
    GuidLayout(s, 0);
    GuidLayout(s, 1);
    GuidLayout(s, 2);
    GuidLayout(s, 3);
    GuidLayout(s, 4);
    GuidLayout(s, 5);
    GuidLayout(s, 6);
    GuidLayout(s, 7);
    GuidLayout(s, 8);
    GuidLayout(s, 9);
    GuidLayout(s, 10);
    GuidLayout(s, 11);
    GuidLayout(s, 12);
    GuidLayout(s, 13);
    GuidLayout(s, 14);
    GuidLayout(s, 15);
  }
}
