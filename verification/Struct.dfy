/** Python's `struct` module for the codes the source uses: little-endian unsigned integers
    (`B`, `H`, `I`, `Q`) and fixed-size byte strings (`16s`), packed without padding. */
module Struct {
  import opened Bytes

  datatype Code = U(width: nat) | S(width: nat)
  datatype Val = Num(n: int) | Str(s: bytes)

  function Size(fmt: seq<Code>): nat
  {
    if |fmt| == 0 then 0 else fmt[0].width + Size(fmt[1..])
  }

  /** `s` values are cut or zero-padded to the width; integers out of range raise. */
  function PackOne(c: Code, v: Val): (r: Option<bytes>)
    ensures r.Some? ==> |r.value| == c.width
  {
    match (c, v)
    case (U(w), Num(n)) => if 0 <= n < Limit(w) then Some(LE(n, w)) else None
    case (S(w), Str(s)) =>
      if |s| >= w then Some(s[..w]) else Some(s + Fill(0, w - |s|))
    case _ => None
  }

  function UnpackOne(c: Code, bs: bytes): Val
  {
    match c
    case U(_) => Num(FromLE(bs))
    case S(_) => Str(bs)
  }

  function Pack(fmt: seq<Code>, vals: seq<Val>): (r: Option<bytes>)
    ensures r.Some? ==> |r.value| == Size(fmt) && |fmt| == |vals|
    decreases |fmt|
  {
    if |fmt| != |vals| then None
    else if |fmt| == 0 then Some([])
    else
      var head :- PackOne(fmt[0], vals[0]);
      var tail :- Pack(fmt[1..], vals[1..]);
      Some(head + tail)
  }

  /** Succeeds exactly when the buffer has the size the format asks for. */
  function Unpack(fmt: seq<Code>, bs: bytes): (r: Option<seq<Val>>)
    ensures r.Some? <==> |bs| == Size(fmt)
    ensures r.Some? ==> |r.value| == |fmt|
    ensures r.Some? ==> forall i :: 0 <= i < |fmt| ==> Fits(fmt[i], r.value[i])
    decreases |fmt|
  {
    if |bs| != Size(fmt) then None
    else if |fmt| == 0 then Some([])
    else
      var w := fmt[0].width;
      Some([UnpackOne(fmt[0], bs[..w])] + Unpack(fmt[1..], bs[w..]).value)
  }

  /** A value that `Pack` stores without loss. */
  predicate Fits(c: Code, v: Val)
  {
    match (c, v)
    case (U(w), Num(n)) => 0 <= n < Limit(w)
    case (S(w), Str(s)) => |s| == w
    case _ => false
  }

  lemma {:induction false} PackFits(fmt: seq<Code>, vals: seq<Val>)
    requires |fmt| == |vals| && forall i :: 0 <= i < |fmt| ==> Fits(fmt[i], vals[i])
    ensures Pack(fmt, vals).Some?
    decreases |fmt|
  {
    if |fmt| > 0 {
      PackFits(fmt[1..], vals[1..]);
    }
  }

  /** One value that does not pack spoils the whole. */
  lemma {:induction false} PackRaises(fmt: seq<Code>, vals: seq<Val>, i: nat)
    requires i < |fmt| == |vals| && PackOne(fmt[i], vals[i]).None?
    ensures Pack(fmt, vals).None?
    decreases |fmt|
  {
    if i > 0 {
      PackRaises(fmt[1..], vals[1..], i - 1);
    }
  }

  lemma {:induction false} UnpackOfPack(fmt: seq<Code>, vals: seq<Val>)
    requires |fmt| == |vals| && forall i :: 0 <= i < |fmt| ==> Fits(fmt[i], vals[i])
    ensures Pack(fmt, vals).Some? && Unpack(fmt, Pack(fmt, vals).value) == Some(vals)
    decreases |fmt|
  {
    if |fmt| > 0 {
      UnpackOfPack(fmt[1..], vals[1..]);
      var head, tail := PackOne(fmt[0], vals[0]).value, Pack(fmt[1..], vals[1..]).value;
      SplitAppend(head, tail);
      assert UnpackOne(fmt[0], head) == vals[0] by {
        if vals[0].Num? {
          FromLEofLE(vals[0].n, fmt[0].width);
        }
      }
      assert vals == [vals[0]] + vals[1..];
    }
  }

  lemma {:induction false} PackOneOfUnpackOne(c: Code, bs: bytes)
    requires |bs| == c.width
    ensures PackOne(c, UnpackOne(c, bs)) == Some(bs)
  {
    LEofFromLE(bs);
    assert bs[..|bs|] == bs;
  }

  lemma {:induction false} PackOfUnpack(fmt: seq<Code>, bs: bytes)
    requires |bs| == Size(fmt)
    ensures Pack(fmt, Unpack(fmt, bs).value) == Some(bs)
    decreases |fmt|
  {
    if |fmt| > 0 {
      var w := fmt[0].width;
      PackOfUnpack(fmt[1..], bs[w..]);
      PackOneOfUnpackOne(fmt[0], bs[..w]);
      var vals := Unpack(fmt, bs).value;
      assert vals[1..] == Unpack(fmt[1..], bs[w..]).value;
      assert vals[0] == UnpackOne(fmt[0], bs[..w]);
      assert bs == bs[..w] + bs[w..];
    }
  }

  /** Packing from position `k` on is packing one integer and then the rest. */
  lemma {:induction false} PackFrom(fmt: seq<Code>, vals: seq<Val>, k: nat, tail: bytes)
    requires k < |fmt| == |vals| && fmt[k].U? && vals[k].Num? && 0 <= vals[k].n < Limit(fmt[k].width)
    requires Pack(fmt[k + 1..], vals[k + 1..]) == Some(tail)
    ensures Pack(fmt[k..], vals[k..]) == Some(LE(vals[k].n, fmt[k].width) + tail)
  {
    assert fmt[k..][1..] == fmt[k + 1..] && vals[k..][1..] == vals[k + 1..];
  }

  // Where each field lies

  /** The position of field `i`: the widths before it, since there is no padding. */
  function Offset(fmt: seq<Code>, i: nat): nat
    requires i <= |fmt|
  {
    if i == 0 then 0 else Offset(fmt, i - 1) + fmt[i - 1].width
  }

  lemma {:induction false} OffsetTail(fmt: seq<Code>, i: nat)
    requires 0 < i <= |fmt|
    ensures Offset(fmt, i) == fmt[0].width + Offset(fmt[1..], i - 1)
  {
    if i > 1 {
      OffsetTail(fmt, i - 1);
    }
  }

  /** Unpacking reads field `i` from its own bytes. */
  lemma {:induction false} UnpackAt(fmt: seq<Code>, bs: bytes, i: nat)
    requires |bs| == Size(fmt) && i < |fmt|
    ensures Offset(fmt, i) + fmt[i].width <= |bs|
    ensures Unpack(fmt, bs).value[i] == UnpackOne(fmt[i], bs[Offset(fmt, i)..Offset(fmt, i) + fmt[i].width])
    decreases |fmt|
  {
    if i > 0 {
      var w := fmt[0].width;
      UnpackAt(fmt[1..], bs[w..], i - 1);
      OffsetTail(fmt, i);
      SliceOfTail(bs, w, Offset(fmt[1..], i - 1), fmt[i].width);
    }
  }

  lemma {:induction false} SliceOfTail(bs: bytes, w: nat, at: nat, n: nat)
    requires w + at + n <= |bs|
    ensures bs[w..][at..at + n] == bs[w + at..w + at + n]
  {
  }

  /** The bytes of one field. */
  function FieldBytes(c: Code, v: Val): (r: bytes)
    requires Fits(c, v)
    ensures |r| == c.width
  {
    match v
    case Num(n) => LE(n, c.width)
    case Str(s) => s
  }

  lemma {:induction false} FieldRead(c: Code, v: Val, bs: bytes)
    requires Fits(c, v) && |bs| == c.width && UnpackOne(c, bs) == v
    ensures bs == FieldBytes(c, v)
  {
    LEofFromLE(bs);
  }

  /** Packing puts a number that fits, or a string of its width, at its own bytes. */
  lemma {:induction false} PackAt(fmt: seq<Code>, vals: seq<Val>, i: nat)
    requires |fmt| == |vals| && i < |fmt| && forall j :: 0 <= j < |fmt| ==> Fits(fmt[j], vals[j])
    ensures Pack(fmt, vals).Some? && Offset(fmt, i) + fmt[i].width <= |Pack(fmt, vals).value|
    ensures Pack(fmt, vals).value[Offset(fmt, i)..Offset(fmt, i) + fmt[i].width] == FieldBytes(fmt[i], vals[i])
  {
    hide LE, FromLE, Limit, Pack, FieldBytes;
    UnpackOfPack(fmt, vals);
    var b := Pack(fmt, vals).value;
    UnpackAt(fmt, b, i);
    FieldRead(fmt[i], vals[i], b[Offset(fmt, i)..Offset(fmt, i) + fmt[i].width]);
  }
}
