/** Byte strings as Python sees them: fixed-width numerals, clipped slices and slice assignment. */
module Bytes {

  type byte = b: int | 0 <= b < 256
  type bytes = seq<byte>

  /** None stands for "an exception is raised" wherever the source raises one. */
  datatype Option<+T> = None | Some(value: T) {
    predicate IsFailure() {
      None?
    }

    function PropagateFailure<U>(): Option<U>
      requires None?
    {
      None
    }

    function Extract(): T
      requires Some?
    {
      value
    }
  }

  function Min(a: int, b: int): int {
    if a < b then a else b
  }

  function Max(a: int, b: int): int {
    if a < b then b else a
  }

  /** The number of values a `w`-byte unsigned integer has. */
  function Limit(w: nat): (r: nat)
    ensures r > 0
  {
    if w == 0 then 1 else 256 * Limit(w - 1)
  }

  lemma {:induction false} Limits()
    ensures Limit(1) == 0x100 && Limit(2) == 0x1_0000 && Limit(4) == 0x1_0000_0000
    ensures Limit(8) == 0x1_0000_0000_0000_0000
  {
    assert Limit(3) == 0x100_0000;
    assert Limit(7) == 256 * Limit(6) && Limit(6) == 256 * Limit(5) && Limit(5) == 256 * Limit(4);
  }

  /** Little-endian numeral of width `w`, keeping the low `w` bytes. */
  function LE(n: nat, w: nat): (r: bytes)
    ensures |r| == w
  {
    if w == 0 then [] else [n % 256] + LE(n / 256, w - 1)
  }

  function FromLE(bs: bytes): (n: nat)
    ensures n < Limit(|bs|)
  {
    if |bs| == 0 then 0 else bs[0] + 256 * FromLE(bs[1..])
  }

  lemma {:induction false} FromLEofLE(n: nat, w: nat)
    requires n < Limit(w)
    ensures FromLE(LE(n, w)) == n
  {
    if w > 0 {
      FromLEofLE(n / 256, w - 1);
      assert LE(n, w)[1..] == LE(n / 256, w - 1);
    }
  }

  lemma {:induction false} LEofFromLE(bs: bytes)
    ensures LE(FromLE(bs), |bs|) == bs
  {
    if |bs| > 0 {
      LEofFromLE(bs[1..]);
      var low, rest: int := bs[0], FromLE(bs[1..]);
      assert (low + 256 * rest) % 256 == low && (low + 256 * rest) / 256 == rest;
      assert FromLE(bs) == low + 256 * rest;
      assert bs == [bs[0]] + bs[1..];
    }
  }

  /** Big-endian numeral of width `w`. */
  function BE(n: nat, w: nat): (r: bytes)
    ensures |r| == w
  {
    if w == 0 then [] else BE(n / 256, w - 1) + [n % 256]
  }

  function FromBE(bs: bytes): (n: nat)
    ensures n < Limit(|bs|)
  {
    if |bs| == 0 then 0 else 256 * FromBE(bs[..|bs| - 1]) + bs[|bs| - 1]
  }

  lemma {:induction false} FromBEofBE(n: nat, w: nat)
    requires n < Limit(w)
    ensures FromBE(BE(n, w)) == n
  {
    if w > 0 {
      FromBEofBE(n / 256, w - 1);
      assert BE(n, w)[..w - 1] == BE(n / 256, w - 1);
    }
  }

  lemma {:induction false} BEofFromBE(bs: bytes)
    ensures BE(FromBE(bs), |bs|) == bs
  {
    if |bs| > 0 {
      BEofFromBE(bs[..|bs| - 1]);
      assert bs == bs[..|bs| - 1] + [bs[|bs| - 1]];
    }
  }

  /** The last byte of a little-endian numeral, and the first of a big-endian one, counts most. */
  lemma {:induction false} FromLESnoc(bs: bytes, x: byte)
    ensures FromLE(bs + [x]) == FromLE(bs) + Limit(|bs|) * x
  {
    if |bs| == 0 {
      assert bs + [x] == [x] && [x][1..] == [];
    } else {
      FromLESnoc(bs[1..], x);
      assert (bs + [x])[1..] == bs[1..] + [x];
      Scale(Limit(|bs| - 1), x);
    }
  }

  lemma {:induction false} FromBECons(x: byte, bs: bytes)
    ensures FromBE([x] + bs) == Limit(|bs|) * x + FromBE(bs)
  {
    if |bs| == 0 {
      assert [x] + bs == [x] && [x][..0] == [];
    } else {
      var init, last := bs[..|bs| - 1], bs[|bs| - 1];
      FromBECons(x, init);
      assert ([x] + bs)[..|bs|] == [x] + init && ([x] + bs)[|bs|] == last;
      Scale(Limit(|bs| - 1), x);
    }
  }

  lemma {:induction false} Scale(m: nat, x: nat)
    ensures 256 * (m * x) == (256 * m) * x
  {
  }

  /** Python's `s[i:j]`: bounds are clipped, nothing is raised. */
  function Slice<T>(s: seq<T>, i: nat, j: nat): (r: seq<T>)
    ensures i <= j <= |s| ==> r == s[i..j]
    ensures |r| <= Max(0, j - i)
    ensures |r| == j - i && i <= j ==> j <= |s| || i == j
  {
    var lo := Min(i, |s|);
    s[lo..Max(lo, Min(j, |s|))]
  }

  /** Python's `s[i:j] = v` on a bytearray: clipped bounds, and the length may change. */
  function SliceAssign<T>(s: seq<T>, i: nat, j: nat, v: seq<T>): (r: seq<T>)
  {
    var lo := Min(i, |s|);
    s[..lo] + v + s[Max(lo, Min(j, |s|))..]
  }

  /** Where the old and the new bytes end up when the assignment starts inside the buffer. */
  lemma {:induction false} SliceAssignAt<T>(s: seq<T>, i: nat, j: nat, v: seq<T>)
    requires i <= |s|
    ensures var r, k := SliceAssign(s, i, j, v), Max(i, Min(j, |s|));
            && |r| == i + |v| + |s| - k
            && r[..i] == s[..i] && r[i..i + |v|] == v && r[i + |v|..] == s[k..]
  {
    var k := Max(i, Min(j, |s|));
    assert SliceAssign(s, i, j, v) == (s[..i] + v) + s[k..];
    assert (s[..i] + v)[..i] == s[..i];
  }

  function Fill(b: byte, n: nat): (r: bytes)
    ensures |r| == n
    ensures forall k :: 0 <= k < n ==> r[k] == b
  {
    seq(n, _ => b)
  }

  function Align4(n: nat): (r: nat)
    ensures n <= r < n + 4 && r % 4 == 0
  {
    (n + 3) / 4 * 4
  }

  lemma {:induction false} Align4Add(base: nat, n: nat)
    requires base % 4 == 0
    ensures Align4(base + n) == base + Align4(n)
  {
  }

  lemma {:induction false} SplitAppend<T>(a: seq<T>, b: seq<T>)
    ensures (a + b)[..|a|] == a && (a + b)[|a|..] == b
  {
  }

  /** If `part + rest` starts at `pos`, then `part` is there and `rest` follows it. */
  lemma {:induction false} At(data: bytes, pos: nat, part: bytes, rest: bytes)
    requires pos <= |data| && part + rest <= data[pos..]
    ensures pos + |part| <= |data| && data[pos..pos + |part|] == part && rest <= data[pos + |part|..]
  {
    var whole := data[pos..];
    assert whole[..|part|] == (part + rest)[..|part|] == part;
    assert data[pos + |part|..] == whole[|part|..];
    assert whole[|part|..][..|rest|] == (part + rest)[|part|..] == rest;
  }
}
