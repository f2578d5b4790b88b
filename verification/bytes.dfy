/**
  Bytes, big-endian integer fields and Python's clamped slicing, as the file
  formats of every codec use them.
 */
module Bytes {
  import opened Outcomes

  type byte = b: int | 0 <= b < 256

  function Min(a: int, b: int): int {
    if a <= b then a else b
  }

  function Max(a: int, b: int): int {
    if a <= b then b else a
  }

  function Pow2(n: nat): (r: nat)
    ensures r >= 1
  {
    if n == 0 then 1 else 2 * Pow2(n - 1)
  }

  function Pow256(n: nat): (r: nat)
    ensures r >= 1
  {
    if n == 0 then 1 else 256 * Pow256(n - 1)
  }

  /** The `width` low base-256 digits of `n`, most significant first. */
  function Digits(n: nat, width: nat): (r: seq<byte>)
    ensures |r| == width
  {
    if width == 0 then [] else Digits(n / 256, width - 1) + [n % 256]
  }

  /** `int.from_bytes(bs, 'big')`; an empty (short-read) field reads as 0. */
  function FromBigEndian(bs: seq<byte>): (r: nat)
    ensures r < Pow256(|bs|)
  {
    if |bs| == 0 then 0
    else
      var high := FromBigEndian(bs[..|bs| - 1]);
      assert high <= Pow256(|bs| - 1) - 1;
      high * 256 + bs[|bs| - 1]
  }

  lemma {:induction false} DigitsRoundTrip(n: nat, width: nat)
    requires n < Pow256(width)
    ensures FromBigEndian(Digits(n, width)) == n
  {
    if width > 0 {
      var d := Digits(n, width);
      assert d[..width - 1] == Digits(n / 256, width - 1);
      DigitsRoundTrip(n / 256, width - 1);
    }
  }

  /** A value that fits in `width` digits gets a leading zero digit when written one digit wider. */
  lemma {:induction false} DigitsLeadingZero(n: nat, width: nat)
    requires n < Pow256(width)
    ensures Digits(n, width + 1) == [0] + Digits(n, width)
  {
    if width > 0 {
      DigitsLeadingZero(n / 256, width - 1);
    }
  }

  /** One more byte at the low end shifts the value up by a digit. */
  lemma FromBigEndianAppend(bs: seq<byte>, b: byte)
    ensures FromBigEndian(bs + [b]) == FromBigEndian(bs) * 256 + b
  {
    assert (bs + [b])[..|bs|] == bs;
  }

  /** `n.to_bytes(width, 'big')`: a value that does not fit raises OverflowError. */
  function ToBigEndian(n: nat, width: nat): (r: Result<seq<byte>>)
    ensures r.Ok? <==> n < Pow256(width)
    ensures r.Ok? ==> |r.value| == width && FromBigEndian(r.value) == n
    ensures r.Err? ==> r.error == Overflow
  {
    if n < Pow256(width) then
      DigitsRoundTrip(n, width);
      Ok(Digits(n, width))
    else Err(Overflow)
  }

  /** Python's `s[lo:hi]` for non-negative bounds: both ends are clamped to `s`. */
  function Slice<T>(s: seq<T>, lo: nat, hi: nat): (r: seq<T>)
    ensures |r| == Max(0, Min(hi, |s|) - lo)
    ensures forall i :: 0 <= i < |r| ==> r[i] == s[lo + i]
  {
    var h := Min(hi, |s|);
    if lo >= h then [] else s[lo..h]
  }

  /**
    `f.read(n)` on a file whose contents are `file` and whose cursor is at
    `pos`: the (possibly short) chunk and the new cursor.
   */
  function Read(file: seq<byte>, pos: nat, n: nat): (r: (seq<byte>, nat))
    requires pos <= |file|
    ensures r.1 == pos + |r.0| <= |file|
    ensures |r.0| == Min(n, |file| - pos)
    ensures r.0 == file[pos..r.1]
  {
    var chunk := Slice(file, pos, pos + n);
    (chunk, pos + |chunk|)
  }
}
