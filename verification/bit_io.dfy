/**
  Bit-level I/O (`BitWriter`, `BitReader`): bits are packed most significant
  bit first into bytes; a flush pads the last byte with zeros; reading past
  the end of the source yields -1 instead of raising.

  Both are modelled as immutable state records threaded through each call.
  The abstraction that all contracts are stated in is the bit sequence:
  `Written(w)` for a writer and `Unread(r)` for a reader.
 */
module BitIO {
  import opened Outcomes
  import opened Bytes

  type Bit = b: int | 0 <= b <= 1

  /** The low `k` bits of `v`, most significant first: `(v >> i) & 1` for i = k-1 down to 0. */
  function LowBits(v: nat, k: nat): (r: seq<Bit>)
    ensures |r| == k
  {
    if k == 0 then [] else LowBits(v / 2, k - 1) + [v % 2]
  }

  /** The 8 bits of one byte, most significant first. */
  function ByteBits(b: byte): (r: seq<Bit>)
    ensures |r| == 8
  {
    LowBits(b, 8)
  }

  /** The bit stream a byte sequence carries, every byte most significant bit first. */
  function BitsOf(bs: seq<byte>): (r: seq<Bit>)
    ensures |r| == 8 * |bs|
  {
    if |bs| == 0 then [] else BitsOf(bs[..|bs| - 1]) + ByteBits(bs[|bs| - 1])
  }

  function Zeros(n: nat): (r: seq<Bit>)
    ensures |r| == n && forall i :: 0 <= i < n ==> r[i] == 0
  {
    seq(n, _ => 0)
  }

  /** The big-endian value of a bit sequence. */
  function BitsValue(bs: seq<Bit>): nat {
    if |bs| == 0 then 0 else 2 * BitsValue(bs[..|bs| - 1]) + bs[|bs| - 1]
  }

  /** `write_bits` maps the character '1' to 1 and every other character to 0. */
  function CharBit(c: char): Bit {
    if c == '1' then 1 else 0
  }

  function CharsToBits(s: string): (r: seq<Bit>)
    ensures |r| == |s|
  {
    seq(|s|, i requires 0 <= i < |s| => CharBit(s[i]))
  }

  /** `str(bit)`, the character `read_bit_string` collects. */
  function BitChar(b: Bit): char {
    if b == 1 then '1' else '0'
  }

  // ---------------------------------------------------------------------------
  // Facts about the bit encodings
  // ---------------------------------------------------------------------------

  lemma Pow2Eight()
    ensures Pow2(8) == 256
  {
  }

  lemma {:induction false} BitsOfAppend(a: seq<byte>, b: seq<byte>)
    ensures BitsOf(a + b) == BitsOf(a) + BitsOf(b)
    decreases |b|
  {
    if |b| > 0 {
      var ab := a + b;
      assert ab[..|ab| - 1] == a + b[..|b| - 1];
      BitsOfAppend(a, b[..|b| - 1]);
    } else {
      assert a + b == a;
    }
  }

  /** The bits of a byte sequence start with the bits of its first byte. */
  lemma BitsOfSingle(b: byte)
    ensures BitsOf([b]) == ByteBits(b)
  {
    assert [b][..0] == [];
  }

  lemma BitsOfFront(bs: seq<byte>)
    requires |bs| > 0
    ensures BitsOf(bs) == ByteBits(bs[0]) + BitsOf(bs[1..])
  {
    var head, tail := [bs[0]], bs[1..];
    calc {
      BitsOf(bs);
      { assert bs == head + tail; }
      BitsOf(head + tail);
      { BitsOfAppend(head, tail); }
      BitsOf(head) + BitsOf(tail);
      { BitsOfSingle(bs[0]); }
      ByteBits(bs[0]) + BitsOf(tail);
    }
  }

  lemma DivUnique(v: int, d: int, q: int, r: int)
    requires d > 0 && 0 <= r < d && v == d * q + r
    ensures v / d == q
  {
    var q0, r0 := v / d, v % d;
    assert d * q0 + r0 == d * q + r;
    assert d * (q0 - q) == r - r0;
    if q0 > q {
      MulAtLeast(d, q0 - q);
    } else if q0 < q {
      MulAtLeast(d, q - q0);
    }
  }

  lemma MulAtLeast(d: int, k: int)
    requires d > 0 && k >= 1
    ensures d * k >= d
  {
    assert d * k == d * (k - 1) + d;
  }

  lemma DivDiv(v: nat, m: nat)
    requires m >= 1
    ensures v / 2 / m == v / (2 * m)
  {
    var q := v / 2;
    var q2 := q / m;
    var r2 := q % m;
    assert v == 2 * q + v % 2;
    assert q == m * q2 + r2;
    assert v == (2 * m) * q2 + (2 * r2 + v % 2);
    DivUnique(v, 2 * m, q2, 2 * r2 + v % 2);
  }

  /** The first of the low `k` bits is bit k-1: `(v >> (k-1)) & 1`. */
  lemma {:induction false} LowBitsHead(v: nat, k: nat)
    requires k >= 1
    ensures LowBits(v, k) == [(v / Pow2(k - 1)) % 2] + LowBits(v, k - 1)
  {
    if k > 1 {
      LowBitsHead(v / 2, k - 1);
      DivDiv(v, Pow2(k - 2));
    }
  }

  /** Shifting left by `p` appends `p` zero bits. */
  lemma {:induction false} LowBitsShift(v: nat, k: nat, p: nat)
    ensures LowBits(v * Pow2(p), k + p) == LowBits(v, k) + Zeros(p)
  {
    if p > 0 {
      LowBitsShift(v, k, p - 1);
      var x := v * Pow2(p - 1);
      assert v * Pow2(p) == 2 * x;
      assert (2 * x) / 2 == x && (2 * x) % 2 == 0;
      assert Zeros(p - 1) + [0] == Zeros(p);
    }
  }

  /** A value below 2^k is recovered from its low `k` bits. */
  lemma {:induction false} LowBitsValue(v: nat, k: nat)
    requires v < Pow2(k)
    ensures BitsValue(LowBits(v, k)) == v
  {
    if k > 0 {
      LowBitsValue(v / 2, k - 1);
      assert LowBits(v, k)[..k - 1] == LowBits(v / 2, k - 1);
    }
  }

  lemma {:induction false} BitsValueCons(b: Bit, s: seq<Bit>)
    ensures BitsValue([b] + s) == b * Pow2(|s|) + BitsValue(s)
    decreases |s|
  {
    if |s| > 0 {
      var bs := [b] + s;
      assert bs[..|bs| - 1] == [b] + s[..|s| - 1];
      BitsValueCons(b, s[..|s| - 1]);
    } else {
      assert [b] + s == [b];
      assert [b][..0] == [];
    }
  }

  lemma CharsToBitsAppend(a: string, b: string)
    ensures CharsToBits(a + b) == CharsToBits(a) + CharsToBits(b)
  {
  }

  // ---------------------------------------------------------------------------
  // BitWriter
  // ---------------------------------------------------------------------------

  /** `out` is what reached the sink; `cur` holds the `count` pending bits. */
  datatype Writer = Writer(out: seq<byte>, cur: nat, count: nat) {
    /** Fewer than 8 bits are pending and `cur` holds nothing else. */
    predicate Valid() {
      count < 8 && cur < Pow2(count)
    }
  }

  const NewWriter: Writer := Writer([], 0, 0)

  /** Everything written so far: the emitted bytes' bits, then the pending bits. */
  function Written(w: Writer): seq<Bit> {
    BitsOf(w.out) + LowBits(w.cur, w.count)
  }

  /** Shifting a bit in at the low end appends it. */
  lemma LowBitsPush(v: nat, k: nat, b: Bit)
    ensures LowBits(v * 2 + b, k + 1) == LowBits(v, k) + [b]
  {
    assert (v * 2 + b) / 2 == v && (v * 2 + b) % 2 == b;
  }

  /** The body of `write_bit` for a value already known to be a bit. */
  function Push(w: Writer, b: Bit): (r: Writer)
    requires w.Valid()
    ensures r.Valid()
    ensures Written(r) == Written(w) + [b]
    ensures w.count == 7 ==> r.count == 0 && r.cur == 0 && |r.out| == |w.out| + 1
                              && ByteBits(r.out[|w.out|]) == LowBits(w.cur, 7) + [b]
    ensures w.count < 7 ==> r.count == w.count + 1 && r.out == w.out
    ensures w.out <= r.out
  {
    var cur := w.cur * 2 + b;
    LowBitsPush(w.cur, w.count, b);
    if w.count + 1 == 8 then
      Pow2Eight();
      var out := w.out + [cur];
      assert BitsOf(out) == BitsOf(w.out) + ByteBits(cur) by {
        assert out[..|out| - 1] == w.out;
      }
      Writer(out, 0, 0)
    else
      Writer(w.out, cur, w.count + 1)
  }

  /** `write_bit`: anything other than 0 or 1 is rejected. */
  function WriteBit(w: Writer, bit: int): (r: Result<Writer>)
    requires w.Valid()
    ensures r.Err? <==> bit != 0 && bit != 1
    ensures r.Err? ==> r.error == NotABit
    ensures r.Ok? ==> r.value.Valid() && Written(r.value) == Written(w) + [bit]
  {
    if bit != 0 && bit != 1 then Err(NotABit) else Ok(Push(w, bit))
  }

  /** `write_bits`: one bit per character, '1' as 1 and anything else as 0. */
  function WriteBits(w: Writer, s: string): (r: Writer)
    requires w.Valid()
    ensures r.Valid()
    ensures Written(r) == Written(w) + CharsToBits(s)
    ensures w.out <= r.out
    decreases |s|
  {
    if |s| == 0 then w
    else
      var r := WriteBits(Push(w, CharBit(s[0])), s[1..]);
      assert CharsToBits(s) == [CharBit(s[0])] + CharsToBits(s[1..]);
      r
  }

  /** The loop of `write_int`: bits i-1 down to 0 of `v`, that is `(v >> j) & 1`. */
  function WriteLowBits(w: Writer, v: nat, i: nat): (r: Writer)
    requires w.Valid()
    ensures r.Valid()
    ensures Written(r) == Written(w) + LowBits(v, i)
    decreases i
  {
    if i == 0 then w
    else
      var r := WriteLowBits(Push(w, (v / Pow2(i - 1)) % 2), v, i - 1);
      LowBitsHead(v, i);
      r
  }

  /** `write_int`: values outside [0, 2^n) are rejected, others written in `n` bits, MSB first. */
  function WriteInt(w: Writer, value: int, n: nat): (r: Result<Writer>)
    requires w.Valid()
    ensures r.Err? <==> value < 0 || value >= Pow2(n)
    ensures r.Err? ==> r.error == OutOfRange
    ensures r.Ok? ==> r.value.Valid() && Written(r.value) == Written(w) + LowBits(value, n)
                      && BitsValue(LowBits(value, n)) == value
  {
    if value < 0 || value >= Pow2(n) then Err(OutOfRange)
    else
      LowBitsValue(value, n);
      Ok(WriteLowBits(w, value, n))
  }

  /**
    `flush`: pending bits are emitted left-aligned in one zero-padded byte and
    the number of padding bits is returned; with nothing pending, nothing is
    written and 0 is returned.
   */
  function Flush(w: Writer): (r: (Writer, nat))
    requires w.Valid()
    ensures r.0 == Writer(r.0.out, 0, 0)
    ensures BitsOf(r.0.out) == Written(w) + Zeros(r.1)
    ensures w.count == 0 ==> r.0 == w && r.1 == 0
    ensures w.count > 0 ==> r.1 == 8 - w.count && |r.0.out| == |w.out| + 1
    ensures r.1 < 8
    ensures w.out <= r.0.out
  {
    if w.count > 0 then
      var pad := 8 - w.count;
      var b := w.cur * Pow2(pad);
      LowBitsShift(w.cur, w.count, pad);
      ShiftedFitsByte(w.cur, w.count);
      var out := w.out + [b];
      assert out[..|out| - 1] == w.out;
      (Writer(out, 0, 0), pad)
    else
      assert Written(w) == BitsOf(w.out);
      (w, 0)
  }

  lemma {:induction false} Pow2Add(a: nat, b: nat)
    ensures Pow2(a + b) == Pow2(a) * Pow2(b)
    decreases b
  {
    if b > 0 {
      Pow2Add(a, b - 1);
    }
  }

  lemma ShiftedFitsByte(cur: nat, count: nat)
    requires count <= 8 && cur < Pow2(count)
    ensures cur * Pow2(8 - count) < 256
  {
    Pow2Add(count, 8 - count);
    Pow2Eight();
    var p := Pow2(8 - count);
    assert cur * p <= (Pow2(count) - 1) * p;
  }

  // ---------------------------------------------------------------------------
  // BitReader
  // ---------------------------------------------------------------------------

  /**
    A reader over the byte source `src`, whose next unread byte is `src[next]`;
    the low `count` bits of `cur` are buffered and not yet read.
   */
  datatype Reader = Reader(src: seq<byte>, next: nat, cur: byte, count: nat, eof: bool, totalRead: nat) {
    predicate Valid() {
      next <= |src| && count <= 8
    }
  }

  /** A fresh `BitReader` over a file whose cursor is at `start`. */
  function NewReader(src: seq<byte>, start: nat): (r: Reader)
    requires start <= |src|
    ensures r.Valid() && Unread(r) == BitsOf(src[start..]) && r.totalRead == 0
  {
    Reader(src, start, 0, 0, false, 0)
  }

  /** The bits still to come: the buffered bits, then the rest of the source. */
  function Unread(r: Reader): seq<Bit>
    requires r.Valid()
  {
    LowBits(r.cur, r.count) + BitsOf(r.src[r.next..])
  }

  /** Loading the next source byte into the buffer does not change what is still unread. */
  lemma LoadKeepsUnread(r: Reader)
    requires r.Valid() && r.count == 0 && r.next < |r.src|
    ensures Unread(r.(cur := r.src[r.next], count := 8, next := r.next + 1)) == Unread(r)
  {
    BitsOfFront(r.src[r.next..]);
    assert r.src[r.next..][1..] == r.src[r.next + 1..];
  }

  /** Taking the top buffered bit leaves the rest of the unread stream. */
  lemma TakeKeepsRest(r: Reader)
    requires r.Valid() && r.count >= 1
    ensures Unread(r) == [(r.cur / Pow2(r.count - 1)) % 2] + Unread(r.(count := r.count - 1))
  {
    LowBitsHead(r.cur, r.count);
  }

  /**
    `read_bit`: the next bit of the stream, or -1 (without raising) once the
    source is exhausted; `total_bits_read` counts successful reads.
   */
  function ReadBit(r: Reader): (res: (Reader, int))
    requires r.Valid()
    ensures res.0.Valid() && res.0.src == r.src
    ensures res.1 == -1 <==> Unread(r) == []
    ensures res.1 == -1 ==> Unread(res.0) == [] && res.0.totalRead == r.totalRead && res.0.eof
    ensures res.1 != -1 ==> |Unread(r)| > 0 && res.1 == Unread(r)[0] && Unread(res.0) == Unread(r)[1..]
                            && res.0.totalRead == r.totalRead + 1
  {
    if r.count == 0 && r.next >= |r.src| then
      (r.(eof := true), -1)
    else
      var r1 := if r.count == 0 then r.(cur := r.src[r.next], count := 8, next := r.next + 1) else r;
      assert Unread(r1) == Unread(r) by {
        if r.count == 0 {
          LoadKeepsUnread(r);
        }
      }
      TakeKeepsRest(r1);
      var count := r1.count - 1;
      (r1.(count := count, totalRead := r1.totalRead + 1), (r1.cur / Pow2(count)) % 2)
  }

  /** The loop of `read_bits`, with the value accumulated so far. */
  function ReadBitsFrom(r: Reader, n: nat, acc: nat): (res: (Reader, int))
    requires r.Valid()
    ensures res.0.Valid() && res.0.src == r.src
    ensures n <= |Unread(r)| ==> res.1 == acc * Pow2(n) + BitsValue(Unread(r)[..n])
                                 && Unread(res.0) == Unread(r)[n..]
    ensures n > |Unread(r)| ==> res.1 == -1 && Unread(res.0) == []
    decreases n
  {
    if n == 0 then
      assert Unread(r)[..0] == [];
      (r, acc)
    else
      var (r1, bit) := ReadBit(r);
      if bit == -1 then (r1, -1)
      else
        var u := Unread(r);
        var res := ReadBitsFrom(r1, n - 1, acc * 2 + bit);
        AccStep(acc, bit, n);
        assert n <= |u| ==> BitsValue(u[..n]) == bit * Pow2(n - 1) + BitsValue(u[1..][..n - 1])
                            && u[1..][n - 1..] == u[n..] by {
          if n <= |u| {
            assert u[..n] == [bit] + u[1..][..n - 1];
            BitsValueCons(bit, u[1..][..n - 1]);
          }
        }
        res
  }

  lemma AccStep(acc: nat, bit: Bit, n: nat)
    requires n >= 1
    ensures (acc * 2 + bit) * Pow2(n - 1) == acc * Pow2(n) + bit * Pow2(n - 1)
  {
    assert Pow2(n) == 2 * Pow2(n - 1);
  }

  /** `read_bits(n)`: the big-endian value of the next `n` bits, or -1 if the source ends first. */
  function ReadBits(r: Reader, n: nat): (res: (Reader, int))
    requires r.Valid()
    ensures res.0.Valid()
    ensures n <= |Unread(r)| ==> res.1 == BitsValue(Unread(r)[..n]) && Unread(res.0) == Unread(r)[n..]
    ensures n > |Unread(r)| ==> res.1 == -1 && Unread(res.0) == []
  {
    ReadBitsFrom(r, n, 0)
  }

  /** `read_bit_string(n)`: up to `n` bits as '0'/'1' characters, fewer only at end of source. */
  function ReadBitString(r: Reader, n: nat): (res: (Reader, string))
    requires r.Valid()
    ensures res.0.Valid()
    ensures |res.1| == Min(n, |Unread(r)|)
    ensures forall i :: 0 <= i < |res.1| ==> res.1[i] == BitChar(Unread(r)[i])
    ensures Unread(res.0) == Unread(r)[|res.1|..]
    decreases n
  {
    if n == 0 then (r, "")
    else
      var (r1, bit) := ReadBit(r);
      if bit == -1 then (r1, "")
      else
        var (r2, rest) := ReadBitString(r1, n - 1);
        assert Unread(r)[1..][|rest|..] == Unread(r)[|rest| + 1..];
        (r2, [BitChar(bit)] + rest)
  }

  /** Writing `v` in `n` bits, flushing, and reading `n` bits back gives `v`. */
  lemma WriteIntReadBits(v: nat, n: nat)
    requires v < Pow2(n)
    ensures WriteInt(NewWriter, v, n).Ok?
    ensures var w := Flush(WriteInt(NewWriter, v, n).value).0;
            ReadBits(NewReader(w.out, 0), n).1 == v
  {
    var w1 := WriteInt(NewWriter, v, n).value;
    var w := Flush(w1).0;
    assert Written(NewWriter) == [];
    var u := Unread(NewReader(w.out, 0));
    assert w.out[0..] == w.out;
    assert u[..n] == LowBits(v, n);
  }
}
