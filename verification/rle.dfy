/**
  Run-length coding (`RLECompressor`): the data is cut into runs of equal
  bytes no longer than `max_run_length`, each run written as a (count, value)
  byte pair.

  File layout: "RLE\0", `max_run_length` (1 byte), the original size
  (4 bytes), then two bytes per pair. Empty input is written as "RLE\0", a
  zero run limit and a zero size.
 */
module Rle {
  import opened Outcomes
  import opened Bytes

  /** `RLEPair`: `count` copies of the byte `value`. */
  datatype Pair = Pair(count: nat, value: byte)

  /** The magic number "RLE\0". */
  const Magic: seq<byte> := [0x52, 0x4C, 0x45, 0x00]

  /** The run limit the compressor is constructed with by default. */
  const DefaultMaxRun: int := 255

  // ---------------------------------------------------------------------------
  // Runs
  // ---------------------------------------------------------------------------

  /** `n` copies of `b`. */
  function Repeat(b: byte, n: nat): (r: seq<byte>)
    ensures |r| == n
    ensures forall k :: 0 <= k < n ==> r[k] == b
  {
    if n == 0 then [] else [b] + Repeat(b, n - 1)
  }

  /** `_decode_rle` before truncation: each pair's value repeated `count` times, in order. */
  function Expand(pairs: seq<Pair>): (r: seq<byte>)
  {
    if |pairs| == 0 then [] else Repeat(pairs[0].value, pairs[0].count) + Expand(pairs[1..])
  }

  /** The longest run the encoder takes for a limit of `maxRun`: a limit below 1 still takes one byte. */
  function Cap(maxRun: int): nat {
    if maxRun < 1 then 1 else maxRun
  }

  /**
    The inner loop of `_encode_rle`: the run of `data[i]` that already spans
    `n` bytes grows while the next byte is equal and the run is shorter than
    `maxRun`.
   */
  function RunLength(data: seq<byte>, i: nat, n: nat, maxRun: int): (r: nat)
    requires i + n <= |data| && 1 <= n <= Cap(maxRun)
    requires forall k :: i <= k < i + n ==> data[k] == data[i]
    ensures n <= r <= Cap(maxRun) && i + r <= |data|
    ensures forall k :: i <= k < i + r ==> data[k] == data[i]
    ensures i + r < |data| && data[i + r] == data[i] ==> r == Cap(maxRun)
    decreases |data| - i - n
  {
    if i + n < |data| && data[i + n] == data[i] && n < maxRun then RunLength(data, i, n + 1, maxRun)
    else n
  }

  /**
    The pairs a run-length coding must consist of: every count in
    `1..Cap(maxRun)`, and a pair followed by one with the same value is a
    full run.
   */
  predicate Canonical(pairs: seq<Pair>, maxRun: int) {
    (forall k :: 0 <= k < |pairs| ==> 1 <= pairs[k].count <= Cap(maxRun)) &&
    (forall k :: 0 <= k < |pairs| - 1 && pairs[k].value == pairs[k + 1].value ==> pairs[k].count == Cap(maxRun))
  }

  /**
    The outer loop of `_encode_rle` from position `i`: one pair per run,
    the cursor moving past it.
   */
  function EncodeFrom(data: seq<byte>, i: nat, maxRun: int): (r: seq<Pair>)
    requires i <= |data|
    ensures Expand(r) == data[i..]
    ensures Canonical(r, maxRun)
    ensures |r| <= |data| - i
    ensures |r| > 0 ==> r[0].value == data[i]
    decreases |data| - i
  {
    if i == |data| then []
    else
      var n := RunLength(data, i, 1, maxRun);
      var rest := EncodeFrom(data, i + n, maxRun);
      assert data[i..] == Repeat(data[i], n) + data[i + n..];
      var r := [Pair(n, data[i])] + rest;
      assert r[1..] == rest;
      r
  }

  /**
    `_encode_rle`: empty data gives no pairs; otherwise the pairs expand to
    the data, every count lies in `1..Cap(maxRun)`, equal neighbours only
    follow a full run, and there are no more pairs than bytes.
   */
  function Encode(data: seq<byte>, maxRun: int): (r: seq<Pair>)
    ensures |data| == 0 ==> r == []
    ensures Expand(r) == data
    ensures Canonical(r, maxRun)
    ensures |r| <= |data|
  {
    EncodeFrom(data, 0, maxRun)
  }

  /** Pairs with positive counts expand to nothing only when there are none. */
  lemma ExpandEmpty(pairs: seq<Pair>)
    requires forall k :: 0 <= k < |pairs| ==> pairs[k].count >= 1
    ensures |Expand(pairs)| == 0 <==> |pairs| == 0
  {
    if |pairs| > 0 {
      assert |Expand(pairs)| >= pairs[0].count;
    }
  }

  /** The pairs after the first expand to what follows the first run. */
  lemma ExpandFirst(pairs: seq<Pair>)
    requires |pairs| >= 2 && pairs[1].count >= 1
    ensures |Expand(pairs)| > pairs[0].count
    ensures Expand(pairs)[pairs[0].count] == pairs[1].value
  {
    assert Expand(pairs[1..]) == Repeat(pairs[1].value, pairs[1].count) + Expand(pairs[2..]);
  }

  /**
    A byte string has one canonical coding: two canonical pair sequences
    for the same limit that expand to the same bytes are equal.
   */
  lemma {:induction false} CanonicalUnique(p: seq<Pair>, q: seq<Pair>, maxRun: int)
    requires Canonical(p, maxRun) && Canonical(q, maxRun) && Expand(p) == Expand(q)
    ensures p == q
    decreases |p|
  {
    ExpandEmpty(p);
    ExpandEmpty(q);
    if |p| > 0 {
      var d := Expand(p);
      var a, b := p[0].count, q[0].count;
      assert d == Repeat(p[0].value, a) + Expand(p[1..]);
      assert d == Repeat(q[0].value, b) + Expand(q[1..]);
      assert p[0].value == d[0] == q[0].value;
      ExpandEmpty(p[1..]);
      ExpandEmpty(q[1..]);
      if a < b {
        ExpandFirst(p);
        assert false;
      } else if b < a {
        ExpandFirst(q);
        assert false;
      }
      assert Expand(p[1..]) == d[a..] == Expand(q[1..]);
      CanonicalUnique(p[1..], q[1..], maxRun);
      assert p == [p[0]] + p[1..] && q == [q[0]] + q[1..];
    }
  }

  /** The encoder's pairs are the only canonical coding of the data. */
  lemma EncodeIsTheCanonicalCoding(data: seq<byte>, pairs: seq<Pair>, maxRun: int)
    requires Canonical(pairs, maxRun) && Expand(pairs) == data
    ensures pairs == Encode(data, maxRun)
  {
    CanonicalUnique(pairs, Encode(data, maxRun), maxRun);
  }

  /** `_decode_rle`: the expansion cut to `size` bytes. */
  function Decode(pairs: seq<Pair>, size: nat): (r: seq<byte>)
    ensures |r| == Min(size, |Expand(pairs)|)
    ensures r <= Expand(pairs)
  {
    Slice(Expand(pairs), 0, size)
  }

  /** Decoding the encoding with the data's length gives back the data. */
  lemma DecodeEncode(data: seq<byte>, maxRun: int)
    ensures Decode(Encode(data, maxRun), |data|) == data
  {
    assert Slice(data, 0, |data|) == data;
  }

  // ---------------------------------------------------------------------------
  // File format
  // ---------------------------------------------------------------------------

  /** The pairs of `_write_compressed_data`: count then value, one byte each. */
  function PairBytes(pairs: seq<Pair>): (r: seq<byte>)
    requires forall k :: 0 <= k < |pairs| ==> pairs[k].count < 256
    ensures |r| == 2 * |pairs|
    ensures forall k :: 0 <= k < |pairs| ==> r[2 * k] == pairs[k].count && r[2 * k + 1] == pairs[k].value
  {
    if |pairs| == 0 then []
    else
      var rest := PairBytes(pairs[1..]);
      var r := [pairs[0].count as byte, pairs[0].value] + rest;
      assert forall k :: 1 <= k < |pairs| ==> r[2 * k] == rest[2 * (k - 1)] && r[2 * k + 1] == rest[2 * (k - 1) + 1];
      r
  }

  /** The pair loop of `decompress`: two bytes per pair, a trailing odd byte ignored. */
  function ParsePairs(bytes: seq<byte>): (r: seq<Pair>)
    ensures |r| == |bytes| / 2
    ensures forall k :: 0 <= k < |r| ==> r[k] == Pair(bytes[2 * k], bytes[2 * k + 1])
    decreases |bytes|
  {
    if |bytes| < 2 then []
    else
      var rest := ParsePairs(bytes[2..]);
      var r := [Pair(bytes[0], bytes[1])] + rest;
      assert forall k :: 1 <= k < |r| ==> r[k] == rest[k - 1];
      r
  }

  /** Parsing the written pairs gives them back. */
  lemma ParsePairBytes(pairs: seq<Pair>)
    requires forall k :: 0 <= k < |pairs| ==> pairs[k].count < 256
    ensures ParsePairs(PairBytes(pairs)) == pairs
  {
    var r := ParsePairs(PairBytes(pairs));
    assert |r| == |pairs|;
    forall k | 0 <= k < |pairs|
      ensures r[k] == pairs[k]
    {
    }
  }

  /**
    `compress` on the file's contents. Empty data gives the empty marker.
    Otherwise the header holds the run limit and the size, which must fit
    1 and 4 bytes (else OverflowError), followed by the pairs.
   */
  function Compress(data: seq<byte>, maxRun: int): (r: Result<seq<byte>>)
    ensures |data| == 0 ==> r == Ok(Magic + [0] + [0, 0, 0, 0])
    ensures |data| > 0 ==> (r.Ok? <==> 0 <= maxRun < 256 && |data| < Pow256(4))
    ensures r.Err? ==> r.error == Overflow
    ensures r.Ok? && |data| > 0 ==>
      |r.value| == 9 + 2 * |Encode(data, maxRun)| && r.value[..4] == Magic && r.value[4] == maxRun &&
      FromBigEndian(r.value[5..9]) == |data|
  {
    if |data| == 0 then Ok(Magic + [0] + [0, 0, 0, 0])
    else
      if maxRun < 0 || maxRun >= 256 then Err(Overflow)
      else
        var size :- ToBigEndian(|data|, 4);
        var pairs := Encode(data, maxRun);
        var f := Magic + [maxRun as byte] + size + PairBytes(pairs);
        assert f[..4] == Magic && f[5..9] == size;
        Ok(f)
  }

  /**
    `decompress` on the file's contents: anything not starting with
    "RLE\0" is rejected; the run limit is read and ignored; a size of 0
    gives empty output; otherwise the pairs are read two bytes at a time
    and decoded to at most the size.
   */
  function Decompress(file: seq<byte>): (r: Result<seq<byte>>)
    ensures r.Err? <==> |file| < 4 || file[..4] != Magic
    ensures r.Err? ==> r.error == BadMagic
    ensures |file| >= 9 && file[..4] == Magic ==>
      r == Ok(Decode(ParsePairs(file[9..]), FromBigEndian(file[5..9])))
    ensures r.Ok? ==> |r.value| <= FromBigEndian(Read(file, Min(5, |file|), 4).0)
  {
    var (magic, p1) := Read(file, 0, 4);
    if magic != Magic then Err(BadMagic)
    else
      var (_, p2) := Read(file, p1, 1);
      var (sizeField, p3) := Read(file, p2, 4);
      var size := FromBigEndian(sizeField);
      if size == 0 then Ok([])
      else Ok(Decode(ParsePairs(file[p3..]), size))
  }

  /** Decompressing what `compress` wrote gives back the data. */
  lemma RoundTrip(data: seq<byte>, maxRun: int)
    requires Compress(data, maxRun).Ok?
    ensures Decompress(Compress(data, maxRun).value) == Ok(data)
  {
    if |data| > 0 {
      var pairs := Encode(data, maxRun);
      var f := Compress(data, maxRun).value;
      assert f[9..] == PairBytes(pairs);
      ParsePairBytes(pairs);
      DecodeEncode(data, maxRun);
    }
  }
}
