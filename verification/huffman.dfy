/**
  The Huffman codec (`HuffmanCompressor.compress` / `decompress`) as pure
  functions from file contents to file contents.

  File layout: "HUFFMAN", a version byte 0, the original size (4 bytes,
  big-endian), the size of the pickled frequency table (4 bytes), the
  pickled table, then the codes of the data followed by the code of the end
  marker 256, packed MSB-first and zero-padded to a whole byte.

  `pickle.dumps` / `pickle.loads` are parameters: `pickle` turns a table
  into bytes, `unpickle` turns bytes back into a table or fails.
 */
module Huffman {
  import opened Outcomes
  import opened Bytes
  import opened BitIO
  import opened HuffmanModels
  import opened HuffmanTree
  import opened HuffmanCodes

  /** The magic number "HUFFMAN". */
  const Magic: seq<byte> := [0x48, 0x55, 0x46, 0x46, 0x4D, 0x41, 0x4E]

  /** The format version written after the magic number. */
  const Version: byte := 0

  /** The four zero bytes of `(0).to_bytes(4, 'big')`. */
  const ZeroField: seq<byte> := Digits(0, 4)

  // ---------------------------------------------------------------------------
  // Encoding
  // ---------------------------------------------------------------------------

  /** Every byte of `data` has a code. */
  predicate Covers(codes: map<Symbol, string>, data: seq<byte>) {
    forall i :: 0 <= i < |data| ==> data[i] in codes
  }

  /** The codes of the bytes of `data`, in order, as one string. */
  function EncodeSymbols(codes: map<Symbol, string>, data: seq<byte>): string
    requires Covers(codes, data)
    decreases |data|
  {
    if |data| == 0 then "" else codes[data[0]] + EncodeSymbols(codes, data[1..])
  }

  /** The loop `for byte in data: bit_writer.write_bits(self.codes[byte])`. */
  function WriteCodes(w: Writer, codes: map<Symbol, string>, data: seq<byte>): (r: Writer)
    requires w.Valid() && Covers(codes, data)
    ensures r.Valid()
    ensures Written(r) == Written(w) + CharsToBits(EncodeSymbols(codes, data))
    decreases |data|
  {
    if |data| == 0 then w
    else
      var r := WriteCodes(WriteBits(w, codes[data[0]]), codes, data[1..]);
      CharsToBitsAppend(codes[data[0]], EncodeSymbols(codes, data[1..]));
      r
  }

  /**
    The bit stream written for `data` under `codes`: the data's codes, the
    end marker's code, then the zero padding of `flush`.
   */
  function EncodeBody(codes: map<Symbol, string>, data: seq<byte>): (body: seq<byte>)
    requires Covers(codes, data) && EndMarker in codes
    ensures exists pad :: (0 <= pad < 8 &&
      BitsOf(body) == CharsToBits(EncodeSymbols(codes, data) + codes[EndMarker]) + Zeros(pad))
  {
    var w := WriteBits(WriteCodes(NewWriter, codes, data), codes[EndMarker]);
    CharsToBitsAppend(EncodeSymbols(codes, data), codes[EndMarker]);
    var (done, pad) := Flush(w);
    done.out
  }

  /** The frequency table of non-empty data yields a tree with at least two leaves that codes every byte and the end marker. */
  lemma TableCodesData(data: seq<byte>)
    requires |data| > 0
    ensures var table := BuildFrequencyTable(data);
      var root := BuildHuffmanTree(table);
      root.Some? && root.value.Internal? && Distinct(root.value) &&
      Covers(BuildCodes(root).codes, data) && EndMarker in BuildCodes(root).codes
  {
    var table := BuildFrequencyTable(data);
    var root := BuildHuffmanTree(table);
    KeysOfDistinct(table);
    forall i | 0 <= i < |data|
      ensures data[i] in BuildCodes(root).codes
    {
      assert Occurrences(data, data[i]) > 0 by {
        OccursAt(data, i);
      }
    }
  }

  /** A byte found at position `i` occurs in `data`. */
  lemma {:induction false} OccursAt(data: seq<byte>, i: nat)
    requires i < |data|
    ensures Occurrences(data, data[i]) > 0
    decreases |data|
  {
    if i < |data| - 1 {
      OccursAt(data[..|data| - 1], i);
    }
  }

  /**
    `compress`: empty data gives the bare header with size 0 and table
    size 0. Otherwise the header, the pickled frequency table and the coded
    body. A size or table length beyond 4 bytes raises OverflowError.
   */
  function Compress(data: seq<byte>, pickle: FreqTable -> seq<byte>): (r: Result<seq<byte>>)
    ensures |data| == 0 ==> r == Ok(Magic + [Version] + ZeroField + ZeroField)
    ensures |data| > 0 ==> (r.Ok? <==> |data| < Pow256(4) && |pickle(BuildFrequencyTable(data))| < Pow256(4))
    ensures r.Err? ==> r.error == Overflow
    ensures r.Ok? ==> |r.value| >= 16 && r.value[..7] == Magic && r.value[7] == Version
    ensures r.Ok? ==> FromBigEndian(r.value[8..12]) == |data|
  {
    if |data| == 0 then
      DigitsRoundTrip(0, 4);
      assert Frame(ZeroField, ZeroField, [], []) == Magic + [Version] + ZeroField + ZeroField;
      Ok(Frame(ZeroField, ZeroField, [], []))
    else
      var table := BuildFrequencyTable(data);
      var root := BuildHuffmanTree(table);
      var codes := BuildCodes(root).codes;
      TableCodesData(data);
      var size :- ToBigEndian(|data|, 4);
      var blob := pickle(table);
      var blobSize :- ToBigEndian(|blob|, 4);
      Ok(Frame(size, blobSize, blob, EncodeBody(codes, data)))
  }

  /** The file layout: magic, version, size, table size, table, body. */
  function Frame(size: seq<byte>, blobSize: seq<byte>, blob: seq<byte>, body: seq<byte>): (f: seq<byte>)
    requires |size| == 4 && |blobSize| == 4
    ensures |f| == 16 + |blob| + |body|
    ensures f[..7] == Magic && f[7] == Version && f[8..12] == size && f[12..16] == blobSize
    ensures f[16..16 + |blob|] == blob && f[16 + |blob|..] == body
  {
    Magic + [Version] + size + blobSize + blob + body
  }

  // ---------------------------------------------------------------------------
  // Decoding
  // ---------------------------------------------------------------------------

  /**
    One step of the walk: bit 0 goes to `left`, any other bit to `right`.
    A leaf's children are None.
   */
  function Child(n: Node, bit: int): Option<Node> {
    match n
    case Leaf(_, _) => None
    case Internal(_, l, r) => if bit == 0 then Some(l) else Some(r)
  }

  /** The output has reached the size limit, if there is one. */
  predicate Full(out: seq<byte>, limit: Option<nat>) {
    limit.Some? && |out| >= limit.value
  }

  /**
    The decode loop over the bits still to be read. `cur` is the current
    node (None after stepping below a leaf, or for a missing tree); `limit`
    is the declared size, or None for a loop bounded only by the bits. The
    loop stops when the output is full, when the bits run out, or at the end
    marker; stepping from None raises AttributeError.
   */
  function DecodeBits(root: Option<Node>, bits: seq<Bit>, cur: Option<Node>, out: seq<byte>, limit: Option<nat>): (r: Result<seq<byte>>)
    ensures r.Ok? ==> out <= r.value
    ensures r.Ok? && limit.Some? && |out| <= limit.value ==> |r.value| <= limit.value
    ensures r.Err? ==> r.error == MissingChild
    decreases |bits|
  {
    if Full(out, limit) || |bits| == 0 then Ok(out)
    else if cur.None? then Err(MissingChild)
    else
      var next := Child(cur.value, bits[0]);
      if next.Some? && next.value.Leaf? then
        if next.value.symbol == EndMarker then Ok(out)
        else DecodeBits(root, bits[1..], root, out + [next.value.symbol as byte], limit)
      else DecodeBits(root, bits[1..], next, out, limit)
  }

  /**
    The same loop driven by a `BitReader`: it decodes exactly what
    `DecodeBits` decodes from the reader's unread bits.
   */
  function DecodeLoop(root: Option<Node>, r: Reader, cur: Option<Node>, out: seq<byte>, limit: Option<nat>): (res: Result<seq<byte>>)
    requires r.Valid()
    ensures res == DecodeBits(root, Unread(r), cur, out, limit)
    decreases |Unread(r)|
  {
    if Full(out, limit) then Ok(out)
    else
      var (next, bit) := ReadBit(r);
      if bit == -1 then Ok(out)
      else if cur.None? then Err(MissingChild)
      else
        var child := Child(cur.value, bit);
        if child.Some? && child.value.Leaf? then
          if child.value.symbol == EndMarker then Ok(out)
          else DecodeLoop(root, next, root, out + [child.value.symbol as byte], limit)
        else DecodeLoop(root, next, child, out, limit)
  }

  /**
    Reading the bits of one code from inside the tree ends at its leaf:
    the end marker stops the loop, any other symbol is appended and the walk
    restarts at the root.
   */
  lemma {:induction false} DecodeCode(root: Option<Node>, cur: Node, c: string, rest: seq<Bit>,
                                      out: seq<byte>, limit: Option<nat>, s: Symbol)
    requires ReachesLeaf(cur, c, s) && |c| >= 1 && !Full(out, limit)
    ensures DecodeBits(root, CharsToBits(c) + rest, Some(cur), out, limit) ==
            if s == EndMarker then Ok(out) else DecodeBits(root, rest, root, out + [s as byte], limit)
    decreases |c|
  {
    var bits := CharsToBits(c) + rest;
    assert bits[0] == CharBit(c[0]);
    assert bits[1..] == CharsToBits(c[1..]) + rest by {
      assert c == [c[0]] + c[1..];
      CharsToBitsAppend([c[0]], c[1..]);
    }
    assert cur.Internal? && (c[0] == '0' || c[0] == '1');
    var next := if c[0] == '0' then cur.left else cur.right;
    assert Walk(next, c[1..]) == Walk(cur, c);
    assert Child(cur, bits[0]) == Some(next);
    if |c| > 1 {
      assert next.Internal?;
      DecodeCode(root, next, c[1..], rest, out, limit, s);
    } else {
      assert c[1..] == [];
      assert next.Leaf? && next.symbol == s;
      assert bits[1..] == rest;
    }
  }

  /**
    Decoding the codes of `data` followed by the end marker's code and any
    padding appends exactly `data`, as long as the size limit leaves room
    for it.
   */
  lemma {:induction false} DecodeAll(root: Node, codes: map<Symbol, string>, data: seq<byte>, pad: nat,
                                     out: seq<byte>, limit: Option<nat>)
    requires root.Internal?
    requires forall s :: s in codes ==> ReachesLeaf(root, codes[s], s)
    requires Covers(codes, data) && EndMarker in codes
    requires limit.Some? ==> |out| + |data| <= limit.value
    ensures DecodeBits(Some(root), CharsToBits(EncodeSymbols(codes, data) + codes[EndMarker]) + Zeros(pad),
                       Some(root), out, limit) == Ok(out + data)
    decreases |data|
  {
    var eof := codes[EndMarker];
    assert |eof| >= 1;
    if |data| == 0 {
      assert EncodeSymbols(codes, data) + eof == eof;
      if !Full(out, limit) {
        DecodeCode(Some(root), root, eof, Zeros(pad), out, limit, EndMarker);
      }
      assert out + data == out;
    } else {
      var b := data[0];
      var c := codes[b];
      var tail := EncodeSymbols(codes, data[1..]) + eof;
      assert |c| >= 1;
      assert EncodeSymbols(codes, data) + eof == c + tail;
      CharsToBitsAppend(c, tail);
      assert CharsToBits(c + tail) + Zeros(pad) == CharsToBits(c) + (CharsToBits(tail) + Zeros(pad));
      DecodeCode(Some(root), root, c, CharsToBits(tail) + Zeros(pad), out, limit, b);
      assert Covers(codes, data[1..]);
      DecodeAll(root, codes, data[1..], pad, out + [b], limit);
      assert out + [b] + data[1..] == out + data;
    }
  }

  /**
    `decompress`: a wrong magic number, or a size, table-size or table field
    shorter than declared, is rejected; a declared size of 0 gives empty
    output without looking further; an unreadable table is rejected.
    Otherwise the body is decoded against the tree rebuilt from the table,
    and never yields more than the declared size.
   */
  function Decompress(file: seq<byte>, unpickle: seq<byte> -> Option<FreqTable>): (r: Result<seq<byte>>)
    ensures (|file| < 7 || file[..7] != Magic) <==> r == Err(BadMagic)
    ensures |file| >= 7 && file[..7] == Magic && |file| < 12 ==> r == Err(Truncated)
    ensures |file| >= 12 && file[..7] == Magic && FromBigEndian(file[8..12]) == 0 ==> r == Ok([])
    ensures (|file| >= 12 && file[..7] == Magic && FromBigEndian(file[8..12]) != 0 &&
             (|file| < 16 || |file| - 16 < FromBigEndian(file[12..16]))) ==>
      r == Err(Truncated)
    ensures (|file| >= 16 && file[..7] == Magic && FromBigEndian(file[8..12]) != 0 &&
             16 + FromBigEndian(file[12..16]) <= |file| &&
             unpickle(file[16..16 + FromBigEndian(file[12..16])]) == None) ==>
      r == Err(BadTable)
    ensures r.Ok? ==> |file| >= 12 && |r.value| <= FromBigEndian(file[8..12])
  {
    var (magic, p1) := Read(file, 0, 7);
    if magic != Magic then Err(BadMagic)
    else
      var (_, p2) := Read(file, p1, 1);
      var (sizeField, p3) := Read(file, p2, 4);
      if |sizeField| != 4 then Err(Truncated)
      else
        var size := FromBigEndian(sizeField);
        if size == 0 then Ok([])
        else
          var (tableSizeField, p4) := Read(file, p3, 4);
          if |tableSizeField| != 4 then Err(Truncated)
          else
            var tableSize := FromBigEndian(tableSizeField);
            var (blob, p5) := Read(file, p4, tableSize);
            if |blob| != tableSize then Err(Truncated)
            else match unpickle(blob)
              case None => Err(BadTable)
              case Some(table) =>
                var root := BuildHuffmanTree(table);
                DecodeLoop(root, NewReader(file, p5), root, [], Some(size))
  }

  /**
    Decompressing a well-formed file whose table unpickles decodes its body
    against the tree of that table, limited by the stored size.
   */
  lemma DecompressFrame(n: nat, blob: seq<byte>, body: seq<byte>, table: FreqTable,
                        unpickle: seq<byte> -> Option<FreqTable>)
    requires 0 < n < Pow256(4) && |blob| < Pow256(4)
    requires unpickle(blob) == Some(table)
    ensures var file := Frame(ToBigEndian(n, 4).value, ToBigEndian(|blob|, 4).value, blob, body);
      var root := BuildHuffmanTree(table);
      Decompress(file, unpickle) == DecodeBits(root, BitsOf(body), root, [], Some(n))
  {
    var file := Frame(ToBigEndian(n, 4).value, ToBigEndian(|blob|, 4).value, blob, body);
    assert Read(file, 0, 7).0 == file[..7];
    assert Read(file, 8, 4).0 == file[8..12];
    assert Read(file, 12, 4).0 == file[12..16];
    assert Read(file, 16, |blob|).0 == blob;
  }

  /** What `Compress` writes for non-empty data, field by field. */
  lemma CompressShape(data: seq<byte>, pickle: FreqTable -> seq<byte>)
    requires |data| > 0 && Compress(data, pickle).Ok?
    ensures var table := BuildFrequencyTable(data);
      var codes := BuildCodes(BuildHuffmanTree(table)).codes;
      var blob := pickle(table);
      Covers(codes, data) && EndMarker in codes &&
      Compress(data, pickle).value ==
        Frame(ToBigEndian(|data|, 4).value, ToBigEndian(|blob|, 4).value, blob, EncodeBody(codes, data))
  {
    TableCodesData(data);
  }

  /**
    Decompressing what `compress` wrote gives back the data, provided the
    frequency table survives pickling.
   */
  lemma RoundTrip(data: seq<byte>, pickle: FreqTable -> seq<byte>, unpickle: seq<byte> -> Option<FreqTable>)
    requires Compress(data, pickle).Ok?
    requires |data| > 0 ==> unpickle(pickle(BuildFrequencyTable(data))) == Some(BuildFrequencyTable(data))
    ensures Decompress(Compress(data, pickle).value, unpickle) == Ok(data)
  {
    if |data| > 0 {
      NonEmptyRoundTrip(data, pickle, unpickle);
    }
  }

  lemma NonEmptyRoundTrip(data: seq<byte>, pickle: FreqTable -> seq<byte>, unpickle: seq<byte> -> Option<FreqTable>)
    requires |data| > 0 && Compress(data, pickle).Ok?
    requires unpickle(pickle(BuildFrequencyTable(data))) == Some(BuildFrequencyTable(data))
    ensures Decompress(Compress(data, pickle).value, unpickle) == Ok(data)
  {
    var table := BuildFrequencyTable(data);
    var root := BuildHuffmanTree(table);
    var codes := BuildCodes(root).codes;
    TableCodesData(data);
    var blob := pickle(table);
    assert |blob| < Pow256(4);
    var body := EncodeBody(codes, data);
    CompressShape(data, pickle);
    DecompressFrame(|data|, blob, body, table, unpickle);
    assert Decompress(Compress(data, pickle).value, unpickle) == DecodeBits(root, BitsOf(body), root, [], Some(|data|));
    var pad :| 0 <= pad < 8 &&
      BitsOf(body) == CharsToBits(EncodeSymbols(codes, data) + codes[EndMarker]) + Zeros(pad);
    DecodeAll(root.value, codes, data, pad, [], Some(|data|));
    assert [] + data == data;
  }
}
