/**
  The combined pipeline (`CombinedCompressor`): LZ77 tokens, serialised
  4 bytes each, then Huffman-coded; with a policy that falls back to plain
  Huffman coding or to storing the data unchanged.

  File layouts:
  - two-stage: "COMBI", version 0, the original size (4 bytes), the LZ77
    window size (2 bytes) and lookahead size (1 byte), the length of the
    pickled frequency table (4 bytes), the table, then the Huffman body;
  - empty input: "COMBI", version 0 and four zero bytes;
  - stored: "NOCOMPR", the size (4 bytes), the data;
  - Huffman only: whatever the Huffman codec writes.

  The entropy of the data (floating-point `math.log2`) is an input of
  `Compress`; `pickle` and `unpickle` are parameters as in the Huffman
  codec.
 */
module Combined {
  import opened Outcomes
  import opened Bytes
  import opened BitIO
  import opened HuffmanModels
  import opened HuffmanTree
  import opened HuffmanCodes
  import Huffman
  import opened Lz77Models
  import Lz77

  /** The magic number "COMBI". */
  const Tag: seq<byte> := [0x43, 0x4F, 0x4D, 0x42, 0x49]

  /** The format version written after the magic number. */
  const Version: byte := 0

  /** The marker of stored data, "NOCOMPR". */
  const StoredTag: seq<byte> := [0x4E, 0x4F, 0x43, 0x4F, 0x4D, 0x50, 0x52]

  /** The file written for empty input: "COMBI", the version, a size of 0. */
  const EmptyFile: seq<byte> := Tag + [Version] + Digits(0, 4)

  /** Inputs shorter than this are never sent through the two stages. */
  const MinCombinedSize: nat := 1000

  /** Above this entropy (bits per byte) the two stages are not tried. */
  const MaxEntropy: real := 7.5

  /** Below this repetition ratio the two stages are not tried. */
  const MinRepetition: real := 0.01

  /** The share of the original size the serialised tokens must not exceed. */
  const TokenShare: real := 0.95

  /** The share of the original size a compressed file must stay under. */
  const EffectiveShare: real := 0.98

  // ---------------------------------------------------------------------------
  // Analysis and the gating predicates
  // ---------------------------------------------------------------------------

  /** The byte at position `i` repeats the one before it. */
  predicate RepeatsAt(data: seq<byte>, i: nat) {
    1 <= i < |data| && data[i] == data[i - 1]
  }

  /** The positions whose byte repeats the one before. */
  function RepeatIndices(data: seq<byte>): set<nat> {
    set i: nat | i < |data| && RepeatsAt(data, i)
  }

  /** The loop of `_calculate_repetition_ratio`: the number of bytes equal to their predecessor. */
  function Repeats(data: seq<byte>): nat
    decreases |data|
  {
    if |data| < 2 then 0
    else Repeats(data[..|data| - 1]) + (if data[|data| - 1] == data[|data| - 2] then 1 else 0)
  }

  /** The loop counts exactly the repeating positions, so at most `len(data) - 1` of them. */
  lemma {:induction false} RepeatsCounts(data: seq<byte>)
    ensures Repeats(data) == |RepeatIndices(data)|
    ensures |data| >= 1 ==> Repeats(data) <= |data| - 1
    decreases |data|
  {
    if |data| < 2 {
      assert RepeatIndices(data) == {};
    } else {
      var n := |data|;
      var front := data[..n - 1];
      RepeatsCounts(front);
      var last: set<nat> := if data[n - 1] == data[n - 2] then {n - 1} else {};
      assert RepeatIndices(data) == RepeatIndices(front) + last;
      assert n - 1 !in RepeatIndices(front);
    }
  }

  /**
    `_calculate_repetition_ratio`: 0 for fewer than two bytes, otherwise
    the share of positions that repeat their predecessor, which is always
    below 1.
   */
  function RepetitionRatio(data: seq<byte>): (r: real)
    ensures |data| < 2 ==> r == 0.0
    ensures |data| >= 2 ==> r * |data| as real == |RepeatIndices(data)| as real
    ensures 0.0 <= r < 1.0
  {
    if |data| < 2 then 0.0
    else
      RepeatsCounts(data);
      Repeats(data) as real / |data| as real
  }

  /** `_should_use_combined`: large enough, not too random, repetitive enough. */
  predicate ShouldUseCombined(size: nat, entropy: real, ratio: real) {
    !(size < MinCombinedSize) && !(entropy > MaxEntropy) && !(ratio < MinRepetition)
  }

  /** `_is_compression_effective`: at least 2% smaller. */
  predicate IsCompressionEffective(original: nat, compressed: nat) {
    (compressed as real) < (original as real) * EffectiveShare
  }

  /**
    The gate in whole numbers: 50 compressed bytes weigh less than 49
    original ones; an effective result is always strictly smaller.
   */
  lemma EffectiveInWholeNumbers(original: nat, compressed: nat)
    ensures IsCompressionEffective(original, compressed) <==> 50 * compressed < 49 * original
    ensures IsCompressionEffective(original, compressed) ==> compressed < original
  {
  }

  /** The LZ77 stage does not pay: 4 bytes per token exceed 95% of the size. */
  predicate TooManyTokens(count: nat, size: nat) {
    (4 * count) as real > (size as real) * TokenShare
  }

  // ---------------------------------------------------------------------------
  // Compression
  // ---------------------------------------------------------------------------

  /** `_store_original_data`: "NOCOMPR", the size in 4 bytes, the data; a size beyond 4 bytes raises OverflowError. */
  function StoreOriginal(data: seq<byte>): (r: Result<seq<byte>>)
    ensures r.Ok? <==> |data| < Pow256(4)
    ensures r.Err? ==> r.error == Overflow
    ensures r.Ok? ==> |r.value| == 11 + |data| && r.value[..7] == StoredTag &&
                      FromBigEndian(r.value[7..11]) == |data| && r.value[11..] == data
  {
    var size :- ToBigEndian(|data|, 4);
    var f := StoredTag + size + data;
    assert f[..7] == StoredTag && f[7..11] == size && f[11..] == data;
    Ok(f)
  }

  /** The final check: keep the compressed file if it is effective, otherwise store the data. */
  function Gate(data: seq<byte>, compressed: seq<byte>): (r: Result<seq<byte>>)
    ensures IsCompressionEffective(|data|, |compressed|) ==> r == Ok(compressed)
    ensures !IsCompressionEffective(|data|, |compressed|) ==> r == StoreOriginal(data)
  {
    if IsCompressionEffective(|data|, |compressed|) then Ok(compressed) else StoreOriginal(data)
  }

  /** The two-stage layout, field by field. */
  function Frame(size: seq<byte>, window: seq<byte>, lookahead: seq<byte>, blobSize: seq<byte>,
                 blob: seq<byte>, body: seq<byte>): (f: seq<byte>)
    requires |size| == 4 && |window| == 2 && |lookahead| == 1 && |blobSize| == 4
    ensures |f| == 17 + |blob| + |body|
    ensures f[..5] == Tag && f[5] == Version && f[6..10] == size && f[10..12] == window
    ensures f[12..13] == lookahead && f[13..17] == blobSize
    ensures f[17..17 + |blob|] == blob && f[17 + |blob|..] == body
  {
    Tag + [Version] + size + window + lookahead + blobSize + blob + body
  }

  /**
    The tokens `_lz77_compress_data` produces with the default window and
    lookahead: they always fit the 4-byte layout, so `_serialize_tokens`
    never fails on them, and non-empty data gives at least one.
   */
  function Tokens(data: seq<byte>): (tokens: seq<Token>)
    ensures Lz77.Fits(tokens)
    ensures |data| > 0 ==> |tokens| >= 1
  {
    Lz77.CompressTokens(Lz77.DefaultWindowSize, Lz77.DefaultLookaheadSize, data)
  }

  /** The LZ77 parameter fields: `window_size.to_bytes(2)` and `lookahead_size.to_bytes(1)`. */
  const WindowField: seq<byte> := Digits(Lz77.DefaultWindowSize, 2)
  const LookaheadField: seq<byte> := Digits(Lz77.DefaultLookaheadSize, 1)

  /**
    The second stage of `compress`: the frequency table of the serialised
    tokens pickled into the header, and their bytes coded with the tree of
    that table. A size or table length beyond 4 bytes raises OverflowError.
   */
  function TwoStage(serialized: seq<byte>, size: nat, pickle: FreqTable -> seq<byte>): (r: Result<seq<byte>>)
    requires |serialized| > 0
    ensures r.Err? ==> r.error == Overflow
    ensures r.Ok? <==> size < Pow256(4) && |pickle(BuildFrequencyTable(serialized))| < Pow256(4)
    ensures r.Ok? ==> |r.value| >= 17 && r.value[..5] == Tag && r.value[5] == Version &&
                      FromBigEndian(r.value[6..10]) == size &&
                      FromBigEndian(r.value[10..12]) == Lz77.DefaultWindowSize &&
                      FromBigEndian(r.value[12..13]) == Lz77.DefaultLookaheadSize
  {
    var table := BuildFrequencyTable(serialized);
    var codes := BuildCodes(BuildHuffmanTree(table)).codes;
    Huffman.TableCodesData(serialized);
    var sizeField :- ToBigEndian(size, 4);
    DigitsRoundTrip(Lz77.DefaultWindowSize, 2);
    DigitsRoundTrip(Lz77.DefaultLookaheadSize, 1);
    var blob := pickle(table);
    var blobSize :- ToBigEndian(|blob|, 4);
    Ok(Frame(sizeField, WindowField, LookaheadField, blobSize, blob, Huffman.EncodeBody(codes, serialized)))
  }

  /** `f` is the stored form of `data`: "NOCOMPR", the size, the data itself. */
  predicate IsStored(f: seq<byte>, data: seq<byte>) {
    |f| == 11 + |data| && f[..7] == StoredTag && FromBigEndian(f[7..11]) == |data| && f[11..] == data
  }

  /** `f` starts like a Huffman file. */
  predicate IsHuffman(f: seq<byte>) {
    |f| >= 7 && f[..7] == Huffman.Magic
  }

  /** `f` starts like a two-stage file. */
  predicate IsTwoStage(f: seq<byte>) {
    |f| >= 5 && f[..5] == Tag
  }

  /** The three forms are told apart by their first byte. */
  lemma FormsDiffer(f: seq<byte>, data: seq<byte>)
    ensures !(IsStored(f, data) && IsHuffman(f)) && !(IsStored(f, data) && IsTwoStage(f))
    ensures !(IsHuffman(f) && IsTwoStage(f))
  {
    if |f| >= 5 {
      assert f[..5][0] == f[0];
    }
    if |f| >= 7 {
      assert f[..7][0] == f[0];
    }
  }

  /** After the gate the result is either the stored form or the effective compressed file. */
  lemma GateForms(data: seq<byte>, compressed: seq<byte>)
    ensures var r := Gate(data, compressed);
      r.Ok? ==> (IsStored(r.value, data) && !IsHuffman(r.value) && !IsTwoStage(r.value)) ||
                (r.value == compressed && IsCompressionEffective(|data|, |compressed|))
  {
    var r := Gate(data, compressed);
    if r.Ok? {
      FormsDiffer(r.value, data);
    }
  }

  /**
    `compress` on the file's contents, given the data's entropy. Empty data
    gives the empty marker. Otherwise the result is the stored form, a
    Huffman file, or a two-stage file; a two-stage file is written only when
    the policy allows it, the tokens are few enough and the result is
    effective, and a Huffman file that is not effective only on the route
    that skips the gate (too many tokens).
   */
  function Compress(data: seq<byte>, entropy: real, pickle: FreqTable -> seq<byte>): (r: Result<seq<byte>>)
    ensures |data| == 0 ==> r == Ok(EmptyFile)
    ensures r.Err? ==> r.error == Overflow
    ensures r.Ok? && |data| > 0 ==> IsStored(r.value, data) || IsHuffman(r.value) || IsTwoStage(r.value)
    ensures r.Ok? && |data| > 0 && IsTwoStage(r.value) ==>
      |data| >= MinCombinedSize && ShouldUseCombined(|data|, entropy, RepetitionRatio(data)) &&
      !TooManyTokens(|Tokens(data)|, |data|) && IsCompressionEffective(|data|, |r.value|)
    ensures r.Ok? && |data| > 0 && IsHuffman(r.value) && !IsCompressionEffective(|data|, |r.value|) ==>
      ShouldUseCombined(|data|, entropy, RepetitionRatio(data)) && TooManyTokens(|Tokens(data)|, |data|)
    ensures r.Ok? && |data| > 0 && IsHuffman(r.value) ==> r == Huffman.Compress(data, pickle)
    ensures r.Ok? && |data| > 0 && IsTwoStage(r.value) ==>
      |Tokens(data)| >= 1 && Lz77.SerializeTokens(Tokens(data)).Ok? &&
      r == TwoStage(Lz77.SerializeTokens(Tokens(data)).value, |data|, pickle)
    ensures |data| > 0 && !ShouldUseCombined(|data|, entropy, RepetitionRatio(data)) ==>
      r == HuffmanRoute(data, pickle)
    ensures (|data| > 0 && ShouldUseCombined(|data|, entropy, RepetitionRatio(data)) &&
             TooManyTokens(|Tokens(data)|, |data|)) ==>
      r == Huffman.Compress(data, pickle)
    ensures (|data| > 0 && ShouldUseCombined(|data|, entropy, RepetitionRatio(data)) &&
             !TooManyTokens(|Tokens(data)|, |data|)) ==>
      r == TwoStageRoute(data, pickle)
  {
    if |data| == 0 then Ok(EmptyFile)
    else if !ShouldUseCombined(|data|, entropy, RepetitionRatio(data)) then HuffmanRoute(data, pickle)
    else if TooManyTokens(|Tokens(data)|, |data|) then
      var h := Huffman.Compress(data, pickle);
      if h.Ok? then
        FormsDiffer(h.value, data);
        h
      else h
    else TwoStageRoute(data, pickle)
  }

  /**
    The route for data the policy turns away: Huffman coding, then the gate,
    which keeps an effective Huffman file and stores anything else.
   */
  function HuffmanRoute(data: seq<byte>, pickle: FreqTable -> seq<byte>): (r: Result<seq<byte>>)
    requires |data| > 0
    ensures r.Err? ==> r.error == Overflow
    ensures var h := Huffman.Compress(data, pickle);
      (h.Err? ==> r == h) &&
      (h.Ok? && IsCompressionEffective(|data|, |h.value|) ==> r == h) &&
      (h.Ok? && !IsCompressionEffective(|data|, |h.value|) ==> r == StoreOriginal(data))
    ensures r.Ok? ==>
      (IsStored(r.value, data) && !IsHuffman(r.value) && !IsTwoStage(r.value)) ||
      (IsHuffman(r.value) && !IsTwoStage(r.value) && r == Huffman.Compress(data, pickle) &&
       IsCompressionEffective(|data|, |r.value|))
  {
    var h :- Huffman.Compress(data, pickle);
    GateForms(data, h);
    FormsDiffer(h, data);
    Gate(data, h)
  }

  /**
    The two-stage route: LZ77 tokens, serialised and Huffman coded, then the
    gate, which keeps an effective two-stage file and stores anything else.
   */
  function TwoStageRoute(data: seq<byte>, pickle: FreqTable -> seq<byte>): (r: Result<seq<byte>>)
    requires |data| > 0
    ensures r.Err? ==> r.error == Overflow
    ensures var f := TwoStage(Lz77.SerializeTokens(Tokens(data)).value, |data|, pickle);
      (f.Err? ==> r == f) &&
      (f.Ok? && IsCompressionEffective(|data|, |f.value|) ==> r == f) &&
      (f.Ok? && !IsCompressionEffective(|data|, |f.value|) ==> r == StoreOriginal(data))
    ensures r.Ok? ==>
      (IsStored(r.value, data) && !IsHuffman(r.value) && !IsTwoStage(r.value)) ||
      (IsTwoStage(r.value) && !IsHuffman(r.value) && IsCompressionEffective(|data|, |r.value|) &&
       |Tokens(data)| >= 1 && Lz77.SerializeTokens(Tokens(data)).Ok? &&
       r == TwoStage(Lz77.SerializeTokens(Tokens(data)).value, |data|, pickle))
  {
    var serialized := Lz77.SerializeTokens(Tokens(data)).value;
    var f :- TwoStage(serialized, |data|, pickle);
    GateForms(data, f);
    FormsDiffer(f, data);
    Gate(data, f)
  }

  // ---------------------------------------------------------------------------
  // Decompression
  // ---------------------------------------------------------------------------

  /**
    `_lz77_decompress_data`: the guarded replay of the tokens, cut to the
    original size.
   */
  function Lz77Decode(tokens: seq<Token>, size: nat): (r: Result<seq<byte>>)
    ensures r.Err? ==> r.error == BadIndex
    ensures r.Ok? ==> |r.value| <= size
    ensures r.Ok? ==> var full := Lz77.Replay([], tokens, false);
      full.Ok? && r.value <= full.value && |r.value| == Min(size, |full.value|)
  {
    Lz77.GuardedReplayAgrees([], tokens);
    var out :- Lz77.Replay([], tokens, true);
    Ok(Slice(out, 0, size))
  }

  /**
    The two-stage part of `decompress`, reading its header from `pos` on:
    the size (0 gives empty output), the window and lookahead sizes (read
    and ignored), the table length and the table; an unreadable table is
    rejected. The Huffman body is decoded until the end marker or the end
    of the bits, with no size limit; the bytes are regrouped into tokens
    and replayed.
   */
  function DecodeTwoStage(file: seq<byte>, pos: nat, unpickle: seq<byte> -> Option<FreqTable>): (r: Result<seq<byte>>)
    requires pos <= |file|
    ensures FromBigEndian(Read(file, pos, 4).0) == 0 ==> r == Ok([])
    ensures r.Ok? ==> |r.value| <= FromBigEndian(Read(file, pos, 4).0)
    ensures r.Err? ==> r.error in {BadTable, MissingChild, BadIndex}
  {
    var (sizeField, p1) := Read(file, pos, 4);
    var size := FromBigEndian(sizeField);
    if size == 0 then Ok([])
    else
      var (_, p2) := Read(file, p1, 2);
      var (_, p3) := Read(file, p2, 1);
      var (blobSize, p4) := Read(file, p3, 4);
      var (blob, p5) := Read(file, p4, FromBigEndian(blobSize));
      match unpickle(blob)
      case None => Err(BadTable)
      case Some(table) =>
        var root := BuildHuffmanTree(table);
        var serialized :- Huffman.DecodeLoop(root, NewReader(file, p5), root, [], None);
        Lz77Decode(Lz77.DeserializeTokens(serialized), size)
  }

  /**
    What the 7-byte magic read tells apart: the stored tag fills all 7
    bytes, its first 5 bytes are "COMBI" exactly for a two-stage file, and
    no file is both.
   */
  lemma MagicRead(file: seq<byte>)
    ensures var magic := Read(file, 0, 7).0;
      (magic == StoredTag <==> |file| >= 7 && file[..7] == StoredTag) &&
      (Slice(magic, 0, 5) == Tag <==> IsTwoStage(file)) &&
      (IsTwoStage(file) ==> magic != StoredTag)
  {
    var magic := Read(file, 0, 7).0;
    if |file| >= 5 {
      assert Slice(magic, 0, 5) == file[..5];
      assert file[..5][0] == file[0];
    } else {
      assert |Slice(magic, 0, 5)| < 5;
    }
    if magic == StoredTag {
      assert magic[0] == file[0];
    }
  }

  /**
    `decompress`, as written: the stored form is copied out; a file not
    tagged "COMBI" goes to the Huffman decoder; otherwise the two-stage
    header is read after a 7-byte tag, although "COMBI" and the version
    take 6.
   */
  function DecompressAsWritten(file: seq<byte>, unpickle: seq<byte> -> Option<FreqTable>): (r: Result<seq<byte>>)
    ensures |file| >= 7 && file[..5] == Tag ==> r == DecodeTwoStage(file, 7, unpickle)
  {
    var (magic, p1) := Read(file, 0, 7);
    MagicRead(file);
    if magic == StoredTag then
      var (sizeField, p2) := Read(file, p1, 4);
      Ok(Read(file, p2, FromBigEndian(sizeField)).0)
    else if Slice(magic, 0, 5) != Tag then Huffman.Decompress(file, unpickle)
    else DecodeTwoStage(file, p1, unpickle)
  }

  /**
    `decompress` with the two-stage header read right after "COMBI" and the
    version byte. The stored form gives back (up to) the number of bytes its
    size field declares; a file whose first 5 bytes are not "COMBI" is
    handed to the Huffman decoder.
   */
  function Decompress(file: seq<byte>, unpickle: seq<byte> -> Option<FreqTable>): (r: Result<seq<byte>>)
    ensures |file| >= 11 && file[..7] == StoredTag ==> r == Ok(Slice(file, 11, 11 + FromBigEndian(file[7..11])))
    ensures (|file| < 5 || file[..5] != Tag) && (|file| < 7 || file[..7] != StoredTag) ==>
      r == Huffman.Decompress(file, unpickle)
    ensures |file| >= 6 && file[..5] == Tag ==> r == DecodeTwoStage(file, 6, unpickle)
  {
    var (magic, p1) := Read(file, 0, 7);
    MagicRead(file);
    if magic == StoredTag then
      var (sizeField, p2) := Read(file, p1, 4);
      Ok(Read(file, p2, FromBigEndian(sizeField)).0)
    else if Slice(magic, 0, 5) != Tag then Huffman.Decompress(file, unpickle)
    else DecodeTwoStage(file, Min(6, |file|), unpickle)
  }

  // ---------------------------------------------------------------------------
  // Round trip
  // ---------------------------------------------------------------------------

  /** `unpickle` gives back every table `pickle` turns into bytes. */
  ghost predicate Inverts(pickle: FreqTable -> seq<byte>, unpickle: seq<byte> -> Option<FreqTable>) {
    forall t :: unpickle(pickle(t)) == Some(t)
  }

  /** What `TwoStage` writes, field by field. */
  lemma TwoStageShape(serialized: seq<byte>, size: nat, pickle: FreqTable -> seq<byte>)
    requires |serialized| > 0 && TwoStage(serialized, size, pickle).Ok?
    ensures var table := BuildFrequencyTable(serialized);
      var codes := BuildCodes(BuildHuffmanTree(table)).codes;
      var blob := pickle(table);
      size < Pow256(4) && |blob| < Pow256(4) &&
      Huffman.Covers(codes, serialized) && EndMarker in codes &&
      TwoStage(serialized, size, pickle).value ==
        Frame(ToBigEndian(size, 4).value, WindowField, LookaheadField, ToBigEndian(|blob|, 4).value,
              blob, Huffman.EncodeBody(codes, serialized))
  {
    Huffman.TableCodesData(serialized);
  }

  /** `file` is the two-stage frame holding `size`, the pickled table `blob` and the Huffman `body`. */
  predicate Framed(file: seq<byte>, size: nat, blob: seq<byte>, body: seq<byte>) {
    size < Pow256(4) && |blob| < Pow256(4) &&
    file == Frame(ToBigEndian(size, 4).value, WindowField, LookaheadField, ToBigEndian(|blob|, 4).value, blob, body)
  }

  /**
    Reading a two-stage frame from byte 6 finds the size, skips the LZ77
    parameters, unpickles the stored table and decodes the body with its
    tree; the bytes decoded are regrouped into tokens and replayed.
   */
  lemma DecodeFrame(file: seq<byte>, n: nat, blob: seq<byte>, body: seq<byte>, table: FreqTable,
                    serialized: seq<byte>, unpickle: seq<byte> -> Option<FreqTable>)
    requires Framed(file, n, blob, body) && n > 0 && unpickle(blob) == Some(table)
    requires var root := BuildHuffmanTree(table);
      Huffman.DecodeBits(root, BitsOf(body), root, [], None) == Ok(serialized)
    ensures DecodeTwoStage(file, 6, unpickle) == Lz77Decode(Lz77.DeserializeTokens(serialized), n)
  {
    assert Read(file, 6, 4).0 == file[6..10];
    assert Read(file, 13, 4).0 == file[13..17];
    assert Read(file, 17, |blob|).0 == blob;
  }

  /**
    The second stage undone: reading its file from byte 6 gives back the
    serialised tokens, which are then regrouped and replayed, provided the
    frequency table survives pickling.
   */
  lemma TwoStageDecodes(serialized: seq<byte>, size: nat, pickle: FreqTable -> seq<byte>,
                        unpickle: seq<byte> -> Option<FreqTable>)
    requires |serialized| > 0 && size > 0 && TwoStage(serialized, size, pickle).Ok?
    requires unpickle(pickle(BuildFrequencyTable(serialized))) == Some(BuildFrequencyTable(serialized))
    ensures DecodeTwoStage(TwoStage(serialized, size, pickle).value, 6, unpickle) ==
            Lz77Decode(Lz77.DeserializeTokens(serialized), size)
  {
    var table, blob, body := TwoStageParts(serialized, size, pickle);
    DecodeFrame(TwoStage(serialized, size, pickle).value, size, blob, body, table, serialized, unpickle);
  }

  /** The pieces of the second stage's file, with its body decoding back to the serialised tokens. */
  lemma TwoStageParts(serialized: seq<byte>, size: nat, pickle: FreqTable -> seq<byte>)
      returns (table: FreqTable, blob: seq<byte>, body: seq<byte>)
    requires |serialized| > 0 && TwoStage(serialized, size, pickle).Ok?
    ensures table == BuildFrequencyTable(serialized) && blob == pickle(table)
    ensures Framed(TwoStage(serialized, size, pickle).value, size, blob, body)
    ensures var root := BuildHuffmanTree(table);
      Huffman.DecodeBits(root, BitsOf(body), root, [], None) == Ok(serialized)
  {
    TwoStageShape(serialized, size, pickle);
    BodyDecodes(serialized);
    table := BuildFrequencyTable(serialized);
    blob := pickle(table);
    body := Huffman.EncodeBody(BuildCodes(BuildHuffmanTree(table)).codes, serialized);
  }

  /** The Huffman body of the second stage decodes, with no size limit, to the serialised tokens. */
  lemma BodyDecodes(serialized: seq<byte>)
    requires |serialized| > 0
    ensures var root := BuildHuffmanTree(BuildFrequencyTable(serialized));
      var codes := BuildCodes(root).codes;
      Huffman.Covers(codes, serialized) && EndMarker in codes &&
      Huffman.DecodeBits(root, BitsOf(Huffman.EncodeBody(codes, serialized)), root, [], None) == Ok(serialized)
  {
    var root := BuildHuffmanTree(BuildFrequencyTable(serialized));
    var codes := BuildCodes(root).codes;
    Huffman.TableCodesData(serialized);
    var body := Huffman.EncodeBody(codes, serialized);
    var pad :| 0 <= pad < 8 &&
      BitsOf(body) == CharsToBits(Huffman.EncodeSymbols(codes, serialized) + codes[EndMarker]) + Zeros(pad);
    Huffman.DecodeAll(root.value, codes, serialized, pad, [], None);
    assert [] + serialized == serialized;
  }

  /**
    Decoding the two-stage file of data without zero bytes gives back the
    data, provided its frequency table survives pickling.
   */
  lemma TwoStageRoundTrip(data: seq<byte>, pickle: FreqTable -> seq<byte>, unpickle: seq<byte> -> Option<FreqTable>)
    requires |data| > 0 && Lz77.NoZero(data) && Inverts(pickle, unpickle)
    requires Lz77.SerializeTokens(Tokens(data)).Ok?
    requires TwoStage(Lz77.SerializeTokens(Tokens(data)).value, |data|, pickle).Ok?
    ensures Decompress(TwoStage(Lz77.SerializeTokens(Tokens(data)).value, |data|, pickle).value, unpickle) == Ok(data)
  {
    var serialized := Lz77.SerializeTokens(Tokens(data)).value;
    var table := BuildFrequencyTable(serialized);
    assert unpickle(pickle(table)) == Some(table);
    TwoStageDecodes(serialized, |data|, pickle, unpickle);
    TokensDecode(data);
  }

  /** The serialised tokens of data without zero bytes regroup and replay to the data. */
  lemma TokensDecode(data: seq<byte>)
    requires Lz77.NoZero(data) && Lz77.SerializeTokens(Tokens(data)).Ok?
    ensures Lz77Decode(Lz77.DeserializeTokens(Lz77.SerializeTokens(Tokens(data)).value), |data|) == Ok(data)
  {
    Lz77.TokensRoundTrip(Tokens(data));
    Lz77.ReplayRoundTrip(Lz77.DefaultWindowSize, Lz77.DefaultLookaheadSize, data);
    Lz77DecodeAll(Tokens(data), data);
  }

  /** Tokens that replay to `data` are decoded to all of it when the size field holds its length. */
  lemma Lz77DecodeAll(tokens: seq<Token>, data: seq<byte>)
    requires Lz77.Replay([], tokens, false) == Ok(data)
    ensures Lz77Decode(tokens, |data|) == Ok(data)
  {
    Lz77.GuardedReplayAgrees([], tokens);
    assert Slice(data, 0, |data|) == data;
  }

  /** A Huffman file is neither tagged "COMBI" nor "NOCOMPR". */
  lemma HuffmanUntagged(f: seq<byte>)
    requires IsHuffman(f)
    ensures !IsTwoStage(f) && f[..7] != StoredTag
  {
    assert f[..7][0] == f[0];
    if |f| >= 5 {
      assert f[..5][0] == f[0];
    }
  }

  /** The empty marker decodes to empty data. */
  lemma EmptyRoundTrip(unpickle: seq<byte> -> Option<FreqTable>)
    ensures Decompress(EmptyFile, unpickle) == Ok([])
  {
    DigitsRoundTrip(0, 4);
    assert |EmptyFile| == 10 && EmptyFile[..5] == Tag && EmptyFile[6..10] == Digits(0, 4);
    assert Read(EmptyFile, 6, 4).0 == EmptyFile[6..10];
  }

  /** The stored form decodes to the data it holds. */
  lemma StoredRoundTrip(f: seq<byte>, data: seq<byte>, unpickle: seq<byte> -> Option<FreqTable>)
    requires IsStored(f, data)
    ensures Decompress(f, unpickle) == Ok(data)
  {
    assert Slice(f, 11, 11 + |data|) == f[11..];
  }

  /**
    Decompressing what `compress` wrote gives back the data, provided
    `unpickle` inverts `pickle` and, when `compress` wrote the two-stage
    form, the data has no zero byte (the LZ77 decoder drops a 0 literal).
    The stored, empty and Huffman forms need nothing of the data.
   */
  lemma RoundTrip(data: seq<byte>, entropy: real, pickle: FreqTable -> seq<byte>,
                  unpickle: seq<byte> -> Option<FreqTable>)
    requires Compress(data, entropy, pickle).Ok? && Inverts(pickle, unpickle)
    requires IsTwoStage(Compress(data, entropy, pickle).value) ==> Lz77.NoZero(data)
    ensures Decompress(Compress(data, entropy, pickle).value, unpickle) == Ok(data)
  {
    var f := Compress(data, entropy, pickle).value;
    if |data| == 0 {
      EmptyRoundTrip(unpickle);
    } else if IsStored(f, data) {
      StoredRoundTrip(f, data, unpickle);
    } else if IsHuffman(f) {
      HuffmanUntagged(f);
      var table := BuildFrequencyTable(data);
      assert unpickle(pickle(table)) == Some(table);
      Huffman.RoundTrip(data, pickle, unpickle);
    } else {
      assert IsTwoStage(f);
      TwoStageRoundTrip(data, pickle, unpickle);
    }
  }

  // ---------------------------------------------------------------------------
  // The two-stage header read one byte late
  // ---------------------------------------------------------------------------

  /**
    Where the as-written decoder looks in a two-stage frame whose size and
    table length fit in 3 bytes: it takes the size from bytes 7..11 (the low
    3 size bytes and the high window byte) and the table length from bytes
    14..18 (the low 3 length bytes and the first table byte), so the table
    it reads starts at byte 18 and is longer than the real one.
   */
  lemma LateFields(file: seq<byte>, n: nat, blob: seq<byte>, body: seq<byte>)
    requires Framed(file, n, blob, body) && n < Pow256(3) && 1 <= |blob| < Pow256(3)
    ensures FromBigEndian(file[6..10]) == n
    ensures FromBigEndian(file[7..11]) == n * 256 + 16
    ensures FromBigEndian(file[14..18]) == |blob| * 256 + blob[0]
  {
    assert file[6..10] == Digits(n, 4) && file[13..17] == Digits(|blob|, 4);
    DigitsRoundTrip(n, 4);
    assert file[7..11] == file[6..10][1..] + [file[10]];
    assert file[10] == WindowField[0] == 16;
    ShiftedField(n, 16);
    assert file[14..18] == file[13..17][1..] + [blob[0]];
    ShiftedField(|blob|, blob[0]);
  }

  /** A 4-byte field of a value below 2^24, read one byte late, is the value shifted up by the next byte. */
  lemma ShiftedField(m: nat, x: byte)
    requires m < Pow256(3)
    ensures FromBigEndian(Digits(m, 4)[1..] + [x]) == m * 256 + x
  {
    DigitsLeadingZero(m, 3);
    assert Digits(m, 4)[1..] == Digits(m, 3);
    DigitsRoundTrip(m, 3);
    FromBigEndianAppend(Digits(m, 3), x);
  }

  /**
    The header misread as written: on the frame `compress` writes for a size
    below 2^24 and a table shorter than 2^24 bytes, the size is read as
    `n * 256 + 16` and the table from one byte past its start. A pickle of
    protocol 2 to 5 begins with the PROTO opcode 0x80 and then the protocol
    number, so the bytes read start with that number. The bytes 0x02 to
    0x05 are no pickle opcode, so `pickle.loads` rejects bytes starting with
    one of them, and so does every `unpickle` assumed here: the file is
    rejected, whereas the corrected reader finds both where they were
    written.
   */
  lemma HeaderReadOneByteLate(file: seq<byte>, n: nat, blob: seq<byte>, body: seq<byte>, table: FreqTable,
                              unpickle: seq<byte> -> Option<FreqTable>)
    requires Framed(file, n, blob, body) && n < Pow256(3) && 2 <= |blob| < Pow256(3)
    requires blob[0] == 0x80 && 2 <= blob[1] <= 5 && unpickle(blob) == Some(table)
    requires forall b: seq<byte> :: |b| >= 1 && 2 <= b[0] <= 5 ==> unpickle(b) == None
    ensures FromBigEndian(Read(file, 6, 4).0) == n
    ensures FromBigEndian(Read(file, 7, 4).0) == n * 256 + 16
    ensures DecompressAsWritten(file, unpickle) == Err(BadTable)
  {
    LateFields(file, n, blob, body);
    assert Read(file, 6, 4).0 == file[6..10];
    assert Read(file, 7, 4) == (file[7..11], 11);
    assert Read(file, 11, 2).1 == 13 && Read(file, 13, 1).1 == 14;
    assert Read(file, 14, 4) == (file[14..18], 18);
    var late := Read(file, 18, |blob| * 256 + blob[0]).0;
    assert file[18] == blob[1];
    assert |late| >= 1 && late[0] == blob[1];
    assert unpickle(late) == None;
    assert DecodeTwoStage(file, 7, unpickle) == Err(BadTable);
  }
}
