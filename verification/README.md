# data-archiver in Dafny

A model of the compression core of data-archiver, a Python file archiver
with four codecs:

- **Huffman** (`HuffmanCompressor`). The file is "HUFFMAN", a version byte,
  the original size (4 bytes, big-endian), the length of the pickled
  frequency table (4 bytes), the table, then the codes of every byte and of
  the end marker 256. The bits are packed most significant first and the
  last byte is padded with zeros.
- **LZ77** (`LZ77Compressor`). The file is "LZ77\0\0", the window size
  (2 bytes), the lookahead size (1 byte), the size (4 bytes), then
  (offset, length, next byte) tokens of 4 bytes each.
- **Combined** (`CombinedCompressor`). LZ77 tokens are serialised and then
  Huffman coded into a "COMBI" file. A policy decides between this, plain
  Huffman coding and storing the data behind "NOCOMPR". The policy looks at
  size, entropy and the share of repeated bytes, at the number of tokens,
  and checks that the result is at least 2% smaller than the input.
- **RLE** (`RLECompressor`). The file is "RLE\0", the run limit (1 byte),
  the size (4 bytes), then (count, value) byte pairs.

Every codec is modelled as a pure function from file contents to file
contents, with `Result` values for the exceptions the source raises. The
bit writer and reader (`BitWriter`, `BitReader`) are state records whose
operations return the next state. The heap, the sliding window and the
tokens are immutable datatypes.

Modules, one per source file plus two shared ones:

- `Outcomes`: `Option`, `Result` and the error kinds.
- `Bytes`: big-endian integer fields and `f.read`.
- `BitIO`: `src/utils/bit_io.py`.
- `HuffmanModels`: `src/models/huffman_models.py`.
- `HuffmanTree`: frequency tables and trees, from `src/core/huffman.py`.
- `HuffmanCodes`: code tables, from `src/core/huffman.py`.
- `Huffman`: the Huffman file format, from `src/core/huffman.py`.
- `Lz77Models`: `src/models/lz77_models.py`.
- `Lz77`: `src/core/lz77.py`.
- `Combined`: `src/core/combined.py`.
- `Rle`: `src/core/rle.py`.

`pickle.dumps` and `pickle.loads` are function parameters. Round trips
assume that unpickling gives back the pickled table. The entropy of the
data (`math.log2` in floating point) is an input of `Combined.Compress`.

## Model

| member | source | states |
|---|---|---|
| Bytes.ToBigEndian | src/core/combined.py:60 | `int.to_bytes(n, width, 'big')`: fails with OverflowError exactly when `n` needs more than `width` bytes; otherwise gives `width` bytes that `int.from_bytes` reads back as `n` |
| Bytes.DigitsRoundTrip | src/core/combined.py:185 | `int.from_bytes` inverts `to_bytes` for every value that fits the width |
| Bytes.Read | src/core/combined.py:165 | `f.read(n)` returns the next `min(n, remaining)` bytes of the file and moves the position past them; it never fails at the end of the file |
| BitIO.WriteBit | src/utils/bit_io.py:7-17 | a bit other than 0 or 1 raises ValueError; otherwise the stream of written bits grows by exactly that bit |
| BitIO.Push | src/utils/bit_io.py:11-17 | the eighth pending bit completes a byte, which is appended to the output; before that the bit is only held; bytes already written never change |
| BitIO.WriteBits | src/utils/bit_io.py:19-21 | the written bits grow by the bit string, where '1' is 1 and any other character is 0 |
| BitIO.WriteInt | src/utils/bit_io.py:23-28 | a value outside `0 .. 2^n - 1` raises ValueError; otherwise its `n` low bits are written, most significant first |
| BitIO.Flush | src/utils/bit_io.py:30-38 | the bytes written are the bits written so far followed by 8 - count zero padding bits; the padding count (below 8) is returned; flushing an empty buffer writes nothing and returns 0 |
| BitIO.NewReader | src/utils/bit_io.py:42-47 | a fresh reader has the bits of every byte from the start position still to read, most significant first, and has counted no bits |
| BitIO.ReadBit | src/utils/bit_io.py:49-61 | returns -1 exactly when no bits remain (and sets eof, counting nothing); otherwise returns the next unread bit, consumes only that bit, and counts one more bit read |
| BitIO.ReadBits | src/utils/bit_io.py:63-70 | with at least `n` bits left, returns their big-endian value and consumes them; with fewer, returns -1 and leaves no bit unread |
| BitIO.ReadBitString | src/utils/bit_io.py:72-79 | returns the next `min(n, remaining)` bits as '0'/'1' characters and consumes exactly those |
| BitIO.WriteIntReadBits | src/utils/bit_io.py:23-70 | writing a value in `n` bits, flushing, and reading `n` bits back gives the value |
| HuffmanModels.Push | src/models/huffman_models.py:24-25 | the heap gains exactly the pushed node: its multiset of nodes grows by one |
| HuffmanModels.MinIndex | src/models/huffman_models.py:12-13 | the chosen node has a frequency no other node undercuts, and is the first such node |
| HuffmanModels.Pop | src/models/huffman_models.py:27-28 | an empty heap gives None and stays empty; otherwise a node of least frequency is removed, and the remaining nodes plus it are the old nodes |
| HuffmanModels.SizeAccounting | src/models/huffman_models.py:27-34 | `is_empty` agrees with `size() == 0`, pop returns None only on an empty heap, and a push followed by a pop leaves the size unchanged |
| HuffmanTree.Put | src/core/huffman.py:13 | a dictionary update sets the key's count and leaves every other key alone; the total grows by the difference |
| HuffmanTree.CountBytes | src/core/huffman.py:11-13 | each byte value maps to its number of occurrences, absent values are missing, and the counts add up to the length |
| HuffmanTree.BuildFrequencyTable | src/core/huffman.py:10-18 | the end marker 256 has count 1, each byte value present has its occurrence count, and the counts add up to the length plus 1 |
| HuffmanTree.MergeTwo | src/core/huffman.py:29-33 | one merge step shrinks the heap by one node and keeps the total frequency and the multiset of leaf symbols |
| HuffmanTree.MergeAll | src/core/huffman.py:29-35 | the final node carries the total frequency and every leaf symbol of the heap; with two or more nodes it is an internal node |
| HuffmanTree.BuildHuffmanTree | src/core/huffman.py:20-35 | None exactly for an empty table; otherwise the root's frequency is the table's total, its leaves are the table's symbols (each once), and two or more symbols give an internal root |
| HuffmanTree.SerializeTree | src/core/huffman.py:54-65 | the table maps each symbol to the frequency of its leaf, and only the tree's symbols appear |
| HuffmanCodes.BuildCodes | src/core/huffman.py:37-52 | no tree gives empty tables; otherwise the codes are keyed by exactly the tree's symbols, each code is the path to that symbol's leaf, and under an internal root no code is empty |
| HuffmanCodes.LeafPathUnique | src/core/huffman.py:37-46 | in a tree whose symbols are distinct, a symbol's leaf is reached by only one path |
| HuffmanCodes.CodesPrefixFree | src/core/huffman.py:37-52 | no code is a prefix of another symbol's code |
| HuffmanCodes.ReverseIsInverse | src/core/huffman.py:42-43 | `reverse_codes` and `codes` are inverse maps when the tree's symbols are distinct |
| Huffman.WriteCodes | src/core/huffman.py:110-113 | the bits written are the codes of the data's bytes, in order |
| Huffman.EncodeBody | src/core/huffman.py:107-119 | the body's bits are the data's codes, the end marker's code, and fewer than 8 zero bits |
| Huffman.TableCodesData | src/core/huffman.py:85-92 | for non-empty data the tree is internal with distinct symbols, and every byte of the data and the end marker has a code |
| Huffman.Compress | src/core/huffman.py:67-125 | empty data gives the 16-byte empty header; otherwise it fails with OverflowError exactly when the size or the pickled table needs more than 4 bytes; the result starts with the magic and version and stores the size |
| Huffman.DecodeLoop | src/core/huffman.py:167-190 | the reader-driven loop decodes exactly what the bit-level decoder decodes from the reader's unread bits |
| Huffman.DecodeBits | src/core/huffman.py:172-190 | decoding only appends to the output, never goes past the size limit, and fails only by stepping below a leaf |
| Huffman.DecodeAll | src/core/huffman.py:172-190 | decoding the codes of some data, the end marker's code and padding gives back exactly that data |
| Huffman.Decompress | src/core/huffman.py:130-202 | a wrong magic number is rejected and nothing else is; a short size field is rejected; size 0 gives empty output; for a non-zero size, a short table-size field or a table shorter than declared is rejected as truncated, and a table that does not unpickle as a bad table; the output is never longer than the declared size |
| Huffman.DecompressFrame | src/core/huffman.py:130-190 | on a well-formed file whose table unpickles, decompression is the bit-level decode of the body with the stored size as limit |
| Huffman.CompressShape | src/core/huffman.py:96-119 | the file is the magic, version, size, table length, pickled table and encoded body |
| Huffman.RoundTrip | src/core/huffman.py:67-202 | decompressing what compress wrote gives back the data |
| Lz77Models.NewWindow | src/models/lz77_models.py:16-20 | a new window holds no data, its cursor is at 0, and it keeps the two sizes |
| Lz77Models.AddData | src/models/lz77_models.py:22-23 | the bytes are appended; the cursor and sizes do not change |
| Lz77Models.Lookahead | src/models/lz77_models.py:25-27 | the next `min(lookahead, remaining)` bytes from the cursor; empty exactly when the lookahead is 0 or the data is used up |
| Lz77Models.SearchBuffer | src/models/lz77_models.py:29-31 | the up to `window` bytes just before the cursor |
| Lz77Models.Contiguous | src/models/lz77_models.py:25-31 | the search buffer followed by the lookahead buffer is one contiguous slice of the data |
| Lz77Models.Advance | src/models/lz77_models.py:33-34 | the cursor moves by `n`; nothing else changes |
| Lz77.MatchLength | src/core/lz77.py:22-29 | the matched length at an offset is a real match and no longer match exists at that offset |
| Lz77.FindLongestMatch | src/core/lz77.py:10-35 | an empty lookahead gives (0, 0); otherwise the returned match is real, no offset in the window has a longer one, and it has the smallest offset among the longest; offset 0 exactly when length 0 |
| Lz77.LongestMatchExample | src/core/lz77.py:10-35 | "abcabc" against lookahead "abcd" gives offset 3 and length 3 |
| Lz77.Tokenize | src/core/lz77.py:55-77 | every token's length is within the lookahead and within its own offset, its offset within the window, and its offset is 0 exactly when its length is; there are no more tokens than bytes, and at least one while data remains and the lookahead is not empty |
| Lz77.Step | src/core/lz77.py:62-74 | each step advances by at least one byte, by the match length plus one when a next byte follows the match; its token's length is within the lookahead and its own offset, and the offset is 0 exactly for an empty match |
| Lz77.CompressTokens | src/core/lz77.py:49-77 | every token of a fresh window is shaped by the window and lookahead sizes, so with sizes below 65536 and 256 all tokens fit the 4-byte layout; non-empty data with a lookahead gives at least one token |
| Lz77.PyIndex | src/core/lz77.py:121 | Python indexing: negative indices count from the end, and an index out of range raises IndexError |
| Lz77.GuardedReplayAgrees | src/core/combined.py:269-282 | the replay loop with the `start_pos + i < len` guard and the one without it in `src/core/lz77.py:117-124` produce the same output |
| Lz77.ReplayRoundTrip | src/core/lz77.py:115-124 | replaying the tokens of data without zero bytes rebuilds the data, for any window and a lookahead of at least one byte |
| Lz77.ZeroByteIsLost | src/core/lz77.py:123-124 | the single byte 0 becomes the token (0, 0, 0), which replays to nothing |
| Lz77.TokenBytes | src/core/lz77.py:152-155 | a token is 4 bytes (2-byte offset, length, byte); it fails with OverflowError exactly when offset or length does not fit |
| Lz77.SerializeTokens | src/core/combined.py:284-290 | succeeds exactly when every token fits, then 4 bytes per token |
| Lz77.DeserializeTokens | src/core/combined.py:292-302 | one token per whole group of 4 bytes |
| Lz77.TokensRoundTrip | src/core/combined.py:284-302 | deserialising the serialised tokens gives them back |
| Lz77.TrailingBytesIgnored | src/core/lz77.py:104-107 | fewer than 4 trailing bytes add no token |
| Lz77.Header | src/core/lz77.py:145-150 | the 13-byte header stores the magic, window size, lookahead size and size, and fails exactly when one does not fit its width |
| Lz77.Compress | src/core/lz77.py:37-85 | empty data gives the all-zero header; otherwise it succeeds exactly when the window, lookahead and size fit their header fields, giving 13 header bytes plus 4 per token, with the size stored |
| Lz77.Decompress | src/core/lz77.py:87-136 | rejects exactly the files without the magic; size 0 gives empty output, and so does a file with the magic but shorter than the 13-byte header; otherwise the replay of the stored tokens |
| Lz77.RoundTrip | src/core/lz77.py:37-136 | decompressing what compress wrote gives back data without zero bytes, for a lookahead of at least one byte |
| Combined.RepeatsCounts | src/core/combined.py:133-136 | the loop counts exactly the positions whose byte equals its predecessor, at most `len - 1` of them |
| Combined.RepetitionRatio | src/core/combined.py:129-138 | 0 for fewer than two bytes; otherwise the share of repeating positions, which is below 1 |
| Combined.EffectiveInWholeNumbers | src/core/combined.py:152-154 | "2% smaller" means 50 compressed bytes weigh less than 49 original ones, so an effective result is always strictly smaller |
| Combined.StoreOriginal | src/core/combined.py:156-160 | the stored form is "NOCOMPR", the size and the data; it fails exactly when the size needs more than 4 bytes |
| Combined.Gate | src/core/combined.py:86-92 | an effective result is kept; otherwise the data is stored |
| Combined.GateForms | src/core/combined.py:86-92 | after the gate the file is either the stored form, and then neither Huffman nor two-stage, or the effective compressed file |
| Combined.FormsDiffer | src/core/combined.py:165-178 | the stored, Huffman and two-stage layouts are told apart by their first bytes |
| Combined.TwoStage | src/core/combined.py:48-84 | fails with OverflowError exactly when the size or the pickled table needs more than 4 bytes; the header holds "COMBI", version 0, the size, window 4096 and lookahead 18 |
| Combined.Compress | src/core/combined.py:12-96 | empty data gives the empty marker; otherwise the output is stored, Huffman or two-stage. A two-stage file comes only from a large, low-entropy, repetitive input with few enough tokens, and it is effective. A non-effective Huffman file only comes from the too-many-tokens route. A Huffman file is exactly the Huffman codec's output. Non-empty data with a weak potential takes the Huffman route; a strong potential with too many tokens gives the Huffman codec's output ungated; otherwise the two-stage route |
| Combined.HuffmanRoute | src/core/combined.py:29-37 | the policy's fallback gives either the stored form or the Huffman file, and the Huffman file only when it is effective: an effective Huffman file is kept, a non-effective one replaced by the stored form, and a Huffman error passed on |
| Combined.TwoStageRoute | src/core/combined.py:39-92 | the two-stage route gives either the stored form or an effective two-stage file built from the serialised tokens: an effective two-stage file is kept, a non-effective one replaced by the stored form, and an overflow passed on |
| Combined.Tokens | src/core/combined.py:240-267 | the default-size tokens always fit the 4-byte layout, and non-empty data gives at least one |
| Combined.Lz77Decode | src/core/combined.py:269-282 | the guarded replay cut to the original size: a prefix of the full replay, of length `min(size, replayed)` |
| Combined.DecodeTwoStage | src/core/combined.py:185-229 | a size field of 0 gives empty output; the output never exceeds the size field; failures are an unreadable table, a step below a leaf or a bad back-reference |
| Combined.MagicRead | src/core/combined.py:165-178 | the 7-byte magic equals "NOCOMPR" exactly for stored files, starts with "COMBI" exactly for two-stage files, and never both |
| Combined.DecompressAsWritten | src/core/combined.py:162-238 | as the source reads it: after "COMBI" the two-stage fields are read from offset 7 |
| Combined.Decompress | src/core/combined.py:162-238 | the stored form is copied out up to its size; a file that is neither stored nor "COMBI" goes to the Huffman decoder; a "COMBI" file's fields are read from offset 6, right after the version byte |
| Combined.DecodeFrame | src/core/combined.py:185-229 | on a well-formed two-stage file whose table unpickles and whose body decodes, decompression replays the decoded tokens, cut to the size |
| Combined.TwoStageParts | src/core/combined.py:48-84 | a two-stage file is the frame of the size, the pickled table of the serialised tokens, and a body that decodes back to those tokens |
| Combined.BodyDecodes | src/core/combined.py:71-84 | the Huffman body of the serialised tokens decodes back to exactly those bytes |
| Combined.TwoStageDecodes | src/core/combined.py:48-229 | decompressing a two-stage file replays the serialised tokens it was built from |
| Combined.TwoStageRoundTrip | src/core/combined.py:39-229 | a two-stage file of data without zero bytes decompresses to the data |
| Combined.Lz77DecodeAll | src/core/combined.py:269-282 | tokens that replay to some data decode, cut to its length, to exactly that data |
| Combined.EmptyRoundTrip | src/core/combined.py:304-307 | the empty marker decompresses to empty output |
| Combined.StoredRoundTrip | src/core/combined.py:156-172 | a stored file decompresses to the stored data |
| Combined.RoundTrip | src/core/combined.py:12-238 | decompressing what compress wrote gives back the data, whichever form compress chose, provided that a two-stage output comes only from data without zero bytes |
| Combined.LateFields | src/core/combined.py:185-197 | in a two-stage file, the four bytes from offset 6 hold the size, but those from offset 7 read as `size * 256 + 16` |
| Combined.HeaderReadOneByteLate | src/core/combined.py:165-199 | the size read one byte late is `size * 256 + 16`; the table is read from one byte past its start, so it begins with the pickle's protocol number (2 to 5) instead of the 0x80 PROTO opcode; those bytes are no pickle opcode, so an unpickling that rejects bytes starting with them rejects the file the source itself wrote |
| Rle.RunLength | src/core/rle.py:86-92 | the run stays within the data and the limit, holds only the starting byte, and stops before an equal byte only at the limit |
| Rle.EncodeFrom | src/core/rle.py:85-95 | the pairs from a position expand to the rest of the data and are canonical |
| Rle.Encode | src/core/rle.py:76-97 | empty data gives no pairs; otherwise the pairs expand to the data, every count is between 1 and the limit, equal neighbours follow only a full run, and there are no more pairs than bytes |
| Rle.CanonicalUnique | src/core/rle.py:76-97 | two canonical pair lists with the same expansion are equal |
| Rle.EncodeIsTheCanonicalCoding | src/core/rle.py:76-97 | the encoder's pairs are the only canonical coding of the data |
| Rle.Decode | src/core/rle.py:99-105 | the expansion cut to the size: a prefix of length `min(size, expanded)` |
| Rle.DecodeEncode | src/core/rle.py:76-105 | decoding the encoding with the data's length gives back the data |
| Rle.PairBytes | src/core/rle.py:119-121 | two bytes per pair, the count then the value |
| Rle.ParsePairs | src/core/rle.py:55-63 | one pair per whole group of two bytes, an odd trailing byte ignored |
| Rle.ParsePairBytes | src/core/rle.py:55-63 | parsing the written pairs gives them back |
| Rle.Compress | src/core/rle.py:18-38 | empty data gives the empty header; otherwise it fails with OverflowError exactly when the limit is outside `0..255` or the size needs more than 4 bytes; the header holds the magic, the limit and the size, followed by two bytes per pair |
| Rle.Decompress | src/core/rle.py:40-74 | rejects exactly the files without the magic; otherwise the decode of the stored pairs with the stored size, never longer than that size |
| Rle.RoundTrip | src/core/rle.py:18-74 | decompressing what compress wrote gives back the data |

## Left out

- File I/O, paths, console output and exception messages are left out. A codec is a function from one byte string to another, and each raised exception is an `Err` value.
- `pickle.dumps` and `pickle.loads` become the parameters `pickle` and `unpickle`. A table that does not unpickle is the `BadTable` error.
- The entropy computation (`_calculate_entropy`, `_analyze_compression_potential`) is left out because it uses floating-point `math.log2`. The entropy is an input of `Combined.Compress`. The thresholds (7.5, 0.01, 0.95, 0.98) are exact rationals, so Python's float rounding right at a boundary is not captured.
- `_get_file_size` is the length of the bytes just produced.
- HuffmanModels.Pop: takes the first node of least frequency. `heapq` may pick another among equal frequencies, so the tree's exact shape under ties is not modelled. Every property stated about the tree holds for any tie order.
- Frequency-table keys are the symbols 0..256. A table unpickled with other keys is outside the model.
- The two-stage window and lookahead fields, the RLE run-limit byte and the Huffman version byte are read and ignored, as in the source.
- `get_total_bits_read`, the `__repr__` methods, `RLECompressor.analyze_efficiency` (a statistics report) and the context files (`main.py`, `run.py`, `format_detector.py`) are not part of this model.
- Lz77.RoundTrip: holds only for data without a zero byte and a lookahead of at least one byte. A literal 0 marks "no next byte" and is dropped on replay (`Lz77.ZeroByteIsLost`). With lookahead 0 no token is ever produced.
- Combined.RoundTrip: requires data without zero bytes when compress writes the two-stage form, for the same reason.
- Combined.TwoStageRoundTrip: requires data without zero bytes, for the same reason.
- Lz77.SerializeTokens: reports every field that does not fit as `Overflow`. `_serialize_tokens` raises ValueError instead for a length or literal above 255, because it uses `bytearray.append`; the token loop of `_write_compressed_data` raises OverflowError. The model does not tell the two exception types apart. With the default sizes no token overflows (`Combined.Tokens`).
- Rle.Encode: the counts are stated as 1..`Cap(limit)`, where a limit below 1 still gives runs of one byte, as the inner loop of `_encode_rle` does.

## Findings

| source | as written | input that shows it | evidently intended | confidence | as-written member | corrected member |
|---|---|---|---|---|---|---|
| src/core/combined.py:165-185 | `decompress` reads a 7-byte magic, but a two-stage file starts with only 6 bytes ("COMBI" and the version), so the size and every later field are read one byte late | any two-stage file, e.g. for 1000 input bytes: the size is read as 1000 * 256 + 16 = 256016 and the table length from offset 14, so the table is read from one byte past its start, beginning with the pickle's protocol number (2 to 5, not a pickle opcode) rather than the 0x80 opcode, and unpickling fails | read the size right after "COMBI" and the version byte, at offset 6 | not executed | Combined.HeaderReadOneByteLate | Combined.TwoStageRoundTrip |
