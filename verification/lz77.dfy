/**
  The LZ77 codec (`LZ77Compressor`): the longest-match search, the
  tokenising loop, the 4-byte token layout, the back-reference replay and
  the "LZ77\0\0" file format.

  The same tokenising loop and token layout are used by the combined
  pipeline (`_lz77_compress_data`, `_serialize_tokens`,
  `_deserialize_tokens`), which imports them from here.
 */
module Lz77 {
  import opened Outcomes
  import opened Bytes
  import opened Lz77Models

  /** The default `window_size`. */
  const DefaultWindowSize: nat := 4096

  /** The default `lookahead_size`. */
  const DefaultLookaheadSize: nat := 18

  // ---------------------------------------------------------------------------
  // find_longest_match
  // ---------------------------------------------------------------------------

  /**
    `lookahead[0:len]` equals the `len` bytes starting `offset` bytes before
    the end of `search`, with `len` capped by the lookahead and by `offset`
    (a match never runs into the lookahead).
   */
  predicate IsMatch(search: seq<byte>, lookahead: seq<byte>, offset: nat, len: nat) {
    1 <= offset <= |search| && len <= |lookahead| && len <= offset &&
    lookahead[..len] == search[|search| - offset..|search| - offset + len]
  }

  /**
    The inner `while` loop: extend the match at `start` from `k` bytes on
    while the lookahead, the offset cap and the search buffer allow and the
    bytes agree.
   */
  function ExtendMatch(search: seq<byte>, lookahead: seq<byte>, start: nat, offset: nat, k: nat): (r: nat)
    requires start + offset == |search| && k <= |lookahead| && k <= offset
    requires lookahead[..k] == search[start..start + k]
    ensures k <= r <= |lookahead| && r <= offset
    ensures lookahead[..r] == search[start..start + r]
    ensures r < |lookahead| && r < offset ==> search[start + r] != lookahead[r]
    decreases |lookahead| - k
  {
    if k < |lookahead| && k < offset && start + k < |search| && search[start + k] == lookahead[k] then
      assert lookahead[..k + 1] == lookahead[..k] + [lookahead[k]];
      assert search[start..start + k + 1] == search[start..start + k] + [search[start + k]];
      ExtendMatch(search, lookahead, start, offset, k + 1)
    else k
  }

  /** The capped match length at one offset. */
  function MatchLength(search: seq<byte>, lookahead: seq<byte>, offset: nat): (r: nat)
    requires 1 <= offset <= |search|
    ensures IsMatch(search, lookahead, offset, r)
    ensures forall len: nat :: IsMatch(search, lookahead, offset, len) ==> len <= r
  {
    var r := ExtendMatch(search, lookahead, |search| - offset, offset, 0);
    assert forall len: nat :: IsMatch(search, lookahead, offset, len) ==> len <= r by {
      forall len: nat | IsMatch(search, lookahead, offset, len)
        ensures len <= r
      {
        if len > r {
          MatchPrefix(search, lookahead, offset, len, r);
          assert false;
        }
      }
    }
    r
  }

  /** A slice of a slice is a slice of the whole. */
  lemma SliceOfSlice(s: seq<byte>, lo: nat, hi: nat, a: nat, b: nat)
    requires lo <= hi <= |s| && a <= b <= hi - lo
    ensures s[lo..hi][a..b] == s[lo + a..lo + b]
  {
    assert forall k :: 0 <= k < b - a ==> s[lo..hi][a..b][k] == s[lo + a + k];
  }

  /** Every byte inside a match agrees with its counterpart in the search buffer. */
  lemma MatchPrefix(search: seq<byte>, lookahead: seq<byte>, offset: nat, len: nat, k: nat)
    requires IsMatch(search, lookahead, offset, len) && k < len
    ensures lookahead[k] == search[|search| - offset + k]
  {
    assert lookahead[..len][k] == lookahead[k];
  }

  /** The largest offset the search considers. */
  function MaxOffset(windowSize: nat, search: seq<byte>): nat {
    Min(|search|, windowSize)
  }

  /**
    The `for offset in range(...)` loop from offset `o` on, with the best
    offset and length so far; a later offset replaces the best one only
    when strictly longer.
   */
  function BestFrom(windowSize: nat, search: seq<byte>, lookahead: seq<byte>, o: nat, bestOffset: nat, bestLength: nat): (r: (nat, nat))
    requires 1 <= o <= MaxOffset(windowSize, search) + 1
    requires bestOffset < o && (bestOffset == 0 <==> bestLength == 0)
    requires bestOffset > 0 ==> IsMatch(search, lookahead, bestOffset, bestLength)
    requires forall p: nat, len: nat :: 1 <= p < o && IsMatch(search, lookahead, p, len) ==> len <= bestLength
    requires forall p: nat, len: nat :: 1 <= p < bestOffset && IsMatch(search, lookahead, p, len) ==> len < bestLength
    ensures r.0 <= MaxOffset(windowSize, search) && (r.0 == 0 <==> r.1 == 0)
    ensures r.0 > 0 ==> IsMatch(search, lookahead, r.0, r.1)
    ensures forall p: nat, len: nat :: 1 <= p <= MaxOffset(windowSize, search) && IsMatch(search, lookahead, p, len) ==> len <= r.1
    ensures forall p: nat, len: nat :: 1 <= p < r.0 && IsMatch(search, lookahead, p, len) ==> len < r.1
    decreases MaxOffset(windowSize, search) + 1 - o
  {
    if o > MaxOffset(windowSize, search) then (bestOffset, bestLength)
    else
      var len := MatchLength(search, lookahead, o);
      if len > bestLength then BestFrom(windowSize, search, lookahead, o + 1, o, len)
      else BestFrom(windowSize, search, lookahead, o + 1, bestOffset, bestLength)
  }

  /**
    `find_longest_match`: (0, 0) for an empty lookahead; otherwise the
    offset (at most the window size and the search length) and length of a
    genuine match that no offset in range beats, the smallest such offset
    on a tie. The offset is 0 exactly when no byte matches.
   */
  function FindLongestMatch(windowSize: nat, search: seq<byte>, lookahead: seq<byte>): (r: (nat, nat))
    ensures |lookahead| == 0 ==> r == (0, 0)
    ensures r.0 <= Min(|search|, windowSize) && r.1 <= |lookahead| && r.1 <= r.0
    ensures r.0 == 0 <==> r.1 == 0
    ensures r.0 > 0 ==> lookahead[..r.1] == search[|search| - r.0..|search| - r.0 + r.1]
    ensures forall p: nat, len: nat :: 1 <= p <= Min(|search|, windowSize) && IsMatch(search, lookahead, p, len) ==> len <= r.1
    ensures forall p: nat, len: nat :: 1 <= p < r.0 && IsMatch(search, lookahead, p, len) ==> len < r.1
  {
    if |lookahead| == 0 then
        (0, 0)
    else BestFrom(windowSize, search, lookahead, 1, 0, 0)
  }

  /** The example `find_longest_match(b"abcabc", b"abcd") == (3, 3)`. */
  lemma LongestMatchExample()
    ensures FindLongestMatch(DefaultWindowSize, [97, 98, 99, 97, 98, 99], [97, 98, 99, 100]) == (3, 3)
  {
    var search: seq<byte>, lookahead: seq<byte> := [97, 98, 99, 97, 98, 99], [97, 98, 99, 100];
    var r := FindLongestMatch(DefaultWindowSize, search, lookahead);
    assert IsMatch(search, lookahead, 3, 3) by {
      assert lookahead[..3] == search[3..6];
    }
    assert r.1 == 3;
  }

  // ---------------------------------------------------------------------------
  // The tokenising loop
  // ---------------------------------------------------------------------------

  /**
    The literal and the advance for a match of `length` bytes: the byte
    after the match and `length + 1` while the lookahead has one, else 0
    and `length`.
   */
  function NextStep(lookahead: seq<byte>, length: nat): (r: (byte, nat))
    requires length <= |lookahead|
    ensures length < |lookahead| ==> r == (lookahead[length], length + 1)
    ensures length == |lookahead| ==> r == (0, length)
  {
    if length < |lookahead| then (lookahead[length], length + 1) else (0, length)
  }

  /**
    What every token the loop emits looks like: a match no longer than the
    lookahead, no further back than the window, and no longer than its own
    offset; the offset is 0 exactly for a match of length 0.
   */
  predicate Shaped(t: Token, windowSize: nat, lookaheadSize: nat) {
    t.length <= lookaheadSize && t.offset <= windowSize &&
    t.length <= t.offset && (t.offset == 0 <==> t.length == 0)
  }

  /**
    The `while window.has_more_data()` loop: one token per step; every step
    moves the cursor by at least one byte, which ends the loop. An empty
    lookahead (a lookahead size of 0) ends it at once.
   */
  function Tokenize(w: Window): (tokens: seq<Token>)
    requires w.pos <= |w.data|
    ensures forall i :: 0 <= i < |tokens| ==> Shaped(tokens[i], w.windowSize, w.lookaheadSize)
    ensures |tokens| <= |w.data| - w.pos
    ensures w.pos < |w.data| && w.lookaheadSize >= 1 ==> |tokens| >= 1
    decreases |w.data| - w.pos
  {
    if !HasMoreData(w) || |Lookahead(w)| == 0 then []
    else
      var (t, advance) := Step(w);
      [t] + Tokenize(Advance(w, advance))
  }

  /**
    One iteration of the loop: the token for the match at the cursor and
    how far the cursor moves, which is at least one byte and never past the
    lookahead.
   */
  function Step(w: Window): (r: (Token, nat))
    requires w.pos <= |w.data| && |Lookahead(w)| > 0
    ensures 1 <= r.1 <= |Lookahead(w)| && w.pos + r.1 <= |w.data|
    ensures Shaped(r.0, w.windowSize, w.lookaheadSize)
    ensures r.1 == r.0.length + (if r.0.length < |Lookahead(w)| then 1 else 0)
  {
    var lookahead := Lookahead(w);
    var m := FindLongestMatch(w.windowSize, SearchBuffer(w), lookahead);
    var n := NextStep(lookahead, m.1);
    (Token(m.0, m.1, n.0), n.1)
  }

  /**
    The longest match at the cursor in terms of the data: it reaches no
    further back than the cursor and repeats the bytes it points at.
   */
  lemma MatchInData(w: Window)
    requires w.pos < |w.data| && w.lookaheadSize >= 1
    ensures var t := Step(w).0;
      (t.offset == 0 <==> t.length == 0) && t.length <= t.offset <= w.pos && w.pos + t.length <= |w.data| &&
      w.data[w.pos - t.offset..w.pos - t.offset + t.length] == w.data[w.pos..w.pos + t.length]
  {
    StepToken(w);
    var lo, hi := Max(0, w.pos - w.windowSize), Min(w.pos + w.lookaheadSize, |w.data|);
    BuffersInData(w);
    LongestMatchInData(w.windowSize, SearchBuffer(w), Lookahead(w), w.data, lo, w.pos, hi);
  }

  /** The longest match between two neighbouring slices of `data` is a repetition inside `data`. */
  lemma LongestMatchInData(windowSize: nat, search: seq<byte>, lookahead: seq<byte>,
                           data: seq<byte>, lo: nat, pos: nat, hi: nat)
    requires lo <= pos <= hi <= |data| && search == data[lo..pos] && lookahead == data[pos..hi]
    ensures var m := FindLongestMatch(windowSize, search, lookahead);
      m.1 <= m.0 <= pos && pos + m.1 <= |data| &&
      data[pos - m.0..pos - m.0 + m.1] == data[pos..pos + m.1]
  {
    var m := FindLongestMatch(windowSize, search, lookahead);
    MatchBetween(data, lo, pos, hi, search, lookahead, m.0, m.1);
  }

  /** Both buffers as slices of the data around the cursor. */
  lemma BuffersInData(w: Window)
    requires w.pos <= |w.data|
    ensures var lo, hi := Max(0, w.pos - w.windowSize), Min(w.pos + w.lookaheadSize, |w.data|);
      lo <= w.pos <= hi <= |w.data| && SearchBuffer(w) == w.data[lo..w.pos] && Lookahead(w) == w.data[w.pos..hi]
  {
  }

  /**
    A match between the bytes `search == data[lo..pos]` before a position
    and the bytes `lookahead == data[pos..hi]` after it is a repetition
    inside `data`.
   */
  lemma MatchBetween(data: seq<byte>, lo: nat, pos: nat, hi: nat, search: seq<byte>, lookahead: seq<byte>,
                     offset: nat, length: nat)
    requires lo <= pos <= hi <= |data| && search == data[lo..pos] && lookahead == data[pos..hi]
    requires length <= |lookahead| && length <= offset <= |search|
    requires offset == 0 ==> length == 0
    requires offset > 0 ==> lookahead[..length] == search[|search| - offset..|search| - offset + length]
    ensures data[pos - offset..pos - offset + length] == data[pos..pos + length]
  {
    if offset > 0 {
      SliceOfSlice(data, pos, hi, 0, length);
      assert lookahead[..length] == lookahead[0..length];
      SliceOfSlice(data, lo, pos, pos - lo - offset, pos - lo - offset + length);
    }
  }

  /**
    The literal of the step's token is the byte after the match while the
    lookahead has one, and 0 when the match fills the lookahead.
   */
  lemma LiteralInData(w: Window)
    requires w.pos < |w.data| && w.lookaheadSize >= 1
    ensures var t, advance := Step(w).0, Step(w).1;
      w.pos + advance <= |w.data| && (advance == t.length || advance == t.length + 1) &&
      (advance == t.length + 1 ==> t.literal == w.data[w.pos + t.length]) &&
      (advance == t.length ==> t.literal == 0)
  {
    var lookahead := Lookahead(w);
    var t := Step(w).0;
    assert lookahead == w.data[w.pos..Min(w.pos + w.lookaheadSize, |w.data|)];
    if t.length < |lookahead| {
      assert t.literal == lookahead[t.length];
    }
  }

  /** The token of a step: the longest match at the cursor and the byte after it. */
  lemma StepToken(w: Window)
    requires w.pos <= |w.data| && |Lookahead(w)| > 0
    ensures var m := FindLongestMatch(w.windowSize, SearchBuffer(w), Lookahead(w));
      Step(w).0.offset == m.0 && Step(w).0.length == m.1
  {
  }

  /**
    The tokens of `data` from a fresh window: every one is shaped by the two
    sizes, so with a window below 65536 and a lookahead below 256 (the
    defaults among them) they all fit the 4-byte layout; non-empty data
    gives at least one token.
   */
  function CompressTokens(windowSize: nat, lookaheadSize: nat, data: seq<byte>): (tokens: seq<Token>)
    ensures forall i :: 0 <= i < |tokens| ==> Shaped(tokens[i], windowSize, lookaheadSize)
    ensures windowSize < 65536 && lookaheadSize < 256 ==> Fits(tokens)
    ensures |data| > 0 && lookaheadSize >= 1 ==> |tokens| >= 1
  {
    Tokenize(AddData(NewWindow(windowSize, lookaheadSize), data))
  }

  // ---------------------------------------------------------------------------
  // Replay
  // ---------------------------------------------------------------------------

  /**
    `out[i]` with Python's indexing: a negative index counts from the end;
    an index outside the sequence raises IndexError.
   */
  function PyIndex(out: seq<byte>, i: int): (r: Result<byte>)
    ensures r.Ok? <==> -|out| <= i < |out|
    ensures 0 <= i < |out| ==> r == Ok(out[i])
    ensures -|out| <= i < 0 ==> r == Ok(out[|out| + i])
    ensures r.Err? ==> r.error == BadIndex
  {
    if 0 <= i < |out| then Ok(out[i])
    else if -|out| <= i < 0 then Ok(out[|out| + i])
    else Err(BadIndex)
  }

  /**
    `for i in range(length): out.append(out[start + i])` from step `i` on:
    each byte is read after the previous ones have been appended.
   */
  function CopyBack(out: seq<byte>, start: int, i: nat, count: nat): (r: Result<seq<byte>>)
    ensures 0 <= start && i <= count && start + count + i <= |out| ==>
              r == Ok(out + out[start + i..start + count])
    ensures r.Err? ==> r.error == BadIndex
    decreases count - i
  {
    if i >= count then
      assert 0 <= start && i <= count && start + count + i <= |out| ==> out + out[start + i..start + count] == out;
      Ok(out)
    else
      var b :- PyIndex(out, start + i);
      var r := CopyBack(out + [b], start, i + 1, count);
      assert 0 <= start && start + count + i <= |out| ==>
        b == out[start + i] &&
        (out + [b])[start + i + 1..start + count] == out[start + i + 1..start + count] &&
        out + [b] + out[start + i + 1..start + count] == out + out[start + i..start + count];
      r
  }

  /**
    The combined pipeline's copy loop, which appends only while
    `start + i < len(out)`.
   */
  function GuardedCopy(out: seq<byte>, start: int, i: nat, count: nat): (r: Result<seq<byte>>)
    ensures r.Err? ==> r.error == BadIndex
    decreases count - i
  {
    if i >= count then Ok(out)
    else if start + i < |out| then
      var b :- PyIndex(out, start + i);
      GuardedCopy(out + [b], start, i + 1, count)
    else GuardedCopy(out, start, i + 1, count)
  }

  /**
    The guard never fails once the copy starts before the end of the
    output, as it does for every offset of at least 1: each appended byte
    moves the end along with `i`.
   */
  lemma {:induction false} GuardAlwaysHolds(out: seq<byte>, start: int, i: nat, count: nat)
    requires start + i < |out|
    ensures GuardedCopy(out, start, i, count) == CopyBack(out, start, i, count)
    decreases count - i
  {
    if i < count {
      var b := PyIndex(out, start + i);
      if b.Ok? {
        GuardAlwaysHolds(out + [b.value], start, i + 1, count);
      }
    }
  }

  /** The treatment of one token: the back-reference (when `offset > 0`), then a non-zero literal. */
  function ReplayToken(out: seq<byte>, t: Token, guarded: bool): (r: Result<seq<byte>>)
    ensures r.Err? ==> r.error == BadIndex
  {
    var copied :- if t.offset == 0 then Ok(out)
                  else if guarded then GuardedCopy(out, |out| - t.offset, 0, t.length)
                  else CopyBack(out, |out| - t.offset, 0, t.length);
    Ok(if t.literal != 0 then copied + [t.literal] else copied)
  }

  /**
    The reconstruction loop of `decompress` (`guarded` false) and of
    `_lz77_decompress_data` (`guarded` true). A literal 0 is never
    appended.
   */
  function Replay(out: seq<byte>, tokens: seq<Token>, guarded: bool): (r: Result<seq<byte>>)
    ensures r.Err? ==> r.error == BadIndex
    decreases |tokens|
  {
    if |tokens| == 0 then Ok(out)
    else
      var next :- ReplayToken(out, tokens[0], guarded);
      Replay(next, tokens[1..], guarded)
  }

  /** Both reconstruction loops produce the same output. */
  lemma {:induction false} GuardedReplayAgrees(out: seq<byte>, tokens: seq<Token>)
    ensures Replay(out, tokens, true) == Replay(out, tokens, false)
    decreases |tokens|
  {
    if |tokens| > 0 {
      var t := tokens[0];
      if t.offset > 0 && t.length > 0 {
        GuardAlwaysHolds(out, |out| - t.offset, 0, t.length);
      }
      assert ReplayToken(out, t, true) == ReplayToken(out, t, false);
      var next := ReplayToken(out, t, false);
      if next.Ok? {
        GuardedReplayAgrees(next.value, tokens[1..]);
      }
    }
  }

  /** `data` has no zero byte. */
  predicate NoZero(data: seq<byte>) {
    forall i :: 0 <= i < |data| ==> data[i] != 0
  }

  /** How many bytes a token stands for: its match, and its literal unless that is 0. */
  function TokenWidth(t: Token): nat {
    t.length + (if t.literal != 0 then 1 else 0)
  }

  /**
    `tokens` describe `data` from `pos` to its end: each token fits the
    bytes where it stands, and the next one starts where it stops.
   */
  ghost predicate Describes(data: seq<byte>, pos: nat, tokens: seq<Token>)
    decreases |tokens|
  {
    if |tokens| == 0 then pos == |data|
    else TokenFits(data, pos, tokens[0], TokenWidth(tokens[0])) &&
         Describes(data, pos + TokenWidth(tokens[0]), tokens[1..])
  }

  /**
    The tokenising loop describes the data from the cursor on, as long as
    the data has no zero byte and the lookahead holds at least one byte.
   */
  lemma {:induction false} TokenizeDescribes(w: Window)
    requires w.pos <= |w.data| && w.lookaheadSize >= 1 && NoZero(w.data)
    ensures Describes(w.data, w.pos, Tokenize(w))
    decreases |w.data| - w.pos
  {
    if HasMoreData(w) {
      var t, advance, next := StepUnrolled(w);
      TokenizeDescribes(next);
      DescribesCons(w.data, w.pos, t, advance, next.pos, Tokenize(next), Tokenize(w));
    } else {
      assert Tokenize(w) == [];
    }
  }

  /**
    One step of the loop, named: the token `t` it emits fits the data at
    the cursor with advance `advance`, and the loop goes on from `next`,
    the window moved by `advance`.
   */
  lemma StepUnrolled(w: Window) returns (t: Token, advance: nat, next: Window)
    requires w.pos < |w.data| && w.lookaheadSize >= 1
    ensures next == Advance(w, advance) && next.data == w.data && next.pos == w.pos + advance
    ensures advance >= 1 && next.pos <= |next.data|
    ensures Tokenize(w) == [t] + Tokenize(next)
    ensures TokenFits(w.data, w.pos, t, advance)
  {
    t, advance := Step(w).0, Step(w).1;
    next := Advance(w, advance);
    TokenizeStep(w);
    StepInData(w);
  }

  /**
    A token that fits the bytes at `pos`, followed by a description of the
    rest, describes the data from `pos` when the data has no zero byte.
   */
  lemma DescribesCons(data: seq<byte>, pos: nat, t: Token, advance: nat, nextPos: nat, rest: seq<Token>, tokens: seq<Token>)
    requires tokens == [t] + rest && NoZero(data)
    requires TokenFits(data, pos, t, advance) && nextPos == pos + advance && Describes(data, nextPos, rest)
    ensures Describes(data, pos, tokens)
  {
    assert advance == t.length + 1 ==> t.literal != 0;
    assert TokenWidth(t) == advance;
    assert tokens[0] == t && tokens[1..] == rest;
  }

  /** Tokens that describe the data from `pos` on rebuild it after the bytes before `pos`. */
  lemma {:induction false} ReplayDescribed(data: seq<byte>, pos: nat, tokens: seq<Token>)
    requires pos <= |data| && NoZero(data) && Describes(data, pos, tokens)
    ensures Replay(data[..pos], tokens, false) == Ok(data)
    decreases |tokens|
  {
    if |tokens| == 0 {
      assert data[..pos] == data;
    } else {
      var t := tokens[0];
      TokenRebuilds(data, pos, t, TokenWidth(t));
      ReplayDescribed(data, pos + TokenWidth(t), tokens[1..]);
    }
  }

  /** While data remains and the lookahead holds a byte, the loop emits the step's token and goes on. */
  lemma TokenizeStep(w: Window)
    requires w.pos < |w.data| && w.lookaheadSize >= 1
    ensures Tokenize(w) == [Step(w).0] + Tokenize(Advance(w, Step(w).1))
  {
  }

  /** The step's token and advance, described by the data around the cursor. */
  lemma StepInData(w: Window)
    requires w.pos < |w.data| && w.lookaheadSize >= 1
    ensures TokenFits(w.data, w.pos, Step(w).0, Step(w).1)
  {
    MatchInData(w);
    LiteralInData(w);
  }

  /**
    `t` with advance `advance` describes the bytes of `data` at `pos`: a
    back-reference (offset 0 exactly when empty) repeating earlier bytes,
    followed by the next byte as literal, or by no literal (0) when the
    advance is just the match.
   */
  ghost predicate TokenFits(data: seq<byte>, pos: nat, t: Token, advance: nat) {
    (t.offset == 0 <==> t.length == 0) && t.length <= t.offset <= pos &&
    pos + advance <= |data| && (advance == t.length || advance == t.length + 1) &&
    data[pos - t.offset..pos - t.offset + t.length] == data[pos..pos + t.length] &&
    (advance == t.length + 1 ==> t.literal == data[pos + t.length]) &&
    (advance == t.length ==> t.literal == 0)
  }

  /** A token that describes the bytes at `pos` rebuilds them after the bytes before `pos`. */
  lemma TokenRebuilds(data: seq<byte>, pos: nat, t: Token, advance: nat)
    requires TokenFits(data, pos, t, advance) && NoZero(data)
    ensures ReplayToken(data[..pos], t, false) == Ok(data[..pos + advance])
  {
    var copied := data[..pos + t.length];
    if t.offset > 0 {
      CopyInData(data, pos, t.offset, t.length);
    } else {
      assert data[..pos] == copied;
    }
    if advance == t.length + 1 {
      assert t.literal != 0;
      assert copied + [t.literal] == data[..pos + advance];
    }
  }

  /**
    A back-reference `offset` bytes back from `pos` whose `length` bytes
    repeat the ones at `pos` rebuilds the data up to `pos + length`.
   */
  lemma CopyInData(data: seq<byte>, pos: nat, offset: nat, length: nat)
    requires 1 <= offset <= pos && length <= offset && pos + length <= |data|
    requires data[pos - offset..pos - offset + length] == data[pos..pos + length]
    ensures CopyBack(data[..pos], pos - offset, 0, length) == Ok(data[..pos + length])
  {
    var out := data[..pos];
    var start := pos - offset;
    assert out[start..start + length] == data[start..start + length];
    assert out + data[pos..pos + length] == data[..pos + length];
  }

  /** Replaying the tokens of data without zero bytes gives back the data. */
  lemma ReplayRoundTrip(windowSize: nat, lookaheadSize: nat, data: seq<byte>)
    requires lookaheadSize >= 1 && NoZero(data)
    ensures Replay([], CompressTokens(windowSize, lookaheadSize, data), false) == Ok(data)
  {
    var w := AddData(NewWindow(windowSize, lookaheadSize), data);
    TokenizeDescribes(w);
    ReplayDescribed(data, 0, Tokenize(w));
  }

  /** A zero byte is lost: the single byte 0 replays to nothing. */
  lemma ZeroByteIsLost()
    ensures CompressTokens(DefaultWindowSize, DefaultLookaheadSize, [0]) == [Token(0, 0, 0)]
    ensures Replay([], CompressTokens(DefaultWindowSize, DefaultLookaheadSize, [0]), false) == Ok([])
  {
    var w := AddData(NewWindow(DefaultWindowSize, DefaultLookaheadSize), [0]);
    assert SearchBuffer(w) == [];
    assert Lookahead(w) == [0];
    assert FindLongestMatch(DefaultWindowSize, [], [0]) == (0, 0);
    assert Tokenize(Advance(w, 1)) == [];
  }

  // ---------------------------------------------------------------------------
  // Token layout
  // ---------------------------------------------------------------------------

  /** One token as 4 bytes: offset (2 bytes, big-endian), length, literal. */
  function TokenBytes(t: Token): (r: Result<seq<byte>>)
    ensures r.Ok? <==> t.offset < 65536 && t.length < 256
    ensures r.Ok? ==> |r.value| == 4 && FromBigEndian(r.value[..2]) == t.offset &&
                      r.value[2] == t.length && r.value[3] == t.literal
    ensures r.Err? ==> r.error == Overflow
  {
    assert Pow256(2) == 65536 && Pow256(1) == 256;
    var offset :- ToBigEndian(t.offset, 2);
    var length :- ToBigEndian(t.length, 1);
    assert length[..0] == [];
    assert FromBigEndian(length) == length[0];
    var r := offset + length + [t.literal];
    assert r[..2] == offset;
    Ok(r)
  }

  /** Every token fits the 4-byte layout. */
  predicate Fits(tokens: seq<Token>) {
    forall i :: 0 <= i < |tokens| ==> tokens[i].offset < 65536 && tokens[i].length < 256
  }

  /**
    `_serialize_tokens` (and the token loop of `_write_compressed_data`):
    exactly 4 bytes per token, or an error for a field that does not fit.
    The offset's `to_bytes(2, 'big')` raises OverflowError; a length or
    literal above 255 raises OverflowError through `to_bytes(1, 'big')` in
    the token loop but ValueError through `bytearray.append` in
    `_serialize_tokens`, and both are reported here as `Overflow`.
   */
  function SerializeTokens(tokens: seq<Token>): (r: Result<seq<byte>>)
    ensures r.Ok? <==> Fits(tokens)
    ensures r.Ok? ==> |r.value| == 4 * |tokens|
    ensures r.Err? ==> r.error == Overflow
    decreases |tokens|
  {
    if |tokens| == 0 then Ok([])
    else
      var head :- TokenBytes(tokens[0]);
      var rest :- SerializeTokens(tokens[1..]);
      assert Fits(tokens) <==> Fits(tokens[1..]) && TokenBytes(tokens[0]).Ok? by {
        assert forall i :: 1 <= i < |tokens| ==> tokens[i] == tokens[1..][i - 1];
      }
      Ok(head + rest)
  }

  /**
    `_deserialize_tokens` (and the token loop of `decompress`): one token
    per whole group of 4 bytes; a trailing shorter group is ignored.
   */
  function DeserializeTokens(data: seq<byte>): (r: seq<Token>)
    ensures |r| == |data| / 4
    decreases |data|
  {
    if |data| < 4 then []
    else [Token(FromBigEndian(data[..2]), data[2], data[3])] + DeserializeTokens(data[4..])
  }

  /** Serialising and deserialising gives back the tokens. */
  lemma {:induction false} TokensRoundTrip(tokens: seq<Token>)
    requires Fits(tokens)
    ensures SerializeTokens(tokens).Ok?
    ensures DeserializeTokens(SerializeTokens(tokens).value) == tokens
    decreases |tokens|
  {
    if |tokens| > 0 {
      var bytes := SerializeTokens(tokens).value;
      var head := TokenBytes(tokens[0]).value;
      assert Fits(tokens[1..]);
      TokensRoundTrip(tokens[1..]);
      assert bytes == head + SerializeTokens(tokens[1..]).value;
      assert bytes[..2] == head[..2] && bytes[2] == head[2] && bytes[3] == head[3];
      assert bytes[4..] == SerializeTokens(tokens[1..]).value;
    }
  }

  /** Trailing bytes short of a whole token are ignored. */
  lemma {:induction false} TrailingBytesIgnored(data: seq<byte>, extra: seq<byte>)
    requires |data| % 4 == 0 && |extra| < 4
    ensures DeserializeTokens(data + extra) == DeserializeTokens(data)
    decreases |data|
  {
    if |data| == 0 {
      assert data + extra == extra;
    } else {
      assert (data + extra)[..2] == data[..2];
      assert (data + extra)[4..] == data[4..] + extra;
      TrailingBytesIgnored(data[4..], extra);
    }
  }

  // ---------------------------------------------------------------------------
  // File format
  // ---------------------------------------------------------------------------

  /** The magic number and version "LZ77\0\0". */
  const Magic: seq<byte> := [0x4C, 0x5A, 0x37, 0x37, 0, 0]

  /** The header: magic, window size (2 bytes), lookahead size (1 byte), original size (4 bytes). */
  function Header(windowSize: nat, lookaheadSize: nat, size: nat): (r: Result<seq<byte>>)
    ensures r.Ok? <==> windowSize < Pow256(2) && lookaheadSize < Pow256(1) && size < Pow256(4)
    ensures r.Ok? ==> |r.value| == 13 && r.value[..6] == Magic &&
                      FromBigEndian(r.value[6..8]) == windowSize &&
                      FromBigEndian(r.value[8..9]) == lookaheadSize &&
                      FromBigEndian(r.value[9..13]) == size
  {
    var ws :- ToBigEndian(windowSize, 2);
    var la :- ToBigEndian(lookaheadSize, 1);
    var sz :- ToBigEndian(size, 4);
    var h := Magic + ws + la + sz;
    assert h[6..8] == ws && h[8..9] == la && h[9..13] == sz;
    Ok(h)
  }

  /**
    `compress`: the header with all fields 0 for empty data; otherwise the
    header with the parameters and the size, then the tokens. Parameters
    that fit the header give tokens that fit their layout, so only the
    header can overflow.
   */
  function Compress(windowSize: nat, lookaheadSize: nat, data: seq<byte>): (r: Result<seq<byte>>)
    ensures |data| == 0 ==> r == Header(0, 0, 0)
    ensures |data| > 0 ==> (r.Ok? <==> windowSize < 65536 && lookaheadSize < 256 && |data| < Pow256(4))
    ensures |data| > 0 && r.Ok? ==>
      |r.value| == 13 + 4 * |CompressTokens(windowSize, lookaheadSize, data)| &&
      FromBigEndian(r.value[9..13]) == |data|
  {
    if |data| == 0 then Header(0, 0, 0)
    else
      var tokens := CompressTokens(windowSize, lookaheadSize, data);
      var header :- Header(windowSize, lookaheadSize, |data|);
      Ok(header + SerializeTokens(tokens).value)
  }

  /**
    `decompress`: a wrong magic number is rejected; the parameters are read
    and ignored; a size of 0 gives empty output; otherwise the tokens (up to
    the last whole group) are replayed. A short header field reads as the
    value of the bytes present.
   */
  function Decompress(file: seq<byte>): (r: Result<seq<byte>>)
    ensures (|file| < 6 || file[..6] != Magic) <==> r == Err(BadMagic)
    ensures |file| >= 13 && file[..6] == Magic ==>
      r == if FromBigEndian(file[9..13]) == 0 then Ok([])
           else Replay([], DeserializeTokens(file[13..]), false)
    ensures 6 <= |file| < 13 && file[..6] == Magic ==> r == Ok([])
  {
    var (magic, p1) := Read(file, 0, 6);
    if magic != Magic then Err(BadMagic)
    else
      var (_, p2) := Read(file, p1, 2);
      var (_, p3) := Read(file, p2, 1);
      var (sizeField, p4) := Read(file, p3, 4);
      if FromBigEndian(sizeField) == 0 then Ok([])
      else Replay([], DeserializeTokens(file[p4..]), false)
  }

  /**
    Decompressing what `compress` wrote gives back data that contains no
    zero byte, with a lookahead of at least one byte.
   */
  lemma RoundTrip(windowSize: nat, lookaheadSize: nat, data: seq<byte>)
    requires Compress(windowSize, lookaheadSize, data).Ok?
    requires lookaheadSize >= 1 && NoZero(data)
    ensures Decompress(Compress(windowSize, lookaheadSize, data).value) == Ok(data)
  {
    var file := Compress(windowSize, lookaheadSize, data).value;
    if |data| == 0 {
      DigitsRoundTrip(0, 4);
    } else {
      var tokens := CompressTokens(windowSize, lookaheadSize, data);
      var header := Header(windowSize, lookaheadSize, |data|).value;
      var body := SerializeTokens(tokens).value;
      assert file == header + body;
      assert file[..6] == Magic && file[9..13] == header[9..13] && file[13..] == body;
      TokensRoundTrip(tokens);
      ReplayRoundTrip(windowSize, lookaheadSize, data);
    }
  }
}
