/**
  The LZ77 token record and the sliding window over the input
  (`LZ77Token`, `SlidingWindow`).

  The window is immutable here: `AddData` and `Advance` return the updated
  window instead of changing it in place.
 */
module Lz77Models {
  import opened Bytes

  /**
    A back-reference `length` bytes long starting `offset` bytes back,
    followed by the byte `literal` (0 when there is none).
   */
  datatype Token = Token(offset: nat, length: nat, literal: byte)

  /**
    The whole input seen so far, the cursor `pos`, and the two sizes the
    buffers are cut to.
   */
  datatype Window = Window(windowSize: nat, lookaheadSize: nat, data: seq<byte>, pos: nat)

  /** `SlidingWindow(window_size, lookahead_size)`: no data, cursor at 0. */
  function NewWindow(windowSize: nat, lookaheadSize: nat): (w: Window)
    ensures w.data == [] && w.pos == 0
    ensures w.windowSize == windowSize && w.lookaheadSize == lookaheadSize
  {
    Window(windowSize, lookaheadSize, [], 0)
  }

  /** `add_data`: the bytes are appended; the cursor and the sizes stay. */
  function AddData(w: Window, more: seq<byte>): (r: Window)
    ensures r.data == w.data + more
    ensures r.pos == w.pos && r.windowSize == w.windowSize && r.lookaheadSize == w.lookaheadSize
  {
    w.(data := w.data + more)
  }

  /** `get_lookahead_buffer`: up to `lookaheadSize` bytes from the cursor on. */
  function Lookahead(w: Window): (r: seq<byte>)
    ensures |r| <= w.lookaheadSize
    ensures w.pos <= |w.data| ==> r == w.data[w.pos..Min(w.pos + w.lookaheadSize, |w.data|)]
    ensures w.pos <= |w.data| ==> (|r| == 0 <==> w.lookaheadSize == 0 || w.pos == |w.data|)
  {
    Slice(w.data, w.pos, w.pos + w.lookaheadSize)
  }

  /** `get_search_buffer`: up to `windowSize` bytes just before the cursor. */
  function SearchBuffer(w: Window): (r: seq<byte>)
    ensures |r| <= Min(w.windowSize, w.pos)
    ensures w.pos <= |w.data| ==> r == w.data[Max(0, w.pos - w.windowSize)..w.pos]
  {
    Slice(w.data, Max(0, w.pos - w.windowSize), w.pos)
  }

  /** The search buffer ends exactly where the lookahead buffer begins. */
  lemma Contiguous(w: Window)
    requires w.pos <= |w.data|
    ensures SearchBuffer(w) + Lookahead(w) ==
            w.data[Max(0, w.pos - w.windowSize)..Min(w.pos + w.lookaheadSize, |w.data|)]
  {
    var lo, hi := Max(0, w.pos - w.windowSize), Min(w.pos + w.lookaheadSize, |w.data|);
    assert w.data[lo..hi] == w.data[lo..w.pos] + w.data[w.pos..hi];
  }

  /** `advance(n)`: the cursor moves `n` bytes; nothing else changes. */
  function Advance(w: Window, n: nat): (r: Window)
    ensures r.pos == w.pos + n
    ensures r.data == w.data && r.windowSize == w.windowSize && r.lookaheadSize == w.lookaheadSize
  {
    w.(pos := w.pos + n)
  }

  /** `has_more_data`: the cursor has not reached the end of the data. */
  predicate HasMoreData(w: Window) {
    w.pos < |w.data|
  }
}
