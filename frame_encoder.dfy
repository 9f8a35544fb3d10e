/**
 * The byte-to-frame encoder of `app.py`: a payload is cut into consecutive
 * chunks of width*height*3 bytes, the last one padded with zero bytes, and each
 * chunk is read as a height x width image of RGB pixels, row by row.
 */
module FrameEncoder {
  import opened Results

  /** numpy's `uint8`. */
  type Byte = bv8

  /** Bytes per pixel, and the index of each channel within a pixel. */
  const CHANNELS: nat := 3
  const RED: nat := 0
  const GREEN: nat := 1
  const BLUE: nat := 2

  /** `range(0, len(data), 0)` raises `ValueError`: a frame of no bytes cannot be stepped over. */
  datatype EncodeError = ZeroFrameSize

  function FrameSize(width: nat, height: nat): nat {
    width * height * CHANNELS
  }

  /** `bytes(n)`. */
  function Zeros(n: nat): (z: seq<Byte>)
    ensures |z| == n && forall i :: 0 <= i < n ==> z[i] == 0
  {
    seq(n, _ => 0)
  }

  /** The payload byte at offset `j`, or the zero padding past its end. */
  function ByteAt(data: seq<Byte>, j: nat): Byte {
    if j < |data| then data[j] else 0
  }

  lemma MulMono(a: nat, b: nat, c: nat)
    requires a <= b
    ensures a * c <= b * c
  {
    assert b * c == a * c + (b - a) * c;
  }

  /** Division and remainder are determined by the equation they satisfy. */
  lemma DivModUnique(x: nat, d: nat, q: nat, r: nat)
    requires d > 0 && r < d && x == q * d + r
    ensures x / d == q && x % d == r
  {
    var q', r' := x / d, x % d;
    assert x == q' * d + r';
    if q' < q {
      MulMono(q' + 1, q, d);
      assert false;
    } else if q < q' {
      MulMono(q + 1, q', d);
      assert false;
    }
  }

  lemma NextOffset(n: nat, frameSize: nat)
    ensures (n + 1) * frameSize == n * frameSize + frameSize
  {
  }

  /** `max(1, ceil(len / frameSize))`: the fewest frames, at least one, that hold `len` bytes. */
  function FrameCount(len: nat, frameSize: nat): (n: nat)
    requires frameSize > 0
    ensures n >= 1
    ensures len <= n * frameSize
    ensures n == 1 || (n - 1) * frameSize < len
  {
    var x := len + frameSize - 1;
    var c := x / frameSize;
    assert x == c * frameSize + x % frameSize;
    if c < 1 then 1
    else
      assert (c - 1) * frameSize == c * frameSize - frameSize;
      c
  }

  /** The three facts `FrameCount` ensures pin the count down. */
  lemma FrameCountUnique(len: nat, frameSize: nat, n: nat)
    requires frameSize > 0 && n >= 1
    requires len <= n * frameSize
    requires n == 1 || n * frameSize - frameSize < len
    ensures FrameCount(len, frameSize) == n
  {
    NextOffset(n - 1, frameSize);
    var m := FrameCount(len, frameSize);
    if m < n {
      MulMono(m, n - 1, frameSize);
    } else if n < m {
      MulMono(n, m - 1, frameSize);
    }
  }

  /** The frames concatenated, as the video's byte stream. */
  function Flatten(frames: seq<seq<Byte>>): seq<Byte> {
    if frames == [] then [] else frames[0] + Flatten(frames[1..])
  }

  lemma {:induction false} FlattenAppend(frames: seq<seq<Byte>>, frame: seq<Byte>)
    ensures Flatten(frames + [frame]) == Flatten(frames) + frame
  {
    if frames == [] {
      assert frames + [frame] == [frame];
    } else {
      assert (frames + [frame])[1..] == frames[1..] + [frame];
      FlattenAppend(frames[1..], frame);
    }
  }

  lemma {:induction false} FlattenLength(frames: seq<seq<Byte>>, frameSize: nat)
    requires forall k :: 0 <= k < |frames| ==> |frames[k]| == frameSize
    ensures |Flatten(frames)| == |frames| * frameSize
  {
    if frames != [] {
      FlattenLength(frames[1..], frameSize);
      assert |frames| * frameSize == frameSize + (|frames| - 1) * frameSize;
    }
  }

  lemma {:induction false} FlattenAt(frames: seq<seq<Byte>>, frameSize: nat, k: nat, i: nat)
    requires forall j :: 0 <= j < |frames| ==> |frames[j]| == frameSize
    requires k < |frames| && i < frameSize
    ensures k * frameSize + i < |Flatten(frames)|
    ensures Flatten(frames)[k * frameSize + i] == frames[k][i]
  {
    FlattenLength(frames, frameSize);
    MulMono(k + 1, |frames|, frameSize);
    if k > 0 {
      FlattenAt(frames[1..], frameSize, k - 1, i);
      assert k * frameSize + i == frameSize + ((k - 1) * frameSize + i);
    }
  }

  /** The first `n` bytes of the payload followed by endless zeros. */
  function Padded(data: seq<Byte>, n: nat): (p: seq<Byte>)
    ensures |p| == n
  {
    seq(n, j requires 0 <= j < n => ByteAt(data, j))
  }

  lemma PaddedPastEnd(data: seq<Byte>, n: nat)
    requires |data| <= n
    ensures Padded(data, n) == data + Zeros(n - |data|)
  {
  }

  /**
   * `frames` is what `bytes_to_frames` returns for `data` at this frame size:
   * the fewest frames, at least one, each of exactly `frameSize` bytes, whose
   * concatenation is the payload followed by zero padding (`RoundTrip`).
   */
  predicate IsEncodingOf(frames: seq<seq<Byte>>, data: seq<Byte>, frameSize: nat) {
    && frameSize > 0
    && |frames| == FrameCount(|data|, frameSize)
    && (forall k :: 0 <= k < |frames| ==> |frames[k]| == frameSize)
    && Flatten(frames) == Padded(data, |frames| * frameSize)
  }

  /**
   * The chunk `bytes_to_frames` cuts at `offset`, padded to a whole frame,
   * extends the padded stream the earlier frames make by one frame.
   */
  lemma AppendChunk(frames: seq<seq<Byte>>, data: seq<Byte>, frameSize: nat, offset: nat, end: nat, chunk: seq<Byte>)
    requires offset == |frames| * frameSize && offset < |data|
    requires end == if offset + frameSize <= |data| then offset + frameSize else |data|
    requires chunk == data[offset..end] + Zeros(frameSize - (end - offset))
    requires Flatten(frames) == Padded(data, offset)
    ensures |chunk| == frameSize
    ensures Flatten(frames + [chunk]) == Padded(data, offset + frameSize)
    ensures offset + frameSize == |frames + [chunk]| * frameSize
  {
    FlattenAppend(frames, chunk);
    assert Padded(data, offset) + chunk == Padded(data, offset + frameSize);
    NextOffset(|frames|, frameSize);
  }

  /** `bytes_to_frames(data, width, height)`, each frame kept flat (numpy's reshape is `Pixel` below). */
  method BytesToFrames(data: seq<Byte>, width: nat, height: nat)
    returns (r: Result<seq<seq<Byte>>, EncodeError>)
    ensures r.Err? <==> FrameSize(width, height) == 0
    ensures r.Ok? ==> IsEncodingOf(r.value, data, FrameSize(width, height))
  {
    var frameSize := width * height * 3;
    if frameSize == 0 {
      return Err(ZeroFrameSize);
    }
    var frames: seq<seq<Byte>> := [];
    var offset := 0;
    while offset < |data|
      invariant offset == |frames| * frameSize
      invariant frames == [] || offset - frameSize < |data|
      invariant forall k :: 0 <= k < |frames| ==> |frames[k]| == frameSize
      invariant Flatten(frames) == Padded(data, offset)
      decreases |data| - offset
    {
      var end := if offset + frameSize <= |data| then offset + frameSize else |data|;
      var chunk := data[offset..end];
      if |chunk| < frameSize {
        chunk := chunk + Zeros(frameSize - |chunk|);
      }
      assert chunk == data[offset..end] + Zeros(frameSize - (end - offset));
      AppendChunk(frames, data, frameSize, offset, end, chunk);
      frames := frames + [chunk];
      offset := offset + frameSize;
    }
    if frames == [] {
      assert Flatten([Zeros(frameSize)]) == Zeros(frameSize) + Flatten([]);
      frames := frames + [Zeros(frameSize)];
    }
    FrameCountUnique(|data|, frameSize, |frames|);
    return Ok(frames);
  }

  /** Reading the frames back gives the payload, then only zero padding, less than one frame of it. */
  lemma RoundTrip(frames: seq<seq<Byte>>, data: seq<Byte>, frameSize: nat)
    requires IsEncodingOf(frames, data, frameSize)
    ensures |data| <= |Flatten(frames)|
    ensures Flatten(frames) == data + Zeros(|Flatten(frames)| - |data|)
    ensures data != [] ==> |Flatten(frames)| - |data| < frameSize
  {
    PaddedPastEnd(data, |frames| * frameSize);
    NextOffset(|frames| - 1, frameSize);
  }

  /** Byte i of frame k is payload byte k*frameSize + i, or zero past the end of the payload. */
  lemma FrameBytes(frames: seq<seq<Byte>>, data: seq<Byte>, frameSize: nat, k: nat, i: nat)
    requires IsEncodingOf(frames, data, frameSize)
    requires k < |frames| && i < frameSize
    ensures frames[k][i] == ByteAt(data, k * frameSize + i)
  {
    FlattenAt(frames, frameSize, k, i);
  }

  /** Two encodings of the same payload at the same frame size are identical. */
  lemma EncodingDeterministic(f1: seq<seq<Byte>>, f2: seq<seq<Byte>>, data: seq<Byte>, frameSize: nat)
    requires IsEncodingOf(f1, data, frameSize) && IsEncodingOf(f2, data, frameSize)
    ensures f1 == f2
  {
    forall k | 0 <= k < |f1|
      ensures f1[k] == f2[k]
    {
      forall i | 0 <= i < frameSize
        ensures f1[k][i] == f2[k][i]
      {
        FrameBytes(f1, data, frameSize, k, i);
        FrameBytes(f2, data, frameSize, k, i);
      }
    }
  }

  /** An empty payload gives exactly one frame, all of it zero. */
  lemma EmptyPayload(frames: seq<seq<Byte>>, frameSize: nat)
    requires IsEncodingOf(frames, [], frameSize)
    ensures |frames| == 1
    ensures forall i :: 0 <= i < frameSize ==> frames[0][i] == 0
  {
    var n := |frames|;
    if n != 1 {
      MulMono(0, n - 1, frameSize);
    }
    forall i | 0 <= i < frameSize
      ensures frames[0][i] == 0
    {
      FrameBytes(frames, [], frameSize, 0, i);
    }
  }

  /** `len % frameSize`: the bytes left over after the full frames. */
  function Leftover(len: nat, frameSize: nat): (r: nat)
    requires frameSize > 0
    ensures r < frameSize && r <= len
  {
    len % frameSize
  }

  /** Where the last frame starts in the payload. */
  lemma LastFrameStart(frames: seq<seq<Byte>>, data: seq<Byte>, frameSize: nat)
    requires IsEncodingOf(frames, data, frameSize) && |data| > 0
    ensures var r := Leftover(|data|, frameSize);
      (|frames| - 1) * frameSize == if r == 0 then |data| - frameSize else |data| - r
  {
    var q, r := |data| / frameSize, |data| % frameSize;
    assert |data| == q * frameSize + r;
    if r == 0 {
      assert q >= 1;
      assert (q - 1) * frameSize == q * frameSize - frameSize;
      FrameCountUnique(|data|, frameSize, q);
    } else {
      assert (q + 1) * frameSize == q * frameSize + frameSize;
      FrameCountUnique(|data|, frameSize, q + 1);
    }
  }

  /**
   * When the payload does not fill the last frame, that frame holds the
   * payload's last `Leftover(|data|, frameSize)` bytes and then zeros.
   */
  lemma LastFramePadding(frames: seq<seq<Byte>>, data: seq<Byte>, frameSize: nat)
    requires IsEncodingOf(frames, data, frameSize)
    requires Leftover(|data|, frameSize) != 0
    ensures var r, last := Leftover(|data|, frameSize), frames[|frames| - 1];
      && (forall i :: 0 <= i < r ==> last[i] == data[|data| - r + i])
      && (forall i :: r <= i < frameSize ==> last[i] == 0)
  {
    LastFrameStart(frames, data, frameSize);
    LastFrameTail(frames, data, frameSize, Leftover(|data|, frameSize));
  }

  /** A last frame that starts `r` bytes before the payload's end holds those bytes, then zeros. */
  lemma LastFrameTail(frames: seq<seq<Byte>>, data: seq<Byte>, frameSize: nat, r: nat)
    requires IsEncodingOf(frames, data, frameSize)
    requires r <= |data| && (|frames| - 1) * frameSize == |data| - r
    ensures var last := frames[|frames| - 1];
      && (forall i :: 0 <= i < r ==> last[i] == data[|data| - r + i])
      && (forall i :: r <= i < frameSize ==> last[i] == 0)
  {
    var last := frames[|frames| - 1];
    forall i | 0 <= i < frameSize
      ensures last[i] == ByteAt(data, |data| - r + i)
    {
      FrameBytes(frames, data, frameSize, |frames| - 1, i);
    }
  }

  /** When the payload fills its frames exactly, the last frame is its last `frameSize` bytes, no padding. */
  lemma ExactMultipleNoPadding(frames: seq<seq<Byte>>, data: seq<Byte>, frameSize: nat)
    requires IsEncodingOf(frames, data, frameSize)
    requires |data| > 0 && Leftover(|data|, frameSize) == 0
    ensures frames[|frames| - 1] == data[|data| - frameSize..]
  {
    LastFrameStart(frames, data, frameSize);
    LastFrameTail(frames, data, frameSize, frameSize);
    assert frames[|frames| - 1] == data[|data| - frameSize..];
  }

  /** The offset within a frame of channel `ch` of the pixel at `row`, `col`: row-major, RGB. */
  function PixelOffset(width: nat, row: nat, col: nat, ch: nat): nat {
    row * (width * CHANNELS) + col * CHANNELS + ch
  }

  /** Every pixel of a height x width image lies inside its frame. */
  lemma PixelInFrame(width: nat, height: nat, row: nat, col: nat, ch: nat)
    requires row < height && col < width && ch < CHANNELS
    ensures PixelOffset(width, row, col, ch) < FrameSize(width, height)
  {
    MulMono(row + 1, height, width * CHANNELS);
    assert FrameSize(width, height) == height * (width * CHANNELS);
  }

  /** Reading the coordinates back from a pixel's offset. */
  lemma DecodeOffset(width: nat, row: nat, col: nat, ch: nat)
    requires col < width && ch < CHANNELS
    ensures var b, w3 := PixelOffset(width, row, col, ch), width * CHANNELS;
      b / w3 == row && (b % w3) / CHANNELS == col && b % CHANNELS == ch
  {
    var w3 := width * CHANNELS;
    var inRow := col * CHANNELS + ch;
    var b := row * w3 + inRow;
    assert inRow < w3 by {
      MulMono(col + 1, width, CHANNELS);
    }
    DivModUnique(b, w3, row, inRow);
    DivModUnique(inRow, CHANNELS, col, ch);
    assert b == (row * width + col) * CHANNELS + ch;
    DivModUnique(b, CHANNELS, row * width + col, ch);
  }

  /** Every offset is the offset of the pixel its coordinates name. */
  lemma EncodeOffset(width: nat, b: nat)
    requires width > 0
    ensures var w3 := width * CHANNELS;
      var row, col, ch := b / w3, (b % w3) / CHANNELS, b % CHANNELS;
      col < width && PixelOffset(width, row, col, ch) == b
  {
    var w3 := width * CHANNELS;
    var row, m := b / w3, b % w3;
    var col, ch := m / CHANNELS, m % CHANNELS;
    assert b == row * w3 + m;
    assert m == col * CHANNELS + ch;
    assert b == (row * width + col) * CHANNELS + ch;
    DivModUnique(b, CHANNELS, row * width + col, ch);
  }

  /**
   * Byte offset b of a frame is channel b % 3 of the pixel at row b / (width*3),
   * column (b % (width*3)) / 3, and of no other pixel: the layout is a bijection.
   */
  lemma PixelCoordinates(width: nat, b: nat, row: nat, col: nat, ch: nat)
    requires col < width && ch < CHANNELS
    ensures PixelOffset(width, row, col, ch) == b <==>
      row == b / (width * CHANNELS) && col == (b % (width * CHANNELS)) / CHANNELS && ch == b % CHANNELS
  {
    DecodeOffset(width, row, col, ch);
    EncodeOffset(width, b);
  }

  /** numpy's `frame[row, col, ch]` after `reshape((height, width, 3))`. */
  function Pixel(frame: seq<Byte>, width: nat, height: nat, row: nat, col: nat, ch: nat): (b: Byte)
    requires |frame| == FrameSize(width, height)
    requires row < height && col < width && ch < CHANNELS
    ensures (row * width + col) * CHANNELS + ch < |frame|
    ensures b == frame[(row * width + col) * CHANNELS + ch]
  {
    PixelInFrame(width, height, row, col, ch);
    assert (row * width + col) * CHANNELS == (row * width) * CHANNELS + col * CHANNELS;
    assert (row * width) * CHANNELS == row * (width * CHANNELS);
    frame[PixelOffset(width, row, col, ch)]
  }

  /**
   * Channel ch (0 red, 1 green, 2 blue) of the pixel at row, col of frame k is
   * payload byte k*FrameSize + row*(width*3) + col*3 + ch, or zero past the payload.
   */
  lemma PixelLayout(frames: seq<seq<Byte>>, data: seq<Byte>, width: nat, height: nat,
                    k: nat, row: nat, col: nat, ch: nat)
    requires IsEncodingOf(frames, data, FrameSize(width, height))
    requires k < |frames| && row < height && col < width && ch < CHANNELS
    ensures |frames[k]| == FrameSize(width, height)
    ensures Pixel(frames[k], width, height, row, col, ch)
         == ByteAt(data, k * FrameSize(width, height) + PixelOffset(width, row, col, ch))
  {
    PixelInFrame(width, height, row, col, ch);
    FrameBytes(frames, data, FrameSize(width, height), k, PixelOffset(width, row, col, ch));
  }

  /**
   * The three channels of a pixel are three consecutive payload bytes, red
   * first, then green, then blue.
   */
  lemma PixelChannels(frames: seq<seq<Byte>>, data: seq<Byte>, width: nat, height: nat,
                      k: nat, row: nat, col: nat)
    requires IsEncodingOf(frames, data, FrameSize(width, height))
    requires k < |frames| && row < height && col < width
    ensures |frames[k]| == FrameSize(width, height)
    ensures var start := k * FrameSize(width, height) + PixelOffset(width, row, col, RED);
      && Pixel(frames[k], width, height, row, col, RED) == ByteAt(data, start)
      && Pixel(frames[k], width, height, row, col, GREEN) == ByteAt(data, start + 1)
      && Pixel(frames[k], width, height, row, col, BLUE) == ByteAt(data, start + 2)
  {
    PixelLayout(frames, data, width, height, k, row, col, RED);
    PixelLayout(frames, data, width, height, k, row, col, GREEN);
    PixelLayout(frames, data, width, height, k, row, col, BLUE);
  }
}
