/** Pixel buffers as the receiver hands them around: a frame is a height x width x channels
    array of bytes, written here as nested sequences (row, column, channel). */
module Frames {

  newtype byte = x: int | 0 <= x < 256

  /** One image: frame[row][column][channel]. */
  type Frame = seq<seq<seq<byte>>>

  /** Height of the blank frame sent before any video has arrived. */
  const BlankHeight: nat := 480
  /** Width of the blank frame sent before any video has arrived. */
  const BlankWidth: nat := 640

  /** `f` is a dense h x w x c array, as a numpy array of that shape is. */
  ghost predicate HasShape(f: Frame, h: nat, w: nat, c: nat) {
    |f| == h &&
    (forall i :: 0 <= i < h ==> |f[i]| == w) &&
    (forall i, j :: 0 <= i < h && 0 <= j < w ==> |f[i][j]| == c)
  }

  /** Every pixel of `f` has a channel at index 3 that can be deleted. */
  ghost predicate HasAlphaSlot(f: Frame) {
    forall i, j :: 0 <= i < |f| && 0 <= j < |f[i]| ==> |f[i][j]| >= 4
  }

  /** `np.delete(pixel, 3)`: the channel at index 3 is removed, the others keep their order. */
  function DropChannel3(p: seq<byte>): (q: seq<byte>)
    requires |p| >= 4
    ensures |q| == |p| - 1
    ensures forall c :: 0 <= c < 3 ==> q[c] == p[c]
    ensures forall c :: 3 <= c < |q| ==> q[c] == p[c + 1]
  {
    p[..3] + p[4..]
  }

  /** `np.delete(frame, 3, axis=2)` on a copy of the captured buffer: every pixel loses its
      channel 3 (the alpha or padding byte of BGRA / BGRX), rows and columns are unchanged. */
  function StripAlpha(f: Frame): (g: Frame)
    requires HasAlphaSlot(f)
    ensures |g| == |f|
    ensures forall i :: 0 <= i < |f| ==> |g[i]| == |f[i]|
    ensures forall i, j :: 0 <= i < |f| && 0 <= j < |f[i]| ==> |g[i][j]| == |f[i][j]| - 1
    ensures forall i, j, c :: 0 <= i < |f| && 0 <= j < |f[i]| && 0 <= c < 3 ==> g[i][j][c] == f[i][j][c]
    ensures forall i, j, c :: 0 <= i < |f| && 0 <= j < |f[i]| && 3 <= c < |g[i][j]| ==> g[i][j][c] == f[i][j][c + 1]
  {
    seq(|f|, i requires 0 <= i < |f| =>
      seq(|f[i]|, j requires 0 <= j < |f[i]| && |f[i][j]| >= 4 => DropChannel3(f[i][j])))
  }

  /** A BGRX / BGRA frame of h x w pixels becomes a BGR frame of the same h x w pixels whose
      three colour channels are exactly the captured ones. */
  lemma StripAlphaBgrx(f: Frame, h: nat, w: nat)
    requires HasShape(f, h, w, 4)
    ensures HasShape(StripAlpha(f), h, w, 3)
    ensures forall i, j :: 0 <= i < h && 0 <= j < w ==> StripAlpha(f)[i][j] == f[i][j][..3]
  {
  }

  /** `np.zeros((480, 640, 3), dtype=np.uint8)`. */
  function BlankFrame(): (f: Frame)
    ensures HasShape(f, BlankHeight, BlankWidth, 3)
    ensures forall i, j, c :: 0 <= i < |f| && 0 <= j < |f[i]| && 0 <= c < |f[i][j]| ==> f[i][j][c] == 0
  {
    seq(BlankHeight, i => seq(BlankWidth, j => [0, 0, 0]))
  }
}
