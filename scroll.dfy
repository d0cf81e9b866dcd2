/** The timeline of `update_marquee`: the text enters at the right edge and
    moves 5 pixels left per frame until it has fully left the screen; a
    counter flips the blink toggle every 30 frames. */
module Scroll {

  import opened Glyphs

  /** Pixels the text moves left per frame. */
  const Step: int := 5

  /** Frames between two flips of the blink toggle. */
  const BlinkPeriod: int := 30

  /** One drawn frame: the text's left edge, the blink toggle in force, and
      which of the text's glyphs are drawn. */
  datatype Frame = Frame(x: int, blinkOn: bool, visible: seq<bool>)

  /** The blink toggle after `n` frames, starting from `b0` with the counter
      at zero: it has flipped once per 30 frames. */
  function BlinkAfter(b0: bool, n: nat): bool
  {
    if (n / BlinkPeriod) % 2 == 0 then b0 else !b0
  }

  /** The number of frames drawn for a screen `width` wide and a text
      `textWidth` wide: the smallest `n` with `width - 5 * n <= -(textWidth as int)`,
      i.e. the ceiling of (width + textWidth) / 5. */
  function FrameCount(width: int, textWidth: nat): (n: nat)
  {
    if width + textWidth <= 0 then 0 else (width + textWidth + Step - 1) / Step
  }

  /** Frame `f` is drawn exactly when the text is not yet off screen at it. */
  lemma FrameCountExact(width: int, textWidth: nat, f: nat)
    ensures f < FrameCount(width, textWidth) <==> width - Step * f > -(textWidth as int)
  {
    var d := width + textWidth;
    if d > 0 {
      var q := (d + Step - 1) / Step;
      assert Step * q <= d + Step - 1 < Step * q + Step;
    }
  }

  /** The frames `update_marquee` draws, in order, when nothing interrupts
      it: frame `i` has its left edge at `width - 5 * i`, the toggle as it
      stands after `i + 1` counter increments, and the glyph mask for it. */
  function Timeline(width: int, textWidth: nat, text: string, mode: int, b0: bool): (frames: seq<Frame>)
    ensures |frames| == FrameCount(width, textWidth)
  {
    seq(FrameCount(width, textWidth), i requires 0 <= i =>
      Frame(width - Step * i, BlinkAfter(b0, i + 1), VisibleMask(text, mode, BlinkAfter(b0, i + 1))))
  }

  /** No frame has the text wholly past the left edge and, after the last
      one, it is; with nothing to scroll no frame is drawn. (Frame 0 sits at
      the window's right edge, so it shows nothing of the text.) */
  lemma TimelineEndsOffscreen(width: int, textWidth: nat, text: string, mode: int, b0: bool)
    ensures forall i :: 0 <= i < |Timeline(width, textWidth, text, mode, b0)| ==>
      Timeline(width, textWidth, text, mode, b0)[i].x > -(textWidth as int)
    ensures |Timeline(width, textWidth, text, mode, b0)| == 0 <==> width <= -(textWidth as int)
    ensures |Timeline(width, textWidth, text, mode, b0)| > 0 ==>
      Timeline(width, textWidth, text, mode, b0)[|Timeline(width, textWidth, text, mode, b0)| - 1].x - Step <= -(textWidth as int)
  {
    var frames := Timeline(width, textWidth, text, mode, b0);
    var n := |frames|;
    forall i | 0 <= i < n ensures frames[i].x > -(textWidth as int) {
      FrameCountExact(width, textWidth, i);
    }
    FrameCountExact(width, textWidth, 0);
    FrameCountExact(width, textWidth, n);
  }

  /** The toggle changes between frame `i - 1` and frame `i` exactly when the
      counter reaches 30 on frame `i`. */
  lemma BlinkCadence(b0: bool, i: nat)
    ensures BlinkAfter(b0, i + 1) != BlinkAfter(b0, i) <==> (i + 1) % BlinkPeriod == 0
  {
    var q := i / BlinkPeriod;
    assert i == BlinkPeriod * q + i % BlinkPeriod;
    if (i + 1) % BlinkPeriod == 0 {
      assert i % BlinkPeriod == BlinkPeriod - 1;
      assert (i + 1) / BlinkPeriod == q + 1;
    } else {
      assert i % BlinkPeriod < BlinkPeriod - 1;
      assert (i + 1) / BlinkPeriod == q;
    }
  }
}
