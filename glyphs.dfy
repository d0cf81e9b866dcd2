/** Per-glyph blink visibility: how the text is cut into glyphs (a character
    together with a following U+FE0F variation selector), which glyphs count
    as emoji, and which glyphs a frame draws in each blink mode. */
module Glyphs {

  const VariationSelector: char := '\U{FE0F}'

  /** The glyphs of `text`, front to back: a character followed by U+FE0F
      forms one two-character glyph, any other character is a glyph of its
      own. This is the reference the grouping loop is proved against. */
  function Glyphs(text: string): (groups: seq<string>)
    decreases |text|
  {
    if |text| == 0 then []
    else if |text| >= 2 && text[1] == VariationSelector then [text[..2]] + Glyphs(text[2..])
    else [text[..1]] + Glyphs(text[1..])
  }

  function Concat(groups: seq<string>): string
  {
    if groups == [] then "" else groups[0] + Concat(groups[1..])
  }

  /** A glyph is one character, or a character followed by U+FE0F. */
  predicate WellFormedGlyph(g: string)
  {
    |g| == 1 || (|g| == 2 && g[1] == VariationSelector)
  }

  /** The pairing is greedy: a one-character glyph is never followed by a
      glyph that starts with U+FE0F. */
  predicate Greedy(groups: seq<string>)
  {
    forall k :: 0 <= k < |groups| - 1 && |groups[k]| == 1 ==>
      |groups[k + 1]| == 0 || groups[k + 1][0] != VariationSelector
  }

  /** The glyphs concatenate back to the text, each is well formed, and the
      pairing is greedy. */
  lemma {:induction false} GlyphsSound(text: string)
    ensures Concat(Glyphs(text)) == text
    ensures forall k :: 0 <= k < |Glyphs(text)| ==> WellFormedGlyph(Glyphs(text)[k])
    ensures Greedy(Glyphs(text))
    decreases |text|
  {
    var gs := Glyphs(text);
    if |text| >= 2 && text[1] == VariationSelector {
      GlyphsSound(text[2..]);
      assert gs[1..] == Glyphs(text[2..]);
      assert text == text[..2] + text[2..];
    } else if |text| > 0 {
      GlyphsSound(text[1..]);
      assert gs[1..] == Glyphs(text[1..]);
      assert text == text[..1] + text[1..];
      if |gs| > 1 {
        assert Concat(gs[1..]) == text[1..];
        assert gs[1][0] == text[1];
      }
    }
  }

  /** Those three properties determine the grouping: any other cut of the
      text into well-formed, greedily paired glyphs is the same cut. */
  lemma {:induction false} GlyphsUnique(text: string, groups: seq<string>)
    requires forall k :: 0 <= k < |groups| ==> WellFormedGlyph(groups[k])
    requires Greedy(groups)
    requires Concat(groups) == text
    ensures groups == Glyphs(text)
    decreases |text|
  {
    if groups != [] {
      var rest := groups[1..];
      var g := groups[0];
      assert text == g + Concat(rest);
      assert forall k :: 0 <= k < |rest| ==> WellFormedGlyph(rest[k]) by {
        forall k | 0 <= k < |rest| ensures WellFormedGlyph(rest[k]) {
          assert rest[k] == groups[k + 1];
        }
      }
      assert Greedy(rest) by {
        forall k | 0 <= k < |rest| - 1 && |rest[k]| == 1 ensures |rest[k + 1]| == 0 || rest[k + 1][0] != VariationSelector {
          assert rest[k] == groups[k + 1] && rest[k + 1] == groups[k + 2];
        }
      }
      if |g| == 2 {
        assert text[..2] == g && text[2..] == Concat(rest);
        GlyphsUnique(text[2..], rest);
      } else {
        assert text[..1] == g && text[1..] == Concat(rest);
        if |text| >= 2 {
          assert rest != [];
          assert text[1] == rest[0][0];
        }
        GlyphsUnique(text[1..], rest);
      }
    }
  }

  /** The grouping loop of `render_mixed_text` and `render_text_with_blink`. */
  method GroupGlyphs(text: string) returns (groups: seq<string>)
    ensures groups == Glyphs(text)
  {
    groups := [];
    var i := 0;
    while i < |text|
      invariant 0 <= i <= |text|
      invariant groups + Glyphs(text[i..]) == Glyphs(text)
    {
      if i + 1 < |text| && text[i + 1] == VariationSelector {
        assert text[i..][..2] == text[i..i + 2] && text[i..][2..] == text[i + 2..];
        groups := groups + [text[i..i + 2]];
        i := i + 2;
      } else {
        assert text[i..][..1] == [text[i]] && text[i..][1..] == text[i + 1..];
        groups := groups + [[text[i]]];
        i := i + 1;
      }
    }
  }

  /** The code points of the character class `is_emoji` matches against. */
  function InEmojiClass(c: char): (inClass: bool)
    ensures inClass ==> 0x203C <= c as int <= 0x1FAFF
    ensures c == VariationSelector ==> inClass
  {
    var n := c as int;
    || 0x1F600 <= n <= 0x1F64F || 0x1F300 <= n <= 0x1F5FF || 0x1F680 <= n <= 0x1F6FF
    || 0x1F700 <= n <= 0x1F77F || 0x1F780 <= n <= 0x1F7FF || 0x1F800 <= n <= 0x1F8FF
    || 0x1F900 <= n <= 0x1F9FF || 0x1FA00 <= n <= 0x1FA6F || 0x1FA70 <= n <= 0x1FAFF
    || 0x2600 <= n <= 0x26FF || 0x2700 <= n <= 0x27BF || 0xFE00 <= n <= 0xFE0F
    || 0x1F1E0 <= n <= 0x1F1FF || 0x2300 <= n <= 0x23FF || 0x24C2 <= n <= 0x24FF
    || 0x2B50 <= n <= 0x2B55 || 0x2702 <= n <= 0x27B0 || 0x26A0 <= n <= 0x26AB
    || n == 0x26A1 || n == 0x203C || n == 0x2049 || n == 0x20E3 || n == 0x2122
    || n == 0x2139 || 0x2194 <= n <= 0x2199
  }

  /** `is_emoji(g)`: the glyph starts with a character of the class, or it is
      longer than one character and contains U+FE0F. */
  function IsEmoji(g: string): (emoji: bool)
    ensures |g| == 1 ==> (emoji <==> InEmojiClass(g[0]))
    ensures (forall i :: 0 <= i < |g| ==> g[i] as int < 0x80) ==> !emoji
    ensures |g| == 2 && g[1] == VariationSelector ==> emoji
  {
    (|g| > 0 && InEmojiClass(g[0])) || (|g| > 1 && VariationSelector in g)
  }

  /** Every two-character glyph the grouping produces is an emoji, whatever
      its first character. */
  lemma PairedGlyphIsEmoji(text: string, k: nat)
    requires k < |Glyphs(text)| && |Glyphs(text)[k]| == 2
    ensures IsEmoji(Glyphs(text)[k])
  {
    GlyphsSound(text);
    assert Glyphs(text)[k][1] == VariationSelector;
  }

  /** Whether one glyph is drawn, following `render_text_with_blink`: mode 0
      draws the full text, mode 3 the full text or nothing, modes 1 and 2 decide
      glyph by glyph, and any other mode falls through to the full text. */
  function GlyphVisible(mode: int, blinkOn: bool, g: string): (shown: bool)
    ensures blinkOn ==> shown
    ensures (mode < 1 || mode > 3) ==> shown
    ensures mode == 3 ==> shown == blinkOn
    ensures mode == 1 ==> (shown <==> blinkOn || IsEmoji(g))
    ensures mode == 2 ==> (shown <==> blinkOn || !IsEmoji(g))
  {
    if mode == 0 || (mode == 3 && blinkOn) then true
    else if mode == 3 then false
    else if mode == 1 || mode == 2 then
      var emoji := IsEmoji(g);
      var shouldBlink := (mode == 1 && !emoji) || (mode == 2 && emoji);
      !shouldBlink || blinkOn
    else true
  }

  /** Which glyphs of `text` a frame draws: with the blink toggle on, every
      glyph; mode 0 and modes outside 0..3 never hide a glyph; mode 3 hides
      all of them together; mode 1 hides only the non-emoji glyphs and mode 2
      only the emoji glyphs. */
  function VisibleMask(text: string, mode: int, blinkOn: bool): (mask: seq<bool>)
    ensures |mask| == |Glyphs(text)|
    ensures blinkOn ==> forall k :: 0 <= k < |mask| ==> mask[k]
    ensures (mode < 1 || mode > 3) ==> forall k :: 0 <= k < |mask| ==> mask[k]
    ensures mode == 3 ==> forall k :: 0 <= k < |mask| ==> mask[k] == blinkOn
    ensures mode == 1 ==> forall k :: 0 <= k < |mask| ==> mask[k] == (blinkOn || IsEmoji(Glyphs(text)[k]))
    ensures mode == 2 ==> forall k :: 0 <= k < |mask| ==> mask[k] == (blinkOn || !IsEmoji(Glyphs(text)[k]))
  {
    var gs := Glyphs(text);
    seq(|gs|, k requires 0 <= k < |gs| => GlyphVisible(mode, blinkOn, gs[k]))
  }

  /** While the toggle is off, modes 1 and 2 show complementary glyphs: each
      glyph is drawn in exactly one of them. */
  lemma PartialModesComplement(text: string, k: nat)
    requires k < |Glyphs(text)|
    ensures VisibleMask(text, 1, false)[k] != VisibleMask(text, 2, false)[k]
  {
  }
}
