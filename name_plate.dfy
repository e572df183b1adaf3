/**
 * The name tag drawn at the bottom left of the badge (server.js:106-129):
 * the font size and text anchor follow from the canvas width, and a
 * translucent plate is laid behind the measured text with a padding of a
 * fifth of the font size. Text measurement is done by the canvas library, so
 * its results come in as `TextMetrics`.
 */
module NamePlate {
  import opened CropGeometry

  /** What the canvas reports for the label in the chosen font. */
  datatype TextMetrics = TextMetrics(width: real, ascent: real, descent: real)
  {
    /** The text's vertical extent: ascent above plus descent below the baseline. */
    function Height(): real { ascent + descent }
  }

  /** The drawn tag: font size, text anchor (left end of the baseline) and plate. */
  datatype Tag = Tag(fontSize: real, textX: real, textY: real, plate: Rect)

  /**
   * The box the plate arithmetic assumes for the text: from the anchor to the
   * right by the text width, and up from the anchor by the whole text height.
   * The text itself is drawn on the baseline through the anchor, so it reaches
   * up by the ascent and down by the descent (DrawnTextBox).
   */
  function TextBox(tag: Tag, metrics: TextMetrics): Rect
  {
    Rect(tag.textX, tag.textY - metrics.Height(), metrics.width, metrics.Height())
  }

  /** Where `fillText` puts the text: on the alphabetic baseline through the
      anchor, from the ascent above it to the descent below it. */
  function DrawnTextBox(tag: Tag, metrics: TextMetrics): Rect
  {
    Rect(tag.textX, tag.textY - metrics.ascent, metrics.width, metrics.Height())
  }

  /**
   * The layout of the tag on a canvas of the given size. The anchor sits the
   * margin in from the left and bottom edges, and the plate extends the box
   * the arithmetic assumes for the text (TextBox) by the same padding on all
   * four sides.
   */
  function Layout(canvasWidth: nat, canvasHeight: nat, metrics: TextMetrics): (tag: Tag)
    ensures tag.fontSize == 0.08 * canvasWidth as real
    ensures tag.textX == 0.05 * canvasWidth as real
    ensures canvasHeight as real - tag.textY == tag.textX
    ensures TextBox(tag, metrics).CenterX() == tag.plate.CenterX()
    ensures TextBox(tag, metrics).CenterY() == tag.plate.CenterY()
    ensures tag.plate.width == metrics.width + 0.4 * tag.fontSize
    ensures tag.plate.height == metrics.Height() + 0.4 * tag.fontSize
  {
    var fontSize := canvasWidth as real * 0.08;
    var textMargin := canvasWidth as real * 0.05;
    var textHeight := metrics.ascent + metrics.descent;
    var textX := textMargin;
    var textY := canvasHeight as real - textMargin;
    var rectPadding := fontSize * 0.2;
    var plate := Rect(textX - rectPadding, textY - textHeight - rectPadding,
                      metrics.width + rectPadding * 2.0, textHeight + rectPadding * 2.0);
    Tag(fontSize, textX, textY, plate)
  }

  /**
   * On a canvas of positive width the plate strictly surrounds TextBox,
   * by a fifth of the font size on every side, whatever the text measures.
   */
  lemma PlateSurroundsText(canvasWidth: nat, canvasHeight: nat, metrics: TextMetrics)
    requires canvasWidth > 0
    ensures var tag := Layout(canvasWidth, canvasHeight, metrics);
      var text := TextBox(tag, metrics);
      var pad := tag.fontSize / 5.0;
      && tag.plate.StrictlyContains(text)
      && text.x - tag.plate.x == pad
      && tag.plate.Right() - text.Right() == pad
      && text.y - tag.plate.y == pad
      && tag.plate.Bottom() - text.Bottom() == pad
  {
  }

  /**
   * The plate's left and bottom edges keep the same distance to the canvas
   * edges, 0.034 of the canvas width, so they never leave the canvas there.
   */
  lemma PlateCornerMargins(canvasWidth: nat, canvasHeight: nat, metrics: TextMetrics)
    ensures var plate := Layout(canvasWidth, canvasHeight, metrics).plate;
      && plate.x == 0.034 * canvasWidth as real
      && canvasHeight as real - plate.Bottom() == plate.x
      && 0.0 <= plate.x
      && plate.Bottom() <= canvasHeight as real
  {
  }

  /**
   * The plate lies on the canvas exactly when the text is at most 0.934 of
   * the canvas width wide and leaves 0.066 of the width free above it.
   */
  lemma PlateOnCanvasIff(canvasWidth: nat, canvasHeight: nat, metrics: TextMetrics)
    ensures ImageRect(canvasWidth, canvasHeight).Contains(Layout(canvasWidth, canvasHeight, metrics).plate)
      <==>
      && metrics.width <= 0.934 * canvasWidth as real
      && metrics.Height() <= canvasHeight as real - 0.066 * canvasWidth as real
  {
  }

  /**
   * The plate is placed as if the whole text stood above the baseline, but the
   * descent is drawn below it: the plate's centre sits the descent above the
   * drawn text's centre, and the plate covers the drawn text exactly when the
   * descent is at most the padding (a fifth of the font size) either way.
   */
  lemma PlateCoversDrawnTextIff(canvasWidth: nat, canvasHeight: nat, metrics: TextMetrics)
    ensures var tag := Layout(canvasWidth, canvasHeight, metrics);
      var drawn := DrawnTextBox(tag, metrics);
      var pad := tag.fontSize / 5.0;
      && tag.plate.CenterX() == drawn.CenterX()
      && tag.plate.CenterY() + metrics.descent == drawn.CenterY()
      && (tag.plate.Contains(drawn) <==> -pad <= metrics.descent <= pad)
      && (canvasWidth > 0 ==>
            (tag.plate.StrictlyContains(drawn) <==> -pad < metrics.descent < pad))
  {
  }

  /** A text of descent 10 on the 512x512 badge sticks out below the plate,
      although the plate surrounds the box its arithmetic assumes. */
  lemma DeepDescentExample()
    ensures var metrics := TextMetrics(100.0, 30.0, 10.0);
      var tag := Layout(512, 512, metrics);
      && tag.plate.StrictlyContains(TextBox(tag, metrics))
      && !tag.plate.Contains(DrawnTextBox(tag, metrics))
  {
  }

  /** On the 512x512 badge canvas the tag is laid out at fixed positions. */
  lemma BadgeTagExample(metrics: TextMetrics)
    ensures var tag := Layout(512, 512, metrics);
      && tag.fontSize == 40.96
      && tag.textX == 25.6
      && tag.textY == 486.4
      && tag.plate.x == 17.408
      && tag.plate.Bottom() == 494.592
      && tag.plate.width == metrics.width + 16.384
  {
  }
}
