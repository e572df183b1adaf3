/**
 * The crop box of the badge endpoint (server.js:66-87): the square region of
 * the uploaded image that is scaled onto the 512x512 badge canvas
 * (server.js:90-104). Coordinates are exact reals; image dimensions are the
 * whole-pixel sizes of the decoded image.
 */
module CropGeometry {

  datatype Option<T> = None | Some(value: T)

  /** An axis-aligned rectangle: top-left corner, width and height. */
  datatype Rect = Rect(x: real, y: real, width: real, height: real)
  {
    function Right(): real { x + width }
    function Bottom(): real { y + height }
    function CenterX(): real { x + width / 2.0 }
    function CenterY(): real { y + height / 2.0 }

    predicate IsSquare() { width == height }

    /** Every edge of `r` lies on or inside the edges of this rectangle. */
    predicate Contains(r: Rect)
    {
      x <= r.x && r.Right() <= Right() && y <= r.y && r.Bottom() <= Bottom()
    }

    /** Every edge of `r` lies strictly inside the edges of this rectangle. */
    predicate StrictlyContains(r: Rect)
    {
      x < r.x && r.Right() < Right() && y < r.y && r.Bottom() < Bottom()
    }
  }

  /** The side of the square badge canvas (server.js:90). */
  const BadgeSize: real := 512.0

  function Max(a: real, b: real): real { if a < b then b else a }
  function Min(a: real, b: real): real { if a < b then a else b }

  /** The whole image as a rectangle. */
  function ImageRect(imageWidth: nat, imageHeight: nat): Rect
  {
    Rect(0.0, 0.0, imageWidth as real, imageHeight as real)
  }

  /**
   * The crop of the uploaded image. With a detected face box it is a square
   * of the box's larger side plus 0.4 of it on every side, centred on the box
   * and not clamped to the image; without one it is the centred square whose
   * side is the image's shorter dimension.
   */
  function CropBox(imageWidth: nat, imageHeight: nat, detection: Option<Rect>): (crop: Rect)
    ensures crop.IsSquare()
    ensures detection.Some? ==>
      var box := detection.value;
      && crop.width == 1.8 * Max(box.width, box.height)
      && crop.CenterX() == box.CenterX()
      && crop.CenterY() == box.CenterY()
    ensures detection.None? ==>
      && crop.width == Min(imageWidth as real, imageHeight as real)
      && crop.CenterX() == ImageRect(imageWidth, imageHeight).CenterX()
      && crop.CenterY() == ImageRect(imageWidth, imageHeight).CenterY()
      && ImageRect(imageWidth, imageHeight).Contains(crop)
  {
    match detection
    case Some(box) =>
      var size := Max(box.width, box.height);
      var padding := size * 0.4;
      var paddedSize := size + padding * 2.0;
      Rect(box.x + box.width / 2.0 - paddedSize / 2.0,
           box.y + box.height / 2.0 - paddedSize / 2.0,
           paddedSize, paddedSize)
    case None =>
      var w := imageWidth as real;
      var h := imageHeight as real;
      var size := Min(w, h);
      Rect((w - size) / 2.0, (h - size) / 2.0, size, size)
  }

  /**
   * A face crop keeps the padding of 0.4 times the box's larger side between
   * the box and each of its edges, so it contains the box strictly whenever
   * the box has a positive side.
   */
  lemma FaceCropPadsBox(imageWidth: nat, imageHeight: nat, box: Rect)
    requires box.width >= 0.0 && box.height >= 0.0
    ensures var crop := CropBox(imageWidth, imageHeight, Some(box));
      var padding := 0.4 * Max(box.width, box.height);
      && crop.x + padding <= box.x
      && box.Right() + padding <= crop.Right()
      && crop.y + padding <= box.y
      && box.Bottom() + padding <= crop.Bottom()
    ensures CropBox(imageWidth, imageHeight, Some(box)).Contains(box)
    ensures box.width > 0.0 || box.height > 0.0 ==>
      CropBox(imageWidth, imageHeight, Some(box)).StrictlyContains(box)
  {
  }

  /**
   * A face crop lies inside the image exactly when the box centre is at least
   * 0.9 times the box's larger side away from every image edge.
   */
  lemma FaceCropInsideImageIff(imageWidth: nat, imageHeight: nat, box: Rect)
    ensures var reach := 0.9 * Max(box.width, box.height);
      ImageRect(imageWidth, imageHeight).Contains(CropBox(imageWidth, imageHeight, Some(box)))
      <==>
      && reach <= box.CenterX() <= imageWidth as real - reach
      && reach <= box.CenterY() <= imageHeight as real - reach
  {
  }

  /**
   * The face crop is not clamped: a box that lies inside the image can give a
   * crop that starts left of and above the image.
   */
  lemma FaceCropNotClamped()
    ensures var box := Rect(0.0, 0.0, 100.0, 100.0);
      var crop := CropBox(1000, 1000, Some(box));
      && ImageRect(1000, 1000).Contains(box)
      && crop == Rect(-40.0, -40.0, 180.0, 180.0)
      && !ImageRect(1000, 1000).Contains(crop)
  {
  }

  /** A 200-pixel face at (400, 300) in a 1000x1000 image. */
  lemma FaceCropExample()
    ensures CropBox(1000, 1000, Some(Rect(400.0, 300.0, 200.0, 200.0)))
         == Rect(320.0, 220.0, 360.0, 360.0)
  {
  }

  /**
   * Without a face, no square inside the image is larger than the crop, and
   * the crop leaves equal margins on opposite sides.
   */
  lemma CenterCropIsLargest(imageWidth: nat, imageHeight: nat, square: Rect)
    requires square.IsSquare() && ImageRect(imageWidth, imageHeight).Contains(square)
    ensures square.width <= CropBox(imageWidth, imageHeight, None).width
  {
  }

  lemma CenterCropMargins(imageWidth: nat, imageHeight: nat)
    ensures var crop := CropBox(imageWidth, imageHeight, None);
      && crop.x == imageWidth as real - crop.Right()
      && crop.y == imageHeight as real - crop.Bottom()
      && (crop.x == 0.0 || crop.y == 0.0)
  {
  }

  /**
   * Where a point of the image lands on the badge canvas once `drawImage`
   * scales the crop onto the whole canvas (server.js:94-104).
   */
  function CanvasX(crop: Rect, px: real): (cx: real)
    requires crop.width > 0.0
    ensures px == crop.x ==> cx == 0.0
    ensures px == crop.Right() ==> cx == BadgeSize
    ensures crop.x <= px <= crop.Right() ==> 0.0 <= cx <= BadgeSize
  {
    UnitFraction(px - crop.x, crop.width);
    (px - crop.x) / crop.width * BadgeSize
  }

  function CanvasY(crop: Rect, py: real): (cy: real)
    requires crop.height > 0.0
    ensures py == crop.y ==> cy == 0.0
    ensures py == crop.Bottom() ==> cy == BadgeSize
    ensures crop.y <= py <= crop.Bottom() ==> 0.0 <= cy <= BadgeSize
  {
    UnitFraction(py - crop.y, crop.height);
    (py - crop.y) / crop.height * BadgeSize
  }

  /**
   * On the badge, a detected face is centred on the canvas and keeps a margin
   * of 512 * 0.4 / 1.8 pixels to every edge.
   */
  lemma FaceCentredOnBadge(imageWidth: nat, imageHeight: nat, box: Rect)
    requires box.width >= 0.0 && box.height >= 0.0
    requires box.width > 0.0 || box.height > 0.0
    ensures var crop := CropBox(imageWidth, imageHeight, Some(box));
      var margin := BadgeSize * 0.4 / 1.8;
      && CanvasX(crop, box.CenterX()) == BadgeSize / 2.0
      && CanvasY(crop, box.CenterY()) == BadgeSize / 2.0
      && margin <= CanvasX(crop, box.x)
      && CanvasX(crop, box.Right()) <= BadgeSize - margin
      && margin <= CanvasY(crop, box.y)
      && CanvasY(crop, box.Bottom()) <= BadgeSize - margin
  {
    var crop := CropBox(imageWidth, imageHeight, Some(box));
    var size := Max(box.width, box.height);
    FaceCropPadsBox(imageWidth, imageHeight, box);
    FractionAtLeast(box.CenterX() - crop.x, size, 1.8, 0.9);
    FractionAtMost(box.CenterX() - crop.x, size, 1.8, 0.9);
    FractionAtLeast(box.CenterY() - crop.y, size, 1.8, 0.9);
    FractionAtMost(box.CenterY() - crop.y, size, 1.8, 0.9);
    FractionAtLeast(box.x - crop.x, size, 1.8, 0.4);
    FractionAtMost(box.Right() - crop.x, size, 1.8, 1.4);
    FractionAtLeast(box.y - crop.y, size, 1.8, 0.4);
    FractionAtMost(box.Bottom() - crop.y, size, 1.8, 1.4);
  }

  lemma UnitFraction(d: real, w: real)
    requires w > 0.0
    ensures 0.0 <= d <= w ==> 0.0 <= d / w <= 1.0
    ensures d == w ==> d / w == 1.0
    ensures d == 0.0 ==> d / w == 0.0
  {
  }

  /** A length of at least `m * s` is at least `m / k` of a side `k * s`. */
  lemma FractionAtLeast(d: real, s: real, k: real, m: real)
    requires s > 0.0 && k > 0.0 && d >= m * s
    ensures d / (k * s) >= m / k
  {
  }

  /** A length of at most `m * s` is at most `m / k` of a side `k * s`. */
  lemma FractionAtMost(d: real, s: real, k: real, m: real)
    requires s > 0.0 && k > 0.0 && d <= m * s
    ensures d / (k * s) <= m / k
  {
  }
}
