/** The border remover: decide from the panel's size, the largest contour's
    bounding rectangle and its skeleton where to crop a panel so that its
    frame line is trimmed, and crop it, or hand the panel back unchanged.
    The image-processing stages that produce the rectangle and the skeleton
    are inputs here (see `Detection`). */
module BorderRemover {
  import opened LineScorer

  /** Panels smaller than this in either dimension are not processed. */
  const MinPanelSize: nat := 30
  /** Width of the white border added around the panel before contour search. */
  const PadSize: nat := 15
  /** Crops smaller than this in either dimension are discarded. */
  const MinCropSize: nat := 10
  /** The defaults of `search_zone_ratio` and `padding`. */
  const DefaultSearchZoneRatio: real := 0.25
  const DefaultPadding: int := 5

  datatype Option<T> = None | Some(value: T)

  /** An image of `height` rows of `width` pixels. */
  datatype Image<P> = Image(height: nat, width: nat, pixels: seq<seq<P>>) {
    ghost predicate Valid() {
      |pixels| == height && forall i :: 0 <= i < height ==> |pixels[i]| == width
    }
  }

  /** An axis-aligned rectangle `(x, y, w, h)`, as `cv.boundingRect` gives it. */
  datatype Rect = Rect(x: int, y: int, w: int, h: int)

  /** What the contour stages found in the padded panel: nothing, or the
      bounding rectangle of the largest contour and the skeleton of its outline
      (a mask of the padded panel's size). */
  datatype Detection = NoContour | Contour(rect: Rect, skeleton: Mask)

  /** The crop rectangle `[y1:y2, x1:x2]` in padded-panel coordinates. */
  datatype Box = Box(x1: int, y1: int, x2: int, y2: int)

  /** Whether the panel is handed back unchanged or cropped to a box. */
  datatype Verdict = PassThrough | CropTo(box: Box)

  /** The four sides of the panel, each scanned inside-out for its frame line. */
  datatype Side = Top | Bottom | Left | Right

  /** `cv.copyMakeBorder` with a constant colour: `n` pixels of `fill` on every side. */
  function Pad<P>(img: Image<P>, n: nat, fill: P): (out: Image<P>)
    requires img.Valid()
    ensures out.Valid()
    ensures out.height == img.height + 2 * n && out.width == img.width + 2 * n
    ensures forall i, j :: 0 <= i < img.height && 0 <= j < img.width ==>
      out.pixels[n + i][n + j] == img.pixels[i][j]
  {
    var h, w := img.height + 2 * n, img.width + 2 * n;
    Image(h, w, seq(h, i requires 0 <= i < h =>
      seq(w, j requires 0 <= j < w =>
        if n <= i < n + img.height && n <= j < n + img.width then img.pixels[i - n][j - n] else fill)))
  }

  /** Every pixel of the padded image outside the original's window is the fill colour. */
  lemma PadBorderIsFill<P>(img: Image<P>, n: nat, fill: P, i: int, j: int)
    requires img.Valid()
    requires 0 <= i < img.height + 2 * n && 0 <= j < img.width + 2 * n
    requires !(n <= i < n + img.height && n <= j < n + img.width)
    ensures Pad(img, n, fill).pixels[i][j] == fill
  {
  }

  /** The slice `img[y1:y2, x1:x2]` of an image, for a box inside it. */
  function Crop<P>(img: Image<P>, b: Box): (out: Image<P>)
    requires img.Valid()
    requires 0 <= b.y1 <= b.y2 <= img.height && 0 <= b.x1 <= b.x2 <= img.width
    ensures out.Valid()
    ensures out.height == b.y2 - b.y1 && out.width == b.x2 - b.x1
    ensures forall i, j :: 0 <= i < out.height && 0 <= j < out.width ==>
      out.pixels[i][j] == img.pixels[b.y1 + i][b.x1 + j]
  {
    var h, w := b.y2 - b.y1, b.x2 - b.x1;
    Image(h, w, seq(h, i requires 0 <= i < h =>
      seq(w, j requires 0 <= j < w => img.pixels[b.y1 + i][b.x1 + j])))
  }

  /** Whether a rectangle lies inside a `height` x `width` image and is not empty. */
  predicate RectInside(rect: Rect, height: int, width: int) {
    1 <= rect.w && 1 <= rect.h &&
    0 <= rect.x && rect.x + rect.w <= width &&
    0 <= rect.y && rect.y + rect.h <= height
  }

  /** The region of interest `skeleton[y:y+h, x:x+w]`. */
  function Roi(skeleton: Mask, rect: Rect): (roi: Mask)
    requires skeleton.Valid() && RectInside(rect, skeleton.Height(), skeleton.width)
    ensures roi.Valid() && roi.Height() == rect.h && roi.width == rect.w
    ensures forall j, k :: 0 <= j < rect.h && 0 <= k < rect.w ==>
      roi.cells[j][k] == skeleton.cells[rect.y + j][rect.x + k]
  {
    Mask(seq(rect.h, j requires 0 <= j < rect.h => skeleton.cells[rect.y + j][rect.x..rect.x + rect.w]), rect.w)
  }

  /** What the contour stages must deliver for a padded panel of the given size:
      a skeleton of that size and a bounding rectangle inside it. */
  ghost predicate DetectionFits(detect: Detection, height: int, width: int) {
    match detect
    case NoContour => true
    case Contour(rect, skeleton) =>
      skeleton.Valid() && skeleton.Height() == height && skeleton.width == width &&
      RectInside(rect, height, width)
  }

  /** `int(dim * search_zone_ratio)`: how deep into the panel a side is searched. */
  function SearchDepth(dim: nat, ratio: real): (d: nat)
    requires 0.0 <= ratio < 1.0
    ensures (d as real) <= (dim as real) * ratio < (d as real) + 1.0
    ensures dim > 0 ==> d < dim
  {
    var product := (dim as real) * ratio;
    assert 0.0 <= product;
    if dim > 0 then
      ProductBelow(dim as real, ratio);
      product.Floor
    else
      product.Floor
  }

  /** The defaults meet the requirements on the ratio and the padding, and
      the default search depth is a quarter of the dimension, rounded down. */
  lemma DefaultSearchDepth(dim: nat)
    ensures 0.0 <= DefaultSearchZoneRatio < 1.0 && 0 <= DefaultPadding
    ensures SearchDepth(dim, DefaultSearchZoneRatio) == dim / 4
  {
    var d := SearchDepth(dim, DefaultSearchZoneRatio);
    assert 4 * d <= dim < 4 * d + 4 by {
      assert (d as real) <= (dim as real) * 0.25 < (d as real) + 1.0;
    }
  }

  lemma ProductBelow(a: real, b: real)
    requires 0.0 < a && 0.0 <= b < 1.0
    ensures a * b < a
  {
  }

  /** The row axis (1) for the top and bottom sides, the column axis (0) for left and right. */
  function SideAxis(side: Side): (a: int)
    ensures a == 0 || a == 1
    ensures a == 1 <==> side.Top? || side.Bottom?
  {
    if side.Top? || side.Bottom? then 1 else 0
  }

  /** The extent of the region along the scanned axis: its height for the top
      and bottom sides, its width for left and right. */
  function SideExtent(side: Side, roi: Mask): (e: nat)
    ensures forall i :: LineIndex(roi, SideAxis(side), i) <==> 0 <= i < e
  {
    if side.Top? || side.Bottom? then roi.Height() else roi.width
  }

  /** The inside-out scan range of a side: top and left run from the search
      depth down to 0 inclusive, bottom and right from `extent - depth` up to
      the extent, exclusive. */
  function SideRange(side: Side, roi: Mask, ratio: real): (r: ScanRange)
    requires 0.0 <= ratio < 1.0
    ensures r.Valid()
  {
    var extent := SideExtent(side, roi);
    var depth := SearchDepth(extent, ratio);
    if side.Top? || side.Left? then ScanRange(depth, -1, -1)
    else ScanRange(extent - depth, extent, 1)
  }

  /** Every candidate of a side's range names a row or column of the region. */
  lemma SideRangeInBounds(side: Side, roi: Mask, ratio: real)
    requires roi.Valid() && 1 <= roi.Height() && 1 <= roi.width && 0.0 <= ratio < 1.0
    ensures LinesInBounds(roi, SideAxis(side), SideRange(side, roi, ratio))
  {
    var r := SideRange(side, roi, ratio);
    forall i | InRange(r, i)
      ensures LineIndex(roi, SideAxis(side), i)
    {
      assert SearchDepth(SideExtent(side, roi), ratio) < SideExtent(side, roi);
    }
  }

  /** The index of the frame line found on one side, relative to the region.
      Top and left lines lie between 0 and the search depth; bottom and right
      lines lie in the last `depth` rows or columns, or at the extent itself
      exactly when the search depth is 0. */
  function BorderLine(side: Side, roi: Mask, ratio: real): (b: int)
    requires roi.Valid() && 1 <= roi.Height() && 1 <= roi.width && 0.0 <= ratio < 1.0
    ensures var extent := SideExtent(side, roi);
            var depth := SearchDepth(extent, ratio);
            (side.Top? || side.Left? ==> 0 <= b <= depth) &&
            (side.Bottom? || side.Right? ==>
               extent - depth <= b <= extent && (b == extent <==> depth == 0))
  {
    SideRangeInBounds(side, roi, ratio);
    BestLine(roi, SideAxis(side), SideRange(side, roi, ratio))
  }

  /** The crop rectangle `(x1, y1, x2, y2)`: the four frame lines moved
      `padding` pixels further inward, in padded-panel coordinates. Each edge
      lies within the search zone of its side, shifted by the padding. */
  function TrimBox(rect: Rect, roi: Mask, ratio: real, padding: int): (b: Box)
    requires roi.Valid() && roi.Height() == rect.h >= 1 && roi.width == rect.w >= 1
    requires 0.0 <= ratio < 1.0
    ensures var dh, dw := SearchDepth(rect.h, ratio), SearchDepth(rect.w, ratio);
            rect.x + padding <= b.x1 <= rect.x + dw + padding &&
            rect.y + padding <= b.y1 <= rect.y + dh + padding &&
            rect.x + rect.w - dw - padding <= b.x2 <= rect.x + rect.w - padding &&
            rect.y + rect.h - dh - padding <= b.y2 <= rect.y + rect.h - padding
  {
    var top := BorderLine(Top, roi, ratio);
    var bottom := BorderLine(Bottom, roi, ratio);
    var left := BorderLine(Left, roi, ratio);
    var right := BorderLine(Right, roi, ratio);
    Box(rect.x + left + padding, rect.y + top + padding, rect.x + right - padding, rect.y + bottom - padding)
  }

  /** Whether the box is empty or inverted (`x1 >= x2` or `y1 >= y2`): its
      slice would have no rows or no columns. */
  predicate Degenerate(b: Box)
    ensures Degenerate(b) <==> b.x2 - b.x1 <= 0 || b.y2 - b.y1 <= 0
  {
    b.x1 >= b.x2 || b.y1 >= b.y2
  }

  /** The guards of `remove_border`, in order: small panels, no contour, a
      degenerate box and a crop under 10 pixels all pass the panel through;
      otherwise the padded panel is cropped to the trim box, which then lies
      inside the padded panel, is at least 10 pixels each way and is at most
      the bounding rectangle less twice the padding. */
  function CropDecision(height: nat, width: nat, detect: Detection, ratio: real, padding: int): (v: Verdict)
    requires 0.0 <= ratio < 1.0 && 0 <= padding
    requires MinPanelSize <= height && MinPanelSize <= width ==>
      DetectionFits(detect, height + 2 * PadSize, width + 2 * PadSize)
    ensures height < MinPanelSize || width < MinPanelSize || detect.NoContour? ==> v.PassThrough?
    ensures MinPanelSize <= height && MinPanelSize <= width && detect.Contour? ==>
      var b := TrimBox(detect.rect, Roi(detect.skeleton, detect.rect), ratio, padding);
      (Degenerate(b) ==> v.PassThrough?) &&
      (!Degenerate(b) && (b.y2 - b.y1 < MinCropSize || b.x2 - b.x1 < MinCropSize) ==> v.PassThrough?) &&
      (!Degenerate(b) && MinCropSize <= b.y2 - b.y1 && MinCropSize <= b.x2 - b.x1 ==> v == CropTo(b))
    ensures v.CropTo? ==>
      detect.Contour? &&
      detect.rect.x + padding <= v.box.x1 && v.box.x2 <= detect.rect.x + detect.rect.w - padding &&
      detect.rect.y + padding <= v.box.y1 && v.box.y2 <= detect.rect.y + detect.rect.h - padding &&
      0 <= v.box.x1 && v.box.x2 <= width + 2 * PadSize &&
      0 <= v.box.y1 && v.box.y2 <= height + 2 * PadSize &&
      MinCropSize <= v.box.x2 - v.box.x1 <= detect.rect.w - 2 * padding &&
      MinCropSize <= v.box.y2 - v.box.y1 <= detect.rect.h - 2 * padding
  {
    if height < MinPanelSize || width < MinPanelSize then PassThrough
    else
      match detect
      case NoContour => PassThrough
      case Contour(rect, skeleton) =>
        var b := TrimBox(rect, Roi(skeleton, rect), ratio, padding);
        if Degenerate(b) then PassThrough
        else if b.y2 - b.y1 < MinCropSize || b.x2 - b.x1 < MinCropSize then PassThrough
        else CropTo(b)
  }

  /** `remove_border`: pad the panel with 15 white pixels, and either crop the
      padded panel to the decided box or hand the panel back unchanged. */
  function RemoveBorder<P>(panel: Option<Image<P>>, white: P, detect: Detection, ratio: real, padding: int)
    : (out: Option<Image<P>>)
    requires 0.0 <= ratio < 1.0 && 0 <= padding
    requires panel.Some? ==> panel.value.Valid()
    requires panel.Some? && MinPanelSize <= panel.value.height && MinPanelSize <= panel.value.width ==>
      DetectionFits(detect, panel.value.height + 2 * PadSize, panel.value.width + 2 * PadSize)
    ensures panel.None? ==> out == panel
    ensures panel.Some? ==>
      var img := panel.value;
      match CropDecision(img.height, img.width, detect, ratio, padding)
      case PassThrough => out == panel
      case CropTo(b) =>
        out == Some(Crop(Pad(img, PadSize, white), b)) &&
        out.value.height == b.y2 - b.y1 && out.value.width == b.x2 - b.x1
  {
    match panel
    case None => panel
    case Some(img) =>
      match CropDecision(img.height, img.width, detect, ratio, padding)
      case PassThrough => panel
      case CropTo(b) => Some(Crop(Pad(img, PadSize, white), b))
  }

  /** When the bounding rectangle lies inside the original panel (the white
      padding is never foreground), the crop box stays off the padding, so the
      trimmed panel is no larger than the input in either dimension. */
  lemma TrimBoxInsidePanel(height: nat, width: nat, detect: Detection, ratio: real, padding: int, b: Box)
    requires 0.0 <= ratio < 1.0 && 0 <= padding
    requires MinPanelSize <= height && MinPanelSize <= width ==>
      DetectionFits(detect, height + 2 * PadSize, width + 2 * PadSize)
    requires detect.Contour? ==>
      PadSize <= detect.rect.x && detect.rect.x + detect.rect.w <= PadSize + width &&
      PadSize <= detect.rect.y && detect.rect.y + detect.rect.h <= PadSize + height
    requires CropDecision(height, width, detect, ratio, padding) == CropTo(b)
    ensures PadSize <= b.y1 < b.y2 <= PadSize + height && PadSize <= b.x1 < b.x2 <= PadSize + width
  {
  }

  /** A box that stays off the padding crops the padded image to a window of
      the original: no larger than it, and pixel for pixel equal to it at the
      box's offset. */
  lemma CropOfPadIsWindow<P>(img: Image<P>, n: nat, fill: P, b: Box)
    requires img.Valid()
    requires n <= b.y1 <= b.y2 <= n + img.height && n <= b.x1 <= b.x2 <= n + img.width
    ensures var out := Crop(Pad(img, n, fill), b);
      out.height <= img.height && out.width <= img.width &&
      forall i, j :: 0 <= i < out.height && 0 <= j < out.width ==>
        out.pixels[i][j] == img.pixels[b.y1 - n + i][b.x1 - n + j]
  {
    var padded := Pad(img, n, fill);
    var out := Crop(padded, b);
    forall i, j | 0 <= i < out.height && 0 <= j < out.width
      ensures out.pixels[i][j] == img.pixels[b.y1 - n + i][b.x1 - n + j]
    {
      var pi, pj := b.y1 - n + i, b.x1 - n + j;
      assert 0 <= pi < img.height && 0 <= pj < img.width;
      assert out.pixels[i][j] == padded.pixels[b.y1 + i][b.x1 + j];
      assert padded.pixels[n + pi][n + pj] == img.pixels[pi][pj];
    }
  }

  /** Trimming never enlarges a panel whose bounding rectangle lies inside the
      unpadded window. */
  lemma RemoveBorderNoLarger<P>(img: Image<P>, white: P, detect: Detection, ratio: real, padding: int)
    requires img.Valid() && 0.0 <= ratio < 1.0 && 0 <= padding
    requires MinPanelSize <= img.height && MinPanelSize <= img.width ==>
      DetectionFits(detect, img.height + 2 * PadSize, img.width + 2 * PadSize)
    requires detect.Contour? ==>
      PadSize <= detect.rect.x && detect.rect.x + detect.rect.w <= PadSize + img.width &&
      PadSize <= detect.rect.y && detect.rect.y + detect.rect.h <= PadSize + img.height
    ensures var out := RemoveBorder(Some(img), white, detect, ratio, padding);
      out.Some? && out.value.height <= img.height && out.value.width <= img.width
  {
    var v := CropDecision(img.height, img.width, detect, ratio, padding);
    if v.CropTo? {
      TrimBoxInsidePanel(img.height, img.width, detect, ratio, padding, v.box);
      CropOfPadIsWindow(img, PadSize, white, v.box);
    }
  }
}
