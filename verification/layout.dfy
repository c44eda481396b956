/**
  Page layout of `insert_image_page`: the size of the box the picture is drawn
  in, and where on the page that box goes. Lengths are exact reals in
  PostScript points; reportlab's A5 page is 148 mm by 210 mm, one millimetre
  being 72/25.4 points. Floating-point rounding is not modelled.
 */
module Layout {

  import opened Optional
  import opened Orientation

  const Mm: real := 72.0 / 25.4
  const A5Width: real := 148.0 * Mm
  const A5Height: real := 210.0 * Mm

  /** Share of the page's limiting side the picture is given. */
  const Share: real := 5.0 / 6.0

  datatype Box = Box(width: real, height: real)

  /** A box and the position of its lower-left corner on the page. */
  datatype Placement = Placement(x: real, y: real, box: Box)

  /** The drawing box for a `w` x `h` picture on a `pageWidth` x `pageHeight` page:
      a portrait or square picture gets 5/6 of the page height, a landscape one
      5/6 of the page width, and the other side follows the picture's proportions. */
  function ContentBox(w: real, h: real, pageWidth: real, pageHeight: real): (b: Box)
    requires w > 0.0 && h > 0.0 && pageWidth > 0.0 && pageHeight > 0.0
    ensures b.width > 0.0 && b.height > 0.0
    ensures b.height * w == b.width * h
    ensures h >= w ==> b.height == Share * pageHeight
    ensures h < w ==> b.width == Share * pageWidth
  {
    var ratio := h / w;
    if ratio >= 1.0 then
      var height := pageHeight * 5.0 / 6.0;
      Box(height / ratio, height)
    else
      var width := pageWidth * 5.0 / 6.0;
      Box(width, width * ratio)
  }

  /** The box is drawn with equal margins left and right, and top and bottom. */
  function Centre(b: Box, pageWidth: real, pageHeight: real): (p: Placement)
    ensures p.box == b
    ensures p.x == pageWidth - (p.x + b.width)
    ensures p.y == pageHeight - (p.y + b.height)
  {
    Placement((pageWidth - b.width) / 2.0, (pageHeight - b.height) / 2.0, b)
  }

  predicate Fits(b: Box, pageWidth: real, pageHeight: real)
  {
    b.width <= pageWidth && b.height <= pageHeight
  }

  predicate OnPage(p: Placement, pageWidth: real, pageHeight: real)
  {
    0.0 <= p.x && p.x + p.box.width <= pageWidth && 0.0 <= p.y && p.y + p.box.height <= pageHeight
  }

  /** The box depends only on the picture's proportions, not on its pixel count. */
  lemma ContentBoxScaleFree(w: real, h: real, k: real, pageWidth: real, pageHeight: real)
    requires w > 0.0 && h > 0.0 && k > 0.0 && pageWidth > 0.0 && pageHeight > 0.0
    ensures ContentBox(k * w, k * h, pageWidth, pageHeight) == ContentBox(w, h, pageWidth, pageHeight)
  {
    assert (k * h) / (k * w) == h / w;
  }

  /** A centred box lies on the page exactly when it fits. */
  lemma OnPageIffFits(b: Box, pageWidth: real, pageHeight: real)
    ensures OnPage(Centre(b, pageWidth, pageHeight), pageWidth, pageHeight) <==> Fits(b, pageWidth, pageHeight)
  {
  }

  /** On an upright page, the box fits for every landscape picture, but for a portrait
      picture only when it is at least 5/6 of the page's height-to-width ratio tall:
      between square and that ratio the box is wider than the page. */
  lemma ContentBoxFitsIff(w: real, h: real, pageWidth: real, pageHeight: real)
    requires w > 0.0 && h > 0.0 && 0.0 < pageWidth <= pageHeight
    ensures Fits(ContentBox(w, h, pageWidth, pageHeight), pageWidth, pageHeight)
            <==> h < w || 6.0 * pageWidth * h >= 5.0 * pageHeight * w
  {
    var b := ContentBox(w, h, pageWidth, pageHeight);
    if h < w {
      assert b.height * w == b.width * h;
      assert b.height * w < b.width * w;
      assert b.height < b.width;
    } else {
      assert b.height * w == b.width * h;
      assert 6.0 * b.height == 5.0 * pageHeight;
      assert 6.0 * b.width * h == 5.0 * pageHeight * w;
      if b.width <= pageWidth {
        assert 6.0 * b.width * h <= 6.0 * pageWidth * h;
      } else {
        assert 6.0 * b.width * h > 6.0 * pageWidth * h;
      }
    }
  }

  /** A landscape picture on an upright page is drawn with positive margins on all sides. */
  lemma LandscapeInsidePage(w: real, h: real, pageWidth: real, pageHeight: real)
    requires w > 0.0 && h > 0.0 && 0.0 < pageWidth < pageHeight
    requires h < w
    ensures var p := Centre(ContentBox(w, h, pageWidth, pageHeight), pageWidth, pageHeight);
            p.x > 0.0 && p.y > 0.0 && OnPage(p, pageWidth, pageHeight)
  {
    var b := ContentBox(w, h, pageWidth, pageHeight);
    assert b.height * w < b.width * w;
    assert b.height < b.width;
  }

  /** A square picture on A5 gets a box 175 mm wide on a 148 mm wide page: it is
      drawn 13.5 mm left of the page edge and its sides are cut off. */
  lemma SquarePictureOverflowsA5()
    ensures ContentBox(1.0, 1.0, A5Width, A5Height).width == 175.0 * Mm > A5Width
    ensures Centre(ContentBox(1.0, 1.0, A5Width, A5Height), A5Width, A5Height).x == -13.5 * Mm
  {
  }

  /** The box the layout evidently aims at: the largest box with the picture's
      proportions that fits in 5/6 of the page in both directions. */
  function FittedBox(w: real, h: real, pageWidth: real, pageHeight: real): (b: Box)
    requires w > 0.0 && h > 0.0 && pageWidth > 0.0 && pageHeight > 0.0
    ensures b.width > 0.0 && b.height > 0.0
    ensures b.height * w == b.width * h
    ensures Fits(b, Share * pageWidth, Share * pageHeight)
    ensures b.width == Share * pageWidth || b.height == Share * pageHeight
  {
    var byWidth := Share * pageWidth / w;
    var byHeight := Share * pageHeight / h;
    assert byWidth * w == Share * pageWidth;
    assert byHeight * h == Share * pageHeight;
    if byWidth <= byHeight then
      assert byWidth * h <= byHeight * h;
      Box(byWidth * w, byWidth * h)
    else
      assert byHeight * w < byWidth * w;
      Box(byHeight * w, byHeight * h)
  }

  /** Wherever the box as written stays inside 5/6 of the page, it is the fitted box;
      in particular for every landscape picture on an upright page. */
  lemma FittedAgreesWhenContentFits(w: real, h: real, pageWidth: real, pageHeight: real)
    requires w > 0.0 && h > 0.0 && pageWidth > 0.0 && pageHeight > 0.0
    requires Fits(ContentBox(w, h, pageWidth, pageHeight), Share * pageWidth, Share * pageHeight)
    ensures FittedBox(w, h, pageWidth, pageHeight) == ContentBox(w, h, pageWidth, pageHeight)
  {
  }

  /** The layout of one picture: turned as its orientation tag asks, then boxed and
      centred on an A5 page. */
  function PlacePicture(size: Size, exif: Option<map<int, int>>): (p: Placement)
    requires size.width > 0 && size.height > 0
    ensures var turned := Rotate(size, CorrectionAngle(exif));
            && p.box.height * (turned.width as real) == p.box.width * (turned.height as real)
            && (turned.height >= turned.width ==> p.box.height == Share * A5Height)
            && (turned.height < turned.width ==> p.box.width == Share * A5Width)
    ensures p.x == A5Width - (p.x + p.box.width) && p.y == A5Height - (p.y + p.box.height)
  {
    var turned := Rotate(size, CorrectionAngle(exif));
    Centre(ContentBox(turned.width as real, turned.height as real, A5Width, A5Height), A5Width, A5Height)
  }

}
