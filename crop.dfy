/**
 * Centre-crop geometry of the frame compositor (core/views.py, render_frame,
 * lines 239-263): before a photo is resized into a slot, it is cut down to a
 * box whose aspect ratio is the slot's.
 *
 * The source compares the float ratios `img_w / img_h > slot_w / slot_h` and
 * truncates `img_h * slot_ratio` (or `img_w / slot_ratio`) with `int(...)`.
 * Here both are exact: the comparison is cross-multiplied and the truncation
 * is floor division on non-negative integers. Python floats can round a
 * product that is exactly an integer to just below it, so the source may
 * produce a crop one pixel narrower (or shorter) than this model does.
 */
module Crop {

  /** A crop box in Pillow's convention: columns left..right-1, rows top..bottom-1. */
  datatype Box = Box(left: int, top: int, right: int, bottom: int) {
    function Width(): int { right - left }
    function Height(): int { bottom - top }
  }

  /** The photo is relatively wider than the slot: imgW/imgH > slotW/slotH. */
  predicate WiderThanSlot(slotW: int, slotH: int, imgW: int, imgH: int)
  {
    imgW * slotH > slotW * imgH
  }

  /**
   * The centred crop of an imgW x imgH photo for a slotW x slotH slot.
   * The box lies inside the photo, keeps either its full height or its full
   * width, has the slot's aspect ratio up to the truncation of one pixel, and
   * is centred: the two margins it cuts off differ by at most one pixel, the
   * extra pixel going to the right (or bottom) margin.
   */
  function CropBox(slotW: int, slotH: int, imgW: int, imgH: int): (b: Box)
    requires slotW > 0 && slotH > 0 && imgW > 0 && imgH > 0
    ensures 0 <= b.left <= b.right <= imgW && 0 <= b.top <= b.bottom <= imgH
    ensures || (b.top == 0 && b.bottom == imgH &&
                b.Width() * slotH <= imgH * slotW < (b.Width() + 1) * slotH)
            || (b.left == 0 && b.right == imgW &&
                b.Height() * slotW <= imgW * slotH < (b.Height() + 1) * slotW)
    ensures 0 <= (imgW - b.right) - b.left <= 1
    ensures 0 <= (imgH - b.bottom) - b.top <= 1
    ensures b.Width() < imgW <==> WiderThanSlot(slotW, slotH, imgW, imgH)
  {
    if WiderThanSlot(slotW, slotH, imgW, imgH) then
      var newW := (imgH * slotW) / slotH;
      FloorBounds(imgH * slotW, slotH);
      CancelLess(newW, imgW, slotH);
      var left := (imgW - newW) / 2;
      Box(left, 0, left + newW, imgH)
    else
      var newH := (imgW * slotH) / slotW;
      FloorBounds(imgW * slotH, slotW);
      CancelAtMost(newH, imgH, slotW);
      var top := (imgH - newH) / 2;
      Box(0, top, imgW, top + newH)
  }

  /**
   * Wide-photo branch (lines 248-255): the crop keeps the full height, its
   * width is floor(imgH * slotW / slotH) and it is centred horizontally.
   */
  lemma WideCrop(slotW: int, slotH: int, imgW: int, imgH: int)
    requires slotW > 0 && slotH > 0 && imgW > 0 && imgH > 0
    requires WiderThanSlot(slotW, slotH, imgW, imgH)
    ensures var b := CropBox(slotW, slotH, imgW, imgH);
      && b.top == 0 && b.bottom == imgH
      && b.Width() == (imgH * slotW) / slotH < imgW
      && b.left == (imgW - b.Width()) / 2
  {
  }

  /**
   * Tall-or-equal branch (lines 256-263): the crop keeps the full width, its
   * height is floor(imgW * slotH / slotW) and it is centred vertically.
   */
  lemma TallCrop(slotW: int, slotH: int, imgW: int, imgH: int)
    requires slotW > 0 && slotH > 0 && imgW > 0 && imgH > 0
    requires !WiderThanSlot(slotW, slotH, imgW, imgH)
    ensures var b := CropBox(slotW, slotH, imgW, imgH);
      && b.left == 0 && b.right == imgW
      && b.Height() == (imgW * slotH) / slotW <= imgH
      && b.top == (imgH - b.Height()) / 2
  {
  }

  /** The photo loses width exactly when it is relatively wider than the slot. */
  lemma LosesWidthIffWider(slotW: int, slotH: int, imgW: int, imgH: int)
    requires slotW > 0 && slotH > 0 && imgW > 0 && imgH > 0
    ensures CropBox(slotW, slotH, imgW, imgH).Width() < imgW <==> imgW * slotH > slotW * imgH
  {
  }

  /** The photo loses height exactly when it is relatively taller than the slot. */
  lemma LosesHeightIffTaller(slotW: int, slotH: int, imgW: int, imgH: int)
    requires slotW > 0 && slotH > 0 && imgW > 0 && imgH > 0
    ensures CropBox(slotW, slotH, imgW, imgH).Height() < imgH <==> imgW * slotH < slotW * imgH
  {
    if imgW * slotH == slotW * imgH {
      DivOfMultiple(imgH, slotW);
    }
  }

  /** The whole photo is kept exactly when its aspect ratio equals the slot's. */
  lemma WholePhotoIffSameRatio(slotW: int, slotH: int, imgW: int, imgH: int)
    requires slotW > 0 && slotH > 0 && imgW > 0 && imgH > 0
    ensures CropBox(slotW, slotH, imgW, imgH) == Box(0, 0, imgW, imgH)
            <==> imgW * slotH == slotW * imgH
  {
    LosesWidthIffWider(slotW, slotH, imgW, imgH);
    LosesHeightIffTaller(slotW, slotH, imgW, imgH);
  }

  /**
   * Only the slot's aspect ratio matters: two slots of the same shape crop a
   * photo identically (as the float ratio slot_w / slot_h does in the source).
   */
  lemma CropDependsOnlyOnRatio(w1: int, h1: int, w2: int, h2: int, imgW: int, imgH: int)
    requires w1 > 0 && h1 > 0 && w2 > 0 && h2 > 0 && imgW > 0 && imgH > 0
    requires w1 * h2 == w2 * h1
    ensures CropBox(w1, h1, imgW, imgH) == CropBox(w2, h2, imgW, imgH)
  {
    var b1, b2 := CropBox(w1, h1, imgW, imgH), CropBox(w2, h2, imgW, imgH);
    SameShapeSameBranch(w1, h1, w2, h2, imgW, imgH);
    if WiderThanSlot(w1, h1, imgW, imgH) {
      WideCrop(w1, h1, imgW, imgH);
      WideCrop(w2, h2, imgW, imgH);
      ScaledFloorsAgree(w1, h1, w2, h2, imgH);
      assert b1.Width() == b2.Width();
      assert b1.left == b2.left;
    } else {
      TallCrop(w1, h1, imgW, imgH);
      TallCrop(w2, h2, imgW, imgH);
      ScaledFloorsAgree(h1, w1, h2, w2, imgW);
      assert b1.Height() == b2.Height();
      assert b1.top == b2.top;
    }
  }

  /** Scaling two equal fractions p1/q1 == p2/q2 by k gives equal floors. */
  lemma ScaledFloorsAgree(p1: int, q1: int, p2: int, q2: int, k: int)
    requires p1 > 0 && q1 > 0 && p2 > 0 && q2 > 0 && k > 0
    requires p1 * q2 == p2 * q1
    ensures (k * p1) / q1 == (k * p2) / q2
  {
    var a, c := k * p1, k * p2;
    assert a * q2 == k * (p1 * q2) == k * (p2 * q1) == c * q1;
    FloorOfEqualFractions(a, q1, c, q2);
  }

  /** Slots of the same shape take the same branch of the crop. */
  lemma SameShapeSameBranch(w1: int, h1: int, w2: int, h2: int, imgW: int, imgH: int)
    requires w1 > 0 && h1 > 0 && w2 > 0 && h2 > 0 && imgW > 0 && imgH > 0
    requires w1 * h2 == w2 * h1
    ensures WiderThanSlot(w1, h1, imgW, imgH) <==> WiderThanSlot(w2, h2, imgW, imgH)
  {
    var a, b := imgW * h1, w1 * imgH;
    var c, d := imgW * h2, w2 * imgH;
    assert a * h2 == c * h1;
    assert b * h2 == imgH * (w1 * h2) == imgH * (w2 * h1) == d * h1;
    if a > b && c <= d {
      MulMonotone(c, d, h1);
      CancelAtMost(a, b, h2);
    } else if a <= b && c > d {
      MulMonotone(a, b, h2);
      CancelAtMost(c, d, h1);
    }
  }

  /** A 1000x500 landscape photo in a 500x700 slot. */
  lemma LandscapeInPortraitSlot()
    ensures CropBox(500, 700, 1000, 500) == Box(321, 0, 678, 500)
  {
  }

  lemma DivOfMultiple(q: int, d: int)
    requires q >= 0 && d > 0
    ensures (q * d) / d == q
  {
    assert (q + 1) * d == q * d + d;
    FloorUnique(q * d, d, q);
  }

  /** Equal fractions a/b == c/d have equal floors. */
  lemma FloorOfEqualFractions(a: int, b: int, c: int, d: int)
    requires a >= 0 && b > 0 && c >= 0 && d > 0
    requires a * d == c * b
    ensures a / b == c / d
  {
    var q := a / b;
    FloorBounds(a, b);
    assert q * b * d <= a * d < (q + 1) * b * d;
    assert q * d * b <= c * b < (q + 1) * d * b;
    CancelAtMost(q * d, c, b);
    CancelLess(c, (q + 1) * d, b);
    FloorUnique(c, d, q);
  }

  lemma FloorUnique(a: int, d: int, q: int)
    requires a >= 0 && d > 0 && q * d <= a < (q + 1) * d
    ensures a / d == q
  {
    FloorBounds(a, d);
    var r := a / d;
    if r < q {
      MulMonotone(r + 1, q, d);
    } else if r > q {
      MulMonotone(q + 1, r, d);
    }
  }

  lemma MulMonotone(x: int, y: int, c: int)
    requires x <= y && c >= 0
    ensures x * c <= y * c
  {
  }

  /** Floor division brackets its dividend. */
  lemma FloorBounds(a: int, d: int)
    requires a >= 0 && d > 0
    ensures 0 <= a / d
    ensures (a / d) * d <= a < (a / d + 1) * d
  {
  }

  lemma CancelLess(x: int, y: int, c: int)
    requires c > 0 && x * c < y * c
    ensures x < y
  {
  }

  lemma CancelAtMost(x: int, y: int, c: int)
    requires c > 0 && x * c <= y * c
    ensures x <= y
  {
  }
}
