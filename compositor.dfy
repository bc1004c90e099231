/**
 * The frame compositor of core/views.py (render_frame, lines 211-277).
 *
 * A white canvas is created, the frame artwork is laid over all of it, and
 * then, slot by slot in layout order, the photo with the same index is
 * centre-cropped to the slot's shape, resized to the slot's size and pasted
 * opaque at the slot's position, clipped to the canvas. Later slots overwrite
 * earlier ones where their rectangles overlap.
 *
 * Pixels are symbolic: decoding, Lanczos resampling, alpha blending and JPEG
 * encoding belong to the imaging library and are not modelled. A pixel value
 * records where it came from, so that the contracts can say exactly which
 * layer, which photo and which position within the resized photo every
 * canvas pixel shows.
 */
module Compositor {
  import opened Common
  import opened Crop

  /** A dimension of a decoded image: the decoder never yields an empty image. */
  type Dim = n: int | n > 0 witness 1

  /** A photo as the imaging library decodes it. */
  datatype SourceImage = SourceImage(id: nat, width: Dim, height: Dim)

  /** One slot of a frame layout: a rectangle in canvas coordinates (JSON `{x, y, w, h}`). */
  datatype Slot = Slot(x: int, y: int, w: int, h: int)

  /** A frame's `layout_json`; each key may be absent. */
  datatype Layout = Layout(w: Option<int>, h: Option<int>, slots: Option<seq<Slot>>)

  const DefaultCanvasWidth: int := 1200
  const DefaultCanvasHeight: int := 1800

  /** The canvas width: the layout's `w`, or 1200 when the key is absent. */
  function CanvasWidth(layout: Layout): (w: int)
    ensures layout.w.None? ==> w == DefaultCanvasWidth
    ensures layout.w.Some? ==> w == layout.w.value
  {
    layout.w.GetOr(DefaultCanvasWidth)
  }

  /** The canvas height: the layout's `h`, or 1800 when the key is absent. */
  function CanvasHeight(layout: Layout): (h: int)
    ensures layout.h.None? ==> h == DefaultCanvasHeight
    ensures layout.h.Some? ==> h == layout.h.value
  {
    layout.h.GetOr(DefaultCanvasHeight)
  }

  /** `image`, cut down to `crop` and resampled to w x h. */
  datatype Block = Resized(image: SourceImage, crop: Box, w: int, h: int)

  datatype Pixel =
    | White                                  // the background of Image.new
    | Framed(under: Pixel, x: int, y: int)   // the artwork (fitted to the canvas) at (x, y), alpha-composited over `under`
    | Sample(block: Block, dx: int, dy: int) // the pixel at (dx, dy) of a resized photo

  datatype RenderError =
    | NegativeCanvasSize   // Image.new refuses a negative width or height
    | EmptyCanvas          // fitting the (never empty) artwork to a zero width or height fails
    | MissingSlots         // layout["slots"] raises KeyError
    | InvalidSlot(index: nat)  // slot_w / slot_h divides by zero, or the resize to a non-positive size fails

  /** A slot the source can crop and resize for: both sides positive. */
  predicate Proper(s: Slot) { s.w > 0 && s.h > 0 }

  predicate Covers(s: Slot, x: int, y: int)
  {
    s.x <= x < s.x + s.w && s.y <= y < s.y + s.h
  }

  /** The frame layer alone: artwork over white. */
  function Backdrop(x: int, y: int): Pixel { Framed(White, x, y) }

  /** What the source pastes into slot `s` for photo `img` (lines 239-268). */
  function SlotBlock(s: Slot, img: SourceImage): (b: Block)
    requires Proper(s)
    ensures b.image == img && b.w == s.w && b.h == s.h
    ensures 0 <= b.crop.left <= b.crop.right <= img.width
    ensures 0 <= b.crop.top <= b.crop.bottom <= img.height
  {
    Resized(img, CropBox(s.w, s.h, img.width, img.height), s.w, s.h)
  }

  /** The pixel that slot `s`, holding `img`, puts at canvas position (x, y). */
  function SlotPixel(s: Slot, img: SourceImage, x: int, y: int): Pixel
    requires Proper(s)
  {
    Sample(SlotBlock(s, img), x - s.x, y - s.y)
  }

  /** The number of slots that receive a photo: the loop stops at the shorter list. */
  function Placed(slots: seq<Slot>, photos: seq<SourceImage>): (p: nat)
    ensures p <= |slots| && p <= |photos|
    ensures p == |slots| || p == |photos|
  {
    if |slots| <= |photos| then |slots| else |photos|
  }

  /** Canvas pixel (x, y) once the first k slots have been pasted. */
  function Layered(slots: seq<Slot>, photos: seq<SourceImage>, k: nat, x: int, y: int): (p: Pixel)
    requires k <= |slots| && k <= |photos|
    requires forall i :: 0 <= i < k ==> Proper(slots[i])
    ensures p == Backdrop(x, y) || (p.Sample? && p.block.image in photos[..k])
  {
    if k == 0 then Backdrop(x, y)
    else if Covers(slots[k - 1], x, y) then
      assert photos[..k][k - 1] == photos[k - 1];
      SlotPixel(slots[k - 1], photos[k - 1], x, y)
    else
      assert photos[..k] == photos[..k - 1] + [photos[k - 1]];
      Layered(slots, photos, k - 1, x, y)
  }

  /** The first improper slot among slots[i..n], the one the loop fails on. */
  function FirstImproper(slots: seq<Slot>, i: nat, n: nat): (r: Option<nat>)
    requires n <= |slots|
    decreases n - i
    ensures r.None? <==> forall j :: i <= j < n ==> Proper(slots[j])
    ensures r.Some? ==> i <= r.value < n && !Proper(slots[r.value])
    ensures r.Some? ==> forall j :: i <= j < r.value ==> Proper(slots[j])
  {
    if i >= n then None
    else if !Proper(slots[i]) then Some(i)
    else FirstImproper(slots, i + 1, n)
  }

  /** Both canvas sides are positive: Image.new and the artwork resize accept them. */
  predicate PositiveCanvas(layout: Layout)
  {
    CanvasWidth(layout) > 0 && CanvasHeight(layout) > 0
  }

  /**
   * The error render_frame raises for these inputs, if any, in the order it
   * meets them: a negative canvas side (line 220), a zero one (the artwork
   * resize on line 225), a missing `slots` key (line 231), then the first
   * slot the loop reaches that cannot be cropped and resized (lines 241-268).
   */
  function RenderCheck(layout: Layout, photos: seq<SourceImage>): (r: Option<RenderError>)
    ensures r == Some(NegativeCanvasSize) <==> CanvasWidth(layout) < 0 || CanvasHeight(layout) < 0
    ensures r == Some(EmptyCanvas) <==>
      CanvasWidth(layout) >= 0 && CanvasHeight(layout) >= 0 && !PositiveCanvas(layout)
    ensures r == Some(MissingSlots) <==> PositiveCanvas(layout) && layout.slots.None?
    ensures r.None? <==>
      && PositiveCanvas(layout) && layout.slots.Some?
      && forall i :: 0 <= i < Placed(layout.slots.value, photos) ==> Proper(layout.slots.value[i])
    ensures r.Some? && r.value.InvalidSlot? ==>
      && PositiveCanvas(layout) && layout.slots.Some?
      && r.value.index < Placed(layout.slots.value, photos)
      && !Proper(layout.slots.value[r.value.index])
      && forall j :: 0 <= j < r.value.index ==> Proper(layout.slots.value[j])
  {
    if CanvasWidth(layout) < 0 || CanvasHeight(layout) < 0 then Some(NegativeCanvasSize)
    else if !PositiveCanvas(layout) then Some(EmptyCanvas)
    else if layout.slots.None? then Some(MissingSlots)
    else match FirstImproper(layout.slots.value, 0, Placed(layout.slots.value, photos))
      case None => None
      case Some(i) => Some(InvalidSlot(i))
  }

  /**
   * `canvas` is the finished composite of `layout` and `photos`: it has the
   * layout's size and every pixel is the layered value after all placed slots.
   */
  ghost predicate Composited(canvas: array2<Pixel>, layout: Layout, photos: seq<SourceImage>)
    reads canvas
  {
    && RenderCheck(layout, photos).None?
    && canvas.Length0 == CanvasWidth(layout) && canvas.Length1 == CanvasHeight(layout)
    && forall x, y :: 0 <= x < canvas.Length0 && 0 <= y < canvas.Length1 ==>
         canvas[x, y] == Layered(layout.slots.value, photos, Placed(layout.slots.value, photos), x, y)
  }

  /** Lays the frame artwork over every pixel of the canvas (line 228). */
  method LayFrame(canvas: array2<Pixel>)
    modifies canvas
    ensures forall x, y :: 0 <= x < canvas.Length0 && 0 <= y < canvas.Length1 ==>
      canvas[x, y] == Framed(old(canvas[x, y]), x, y)
  {
    var x := 0;
    while x < canvas.Length0
      invariant 0 <= x <= canvas.Length0
      invariant forall i, j :: 0 <= i < canvas.Length0 && 0 <= j < canvas.Length1 ==>
        canvas[i, j] == if i < x then Framed(old(canvas[i, j]), i, j) else old(canvas[i, j])
    {
      var y := 0;
      while y < canvas.Length1
        invariant 0 <= y <= canvas.Length1
        invariant forall i, j :: 0 <= i < canvas.Length0 && 0 <= j < canvas.Length1 ==>
          canvas[i, j] == if i < x || (i == x && j < y) then Framed(old(canvas[i, j]), i, j) else old(canvas[i, j])
      {
        canvas[x, y] := Framed(canvas[x, y], x, y);
        y := y + 1;
      }
      x := x + 1;
    }
  }

  predicate InBlock(b: Block, px: int, py: int, x: int, y: int)
  {
    px <= x < px + b.w && py <= y < py + b.h
  }

  /**
   * Pastes block b opaque with its top-left corner at (px, py) (line 271):
   * the part of its rectangle that lies on the canvas is overwritten, every
   * other pixel keeps its value.
   */
  method Paste(canvas: array2<Pixel>, b: Block, px: int, py: int)
    modifies canvas
    ensures forall x, y :: 0 <= x < canvas.Length0 && 0 <= y < canvas.Length1 ==>
      canvas[x, y] == if InBlock(b, px, py, x, y) then Sample(b, x - px, y - py) else old(canvas[x, y])
  {
    var x0 := if px < 0 then 0 else px;
    var x1 := if px + b.w < canvas.Length0 then px + b.w else canvas.Length0;
    var y0 := if py < 0 then 0 else py;
    var y1 := if py + b.h < canvas.Length1 then py + b.h else canvas.Length1;
    var x := x0;
    while x < x1
      invariant x0 <= x && (x0 <= x1 ==> x <= x1)
      invariant forall i, j :: 0 <= i < canvas.Length0 && 0 <= j < canvas.Length1 ==>
        canvas[i, j] == if InBlock(b, px, py, i, j) && i < x then Sample(b, i - px, j - py) else old(canvas[i, j])
    {
      var y := y0;
      while y < y1
        invariant y0 <= y && (y0 <= y1 ==> y <= y1)
        invariant forall i, j :: 0 <= i < canvas.Length0 && 0 <= j < canvas.Length1 ==>
          canvas[i, j] == if InBlock(b, px, py, i, j) && (i < x || (i == x && j < y))
                          then Sample(b, i - px, j - py) else old(canvas[i, j])
      {
        canvas[x, y] := Sample(b, x - px, y - py);
        y := y + 1;
      }
      x := x + 1;
    }
  }

  /**
   * render_frame (lines 211-277) up to the final encode. It fails exactly as
   * RenderCheck says; otherwise the canvas has the layout's size (1200 x 1800
   * by default) and every pixel is the layered value after the first
   * Placed(slots, photos) slots.
   */
  method RenderFrame(layout: Layout, photos: seq<SourceImage>) returns (r: Result<array2<Pixel>, RenderError>)
    ensures r.Failure? <==> RenderCheck(layout, photos).Some?
    ensures r.Failure? ==> r.error == RenderCheck(layout, photos).value
    ensures r.Success? ==> fresh(r.value) && Composited(r.value, layout, photos)
  {
    var w, h := CanvasWidth(layout), CanvasHeight(layout);
    if w < 0 || h < 0 {
      return Failure(NegativeCanvasSize);
    }
    var canvas := new Pixel[w, h]((_, _) => White);
    if w == 0 || h == 0 {
      return Failure(EmptyCanvas);
    }
    LayFrame(canvas);
    if layout.slots.None? {
      return Failure(MissingSlots);
    }
    var slots := layout.slots.value;
    var idx := 0;
    while idx < |slots|
      invariant 0 <= idx <= |slots| && idx <= |photos|
      invariant forall i :: 0 <= i < idx ==> Proper(slots[i])
      invariant forall x, y :: 0 <= x < w && 0 <= y < h ==> canvas[x, y] == Layered(slots, photos, idx, x, y)
    {
      if idx >= |photos| {
        break;
      }
      var slot := slots[idx];
      if !Proper(slot) {
        return Failure(InvalidSlot(idx));
      }
      var photo := photos[idx];
      var box := CropBox(slot.w, slot.h, photo.width, photo.height);
      Paste(canvas, Resized(photo, box, slot.w, slot.h), slot.x, slot.y);
      idx := idx + 1;
    }
    return Success(canvas);
  }

  /**
   * Last wins: a pixel covered by slot j and by no later placed slot shows
   * slot j's photo, at its offset within the slot.
   */
  lemma {:induction false} LastWins(slots: seq<Slot>, photos: seq<SourceImage>, k: nat, x: int, y: int, j: nat)
    requires k <= |slots| && k <= |photos|
    requires forall i :: 0 <= i < k ==> Proper(slots[i])
    requires j < k && Covers(slots[j], x, y)
    requires forall i :: j < i < k ==> !Covers(slots[i], x, y)
    ensures Layered(slots, photos, k, x, y) == Sample(SlotBlock(slots[j], photos[j]), x - slots[j].x, y - slots[j].y)
  {
    if k - 1 != j {
      LastWins(slots, photos, k - 1, x, y, j);
    }
  }

  /** A pixel shows the frame layer exactly when no placed slot covers it. */
  lemma {:induction false} FrameShowsIffUncovered(slots: seq<Slot>, photos: seq<SourceImage>, k: nat, x: int, y: int)
    requires k <= |slots| && k <= |photos|
    requires forall i :: 0 <= i < k ==> Proper(slots[i])
    ensures Layered(slots, photos, k, x, y) == Backdrop(x, y) <==> forall i :: 0 <= i < k ==> !Covers(slots[i], x, y)
  {
    if k > 0 {
      FrameShowsIffUncovered(slots, photos, k - 1, x, y);
    }
  }

  /**
   * A photo pixel on the canvas comes from the topmost placed slot covering
   * that position, and from the photo with that slot's index.
   */
  lemma {:induction false} PhotoOnlyInItsSlot(slots: seq<Slot>, photos: seq<SourceImage>, k: nat, x: int, y: int)
    requires k <= |slots| && k <= |photos|
    requires forall i :: 0 <= i < k ==> Proper(slots[i])
    requires Layered(slots, photos, k, x, y).Sample?
    ensures exists j :: (0 <= j < k && Covers(slots[j], x, y)
      && Layered(slots, photos, k, x, y) == Sample(SlotBlock(slots[j], photos[j]), x - slots[j].x, y - slots[j].y)
      && (forall i :: j < i < k ==> !Covers(slots[i], x, y)))
  {
    if Covers(slots[k - 1], x, y) {
      var j := k - 1;
      assert Covers(slots[j], x, y)
        && Layered(slots, photos, k, x, y) == Sample(SlotBlock(slots[j], photos[j]), x - slots[j].x, y - slots[j].y);
    } else {
      PhotoOnlyInItsSlot(slots, photos, k - 1, x, y);
      var j :| 0 <= j < k - 1 && Covers(slots[j], x, y)
        && Layered(slots, photos, k - 1, x, y) == Sample(SlotBlock(slots[j], photos[j]), x - slots[j].x, y - slots[j].y)
        && (forall i :: j < i < k - 1 ==> !Covers(slots[i], x, y));
      assert forall i :: j < i < k ==> !Covers(slots[i], x, y);
    }
  }

  /**
   * Only the first k slots and the first k photos take part: slots and
   * photos beyond the placed count (extra photos, unfilled slots) change
   * nothing on the canvas.
   */
  lemma {:induction false} OnlyPlacedPrefixMatters(s1: seq<Slot>, p1: seq<SourceImage>, s2: seq<Slot>, p2: seq<SourceImage>, k: nat, x: int, y: int)
    requires k <= |s1| && k <= |p1| && k <= |s2| && k <= |p2|
    requires forall i :: 0 <= i < k ==> s1[i] == s2[i] && p1[i] == p2[i]
    requires forall i :: 0 <= i < k ==> Proper(s1[i])
    ensures Layered(s1, p1, k, x, y) == Layered(s2, p2, k, x, y)
  {
    if k > 0 {
      OnlyPlacedPrefixMatters(s1, p1, s2, p2, k - 1, x, y);
    }
  }

  /**
   * Replacing photo i changes only the pixels where slot i is the topmost
   * placed slot; everywhere else the canvas is unchanged.
   */
  lemma {:induction false} ReplacingPhotoIsLocal(slots: seq<Slot>, photos: seq<SourceImage>, k: nat, i: nat, img: SourceImage, x: int, y: int)
    requires k <= |slots| && k <= |photos| && i < |photos|
    requires forall n :: 0 <= n < k ==> Proper(slots[n])
    requires i >= k || !Covers(slots[i], x, y) || exists j :: i < j < k && Covers(slots[j], x, y)
    ensures Layered(slots, photos[i := img], k, x, y) == Layered(slots, photos, k, x, y)
  {
    if k > 0 {
      if k - 1 == i {
        assert !Covers(slots[i], x, y);
        ReplacingPhotoIsLocal(slots, photos, k - 1, i, img, x, y);
      } else if Covers(slots[k - 1], x, y) {
        assert photos[i := img][k - 1] == photos[k - 1];
      } else {
        ReplacingPhotoIsLocal(slots, photos, k - 1, i, img, x, y);
      }
    }
  }
}
