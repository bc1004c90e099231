/**
 * The two request handlers of core/views.py that call the compositor:
 * render_frame_view (lines 129-157, the older workflow that takes the
 * session's first photos) and finalize_render (lines 558-587, the slot-based
 * workflow). Storing the render, uploading it and making its QR code are not
 * part of this model.
 */
module Workflow {
  import opened Common
  import opened Compositor
  import opened SlotTable

  datatype WorkflowError = Refused(reason: SlotError) | RenderFailed(cause: RenderError)

  /**
   * The photo selection of render_frame_view (lines 137-154): refused when
   * the session has fewer photos than the frame has slots, otherwise the
   * first maxSlots photos in the session's order.
   */
  function OldWorkflowPhotos<P>(photos: seq<P>, maxSlots: nat): (r: Result<seq<P>, SlotError>)
    ensures r.Success? <==> |photos| >= maxSlots
    ensures r.Failure? ==> r.error == NotEnoughPhotos(maxSlots, |photos|)
    ensures r.Success? ==> |r.value| == maxSlots && forall i :: 0 <= i < maxSlots ==> r.value[i] == photos[i]
  {
    if |photos| < maxSlots then Failure(NotEnoughPhotos(maxSlots, |photos|))
    else Success(photos[..maxSlots])
  }

  /**
   * render_frame_view: with enough photos, every slot of the frame is
   * filled, slot i with the session's photo i.
   */
  method RenderFrameView(layout: Layout, sessionPhotos: seq<SourceImage>) returns (r: Result<array2<Pixel>, WorkflowError>)
    ensures |sessionPhotos| < SlotCount(layout) ==> r == Failure(Refused(NotEnoughPhotos(SlotCount(layout), |sessionPhotos|)))
    ensures |sessionPhotos| >= SlotCount(layout) ==>
      (r.Failure? <==> RenderCheck(layout, sessionPhotos[..SlotCount(layout)]).Some?)
    ensures |sessionPhotos| >= SlotCount(layout) && r.Failure? ==>
      r.error == RenderFailed(RenderCheck(layout, sessionPhotos[..SlotCount(layout)]).value)
    ensures r.Success? ==> fresh(r.value) && Composited(r.value, layout, sessionPhotos[..SlotCount(layout)])
    ensures r.Success? ==> forall x, y :: 0 <= x < r.value.Length0 && 0 <= y < r.value.Length1 ==>
      r.value[x, y] == Layered(layout.slots.value, sessionPhotos, |layout.slots.value|, x, y)
  {
    var maxSlots := SlotCount(layout);
    var selection := OldWorkflowPhotos(sessionPhotos, maxSlots);
    if selection.Failure? {
      return Failure(Refused(selection.error));
    }
    var photos := selection.value;
    assert photos == sessionPhotos[..maxSlots];
    var canvas := RenderFrame(layout, photos);
    if canvas.Failure? {
      return Failure(RenderFailed(canvas.error));
    }
    var slots := layout.slots.value;
    assert Placed(slots, photos) == |slots| == maxSlots;
    forall x, y | 0 <= x < canvas.value.Length0 && 0 <= y < canvas.value.Length1
      ensures canvas.value[x, y] == Layered(slots, sessionPhotos, |slots|, x, y)
    {
      OnlyPlacedPrefixMatters(slots, photos, slots, sessionPhotos, maxSlots, x, y);
    }
    return Success(canvas.value);
  }

  /**
   * finalize_render: refused until every slot of the selected frame is
   * filled; then the compositor receives, for every slot i of the frame, the
   * photo assigned to slot i, and places all of them.
   */
  method FinalizeRender(session: Session, images: map<PhotoId, SourceImage>) returns (r: Result<array2<Pixel>, WorkflowError>)
    requires session.Valid()
    requires forall p :: p in session.photos ==> p in images
    ensures session.selected.None? ==> r == Failure(Refused(NoFrameSelected))
    ensures session.selected.Some? && !(forall i :: 0 <= i < session.Slots() ==> i in session.rows) ==>
      r == Failure(Refused(NotEnoughPhotos(session.Slots(), |session.rows|)))
    ensures r.Success? ==> session.selected.Some? && forall i :: 0 <= i < session.Slots() ==> i in session.rows
    ensures session.selected.Some? && (forall i :: 0 <= i < session.Slots() ==> i in session.rows) ==>
      (r.Failure? <==> RenderCheck(session.frames[session.selected.value], SlotPhotos(session, images)).Some?)
    ensures session.selected.Some? && (forall i :: 0 <= i < session.Slots() ==> i in session.rows) && r.Failure? ==>
      r.error == RenderFailed(RenderCheck(session.frames[session.selected.value], SlotPhotos(session, images)).value)
    ensures r.Success? ==> fresh(r.value)
    ensures r.Success? ==> Composited(r.value, session.frames[session.selected.value], SlotPhotos(session, images))
  {
    var order := session.Finalize();
    if order.Failure? {
      if session.selected.Some? {
        FinalizeSucceedsIffFilled(session.rows, session.Slots());
      }
      return Failure(Refused(order.error));
    }
    var layout := session.frames[session.selected.value];
    assert order.value == InSlotOrder(session.rows, session.Slots());
    var photos := Lookup(images, order.value);
    assert photos == SlotPhotos(session, images);
    var canvas := RenderFrame(layout, photos);
    if canvas.Failure? {
      return Failure(RenderFailed(canvas.error));
    }
    return Success(canvas.value);
  }

  /**
   * The decoded photos of a fully assigned session in slot order: entry i is
   * the photo assigned to slot i, and there is one entry per slot.
   */
  ghost function SlotPhotos(session: Session, images: map<PhotoId, SourceImage>): (ps: seq<SourceImage>)
    reads session
    requires session.Valid() && session.selected.Some?
    requires forall i :: 0 <= i < session.Slots() ==> i in session.rows
    requires forall p :: p in session.photos ==> p in images
    ensures |ps| == session.Slots() == SlotCount(session.frames[session.selected.value])
    ensures forall i :: 0 <= i < |ps| ==> ps[i] == images[session.rows[i]]
  {
    Lookup(images, InSlotOrder(session.rows, session.Slots()))
  }
}
