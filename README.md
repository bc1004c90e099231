# Photobooth frame compositor: a Dafny model

This project models the core of a kiosk photobooth. It covers three parts:

- The frame compositor. Each photo is centre-cropped to its slot's aspect ratio, resized to the slot and pasted onto a white canvas over the frame artwork, in slot order.
- The slot-assignment table. It records which photo fills which slot of a session's chosen frame, and it gates the final render.
- The two request handlers that call the compositor.

Modules:

- `Crop` (crop.dfy): the centre-crop box computed in `render_frame`, with exact integer arithmetic.
- `Compositor` (compositor.dfy): the canvas as an `array2<Pixel>`, laying the frame over it, the clipped rectangle paste and the slot loop of `render_frame`. It also holds the specification `Layered` of what every canvas pixel shows.
- `SlotTable` (slot_table.dfy): a `Session` class whose `rows` map from slot index to photo id is changed in place by frame selection, assignment and removal. It also gives the slot manager's filled count and the finalize guard with its slot-ordered photo list.
- `Workflow` (workflow.dfy): `render_frame_view` (the older workflow, which takes the session's first photos) and `finalize_render` (the slot-based workflow), each feeding the compositor.
- `Common` (common.dfy): `Option`, `Result` and `Lookup`, the values of a list of map keys in list order.

Pixels are symbolic. `Framed(under, x, y)` is the artwork at (x, y), fitted to the canvas and alpha-composited over `under`. `Sample(block, dx, dy)` is pixel (dx, dy) of a photo cropped to a box and resized to the slot's size. Resampling and blending are left to the imaging library. So the contracts say exactly which layer, which photo and which offset inside it every canvas pixel shows.

On these points the model follows what the code does:

- Missing canvas sizes silently default to 1200 x 1800 (core/views.py:216-217).
- A missing `slots` key fails in `render_frame` (core/views.py:231).
- A degenerate slot fails only if the loop reaches it, that is, only if a photo exists for it. A zero height fails at the division on line 241. A negative side fails at the crop or at the resize on line 268. A zero width fails at that resize unless the slot's height equals the photo's height; that one case is not an error (see "## Left out"). No image is produced when a slot fails.
- A negative canvas side is refused by `Image.new` (core/views.py:220). A zero side is refused one step later: the artwork, which is never empty, does not have that size, and resizing it to a zero side fails (core/views.py:224-225).

## Model

| member | source | states |
|---|---|---|
| Crop.CropBox | core/views.py:239-263 | the crop loses width exactly when imgW*slotH > slotW*imgH, the comparison at line 248; it lies inside the photo; it keeps the full height with width floor(imgH*slotW/slotH), or the full width with height floor(imgW*slotH/slotW), so its ratio matches the slot's up to one truncated pixel; the two cut margins differ by at most one pixel |
| Crop.WideCrop | core/views.py:248-255 | for a photo relatively wider than the slot: full height, width floor(imgH*slotW/slotH) strictly less than the photo's, left = (imgW - width) div 2 |
| Crop.TallCrop | core/views.py:256-263 | otherwise: full width, height floor(imgW*slotH/slotW) at most the photo's, top = (imgH - height) div 2 |
| Crop.LosesWidthIffWider | core/views.py:248-263 | the crop is narrower than the photo if and only if imgW*slotH > slotW*imgH |
| Crop.LosesHeightIffTaller | core/views.py:248-263 | the crop is shorter than the photo if and only if imgW*slotH < slotW*imgH |
| Crop.WholePhotoIffSameRatio | core/views.py:241-263 | the crop is the whole photo if and only if the photo and slot ratios are equal |
| Crop.CropDependsOnlyOnRatio | core/views.py:239-263 | two slots with the same aspect ratio crop every photo identically |
| Crop.SameShapeSameBranch | core/views.py:241-248 | two slots with the same aspect ratio take the same branch of the ratio comparison for every photo |
| Crop.LandscapeInPortraitSlot | core/views.py:248-255 | a 1000x500 photo in a 500x700 slot is cropped to (321, 0, 678, 500) |
| Compositor.CanvasWidth | core/views.py:216 | the canvas width is the layout's `w`, or 1200 when the key is absent |
| Compositor.CanvasHeight | core/views.py:217 | the canvas height is the layout's `h`, or 1800 when the key is absent |
| Compositor.SlotBlock | core/views.py:239-268 | the block pasted into a slot is the slot's photo, resized to the slot's w x h, from a crop box inside the photo |
| Compositor.Placed | core/views.py:231-233 | the number of slots that receive a photo is at most the number of slots and at most the number of photos, and equals one of them: the loop stops at the shorter list |
| Compositor.Layered | core/views.py:219-271 | what pixel (x, y) shows after the first k slots are pasted: the frame over white, or a sample of one of the first k photos; the last-wins lemmas below say which |
| Compositor.FirstImproper | core/views.py:231-268 | finds the first slot among those reached that has a non-positive side; none exactly when every reached slot is proper |
| Compositor.RenderCheck | core/views.py:216-268 | the error render_frame meets first, each kind if and only if its cause: a negative canvas side, else a zero one, else no `slots` key, else the first slot that receives a photo and has a non-positive side; no error exactly when both canvas sides are positive, `slots` is present and every slot that receives a photo is proper |
| Compositor.LayFrame | core/views.py:222-228 | every canvas pixel becomes the artwork over its previous value |
| Compositor.Paste | core/views.py:270-271 | the block overwrites exactly the on-canvas part of its rectangle, each pixel getting its offset within the block; every other pixel is unchanged |
| Compositor.RenderFrame | core/views.py:211-277 | fails exactly with the error RenderCheck names; otherwise the fresh canvas has the layout's size (1200 x 1800 by default) and every pixel is Layered after min(len(slots), len(photos)) slots |
| Compositor.LastWins | core/views.py:231-271 | a pixel covered by placed slot j and by no later placed slot shows photo j at its offset in slot j |
| Compositor.FrameShowsIffUncovered | core/views.py:219-271 | a pixel shows the frame layer over white if and only if no placed slot covers it |
| Compositor.PhotoOnlyInItsSlot | core/views.py:231-271 | every photo pixel on the canvas comes from some placed slot j covering it, with no later placed slot covering it, and shows photo j |
| Compositor.OnlyPlacedPrefixMatters | core/views.py:231-235 | slots and photos beyond the placed count do not affect the canvas |
| Compositor.ReplacingPhotoIsLocal | core/views.py:231-271 | replacing photo i changes no pixel where slot i is not the topmost placed slot |
| SlotTable.SlotCount | core/views.py:137 | the number of slots of a frame is the length of its `slots` list, or 0 when the layout has none (also lines 410, 487 and 567) |
| SlotTable.IndexCheckAsWritten | core/views.py:488 | the as-written guard admits exactly the in-range indexes and every negative index |
| SlotTable.FilledCount | core/views.py:422-433 | the filled count never exceeds the slot count |
| SlotTable.AllFilledIff | core/views.py:432-434 | filled_count == len(slots) if and only if every slot index has a row |
| SlotTable.FilledCountIsCardinality | core/views.py:422-433 | the filled count is the number of slot indexes 0..n-1 that have a row |
| SlotTable.RowCountIsFilledCount | core/views.py:570-575 | when every row's index is a slot of the frame, the row count finalize checks equals the filled count |
| SlotTable.SortedKeys | core/views.py:570-573 | the row indexes in strictly ascending order, each a row index, one per row |
| SlotTable.InSlotOrder | core/views.py:582 | entry i is the photo of slot i, one entry per slot |
| SlotTable.Finalized | core/views.py:570-582 | finalize refuses exactly when there are fewer rows than slots, naming both counts; otherwise it lists one photo per row |
| SlotTable.FinalizeSucceedsIffFilled | core/views.py:575 | with all row indexes in range, the count guard passes if and only if every slot is filled |
| SlotTable.FinalizeInSlotOrder | core/views.py:570-582 | with all row indexes in range and the guard passed, the rows in slot-index order are the photos of slots 0, 1, ..., n-1 |
| SlotTable.SlotOrderedKeys | core/views.py:570-582 | with n rows all inside slots 0..n-1, the row keys in slot-index order are exactly 0, 1, ..., n-1 |
| SlotTable.FinalizeSound | core/views.py:570-582 | with all row indexes in range, finalize succeeds if and only if every slot is filled, and then slot i receives its own photo |
| SlotTable.EnoughRowsFillAll | core/views.py:575 | with all row indexes in range, at least as many rows as slots means every slot has a row |
| SlotTable.NegativeIndexShiftsPhotos | core/views.py:486-497 | the as-written bound check admits index -1; rows {-1: p, 0: q} on a two-slot frame pass finalize as [p, q] while only one slot is filled |
| SlotTable.Session.constructor | core/models.py:16-41 | a session starts with no frame selected and no rows |
| SlotTable.Session.SelectFrame | core/views.py:378-389 | an unknown frame is refused with nothing changed; otherwise the frame is selected and all of the session's rows are deleted |
| SlotTable.Session.Assign | core/views.py:470-506 | refuses without a selected frame, for a photo not of this session, or for an index outside the frame's slots, leaving the rows unchanged; otherwise sets or overwrites exactly that slot's row |
| SlotTable.Session.Remove | core/views.py:509-526 | deletes only the row of that slot index, if any |
| SlotTable.Session.View | core/views.py:402-445 | without a frame, no view; otherwise one entry per slot in index order with its photo if assigned, the filled count, and all_filled exactly when every slot is filled |
| SlotTable.Session.Finalize | core/views.py:558-582 | refuses without a frame or with too few rows; succeeds exactly when every slot is filled, then lists slot i's photo at position i |
| Workflow.OldWorkflowPhotos | core/views.py:137-154 | refused exactly when the session has fewer photos than the frame has slots; otherwise the first max_slots photos in order |
| Workflow.RenderFrameView | core/views.py:129-157 | refuses too few photos; otherwise fails exactly when RenderCheck reports an error for the first max_slots photos, with that error, and on success slot i shows the session's photo i |
| Workflow.FinalizeRender | core/views.py:558-587 | refuses without a frame and until every slot is filled; once every slot is filled it fails exactly when RenderCheck reports an error for the photos in slot order, with that error, and otherwise the canvas is the composite of the selected frame with the photo assigned to slot i in slot i, for every slot |
| Workflow.SlotPhotos | core/views.py:570-582 | one decoded photo per slot, entry i the image of the photo assigned to slot i |

## Left out

- Crop.CropBox: uses exact integer floor division and an exact ratio comparison. The source compares and multiplies Python floats, which can round a product that is exactly an integer to just below it. The source's crop may then be one pixel narrower or shorter than the model's.
- Image decoding, the RGB/RGBA conversions and HEIF registration are not modelled, and neither are unreadable artwork or photo files. Photos arrive already decoded, with positive dimensions, as the decoder guarantees.
- Lanczos resampling of the artwork and of the photos, and the alpha blend of the artwork over white, belong to the imaging library. Pixels record which layer, photo and offset they come from, not colour values.
- What Pillow does when it resizes an empty crop is not modelled. The crop is empty when floor(imgH*slotW/slotH) is 0 in the wide branch, or floor(imgW*slotH/slotW) is 0 in the other. The model keeps the symbolic block.
- Compositor.RenderCheck: a slot side that is zero or negative is one error kind, InvalidSlot. The source raises ZeroDivisionError for a zero height and a Pillow ValueError for the other cases. There is one exception: for a slot of width 0 whose height equals the photo's height, the crop is already 0 x h, so the resize returns a copy, the paste changes nothing and the source goes on. The model reports InvalidSlot for that slot.
- JPEG encoding (quality 95, 300 DPI) and the flattening to RGB are not modelled; the model returns the canvas.
- The Firebase upload and listing, the public and local fallback URLs, QR code generation, the ZIP download and saving RenderedPhoto records are network and storage calls; they are left out.
- Slot entries are assumed to carry integer x, y, w and h. A missing key raises KeyError at core/views.py:239, 240 or 271, only for a slot the loop reaches; the model does not represent that error.
- Django persistence, request parsing, templates, redirects and JSON responses are left out. Slot indexes are JSON integers; a missing or non-integer index, which the source turns into an error response or a no-op, is not modelled.
- SlotTable.Session: the session's photo set is fixed when the session is built. Uploading photos, and deleting a photo (which cascades to its slot rows), are not modelled.
- SlotTable.Session: rows are keyed by slot index alone. Selecting a frame deletes every row of the session, so all rows belong to the selected frame, and the (session, frame, slot_index) uniqueness of core/models.py:40 becomes the map's key uniqueness. Frame layouts are fixed for the session's lifetime.
- The live preview's `has_all_photos` check is not modelled.

## Findings

| source | as written | input that shows it | evidently intended | confidence | as-written member | corrected member |
|---|---|---|---|---|---|---|
| core/views.py:488 | `if slot_index >= len(slots)` refuses only indexes past the end, so a negative index is stored as a row | on a two-slot frame, assign photo p to slot -1 and photo q to slot 0, then finalize: the count guard sees 2 rows and passes, slot 1 was never filled, p lands in slot 0 and q in slot 1 | refuse every index outside 0..len(slots)-1 | not executed; high that the guard admits -1, medium that clients send it | SlotTable.NegativeIndexShiftsPhotos | SlotTable.Session.Assign |

`SlotTable.Session.Assign` rejects the whole out-of-range set. `SlotTable.FinalizeSound` proves that, with every row inside the frame's slots, finalize succeeds exactly when every slot is filled and gives slot i its own photo.
