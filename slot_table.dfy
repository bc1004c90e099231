/**
 * The slot-assignment table of the slot-based workflow (core/views.py,
 * lines 374-630; the PhotoSlot model of core/models.py, lines 30-41).
 *
 * A PhotoSlot row says which photo fills which slot of a session's frame; at
 * most one row exists per (session, frame, slot_index). Choosing a frame
 * deletes every row of the session, so all rows of a session belong to its
 * currently selected frame and the table of one session is a map from slot
 * index to photo.
 */
module SlotTable {
  import opened Common
  import Compositor

  type PhotoId = nat
  type FrameId = nat

  datatype SlotError =
    | NoFrameSelected
    | FrameNotFound
    | PhotoNotFound
    | InvalidSlotIndex
    | NotEnoughPhotos(required: nat, available: nat)

  /** One entry of `slots_info`; `is_filled` is `photo.Some?`. */
  datatype SlotInfo = SlotInfo(index: nat, photo: Option<PhotoId>)

  /** What the slot manager page shows. */
  datatype SlotView = SlotView(slots: seq<SlotInfo>, filledCount: nat, allFilled: bool, totalSlots: nat)

  /** The number of slots of a frame; a layout without a `slots` key counts as none. */
  function SlotCount(layout: Compositor.Layout): (n: nat)
    ensures layout.slots.None? ==> n == 0
    ensures layout.slots.Some? ==> n == |layout.slots.value|
  {
    if layout.slots.Some? then |layout.slots.value| else 0
  }

  /** The slot indexes a frame accepts (the corrected bound check). */
  predicate IndexInRange(idx: int, n: nat)
  {
    0 <= idx < n
  }

  /** The bound check as written at line 488: only indexes >= n are refused. */
  predicate IndexCheckAsWritten(idx: int, n: nat): (ok: bool)
    ensures ok <==> IndexInRange(idx, n) || idx < 0
  {
    !(idx >= n)
  }

  /** How many of the slots 0..n-1 have a row (lines 422-433). */
  function FilledCount(rows: map<int, PhotoId>, n: nat): (c: nat)
    ensures c <= n
  {
    if n == 0 then 0 else FilledCount(rows, n - 1) + (if n - 1 in rows then 1 else 0)
  }

  /** The slots are all filled exactly when the filled count reaches the slot count (line 434). */
  lemma {:induction false} AllFilledIff(rows: map<int, PhotoId>, n: nat)
    ensures FilledCount(rows, n) == n <==> forall i :: 0 <= i < n ==> i in rows
  {
    if n > 0 {
      AllFilledIff(rows, n - 1);
    }
  }

  /** The filled count is the number of rows whose index is a slot of the frame. */
  lemma {:induction false} FilledCountIsCardinality(rows: map<int, PhotoId>, n: nat)
    ensures FilledCount(rows, n) == |set i | 0 <= i < n && i in rows|
  {
    if n > 0 {
      FilledCountIsCardinality(rows, n - 1);
      var before := set i | 0 <= i < n - 1 && i in rows;
      var after := set i | 0 <= i < n && i in rows;
      if n - 1 in rows {
        assert after == before + {n - 1};
      } else {
        assert after == before;
      }
    }
  }

  /** When every row is for a slot of the frame, the row count is the filled count. */
  lemma RowCountIsFilledCount(rows: map<int, PhotoId>, n: nat)
    requires forall i :: i in rows ==> 0 <= i < n
    ensures |rows| == FilledCount(rows, n)
  {
    FilledCountIsCardinality(rows, n);
    assert rows.Keys == set i | 0 <= i < n && i in rows;
  }

  /** A finite set of integers holding y has a least element. */
  lemma {:induction false} MinExists(s: set<int>, y: int)
    requires y in s
    ensures exists m :: IsLeast(m, s)
    decreases |s|
  {
    var rest := s - {y};
    if exists z :: z in rest {
      var z :| z in rest;
      MinExists(rest, z);
      var m :| IsLeast(m, rest);
      var least := if y < m then y else m;
      forall x | x in s
        ensures least <= x
      {
        if x != y {
          assert x in rest;
        }
      }
      assert IsLeast(least, s);
    } else {
      forall x | x in s
        ensures y <= x
      {
        assert x !in rest;
      }
      assert IsLeast(y, s);
    }
  }

  ghost predicate IsLeast(m: int, s: set<int>)
  {
    m in s && forall x :: x in s ==> m <= x
  }

  /** The keys of a row set in ascending order: `order_by('slot_index')`. */
  ghost function SortedKeys(s: set<int>): (r: seq<int>)
    ensures |r| == |s|
    ensures forall i :: 0 <= i < |r| ==> r[i] in s
    ensures forall i, j :: 0 <= i < j < |r| ==> r[i] < r[j]
    decreases |s|
  {
    if exists y :: y in s then
      var y :| y in s;
      MinExists(s, y);
      var m :| IsLeast(m, s);
      var r := [m] + SortedKeys(s - {m});
      LeastThenIncreasing(m, s - {m}, SortedKeys(s - {m}));
      r
    else
      assert s == {};
      []
  }

  lemma LeastThenIncreasing(m: int, rest: set<int>, tail: seq<int>)
    requires forall x :: x in rest ==> m < x
    requires forall i :: 0 <= i < |tail| ==> tail[i] in rest
    requires forall i, j :: 0 <= i < j < |tail| ==> tail[i] < tail[j]
    ensures forall i, j :: 0 <= i < j < |[m] + tail| ==> ([m] + tail)[i] < ([m] + tail)[j]
  {
  }

  /** The photos of slots 0..n-1, in slot order. */
  function InSlotOrder(rows: map<int, PhotoId>, n: nat): (ps: seq<PhotoId>)
    requires forall i :: 0 <= i < n ==> i in rows
    ensures |ps| == n
    ensures forall i :: 0 <= i < n ==> ps[i] == rows[i]
  {
    if n == 0 then [] else InSlotOrder(rows, n - 1) + [rows[n - 1]]
  }

  /**
   * What finalize_render passes on to the compositor (lines 570-582): it
   * refuses when there are fewer rows than slots, and otherwise lists the
   * photos of all rows ordered by slot index.
   */
  ghost function Finalized(rows: map<int, PhotoId>, n: nat): (r: Result<seq<PhotoId>, SlotError>)
    ensures r.Failure? <==> |rows| < n
    ensures r.Failure? ==> r.error == NotEnoughPhotos(n, |rows|)
    ensures r.Success? ==> |r.value| == |rows|
  {
    if |rows| < n then Failure(NotEnoughPhotos(n, |rows|))
    else Success(Lookup(rows, SortedKeys(rows.Keys)))
  }

  /** A strictly increasing sequence climbs at least one per step. */
  lemma {:induction false} IncreasingSpread(r: seq<int>, i: nat, j: nat)
    requires forall a, b :: 0 <= a < b < |r| ==> r[a] < r[b]
    requires i <= j < |r|
    ensures r[j] - r[i] >= j - i
    decreases j - i
  {
    if i < j {
      IncreasingSpread(r, i + 1, j);
    }
  }

  /** A strictly increasing sequence of n values in 0..n-1 is 0, 1, ..., n-1. */
  lemma IncreasingInRangeIsIdentity(r: seq<int>, n: nat)
    requires |r| == n
    requires forall a, b :: 0 <= a < b < |r| ==> r[a] < r[b]
    requires forall i :: 0 <= i < n ==> 0 <= r[i] < n
    ensures forall i :: 0 <= i < n ==> r[i] == i
  {
    forall i | 0 <= i < n
      ensures r[i] == i
    {
      IncreasingSpread(r, 0, i);
      IncreasingSpread(r, i, n - 1);
    }
  }

  /**
   * With every row inside the frame's slots, finalize succeeds exactly when
   * every slot is filled, and then slot i receives the photo assigned to it.
   */
  lemma FinalizeSound(rows: map<int, PhotoId>, n: nat)
    requires forall i :: i in rows ==> IndexInRange(i, n)
    ensures Finalized(rows, n).Success? <==> forall i :: 0 <= i < n ==> i in rows
    ensures Finalized(rows, n).Success? ==> Finalized(rows, n).value == InSlotOrder(rows, n)
  {
    FinalizeSucceedsIffFilled(rows, n);
    if |rows| >= n {
      FinalizeInSlotOrder(rows, n);
    }
  }

  lemma FinalizeSucceedsIffFilled(rows: map<int, PhotoId>, n: nat)
    requires forall i :: i in rows ==> IndexInRange(i, n)
    ensures |rows| >= n <==> forall i :: 0 <= i < n ==> i in rows
  {
    RowCountIsFilledCount(rows, n);
    AllFilledIff(rows, n);
  }

  lemma FinalizeInSlotOrder(rows: map<int, PhotoId>, n: nat)
    requires forall i :: i in rows ==> IndexInRange(i, n)
    requires |rows| >= n
    ensures forall i :: 0 <= i < n ==> i in rows
    ensures Lookup(rows, SortedKeys(rows.Keys)) == InSlotOrder(rows, n)
  {
    FinalizeSucceedsIffFilled(rows, n);
    SlotOrderedKeys(rows, n);
    SlotIndexesLookup(rows, n);
  }

  /** The slot indexes 0, 1, ..., n-1. */
  function SlotIndexes(n: nat): (r: seq<int>)
    ensures |r| == n && forall i :: 0 <= i < n ==> r[i] == i
  {
    seq(n, i => i)
  }

  /** Looking up slots 0..n-1 in turn lists the photos in slot order. */
  lemma SlotIndexesLookup(rows: map<int, PhotoId>, n: nat)
    requires forall i :: 0 <= i < n ==> i in rows
    ensures Lookup(rows, SlotIndexes(n)) == InSlotOrder(rows, n)
  {
    var ps, want := Lookup(rows, SlotIndexes(n)), InSlotOrder(rows, n);
    assert |ps| == n == |want|;
    assert forall i :: 0 <= i < n ==> ps[i] == rows[i] == want[i];
  }

  /** With n rows inside slots 0..n-1, the rows in slot-index order are those of slots 0, 1, ..., n-1. */
  lemma SlotOrderedKeys(rows: map<int, PhotoId>, n: nat)
    requires forall i :: i in rows ==> IndexInRange(i, n)
    requires |rows| >= n
    ensures SortedKeys(rows.Keys) == SlotIndexes(n)
  {
    RowCountIsFilledCount(rows, n);
    var keys := SortedKeys(rows.Keys);
    assert |keys| == n by {
      assert |rows.Keys| == |rows|;
    }
    forall i | 0 <= i < n
      ensures 0 <= keys[i] < n
    {
      assert keys[i] in rows.Keys;
    }
    IncreasingInRangeIsIdentity(keys, n);
    assert keys == SlotIndexes(n);
  }

  /** With every row inside the frame's slots, as many rows as slots means every slot is filled. */
  lemma EnoughRowsFillAll(rows: map<int, PhotoId>, n: nat)
    requires forall i :: i in rows ==> IndexInRange(i, n)
    requires |rows| >= n
    ensures forall i :: 0 <= i < n ==> i in rows
  {
    RowCountIsFilledCount(rows, n);
    AllFilledIff(rows, n);
  }

  /**
   * The as-written bound check admits slot index -1. With rows for -1 and 0
   * on a two-slot frame, finalize's count guard passes although slot 1 was
   * never filled, and the photo assigned to -1 lands in slot 0 and the one
   * assigned to 0 in slot 1.
   */
  lemma NegativeIndexShiftsPhotos(p: PhotoId, q: PhotoId)
    ensures IndexCheckAsWritten(-1, 2) && !IndexInRange(-1, 2)
    ensures FilledCount(map[-1 := p, 0 := q], 2) == 1
    ensures Finalized(map[-1 := p, 0 := q], 2) == Success([p, q])
  {
    var rows: map<int, PhotoId> := map[-1 := p, 0 := q];
    assert rows.Keys == {-1, 0};
    assert |rows| == 2 by {
      assert |rows.Keys| == |rows|;
    }
    var keys := SortedKeys(rows.Keys);
    assert |keys| == 2 && keys[0] < keys[1];
    assert keys[0] in rows.Keys && keys[1] in rows.Keys;
    assert keys == [-1, 0];
    var ps := Lookup<int, PhotoId>(rows, keys);
    assert |ps| == 2 && ps[0] == p && ps[1] == q;
    assert Finalized(rows, 2) == Success(ps);
    assert ps == [p, q];
    assert Finalized(rows, 2) == Success([p, q]);
  }

  /** The slot-based workflow state of one session. */
  class Session {
    /** The layouts of all frames, by id. */
    const frames: map<FrameId, Compositor.Layout>
    /** The photos uploaded to this session. */
    const photos: set<PhotoId>
    /** `session.selected_frame`. */
    var selected: Option<FrameId>
    /** The session's PhotoSlot rows, keyed by slot index. */
    var rows: map<int, PhotoId>

    ghost predicate Valid()
      reads this
    {
      && (selected.Some? ==> selected.value in frames)
      && (forall i :: i in rows ==> selected.Some? && IndexInRange(i, SlotCount(frames[selected.value])))
      && (forall i :: i in rows ==> rows[i] in photos)
    }

    /** The number of slots of the selected frame. */
    function Slots(): nat
      reads this
      requires Valid() && selected.Some?
    {
      SlotCount(frames[selected.value])
    }

    constructor (frames: map<FrameId, Compositor.Layout>, photos: set<PhotoId>)
      ensures Valid()
      ensures this.frames == frames && this.photos == photos
      ensures selected == None && rows == map[]
    {
      this.frames := frames;
      this.photos := photos;
      selected := None;
      rows := map[];
    }

    /** frame_selection (lines 378-389): select a frame and clear the session's rows. */
    method SelectFrame(f: FrameId) returns (err: Option<SlotError>)
      requires Valid()
      modifies this
      ensures Valid()
      ensures err.None? <==> f in frames
      ensures err.Some? ==> err.value == FrameNotFound && selected == old(selected) && rows == old(rows)
      ensures err.None? ==> selected == Some(f) && rows == map[]
    {
      if f !in frames {
        return Some(FrameNotFound);
      }
      selected := Some(f);
      rows := map[];
      return None;
    }

    /**
     * assign_photo_to_slot (lines 470-506) with the corrected bound check:
     * sets or overwrites the row of exactly that slot; on any error the
     * table is unchanged.
     */
    method Assign(photo: PhotoId, idx: int) returns (err: Option<SlotError>)
      requires Valid()
      modifies this
      ensures Valid() && selected == old(selected)
      ensures selected.None? ==> err == Some(NoFrameSelected)
      ensures selected.Some? && photo !in photos ==> err == Some(PhotoNotFound)
      ensures selected.Some? && photo in photos && !IndexInRange(idx, Slots()) ==> err == Some(InvalidSlotIndex)
      ensures err.None? <==> selected.Some? && photo in photos && IndexInRange(idx, Slots())
      ensures err.Some? ==> rows == old(rows)
      ensures err.None? ==> rows == old(rows)[idx := photo]
    {
      if selected.None? {
        return Some(NoFrameSelected);
      }
      if photo !in photos {
        return Some(PhotoNotFound);
      }
      if !IndexInRange(idx, SlotCount(frames[selected.value])) {
        return Some(InvalidSlotIndex);
      }
      rows := rows[idx := photo];
      return None;
    }

    /**
     * remove_photo_from_slot (lines 509-526): deletes the row of that slot
     * of the selected frame, if any; without a selected frame nothing matches.
     */
    method Remove(idx: int)
      requires Valid()
      modifies this
      ensures Valid() && selected == old(selected)
      ensures rows == old(rows) - {idx}
    {
      if selected.Some? {
        rows := rows - {idx};
      }
    }

    /** slot_manager (lines 402-445): the slot list, the filled count and whether all slots are filled. */
    method View() returns (r: Option<SlotView>)
      requires Valid()
      ensures r.None? <==> selected.None?
      ensures r.Some? ==> r.value.totalSlots == Slots() && |r.value.slots| == Slots()
      ensures r.Some? ==> forall i :: 0 <= i < Slots() ==>
        r.value.slots[i] == SlotInfo(i, if i in rows then Some(rows[i]) else None)
      ensures r.Some? ==> r.value.filledCount == FilledCount(rows, Slots())
      ensures r.Some? ==> (r.value.allFilled <==> forall i :: 0 <= i < Slots() ==> i in rows)
    {
      if selected.None? {
        return None;
      }
      var n := SlotCount(frames[selected.value]);
      var info: seq<SlotInfo> := [];
      var idx := 0;
      while idx < n
        invariant 0 <= idx <= n && |info| == idx
        invariant forall i :: 0 <= i < idx ==> info[i] == SlotInfo(i, if i in rows then Some(rows[i]) else None)
      {
        info := info + [SlotInfo(idx, if idx in rows then Some(rows[idx]) else None)];
        idx := idx + 1;
      }
      var filled := 0;
      var k := 0;
      while k < n
        invariant 0 <= k <= n
        invariant filled == FilledCount(rows, k)
      {
        if info[k].photo.Some? {
          filled := filled + 1;
        }
        k := k + 1;
      }
      AllFilledIff(rows, n);
      return Some(SlotView(info, filled, filled == n, n));
    }

    /**
     * finalize_render's guards and ordering (lines 558-582): the photos to
     * render, slot i's photo at position i, or the reason for refusing.
     */
    method Finalize() returns (r: Result<seq<PhotoId>, SlotError>)
      requires Valid()
      ensures selected.None? ==> r == Failure(NoFrameSelected)
      ensures selected.Some? ==> r == Finalized(rows, Slots())
      ensures r.Success? <==> selected.Some? && forall i :: 0 <= i < Slots() ==> i in rows
      ensures r.Success? ==> |r.value| == Slots() && forall i :: 0 <= i < Slots() ==> r.value[i] == rows[i]
    {
      if selected.None? {
        return Failure(NoFrameSelected);
      }
      var n := SlotCount(frames[selected.value]);
      assert n == Slots();
      var table := rows;
      if |table| < n {
        FinalizeSound(table, n);
        return Failure(NotEnoughPhotos(n, |table|));
      }
      EnoughRowsFillAll(table, n);
      var ordered: seq<PhotoId> := [];
      var i := 0;
      while i < n
        invariant 0 <= i <= n
        invariant forall j :: 0 <= j < n ==> j in table
        invariant ordered == InSlotOrder(table, i)
      {
        ordered := ordered + [table[i]];
        i := i + 1;
      }
      assert ordered == InSlotOrder(table, n);
      FinalizeSound(table, n);
      return Success(ordered);
    }
  }
}
