/**
 * The frame store: the fixed array of converted frames that the decode phase
 * fills in place (`rgb_frame_array` in A5.c) and the playback side reads.
 */
module Store {
  import opened Media

  /** One store write: the slot written and the frame put there. */
  datatype Write = Write(index: int, frame: StoredFrame)

  /** Every write names a slot below n. */
  ghost predicate IndicesBelow(ws: seq<Write>, n: int)
  {
    forall w :: w in ws ==> 0 <= w.index < n
  }

  /** Every write lands inside the store. */
  ghost predicate WritesInRange(ws: seq<Write>)
  {
    IndicesBelow(ws, NUM_FRAMES)
  }

  /** The slots after performing `ws` in order on `slots`. */
  ghost function Apply(slots: seq<Option<RgbFrame>>, ws: seq<Write>): (r: seq<Option<RgbFrame>>)
    requires IndicesBelow(ws, |slots|)
    ensures |r| == |slots|
    decreases |ws|
  {
    if ws == [] then slots
    else
      assert forall w :: w in ws[1..] ==> w in ws;
      Apply(slots[ws[0].index := Some(ws[0].frame)], ws[1..])
  }

  /** NUM_FRAMES empty slots. */
  ghost function EmptySlots(): (r: seq<Option<RgbFrame>>)
    ensures |r| == NUM_FRAMES
  {
    seq(NUM_FRAMES, _ => None)
  }

  /**
   * What save_rgb_frame does to the store for one decoded frame: None when the
   * process exits because the frame struct could not be allocated.
   */
  function SaveWrite(src: RawFrame, fnumber: int, conv: Conversion): (r: Option<Write>)
    ensures r.None? <==> !conv.frameAllocated
    ensures r.Some? ==> r.value.index == fnumber - 1 && r.value.frame.format == Rgb24
    ensures r.Some? ==> r.value.frame.width == src.width && r.value.frame.height == src.height
  {
    match ConvertFrame(src, conv)
    case None => None
    case Some(f) => Some(Write(fnumber - 1, f))
  }

  /** Outcome of one save: the slot written, or the process exit status. */
  datatype SaveStatus = Saved(index: int) | Exited(status: int)

  class FrameStore {
    /** rgb_frame_array: slot i holds the frame numbered i + 1, or nothing yet. */
    var slots: array<Option<StoredFrame>>
    /** Every write made to the store, oldest first. */
    ghost var writes: seq<Write>

    /** The store holds its write log replayed on the empty array. */
    ghost predicate Valid()
      reads this, slots
    {
      && slots.Length == NUM_FRAMES
      && WritesInRange(writes)
      && slots[..] == Apply(EmptySlots(), writes)
    }

    /** The static array starts with every slot empty. */
    constructor ()
      ensures Valid() && fresh(slots) && writes == []
      ensures forall i :: 0 <= i < slots.Length ==> slots[i].None?
    {
      slots := new Option<StoredFrame>[NUM_FRAMES](_ => None);
      writes := [];
      new;
      assert slots[..] == EmptySlots();
    }

    /**
     * save_rgb_frame: convert `src` and store it at slot fnumber - 1. Nothing
     * in the code checks that index; the caller must keep it in range.
     */
    method SaveRgbFrame(src: RawFrame, fnumber: int, conv: Conversion) returns (status: SaveStatus)
      requires Valid()
      requires conv.frameAllocated ==> 1 <= fnumber <= NUM_FRAMES
      modifies this`writes, slots
      ensures Valid()
      ensures status == if conv.frameAllocated then Saved(fnumber - 1) else Exited(1)
      ensures SaveWrite(src, fnumber, conv).Some? ==>
                var w := SaveWrite(src, fnumber, conv).value;
                && slots[w.index] == Some(w.frame)
                && (forall j :: 0 <= j < slots.Length && j != w.index ==> slots[j] == old(slots[j]))
                && writes == old(writes) + [w]
      ensures SaveWrite(src, fnumber, conv).None? ==> slots[..] == old(slots[..]) && writes == old(writes)
    {
      var rgb := ConvertFrame(src, conv);
      if rgb.None? {
        // allocateFrame logs and calls exit(1)
        return Exited(1);
      }
      var index := fnumber - 1;
      ApplyAppend(EmptySlots(), writes, Write(index, rgb.value));
      slots[index] := rgb;
      writes := writes + [Write(index, rgb.value)];
      status := Saved(index);
    }
  }

  /** Performing one write changes exactly its own slot. */
  lemma {:induction false} ApplyOne(slots: seq<Option<RgbFrame>>, w: Write)
    requires 0 <= w.index < |slots|
    ensures Apply(slots, [w]) == slots[w.index := Some(w.frame)]
  {
    assert [w][1..] == [];
  }

  /** Performing one more write after a batch updates that write's slot. */
  lemma ApplyAppend(slots: seq<Option<RgbFrame>>, done: seq<Write>, w: Write)
    requires IndicesBelow(done, |slots|)
    requires 0 <= w.index < |slots|
    ensures IndicesBelow(done + [w], |slots|)
    ensures Apply(slots, done + [w]) == Apply(slots, done)[w.index := Some(w.frame)]
  {
    ApplyConcat(slots, done, [w]);
    ApplyOne(Apply(slots, done), w);
  }

  /** Performing two batches of writes in turn is performing them together. */
  lemma {:induction false} ApplyConcat(slots: seq<Option<RgbFrame>>, a: seq<Write>, b: seq<Write>)
    requires IndicesBelow(a, |slots|) && IndicesBelow(b, |slots|)
    ensures Apply(slots, a + b) == Apply(Apply(slots, a), b)
    decreases |a|
  {
    if a != [] {
      assert (a + b)[0] == a[0];
      assert (a + b)[1..] == a[1..] + b;
      assert forall w :: w in a[1..] ==> w in a;
      ApplyConcat(slots[a[0].index := Some(a[0].frame)], a[1..], b);
    } else {
      assert a + b == b;
    }
  }

  /**
   * A slot that no write names keeps its content; a slot that some write names
   * ends up holding a frame.
   */
  lemma {:induction false} ApplySlot(slots: seq<Option<RgbFrame>>, ws: seq<Write>, i: int)
    requires IndicesBelow(ws, |slots|)
    requires 0 <= i < |slots|
    ensures (forall w :: w in ws ==> w.index != i) ==> Apply(slots, ws)[i] == slots[i]
    ensures (exists w :: w in ws && w.index == i) ==> Apply(slots, ws)[i].Some?
    decreases |ws|
  {
    if ws != [] {
      var next := slots[ws[0].index := Some(ws[0].frame)];
      assert forall w :: w in ws[1..] ==> w in ws;
      ApplySlot(next, ws[1..], i);
      assert forall w :: w in ws ==> w == ws[0] || w in ws[1..];
    }
  }

  /** The writes go to slots from, from + 1, from + 2, ... in turn. */
  ghost predicate Consecutive(ws: seq<Write>, from: int)
  {
    forall k :: 0 <= k < |ws| ==> ws[k].index == from + k
  }

  /** Two runs of consecutive writes, the second starting where the first ends, make one. */
  lemma ConsecutiveConcat(a: seq<Write>, b: seq<Write>, from: int)
    requires Consecutive(a, from) && Consecutive(b, from + |a|)
    ensures Consecutive(a + b, from)
  {
    forall k | 0 <= k < |a + b|
      ensures (a + b)[k].index == from + k
    {
      if k >= |a| {
        assert (a + b)[k] == b[k - |a|];
      }
    }
  }

  /** Writes numbered from slot 0 stay inside the store exactly when there are at most NUM_FRAMES of them. */
  lemma ConsecutiveInRange(ws: seq<Write>)
    requires Consecutive(ws, 0)
    ensures WritesInRange(ws) <==> |ws| <= NUM_FRAMES
  {
    if |ws| > NUM_FRAMES {
      assert ws[NUM_FRAMES] in ws;
    }
    if |ws| <= NUM_FRAMES {
      forall w | w in ws
        ensures 0 <= w.index < NUM_FRAMES
      {
        var k :| 0 <= k < |ws| && ws[k] == w;
      }
    }
  }

  /** After writes numbered from slot 0, exactly the first |ws| slots of the empty store hold a frame. */
  lemma ConsecutiveSlots(ws: seq<Write>, i: int)
    requires Consecutive(ws, 0) && |ws| <= NUM_FRAMES
    requires 0 <= i < NUM_FRAMES
    ensures WritesInRange(ws)
    ensures Apply(EmptySlots(), ws)[i].Some? <==> i < |ws|
  {
    ConsecutiveInRange(ws);
    ApplySlot(EmptySlots(), ws, i);
    if i < |ws| {
      assert ws[i] in ws;
    } else {
      forall w | w in ws
        ensures w.index != i
      {
        var k :| 0 <= k < |ws| && ws[k] == w;
      }
    }
  }
}
