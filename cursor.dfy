/**
 * The playback cursor: `animate_position`, the slot of the frame store that
 * the draw handler shows, advanced by the timer tick.
 */
module Cursor {
  import opened Media

  /** The last position the cursor reaches before it wraps. */
  const LAST_POSITION: int := NUM_FRAMES - 2

  /**
   * update_position's rule: back to 0 at NUM_FRAMES - 2, otherwise one on.
   * The wrap is against the constant, not against the frames decoded.
   */
  function Advance(p: int): (r: int)
    ensures p == LAST_POSITION ==> r == 0
    ensures p != LAST_POSITION ==> r == p + 1
    ensures 0 <= p <= LAST_POSITION ==> 0 <= r <= LAST_POSITION && r == (p + 1) % (NUM_FRAMES - 1)
  {
    if p == LAST_POSITION then 0 else p + 1
  }

  /** The position after `ticks` timer ticks, starting from 0. */
  function PositionAfter(ticks: nat): (p: int)
    ensures 0 <= p <= LAST_POSITION
    decreases ticks
  {
    if ticks == 0 then 0 else Advance(PositionAfter(ticks - 1))
  }

  /** The cursor runs through 0 .. NUM_FRAMES - 2 over and over: after t ticks it is t mod (NUM_FRAMES - 1). */
  lemma {:induction false} PositionIsTickCountModulo(ticks: nat)
    ensures PositionAfter(ticks) == ticks % (NUM_FRAMES - 1)
    decreases ticks
  {
    if ticks > 0 {
      PositionIsTickCountModulo(ticks - 1);
      ModuloStep(ticks - 1);
    }
  }

  /** One more tick moves the remainder modulo NUM_FRAMES - 1 on by one, or back to 0. */
  lemma ModuloStep(n: nat)
    ensures (n + 1) % (NUM_FRAMES - 1) == if n % (NUM_FRAMES - 1) == LAST_POSITION then 0 else n % (NUM_FRAMES - 1) + 1
  {
    var q, r := n / (NUM_FRAMES - 1), n % (NUM_FRAMES - 1);
    assert n == (NUM_FRAMES - 1) * q + r;
    if r == LAST_POSITION {
      assert n + 1 == (NUM_FRAMES - 1) * (q + 1);
    } else {
      assert n + 1 == (NUM_FRAMES - 1) * q + (r + 1);
    }
  }

  /** During the first NUM_FRAMES - 1 ticks the cursor is the tick count. */
  lemma FirstPass(ticks: nat)
    requires ticks <= LAST_POSITION
    ensures PositionAfter(ticks) == ticks
  {
    PositionIsTickCountModulo(ticks);
  }

  /** Every slot the draw handler may show holds a frame. */
  ghost predicate ShownSlotsFilled(slots: seq<Option<RgbFrame>>)
  {
    forall t: nat :: PositionAfter(t) < |slots| && slots[PositionAfter(t)].Some?
  }

  /** Slots 0 .. NUM_FRAMES - 2 all hold a frame. */
  predicate DisplayReady(slots: seq<Option<RgbFrame>>)
  {
    |slots| == NUM_FRAMES && forall i :: 0 <= i <= LAST_POSITION ==> slots[i].Some?
  }

  /**
   * Playback never meets an empty slot exactly when the first NUM_FRAMES - 1
   * slots are filled, whatever the last slot holds.
   */
  lemma DisplayReadyIff(slots: seq<Option<RgbFrame>>)
    requires |slots| == NUM_FRAMES
    ensures DisplayReady(slots) <==> ShownSlotsFilled(slots)
  {
    if ShownSlotsFilled(slots) {
      forall i | 0 <= i <= LAST_POSITION
        ensures slots[i].Some?
      {
        FirstPass(i);
        assert PositionAfter(i) < |slots| && slots[PositionAfter(i)].Some?;
      }
    }
  }

  /** animate_position together with the number of ticks seen so far. */
  class PlaybackCursor {
    var position: int
    ghost var ticks: nat

    /** The cursor is where the ticks so far have brought it. */
    ghost predicate Valid()
      reads this
    {
      position == PositionAfter(ticks)
    }

    /** The global starts at 0. */
    constructor ()
      ensures Valid() && position == 0 && ticks == 0
    {
      position := 0;
      ticks := 0;
    }

    /** update_position: one step of the cursor. */
    method UpdatePosition()
      modifies this
      ensures position == Advance(old(position)) && ticks == old(ticks) + 1
      ensures old(Valid()) ==> Valid()
    {
      if position == LAST_POSITION {
        position := 0;
      } else {
        position := position + 1;
      }
      ticks := ticks + 1;
    }

    /** refresh_screen: advance the cursor once and keep the timer running. */
    method RefreshScreen() returns (keepTimer: bool)
      modifies this
      ensures keepTimer
      ensures position == Advance(old(position)) && ticks == old(ticks) + 1
      ensures old(Valid()) ==> Valid() && 0 <= position <= LAST_POSITION
    {
      UpdatePosition();
      // the window is queued for redrawing
      keepTimer := true;
    }
  }
}
