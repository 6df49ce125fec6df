/**
 * decode_packet: hand one packet to the decoder, then drain every frame the
 * decoder returns for it into the frame store.
 *
 * The decoder is a script: the result of sending the packet, and the results
 * of the successive receive calls. A script that has run out answers
 * AVERROR(EAGAIN), which is what the decoder says when it needs more input.
 */
module Decode {
  import opened Media
  import opened Store

  /** A negative FFmpeg error code. */
  type ErrorCode = c: int | c < 0 witness -1

  /** One receive call: a frame, together with what its conversion meets; or an error code. */
  datatype ReceiveResult =
    | Received(frame: RawFrame, conv: Conversion)
    | Failed(code: ErrorCode)

  /** What the decoder returns for receive call number i. */
  function ReceiveAt(rs: seq<ReceiveResult>, i: nat): ReceiveResult
  {
    if i < |rs| then rs[i] else Failed(EAGAIN_ERROR)
  }

  /** The status code avcodec_receive_frame returns for a result. */
  function ResponseOf(r: ReceiveResult): int
  {
    match r
    case Received(_, _) => 0
    case Failed(c) => c
  }

  /** How a call ends: the value it returns, or the process exit status. */
  datatype Status = Returned(response: int) | Terminated(exitStatus: int)

  /** The store writes a call makes and how it ends. */
  datatype Effect = Effect(writes: seq<Write>, status: Status)

  /** True of the two codes that end the drain normally. */
  predicate EndsDrain(code: int)
  {
    code == EAGAIN_ERROR || code == EOF_ERROR
  }

  /**
   * The part of the codec context the player reads: `frame_number`, the
   * number of frames the decoder has returned so far. Each successful receive
   * call raises it by one.
   */
  class CodecContext {
    var frameNumber: nat

    /** A freshly opened codec has returned no frame. */
    constructor ()
      ensures frameNumber == 0
    {
      frameNumber := 0;
    }

    /**
     * avcodec_receive_frame for receive call number i of the script: its
     * result, the frame counter going up by one when a frame is returned.
     */
    method Receive(rs: seq<ReceiveResult>, i: nat) returns (r: ReceiveResult)
      modifies this
      ensures r == ReceiveAt(rs, i)
      ensures frameNumber == old(frameNumber) + (if r.Received? then 1 else 0)
    {
      r := ReceiveAt(rs, i);
      if r.Received? {
        frameNumber := frameNumber + 1;
      }
    }
  }

  /**
   * Reference definition of the drain loop, the codec having returned `count`
   * frames before: consume received frames, saving each under the codec's new
   * frame number, up to the first error code; EAGAIN and EOF end it with 0,
   * any other code is returned, and a failed frame allocation exits with
   * status 1.
   */
  ghost function Drain(rs: seq<ReceiveResult>, count: nat): Effect
    decreases |rs|
  {
    if rs == [] then Effect([], Returned(0))
    else match rs[0]
      case Failed(c) => Effect([], Returned(if EndsDrain(c) then 0 else c))
      case Received(f, conv) =>
        match SaveWrite(f, count + 1, conv)
        case None => Effect([], Terminated(1))
        case Some(w) =>
          var rest := Drain(rs[1..], count + 1);
          Effect([w] + rest.writes, rest.status)
  }

  /** Reference definition of decode_packet: a failed send is returned as is. */
  ghost function DecodeSpec(send: int, rs: seq<ReceiveResult>, count: nat): Effect
  {
    if send < 0 then Effect([], Returned(send)) else Drain(rs, count)
  }

  /**
   * decode_packet against a frame store. The slot index comes from the codec's
   * frame counter, which nothing checks: every frame that is saved must carry
   * a number in 1..NUM_FRAMES.
   */
  method DecodePacket(store: FrameStore, codec: CodecContext, send: int, rs: seq<ReceiveResult>) returns (status: Status)
    requires store.Valid()
    requires WritesInRange(DecodeSpec(send, rs, codec.frameNumber).writes)
    modifies store`writes, store.slots, codec
    ensures store.Valid()
    ensures var e := DecodeSpec(send, rs, old(codec.frameNumber));
            && status == e.status
            && store.writes == old(store.writes) + e.writes
            && (status.Returned? ==> codec.frameNumber == old(codec.frameNumber) + |e.writes|)
  {
    var response := send;
    if response < 0 {
      // the send error is logged and returned
      return Returned(response);
    }
    ghost var count := codec.frameNumber;
    ghost var writes0 := store.writes;
    ghost var total := Effect(writes0 + Drain(rs, count).writes, Drain(rs, count).status);
    var i: nat := 0;
    assert rs[0..] == rs;
    while response >= 0
      invariant 0 <= i <= |rs|
      invariant response < 0 ==> EndsDrain(response) && response == ResponseOf(ReceiveAt(rs, i))
      invariant store.Valid()
      invariant codec.frameNumber == count + i && |store.writes| == |writes0| + i
      invariant DrainRemains(total, rs, count, i, store.writes)
      decreases |rs| - i
    {
      var r := codec.Receive(rs, i);
      response := ResponseOf(r);
      if response == EAGAIN_ERROR || response == EOF_ERROR {
        break;
      } else if response < 0 {
        // any other receive error is logged and returned
        DrainEnds(total, rs, count, i, store.writes);
        return Returned(response);
      }
      if !r.conv.frameAllocated {
        DrainExits(total, rs, count, i, store.writes);
      } else {
        DrainSaves(total, rs, count, i, store.writes);
      }
      var saved := store.SaveRgbFrame(r.frame, codec.frameNumber, r.conv);
      if saved.Exited? {
        // allocateFrame could not allocate the frame struct: exit(1)
        return Terminated(saved.status);
      }
      i := i + 1;
    }
    DrainEnds(total, rs, count, i, store.writes);
    return Returned(0);
  }

  /**
   * The drain from receive call i on, after the store log `log`, completes
   * `total`; the codec had returned `count` frames before call 0.
   */
  ghost predicate DrainRemains(total: Effect, rs: seq<ReceiveResult>, count: nat, i: nat, log: seq<Write>)
    requires i <= |rs|
  {
    var rest := Drain(rs[i..], count + i);
    total == Effect(log + rest.writes, rest.status)
  }

  /** A received frame that can be allocated is saved under frame number count + i + 1, and the drain goes on. */
  lemma DrainSaves(total: Effect, rs: seq<ReceiveResult>, count: nat, i: nat, log: seq<Write>)
    requires i < |rs| && rs[i].Received? && rs[i].conv.frameAllocated
    requires DrainRemains(total, rs, count, i, log) && WritesInRange(total.writes)
    ensures 1 <= count + i + 1 <= NUM_FRAMES
    ensures DrainRemains(total, rs, count, i + 1, log + [SaveWrite(rs[i].frame, count + i + 1, rs[i].conv).value])
  {
    DrainStep(rs, i, count + i);
    var w := SaveWrite(rs[i].frame, count + i + 1, rs[i].conv).value;
    var rest := Drain(rs[i + 1..], count + i + 1);
    assert w in total.writes by {
      assert total.writes == log + [w] + rest.writes;
    }
    assert (log + [w]) + rest.writes == log + ([w] + rest.writes);
  }

  /** A received frame that cannot be allocated ends the drain with exit status 1. */
  lemma DrainExits(total: Effect, rs: seq<ReceiveResult>, count: nat, i: nat, log: seq<Write>)
    requires i < |rs| && rs[i].Received? && !rs[i].conv.frameAllocated
    requires DrainRemains(total, rs, count, i, log)
    ensures total == Effect(log, Terminated(1))
  {
    DrainStep(rs, i, count + i);
    assert log + [] == log;
  }

  /** An error code ends the drain with no further write. */
  lemma DrainEnds(total: Effect, rs: seq<ReceiveResult>, count: nat, i: nat, log: seq<Write>)
    requires i <= |rs| && ReceiveAt(rs, i).Failed?
    requires DrainRemains(total, rs, count, i, log)
    ensures var c := ReceiveAt(rs, i).code;
            total == Effect(log, Returned(if EndsDrain(c) then 0 else c))
  {
    DrainStop(rs, i, count + i);
    assert log + [] == log;
  }

  /** One step of the drain: a saved frame, then the drain of the rest. */
  lemma DrainStep(rs: seq<ReceiveResult>, i: nat, count: nat)
    requires i < |rs| && rs[i].Received?
    ensures rs[i].conv.frameAllocated ==>
              var w := SaveWrite(rs[i].frame, count + 1, rs[i].conv).value;
              Drain(rs[i..], count) == Effect([w] + Drain(rs[i + 1..], count + 1).writes, Drain(rs[i + 1..], count + 1).status)
    ensures !rs[i].conv.frameAllocated ==> Drain(rs[i..], count) == Effect([], Terminated(1))
  {
    assert rs[i..][0] == rs[i] && rs[i..][1..] == rs[i + 1..];
  }

  /**
   * The drain stops without a write at an error code: with 0 at EAGAIN, EOF or
   * the end of the script, and with the code itself otherwise.
   */
  lemma DrainStop(rs: seq<ReceiveResult>, i: nat, count: nat)
    requires i <= |rs| && ReceiveAt(rs, i).Failed?
    ensures var c := ReceiveAt(rs, i).code;
            Drain(rs[i..], count) == Effect([], Returned(if EndsDrain(c) then 0 else c))
  {
    if i < |rs| {
      assert rs[i..][0] == rs[i];
    }
  }

  /**
   * Every saved frame is the next received one, saved under the codec's frame
   * number after it: the k-th write goes to slot count + k.
   */
  lemma {:induction false} DrainSavesReceivedInOrder(rs: seq<ReceiveResult>, count: nat, k: int)
    requires 0 <= k < |Drain(rs, count).writes|
    ensures k < |rs| && rs[k].Received? && rs[k].conv.frameAllocated
    ensures Drain(rs, count).writes[k] == SaveWrite(rs[k].frame, count + k + 1, rs[k].conv).value
    ensures Drain(rs, count).writes[k].index == count + k
    decreases |rs|
  {
    assert rs != [] && rs[0].Received? && rs[0].conv.frameAllocated;
    if k > 0 {
      DrainSavesReceivedInOrder(rs[1..], count + 1, k - 1);
      assert rs[1..][k - 1] == rs[k];
    }
  }

  /** The length of the leading run of received frames whose frame struct can be allocated. */
  function Run(rs: seq<ReceiveResult>): (n: nat)
    ensures n <= |rs|
    ensures forall k :: 0 <= k < n ==> rs[k].Received? && rs[k].conv.frameAllocated
    ensures n < |rs| ==> rs[n].Failed? || !rs[n].conv.frameAllocated
    decreases |rs|
  {
    if rs != [] && rs[0].Received? && rs[0].conv.frameAllocated then 1 + Run(rs[1..]) else 0
  }

  /**
   * The drain saves exactly the leading run of allocatable frames, and then
   * returns 0 at the end of the script, at EAGAIN or at EOF; returns the first
   * other error code; or exits with status 1 at the first frame it cannot
   * allocate. None of this depends on the frame counter.
   */
  lemma {:induction false} DrainRun(rs: seq<ReceiveResult>, count: nat)
    ensures |Drain(rs, count).writes| == Run(rs)
    ensures Run(rs) == |rs| ==> Drain(rs, count).status == Returned(0)
    ensures Run(rs) < |rs| && rs[Run(rs)].Failed? ==>
              var c := rs[Run(rs)].code;
              Drain(rs, count).status == Returned(if EndsDrain(c) then 0 else c)
    ensures Run(rs) < |rs| && rs[Run(rs)].Received? ==> Drain(rs, count).status == Terminated(1)
    decreases |rs|
  {
    if rs != [] && rs[0].Received? && rs[0].conv.frameAllocated {
      DrainRun(rs[1..], count + 1);
      assert forall k :: 0 <= k < |rs| - 1 ==> rs[1..][k] == rs[k + 1];
    }
  }

  /** The drain returns 0 or an error code other than EAGAIN and EOF, or exits with status 1. */
  lemma {:induction false} DrainStatus(rs: seq<ReceiveResult>, count: nat)
    ensures Drain(rs, count).status.Returned? ==>
              var code := Drain(rs, count).status.response;
              code <= 0 && !EndsDrain(code)
    ensures Drain(rs, count).status.Terminated? ==> Drain(rs, count).status.exitStatus == 1
    ensures |Drain(rs, count).writes| <= |rs|
    decreases |rs|
  {
    if rs != [] && rs[0].Received? && rs[0].conv.frameAllocated {
      DrainStatus(rs[1..], count + 1);
    }
  }

  /**
   * A packet whose script is n well-allocated frames and nothing else saves all
   * n of them: the frames saved for one packet are not bounded by anything.
   */
  lemma {:induction false} DrainSavesEveryFrame(rs: seq<ReceiveResult>, count: nat)
    requires forall k :: 0 <= k < |rs| ==> rs[k].Received? && rs[k].conv.frameAllocated
    ensures |Drain(rs, count).writes| == |rs|
    ensures Drain(rs, count).status == Returned(0)
    decreases |rs|
  {
    if rs != [] {
      DrainSavesEveryFrame(rs[1..], count + 1);
    }
  }
}
