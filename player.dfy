/**
 * The fill phase of main: pick the video stream, then read packets and hand
 * those of the video stream to decode_packet until the input ends, a decode
 * fails, or the packet budget is spent. The container and codec calls are
 * abstract answers.
 */
module Player {
  import opened Media
  import opened Store
  import opened Decode
  import opened Cursor

  datatype MediaType = Video | Audio | OtherMedia

  /** A stream of the container: its media type and whether a decoder is registered for its codec. */
  datatype Stream = Stream(codecType: MediaType, hasDecoder: bool)

  /** A stream the player can use: a video stream with a decoder. */
  predicate Playable(s: Stream)
  {
    s.hasDecoder && s.codecType == Video
  }

  /** Reference definition: the index of the first playable stream at or after `from`, or -1. */
  function FirstPlayableFrom(streams: seq<Stream>, from: nat): (index: int)
    ensures index == -1 <==> forall j :: from <= j < |streams| ==> !Playable(streams[j])
    ensures index != -1 ==>
              from <= index < |streams| && Playable(streams[index]) &&
              forall j :: from <= j < index ==> !Playable(streams[j])
    decreases |streams| - from
  {
    if from >= |streams| then -1
    else if Playable(streams[from]) then from
    else FirstPlayableFrom(streams, from + 1)
  }

  function FirstPlayable(streams: seq<Stream>): int
  {
    FirstPlayableFrom(streams, 0)
  }

  /**
   * The stream loop of main: every stream is looked at; one without a decoder
   * is skipped, and the first video stream with a decoder is kept.
   */
  method SelectVideoStream(streams: seq<Stream>) returns (index: int)
    ensures index == -1 <==> forall j :: 0 <= j < |streams| ==> !Playable(streams[j])
    ensures index != -1 ==>
              0 <= index < |streams| && Playable(streams[index]) &&
              forall j :: 0 <= j < index ==> !Playable(streams[j])
  {
    index := -1;
    for i := 0 to |streams|
      invariant index == -1 <==> forall j :: 0 <= j < i ==> !Playable(streams[j])
      invariant index != -1 ==>
                  0 <= index < i && Playable(streams[index]) &&
                  forall j :: 0 <= j < index ==> !Playable(streams[j])
    {
      if !streams[i].hasDecoder {
        // unsupported codec: skip the stream
        continue;
      }
      if streams[i].codecType == Video {
        if index == -1 {
          index := i;
        }
      }
    }
  }

  /** A packet read from the container: its stream, and how the decoder answers it. */
  datatype Packet = Packet(streamIndex: int, send: int, receives: seq<ReceiveResult>)

  /** The writes the fill loop makes, how many packets it decodes, and whether the process exits. */
  datatype FillEffect = FillEffect(writes: seq<Write>, decoded: nat, exited: bool)

  /**
   * Reference definition of the packet loop from packet k on, with `budget`
   * packets still allowed and `count` frames returned by the codec so far:
   * packets of other streams are skipped; after a video packet the loop stops
   * when decoding failed or the budget is used up.
   */
  ghost function FillFrom(video: int, packets: seq<Packet>, k: nat, budget: int, count: nat): FillEffect
    requires k <= |packets|
    decreases |packets| - k
  {
    if k == |packets| then FillEffect([], 0, false)
    else
      var p := packets[k];
      if p.streamIndex != video then FillFrom(video, packets, k + 1, budget, count)
      else
        var d := DecodeSpec(p.send, p.receives, count);
        if d.status.Terminated? then FillEffect(d.writes, 1, true)
        else if d.status.response < 0 || budget - 1 <= 0 then FillEffect(d.writes, 1, false)
        else
          var rest := FillFrom(video, packets, k + 1, budget - 1, count + |d.writes|);
          FillEffect(d.writes + rest.writes, 1 + rest.decoded, rest.exited)
  }

  /** The whole packet loop. */
  ghost function Fill(video: int, packets: seq<Packet>, budget: int, count: nat): FillEffect
  {
    FillFrom(video, packets, 0, budget, count)
  }

  /** The loop from packet k + j on is the loop over the packets from k, from their j-th on. */
  lemma {:induction false} FillShift(video: int, packets: seq<Packet>, k: nat, j: nat, budget: int, count: nat)
    requires k + j <= |packets|
    ensures FillFrom(video, packets, k + j, budget, count) == FillFrom(video, packets[k..], j, budget, count)
    decreases |packets| - k - j
  {
    if k + j < |packets| {
      var p := packets[k + j];
      assert packets[k..][j] == p;
      FillShift(video, packets, k, j + 1, budget, count);
      FillShift(video, packets, k, j + 1, budget - 1, count + |DecodeSpec(p.send, p.receives, count).writes|);
    }
  }

  /** Unfolding the loop at its first packet. */
  lemma FillFirst(video: int, packets: seq<Packet>, budget: int, count: nat)
    requires packets != []
    ensures var p := packets[0];
            Fill(video, packets, budget, count) ==
              if p.streamIndex != video then Fill(video, packets[1..], budget, count)
              else
                var d := DecodeSpec(p.send, p.receives, count);
                if d.status.Terminated? then FillEffect(d.writes, 1, true)
                else if d.status.response < 0 || budget - 1 <= 0 then FillEffect(d.writes, 1, false)
                else
                  var rest := Fill(video, packets[1..], budget - 1, count + |d.writes|);
                  FillEffect(d.writes + rest.writes, 1 + rest.decoded, rest.exited)
  {
    var p := packets[0];
    FillShift(video, packets, 1, 0, budget, count);
    FillShift(video, packets, 1, 0, budget - 1, count + |DecodeSpec(p.send, p.receives, count).writes|);
  }

  /** The packets of one stream, in order. */
  function OnlyStream(video: int, packets: seq<Packet>): (r: seq<Packet>)
    ensures |r| <= |packets|
    ensures forall k :: 0 <= k < |r| ==> r[k].streamIndex == video
    decreases |packets|
  {
    if packets == [] then []
    else if packets[0].streamIndex == video then [packets[0]] + OnlyStream(video, packets[1..])
    else OnlyStream(video, packets[1..])
  }

  /** The loop hands at most `budget` packets to the decoder, all of them from the video stream. */
  lemma {:induction false} FillBound(video: int, packets: seq<Packet>, budget: int, count: nat)
    requires budget >= 1
    ensures Fill(video, packets, budget, count).decoded <= budget
    ensures Fill(video, packets, budget, count).decoded <= |OnlyStream(video, packets)|
    decreases |packets|
  {
    if packets != [] {
      var p := packets[0];
      var d := DecodeSpec(p.send, p.receives, count);
      FillFirst(video, packets, budget, count);
      if p.streamIndex == video {
        if budget > 1 {
          FillBound(video, packets[1..], budget - 1, count + |d.writes|);
        }
      } else {
        FillBound(video, packets[1..], budget, count);
      }
    }
  }

  /** Packets of other streams make no difference to what the loop does. */
  lemma {:induction false} FillIgnoresOtherStreams(video: int, packets: seq<Packet>, budget: int, count: nat)
    ensures Fill(video, packets, budget, count) == Fill(video, OnlyStream(video, packets), budget, count)
    decreases |packets|
  {
    if packets != [] {
      var p := packets[0];
      var rest := OnlyStream(video, packets[1..]);
      FillFirst(video, packets, budget, count);
      if p.streamIndex == video {
        var d := DecodeSpec(p.send, p.receives, count);
        FillFirst(video, [p] + rest, budget, count);
        FillIgnoresOtherStreams(video, packets[1..], budget - 1, count + |d.writes|);
        assert ([p] + rest)[0] == p && ([p] + rest)[1..] == rest;
      } else {
        FillIgnoresOtherStreams(video, packets[1..], budget, count);
      }
    }
  }

  /** A decode fails, or exits, whatever frame count the codec has reached. */
  lemma DecodeStatusAnyCount(send: int, rs: seq<ReceiveResult>, count: nat, other: nat)
    ensures DecodeSpec(send, rs, count).status == DecodeSpec(send, rs, other).status
  {
    DrainRun(rs, count);
    DrainRun(rs, other);
  }

  /**
   * The loop stops at the first video packet whose decode fails or exits:
   * the packets after it make no difference.
   */
  lemma {:induction false} FillStopsAtFailure(video: int, pre: seq<Packet>, p: Packet, post: seq<Packet>, budget: int, count: nat)
    requires p.streamIndex == video
    requires var s := DecodeSpec(p.send, p.receives, 0).status;
             s.Terminated? || s.response < 0
    ensures Fill(video, pre + [p] + post, budget, count) == Fill(video, pre + [p], budget, count)
    decreases |pre|
  {
    var whole, front := pre + [p] + post, pre + [p];
    FillFirst(video, whole, budget, count);
    FillFirst(video, front, budget, count);
    if pre == [] {
      DecodeStatusAnyCount(p.send, p.receives, count, 0);
      assert whole[0] == p && front[0] == p;
    } else {
      var q := pre[0];
      var d := DecodeSpec(q.send, q.receives, count);
      assert whole[0] == q && front[0] == q;
      assert whole[1..] == pre[1..] + [p] + post && front[1..] == pre[1..] + [p];
      FillStopsAtFailure(video, pre[1..], p, post, budget, count);
      FillStopsAtFailure(video, pre[1..], p, post, budget - 1, count + |d.writes|);
    }
  }

  /** The writes of one decode go to the slots after the `count` frames returned before. */
  lemma DecodeConsecutive(send: int, rs: seq<ReceiveResult>, count: nat)
    ensures Consecutive(DecodeSpec(send, rs, count).writes, count)
  {
    if send >= 0 {
      forall k | 0 <= k < |Drain(rs, count).writes|
        ensures Drain(rs, count).writes[k].index == count + k
      {
        DrainSavesReceivedInOrder(rs, count, k);
      }
    }
  }

  /**
   * The loop's writes go to slots count, count + 1, ... in turn: the codec
   * numbers its frames in decode order across packets.
   */
  lemma {:induction false} FillConsecutive(video: int, packets: seq<Packet>, budget: int, count: nat)
    ensures Consecutive(Fill(video, packets, budget, count).writes, count)
    decreases |packets|
  {
    if packets != [] {
      var p := packets[0];
      var d := DecodeSpec(p.send, p.receives, count);
      FillFirst(video, packets, budget, count);
      DecodeConsecutive(p.send, p.receives, count);
      if p.streamIndex != video {
        FillConsecutive(video, packets[1..], budget, count);
      } else if d.status.Returned? && d.status.response >= 0 && budget - 1 > 0 {
        FillConsecutive(video, packets[1..], budget - 1, count + |d.writes|);
        ConsecutiveConcat(d.writes, Fill(video, packets[1..], budget - 1, count + |d.writes|).writes, count);
      }
    }
  }

  /**
   * With the codec fresh, the fill phase keeps inside the store exactly when it
   * saves at most NUM_FRAMES frames; then playback never meets an empty slot
   * exactly when it saved at least NUM_FRAMES - 1 frames.
   */
  lemma PlaybackReady(video: int, packets: seq<Packet>)
    ensures var e := Fill(video, packets, NUM_FRAMES, 0);
            WritesInRange(e.writes) <==> |e.writes| <= NUM_FRAMES
    ensures var e := Fill(video, packets, NUM_FRAMES, 0);
            |e.writes| <= NUM_FRAMES ==>
              (DisplayReady(Apply(EmptySlots(), e.writes)) <==> |e.writes| >= NUM_FRAMES - 1)
  {
    var ws := Fill(video, packets, NUM_FRAMES, 0).writes;
    FillConsecutive(video, packets, NUM_FRAMES, 0);
    ConsecutiveInRange(ws);
    if |ws| <= NUM_FRAMES {
      var slots := Apply(EmptySlots(), ws);
      forall i | 0 <= i < NUM_FRAMES
        ensures slots[i].Some? <==> i < |ws|
      {
        ConsecutiveSlots(ws, i);
      }
      if |ws| < NUM_FRAMES - 1 {
        assert slots[|ws|].None?;
      }
    }
  }

  /**
   * The loop from packet k on, with `done` already written, `decoded` packets
   * already decoded and `count` frames returned by the codec, completes `total`.
   */
  ghost predicate FillRemains(total: FillEffect, video: int, packets: seq<Packet>, k: nat, budget: int, count: nat,
                              done: seq<Write>, decoded: nat)
    requires k <= |packets|
  {
    var rest := FillFrom(video, packets, k, budget, count);
    total == FillEffect(done + rest.writes, decoded + rest.decoded, rest.exited)
  }

  /** The writes of a video packet's decode are among the loop's writes. */
  lemma DecodeInRange(total: FillEffect, video: int, packets: seq<Packet>, k: nat, budget: int, count: nat,
                      done: seq<Write>, decoded: nat)
    requires k < |packets| && packets[k].streamIndex == video
    requires FillRemains(total, video, packets, k, budget, count, done, decoded)
    requires WritesInRange(total.writes)
    ensures WritesInRange(DecodeSpec(packets[k].send, packets[k].receives, count).writes)
  {
  }

  /** A video packet whose decode exits, fails or spends the budget ends the loop. */
  lemma DecodeStops(total: FillEffect, video: int, packets: seq<Packet>, k: nat, budget: int, count: nat,
                    done: seq<Write>, decoded: nat)
    requires k < |packets| && packets[k].streamIndex == video
    requires FillRemains(total, video, packets, k, budget, count, done, decoded)
    requires var d := DecodeSpec(packets[k].send, packets[k].receives, count);
             d.status.Terminated? || d.status.response < 0 || budget - 1 <= 0
    ensures var d := DecodeSpec(packets[k].send, packets[k].receives, count);
            total == FillEffect(done + d.writes, decoded + 1, d.status.Terminated?)
  {
    var d := DecodeSpec(packets[k].send, packets[k].receives, count);
    assert d.writes + [] == d.writes;
  }

  /** Otherwise the loop goes on at the next packet with one packet less in the budget. */
  lemma DecodeContinues(total: FillEffect, video: int, packets: seq<Packet>, k: nat, budget: int, count: nat,
                        done: seq<Write>, decoded: nat)
    requires k < |packets| && packets[k].streamIndex == video
    requires FillRemains(total, video, packets, k, budget, count, done, decoded)
    requires var d := DecodeSpec(packets[k].send, packets[k].receives, count);
             d.status.Returned? && d.status.response >= 0 && budget - 1 > 0
    ensures var d := DecodeSpec(packets[k].send, packets[k].receives, count);
            FillRemains(total, video, packets, k + 1, budget - 1, count + |d.writes|, done + d.writes, decoded + 1)
  {
    var d := DecodeSpec(packets[k].send, packets[k].receives, count);
    var rest := FillFrom(video, packets, k + 1, budget - 1, count + |d.writes|);
    assert (done + d.writes) + rest.writes == done + (d.writes + rest.writes);
  }

  /**
   * The packet loop of main. The budget counts packets, while the slot a frame
   * goes to is the codec's frame number: every frame the loop saves must carry
   * a number in 1..NUM_FRAMES. `exited` is the process exiting inside
   * allocateFrame.
   */
  method FillPhase(store: FrameStore, codec: CodecContext, video: int, packets: seq<Packet>)
    returns (exited: bool, ghost decoded: nat)
    requires store.Valid()
    requires WritesInRange(Fill(video, packets, NUM_FRAMES, codec.frameNumber).writes)
    modifies store`writes, store.slots, codec
    ensures store.Valid()
    ensures var e := Fill(video, packets, NUM_FRAMES, old(codec.frameNumber));
            && exited == e.exited
            && decoded == e.decoded <= NUM_FRAMES
            && store.writes == old(store.writes) + e.writes
  {
    var response := 0;
    var budget := NUM_FRAMES;
    ghost var done: seq<Write> := [];
    ghost var writes0 := store.writes;
    decoded, exited := 0, false;
    var k: nat := 0;
    ghost var total := Fill(video, packets, NUM_FRAMES, codec.frameNumber);
    while k < |packets|  // av_read_frame still delivers packets
      invariant k <= |packets| && budget >= 1
      invariant decoded + budget == NUM_FRAMES
      invariant FillRemains(total, video, packets, k, budget, codec.frameNumber, done, decoded)
      invariant WritesInRange(total.writes)
      invariant store.Valid()
      invariant store.writes == writes0 + done
      decreases |packets| - k
    {
      var p := packets[k];
      if p.streamIndex == video {
        ghost var count := codec.frameNumber;
        DecodeInRange(total, video, packets, k, budget, count, done, decoded);
        ghost var d := DecodeSpec(p.send, p.receives, count);
        var status := DecodePacket(store, codec, p.send, p.receives);
        assert (writes0 + done) + d.writes == writes0 + (done + d.writes);
        if status.Terminated? || status.response < 0 || budget - 1 <= 0 {
          DecodeStops(total, video, packets, k, budget, count, done, decoded);
        } else {
          DecodeContinues(total, video, packets, k, budget, count, done, decoded);
        }
        done := done + d.writes;
        decoded := decoded + 1;
        if status.Terminated? {
          // the process has exited inside allocateFrame
          exited := true;
          return;
        }
        response := status.response;
        if response < 0 {
          break;
        }
        budget := budget - 1;
        if budget <= 0 {
          break;
        }
      } else {
        assert FillFrom(video, packets, k, budget, codec.frameNumber) == FillFrom(video, packets, k + 1, budget, codec.frameNumber);
      }
      k := k + 1;
    }
    if k == |packets| {
      assert done + [] == done;
    }
  }

  /** The answers main gets from the argument count and the library set-up calls. */
  datatype Setup = Setup(
    argc: int,
    formatContextAllocated: bool,
    inputOpened: bool,
    streamInfoFound: bool,
    codecContextAllocated: bool,
    parametersCopied: bool,
    codecOpened: bool,
    frameAllocated: bool,
    packetAllocated: bool)

  /** The checks main makes before looking at the streams. */
  predicate InputReady(s: Setup)
  {
    s.argc >= 2 && s.formatContextAllocated && s.inputOpened && s.streamInfoFound
  }

  /** The checks main makes after choosing the stream, before reading packets. */
  predicate DecoderReady(s: Setup)
  {
    s.codecContextAllocated && s.parametersCopied && s.codecOpened && s.frameAllocated && s.packetAllocated
  }

  /** How main ends: a return or exit code, or the window shown and the playback timer running. */
  datatype MainOutcome = ExitCode(code: int) | Playback

  /**
   * main up to the GTK event loop. Every start-up failure, and a file without
   * a usable video stream, returns -1 before any store write and before GTK
   * is touched; otherwise the fill phase runs with a freshly opened codec and
   * playback starts, unless the process exited inside allocateFrame. The
   * fill phase must save at most NUM_FRAMES frames, since the slot index is
   * never checked; from the empty store, playback then never meets an empty
   * slot exactly when it saved at least NUM_FRAMES - 1.
   */
  method Launch(setup: Setup, streams: seq<Stream>, packets: seq<Packet>, store: FrameStore) returns (r: MainOutcome)
    requires store.Valid()
    requires InputReady(setup) && FirstPlayable(streams) != -1 && DecoderReady(setup) ==>
               |Fill(FirstPlayable(streams), packets, NUM_FRAMES, 0).writes| <= NUM_FRAMES
    modifies store`writes, store.slots
    ensures store.Valid()
    ensures r == ExitCode(-1) <==> !InputReady(setup) || FirstPlayable(streams) == -1 || !DecoderReady(setup)
    ensures r == ExitCode(-1) ==> store.writes == old(store.writes)
    ensures r != ExitCode(-1) ==>
              var e := Fill(FirstPlayable(streams), packets, NUM_FRAMES, 0);
              && r == (if e.exited then ExitCode(1) else Playback)
              && store.writes == old(store.writes) + e.writes
    ensures r == Playback && old(store.writes) == [] ==>
              (DisplayReady(store.slots[..]) <==> |store.writes| >= NUM_FRAMES - 1)
  {
    if setup.argc < 2 || !setup.formatContextAllocated || !setup.inputOpened || !setup.streamInfoFound {
      return ExitCode(-1);
    }
    var video := SelectVideoStream(streams);
    assert video == FirstPlayable(streams);
    if video == -1 {
      // the file has no video stream that can be decoded
      return ExitCode(-1);
    }
    if !setup.codecContextAllocated || !setup.parametersCopied || !setup.codecOpened
       || !setup.frameAllocated || !setup.packetAllocated {
      return ExitCode(-1);
    }
    var codec := new CodecContext();
    PlaybackReady(video, packets);
    ghost var writes0 := store.writes;
    var exited, decoded := FillPhase(store, codec, video, packets);
    if exited {
      return ExitCode(1);
    }
    if writes0 == [] {
      assert store.writes == Fill(video, packets, NUM_FRAMES, 0).writes;
    }
    // the container and codec are released, then the window and timer are set up
    r := Playback;
  }
}
