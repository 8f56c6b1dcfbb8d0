/** Sending a body under flow control, section 5.2 of RFC 9113. */
module SendData {
  import opened Bytes

  /** What the writer finds when it looks at the connection: it is gone (closed, reset,
      or h2 refuses to tell), or it has these windows and this frame limit; `refused`
      says whether h2 would turn a frame down.  Windows can be negative. */
  datatype Instant = Gone | Open(streamWindow: int, connWindow: int, frameLimit: nat, refused: bool)

  /** A DATA frame that h2 took, and when. */
  datatype DataFrame = DataFrame(data: bytes, endStream: bool, at: nat)

  /** Everything was sent, the stream is lost, or the writer still waits. */
  datatype Verdict = Sent | Lost | Waiting

  predicate Granting(i: Instant) {
    i.Open? && i.streamWindow > 0 && i.connWindow > 0
  }

  predicate Breaking(i: Instant) {
    i.Gone? || (Granting(i) && i.refused)
  }

  function Min(a: int, b: int): int {
    if a < b then a else b
  }

  /** The most that may go out at an instant without any window going negative. */
  function Room(i: Instant): nat
    requires Granting(i)
  {
    Min(Min(i.streamWindow, i.connWindow), i.frameLimit)
  }

  function Payload(frames: seq<DataFrame>): bytes {
    if frames == [] then [] else Payload(frames[..|frames| - 1]) + frames[|frames| - 1].data
  }

  lemma PayloadAppend(frames: seq<DataFrame>, f: DataFrame)
    ensures Payload(frames + [f]) == Payload(frames) + f.data
  {
    assert (frames + [f])[..|frames|] == frames;
  }

  /** The frame went out at a granting instant and is as long as the room there was
      and the data left after `before` allow. */
  predicate Fits(schedule: seq<Instant>, f: DataFrame, left: nat) {
    && f.at < |schedule| && Granting(schedule[f.at]) && !schedule[f.at].refused
    && |f.data| == Min(Room(schedule[f.at]), left)
  }

  /** Frames in order, each with all the room it had, the last of the data and no
      other marked as the end. */
  ghost predicate WellSent(schedule: seq<Instant>, data: bytes, endStream: bool, frames: seq<DataFrame>)
    decreases |frames|
  {
    frames == [] ||
    (var before, f := frames[..|frames| - 1], frames[|frames| - 1];
     && WellSent(schedule, data, endStream, before)
     && |Payload(before)| < |data|
     && Fits(schedule, f, |data| - |Payload(before)|)
     && (before != [] ==> before[|before| - 1].at < f.at)
     && Payload(frames) <= data
     && (f.endStream <==> endStream && Payload(frames) == data))
  }

  ghost predicate Carried(frames: seq<DataFrame>, i: nat) {
    exists k :: 0 <= k < |frames| && frames[k].at == i
  }

  /** Every granting instant before `n` carried a frame. */
  ghost predicate NoneWasted(schedule: seq<Instant>, frames: seq<DataFrame>, n: nat)
    requires n <= |schedule|
  {
    forall i :: 0 <= i < n && Granting(schedule[i]) ==> Carried(frames, i)
  }

  ghost predicate NoneBroke(schedule: seq<Instant>, n: nat)
    requires n <= |schedule|
  {
    forall i :: 0 <= i < n ==> !Breaking(schedule[i])
  }

  /** The writer stood at instant `i` when the stream broke: it is the first that breaks
      it, every granting instant before it carried a frame, and none came later. */
  ghost predicate StoodAt(schedule: seq<Instant>, frames: seq<DataFrame>, i: nat) {
    && i < |schedule| && Breaking(schedule[i]) && NoneBroke(schedule, i) && NoneWasted(schedule, frames, i)
    && (frames != [] ==> frames[|frames| - 1].at < i)
  }

  predicate Limited(schedule: seq<Instant>) {
    forall i :: 0 <= i < |schedule| && schedule[i].Open? ==> schedule[i].frameLimit > 0
  }

  /** What the last frame adds. */
  lemma LastIsWorthSending(schedule: seq<Instant>, data: bytes, endStream: bool, frames: seq<DataFrame>)
    requires Limited(schedule) && WellSent(schedule, data, endStream, frames) && frames != []
    ensures var before, f := frames[..|frames| - 1], frames[|frames| - 1];
            && f.at < |schedule| && schedule[f.at].Open? && |Payload(frames)| == |Payload(before)| + |f.data|
            && 0 < |f.data| <= schedule[f.at].streamWindow
            && |f.data| <= schedule[f.at].connWindow && |f.data| <= schedule[f.at].frameLimit
            && Payload(before) != data && (f.endStream <==> endStream && Payload(frames) == data)
  {
  }

  /** No frame is empty and no window is overrun: together with the method below, a
      body takes at most as many granting instants as it has bytes. */
  lemma {:induction false} FramesAreWorthSending(schedule: seq<Instant>, data: bytes, endStream: bool, frames: seq<DataFrame>)
    requires Limited(schedule) && WellSent(schedule, data, endStream, frames)
    ensures |frames| <= |Payload(frames)|
    ensures forall k :: 0 <= k < |frames| ==>
              && frames[k].at < |schedule| && schedule[frames[k].at].Open?
              && 0 < |frames[k].data| <= schedule[frames[k].at].streamWindow
              && |frames[k].data| <= schedule[frames[k].at].connWindow
              && |frames[k].data| <= schedule[frames[k].at].frameLimit
    ensures forall k :: 0 <= k < |frames| ==> (frames[k].endStream <==> endStream && k == |frames| - 1 && Payload(frames) == data)
    decreases |frames|
  {
    if frames != [] {
      var before, f := frames[..|frames| - 1], frames[|frames| - 1];
      FramesAreWorthSending(schedule, data, endStream, before);
      LastIsWorthSending(schedule, data, endStream, frames);
      forall k | 0 <= k < |before| ensures frames[k] == before[k] {
      }
    }
  }

  lemma FrameGoes(schedule: seq<Instant>, data: bytes, endStream: bool, frames: seq<DataFrame>, f: DataFrame)
    requires WellSent(schedule, data, endStream, frames) && Payload(frames) < data
    requires Fits(schedule, f, |data| - |Payload(frames)|) && (frames != [] ==> frames[|frames| - 1].at < f.at)
    requires f.data == data[|Payload(frames)|..|Payload(frames)| + |f.data|]
    requires f.endStream <==> endStream && |Payload(frames)| + |f.data| == |data|
    requires NoneWasted(schedule, frames, f.at)
    ensures WellSent(schedule, data, endStream, frames + [f]) && NoneWasted(schedule, frames + [f], f.at + 1)
    ensures Payload(frames + [f]) == data[..|Payload(frames)| + |f.data|]
  {
    var after := frames + [f];
    PayloadAppend(frames, f);
    assert after[..|after| - 1] == frames && after[|frames|] == f;
    forall i | 0 <= i < f.at + 1 && Granting(schedule[i]) ensures Carried(after, i) {
      if i < f.at {
        assert Carried(frames, i);
        var k :| 0 <= k < |frames| && frames[k].at == i;
        assert after[k].at == i;
      } else {
        assert after[|frames|].at == i;
      }
    }
    assert data[..|data|] == data;
  }

  /** Waits for an instant with credit, from `start` on. */
  method WaitForWindow(schedule: seq<Instant>, start: nat) returns (ok: bool, pos: nat)
    requires start <= |schedule|
    ensures start <= pos <= |schedule|
    ensures forall i :: start <= i < pos ==> !Granting(schedule[i]) && !schedule[i].Gone?
    ensures ok ==> pos < |schedule| && Granting(schedule[pos])
    ensures !ok ==> pos == |schedule| || schedule[pos].Gone?
  {
    pos := start;
    while pos < |schedule|
      invariant start <= pos <= |schedule|
      invariant forall i :: start <= i < pos ==> !Granting(schedule[i]) && !schedule[i].Gone?
    {
      if schedule[pos].Gone? {
        return false, pos;
      }
      if schedule[pos].streamWindow > 0 && schedule[pos].connWindow > 0 {
        return true, pos;
      }
      pos := pos + 1;
    }
    ok := false;
  }

  /** Hands h2 the next frame, or finds that it refuses it. */
  method SendOne(schedule: seq<Instant>, data: bytes, endStream: bool, frames: seq<DataFrame>, offset: nat, pos: nat)
    returns (sent: seq<DataFrame>, size: nat, ok: bool)
    requires Limited(schedule) && offset == |Payload(frames)| && pos < |schedule| && Granting(schedule[pos])
    requires WellSent(schedule, data, endStream, frames) && Payload(frames) < data && NoneWasted(schedule, frames, pos)
    requires frames != [] ==> frames[|frames| - 1].at < pos
    ensures !ok ==> sent == frames && Breaking(schedule[pos])
    ensures ok ==> WellSent(schedule, data, endStream, sent) && NoneWasted(schedule, sent, pos + 1) && !Breaking(schedule[pos])
    ensures ok ==> sent != [] && sent[|sent| - 1].at == pos
    ensures ok ==> Payload(sent) <= data && offset < offset + size == |Payload(sent)|
  {
    var now := schedule[pos];
    size := Min(Min(Min(now.streamWindow, now.connWindow), now.frameLimit), |data| - offset);
    var chunk := data[offset..offset + size];
    if now.refused {
      return frames, size, false;
    }
    var f := DataFrame(chunk, endStream && offset + size >= |data|, pos);
    FrameGoes(schedule, data, endStream, frames, f);
    return frames + [f], size, true;
  }

  /** Outbound flow control, for every schedule: the frames concatenate to a prefix of
      the data, each fits every window, everything is sent exactly if the verdict says
      so, the stream is lost exactly when data is left at the first instant that breaks
      it, and the writer waits only when no instant breaks the stream and it has used
      every one that granted credit. */
  method SendAll(schedule: seq<Instant>, data: bytes, endStream: bool)
    returns (frames: seq<DataFrame>, ended: bool, verdict: Verdict)
    requires Limited(schedule)
    ensures WellSent(schedule, data, endStream, frames) && Payload(frames) <= data
    ensures verdict.Sent? <==> Payload(frames) == data
    ensures ended <==> endStream && data == []
    ensures verdict.Lost? <==> Payload(frames) != data && exists i :: StoodAt(schedule, frames, i)
    ensures verdict.Waiting? ==> NoneWasted(schedule, frames, |schedule|) && NoneBroke(schedule, |schedule|)
  {
    frames, ended, verdict := [], false, Sent;
    if data == [] {
      return [], endStream, Sent;
    }
    var offset, pos := 0, 0;
    while offset < |data|
      invariant pos <= |schedule| && WellSent(schedule, data, endStream, frames) && Payload(frames) <= data
      invariant offset == |Payload(frames)| && (frames != [] ==> frames[|frames| - 1].at < pos)
      invariant NoneWasted(schedule, frames, pos) && NoneBroke(schedule, pos)
      decreases |data| - offset, |schedule| - pos
    {
      if pos == |schedule| {
        return frames, false, Waiting;
      }
      if schedule[pos].Gone? {
        assert StoodAt(schedule, frames, pos);
        return frames, false, Lost;
      }
      if schedule[pos].streamWindow <= 0 || schedule[pos].connWindow <= 0 {
        var ok;
        ok, pos := WaitForWindow(schedule, pos);
        if !ok {
          verdict := if pos == |schedule| then Waiting else Lost;
          assert pos < |schedule| ==> StoodAt(schedule, frames, pos);
          return frames, false, verdict;
        }
        continue;
      }
      var sent, size, ok := SendOne(schedule, data, endStream, frames, offset, pos);
      if !ok {
        assert StoodAt(schedule, frames, pos);
        return frames, false, Lost;
      }
      frames, offset, pos := sent, offset + size, pos + 1;
    }
  }
}
