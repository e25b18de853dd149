/** The raspicam producer: the JPEG encoder hands a picture over in several callbacks
    (encoder_buffer_callback in input_raspicam.c), and the mutex of the shared buffer stays locked from
    the first fragment to the last. */
module EncoderCallback {
  import opened Words
  import opened Wrappers
  import Memory

  /** One call: the fragment, whether the flags end the frame, and the clock at that moment. */
  datatype Call = Call(data: seq<Byte>, end: bool, clock: int)

  datatype Publication = Publication(bytes: seq<Byte>, time: int)

  // ----- what a sequence of calls means -----

  /** The fragments of the frame that has not ended yet, joined. */
  function Pending(calls: seq<Call>): seq<Byte>
  {
    if calls == [] then []
    else
      var n := |calls| - 1;
      if calls[n].end then [] else Pending(calls[..n]) + calls[n].data
  }

  /** The ended frames: for each ending call, the fragments since the one before it, joined. */
  function Frames(calls: seq<Call>): seq<seq<Byte>>
  {
    if calls == [] then []
    else
      var n := |calls| - 1;
      if calls[n].end then Frames(calls[..n]) + [Pending(calls[..n]) + calls[n].data] else Frames(calls[..n])
  }

  function AllData(calls: seq<Call>): seq<Byte>
  {
    if calls == [] then [] else AllData(calls[..|calls| - 1]) + calls[|calls| - 1].data
  }

  /** No fragment is lost or moved to another frame. */
  lemma {:induction false} FramesConserveData(calls: seq<Call>)
    ensures Flatten(Frames(calls)) + Pending(calls) == AllData(calls)
    ensures |Frames(calls)| == |Ends(calls)|
  {
    hide Flatten;
    if calls == [] {
      assert Flatten<Byte>([]) == [] by {
        NothingJoined();
      }
    } else {
      var n := |calls| - 1;
      var before := calls[..n];
      FramesConserveData(before);
      if calls[n].end {
        var f := Pending(before) + calls[n].data;
        FlattenConcat(Frames(before), [f]);
        FlattenOne(f);
      }
      Regroup(Flatten(Frames(before)), Pending(before), calls[n].data);
    }
  }

  lemma NothingJoined()
    ensures Flatten<Byte>([]) == []
  {
  }

  lemma Regroup(a: seq<Byte>, b: seq<Byte>, c: seq<Byte>)
    ensures a + (b + c) == (a + b) + c
    ensures (a + (b + c)) + [] == (a + b) + c
  {
  }

  /** The calls that end a frame. */
  function Ends(calls: seq<Call>): seq<Call>
  {
    if calls == [] then []
    else Ends(calls[..|calls| - 1]) + (if calls[|calls| - 1].end then [calls[|calls| - 1]] else [])
  }

  function EmptyFrames(frames: seq<seq<Byte>>): nat
  {
    if frames == [] then 0
    else EmptyFrames(frames[..|frames| - 1]) + (if frames[|frames| - 1] == [] then 1 else 0)
  }

  lemma {:induction false} NoEmptyFrames(frames: seq<seq<Byte>>)
    ensures EmptyFrames(frames) == 0 <==> forall i :: 0 <= i < |frames| ==> frames[i] != []
  {
    if frames != [] {
      var n := |frames| - 1;
      NoEmptyFrames(frames[..n]);
      assert forall i :: 0 <= i < n ==> frames[..n][i] == frames[i];
    }
  }

  /** What one more call changes. */
  lemma CallsSnoc(calls: seq<Call>, c: Call)
    ensures var joined := Pending(calls) + c.data; var after := calls + [c];
            && Pending(after) == (if c.end then [] else joined)
            && Frames(after) == (if c.end then Frames(calls) + [joined] else Frames(calls))
            && Ends(after) == (if c.end then Ends(calls) + [c] else Ends(calls))
            && (c.end ==> EmptyFrames(Frames(after)) == EmptyFrames(Frames(calls)) + (if joined == [] then 1 else 0))
  {
    assert (calls + [c])[..|calls|] == calls;
    var f := Frames(calls);
    assert (f + [Pending(calls) + c.data])[..|f|] == f;
  }

  // ----- the program -----

  class Port {
    const buf: array<Byte>
    const wantTimestamp: bool
    var offset: nat
    var size: nat
    var time: int
    /** Whether the callback's thread holds the mutex. */
    var locked: bool
    /** How often the mutex was unlocked without being held, or locked while held. */
    var misuses: nat
    /** What the shared buffer held at each broadcast. */
    var published: seq<Publication>
    ghost var calls: seq<Call>

    ghost predicate Valid()
      reads this, buf
    {
      && offset == |Pending(calls)| <= buf.Length && buf[..offset] == Pending(calls)
      && locked == (offset > 0)
      && misuses == EmptyFrames(Frames(calls))
      && |published| == |Frames(calls)| == |Ends(calls)|
      && (forall i :: 0 <= i < |published| ==> published[i].bytes == Frames(calls)[i])
      && (wantTimestamp ==> forall i :: 0 <= i < |published| ==> published[i].time == Ends(calls)[i].clock)
    }

    constructor (buf: array<Byte>, wantTimestamp: bool)
      ensures Valid() && calls == [] && this.buf == buf && this.wantTimestamp == wantTimestamp && !locked
    {
      this.buf, this.wantTimestamp := buf, wantTimestamp;
      offset, size, time, locked, misuses, published, calls := 0, 0, 0, false, 0, [], [];
    }

    method LockMutex()
      modifies this`locked, this`misuses
      ensures locked && misuses == old(misuses) + (if old(locked) then 1 else 0)
    {
      if locked {
        misuses := misuses + 1;
      }
      locked := true;
    }

    method UnlockMutex()
      modifies this`locked, this`misuses
      ensures !locked && misuses == old(misuses) + (if old(locked) then 0 else 1)
    {
      if !locked {
        misuses := misuses + 1;
      }
      locked := false;
    }

    /** Over every sequence of calls: between calls the mutex is held exactly when a fragment is waiting,
        each broadcast publishes one frame's fragments joined, with their total length as the size, and
        the mutex is misused exactly once for each frame of no bytes. */
    method Callback(c: Call)
      requires Valid() && offset + |c.data| <= buf.Length
      modifies this, buf
      ensures Valid() && calls == old(calls) + [c]
      ensures locked == (|Pending(calls)| > 0)
      ensures published ==
              old(published) + (if c.end then [Publication(Pending(old(calls)) + c.data, time)] else [])
      ensures c.end ==> size == |Pending(old(calls)) + c.data|
    {
      hide Pending, Frames, Ends, EmptyFrames, Memory.Overwrite;
      CallsSnoc(calls, c);
      if |c.data| > 0 {
        if offset == 0 {
          LockMutex();
        }
        Memory.Copy(buf, offset, c.data);
        offset := offset + |c.data|;
      }
      assert buf[..offset] == Pending(calls) + c.data;
      if c.end {
        size := offset;
        if wantTimestamp {
          time := c.clock;
        }
        offset := 0;
        published := published + [Publication(buf[..size], time)];
        UnlockMutex();
      }
      calls := calls + [c];
    }
  }
}
