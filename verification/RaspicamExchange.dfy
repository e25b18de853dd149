/** The raspicam producer (encoder_buffer_callback in input_raspicam.c) as a producer of the frame exchange: its
    calls for one frame are the exchange's publish section, spread over several callbacks. */
module RaspicamExchange {
  import opened Words
  import opened FrameExchange
  import Enc = EncoderCallback

  /** What one call does to the shared state: the first fragment takes the mutex, every fragment is copied behind the
      bytes before it, the end of the frame publishes.  `f` is the frame under way. */
  function CallSteps(before: seq<Byte>, c: Enc.Call, f: Frame): seq<Action>
  {
    (if before == [] && c.data != [] then [Lock(f)] else []) + Copies(|c.data|) +
    (if c.end then [SetSize, SetTime, Broadcast, Unlock] else [])
  }

  function Copies(n: nat): seq<Action>
  {
    if n == 0 then [] else [CopyByte] + Copies(n - 1)
  }

  function Steps(calls: seq<Enc.Call>, f: Frame): seq<Action>
  {
    if calls == [] then []
    else
      var n := |calls| - 1;
      Steps(calls[..n], f) + CallSteps(Enc.Pending(calls[..n]), calls[n], f)
  }

  // ----- runs -----

  lemma {:induction false} RunOn(s: State, a: seq<Action>, b: seq<Action>)
    requires Schedule(s, a) && Schedule(Exec(s, a), b)
    ensures Schedule(s, a + b) && Exec(s, a + b) == Exec(Exec(s, a), b)
    decreases |a|
  {
    hide Enabled, Apply;
    if a == [] {
      assert a + b == b;
    } else {
      RunOn(Apply(s, a[0]), a[1..], b);
      assert (a + b)[1..] == a[1..] + b;
    }
  }

  lemma RunOne(s: State, a: Action)
    requires Enabled(s, a)
    ensures Schedule(s, [a]) && Exec(s, [a]) == Apply(s, a)
  {
    hide Enabled, Apply;
    Ends(Apply(s, a));
    Runs(s, a, []);
    assert [a] + [] == [a];
  }

  /** Everything but the buffer's bytes and the producer's place is as it was. */
  ghost predicate Same(s: State, t: State)
  {
    && |t.buf| == |s.buf| && t.size == s.size && t.time == s.time
    && t.readers == s.readers && t.history == s.history
  }

  lemma {:induction false} CopiesRun(s: State, f: Frame, k: nat, n: nat)
    requires s.owner == Producer && s.producing == Copying(f, k) && k + n <= |f.bytes| <= |s.buf|
    ensures Schedule(s, Copies(n))
    ensures var t := Exec(s, Copies(n));
            Same(s, t) && t.owner == Producer && t.producing == Copying(f, k + n)
    decreases n
  {
    hide Schedule, Exec;
    if n == 0 {
      Ends(s);
    } else {
      CopiesRun(Apply(s, CopyByte), f, k + 1, n - 1);
      Runs(s, CopyByte, Copies(n - 1));
    }
  }

  /** Where the producer stands while `p` is what it has copied of f. */
  ghost predicate Holds(s: State, t: State, f: Frame, p: seq<Byte>)
  {
    && Same(s, t)
    && if p == [] then t.owner == Free && t.producing == Away
       else t.owner == Producer && t.producing == Copying(f, |p|)
  }

  /** Taking in one more fragment. */
  lemma FragmentRuns(s: State, t: State, f: Frame, p: seq<Byte>, data: seq<Byte>)
    requires Holds(s, t, f, p) && |p| + |data| <= |f.bytes| <= |s.buf|
    ensures var steps := (if p == [] && data != [] then [Lock(f)] else []) + Copies(|data|);
            Schedule(t, steps) && Holds(s, Exec(t, steps), f, p + data)
  {
    hide Schedule, Exec, Copies;
    if data == [] {
      Ends(t);
      NoCopies();
      assert p + data == p;
    } else if p == [] {
      RunOne(t, Lock(f));
      var u := Apply(t, Lock(f));
      CopiesRun(u, f, 0, |data|);
      RunOn(t, [Lock(f)], Copies(|data|));
    } else {
      CopiesRun(t, f, |p|, |data|);
      assert [] + Copies(|data|) == Copies(|data|);
    }
  }

  lemma NoCopies()
    ensures Copies(0) == []
  {
  }

  lemma PublishRuns(s: State, f: Frame)
    requires s.owner == Producer && s.producing == Copying(f, |f.bytes|)
    ensures Schedule(s, [SetSize, SetTime, Broadcast, Unlock])
    ensures var t := Exec(s, [SetSize, SetTime, Broadcast, Unlock]);
            && t.owner == Free && t.producing == Away && t.history == s.history + [f]
            && t.size == |f.bytes| && t.time == f.time
  {
    hide Schedule, Exec;
    var a := Apply(s, SetSize);
    var b := Apply(a, SetTime);
    var c := Apply(b, Broadcast);
    RunOne(c, Unlock);
    Runs(b, Broadcast, [Unlock]);
    Runs(a, SetTime, [Broadcast] + [Unlock]);
    Runs(s, SetSize, [SetTime] + ([Broadcast] + [Unlock]));
    assert [SetSize] + ([SetTime] + ([Broadcast] + [Unlock])) == [SetSize, SetTime, Broadcast, Unlock];
  }

  /** Between its calls, the frame not ended yet, the producer is inside the exchange's publish section, mutex held,
      exactly when a fragment is waiting, and has copied exactly the waiting bytes. */
  lemma {:induction false} FragmentsRun(s: State, calls: seq<Enc.Call>, f: Frame)
    requires s.owner == Free && s.producing == Away && |f.bytes| <= |s.buf|
    requires (forall i | 0 <= i < |calls| :: !calls[i].end) && |Enc.Pending(calls)| <= |f.bytes|
    ensures Schedule(s, Steps(calls, f)) && Holds(s, Exec(s, Steps(calls, f)), f, Enc.Pending(calls))
  {
    hide Schedule, Exec, Holds, Copies;
    if calls == [] {
      Ends(s);
      HoldsNothing(s, f);
    } else {
      var n := |calls| - 1;
      var p := Enc.Pending(calls[..n]);
      FragmentsRun(s, calls[..n], f);
      var t := Exec(s, Steps(calls[..n], f));
      FragmentRuns(s, t, f, p, calls[n].data);
      var steps := (if p == [] && calls[n].data != [] then [Lock(f)] else []) + Copies(|calls[n].data|);
      assert CallSteps(p, calls[n], f) == steps;
      RunOn(s, Steps(calls[..n], f), steps);
    }
  }

  lemma HoldsNothing(s: State, f: Frame)
    requires s.owner == Free && s.producing == Away
    ensures Holds(s, s, f, [])
  {
  }

  /** The calls of one frame, its fragments not all empty, are a run of the exchange's producer that publishes the
      joined fragments: from any state in which the mutex is free, with the clock of the last call when time stamps
      are wanted and the old time stamp when they are not. */
  lemma FrameIsPublished(s: State, calls: seq<Enc.Call>, last: Enc.Call, wantTimestamp: bool)
    requires s.owner == Free && s.producing == Away
    requires (forall i | 0 <= i < |calls| :: !calls[i].end) && last.end
    requires 0 < |Enc.Pending(calls) + last.data| <= |s.buf|
    ensures var f := Frame(Enc.Pending(calls) + last.data, if wantTimestamp then last.clock else s.time);
            var steps := Steps(calls, f) + CallSteps(Enc.Pending(calls), last, f);
            && Schedule(s, steps)
            && var t := Exec(s, steps);
               t.owner == Free && t.producing == Away && t.history == s.history + [f]
  {
    hide Schedule, Exec, Copies, Enc.Pending;
    var p := Enc.Pending(calls);
    var f := Frame(p + last.data, if wantTimestamp then last.clock else s.time);
    var publish: seq<Action> := [SetSize, SetTime, Broadcast, Unlock];
    FragmentsRun(s, calls, f);
    var t := Exec(s, Steps(calls, f));
    var steps := (if p == [] && last.data != [] then [Lock(f)] else []) + Copies(|last.data|);
    FragmentRuns(s, t, f, p, last.data);
    PublishRuns(Exec(t, steps), f);
    RunOn(t, steps, publish);
    RunOn(s, Steps(calls, f), steps + publish);
    assert CallSteps(p, last, f) == steps + publish;
  }
}
