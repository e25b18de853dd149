/** The exchange of frames between one input plugin and any number of output plugins: a shared buffer
    with its size and timestamp, a mutex and a condition variable.  The producer is the publish section
    of `cam_thread`, a consumer the loop of `send_stream` (and, with the same steps, `send_snapshot` and
    the worker of output_file).  Every step that another thread could observe is a step here, down to
    the single bytes of the two copies. */
module FrameExchange {
  import opened Words

  datatype Frame = Frame(bytes: seq<Byte>, time: int)

  datatype Owner = Free | Producer | Consumer(c: nat)

  datatype Producing =
    | Away                           // grabbing the next picture, without the lock
    | Copying(f: Frame, k: nat)      // locked, k bytes of f copied
    | Sized(f: Frame)                // size set
    | Stamped(f: Frame)              // timestamp set
    | Announced                      // broadcast done, still locked

  /** A consumer's copy, with the number of the publication it was made of and whether the wait before
      it ended by a broadcast. */
  datatype Copy = Copy(frame: Frame, index: nat, signalled: bool)

  datatype Consuming =
    | Outside
    | Locked
    | Waiting(since: nat, signalled: bool)     // `since` publications had been made
    | Woken(signalled: bool)
    | KnowsSize(signalled: bool, size: nat)
    | KnowsTime(signalled: bool, size: nat, time: int, local: seq<Byte>)

  datatype Reader = Reader(pc: Consuming, taken: seq<Copy>)

  datatype State = State(owner: Owner, buf: seq<Byte>, size: nat, time: int,
                         producing: Producing, readers: seq<Reader>, history: seq<Frame>)

  datatype Action =
    | Lock(f: Frame) | CopyByte | SetSize | SetTime | Broadcast | Unlock
    | RLock(c: nat) | RWait(c: nat) | RWake(c: nat) | RSize(c: nat) | RTime(c: nat) | RByte(c: nat) | RUnlock(c: nat)

  /** Publication 0 is what the buffer holds before any picture. */
  predicate Init(s: State)
  {
    && s.owner == Free && s.size == 0 && s.producing == Away && s.history == [Frame([], s.time)]
    && forall c :: 0 <= c < |s.readers| ==> s.readers[c] == Reader(Outside, [])
  }

  function Pc(s: State, c: nat): Consuming
    requires c < |s.readers|
  {
    s.readers[c].pc
  }

  /** The mutex is taken only when it is free; a wait may also end without a broadcast; and a frame fits
      the buffer. */
  predicate Enabled(s: State, a: Action)
  {
    match a
    case Lock(f) => s.owner == Free && s.producing == Away && |f.bytes| <= |s.buf|
    case CopyByte => s.producing.Copying? && s.producing.k < |s.producing.f.bytes| <= |s.buf|
    case SetSize => s.producing.Copying? && s.producing.k == |s.producing.f.bytes|
    case SetTime => s.producing.Sized?
    case Broadcast => s.producing.Stamped?
    case Unlock => s.producing.Announced?
    case RLock(c) => c < |s.readers| && Pc(s, c).Outside? && s.owner == Free
    case RWait(c) => c < |s.readers| && Pc(s, c).Locked?
    case RWake(c) => c < |s.readers| && Pc(s, c).Waiting? && s.owner == Free
    case RSize(c) => c < |s.readers| && Pc(s, c).Woken?
    case RTime(c) => c < |s.readers| && Pc(s, c).KnowsSize?
    case RByte(c) =>
      c < |s.readers| && Pc(s, c).KnowsTime? && |Pc(s, c).local| < Pc(s, c).size && |Pc(s, c).local| < |s.buf|
    case RUnlock(c) => c < |s.readers| && Pc(s, c).KnowsTime? && |Pc(s, c).local| == Pc(s, c).size && s.history != []
  }

  function Go(s: State, c: nat, pc: Consuming, owner: Owner): State
    requires c < |s.readers|
  {
    s.(owner := owner, readers := s.readers[c := s.readers[c].(pc := pc)])
  }

  /** pthread_cond_broadcast */
  function Signal(r: Reader): Reader
  {
    if r.pc.Waiting? then r.(pc := Waiting(r.pc.since, true)) else r
  }

  function Apply(s: State, a: Action): State
    requires Enabled(s, a)
  {
    match a
    case Lock(f) => s.(owner := Producer, producing := Copying(f, 0))
    case CopyByte =>
      var p := s.producing;
      s.(buf := s.buf[p.k := p.f.bytes[p.k]], producing := Copying(p.f, p.k + 1))
    case SetSize => s.(size := |s.producing.f.bytes|, producing := Sized(s.producing.f))
    case SetTime => s.(time := s.producing.f.time, producing := Stamped(s.producing.f))
    case Broadcast =>
      s.(producing := Announced, history := s.history + [s.producing.f],
         readers := seq(|s.readers|, c requires 0 <= c < |s.readers| => Signal(s.readers[c])))
    case Unlock => s.(owner := Free, producing := Away)
    case RLock(c) => Go(s, c, Locked, Consumer(c))
    case RWait(c) => Go(s, c, Waiting(|s.history|, false), Free)
    case RWake(c) => Go(s, c, Woken(Pc(s, c).signalled), Consumer(c))
    case RSize(c) => Go(s, c, KnowsSize(Pc(s, c).signalled, s.size), s.owner)
    case RTime(c) => Go(s, c, KnowsTime(Pc(s, c).signalled, Pc(s, c).size, s.time, []), s.owner)
    case RByte(c) =>
      var pc := Pc(s, c);
      Go(s, c, KnowsTime(pc.signalled, pc.size, pc.time, pc.local + [s.buf[|pc.local|]]), s.owner)
    case RUnlock(c) =>
      var pc := Pc(s, c);
      var copy := Copy(Frame(pc.local, pc.time), |s.history| - 1, pc.signalled);
      s.(owner := Free, readers := s.readers[c := Reader(Outside, s.readers[c].taken + [copy])])
  }

  // ----- the invariant -----

  ghost predicate Holding(pc: Consuming)
  {
    !pc.Outside? && !pc.Waiting?
  }

  /** The mutex excludes: whoever is between lock and unlock owns it. */
  ghost predicate Exclusive(s: State)
  {
    && (s.owner == Producer <==> !s.producing.Away?)
    && forall c :: 0 <= c < |s.readers| ==> (s.owner == Consumer(c) <==> Holding(s.readers[c].pc))
  }

  ghost predicate Shows(s: State, f: Frame)
  {
    |f.bytes| <= |s.buf| && s.size == |f.bytes| && s.buf[..s.size] == f.bytes && s.time == f.time
  }

  /** What the shared variables hold at each point of the publish section. */
  ghost predicate Published(s: State)
  {
    && s.history != []
    && match s.producing
       case Copying(f, k) => k <= |f.bytes| <= |s.buf| && s.buf[..k] == f.bytes[..k]
       case Sized(f) => |f.bytes| <= |s.buf| && s.size == |f.bytes| && s.buf[..s.size] == f.bytes
       case Stamped(f) => Shows(s, f)
       case _ => Shows(s, s.history[|s.history| - 1])
  }

  /** A copy is one whole publication. */
  ghost predicate Whole(history: seq<Frame>, copy: Copy)
  {
    copy.index < |history| && copy.frame == history[copy.index]
  }

  /** Copies follow each other in the order of publication, strictly after a broadcast. */
  ghost predicate Ordered(taken: seq<Copy>)
  {
    forall i, j :: 0 <= i < j < |taken| ==>
      taken[i].index <= taken[j].index && (taken[j].signalled ==> taken[i].index < taken[j].index)
  }

  ghost predicate ReaderOk(s: State, r: Reader)
  {
    && (forall i :: 0 <= i < |r.taken| ==> Whole(s.history, r.taken[i])) && Ordered(r.taken)
    && match r.pc
       case Waiting(since, signalled) =>
         && since <= |s.history| && (signalled ==> since < |s.history|)
         && forall i :: 0 <= i < |r.taken| ==> r.taken[i].index < since
       case Woken(signalled) => Fresh(s, r, signalled)
       case KnowsSize(signalled, size) => Fresh(s, r, signalled) && size == s.size
       case KnowsTime(signalled, size, time, local) =>
         && Fresh(s, r, signalled) && size == s.size && time == s.time
         && |local| <= size <= |s.buf| && local == s.buf[..|local|]
       case _ => true
  }

  /** After a wait that a broadcast ended, there is a publication newer than all copies made. */
  ghost predicate Fresh(s: State, r: Reader, signalled: bool)
  {
    signalled ==> forall i :: 0 <= i < |r.taken| ==> r.taken[i].index < |s.history| - 1
  }

  ghost predicate Inv(s: State)
  {
    Exclusive(s) && Published(s) && forall c :: 0 <= c < |s.readers| ==> ReaderOk(s, s.readers[c])
  }

  lemma InitInv(s: State)
    requires Init(s)
    ensures Inv(s)
  {
  }

  // ----- every step keeps it -----

  lemma ProducerStep(s: State, a: Action)
    requires Inv(s) && Enabled(s, a) && (a.Lock? || a.CopyByte? || a.SetSize? || a.SetTime? || a.Unlock?)
    ensures Inv(Apply(s, a))
  {
    var t := Apply(s, a);
    forall c | 0 <= c < |t.readers| ensures ReaderOk(t, t.readers[c]) {
      assert ReaderOk(s, s.readers[c]);
      if !a.Lock? && !a.Unlock? {
        assert !Holding(s.readers[c].pc);
      }
    }
    if a.CopyByte? {
      var p := s.producing;
      assert t.buf[..p.k + 1] == s.buf[..p.k] + [p.f.bytes[p.k]] == p.f.bytes[..p.k + 1];
    } else if a.SetSize? {
      assert s.producing.f.bytes[..s.producing.k] == s.producing.f.bytes;
    }
  }

  lemma BroadcastStep(s: State)
    requires Inv(s) && Enabled(s, Broadcast)
    ensures Inv(Apply(s, Broadcast))
  {
    var t := Apply(s, Broadcast);
    forall c | 0 <= c < |t.readers|
      ensures ReaderOk(t, t.readers[c]) && Holding(t.readers[c].pc) == Holding(s.readers[c].pc)
    {
      assert ReaderOk(s, s.readers[c]) && t.readers[c] == Signal(s.readers[c]);
      assert !Holding(s.readers[c].pc);
    }
  }

  /** A step of one reader leaves the shared variables and the other readers as they are. */
  lemma OthersUnmoved(s: State, t: State, c: nat)
    requires Inv(s) && c < |s.readers| == |t.readers|
    requires t == s.(owner := t.owner, readers := s.readers[c := t.readers[c]])
    requires ReaderOk(t, t.readers[c])
    requires t.owner == (if Holding(t.readers[c].pc) then Consumer(c) else Free)
    requires s.owner == Free || s.owner == Consumer(c)
    ensures Inv(t)
  {
    forall d | 0 <= d < |t.readers| ensures ReaderOk(t, t.readers[d]) {
      assert ReaderOk(s, s.readers[d]);
    }
  }

  lemma ReaderLockStep(s: State, a: Action, c: nat)
    requires Inv(s) && Enabled(s, a) && (a == RLock(c) || a == RWait(c) || a == RWake(c))
    ensures Inv(Apply(s, a))
  {
    assert ReaderOk(s, s.readers[c]);
    OthersUnmoved(s, Apply(s, a), c);
  }

  lemma ReaderReadStep(s: State, a: Action, c: nat)
    requires Inv(s) && Enabled(s, a) && (a == RSize(c) || a == RTime(c) || a == RByte(c))
    ensures Inv(Apply(s, a))
  {
    var t, r := Apply(s, a), s.readers[c];
    assert ReaderOk(s, r);
    if a == RByte(c) {
      var n := |r.pc.local|;
      assert s.buf[..n + 1] == s.buf[..n] + [s.buf[n]];
    }
    OthersUnmoved(s, t, c);
  }

  lemma ReaderUnlockStep(s: State, c: nat)
    requires Inv(s) && Enabled(s, RUnlock(c))
    ensures Inv(Apply(s, RUnlock(c)))
  {
    var t, r := Apply(s, RUnlock(c)), s.readers[c];
    assert ReaderOk(s, r);
    var copy := Copy(Frame(r.pc.local, r.pc.time), |s.history| - 1, r.pc.signalled);
    assert Whole(s.history, copy);
    assert t.readers[c].taken == r.taken + [copy];
    OthersUnmoved(s, t, c);
  }

  lemma StepInv(s: State, a: Action)
    requires Inv(s) && Enabled(s, a)
    ensures Inv(Apply(s, a))
  {
    match a
    case Broadcast => BroadcastStep(s);
    case RLock(c) => ReaderLockStep(s, a, c);
    case RWait(c) => ReaderLockStep(s, a, c);
    case RWake(c) => ReaderLockStep(s, a, c);
    case RSize(c) => ReaderReadStep(s, a, c);
    case RTime(c) => ReaderReadStep(s, a, c);
    case RByte(c) => ReaderReadStep(s, a, c);
    case RUnlock(c) => ReaderUnlockStep(s, c);
    case _ => ProducerStep(s, a);
  }

  // ----- runs -----

  /** A schedule: actions each of which is possible when its turn comes. */
  predicate Schedule(s: State, actions: seq<Action>)
    decreases |actions|
  {
    actions == [] || (Enabled(s, actions[0]) && Schedule(Apply(s, actions[0]), actions[1..]))
  }

  function Exec(s: State, actions: seq<Action>): State
    requires Schedule(s, actions)
    decreases |actions|
  {
    if actions == [] then s else Exec(Apply(s, actions[0]), actions[1..])
  }

  lemma {:induction false} ExecInv(s: State, actions: seq<Action>)
    requires Inv(s) && Schedule(s, actions)
    ensures Inv(Exec(s, actions))
    decreases |actions|
  {
    if actions != [] {
      StepInv(s, actions[0]);
      ExecInv(Apply(s, actions[0]), actions[1..]);
    }
  }

  /** In every interleaving, each copy a consumer makes is one whole publication, bytes, size and
      timestamp together, never a mixture; the publications it sees never go back, and move on strictly
      whenever its wait was ended by a broadcast. */
  lemma ExchangeIsSafe(s: State, actions: seq<Action>)
    requires Init(s) && Schedule(s, actions)
    ensures var t := Exec(s, actions);
            forall c :: 0 <= c < |t.readers| ==>
              && Ordered(t.readers[c].taken)
              && forall i :: 0 <= i < |t.readers[c].taken| ==> Whole(t.history, t.readers[c].taken[i])
  {
    InitInv(s);
    ExecInv(s, actions);
    var t := Exec(s, actions);
    assert forall c :: 0 <= c < |t.readers| ==> ReaderOk(t, t.readers[c]);
  }

  // ----- when copies differ -----

  function Broadcasts(actions: seq<Action>): nat
  {
    if actions == [] then 0 else (if actions[0].Broadcast? then 1 else 0) + Broadcasts(actions[1..])
  }

  /** Only a broadcast adds a publication. */
  lemma {:induction false} HistoryCounts(s: State, actions: seq<Action>)
    requires Schedule(s, actions)
    ensures |Exec(s, actions).history| == |s.history| + Broadcasts(actions)
    ensures |Exec(s, actions).readers| == |s.readers|
    decreases |actions|
  {
    hide Enabled;
    if actions != [] {
      HistoryStep(s, actions[0]);
      HistoryCounts(Apply(s, actions[0]), actions[1..]);
    }
  }

  lemma HistoryStep(s: State, a: Action)
    requires Enabled(s, a)
    ensures |Apply(s, a).history| == |s.history| + (if a.Broadcast? then 1 else 0)
    ensures |Apply(s, a).readers| == |s.readers|
    ensures forall c | 0 <= c < |s.readers| ::
              a != RUnlock(c) ==> Apply(s, a).readers[c].taken == s.readers[c].taken
  {
  }

  /** Between its unlocks a consumer's copies stay as they are. */
  lemma {:induction false} CopiesStay(s: State, c: nat, actions: seq<Action>)
    requires Schedule(s, actions) && c < |s.readers| && RUnlock(c) !in actions
    ensures c < |Exec(s, actions).readers| && Exec(s, actions).readers[c].taken == s.readers[c].taken
    decreases |actions|
  {
    hide Enabled;
    if actions != [] {
      HistoryStep(s, actions[0]);
      CopiesStay(Apply(s, actions[0]), c, actions[1..]);
    }
  }

  lemma UnlockCopies(s: State, c: nat)
    requires Enabled(s, RUnlock(c))
    ensures c < |s.readers| == |Apply(s, RUnlock(c)).readers| && s.history != []
    ensures Apply(s, RUnlock(c)).history == s.history
    ensures var t := Apply(s, RUnlock(c)).readers[c].taken;
            |t| == |s.readers[c].taken| + 1 && t[..|t| - 1] == s.readers[c].taken && t[|t| - 1].index == |s.history| - 1
  {
  }

  /** Two copies that a consumer makes one after the other differ by exactly as many publications as there were
      broadcasts between them: they are of the same publication exactly when there was none. */
  lemma AdvanceIsBroadcasts(s: State, c: nat, between: seq<Action>)
    requires Enabled(s, RUnlock(c)) && RUnlock(c) !in between && Schedule(Apply(s, RUnlock(c)), between)
    requires Enabled(Exec(Apply(s, RUnlock(c)), between), RUnlock(c))
    ensures var t := Apply(Exec(Apply(s, RUnlock(c)), between), RUnlock(c));
            && c < |t.readers|
            && var taken := t.readers[c].taken; var n := |taken|;
            && n >= 2
            && taken[n - 1].index == taken[n - 2].index + Broadcasts(between)
            && (taken[n - 1].index > taken[n - 2].index <==> Broadcast in between)
  {
    hide Enabled, Apply, Exec, Schedule;
    var s1 := Apply(s, RUnlock(c));
    var s2 := Exec(s1, between);
    UnlockCopies(s, c);
    HistoryCounts(s1, between);
    CopiesStay(s1, c, between);
    UnlockCopies(s2, c);
    BroadcastsIn(between);
    var taken := Apply(s2, RUnlock(c)).readers[c].taken;
    assert taken[|taken| - 2] == taken[..|taken| - 1][|taken| - 2];
  }

  /** A waiting consumer is told of the first broadcast and not of anything else. */
  lemma {:induction false} WaitIsSignalled(s: State, c: nat, actions: seq<Action>)
    requires Schedule(s, actions) && c < |s.readers| && Pc(s, c).Waiting? && RWake(c) !in actions
    ensures c < |Exec(s, actions).readers|
    ensures Pc(Exec(s, actions), c) == Waiting(Pc(s, c).since, Pc(s, c).signalled || Broadcast in actions)
    decreases |actions|
  {
    hide Enabled;
    if actions != [] {
      WaitStep(s, c, actions[0]);
      WaitIsSignalled(Apply(s, actions[0]), c, actions[1..]);
    }
  }

  lemma WaitStep(s: State, c: nat, a: Action)
    requires Enabled(s, a) && c < |s.readers| && Pc(s, c).Waiting? && a != RWake(c)
    ensures |Apply(s, a).readers| == |s.readers|
    ensures Pc(Apply(s, a), c) == Waiting(Pc(s, c).since, Pc(s, c).signalled || a == Broadcast)
  {
  }

  /** Behind the wait, until the copy is made. */
  predicate Knows(pc: Consuming, signalled: bool)
  {
    (pc.Woken? || pc.KnowsSize? || pc.KnowsTime?) && pc.signalled == signalled
  }

  lemma {:induction false} SignalIsKept(s: State, c: nat, actions: seq<Action>, signalled: bool)
    requires Schedule(s, actions) && c < |s.readers| && Knows(Pc(s, c), signalled) && RUnlock(c) !in actions
    ensures c < |Exec(s, actions).readers| && Knows(Pc(Exec(s, actions), c), signalled)
    decreases |actions|
  {
    hide Enabled, Knows;
    if actions != [] {
      KnowsStep(s, c, actions[0], signalled);
      SignalIsKept(Apply(s, actions[0]), c, actions[1..], signalled);
    }
  }

  lemma KnowsStep(s: State, c: nat, a: Action, signalled: bool)
    requires Enabled(s, a) && c < |s.readers| && Knows(Pc(s, c), signalled) && a != RUnlock(c)
    ensures |Apply(s, a).readers| == |s.readers| && Knows(Pc(Apply(s, a), c), signalled)
  {
  }

  /** A copy counts as signalled exactly when a broadcast lies between the wait in front of it and the end of that
      wait. */
  lemma SignalledIsBroadcast(s: State, c: nat, waiting: seq<Action>, copying: seq<Action>)
    requires Enabled(s, RWait(c)) && RWake(c) !in waiting && Schedule(Apply(s, RWait(c)), waiting)
    requires Enabled(Exec(Apply(s, RWait(c)), waiting), RWake(c)) && RUnlock(c) !in copying
    requires var s2 := Apply(Exec(Apply(s, RWait(c)), waiting), RWake(c));
             Schedule(s2, copying) && Enabled(Exec(s2, copying), RUnlock(c))
    ensures var s2 := Apply(Exec(Apply(s, RWait(c)), waiting), RWake(c));
            var t := Apply(Exec(s2, copying), RUnlock(c));
            && c < |t.readers| && t.readers[c].taken != []
            && t.readers[c].taken[|t.readers[c].taken| - 1].signalled == (Broadcast in waiting)
  {
    var s1 := Apply(s, RWait(c));
    var s2 := Apply(Exec(s1, waiting), RWake(c));
    hide Schedule, Exec;
    WaitIsSignalled(s1, c, waiting);
    SignalIsKept(s2, c, copying, Broadcast in waiting);
  }

  lemma {:induction false} BroadcastsIn(actions: seq<Action>)
    ensures Broadcasts(actions) > 0 <==> Broadcast in actions
  {
    if actions != [] {
      BroadcastsIn(actions[1..]);
    }
  }

  /** Copying the bytes still missing, then unlocking. */
  function Rest(c: nat, n: nat): seq<Action>
  {
    if n == 0 then [RUnlock(c)] else [RByte(c)] + Rest(c, n - 1)
  }

  /** One turn of a consumer whose wait ends by itself. */
  function SpuriousTurn(c: nat, size: nat): seq<Action>
  {
    [RLock(c)] + ([RWait(c)] + ([RWake(c)] + ([RSize(c)] + ([RTime(c)] + Rest(c, size)))))
  }

  /** Without the broadcast the same publication can be copied again: from every state in which nobody holds
      the mutex, a wait that ends by itself, with nothing published in between, adds a copy of the newest
      publication and leads to such a state again. */
  lemma SpuriousWakeRepeats(s: State, c: nat)
    requires Inv(s) && s.owner == Free && c < |s.readers| && s.readers[c].pc == Outside
    ensures Schedule(s, SpuriousTurn(c, s.size))
    ensures var t := Exec(s, SpuriousTurn(c, s.size)); var n := |s.history| - 1;
            && n >= 0 && t.history == s.history && t.owner == Free && t.size == s.size
            && c < |t.readers| && t.readers[c].pc == Outside
            && t.readers[c].taken == s.readers[c].taken + [Copy(s.history[n], n, false)]
  {
    var s1, s2, s3 := SpuriousWake(s, c);
    var s4, s5 := ReadSizeAndTime(s3, c);
    var n := s.size;
    NewestShown(s);
    hide Schedule, Exec, Enabled, Apply, Inv;
    CopyRest(s5, c, n);
    Runs(s4, RTime(c), Rest(c, n));
    Runs(s3, RSize(c), [RTime(c)] + Rest(c, n));
    Runs(s2, RWake(c), [RSize(c)] + ([RTime(c)] + Rest(c, n)));
    Runs(s1, RWait(c), [RWake(c)] + ([RSize(c)] + ([RTime(c)] + Rest(c, n))));
    Runs(s, RLock(c), [RWait(c)] + ([RWake(c)] + ([RSize(c)] + ([RTime(c)] + Rest(c, n)))));
  }

  lemma NewestShown(s: State)
    requires Inv(s) && s.owner == Free
    ensures s.history != [] && s.size <= |s.buf|
    ensures s.history[|s.history| - 1] == Frame(s.buf[..s.size], s.time)
  {
  }

  lemma SpuriousWake(s: State, c: nat) returns (s1: State, s2: State, s3: State)
    requires s.owner == Free && c < |s.readers| && s.readers[c].pc == Outside
    ensures Enabled(s, RLock(c)) && s1 == Apply(s, RLock(c))
    ensures Enabled(s1, RWait(c)) && s2 == Apply(s1, RWait(c))
    ensures Enabled(s2, RWake(c)) && s3 == Apply(s2, RWake(c))
    ensures s3.history == s.history && s3.size == s.size && s3.time == s.time && |s3.readers| == |s.readers|
    ensures s3.buf == s.buf && s3.readers[c] == Reader(Woken(false), s.readers[c].taken)
  {
    s1 := Apply(s, RLock(c));
    s2 := Apply(s1, RWait(c));
    s3 := Apply(s2, RWake(c));
  }

  lemma ReadSizeAndTime(s: State, c: nat) returns (s1: State, s2: State)
    requires c < |s.readers| && s.readers[c].pc == Woken(false)
    ensures Enabled(s, RSize(c)) && s1 == Apply(s, RSize(c))
    ensures Enabled(s1, RTime(c)) && s2 == Apply(s1, RTime(c))
    ensures s2.history == s.history && s2.buf == s.buf && s2.size == s.size && |s2.readers| == |s.readers|
    ensures s2.readers[c] == Reader(KnowsTime(false, s.size, s.time, []), s.readers[c].taken)
  {
    s1 := Apply(s, RSize(c));
    s2 := Apply(s1, RTime(c));
  }

  /** With n bytes to go, the rest of the turn completes the copy. */
  lemma {:induction false} CopyRest(s: State, c: nat, n: nat)
    requires s.history != [] && c < |s.readers| && s.readers[c].pc.KnowsTime?
    requires var pc := s.readers[c].pc;
             !pc.signalled && |pc.local| + n == pc.size <= |s.buf| && pc.local == s.buf[..|pc.local|]
    ensures Schedule(s, Rest(c, n))
    ensures var t := Exec(s, Rest(c, n)); var pc := s.readers[c].pc;
            && t.history == s.history && t.owner == Free && t.size == s.size
            && c < |t.readers| && t.readers[c].pc == Outside
            && t.readers[c].taken ==
               s.readers[c].taken + [Copy(Frame(s.buf[..pc.size], pc.time), |s.history| - 1, false)]
    decreases n
  {
    hide Schedule, Exec;
    if n == 0 {
      Ends(Apply(s, RUnlock(c)));
      Runs(s, RUnlock(c), []);
      assert [RUnlock(c)] + [] == Rest(c, 0);
    } else {
      CopyRest(Apply(s, RByte(c)), c, n - 1);
      Runs(s, RByte(c), Rest(c, n - 1));
    }
  }

  lemma Ends(s: State)
    ensures Schedule(s, []) && Exec(s, []) == s
  {
  }

  lemma Runs(s: State, a: Action, rest: seq<Action>)
    requires Enabled(s, a) && Schedule(Apply(s, a), rest)
    ensures Schedule(s, [a] + rest) && Exec(s, [a] + rest) == Exec(Apply(s, a), rest)
  {
    assert ([a] + rest)[1..] == rest;
  }
}
