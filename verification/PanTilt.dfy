/** The pan/tilt commands of input_control (input_cmd and uvcPanTilt): the motor only takes relative
    moves, so the plugin keeps account of where it must be. */
module PanTilt {
  import opened Wrappers

  const ONE_DEGREE: int := 64
  const MAX_PAN: int := 70 * 64
  const MIN_PAN: int := -70 * 64
  const MAX_TILT: int := 30 * 64
  const MIN_TILT: int := -30 * 64

  datatype Command =
    | Hello | ResetPanTilt | ResetPanTiltNoMutex
    | PanSet | PanPlus | PanMinus | TiltSet | TiltPlus | TiltMinus
    | Unknown

  /** One command, and how the device answers the reset and the move it may lead to. */
  datatype Call = Call(cmd: Command, value: int, resetOk: bool, moveOk: bool)

  datatype Position = Position(pan: int, tilt: int)

  const ORIGIN: Position := Position(0, 0)

  // ----- the device -----

  const PAN_RELATIVE: int := 0x0A046D01
  const TILT_RELATIVE: int := 0x0A046D02
  const PANTILT_RESET: int := 0x0A046D03

  datatype Control = Control(id: int, value: int)

  /** One VIDIOC_S_EXT_CTRLS: the controls it sets, and whether it succeeded. */
  datatype Request = Request(controls: seq<Control>, ok: bool)

  /** Where a control brings the motor, in the units sent to it. */
  function Obey(at: Position, c: Control): Position
  {
    if c.id == PANTILT_RESET then ORIGIN
    else if c.id == PAN_RELATIVE then at.(pan := at.pan + c.value)
    else if c.id == TILT_RELATIVE then at.(tilt := at.tilt + c.value)
    else at
  }

  function ObeyAll(at: Position, controls: seq<Control>): Position
    decreases |controls|
  {
    if controls == [] then at else ObeyAll(Obey(at, controls[0]), controls[1..])
  }

  predicate Resets(r: Request)
  {
    exists c | c in r.controls :: c.id == PANTILT_RESET
  }

  /** Where the motor stands: only requests that succeed move it. */
  function Motor(log: seq<Request>): Position
  {
    if log == [] then ORIGIN
    else
      var r := log[|log| - 1];
      if r.ok then ObeyAll(Motor(log[..|log| - 1]), r.controls) else Motor(log[..|log| - 1])
  }

  /** The sum of the moves asked for since the last reset that failed. */
  function Missed(log: seq<Request>): Position
  {
    if log == [] then ORIGIN
    else
      var r, before := log[|log| - 1], Missed(log[..|log| - 1]);
      if r.ok && Resets(r) then ORIGIN
      else if r.ok || Resets(r) then before
      else ObeyAll(before, r.controls)
  }

  predicate HasReset(log: seq<Request>)
  {
    exists r | r in log :: r.ok && Resets(r)
  }

  // ----- arithmetic -----

  function Limit(v: int, low: int, high: int): int
  {
    var m := if v > low then v else low;
    if m < high then m else high
  }

  /** C's division truncates. */
  function Degrees(v: int): int
  {
    if v >= 0 then v / 64 else -(-v / 64)
  }

  // ----- what a command does -----

  /** The position a command asks for; `None` when it sends no move. */
  function Asked(cmd: Command, value: int, minRes: nat, at: Position): Option<Position>
  {
    match cmd
    case PanSet =>
      var p := Limit(value * ONE_DEGREE, MIN_PAN, MAX_PAN);
      if p == at.pan then None else Some(at.(pan := p))
    case PanPlus => if at.pan + minRes <= MAX_PAN then Some(at.(pan := at.pan + minRes)) else None
    case PanMinus => if at.pan - minRes >= MIN_PAN then Some(at.(pan := at.pan - minRes)) else None
    case TiltSet =>
      var t := Limit(value * ONE_DEGREE, MIN_TILT, MAX_TILT);
      if t == at.tilt then None else Some(at.(tilt := t))
    case TiltPlus => if at.tilt + minRes <= MAX_TILT then Some(at.(tilt := at.tilt + minRes)) else None
    case TiltMinus => if at.tilt - minRes >= MIN_TILT then Some(at.(tilt := at.tilt - minRes)) else None
    case _ => None
  }

  predicate Moves(cmd: Command)
  {
    cmd in {PanSet, PanPlus, PanMinus, TiltSet, TiltPlus, TiltMinus}
  }

  predicate Resetting(cmd: Command)
  {
    cmd == ResetPanTilt || cmd == ResetPanTiltNoMutex
  }

  function Axis(cmd: Command, at: Position): int
  {
    if cmd in {PanSet, PanPlus, PanMinus} then at.pan else at.tilt
  }

  /** The plugin's static variables, and every request it has made. */
  datatype Account = Account(at: Position, valid: bool, log: seq<Request>)

  const FRESH: Account := Account(ORIGIN, false, [])

  function ResetRequest(ok: bool): Request
  {
    Request([Control(PANTILT_RESET, 3)], ok)
  }

  function MoveRequest(pan: int, tilt: int, ok: bool): Request
  {
    Request([Control(PAN_RELATIVE, pan), Control(TILT_RELATIVE, -tilt)], ok)
  }

  datatype Outcome = Outcome(account: Account, res: int)

  function ResetStep(x: Account, ok: bool): Outcome
  {
    var log := x.log + [ResetRequest(ok)];
    if ok then Outcome(Account(ORIGIN, true, log), 0) else Outcome(x.(log := log), -1)
  }

  function MoveStep(x: Account, minRes: nat, call: Call): Outcome
  {
    match Asked(call.cmd, call.value, minRes, x.at)
    case None => Outcome(x, Degrees(Axis(call.cmd, x.at)))
    case Some(to) =>
      var r := MoveRequest(to.pan - x.at.pan, to.tilt - x.at.tilt, call.moveOk);
      Outcome(x.(at := to, log := x.log + [r]), Degrees(Axis(call.cmd, to)))
  }

  function Step(x: Account, minRes: nat, call: Call): Outcome
  {
    if call.cmd == Hello then Outcome(x, 0)
    else if Resetting(call.cmd) then ResetStep(x, call.resetOk)
    else if !Moves(call.cmd) then Outcome(x, -1)
    else if x.valid then MoveStep(x, minRes, call)
    else
      var y := ResetStep(x, call.resetOk);
      if call.resetOk then MoveStep(y.account, minRes, call) else y
  }

  datatype History = History(account: Account, results: seq<int>)

  /** A run of commands on a fresh plugin. */
  function Run(minRes: nat, calls: seq<Call>): History
  {
    if calls == [] then History(FRESH, [])
    else
      var before := Run(minRes, calls[..|calls| - 1]);
      var o := Step(before.account, minRes, calls[|calls| - 1]);
      History(o.account, before.results + [o.res])
  }

  // ----- dead reckoning -----

  predicate InRange(at: Position)
  {
    MIN_PAN <= at.pan <= MAX_PAN && MIN_TILT <= at.tilt <= MAX_TILT
  }

  /** The stored pan and the negated stored tilt are where the motor stands plus the moves that failed unnoticed;
      both are in range; and they count as valid exactly once a reset has succeeded. */
  ghost predicate Inv(x: Account)
  {
    && InRange(x.at)
    && (x.valid <==> HasReset(x.log))
    && x.at.pan == Motor(x.log).pan + Missed(x.log).pan
    && -x.at.tilt == Motor(x.log).tilt + Missed(x.log).tilt
    && (!x.valid ==> x.at == ORIGIN)
  }

  lemma ObeyOne(at: Position, c: Control)
    ensures ObeyAll(at, [c]) == Obey(at, c)
  {
    assert [c][1..] == [];
  }

  /** What the motor makes of the two kinds of request, wherever it stands. */
  lemma RequestMeans(at: Position, pan: int, tilt: int, ok: bool)
    ensures ObeyAll(at, ResetRequest(ok).controls) == ORIGIN && Resets(ResetRequest(ok))
    ensures ObeyAll(at, MoveRequest(pan, tilt, ok).controls) == Position(at.pan + pan, at.tilt - tilt)
    ensures !Resets(MoveRequest(pan, tilt, ok))
    ensures MoveRequest(pan, tilt, ok).controls == [Control(0x0A046D01, pan), Control(0x0A046D02, -tilt)]
    ensures ResetRequest(ok).controls == [Control(0x0A046D03, 3)]
  {
    var reset, move := ResetRequest(ok), MoveRequest(pan, tilt, ok);
    assert reset.controls[0] in reset.controls && reset.controls[1..] == [];
    assert move.controls[1..] == [Control(TILT_RELATIVE, -tilt)];
    ObeyOne(at, Control(PANTILT_RESET, 3));
    ObeyOne(Position(at.pan + pan, at.tilt), Control(TILT_RELATIVE, -tilt));
  }

  /** What one more request changes. */
  lemma LogNext(log: seq<Request>, r: Request)
    ensures Motor(log + [r]) == if r.ok then ObeyAll(Motor(log), r.controls) else Motor(log)
    ensures Missed(log + [r]) ==
            if r.ok && Resets(r) then ORIGIN
            else if r.ok || Resets(r) then Missed(log)
            else ObeyAll(Missed(log), r.controls)
    ensures HasReset(log + [r]) <==> HasReset(log) || (r.ok && Resets(r))
  {
    hide ObeyAll, Resets;
    assert (log + [r])[..|log|] == log;
    if r.ok && Resets(r) {
      assert r in log + [r];
    } else if HasReset(log) {
      var q :| q in log && q.ok && Resets(q);
      assert q in log + [r];
    }
  }

  lemma ResetInv(x: Account, ok: bool)
    requires Inv(x)
    ensures Inv(ResetStep(x, ok).account)
  {
    hide Motor, Missed, HasReset, Resets, ObeyAll, ResetRequest;
    LogNext(x.log, ResetRequest(ok));
    RequestMeans(Motor(x.log), 0, 0, ok);
    assert ResetRequest(ok).ok == ok by {
      ResetRequestOk(ok);
    }
  }

  lemma ResetRequestOk(ok: bool)
    ensures ResetRequest(ok).ok == ok
  {
  }

  lemma MoveInv(x: Account, minRes: nat, call: Call)
    requires Inv(x) && x.valid && Moves(call.cmd)
    ensures Inv(MoveStep(x, minRes, call).account)
  {
    match Asked(call.cmd, call.value, minRes, x.at)
    case None =>
    case Some(to) =>
      AskedInRange(call.cmd, call.value, minRes, x.at);
      Moved(x, to, call.moveOk);
  }

  lemma AskedInRange(cmd: Command, value: int, minRes: nat, at: Position)
    requires InRange(at)
    ensures Asked(cmd, value, minRes, at).Some? ==> InRange(Asked(cmd, value, minRes, at).value)
  {
  }

  lemma Moved(x: Account, to: Position, ok: bool)
    requires Inv(x) && x.valid && InRange(to)
    ensures Inv(x.(at := to, log := x.log + [MoveRequest(to.pan - x.at.pan, to.tilt - x.at.tilt, ok)]))
  {
    hide Motor, Missed, HasReset, Resets, ObeyAll;
    var dp, dt := to.pan - x.at.pan, to.tilt - x.at.tilt;
    LogNext(x.log, MoveRequest(dp, dt, ok));
    RequestMeans(Motor(x.log), dp, dt, ok);
    RequestMeans(Missed(x.log), dp, dt, ok);
  }

  /** Every command keeps the account right. */
  lemma StepInv(x: Account, minRes: nat, call: Call)
    requires Inv(x)
    ensures Inv(Step(x, minRes, call).account)
  {
    hide Inv, MoveStep, ResetRequest;
    ResetInv(x, call.resetOk);
    if Moves(call.cmd) {
      if x.valid {
        MoveInv(x, minRes, call);
      } else if call.resetOk {
        MoveInv(ResetStep(x, true).account, minRes, call);
      }
    }
  }

  lemma FreshInv()
    ensures Inv(FRESH)
  {
  }

  lemma {:induction false} RunInv(minRes: nat, calls: seq<Call>)
    ensures Inv(Run(minRes, calls).account) && |Run(minRes, calls).results| == |calls|
  {
    hide Inv, Step;
    if calls == [] {
      FreshInv();
    } else {
      RunInv(minRes, calls[..|calls| - 1]);
      StepInv(Run(minRes, calls[..|calls| - 1]).account, minRes, calls[|calls| - 1]);
    }
  }

  predicate NoMoveFailed(log: seq<Request>)
  {
    forall r | r in log :: r.ok || Resets(r)
  }

  lemma {:induction false} NothingMissed(log: seq<Request>)
    requires NoMoveFailed(log)
    ensures Missed(log) == ORIGIN
  {
    hide Resets, ObeyAll;
    if log != [] {
      NothingMissed(log[..|log| - 1]);
    }
  }

  lemma StepFails(x: Account, minRes: nat, call: Call)
    requires NoMoveFailed(x.log) && call.moveOk
    ensures NoMoveFailed(Step(x, minRes, call).account.log)
  {
    hide Resets, Asked, Degrees;
    RequestMeans(x.at, 0, 0, call.resetOk);
  }

  lemma {:induction false} RunFails(minRes: nat, calls: seq<Call>)
    requires forall k | 0 <= k < |calls| :: calls[k].moveOk
    ensures NoMoveFailed(Run(minRes, calls).account.log)
  {
    hide NoMoveFailed, Step;
    if calls == [] {
      assert NoMoveFailed([]) by {
        NothingFailed();
      }
    } else {
      RunFails(minRes, calls[..|calls| - 1]);
      StepFails(Run(minRes, calls[..|calls| - 1]).account, minRes, calls[|calls| - 1]);
    }
  }

  lemma NothingFailed()
    ensures NoMoveFailed([])
  {
  }

  /** Over every run: the motor stands where the plugin thinks (tilt negated) exactly when the failed moves cancel
      out, since the plugin never looks at the result of a move; and so it does whenever moves succeed. */
  lemma DeadReckoning(minRes: nat, calls: seq<Call>)
    ensures var x := Run(minRes, calls).account;
            && InRange(x.at)
            && (Motor(x.log) == Position(x.at.pan, -x.at.tilt) <==> Missed(x.log) == ORIGIN)
            && ((forall k | 0 <= k < |calls| :: calls[k].moveOk) ==> Motor(x.log) == Position(x.at.pan, -x.at.tilt))
  {
    hide Run, Motor, Missed, HasReset;
    RunInv(minRes, calls);
    if forall k | 0 <= k < |calls| :: calls[k].moveOk {
      RunFails(minRes, calls);
      NothingMissed(Run(minRes, calls).account.log);
    }
  }

  // ----- results -----

  /** -1 is the error code of an unknown command and of a refused reset, and it is also the result of every moving
      command that leaves its axis between one and two degrees below zero. */
  lemma MinusOneMeans(x: Account, minRes: nat, call: Call)
    ensures Step(x, minRes, call).res == -1 <==>
            || call.cmd == Unknown
            || (!call.resetOk && (Resetting(call.cmd) || (Moves(call.cmd) && !x.valid)))
            || (&& Moves(call.cmd) && (x.valid || call.resetOk)
                && -2 * ONE_DEGREE < Axis(call.cmd, Step(x, minRes, call).account.at) <= -ONE_DEGREE)
  {
    hide Asked, MoveRequest, ResetRequest;
  }

  /** ... which the first command a plugin gets can be. */
  lemma MinusOneDegree(minRes: nat)
    ensures var h := Run(minRes, [Call(PanSet, -1, true, true)]);
            h.results == [-1] && h.account.valid && h.account.at == Position(-64, 0)
  {
    hide ResetRequest, MoveRequest;
    assert [Call(PanSet, -1, true, true)][..0] == [];
  }

  /** The stepping commands, with a device that obeys: each moves the motor by `minRes` on its own axis and in its own
      direction (tilt is sent negated) when that stays within 70 or 30 degrees of 64 units, and otherwise sends
      nothing; the other axis stays. */
  lemma StepsMove(x: Account, minRes: nat, call: Call)
    requires Inv(x) && x.valid && call.moveOk
    ensures var y := Step(x, minRes, call).account; var m, n := Motor(x.log), Motor(y.log);
            && (call.cmd == PanPlus ==>
                  if x.at.pan + minRes <= 70 * 64
                  then y.at == Position(x.at.pan + minRes, x.at.tilt) && n == Position(m.pan + minRes, m.tilt)
                  else y == x)
            && (call.cmd == PanMinus ==>
                  if x.at.pan - minRes >= -70 * 64
                  then y.at == Position(x.at.pan - minRes, x.at.tilt) && n == Position(m.pan - minRes, m.tilt)
                  else y == x)
            && (call.cmd == TiltPlus ==>
                  if x.at.tilt + minRes <= 30 * 64
                  then y.at == Position(x.at.pan, x.at.tilt + minRes) && n == Position(m.pan, m.tilt - minRes)
                  else y == x)
            && (call.cmd == TiltMinus ==>
                  if x.at.tilt - minRes >= -30 * 64
                  then y.at == Position(x.at.pan, x.at.tilt - minRes) && n == Position(m.pan, m.tilt + minRes)
                  else y == x)
  {
    hide Motor, Missed, HasReset, Degrees, MoveRequest, ObeyAll, Resets;
    match Asked(call.cmd, call.value, minRes, x.at)
    case None =>
    case Some(to) =>
      if Moves(call.cmd) {
        MovesMotor(x, to);
      }
  }

  lemma MovesMotor(x: Account, to: Position)
    ensures var r := MoveRequest(to.pan - x.at.pan, to.tilt - x.at.tilt, true); var m := Motor(x.log);
            Motor(x.log + [r]) == Position(m.pan + (to.pan - x.at.pan), m.tilt - (to.tilt - x.at.tilt))
  {
    hide Motor, Missed, HasReset, ObeyAll, Resets;
    var r := MoveRequest(to.pan - x.at.pan, to.tilt - x.at.tilt, true);
    LogNext(x.log, r);
    RequestMeans(Motor(x.log), to.pan - x.at.pan, to.tilt - x.at.tilt, true);
  }

  /** While the position is not valid, a moving command does a reset first and then what it does from the origin. */
  lemma FirstResets(x: Account, minRes: nat, call: Call)
    requires !x.valid && Moves(call.cmd) && call.resetOk
    ensures var z := Step(x, minRes, call.(cmd := ResetPanTilt)).account;
            && z.valid && z.at == Position(0, 0) && Motor(z.log) == Position(0, 0)
            && Step(x, minRes, call) == Step(z, minRes, call)
  {
    hide Motor, Missed, HasReset, Degrees, MoveRequest, ResetRequest, ObeyAll, Resets, MoveStep;
    LogNext(x.log, ResetRequest(true));
    RequestMeans(Motor(x.log), 0, 0, true);
    ResetRequestOk(true);
  }

  /** r is v in whole degrees of 64 units, rounded toward zero. */
  predicate WholeDegrees(r: int, v: int)
  {
    if v >= 0 then 64 * r <= v < 64 * r + 64 else 64 * r - 64 < v <= 64 * r
  }

  /** Every moving command reports where it leaves its axis, in whole degrees. */
  lemma ReportsDegrees(x: Account, minRes: nat, call: Call)
    requires x.valid || call.resetOk
    ensures call.cmd in {PanSet, PanPlus, PanMinus} ==>
              WholeDegrees(Step(x, minRes, call).res, Step(x, minRes, call).account.at.pan)
    ensures call.cmd in {TiltSet, TiltPlus, TiltMinus} ==>
              WholeDegrees(Step(x, minRes, call).res, Step(x, minRes, call).account.at.tilt)
  {
    hide Asked, MoveRequest, ResetRequest;
  }

  function Distance(a: int, b: int): nat
  {
    if a < b then b - a else a - b
  }

  ghost predicate Nearest(p: int, v: int, low: int, high: int)
  {
    low <= p <= high && forall q | low <= q <= high :: Distance(v, p) <= Distance(v, q)
  }

  /** Setting an axis reaches the point of its range nearest to what is asked for, leaves the other axis alone, and
      setting it again sends nothing more. */
  lemma SetReachesNearest(x: Account, minRes: nat, call: Call)
    requires Inv(x) && (call.cmd == PanSet || call.cmd == TiltSet) && (x.valid || call.resetOk)
    ensures var y := Step(x, minRes, call).account;
            && Step(y, minRes, call).account == y
            && if call.cmd == PanSet
               then Nearest(y.at.pan, 64 * call.value, -70 * 64, 70 * 64) && y.at.tilt == x.at.tilt
               else Nearest(y.at.tilt, 64 * call.value, -30 * 64, 30 * 64) && y.at.pan == x.at.pan
  {
    hide Motor, Missed, HasReset, ResetRequest, MoveRequest;
  }

  // ----- the program -----

  class Controller {
    const minRes: nat
    var pan: int
    var tilt: int
    var panTiltValid: int
    var locked: bool
    ghost var log: seq<Request>

    ghost function Now(): Account
      reads this
    {
      Account(Position(pan, tilt), panTiltValid == 1, log)
    }

    constructor (minRes: nat)
      ensures Now() == FRESH && !locked && this.minRes == minRes
    {
      this.minRes := minRes;
      pan, tilt, panTiltValid, locked := 0, 0, -1, false;
      log := [];
    }

    /** uvcPanTilt fills the control structs and counts them; `ok` is the device's answer. */
    method UvcPanTilt(p: int, t: int, reset: int, ok: bool) returns (rc: int)
      modifies `log
      ensures log == old(log) + [if reset != 0 then ResetRequest(ok) else MoveRequest(p, t, ok)]
      ensures rc == if ok then 0 else -1
    {
      var xctrls := new Control[2](_ => Control(0, 0));
      var count;
      if reset != 0 {
        xctrls[0] := Control(PANTILT_RESET, 3);
        count := 1;
      } else {
        xctrls[0] := Control(PAN_RELATIVE, p);
        xctrls[1] := Control(TILT_RELATIVE, -t);
        count := 2;
      }
      assert xctrls[..count] ==
             if reset != 0 then ResetRequest(ok).controls else MoveRequest(p, t, ok).controls;
      log := log + [Request(xctrls[..count], ok)];
      rc := if ok then 0 else -1;
    }

    /** The two reset commands, whose branch every other command takes first while the position is not
        valid. */
    method ResetBranch(resetOk: bool) returns (res: int)
      modifies `pan, `tilt, `panTiltValid, `log
      ensures Outcome(Now(), res) == ResetStep(old(Now()), resetOk)
    {
      hide ResetRequest;
      res := 0;
      var rc := UvcPanTilt(0, 0, 3, resetOk);
      if rc != 0 {
        res := -1;
        return;
      }
      panTiltValid := 1;
      pan, tilt := 0, 0;
    }

    /** The part of a moving command after the position has become valid. */
    method MoveBranch(call: Call) returns (res: int)
      requires Moves(call.cmd) && panTiltValid == 1
      modifies `pan, `tilt, `log
      ensures Outcome(Now(), res) == MoveStep(old(Now()), minRes, call)
    {
      hide Degrees, MoveRequest;
      match call.cmd {
        case PanSet =>
          var v := Limit(call.value * ONE_DEGREE, MIN_PAN, MAX_PAN);
          res := v - pan;
          if res == 0 {
            res := Degrees(pan);
            return;
          }
          pan := v;
          var rc := UvcPanTilt(res, 0, 0, call.moveOk);
          res := Degrees(pan);
        case PanPlus =>
          if MAX_PAN >= pan + minRes {
            pan := pan + minRes;
            var rc := UvcPanTilt(minRes, 0, 0, call.moveOk);
          }
          res := Degrees(pan);
        case PanMinus =>
          if MIN_PAN <= pan - minRes {
            pan := pan - minRes;
            var rc := UvcPanTilt(0 - minRes, 0, 0, call.moveOk);
          }
          res := Degrees(pan);
        case TiltSet =>
          var v := Limit(call.value * ONE_DEGREE, MIN_TILT, MAX_TILT);
          res := v - tilt;
          if res == 0 {
            res := Degrees(tilt);
            return;
          }
          tilt := v;
          var rc := UvcPanTilt(0, res, 0, call.moveOk);
          res := Degrees(tilt);
        case TiltPlus =>
          if MAX_TILT >= tilt + minRes {
            tilt := tilt + minRes;
            var rc := UvcPanTilt(0, minRes, 0, call.moveOk);
          }
          res := Degrees(tilt);
        case TiltMinus =>
          if MIN_TILT <= tilt - minRes {
            tilt := tilt - minRes;
            var rc := UvcPanTilt(0, 0 - minRes, 0, call.moveOk);
          }
          res := Degrees(tilt);
      }
    }

    /** input_cmd.  Only the inner reset may be called with the mutex held, and every call leaves the mutex
        as it found it. */
    method InputCmd(call: Call) returns (res: int)
      requires call.cmd != ResetPanTiltNoMutex ==> !locked
      modifies this
      ensures Outcome(Now(), res) == Step(old(Now()), minRes, call) && locked == old(locked)
      decreases call.cmd != ResetPanTiltNoMutex
    {
      hide ResetStep, MoveStep;
      res := 0;
      if call.cmd != ResetPanTiltNoMutex {
        locked := true;
      }
      if call.cmd == Hello {
      } else if call.cmd == ResetPanTilt || call.cmd == ResetPanTiltNoMutex {
        res := ResetBranch(call.resetOk);
      } else if call.cmd == Unknown {
        res := -1;
      } else {
        var ready := true;
        if panTiltValid != 1 {
          ResetResult(Now(), call.resetOk);
          var rc := InputCmd(call.(cmd := ResetPanTiltNoMutex));
          if rc == -1 {
            res := -1;
            ready := false;
          }
        }
        if ready {
          res := MoveBranch(call);
        }
      }
      if call.cmd != ResetPanTiltNoMutex {
        locked := false;
      }
    }
  }

  lemma ResetResult(x: Account, ok: bool)
    ensures var o := ResetStep(x, ok);
            o.res == (if ok then 0 else -1) && (o.account.valid <==> ok || x.valid)
  {
  }

  /** Any run of commands on a fresh plugin. */
  method Serve(minRes: nat, calls: seq<Call>) returns (c: Controller, results: seq<int>)
    ensures History(c.Now(), results) == Run(minRes, calls) && !c.locked
  {
    hide Step;
    c := new Controller(minRes);
    results := [];
    var i := 0;
    while i < |calls|
      invariant i <= |calls| && !c.locked && fresh(c) && c.minRes == minRes
      invariant History(c.Now(), results) == Run(minRes, calls[..i])
    {
      assert calls[..i + 1][..i] == calls[..i];
      var res := c.InputCmd(calls[i]);
      results := results + [res];
      i := i + 1;
    }
    assert calls[..i] == calls;
  }
}
