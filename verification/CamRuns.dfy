/** What whole runs of the camera task deliver: which captures reach the queue, which are lost and why, and what one
    event does from the moment it is received until the task waits again. */
module CamRuns {
  import opened Basics
  import opened CamHal

  /** Capture `n` is delivered, being checked in `cam_take` or queued. */
  ghost predicate InLine(c: Config, s: State, n: nat)
    requires InBounds(c, s)
  {
    n in s.delivered || n in Checked(s) || n in Stamps(s.stamp, s.queue)
  }

  /** `cam_take` is checking capture `n`. */
  predicate Checks(s: State, n: nat) {
    s.checking.Some? && s.checking.value < |s.stamp| && s.stamp[s.checking.value] == n
  }

  /** Between states `i` and `k` the application found no end marker in capture `n`. */
  ghost predicate NoEndMarker(run: seq<State>, acts: seq<Action>, n: nat, i: nat, k: nat)
    requires k <= |acts| < |run|
  {
    exists j :: i <= j < k && acts[j].TakeNoEoi? && Checks(run[j], n)
  }

  /** Between states `i` and `k` the task could not send, and then found the queue empty. */
  ghost predicate EmptyPop(run: seq<State>, acts: seq<Action>, i: nat, k: nat)
    requires k <= |acts| < |run|
  {
    exists j :: i <= j < k && acts[j].Task? && run[j].pc.Pop? && run[j].queue == []
  }

  // ------------------------------------------------------------ single steps

  lemma StampAmong(c: Config, s: State, n: nat)
    requires InBounds(c, s)
    ensures n in Stamps(s.stamp, s.queue) <==> exists i :: 0 <= i < |s.queue| && s.stamp[s.queue[i]] == n
  {
    var line := Stamps(s.stamp, s.queue);
    if n in line {
      var i :| 0 <= i < |line| && line[i] == n;
      assert s.stamp[s.queue[i]] == n;
    }
    if i :| 0 <= i < |s.queue| && s.stamp[s.queue[i]] == n {
      assert line[i] == n;
    }
  }

  /** What the application and the interrupt leave alone. */
  lemma AppLeavesTask(c: Config, s: State, a: Action)
    requires InBounds(c, s) && Enabled(c, s, a) && !a.Task?
    ensures var t := Apply(c, s, a);
      && t.pc == s.pc && t.framePos == s.framePos && t.cnt == s.cnt && t.captured == s.captured && t.stamp == s.stamp
      && |t.len| == |s.len| && (s.framePos !in App(s) ==> t.len[s.framePos] == s.len[s.framePos])
      && t.camState == (if a.Overflow? then Idle else s.camState)
  {
    hide TaskStep;
  }

  /** The application takes captures in their order and loses one only for want of an end marker. */
  lemma AppKeepsLine(c: Config, s: State, a: Action, n: nat)
    requires InBounds(c, s) && Enabled(c, s, a) && !a.Task? && InLine(c, s, n) && InBounds(c, Apply(c, s, a))
    ensures InLine(c, Apply(c, s, a), n) || (a.TakeNoEoi? && Checks(s, n))
  {
    hide TaskStep, Stamps;
    if a.TakePop? {
      StampsPop(s.stamp, s.queue);
    }
  }

  lemma QuietKeepsLine(c: Config, s: State, t: State, n: nat)
    requires InBounds(c, s) && InBounds(c, t) && SameFrames(s, t)
    ensures InLine(c, t, n) <==> InLine(c, s, n)
  {
    hide Stamps;
  }

  /** The task takes a capture out of the line only by popping the oldest one. */
  lemma TaskKeepsLine(c: Config, s: State, ch: Choice, n: nat)
    requires Inv(c, s) && InBounds(c, TaskStep(c, s, ch)) && InLine(c, s, n)
    ensures InLine(c, TaskStep(c, s, ch), n) || (s.pc.Pop? && |s.queue| > 0 && s.stamp[s.queue[0]] == n)
  {
    hide Stamps, BufferStep, StartStep, SendStep, Filling, Owned, LengthsFit, InOrder, Conserved, Scanning, QueueFits;
    if Sends(s.pc) {
      SendKeepsLine(c, s, ch, n);
    } else {
      QuietStep(c, s, ch);
      QuietKeepsLine(c, s, TaskStep(c, s, ch), n);
    }
  }

  lemma SendKeepsLine(c: Config, s: State, ch: Choice, n: nat)
    requires InBounds(c, s) && Owned(c, s) && Filling(c, s) && Sends(s.pc)
    requires InBounds(c, SendStep(c, s, ch)) && InLine(c, s, n)
    ensures InLine(c, SendStep(c, s, ch), n) || (s.pc.Pop? && |s.queue| > 0 && s.stamp[s.queue[0]] == n)
  {
    hide Stamps, Owned, Filling;
    var f := s.framePos;
    match s.pc
    case ClearEn =>
      FrameIsFree(c, s);
      StampsKept(s.stamp, s.queue, f, s.captured);
    case Send => StampsPush(s.stamp, s.queue, f);
    case Pop =>
      if |s.queue| > 0 {
        StampsPop(s.stamp, s.queue);
      }
    case Resend(_) => StampsPush(s.stamp, s.queue, f);
    case _ =>
  }

  // ------------------------------------------------------------ one capture on its way into the queue

  /** A frame worth sending: raw frames outside PSRAM mode must have the full size. */
  predicate Complete(c: Config, s: State)
    requires InBounds(c, s)
  {
    c.psram || c.jpeg || s.len[s.framePos] == c.fbSize
  }

  /** The task is handing over capture `n`, which is good. */
  predicate Carries(c: Config, s: State, n: nat)
    requires InBounds(c, s)
  {
    MovesFrame(s.pc) && s.stamp[s.framePos] == n && (s.pc.SetLen? ==> Complete(c, s))
  }

  /** The capture on its way is not in the line yet. */
  lemma CarriedIsNew(c: Config, s: State)
    requires Inv(c, s) && MovesFrame(s.pc)
    ensures !InLine(c, s, s.stamp[s.framePos]) && !Checks(s, s.stamp[s.framePos])
  {
    hide Owned, Filling, LengthsFit, Conserved, Scanning, QueueFits, Stamps;
    var n := s.stamp[s.framePos];
    LastIsNew(s.delivered + Checked(s) + Stamps(s.stamp, s.queue), n, s.captured);
  }

  lemma LastIsNew(line: seq<nat>, n: nat, bound: nat)
    requires Rising(line + [n], bound)
    ensures n !in line
  {
    var longer := line + [n];
    forall i | 0 <= i < |line| ensures line[i] != n {
      assert longer[i] == line[i] && longer[|line|] == n;
    }
  }

  lemma MovingIsPrivate(c: Config, s: State)
    requires InBounds(c, s) && Owned(c, s) && MovesFrame(s.pc)
    ensures s.framePos !in App(s)
  {
  }

  /** The next step of the task with a good capture. */
  lemma CarryStep(c: Config, s: State, ch: Choice, n: nat)
    requires Inv(c, s) && Carries(c, s, n) && InBounds(c, TaskStep(c, s, ch))
    ensures var t := TaskStep(c, s, ch);
      || Carries(c, t, n)
      || (InLine(c, t, n) && (t.pc.ScanStart? || t.pc.GiveBack?) && !(s.pc.Pop? && s.queue == []))
      || (s.pc.Pop? && s.queue == [] && t.pc.ScanStart?)
    ensures s.pc.Pop? && s.queue == [] ==> TaskStep(c, s, ch).pc.ScanStart? && !InLine(c, TaskStep(c, s, ch), n)
  {
    hide Stamps, Owned, Filling, LengthsFit, InOrder, Conserved, Scanning;
    CarriedIsNew(c, s);
    match s.pc
    case Send => StampsPush(s.stamp, s.queue, s.framePos);
    case Resend(_) => StampsPush(s.stamp, s.queue, s.framePos);
    case _ =>
  }

  lemma GiveBackStep(c: Config, s: State, ch: Choice, n: nat)
    requires InBounds(c, s) && s.pc.GiveBack? && InBounds(c, TaskStep(c, s, ch))
    ensures TaskStep(c, s, ch).pc.ScanStart? && (InLine(c, TaskStep(c, s, ch), n) <==> InLine(c, s, n))
  {
    hide Stamps;
  }

  lemma OneMore(run: seq<State>, acts: seq<Action>, n: nat, i: nat, k: nat)
    requires i <= k < |acts| < |run|
    ensures NoEndMarker(run, acts, n, i, k + 1)
       <==> NoEndMarker(run, acts, n, i, k) || (acts[k].TakeNoEoi? && Checks(run[k], n))
    ensures EmptyPop(run, acts, i, k + 1)
       <==> EmptyPop(run, acts, i, k) || (acts[k].Task? && run[k].pc.Pop? && run[k].queue == [])
  {
    hide Checks;
    if acts[k].TakeNoEoi? && Checks(run[k], n) {
      assert NoEndMarker(run, acts, n, i, k + 1);
    }
    if acts[k].Task? && run[k].pc.Pop? && run[k].queue == [] {
      assert EmptyPop(run, acts, i, k + 1);
    }
    if NoEndMarker(run, acts, n, i, k + 1) {
      var j :| i <= j < k + 1 && acts[j].TakeNoEoi? && Checks(run[j], n);
    }
    if EmptyPop(run, acts, i, k + 1) {
      var j :| i <= j < k + 1 && acts[j].Task? && run[j].pc.Pop? && run[j].queue == [];
    }
  }

  /** How far the hand-over of a good capture, begun in state `i`, has come in state `k`. */
  ghost predicate HandingOver(c: Config, run: seq<State>, acts: seq<Action>, i: nat, k: nat, n: nat)
    requires k <= |acts| < |run| && InBounds(c, run[k])
  {
    || (Carries(c, run[k], n) && !NoEndMarker(run, acts, n, i, k) && !EmptyPop(run, acts, i, k))
    || ((run[k].pc.GiveBack? || run[k].pc.ScanStart?) && !EmptyPop(run, acts, i, k)
        && (InLine(c, run[k], n) || NoEndMarker(run, acts, n, i, k)))
    || (run[k].pc.ScanStart? && EmptyPop(run, acts, i, k)
        && !InLine(c, run[k], n) && !NoEndMarker(run, acts, n, i, k))
  }

  lemma HandOverStep(c: Config, run: seq<State>, acts: seq<Action>, i: nat, k: nat, n: nat)
    requires IsRun(c, run, acts) && i <= k < |acts| && Inv(c, run[k]) && Inv(c, run[k + 1])
    requires HandingOver(c, run, acts, i, k, n) && !run[k].pc.ScanStart?
    ensures HandingOver(c, run, acts, i, k + 1, n)
  {
    hide Carries, Checks, InLine, NoEndMarker, EmptyPop, TaskStep, Owned, Filling, LengthsFit, InOrder, Conserved,
      Scanning,
      QueueFits, Enabled;
    var s, a := run[k], acts[k];
    assert run[k + 1] == Apply(c, s, a);
    OneMore(run, acts, n, i, k);
    if Carries(c, s, n) {
      CarriedChecks(c, s, n);
      if a.Task? {
        CarryStep(c, s, a.choice, n);
      } else {
        CarryWaits(c, s, a, n);
      }
    } else if a.Task? {
      GiveBackStep(c, s, a.choice, n);
    } else {
      AppLeavesTask(c, s, a);
      if InLine(c, s, n) {
        AppKeepsLine(c, s, a, n);
      }
    }
  }

  lemma CarriedChecks(c: Config, s: State, n: nat)
    requires Inv(c, s) && Carries(c, s, n)
    ensures !Checks(s, n) && MovesFrame(s.pc)
  {
    hide Inv;
    CarriedIsNew(c, s);
  }

  lemma CarryWaits(c: Config, s: State, a: Action, n: nat)
    requires Inv(c, s) && Enabled(c, s, a) && !a.Task? && InBounds(c, Apply(c, s, a)) && Carries(c, s, n)
    ensures Carries(c, Apply(c, s, a), n)
  {
    hide Owned, Filling, LengthsFit, InOrder, Conserved, Scanning, QueueFits, Enabled, Apply;
    AppLeavesTask(c, s, a);
    MovingIsPrivate(c, s);
  }

  /** Nothing has happened yet. */
  lemma NothingYet(run: seq<State>, acts: seq<Action>, n: nat, i: nat)
    requires i <= |acts| < |run|
    ensures !NoEndMarker(run, acts, n, i, i) && !EmptyPop(run, acts, i, i)
  {
  }

  lemma {:induction false} HandOverRuns(c: Config, run: seq<State>, acts: seq<Action>, i: nat, k: nat, n: nat)
    requires IsRun(c, run, acts) && i <= k <= |acts| && InBounds(c, run[i]) && Carries(c, run[i], n)
    requires forall j :: i < j < k ==> !run[j].pc.ScanStart?
    ensures Inv(c, run[k]) && HandingOver(c, run, acts, i, k, n)
    decreases k
  {
    hide Inv, Carries, HandingOver, Apply, Enabled;
    AlwaysInv(c, run, acts, k);
    if i == k {
      NothingYet(run, acts, n, i);
      BeginsHandOver(c, run, acts, i, n);
    } else {
      HandOverRuns(c, run, acts, i, k - 1, n);
      if i == k - 1 {
        CarriesNotScanning(c, run[i], n);
      }
      HandOverStep(c, run, acts, i, k - 1, n);
    }
  }

  lemma BeginsHandOver(c: Config, run: seq<State>, acts: seq<Action>, i: nat, n: nat)
    requires i <= |acts| < |run| && InBounds(c, run[i]) && Carries(c, run[i], n)
    ensures HandingOver(c, run, acts, i, i, n)
  {
  }

  lemma CarriesNotScanning(c: Config, s: State, n: nat)
    requires InBounds(c, s) && Carries(c, s, n)
    ensures !s.pc.ScanStart?
  {
  }

  /** A good capture that the task begins to hand over in state `i` is in the line when the task looks for its next
      frame, or `cam_take` has found no end marker in it already; the only exception is that the queue was full when
      the task tried to send, and empty when it tried to make room. */
  lemma CompleteIsKept(c: Config, run: seq<State>, acts: seq<Action>, i: nat, k: nat)
    requires IsRun(c, run, acts) && i < k < |run| && run[i].pc.SetLen? && run[k].pc.ScanStart?
    requires forall j :: i < j < k ==> !run[j].pc.ScanStart?
    requires InBounds(c, run[i]) && Complete(c, run[i])
    ensures InBounds(c, run[k])
    ensures var n := run[i].stamp[run[i].framePos];
      InLine(c, run[k], n) || NoEndMarker(run, acts, n, i, k) <==> !EmptyPop(run, acts, i, k)
  {
    hide Complete, InLine, NoEndMarker, EmptyPop, Apply, Enabled, Owned, Filling, LengthsFit, InOrder, Conserved,
      Scanning, QueueFits;
    HandOverRuns(c, run, acts, i, k, run[i].stamp[run[i].framePos]);
  }

  /** What the task knows when it is about to pop: its last step was a send into a full queue. */
  lemma {:induction false} PopFollowsFullSend(c: Config, run: seq<State>, acts: seq<Action>, k: nat) returns (e: nat)
    requires IsRun(c, run, acts) && k < |run| && run[k].pc.Pop?
    ensures e < k && acts[e].Task? && run[e].pc.Send? && |run[e].queue| >= QueueLen(c)
    ensures forall j :: e < j <= k ==> run[j].pc.Pop?
  {
    hide Inv, BufferStep, StartStep, InBounds;
    if run[k - 1].pc.Pop? {
      e := PopFollowsFullSend(c, run, acts, k - 1);
    } else {
      e := k - 1;
      BecomesPop(c, run[e], acts[e]);
    }
  }

  lemma BecomesPop(c: Config, s: State, a: Action)
    requires InBounds(c, s) && Enabled(c, s, a) && Apply(c, s, a).pc.Pop? && !s.pc.Pop?
    ensures a.Task? && s.pc.Send? && |s.queue| >= QueueLen(c)
  {
    hide App, EnabledFrames;
  }

  /** With a queue for every frame no capture is ever lost between the task and `cam_take`. */
  lemma NoEmptyPop(c: Config, run: seq<State>, acts: seq<Action>, i: nat, k: nat)
    requires IsRun(c, run, acts) && k < |run| && !(c.latest && c.frameCnt > 1)
    ensures !EmptyPop(run, acts, i, k)
  {
    hide Inv, Apply, Enabled;
    if EmptyPop(run, acts, i, k) {
      var j :| i <= j < k && acts[j].Task? && run[j].pc.Pop? && run[j].queue == [];
      var e := PopFollowsFullSend(c, run, acts, j);
      SendsSucceed(c, run, acts, e);
    }
  }

  /** A capture leaves the line in three ways only: delivered captures never do; one without an end marker is given
      back by `cam_take`; and the oldest one queued is given up by the task when the queue was full. */
  lemma LeavesLine(c: Config, run: seq<State>, acts: seq<Action>, j: nat, n: nat)
    requires IsRun(c, run, acts) && j < |acts| && InBounds(c, run[j]) && InBounds(c, run[j + 1])
    requires InLine(c, run[j], n) && !InLine(c, run[j + 1], n)
    ensures n !in run[j].delivered
    ensures (acts[j].TakeNoEoi? && Checks(run[j], n)) || GivesUpOldest(c, run, acts, j, n)
  {
    hide InLine, Owned, Filling, LengthsFit, InOrder, Conserved, Scanning, QueueFits, TaskStep, Stamps;
    var s, a := run[j], acts[j];
    AlwaysInv(c, run, acts, j);
    assert run[j + 1] == Apply(c, s, a);
    if n in s.delivered {
      DeliveredStays(c, s, a, n);
    }
    if a.Task? {
      TaskKeepsLine(c, s, a.choice, n);
      var e := PopFollowsFullSend(c, run, acts, j);
      OldestFirst(c, s);
    } else {
      AppKeepsLine(c, s, a, n);
    }
  }

  /** The task pops capture `n`, the oldest one queued, after it could not send because the queue was full. */
  ghost predicate GivesUpOldest(c: Config, run: seq<State>, acts: seq<Action>, j: nat, n: nat)
    requires j < |acts| < |run| && InBounds(c, run[j])
  {
    var s := run[j];
    && acts[j].Task? && s.pc.Pop? && |s.queue| > 0 && s.stamp[s.queue[0]] == n
    && (forall i :: 0 < i < |s.queue| ==> n < s.stamp[s.queue[i]])
    && exists e :: 0 <= e < j && acts[e].Task? && run[e].pc.Send? && |run[e].queue| >= QueueLen(c)
        && forall x :: e < x <= j ==> run[x].pc.Pop?
  }

  lemma DeliveredStays(c: Config, s: State, a: Action, n: nat)
    requires InBounds(c, s) && Enabled(c, s, a) && InBounds(c, Apply(c, s, a)) && n in s.delivered
    ensures InLine(c, Apply(c, s, a), n)
  {
    hide BufferStep, StartStep, SendStep, Stamps;
    if a.Task? {
      if Sends(s.pc) {
        SendLeavesDelivered(c, s, a.choice);
      } else {
        QuietStep(c, s, a.choice);
      }
    }
  }

  lemma SendLeavesDelivered(c: Config, s: State, ch: Choice)
    requires InBounds(c, s) && Sends(s.pc)
    ensures SendStep(c, s, ch).delivered == s.delivered
  {
  }

  lemma OldestFirst(c: Config, s: State)
    requires Inv(c, s)
    ensures forall i :: 0 < i < |s.queue| ==> s.stamp[s.queue[0]] < s.stamp[s.queue[i]]
  {
    hide Owned, Filling, LengthsFit, Conserved, Scanning, QueueFits;
    var front, q := s.delivered + Checked(s), Stamps(s.stamp, s.queue);
    var line := front + q + Moving(s);
    forall i | 0 < i < |s.queue| ensures s.stamp[s.queue[0]] < s.stamp[s.queue[i]] {
      assert line[|front|] == q[0] && line[|front| + i] == q[i];
    }
  }

  // ------------------------------------------------------------ raw frames of the wrong size

  /** A raw frame of another size is not handed over: it is free again when the task looks for its next frame. */
  lemma WrongSizeIsDropped(c: Config, run: seq<State>, acts: seq<Action>, i: nat, k: nat)
    requires IsRun(c, run, acts) && i < k < |run| && run[i].pc.SetLen? && run[k].pc.ScanStart?
    requires forall j :: i < j < k ==> !run[j].pc.ScanStart?
    requires InBounds(c, run[i]) && !Complete(c, run[i])
    ensures InBounds(c, run[k]) && !InLine(c, run[k], run[i].stamp[run[i].framePos]) && run[k].en[run[i].framePos]
  {
    hide Inv, Complete, InLine, Apply, Enabled;
    var n, f := run[i].stamp[run[i].framePos], run[i].framePos;
    AlwaysInv(c, run, acts, i);
    CarriedWhat(c, run[i]);
    var j := i;
    while j < k
      invariant i <= j <= k && Inv(c, run[j]) && InBounds(c, run[j])
      invariant j < k ==> run[j].pc.SetLen? && run[j].framePos == f && run[j].stamp[f] == n && !Complete(c, run[j])
      invariant j == k ==> !InLine(c, run[k], n) && f < |run[k].en| && run[k].en[f]
    {
      AlwaysInv(c, run, acts, j + 1);
      WrongSizeStep(c, run[j], acts[j]);
      j := j + 1;
    }
  }

  lemma CarriedWhat(c: Config, s: State)
    requires Inv(c, s)
    ensures InBounds(c, s)
  {
  }

  lemma WrongSizeStep(c: Config, s: State, a: Action)
    requires Inv(c, s) && Enabled(c, s, a) && Inv(c, Apply(c, s, a)) && s.pc.SetLen? && !Complete(c, s)
    ensures var t, n := Apply(c, s, a), s.stamp[s.framePos];
      && InBounds(c, t) && t.framePos == s.framePos
      && (if a.Task? then t.pc.ScanStart? && !InLine(c, t, n) && t.en[s.framePos]
          else t.pc.SetLen? && t.stamp[s.framePos] == n && !Complete(c, t))
  {
    hide Stamps, Owned, Filling, LengthsFit, InOrder, Conserved, Scanning, QueueFits, Apply, Enabled;
    var n := s.stamp[s.framePos];
    CarriedIsNew(c, s);
    if a.Task? {
      assert Apply(c, s, a) == TaskStep(c, s, a.choice) by { TaskIs(c, s, a); }
    } else {
      MovingIsPrivate(c, s);
      AppLeavesTask(c, s, a);
    }
  }

  lemma TaskIs(c: Config, s: State, a: Action)
    requires InBounds(c, s) && Enabled(c, s, a) && a.Task?
    ensures Apply(c, s, a) == TaskStep(c, s, a.choice)
  {
  }

  // ------------------------------------------------------------ one event, from start to end

  /** The task part of a state: the position, the counter, the number of captures, and the length of the frame. */
  datatype View = View(pc: Pc, framePos: nat, cnt: nat, captured: nat, len: nat)

  function ViewOf(c: Config, s: State): View
    requires InBounds(c, s)
  {
    View(s.pc, s.framePos, s.cnt, s.captured, s.len[s.framePos])
  }

  /** While a frame is being filled the others do not touch what the task works on. */
  lemma OthersKeepView(c: Config, s: State, a: Action)
    requires Inv(c, s) && Enabled(c, s, a) && !a.Task? && InBounds(c, Apply(c, s, a)) && s.en[s.framePos]
    ensures var t := Apply(c, s, a);
      ViewOf(c, t) == ViewOf(c, s) && t.camState == if a.Overflow? then Idle else s.camState
  {
    hide LengthsFit, InOrder, Conserved, Scanning, QueueFits, Filling, Apply, Enabled;
    assert s.framePos !in App(s);
    AppLeavesTask(c, s, a);
  }

  /** What the task has reached after it began to handle a VSYNC event with a frame. */
  predicate AfterVsync(c: Config, v: View, w: View) {
    && w.framePos == v.framePos
    && (w.pc.VsyncCopy? || w.pc.ClearEn?) && (w.pc.VsyncCopy? ==> w.(pc := v.pc) == v)
    && (w.pc.ClearEn? ==> w.captured == v.captured && !(c.jpeg && !c.psram && v.cnt == 0))
    && (w.pc.ClearEn? && (!c.jpeg || c.psram) ==> w.len == v.len)
  }

  lemma VsyncStep(c: Config, s: State, ch: Choice, v: View)
    requires Inv(c, s) && AfterVsync(c, v, ViewOf(c, s)) && InBounds(c, TaskStep(c, s, ch))
    ensures var t := TaskStep(c, s, ch);
      || AfterVsync(c, v, ViewOf(c, t))
      || (t.pc.ScanStart? && c.jpeg && !c.psram && v.cnt == 0 && t.captured == v.captured)
      || (t.pc.SetLen? && !(c.jpeg && !c.psram && v.cnt == 0) && t.framePos == v.framePos
          && t.captured == v.captured + 1 && t.stamp[t.framePos] == v.captured
          && (!c.jpeg || c.psram ==> t.len[t.framePos] == v.len))
  {
    hide LengthsFit, InOrder, Conserved, Scanning, QueueFits, Owned, Filling;
  }

  lemma AfterVsyncEnabled(c: Config, s: State, v: View)
    requires Inv(c, s) && AfterVsync(c, v, ViewOf(c, s))
    ensures s.en[s.framePos] && !s.pc.SetLen? && !s.pc.ScanStart?
  {
    hide LengthsFit, InOrder, Conserved, Scanning, QueueFits, Owned;
  }

  /** A VSYNC event that finds a frame being filled starts a capture, unless no JPEG data has come yet. */
  lemma VsyncCaptures(c: Config, run: seq<State>, acts: seq<Action>, i: nat, k: nat) returns (m: nat)
    requires IsRun(c, run, acts) && i < k < |run| && acts[i].Task? && InBounds(c, run[i])
    requires run[i].pc == Dispatch(Vsync) && run[i].camState.ReadBuf? && run[k].pc.ScanStart?
    requires forall j :: i < j < k ==> !run[j].pc.ScanStart?
    ensures var s := run[i];
      if c.jpeg && !c.psram && s.cnt == 0 then m == k && run[k].captured == s.captured
      else
        && i < m < k && run[m].pc.SetLen? && InBounds(c, run[m]) && run[m].framePos == s.framePos
        && run[m].captured == s.captured + 1 && run[m].stamp[s.framePos] == s.captured
        && (!c.jpeg || c.psram ==> run[m].len[s.framePos] == s.len[s.framePos])
  {
    hide Inv, InBounds, Apply, Enabled, AfterVsync, TaskStep;
    var v := ViewOf(c, run[i]);
    AlwaysInv(c, run, acts, i);
    AlwaysInv(c, run, acts, i + 1);
    VsyncBegins(c, run[i], acts[i]);
    m := i + 1;
    while !run[m].pc.SetLen? && !run[m].pc.ScanStart?
      invariant i < m <= k && Inv(c, run[m]) && InBounds(c, run[m])
      invariant AfterVsync(c, v, ViewOf(c, run[m])) || VsyncDone(c, run[m], v)
      decreases k - m
    {
      NotDone(c, run[m], v);
      AfterVsyncEnabled(c, run[m], v);
      AlwaysInv(c, run, acts, m + 1);
      VsyncWaits(c, run[m], acts[m], v);
      m := m + 1;
    }
    if AfterVsync(c, v, ViewOf(c, run[m])) {
      AfterVsyncEnabled(c, run[m], v);
    }
  }

  /** The outcome of the first part of the VSYNC handler. */
  predicate VsyncDone(c: Config, t: State, v: View)
    requires InBounds(c, t)
  {
    || (t.pc.ScanStart? && c.jpeg && !c.psram && v.cnt == 0 && t.captured == v.captured)
    || (t.pc.SetLen? && !(c.jpeg && !c.psram && v.cnt == 0) && t.framePos == v.framePos
        && t.captured == v.captured + 1 && t.stamp[t.framePos] == v.captured
        && (!c.jpeg || c.psram ==> t.len[t.framePos] == v.len))
  }

  lemma NotDone(c: Config, s: State, v: View)
    requires InBounds(c, s) && !s.pc.SetLen? && !s.pc.ScanStart?
    ensures !VsyncDone(c, s, v)
  {
  }

  lemma VsyncBegins(c: Config, s: State, a: Action)
    requires InBounds(c, s) && Enabled(c, s, a) && a.Task? && Inv(c, s) && Inv(c, Apply(c, s, a))
    requires s.pc == Dispatch(Vsync) && s.camState.ReadBuf?
    ensures var t := Apply(c, s, a); InBounds(c, t) && AfterVsync(c, ViewOf(c, s), ViewOf(c, t))
  {
    hide LengthsFit, InOrder, Conserved, Scanning, QueueFits, Owned, Filling;
  }

  lemma VsyncWaits(c: Config, s: State, a: Action, v: View)
    requires Inv(c, s) && Enabled(c, s, a) && AfterVsync(c, v, ViewOf(c, s)) && Inv(c, Apply(c, s, a))
    ensures var t := Apply(c, s, a);
      InBounds(c, t) && (AfterVsync(c, v, ViewOf(c, t)) || VsyncDone(c, t, v))
  {
    hide AfterVsync, LengthsFit, InOrder, Conserved, Scanning, QueueFits, Owned, Filling, Apply, Enabled, TaskStep;
    if a.Task? {
      TaskIs(c, s, a);
      VsyncStep(c, s, a.choice, v);
    } else {
      AfterVsyncEnabled(c, s, v);
      OthersKeepView(c, s, a);
    }
  }

  /** A VSYNC event that finds a full frame (or, for JPEG and in PSRAM mode, any data): the new capture is in the line
      when the task looks for its next frame, with the two exceptions of `CompleteIsKept`; a raw frame of another size
      is not. */
  lemma VsyncHandsOver(c: Config, run: seq<State>, acts: seq<Action>, i: nat, k: nat) returns (m: nat)
    requires IsRun(c, run, acts) && i < k < |run| && acts[i].Task? && InBounds(c, run[i])
    requires run[i].pc == Dispatch(Vsync) && run[i].camState.ReadBuf? && run[k].pc.ScanStart?
    requires forall j :: i < j < k ==> !run[j].pc.ScanStart?
    requires c.jpeg && !c.psram ==> run[i].cnt > 0
    ensures InBounds(c, run[k])
    ensures i < m < k && run[m].pc.SetLen?
    ensures var n := run[i].captured;
      if c.psram || c.jpeg || run[i].len[run[i].framePos] == c.fbSize then
        InLine(c, run[k], n) || NoEndMarker(run, acts, n, m, k) <==> !EmptyPop(run, acts, m, k)
      else !InLine(c, run[k], n)
  {
    hide Inv, InBounds, Apply, Enabled, NoEndMarker, EmptyPop, InLine;
    AlwaysInv(c, run, acts, k);
    CarriedWhat(c, run[k]);
    m := VsyncCaptures(c, run, acts, i, k);
    if Complete(c, run[m]) {
      CompleteIsKept(c, run, acts, m, k);
    } else {
      WrongSizeIsDropped(c, run, acts, m, k);
    }
  }

  // ------------------------------------------------------------ how a frame is filled

  /** Where the task may be between the start of a frame and its hand-over. */
  predicate Loading(pc: Pc) {
    Fills(pc) || pc.SetReadBuf? || pc.ClearEn? || pc.SetLen?
  }

  /** What an action adds to the frame: the bytes copied for an event, if a whole transfer still fits. */
  function Gain(c: Config, s: State, a: Action): nat
    requires InBounds(c, s)
  {
    if a.Task? && (s.pc.EofCopy? || (s.pc.VsyncCopy? && c.jpeg && s.cnt > 0))
      && s.len[s.framePos] + c.pixelsPerDma <= c.fbSize
    then a.choice.copied else 0
  }

  ghost function Copied(c: Config, run: seq<State>, acts: seq<Action>, i: nat, k: nat): nat
    requires IsRun(c, run, acts) && k <= |acts|
  {
    if k <= i then 0 else Copied(c, run, acts, i, k - 1) + Gain(c, run[k - 1], acts[k - 1])
  }

  /** The number of EOF events handled to the end. */
  ghost function Counted(run: seq<State>, acts: seq<Action>, i: nat, k: nat): nat
    requires k <= |acts| < |run|
  {
    if k <= i then 0
    else Counted(run, acts, i, k - 1) + if acts[k - 1].Task? && run[k - 1].pc.EofCheck? then 1 else 0
  }

  /** The frame belongs to the task. */
  predicate HoldsFrame(c: Config, s: State)
    requires InBounds(c, s)
  {
    s.en[s.framePos] || s.pc.SetLen?
  }

  lemma LoadStep(c: Config, s: State, a: Action)
    requires Inv(c, s) && Enabled(c, s, a) && InBounds(c, Apply(c, s, a)) && !c.psram
    requires Loading(s.pc) && HoldsFrame(c, s) && Loading(Apply(c, s, a).pc)
    ensures var t := Apply(c, s, a);
      && t.framePos == s.framePos && HoldsFrame(c, t) && t.len[t.framePos] == s.len[s.framePos] + Gain(c, s, a)
      && (s.pc.SetReadBuf? && Fills(t.pc) ==> t.cnt == 0)
      && (Fills(s.pc) && Fills(t.pc) ==> t.cnt == s.cnt + if a.Task? && s.pc.EofCheck? then 1 else 0)
      && (Fills(t.pc) ==> s.pc.SetReadBuf? || Fills(s.pc))
  {
    hide LengthsFit, InOrder, Conserved, Scanning, QueueFits, Filling, App, Partition;
    if !a.Task? {
      assert s.framePos !in App(s) by { HeldNotTaken(c, s); }
      AppLeavesTask(c, s, a);
      if s.en[s.framePos] {
        EnabledStays(c, s, a);
      }
    }
  }

  lemma HeldNotTaken(c: Config, s: State)
    requires Inv(c, s) && HoldsFrame(c, s)
    ensures s.framePos !in App(s)
  {
    hide LengthsFit, InOrder, Conserved, Scanning, QueueFits, Filling;
  }

  lemma EnabledStays(c: Config, s: State, a: Action)
    requires InBounds(c, s) && Enabled(c, s, a) && !a.Task? && InBounds(c, Apply(c, s, a)) && s.en[s.framePos]
    ensures Apply(c, s, a).en[s.framePos]
  {
    hide TaskStep;
  }

  lemma StartsEmpty(c: Config, s: State, a: Action)
    requires Inv(c, s) && Enabled(c, s, a) && a.Task? && s.pc.Started? && InBounds(c, Apply(c, s, a))
    ensures var t := Apply(c, s, a);
      && t.framePos == s.framePos && t.en[t.framePos] && t.len[t.framePos] == 0
      && (t.pc.SetReadBuf? || (Fills(t.pc) && t.cnt == 0))
  {
    hide LengthsFit, InOrder, Conserved, Scanning, QueueFits, Owned;
  }

  /** From the start of a frame to its hand-over its length is the sum of what was copied, and the counter is the
      number of EOF events. */
  lemma {:induction false} LengthIsCopied(c: Config, run: seq<State>, acts: seq<Action>, i: nat, k: nat)
    requires IsRun(c, run, acts) && !c.psram && i < k < |run| && acts[i].Task? && run[i].pc.Started?
    requires forall j :: i < j <= k ==> Loading(run[j].pc)
    ensures Inv(c, run[k]) && InBounds(c, run[k]) && HoldsFrame(c, run[k]) && run[k].framePos == run[i].framePos
    ensures run[k].len[run[k].framePos] == Copied(c, run, acts, i + 1, k)
    ensures Fills(run[k].pc) ==> run[k].cnt == Counted(run, acts, i + 1, k)
    ensures !Fills(run[k].pc) && run[k].pc.SetReadBuf? ==> Counted(run, acts, i + 1, k) == 0
    decreases k
  {
    hide Inv, Apply, Enabled, HoldsFrame, Gain, Loading;
    AlwaysInv(c, run, acts, k);
    AlwaysInv(c, run, acts, k - 1);
    CarriedWhat(c, run[k]);
    assert run[k] == Apply(c, run[k - 1], acts[k - 1]);
    if k == i + 1 {
      StartsEmpty(c, run[i], acts[i]);
      EnabledIsHeld(c, run[k]);
    } else {
      LengthIsCopied(c, run, acts, i, k - 1);
      LoadStep(c, run[k - 1], acts[k - 1]);
      NoWayBack(c, run[k - 1], acts[k - 1]);
    }
  }

  lemma EnabledIsHeld(c: Config, s: State)
    requires InBounds(c, s) && s.en[s.framePos]
    ensures HoldsFrame(c, s)
  {
  }

  lemma NoWayBack(c: Config, s: State, a: Action)
    requires InBounds(c, s) && Enabled(c, s, a) && Loading(s.pc)
    ensures Apply(c, s, a).pc.SetReadBuf? ==> s.pc.SetReadBuf?
  {
    hide App, EnabledFrames, InBounds;
  }

  // ------------------------------------------------------------ the other events

  /** A whole transfer fits behind what the frame holds; in PSRAM mode the hardware stores it. */
  predicate Fits(c: Config, v: View) {
    c.psram || v.len + c.pixelsPerDma <= c.fbSize
  }

  predicate NoOverflow(acts: seq<Action>, i: nat, k: nat)
    requires k <= |acts|
  {
    forall j :: i <= j < k ==> !acts[j].Overflow?
  }

  lemma EofWaits(c: Config, s: State, a: Action)
    requires Inv(c, s) && Enabled(c, s, a) && !a.Task? && (s.pc.EofCopy? || s.pc.EofCheck?)
    requires InBounds(c, Apply(c, s, a))
    ensures var t := Apply(c, s, a);
      ViewOf(c, t) == ViewOf(c, s) && t.camState == if a.Overflow? then Idle else s.camState
  {
    hide LengthsFit, InOrder, Conserved, Scanning, QueueFits, Owned, Apply, Enabled;
    OthersKeepView(c, s, a);
  }

  lemma EofSteps(c: Config, s: State, ch: Choice)
    requires InBounds(c, s) && (s.pc.EofCopy? || s.pc.EofCheck?) && InBounds(c, TaskStep(c, s, ch))
    ensures var v, w, t := ViewOf(c, s), ViewOf(c, TaskStep(c, s, ch)), TaskStep(c, s, ch);
      && (s.pc.EofCopy? && !Fits(c, v) ==> w == v.(pc := Receive) && t.camState == s.camState)
      && (s.pc.EofCopy? && Fits(c, v) ==>
            w == v.(pc := EofCheck, len := v.len + if c.psram then 0 else ch.copied) && t.camState == s.camState)
      && (s.pc.EofCheck? ==>
            && w == v.(pc := Receive, cnt := v.cnt + 1)
            && t.camState == if c.jpeg && s.cnt == 0 && ch.noSoi then Idle else s.camState)
  {
  }

  lemma EofBegins(c: Config, s: State, a: Action)
    requires InBounds(c, s) && Enabled(c, s, a) && a.Task? && InBounds(c, Apply(c, s, a))
    requires s.pc == Dispatch(InSucEof) && s.camState.ReadBuf?
    ensures var t := Apply(c, s, a); ViewOf(c, t) == ViewOf(c, s).(pc := EofCopy) && t.camState.ReadBuf?
  {
  }

  /** The check that ends the handling of an EOF event. */
  lemma CheckHandled(c: Config, run: seq<State>, acts: seq<Action>, i: nat, e: nat, k: nat)
    requires IsRun(c, run, acts) && i <= e < k < |run| && InBounds(c, run[e]) && run[e].pc.EofCheck?
    requires run[k].pc.Receive? && forall j :: e < j < k ==> !run[j].pc.Receive?
    requires NoOverflow(acts, i, e) ==> run[e].camState.ReadBuf?
    ensures acts[k - 1].Task? && InBounds(c, run[k])
    ensures var v := ViewOf(c, run[e]); ViewOf(c, run[k]) == v.(pc := Receive, cnt := v.cnt + 1)
    ensures NoOverflow(acts, i, k) ==>
      (run[k].camState.Idle? <==> c.jpeg && run[e].cnt == 0 && acts[k - 1].choice.noSoi)
  {
    hide Inv, InBounds, Apply, Enabled, ViewOf;
    AlwaysInv(c, run, acts, e);
    var v, x := ViewOf(c, run[e]), e;
    ViewIs(c, run[e]);
    while !acts[x].Task?
      invariant e <= x < k && Inv(c, run[x]) && InBounds(c, run[x])
      invariant ViewOf(c, run[x]) == v && run[x].pc.EofCheck?
      invariant NoOverflow(acts, i, x) ==> run[x].camState.ReadBuf?
      decreases k - x
    {
      AlwaysInv(c, run, acts, x + 1);
      CarriedWhat(c, run[x + 1]);
      EofWaits(c, run[x], acts[x]);
      ViewIs(c, run[x + 1]);
      x := x + 1;
    }
    AlwaysInv(c, run, acts, x + 1);
    CarriedWhat(c, run[x + 1]);
    ViewIs(c, run[x]);
    ViewIs(c, run[x + 1]);
    TaskIs(c, run[x], acts[x]);
    EofSteps(c, run[x], acts[x].choice);
  }

  /** An EOF event that finds a frame being filled: what the environment copies, in step `m`, is added to the frame
      and one more transfer counted; when a whole transfer no longer fits, frame and counter stay as they are.  Unless
      the interrupt does, the task gives the frame up only when the first JPEG data lacks its start marker. */
  lemma EofHandled(c: Config, run: seq<State>, acts: seq<Action>, i: nat, k: nat) returns (m: nat)
    requires IsRun(c, run, acts) && i < k < |run| && acts[i].Task? && InBounds(c, run[i])
    requires run[i].pc == Dispatch(InSucEof) && run[i].camState.ReadBuf? && run[k].pc.Receive?
    requires forall j :: i < j < k ==> !run[j].pc.Receive?
    ensures i < m < k && acts[m].Task? && run[m].pc.EofCopy? && acts[k - 1].Task? && InBounds(c, run[k])
    ensures var v, w := ViewOf(c, run[i]), ViewOf(c, run[k]);
      if Fits(c, v) then
        && w == v.(pc := Receive, cnt := v.cnt + 1, len := v.len + if c.psram then 0 else acts[m].choice.copied)
        && (NoOverflow(acts, i, k) ==>
              (run[k].camState.Idle? <==> c.jpeg && v.cnt == 0 && acts[k - 1].choice.noSoi))
      else w == v.(pc := Receive) && (NoOverflow(acts, i, k) ==> run[k].camState.ReadBuf?)
  {
    hide Inv, InBounds, Apply, Enabled, ViewOf, Fits;
    AlwaysInv(c, run, acts, i + 1);
    CarriedWhat(c, run[i + 1]);
    ViewIs(c, run[i]);
    ViewIs(c, run[i + 1]);
    var v := ViewOf(c, run[i]);
    EofBegins(c, run[i], acts[i]);
    m := i + 1;
    while !acts[m].Task?
      invariant i < m < k && Inv(c, run[m]) && InBounds(c, run[m])
      invariant ViewOf(c, run[m]) == v.(pc := EofCopy) && run[m].pc.EofCopy?
      invariant NoOverflow(acts, i, m) ==> run[m].camState.ReadBuf?
      decreases k - m
    {
      AlwaysInv(c, run, acts, m + 1);
      CarriedWhat(c, run[m + 1]);
      EofWaits(c, run[m], acts[m]);
      ViewIs(c, run[m + 1]);
      m := m + 1;
    }
    AlwaysInv(c, run, acts, m + 1);
    CarriedWhat(c, run[m + 1]);
    ViewIs(c, run[m + 1]);
    TaskIs(c, run[m], acts[m]);
    EofSteps(c, run[m], acts[m].choice);
    FitsAlike(c, v, EofCopy);
    if Fits(c, v) {
      CheckHandled(c, run, acts, i, m + 1, k);
    }
  }

  lemma ViewIs(c: Config, s: State)
    requires InBounds(c, s)
    ensures s.framePos < |s.len|
    ensures ViewOf(c, s) == View(s.pc, s.framePos, s.cnt, s.captured, s.len[s.framePos])
  {
  }

  lemma FitsAlike(c: Config, v: View, pc: Pc)
    ensures Fits(c, v.(pc := pc)) == Fits(c, v)
  {
  }

  /** An event that comes while no frame is being filled: EOF is ignored, VSYNC starts a frame. */
  lemma IdleEvent(c: Config, run: seq<State>, acts: seq<Action>, i: nat)
    requires IsRun(c, run, acts) && i < |acts| && acts[i].Task? && run[i].pc.Dispatch? && run[i].camState.Idle?
    ensures InBounds(c, run[i]) && InBounds(c, run[i + 1])
    ensures var next := if run[i].pc.event.Vsync? then ScanStart(true) else Receive;
      run[i + 1] == run[i].(pc := next)
  {
    hide Inv;
    AlwaysInv(c, run, acts, i + 1);
    CarriedWhat(c, run[i + 1]);
    assert run[i + 1] == Apply(c, run[i], acts[i]);
  }

  lemma EventReceived(c: Config, run: seq<State>, acts: seq<Action>, i: nat)
    requires IsRun(c, run, acts) && i < |acts| && acts[i].Task? && run[i].pc.Receive?
    ensures run[i + 1] == run[i].(pc := Dispatch(acts[i].choice.event))
  {
    hide Inv;
    assert InBounds(c, run[i]) && run[i + 1] == Apply(c, run[i], acts[i]);
  }

  /** The way from the search for a frame to the next event; `started` tells whether the controller has started. */
  predicate Starting(c: Config, s: State, idle: bool, started: bool)
    requires InBounds(c, s)
  {
    match s.pc
    case ScanStart(i) => i == idle && !started
    case Scan(i, _, _, _, _) => i == idle && !started
    case StartCam(i) => i == idle && !started && s.en[s.framePos]
    case Started(i) => i == idle && started && s.en[s.framePos]
    case SetReadBuf => idle && started && s.en[s.framePos] && s.len[s.framePos] == 0
    case StartFailed(i, _) => i == idle && !started
    case _ => false
  }

  /** The end of it. */
  predicate StartOver(c: Config, s: State, t: State, idle: bool, started: bool)
    requires InBounds(c, t)
  {
    && t.pc.Receive? && t.cnt == 0
    && (if started then
          && t.en[t.framePos] && t.len[t.framePos] == 0
          && t.camState == (if idle then ReadBuf else s.camState)
        else t.camState == if idle then s.camState else Idle)
  }

  lemma StartSteps(c: Config, s: State, ch: Choice, idle: bool, started: bool)
    requires InBounds(c, s) && Starting(c, s, idle, started) && InBounds(c, TaskStep(c, s, ch))
    ensures var t, now := TaskStep(c, s, ch), started || (s.pc.StartCam? && ch.starts);
      || (Starting(c, t, idle, now) && t.camState == s.camState)
      || (now == started && StartOver(c, s, t, idle, started))
  {
    hide App, EnabledFrames;
  }

  lemma StartWaits(c: Config, s: State, a: Action, idle: bool, started: bool)
    requires Inv(c, s) && Enabled(c, s, a) && !a.Task? && Starting(c, s, idle, started) && InBounds(c, Apply(c, s, a))
    ensures Starting(c, Apply(c, s, a), idle, started)
    ensures Apply(c, s, a).camState == if a.Overflow? then Idle else s.camState
  {
    hide LengthsFit, InOrder, Conserved, Scanning, QueueFits, Filling, App, Partition, Apply, Enabled;
    AppLeavesTask(c, s, a);
    if s.en[s.framePos] {
      EnabledNotTaken(c, s);
      EnabledStays(c, s, a);
    }
  }

  lemma EnabledNotTaken(c: Config, s: State)
    requires Inv(c, s) && s.en[s.framePos]
    ensures s.framePos !in App(s)
  {
    hide LengthsFit, InOrder, Conserved, Scanning, QueueFits, Filling;
  }

  /** Between states `i` and `k` the controller was started. */
  ghost predicate ControllerStarts(run: seq<State>, acts: seq<Action>, i: nat, k: nat)
    requires k <= |acts| < |run|
  {
    exists j :: i <= j < k && acts[j].Task? && run[j].pc.StartCam? && acts[j].choice.starts
  }

  lemma OneMoreStart(run: seq<State>, acts: seq<Action>, i: nat, k: nat)
    requires i <= k < |acts| < |run|
    ensures ControllerStarts(run, acts, i, k + 1)
       <==> ControllerStarts(run, acts, i, k) || (acts[k].Task? && run[k].pc.StartCam? && acts[k].choice.starts)
  {
    if acts[k].Task? && run[k].pc.StartCam? && acts[k].choice.starts {
      assert ControllerStarts(run, acts, i, k + 1);
    }
    if ControllerStarts(run, acts, i, k + 1) {
      var j :| i <= j < k + 1 && acts[j].Task? && run[j].pc.StartCam? && acts[j].choice.starts;
    }
  }

  /** Where the search that began in state `i` has led to in state `k`. */
  ghost predicate StartPhase(c: Config, run: seq<State>, acts: seq<Action>, i: nat, k: nat, idle: bool)
    requires i <= k <= |acts| < |run| && InBounds(c, run[k])
  {
    var started, s, t := ControllerStarts(run, acts, i, k), run[i], run[k];
    || (Starting(c, t, idle, started) && (NoOverflow(acts, i, k) ==> t.camState == s.camState))
    || (&& t.pc.Receive? && t.cnt == 0
        && (started ==> t.en[t.framePos] && t.len[t.framePos] == 0 && (idle ==> t.camState.ReadBuf?))
        && (started && !idle && NoOverflow(acts, i, k) ==> t.camState == s.camState)
        && (!started ==> t.camState.Idle?))
  }

  lemma StartStays(c: Config, run: seq<State>, acts: seq<Action>, i: nat, k: nat, idle: bool)
    requires IsRun(c, run, acts) && i <= k < |acts| && Inv(c, run[k]) && Inv(c, run[k + 1])
    requires StartPhase(c, run, acts, i, k, idle) && !run[k].pc.Receive?
    ensures StartPhase(c, run, acts, i, k + 1, idle)
  {
    hide Starting, ControllerStarts, TaskStep, Owned, LengthsFit, InOrder, Conserved, Scanning, QueueFits, Enabled,
      EnabledFrames, App;
    var s, a := run[k], acts[k];
    assert run[k + 1] == Apply(c, s, a);
    OneMoreStart(run, acts, i, k);
    var started := ControllerStarts(run, acts, i, k);
    if a.Task? {
      StartSteps(c, s, a.choice, idle, started);
      IdleSearch(c, s, idle, started);
    } else {
      StartWaits(c, s, a, idle, started);
    }
  }

  /** In the IDLE branch the state is still IDLE while the task looks for a frame. */
  lemma IdleSearch(c: Config, s: State, idle: bool, started: bool)
    requires InBounds(c, s) && Filling(c, s) && Starting(c, s, idle, started)
    ensures idle && !started ==> s.camState.Idle?
  {
  }

  lemma {:induction false} StartRuns(c: Config, run: seq<State>, acts: seq<Action>, i: nat, k: nat)
    requires IsRun(c, run, acts) && i <= k <= |acts| && run[i].pc.ScanStart?
    requires forall j :: i < j < k ==> !run[j].pc.Receive?
    ensures Inv(c, run[k]) && InBounds(c, run[k]) && StartPhase(c, run, acts, i, k, run[i].pc.idle)
    decreases k
  {
    hide Inv, InBounds, Apply, Enabled, StartPhase;
    AlwaysInv(c, run, acts, k);
    CarriedWhat(c, run[k]);
    if i == k {
      StartBegins(c, run, acts, i);
    } else {
      StartRuns(c, run, acts, i, k - 1);
      StartStays(c, run, acts, i, k - 1, run[i].pc.idle);
    }
  }

  lemma StartBegins(c: Config, run: seq<State>, acts: seq<Action>, i: nat)
    requires i <= |acts| < |run| && InBounds(c, run[i]) && run[i].pc.ScanStart?
    ensures StartPhase(c, run, acts, i, i, run[i].pc.idle)
  {
  }

  /** From the search for a frame to the next event: if the controller starts, the frame is enabled and empty, the
      counter zero, and the task reads data from now on unless the interrupt has forced IDLE; if not, it is idle. */
  lemma StartOutcome(c: Config, run: seq<State>, acts: seq<Action>, i: nat, k: nat)
    requires IsRun(c, run, acts) && i < k < |run| && run[i].pc.ScanStart? && run[k].pc.Receive?
    requires forall j :: i < j < k ==> !run[j].pc.Receive?
    ensures InBounds(c, run[k]) && run[k].cnt == 0
    ensures ControllerStarts(run, acts, i, k) ==>
      && run[k].en[run[k].framePos] && run[k].len[run[k].framePos] == 0
      && (run[i].pc.idle ==> run[k].camState.ReadBuf?)
      && (!run[i].pc.idle && NoOverflow(acts, i, k) ==> run[k].camState == run[i].camState)
    ensures !ControllerStarts(run, acts, i, k) ==> run[k].camState.Idle?
  {
    hide Inv, InBounds, Apply, Enabled, ControllerStarts;
    StartRuns(c, run, acts, i, k);
  }

  // ------------------------------------------------------------ a good capture that is lost

  /** The task alone for `n` steps with the same choices of the environment. */
  ghost function Steps(c: Config, s: State, ch: Choice, n: nat): (t: State)
    requires Inv(c, s) && ch.copied <= c.pixelsPerDma
    ensures Inv(c, t)
    decreases n
  {
    if n == 0 then s
    else
      TaskKeepsInv(c, s, ch);
      Steps(c, TaskStep(c, s, ch), ch, n - 1)
  }

  lemma Append(c: Config, run: seq<State>, acts: seq<Action>, a: Action)
    requires IsRun(c, run, acts) && Inv(c, run[|acts|]) && Enabled(c, run[|acts|], a)
    ensures IsRun(c, run + [Apply(c, run[|acts|], a)], acts + [a])
  {
    hide Inv, Apply, Enabled, InBounds;
    CarriedWhat(c, run[|acts|]);
    var r, q := run + [Apply(c, run[|acts|], a)], acts + [a];
    forall i | 0 <= i < |q| ensures InBounds(c, r[i]) && Enabled(c, r[i], q[i]) && r[i + 1] == Apply(c, r[i], q[i]) {
      if i < |acts| {
        assert r[i] == run[i] && r[i + 1] == run[i + 1] && q[i] == acts[i];
      }
    }
  }

  /** A run goes on with `n` steps of the task. */
  lemma {:induction false} Advance(c: Config, run: seq<State>, acts: seq<Action>, ch: Choice, n: nat)
    returns (r: seq<State>, q: seq<Action>)
    requires IsRun(c, run, acts) && Inv(c, run[|acts|]) && ch.copied <= c.pixelsPerDma
    ensures IsRun(c, r, q) && |q| == |acts| + n && |r| == |q| + 1 && run <= r && acts <= q
    ensures r[|q|] == Steps(c, run[|acts|], ch, n) && Inv(c, r[|q|])
    ensures forall j :: |acts| <= j < |q| ==> q[j] == Task(ch)
    decreases n
  {
    hide Inv, TaskStep, IsRun;
    RunLength(c, run, acts);
    r, q := run, acts;
    if n > 0 {
      var s, a := run[|acts|], Task(ch);
      CarriedWhat(c, s);
      TaskKeepsInv(c, s, ch);
      Append(c, run, acts, a);
      r, q := Advance(c, run + [TaskStep(c, s, ch)], acts + [a], ch, n - 1);
    }
  }

  lemma RunLength(c: Config, run: seq<State>, acts: seq<Action>)
    requires IsRun(c, run, acts)
    ensures |run| == |acts| + 1
  {
  }

  /** GRAB_LATEST with two frames of 500 bytes, one transfer each. */
  function Tiny(): Config {
    Config(2, true, false, false, 500, 500)
  }

  function Choose(event: Event): Choice {
    Choice(event, 500, false, true, 0)
  }

  function Ready(en: seq<bool>, len: seq<nat>, stamp: seq<nat>, queue: seq<nat>, f: nat, cnt: nat,
    captured: nat): State {
    State(en, len, stamp, queue, {}, None, ReadBuf, Receive, f, cnt, captured, [], 0)
  }

  lemma TinyStart()
    ensures Inv(Tiny(), Init(Tiny()))
    ensures Steps(Tiny(), Init(Tiny()), Choose(Vsync), 6) == Ready([true, true], [0, 0], [0, 0], [], 0, 0, 0)
  {
    hide Inv;
    InitInv(Tiny());
  }

  lemma TinyFill()
    ensures var s := Ready([true, true], [0, 0], [0, 0], [], 0, 0, 0);
      Inv(Tiny(), s) ==>
        Steps(Tiny(), s, Choose(InSucEof), 4) == Ready([true, true], [500, 0], [0, 0], [], 0, 1, 0)
  {
    hide Inv;
  }

  lemma TinySend()
    ensures var s := Ready([true, true], [500, 0], [0, 0], [], 0, 1, 0);
      Inv(Tiny(), s) ==>
        Steps(Tiny(), s, Choose(Vsync), 6)
        == Ready([false, true], [500, 0], [0, 0], [0], 0, 1, 1).(pc := ScanStart(false))
  {
    hide Inv;
  }

  lemma TinyRestart()
    ensures var s := Ready([false, true], [500, 0], [0, 0], [0], 0, 1, 1).(pc := ScanStart(false));
      Inv(Tiny(), s) ==>
        Steps(Tiny(), s, Choose(Vsync), 5) == Ready([false, true], [500, 0], [0, 0], [0], 1, 0, 1)
  {
    hide Inv, EnabledFrames, App;
  }

  lemma TinyRefill()
    ensures var s := Ready([false, true], [500, 0], [0, 0], [0], 1, 0, 1);
      Inv(Tiny(), s) ==>
        Steps(Tiny(), s, Choose(InSucEof), 4) == Ready([false, true], [500, 500], [0, 0], [0], 1, 1, 1)
  {
    hide Inv;
  }

  /** Both frames are full, the first one is queued. */
  function Full(en: bool, pc: Pc): State {
    Ready([false, en], [500, 500], [0, if en then 0 else 1], [0], 1, 1, if en then 1 else 2).(pc := pc)
  }

  lemma TinyHandOver()
    ensures Inv(Tiny(), Full(true, Receive)) ==>
      Steps(Tiny(), Full(true, Receive), Choose(Vsync), 4) == Full(false, SetLen)
    ensures Inv(Tiny(), Full(false, SetLen)) ==>
      Steps(Tiny(), Full(false, SetLen), Choose(Vsync), 1) == Full(false, Send)
    ensures Inv(Tiny(), Full(false, Send)) ==>
      Steps(Tiny(), Full(false, Send), Choose(Vsync), 1) == Full(false, Pop)
  {
    hide Inv;
  }

  /** The run up to the moment when both frames are full. */
  lemma TinyFull() returns (run: seq<State>, acts: seq<Action>)
    ensures IsRun(Tiny(), run, acts) && |acts| == 25 && |run| == 26 && run[25] == Full(true, Receive)
      && Inv(Tiny(), run[25])
  {
    hide Inv, Steps, Apply, Enabled, InBounds, Ready, Init;
    TinyStart();
    TinyFill();
    TinySend();
    TinyRestart();
    TinyRefill();
    assert Full(true, Receive) == Ready([false, true], [500, 500], [0, 0], [0], 1, 1, 1) by { FullIsReady(); }
    run, acts := [Init(Tiny())], [];
    run, acts := Advance(Tiny(), run, acts, Choose(Vsync), 6);
    run, acts := Advance(Tiny(), run, acts, Choose(InSucEof), 4);
    run, acts := Advance(Tiny(), run, acts, Choose(Vsync), 6);
    run, acts := Advance(Tiny(), run, acts, Choose(Vsync), 5);
    run, acts := Advance(Tiny(), run, acts, Choose(InSucEof), 4);
  }

  lemma FullIsReady()
    ensures Full(true, Receive) == Ready([false, true], [500, 500], [0, 0], [0], 1, 1, 1)
  {
  }

  /** The application takes the queued frame, and the task finds nothing to pop. */
  lemma TinyTake(s: State)
    requires s == Full(false, Pop) && Inv(Tiny(), s)
    ensures Enabled(Tiny(), s, TakePop)
    ensures var t := Apply(Tiny(), s, TakePop);
      t.queue == [] && t.pc.Pop? && (Inv(Tiny(), t) ==> TaskStep(Tiny(), t, Choose(Vsync)).pc.ScanStart?)
  {
    hide Owned, Filling, LengthsFit, InOrder, Conserved, Scanning, QueueFits;
  }

  lemma FullIsComplete(s: State)
    requires s == Full(false, SetLen) && Inv(Tiny(), s)
    ensures InBounds(Tiny(), s) && Complete(Tiny(), s)
  {
    hide Owned, Filling, LengthsFit, InOrder, Conserved, Scanning, QueueFits;
  }

  lemma FullIs(pc: Pc)
    ensures Full(false, pc).pc == pc
  {
  }

  /** A run in which the last capture is good and the queue is emptied between the task's send and its pop. */
  lemma TinyRun() returns (run: seq<State>, acts: seq<Action>)
    ensures IsRun(Tiny(), run, acts) && |run| == 34 && run[29].pc.SetLen? && run[33].pc.ScanStart?
    ensures forall j :: 29 < j < 33 ==> !run[j].pc.ScanStart?
    ensures InBounds(Tiny(), run[29]) && Complete(Tiny(), run[29]) && EmptyPop(run, acts, 29, 33)
  {
    hide Inv, Steps, IsRun, Apply, Enabled, InBounds, Full, Complete, TaskStep;
    TinyHandOver();
    FullIs(SetLen);
    FullIs(Send);
    FullIs(Pop);
    var c, v := Tiny(), Choose(Vsync);
    run, acts := TinyFull();
    run, acts := Advance(c, run, acts, v, 4);
    FullIsComplete(run[29]);
    run, acts := Advance(c, run, acts, v, 1);
    run, acts := Advance(c, run, acts, v, 1);
    TinyTake(run[31]);
    CarriedWhat(c, run[31]);
    StepKeepsInv(c, run[31], TakePop);
    Append(c, run, acts, TakePop);
    var t := Apply(c, run[31], TakePop);
    run, acts := run + [t], acts + [TakePop];
    CarriedWhat(c, t);
    var before := run;
    run, acts := Advance(c, run, acts, v, 1);
    OneStep(c, t, v);
    assert run[32] == before[32] == t;
    assert acts[32].Task? && run[32].pc.Pop? && run[32].queue == [];
  }

  lemma OneStep(c: Config, s: State, ch: Choice)
    requires Inv(c, s) && InBounds(c, s) && ch.copied <= c.pixelsPerDma
    ensures Steps(c, s, ch, 1) == TaskStep(c, s, ch)
  {
    TaskKeepsInv(c, s, ch);
    hide Inv, TaskStep;
  }

  /** A good capture can be lost in GRAB_LATEST mode: the task finds the queue full, the application takes the one
      frame that is queued, and then there is nothing to pop. */
  lemma GoodCaptureLost() returns (run: seq<State>, acts: seq<Action>, i: nat, k: nat)
    ensures IsRun(Tiny(), run, acts) && i < k < |run| && run[i].pc.SetLen? && run[k].pc.ScanStart?
    ensures forall j :: i < j < k ==> !run[j].pc.ScanStart?
    ensures InBounds(Tiny(), run[i]) && InBounds(Tiny(), run[k]) && Complete(Tiny(), run[i])
    ensures var n := run[i].stamp[run[i].framePos];
      !InLine(Tiny(), run[k], n) && !NoEndMarker(run, acts, n, i, k)
  {
    hide Inv, IsRun, Apply, Complete, InBounds, EmptyPop, InLine, NoEndMarker;
    run, acts := TinyRun();
    i, k := 29, 33;
    RunLength(Tiny(), run, acts);
    CompleteIsKept(Tiny(), run, acts, i, k);
  }
}
