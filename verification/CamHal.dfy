/** The frame protocol of `cam_hal.c`: the camera task, the interrupt that may force the IDLE state, and
    the application that takes and gives frames, as interleaved atomic steps. */
module CamHal {
  import opened Basics

  /** `cam_config`: frame count, grab mode, pixel format, PSRAM mode and sizes. */
  datatype Config = Config(frameCnt: nat, latest: bool, jpeg: bool, psram: bool, fbSize: nat, pixelsPerDma: nat)

  /** `frame_buffer_queue_len` */
  function QueueLen(c: Config): nat {
    if c.latest && c.frameCnt > 1 then c.frameCnt - 1 else c.frameCnt
  }

  datatype Event = InSucEof | Vsync

  datatype CamState = Idle | ReadBuf

  /** Why `cam_start_frame` failed: the controller did not start, or no frame was free when the scan began;
      then the application and the queue had these frames. */
  datatype Cause = NotStarted | NoneFree(app: set<nat>, queued: seq<nat>)

  /** Where the task is.  `idle` tells the IDLE branch from the end of the VSYNC branch. */
  datatype Pc =
    | Receive
    | Dispatch(event: Event)
    | EofCopy
    | EofCheck
    | VsyncCopy
    | ClearEn
    | SetLen
    | Send
    | Pop
    | Resend(popped: nat)
    | GiveBack(popped: nat)
    | ScanStart(idle: bool)
    | Scan(idle: bool, x: nat, free: set<nat>, app: set<nat>, queued: seq<nat>)
    | StartCam(idle: bool)
    | Started(idle: bool)
    | SetReadBuf
    | StartFailed(idle: bool, cause: Cause)

  /** `en`, `len` and a capture number for each frame; the queue; frames the application holds or is
      checking in `cam_take`; the task; the capture numbers delivered so far and the number dropped. */
  datatype State = State(
    en: seq<bool>, len: seq<nat>, stamp: seq<nat>,
    queue: seq<nat>, held: set<nat>, checking: Option<nat>,
    camState: CamState, pc: Pc, framePos: nat, cnt: nat,
    captured: nat, delivered: seq<nat>, dropped: nat)

  function Init(c: Config): State {
    State(seq(c.frameCnt, _ => true), seq(c.frameCnt, _ => 0), seq(c.frameCnt, _ => 0),
          [], {}, None, Idle, Receive, 0, 0, 0, [], 0)
  }

  /** What the surroundings decide: the event received, the bytes copied, whether a start-of-image marker is
      missing, whether the controller starts, the length set by the hardware in PSRAM mode. */
  datatype Choice = Choice(event: Event, copied: nat, noSoi: bool, starts: bool, psramLen: nat)

  datatype Action =
    | Task(choice: Choice)
    | Overflow
    | TakePop
    | TakeReturn(newLen: nat)
    | TakeNoEoi
    | Give(frame: nat)

  /** The frames in the application's hands. */
  function App(s: State): set<nat> {
    s.held + (if s.checking.Some? then {s.checking.value} else {})
  }

  function EnabledFrames(s: State): set<nat> {
    set f: nat | f < |s.en| && s.en[f]
  }

  predicate InBounds(c: Config, s: State) {
    && |s.en| == |s.len| == |s.stamp| == c.frameCnt && s.framePos < c.frameCnt
    && (forall i :: 0 <= i < |s.queue| ==> s.queue[i] < c.frameCnt)
    && (forall f :: f in s.held ==> f < c.frameCnt)
    && (s.checking.Some? ==> s.checking.value < c.frameCnt)
    && (s.pc.Resend? || s.pc.GiveBack? ==> s.pc.popped < c.frameCnt)
  }

  predicate Overflows(c: Config, s: State)
    requires InBounds(c, s)
  {
    c.fbSize < s.len[s.framePos] + c.pixelsPerDma
  }

  function AddLen(c: Config, s: State, copied: nat): State
    requires InBounds(c, s)
  {
    s.(len := s.len[s.framePos := s.len[s.framePos] + copied])
  }

  function Enable(c: Config, s: State, f: nat): State
    requires InBounds(c, s) && f < c.frameCnt
  {
    s.(en := s.en[f := true])
  }

  /** Receiving events and filling the frame. */
  function BufferStep(c: Config, s: State, ch: Choice): State
    requires InBounds(c, s)
  {
    match s.pc
    case Receive => s.(pc := Dispatch(ch.event))
    case Dispatch(event) =>
      if s.camState.Idle? then s.(pc := if event.Vsync? then ScanStart(true) else Receive)
      else s.(pc := if event.Vsync? then VsyncCopy else EofCopy)
    case EofCopy =>
      if c.psram then s.(pc := EofCheck)
      else if Overflows(c, s) then s.(pc := Receive)
      else AddLen(c, s, ch.copied).(pc := EofCheck)
    case EofCheck =>
      s.(camState := if c.jpeg && s.cnt == 0 && ch.noSoi then Idle else s.camState, cnt := s.cnt + 1, pc := Receive)
    case VsyncCopy =>
      if s.cnt == 0 && c.jpeg && !c.psram then s.(pc := ScanStart(false))
      else if !c.jpeg then s.(pc := ClearEn)
      else if c.psram then s.(cnt := s.cnt + 1, pc := ClearEn)
      else if Overflows(c, s) then s.(pc := ClearEn)
      else AddLen(c, s, ch.copied).(cnt := s.cnt + 1, pc := ClearEn)
    case _ => s
  }

  /** Handing the frame to the queue. */
  function SendStep(c: Config, s: State, ch: Choice): State
    requires InBounds(c, s)
  {
    match s.pc
    case ClearEn =>
      s.(en := s.en[s.framePos := false], stamp := s.stamp[s.framePos := s.captured], captured := s.captured + 1,
         pc := SetLen)
    case SetLen =>
      if c.psram then s.(len := s.len[s.framePos := ch.psramLen], pc := Send)
      else if !c.jpeg && s.len[s.framePos] != c.fbSize then
        Enable(c, s, s.framePos).(dropped := s.dropped + 1, pc := ScanStart(false))
      else s.(pc := Send)
    case Send =>
      if |s.queue| < QueueLen(c) then s.(queue := s.queue + [s.framePos], pc := ScanStart(false))
      else s.(pc := Pop)
    case Pop =>
      if |s.queue| > 0 then s.(queue := s.queue[1..], pc := Resend(s.queue[0]))
      else Enable(c, s, s.framePos).(dropped := s.dropped + 1, pc := ScanStart(false))
    case Resend(popped) =>
      if |s.queue| < QueueLen(c) then s.(queue := s.queue + [s.framePos], pc := GiveBack(popped))
      else Enable(c, s, s.framePos).(dropped := s.dropped + 1, pc := GiveBack(popped))
    case GiveBack(popped) => Enable(c, s, popped).(dropped := s.dropped + 1, pc := ScanStart(false))
    case _ => s
  }

  /** `cam_start_frame` and what follows it. */
  function StartStep(c: Config, s: State, ch: Choice): State
    requires InBounds(c, s)
  {
    match s.pc
    case ScanStart(idle) =>
      if s.en[s.framePos] then s.(pc := StartCam(idle))
      else s.(pc := Scan(idle, 0, EnabledFrames(s), App(s), s.queue))
    case Scan(idle, x, free, app, queued) =>
      if x >= c.frameCnt then s.(pc := StartFailed(idle, NoneFree(app, queued)))
      else if s.en[x] then s.(framePos := x, pc := StartCam(idle))
      else s.(pc := Scan(idle, x + 1, free, app, queued))
    case StartCam(idle) => s.(pc := if ch.starts then Started(idle) else StartFailed(idle, NotStarted))
    case Started(idle) =>
      var t := s.(len := s.len[s.framePos := 0]);
      if idle then t.(pc := SetReadBuf) else t.(cnt := 0, pc := Receive)
    case SetReadBuf => s.(camState := ReadBuf, cnt := 0, pc := Receive)
    case StartFailed(idle, cause) =>
      if idle then s.(cnt := 0, pc := Receive) else s.(camState := Idle, cnt := 0, pc := Receive)
    case _ => s
  }

  predicate Fills(pc: Pc) {
    pc.Receive? || pc.Dispatch? || pc.EofCopy? || pc.EofCheck? || pc.VsyncCopy?
  }

  predicate Sends(pc: Pc) {
    pc.ClearEn? || pc.SetLen? || pc.Send? || pc.Pop? || pc.Resend? || pc.GiveBack?
  }

  /** The next atomic step of `cam_task`. */
  function TaskStep(c: Config, s: State, ch: Choice): State
    requires InBounds(c, s)
  {
    if Fills(s.pc) then BufferStep(c, s, ch) else if Sends(s.pc) then SendStep(c, s, ch) else StartStep(c, s, ch)
  }

  /** When an action can happen.  `ll_cam_memcpy` returns at most `pixels_per_dma`; the application gives
      back only frames it holds; a JPEG frame is cut behind an end marker found at offset 1 or later. */
  predicate Enabled(c: Config, s: State, a: Action)
    requires InBounds(c, s)
  {
    match a
    case Task(ch) => ch.copied <= c.pixelsPerDma
    case Overflow => true
    case TakePop => s.checking.None? && |s.queue| > 0
    case TakeReturn(newLen) =>
      && s.checking.Some?
      && (c.jpeg ==> 3 <= newLen <= s.len[s.checking.value])
      && (!c.jpeg && !c.psram ==> newLen == s.len[s.checking.value])
    case TakeNoEoi => s.checking.Some? && c.jpeg
    case Give(f) => f in s.held
  }

  function Apply(c: Config, s: State, a: Action): State
    requires InBounds(c, s) && Enabled(c, s, a)
  {
    match a
    case Task(ch) => TaskStep(c, s, ch)
    case Overflow => s.(camState := Idle)
    case TakePop => s.(checking := Some(s.queue[0]), queue := s.queue[1..])
    case TakeReturn(newLen) =>
      var f := s.checking.value;
      s.(held := s.held + {f}, checking := None, len := s.len[f := newLen], delivered := s.delivered + [s.stamp[f]])
    case TakeNoEoi => Enable(c, s, s.checking.value).(checking := None, dropped := s.dropped + 1)
    case Give(f) => Enable(c, s, f).(held := s.held - {f})
  }

  // ------------------------------------------------------------ who owns a frame

  /** Frames cleared and not yet sent or enabled again. */
  function InTransit(s: State): set<nat> {
    if s.pc.SetLen? || s.pc.Send? || s.pc.Pop? then {s.framePos}
    else if s.pc.Resend? then {s.framePos, s.pc.popped}
    else if s.pc.GiveBack? then {s.pc.popped}
    else {}
  }

  /** The number of frames the task has cleared and not yet sent or given back. */
  function TransitCount(pc: Pc): nat {
    if pc.SetLen? || pc.Send? || pc.Pop? || pc.GiveBack? then 1 else if pc.Resend? then 2 else 0
  }

  ghost predicate Distinct(q: seq<nat>) {
    forall i, j :: 0 <= i < j < |q| ==> q[i] != q[j]
  }

  /** A frame is enabled exactly when it is neither queued, nor the application's, nor in transit; these three
      exclude each other, and no frame is queued twice. */
  ghost predicate Partition(en: seq<bool>, queue: seq<nat>, app: set<nat>, transit: set<nat>) {
    && (forall f {:trigger en[f]} :: 0 <= f < |en| ==> (en[f] <==> f !in queue && f !in app && f !in transit))
    && (forall f :: f in queue ==> f < |en| && f !in app && f !in transit)
    && (forall f :: f in app ==> f < |en| && f !in transit)
    && (forall f :: f in transit ==> f < |en|)
    && Distinct(queue)
  }

  ghost predicate Owned(c: Config, s: State) {
    && |s.en| == c.frameCnt && Partition(s.en, s.queue, App(s), InTransit(s))
    && (s.checking.Some? ==> s.checking.value !in s.held)
    && (s.pc.Resend? ==> s.pc.popped != s.framePos)
  }

  lemma Cleared(en: seq<bool>, queue: seq<nat>, app: set<nat>, transit: set<nat>, f: nat)
    requires Partition(en, queue, app, transit) && f < |en| && en[f]
    ensures Partition(en[f := false], queue, app, transit + {f})
  {
  }

  lemma Sent(en: seq<bool>, queue: seq<nat>, app: set<nat>, transit: set<nat>, f: nat)
    requires Partition(en, queue, app, transit) && f in transit
    ensures Partition(en, queue + [f], app, transit - {f})
  {
    assert forall g :: g in queue + [f] <==> g in queue || g == f;
  }

  lemma Popped(en: seq<bool>, queue: seq<nat>, app: set<nat>, transit: set<nat>)
    requires Partition(en, queue, app, transit) && |queue| > 0
    ensures queue[0] < |en| && queue[0] !in app && queue[0] !in transit
    ensures Partition(en, queue[1..], app, transit + {queue[0]})
    ensures Partition(en, queue[1..], app + {queue[0]}, transit)
  {
    assert forall g :: g in queue[1..] ==> g in queue && g != queue[0];
    assert forall g :: g in queue ==> g in queue[1..] || g == queue[0] by {
      assert queue == [queue[0]] + queue[1..];
    }
  }

  lemma GivenBack(en: seq<bool>, queue: seq<nat>, app: set<nat>, transit: set<nat>, f: nat)
    requires Partition(en, queue, app, transit)
    ensures f in transit ==> Partition(en[f := true], queue, app, transit - {f})
    ensures f in app ==> Partition(en[f := true], queue, app - {f}, transit)
  {
  }

  /** The frame the controller may be writing to is enabled. */
  predicate Filling(c: Config, s: State)
    requires InBounds(c, s)
  {
    && ((s.pc.Receive? || s.pc.Dispatch?) && s.camState.ReadBuf? ==> s.en[s.framePos])
    && (s.pc.EofCopy? || s.pc.EofCheck? || s.pc.VsyncCopy? || s.pc.ClearEn? || s.pc.StartCam? || s.pc.Started?
        || s.pc.SetReadBuf?
        ==> s.en[s.framePos])
    && ((s.pc.ScanStart? || s.pc.Scan? || s.pc.StartCam? || s.pc.Started? || s.pc.StartFailed?) && s.pc.idle ==>
         s.camState.Idle?)
    && (s.pc.SetReadBuf? ==> s.camState.Idle?)
  }

  /** The queue never overflows, and the second send finds room. */
  predicate QueueFits(c: Config, s: State) {
    |s.queue| <= QueueLen(c) && (s.pc.Resend? ==> |s.queue| < QueueLen(c))
  }

  /** Steps outside the sending part move no frame. */
  ghost predicate SameFrames(s: State, t: State) {
    && s.en == t.en && s.stamp == t.stamp && s.queue == t.queue && s.held == t.held && s.checking == t.checking
    && s.captured == t.captured && s.delivered == t.delivered && s.dropped == t.dropped
    && InTransit(s) == {} && InTransit(t) == {} && TransitCount(s.pc) == 0 && TransitCount(t.pc) == 0
  }

  lemma BufferQuiet(c: Config, s: State, ch: Choice)
    requires InBounds(c, s) && Fills(s.pc)
    ensures SameFrames(s, BufferStep(c, s, ch))
  {
  }

  lemma StartQuiet(c: Config, s: State, ch: Choice)
    requires InBounds(c, s) && !Fills(s.pc) && !Sends(s.pc)
    ensures SameFrames(s, StartStep(c, s, ch))
  {
    hide App, EnabledFrames;
  }

  lemma QuietStep(c: Config, s: State, ch: Choice)
    requires InBounds(c, s) && !Sends(s.pc)
    ensures SameFrames(s, TaskStep(c, s, ch))
  {
    hide BufferStep, StartStep, SendStep, SameFrames;
    if Fills(s.pc) {
      BufferQuiet(c, s, ch);
    } else {
      StartQuiet(c, s, ch);
    }
  }

  lemma QuietOwned(c: Config, s: State, t: State)
    requires Owned(c, s) && SameFrames(s, t)
    ensures Owned(c, t)
  {
    hide Partition;
    assert App(t) == App(s);
  }

  lemma SendOwned(c: Config, s: State, ch: Choice)
    requires InBounds(c, s) && Owned(c, s) && Filling(c, s) && Sends(s.pc)
    ensures Owned(c, SendStep(c, s, ch))
  {
    hide Partition;
    var app, f := App(s), s.framePos;
    assert {} + {f} == {f} && {f} - {f} == {};
    match s.pc
    case ClearEn => Cleared(s.en, s.queue, app, {}, f);
    case SetLen => GivenBack(s.en, s.queue, app, {f}, f);
    case Send => Sent(s.en, s.queue, app, {f}, f);
    case Pop =>
      GivenBack(s.en, s.queue, app, {f}, f);
      if |s.queue| > 0 {
        Popped(s.en, s.queue, app, {f});
        assert {f} + {s.queue[0]} == {f, s.queue[0]};
      }
    case Resend(popped) =>
      assert {f, popped} - {f} == {popped};
      Sent(s.en, s.queue, app, {f, popped}, f);
      GivenBack(s.en, s.queue, app, {f, popped}, f);
    case GiveBack(popped) =>
      assert {popped} - {popped} == {};
      GivenBack(s.en, s.queue, app, {popped}, popped);
  }

  lemma AppOwned(c: Config, s: State, a: Action)
    requires InBounds(c, s) && Owned(c, s) && Enabled(c, s, a) && !a.Task?
    ensures Owned(c, Apply(c, s, a))
  {
    hide Partition, TaskStep;
    var t, app := Apply(c, s, a), App(s);
    match a
    case Overflow =>
    case TakePop =>
      Popped(s.en, s.queue, app, InTransit(s));
      assert app + {s.queue[0]} == App(t);
    case TakeReturn(_) => assert app == App(t);
    case TakeNoEoi =>
      GivenBack(s.en, s.queue, app, InTransit(s), s.checking.value);
      assert app - {s.checking.value} == App(t);
    case Give(f) =>
      GivenBack(s.en, s.queue, app, InTransit(s), f);
      assert app - {f} == App(t);
  }

  lemma BufferFilling(c: Config, s: State, ch: Choice)
    requires InBounds(c, s) && Filling(c, s) && Fills(s.pc)
    ensures var t := BufferStep(c, s, ch); InBounds(c, t) && Filling(c, t)
  {
  }

  lemma SendFilling(c: Config, s: State, ch: Choice)
    requires InBounds(c, s) && Filling(c, s) && Sends(s.pc)
    ensures var t := SendStep(c, s, ch); InBounds(c, t) && Filling(c, t)
  {
  }

  lemma StartFilling(c: Config, s: State, ch: Choice)
    requires InBounds(c, s) && Filling(c, s) && !Fills(s.pc) && !Sends(s.pc)
    ensures var t := StartStep(c, s, ch); InBounds(c, t) && Filling(c, t)
  {
    hide App, EnabledFrames;
  }

  lemma AppFilling(c: Config, s: State, a: Action)
    requires InBounds(c, s) && Filling(c, s) && Enabled(c, s, a) && !a.Task?
    ensures var t := Apply(c, s, a); InBounds(c, t) && Filling(c, t)
  {
    hide TaskStep;
  }

  lemma StepQueueFits(c: Config, s: State, a: Action)
    requires InBounds(c, s) && Enabled(c, s, a) && QueueFits(c, s)
    ensures QueueFits(c, Apply(c, s, a))
  {
  }

  // ------------------------------------------------------------ lengths

  /** Outside PSRAM mode no frame is longer than its buffer, and a raw frame that is on its way to the
      application or with it has exactly the frame size. */
  ghost predicate LengthsFit(c: Config, s: State)
    requires InBounds(c, s)
  {
    !c.psram ==>
      && (forall f {:trigger s.len[f]} :: 0 <= f < c.frameCnt ==> s.len[f] <= c.fbSize)
      && (!c.jpeg ==> forall f {:trigger s.len[f]} :: 0 <= f < c.frameCnt && (f in s.queue || f in App(s)) ==>
           s.len[f] == c.fbSize)
      && SendsWhole(c, s)
  }

  /** The raw frame being sent has the frame size. */
  predicate SendsWhole(c: Config, s: State)
    requires InBounds(c, s)
  {
    !c.jpeg && !c.psram && (s.pc.Send? || s.pc.Pop? || s.pc.Resend?) ==> s.len[s.framePos] == c.fbSize
  }

  lemma OthersApart(c: Config, s: State, f: nat)
    requires Owned(c, s) && (f in s.queue || f in App(s))
    ensures f < |s.en| && !s.en[f] && f !in InTransit(s)
  {
  }

  lemma BufferLeavesOthers(c: Config, s: State, ch: Choice, f: nat)
    requires InBounds(c, s) && Filling(c, s) && Fills(s.pc) && f < c.frameCnt && !s.en[f]
    ensures var t := BufferStep(c, s, ch);
      InBounds(c, t) && !t.en[f] && t.len[f] == s.len[f] && t.stamp[f] == s.stamp[f]
  {
  }

  lemma SendLeavesOthers(c: Config, s: State, ch: Choice, f: nat)
    requires InBounds(c, s) && Filling(c, s) && Sends(s.pc) && f < c.frameCnt && !s.en[f] && f !in InTransit(s)
    ensures var t := SendStep(c, s, ch); InBounds(c, t) && !t.en[f] && t.len[f] == s.len[f] && t.stamp[f] == s.stamp[f]
  {
  }

  lemma StartLeavesOthers(c: Config, s: State, ch: Choice, f: nat)
    requires InBounds(c, s) && Filling(c, s) && !Fills(s.pc) && !Sends(s.pc) && f < c.frameCnt && !s.en[f]
    ensures var t := StartStep(c, s, ch); InBounds(c, t) && !t.en[f] && t.len[f] == s.len[f] && t.stamp[f] == s.stamp[f]
  {
    hide App, EnabledFrames;
  }

  /** A step of the task changes nothing of a frame that is queued or with the application. */
  lemma TaskLeavesOthers(c: Config, s: State, ch: Choice, f: nat)
    requires InBounds(c, s) && Owned(c, s) && Filling(c, s) && (f in s.queue || f in App(s))
    ensures var t := TaskStep(c, s, ch);
      f < c.frameCnt && InBounds(c, t) && !s.en[f] && !t.en[f] && t.len[f] == s.len[f] && t.stamp[f] == s.stamp[f]
  {
    hide BufferStep, SendStep, StartStep, Filling, Partition, App, InTransit;
    OthersApart(c, s, f);
    if Fills(s.pc) {
      BufferLeavesOthers(c, s, ch, f);
    } else if Sends(s.pc) {
      SendLeavesOthers(c, s, ch, f);
    } else {
      StartLeavesOthers(c, s, ch, f);
    }
  }

  /** No frame grows beyond its buffer. */
  lemma TaskLengthBound(c: Config, s: State, ch: Choice, f: nat)
    requires InBounds(c, s) && f < c.frameCnt && ch.copied <= c.pixelsPerDma && !c.psram
    requires s.len[f] <= c.fbSize && InBounds(c, TaskStep(c, s, ch))
    ensures TaskStep(c, s, ch).len[f] <= c.fbSize
  {
    hide App, EnabledFrames;
  }

  /** What enters the queue is the frame being sent, with its length. */
  lemma QueueGrowsBySent(c: Config, s: State, ch: Choice, f: nat)
    requires InBounds(c, s) && InBounds(c, TaskStep(c, s, ch))
    requires f in TaskStep(c, s, ch).queue || f in App(TaskStep(c, s, ch))
    ensures f in s.queue || f in App(s)
      || (f == s.framePos && (s.pc.Send? || s.pc.Resend?) && TaskStep(c, s, ch).len == s.len)
  {
    hide BufferStep, StartStep, SendStep;
    if Sends(s.pc) {
      SendGrowsBySent(c, s, ch, f);
    } else {
      QuietStep(c, s, ch);
    }
  }

  lemma SendGrowsBySent(c: Config, s: State, ch: Choice, f: nat)
    requires InBounds(c, s) && Sends(s.pc)
    ensures App(SendStep(c, s, ch)) == App(s)
    ensures f in SendStep(c, s, ch).queue ==>
      f in s.queue || (f == s.framePos && (s.pc.Send? || s.pc.Resend?) && SendStep(c, s, ch).len == s.len)
  {
  }

  lemma StepSendsWhole(c: Config, s: State, ch: Choice)
    requires InBounds(c, s) && SendsWhole(c, s) && InBounds(c, TaskStep(c, s, ch))
    ensures SendsWhole(c, TaskStep(c, s, ch))
  {
    hide App, BufferStep, StartStep, SendStep, InBounds;
    if Sends(s.pc) {
      SendStepWhole(c, s, ch);
    } else {
      QuietStep(c, s, ch);
    }
  }

  lemma SendStepWhole(c: Config, s: State, ch: Choice)
    requires InBounds(c, s) && SendsWhole(c, s) && Sends(s.pc) && InBounds(c, SendStep(c, s, ch))
    ensures SendsWhole(c, SendStep(c, s, ch))
  {
    hide App;
  }

  lemma TaskLengths(c: Config, s: State, ch: Choice)
    requires InBounds(c, s) && Owned(c, s) && Filling(c, s) && LengthsFit(c, s) && ch.copied <= c.pixelsPerDma
    requires InBounds(c, TaskStep(c, s, ch))
    ensures LengthsFit(c, TaskStep(c, s, ch))
  {
    hide TaskStep, Owned, Filling, App;
    var t := TaskStep(c, s, ch);
    if !c.psram {
      forall f | 0 <= f < c.frameCnt ensures t.len[f] <= c.fbSize {
        TaskLengthBound(c, s, ch, f);
      }
      if !c.jpeg {
        forall f | 0 <= f < c.frameCnt && (f in t.queue || f in App(t)) ensures t.len[f] == c.fbSize {
          QueueGrowsBySent(c, s, ch, f);
          if f in s.queue || f in App(s) {
            TaskLeavesOthers(c, s, ch, f);
          }
        }
        StepSendsWhole(c, s, ch);
      }
    }
  }

  lemma AppLengths(c: Config, s: State, a: Action)
    requires InBounds(c, s) && LengthsFit(c, s) && Enabled(c, s, a) && !a.Task? && InBounds(c, Apply(c, s, a))
    ensures LengthsFit(c, Apply(c, s, a))
  {
    hide TaskStep;
  }

  // ------------------------------------------------------------ order and conservation

  function Stamps(stamp: seq<nat>, queue: seq<nat>): (r: seq<nat>)
    requires forall i :: 0 <= i < |queue| ==> queue[i] < |stamp|
    ensures |r| == |queue|
  {
    seq(|queue|, i requires 0 <= i < |queue| => stamp[queue[i]])
  }

  predicate MovesFrame(pc: Pc) {
    pc.SetLen? || pc.Send? || pc.Pop? || pc.Resend?
  }

  function Checked(s: State): seq<nat>
    requires s.checking.Some? ==> s.checking.value < |s.stamp|
  {
    if s.checking.Some? then [s.stamp[s.checking.value]] else []
  }

  function Moving(s: State): seq<nat>
    requires s.framePos < |s.stamp|
  {
    if MovesFrame(s.pc) then [s.stamp[s.framePos]] else []
  }

  ghost predicate Rising(line: seq<nat>, bound: nat) {
    && (forall i, j :: 0 <= i < j < |line| ==> line[i] < line[j])
    && (forall i :: 0 <= i < |line| ==> line[i] < bound)
  }

  /** Delivered captures, the one being checked, the queued ones and the one being sent, in this order, are in
      order of capture. */
  ghost predicate InOrder(c: Config, s: State)
    requires InBounds(c, s)
  {
    Rising(s.delivered + Checked(s) + Stamps(s.stamp, s.queue) + Moving(s), s.captured)
  }

  lemma RisingWithout(a: seq<nat>, b: seq<nat>, d: seq<nat>, bound: nat)
    requires Rising(a + b + d, bound)
    ensures Rising(a + d, bound)
  {
    var w, v := a + b + d, a + d;
    forall i, j | 0 <= i < j < |v| ensures v[i] < v[j] {
      var i', j' := if i < |a| then i else i + |b|, if j < |a| then j else j + |b|;
      assert v[i] == w[i'] && v[j] == w[j'];
    }
    forall i | 0 <= i < |v| ensures v[i] < bound {
      assert v[i] == w[if i < |a| then i else i + |b|];
    }
  }

  lemma RisingFront(a: seq<nat>, b: seq<nat>, bound: nat)
    requires Rising(a + b, bound)
    ensures Rising(a + [], bound)
  {
    assert a + b + [] == a + b;
    RisingWithout(a, b, [], bound);
  }

  lemma RisingPlus(a: seq<nat>, bound: nat)
    requires Rising(a, bound)
    ensures Rising(a + [bound], bound + 1)
  {
  }

  /** Every capture is delivered, dropped, queued, being checked or in the task's hands. */
  predicate Conserved(s: State) {
    s.captured == |s.delivered| + s.dropped + |s.queue| + (if s.checking.Some? then 1 else 0) + TransitCount(s.pc)
  }

  lemma SendConserves(c: Config, s: State, ch: Choice)
    requires InBounds(c, s) && Conserved(s) && Sends(s.pc)
    ensures Conserved(SendStep(c, s, ch))
  {
    hide App;
  }

  lemma StepConserves(c: Config, s: State, a: Action)
    requires InBounds(c, s) && Conserved(s) && Enabled(c, s, a)
    ensures Conserved(Apply(c, s, a))
  {
    hide App, BufferStep, StartStep, SendStep, InBounds;
    if a.Task? {
      if Sends(s.pc) {
        SendConserves(c, s, a.choice);
      } else {
        QuietStep(c, s, a.choice);
      }
    }
  }

  /** The stamps of other frames stay when the moving one gets a new stamp. */
  lemma StampsKept(stamp: seq<nat>, queue: seq<nat>, f: nat, v: nat)
    requires f < |stamp| && f !in queue && forall i :: 0 <= i < |queue| ==> queue[i] < |stamp|
    ensures Stamps(stamp[f := v], queue) == Stamps(stamp, queue)
  {
  }

  lemma StampsPush(stamp: seq<nat>, queue: seq<nat>, f: nat)
    requires f < |stamp| && forall i :: 0 <= i < |queue| ==> queue[i] < |stamp|
    ensures Stamps(stamp, queue + [f]) == Stamps(stamp, queue) + [stamp[f]]
  {
  }

  lemma StampsPop(stamp: seq<nat>, queue: seq<nat>)
    requires |queue| > 0 && forall i :: 0 <= i < |queue| ==> queue[i] < |stamp|
    ensures Stamps(stamp, queue) == [stamp[queue[0]]] + Stamps(stamp, queue[1..])
  {
  }

  lemma ClearInOrder(c: Config, s: State, ch: Choice)
    requires InBounds(c, s) && Owned(c, s) && Filling(c, s) && InOrder(c, s) && s.pc.ClearEn?
    requires InBounds(c, SendStep(c, s, ch))
    ensures InOrder(c, SendStep(c, s, ch))
  {
    hide Rising, Owned, Filling, Stamps;
    var done, q := s.delivered + Checked(s), Stamps(s.stamp, s.queue);
    FrameIsFree(c, s);
    StampsKept(s.stamp, s.queue, s.framePos, s.captured);
    RisingPlus(done + q + [], s.captured);
    assert done + q + [] + [s.captured] == done + q + [s.captured];
  }

  lemma SendInOrder(c: Config, s: State, ch: Choice)
    requires InBounds(c, s) && Owned(c, s) && Filling(c, s) && InOrder(c, s) && Sends(s.pc)
    requires InBounds(c, SendStep(c, s, ch))
    ensures InOrder(c, SendStep(c, s, ch))
  {
    hide Rising, Owned, Filling, Stamps;
    var done, q, m := s.delivered + Checked(s), Stamps(s.stamp, s.queue), Moving(s);
    var f, t := s.framePos, SendStep(c, s, ch);
    match s.pc
    case ClearEn => ClearInOrder(c, s, ch);
    case SetLen => RisingFront(done + q, m, s.captured);
    case Send =>
      StampsPush(s.stamp, s.queue, f);
      assert done + (q + m) + [] == done + q + m;
    case Pop =>
      RisingFront(done + q, m, s.captured);
      if |s.queue| > 0 {
        StampsPop(s.stamp, s.queue);
        var rest := Stamps(s.stamp, s.queue[1..]);
        assert done + q + m == done + [s.stamp[s.queue[0]]] + (rest + m);
        RisingWithout(done, [s.stamp[s.queue[0]]], rest + m, s.captured);
        assert done + rest + m == done + (rest + m);
      }
    case Resend(_) =>
      StampsPush(s.stamp, s.queue, f);
      assert done + (q + m) + [] == done + q + m;
      RisingFront(done + q, m, s.captured);
    case GiveBack(_) =>
  }

  lemma FrameIsFree(c: Config, s: State)
    requires InBounds(c, s) && Owned(c, s) && Filling(c, s) && s.pc.ClearEn?
    ensures s.framePos !in s.queue && s.framePos !in App(s)
  {
  }

  lemma OtherInOrder(c: Config, s: State, ch: Choice)
    requires InBounds(c, s) && InOrder(c, s) && !Sends(s.pc) && InBounds(c, TaskStep(c, s, ch))
    ensures InOrder(c, TaskStep(c, s, ch))
  {
    hide Rising, Stamps, App, SendStep, BufferStep, StartStep;
    QuietStep(c, s, ch);
  }

  lemma AppInOrder(c: Config, s: State, a: Action)
    requires InBounds(c, s) && InOrder(c, s) && Enabled(c, s, a) && !a.Task? && InBounds(c, Apply(c, s, a))
    ensures InOrder(c, Apply(c, s, a))
  {
    hide Rising, Stamps, TaskStep;
    var q, m := Stamps(s.stamp, s.queue), Moving(s);
    match a
    case TakePop =>
      StampsPop(s.stamp, s.queue);
      var first, rest := [s.stamp[s.queue[0]]], Stamps(s.stamp, s.queue[1..]);
      assert s.delivered + [] + (first + rest) + m == s.delivered + first + rest + m;
    case TakeReturn(_) =>
      assert s.delivered + Checked(s) + [] == s.delivered + Checked(s);
    case TakeNoEoi =>
      assert s.delivered + Checked(s) + q + m == s.delivered + Checked(s) + (q + m);
      RisingWithout(s.delivered, Checked(s), q + m, s.captured);
      assert s.delivered + [] + q + m == s.delivered + (q + m);
    case _ =>
  }

  // ------------------------------------------------------------ the search for a free frame

  /** What the scan of `cam_get_next_frame` knows: frames free when it began are still free and ahead of it; all
      others were queued or with the application. */
  ghost predicate Scanning(c: Config, s: State)
    requires InBounds(c, s)
  {
    && (s.pc.Scan? ==>
          && (forall f :: f in s.pc.free ==> f < c.frameCnt && s.en[f] && s.pc.x <= f)
          && (forall f :: 0 <= f < c.frameCnt ==> f in s.pc.free || f in s.pc.app || f in s.pc.queued)
          && |s.pc.queued| <= QueueLen(c))
    && (s.pc.StartFailed? && s.pc.cause.NoneFree? ==>
          && (forall f :: 0 <= f < c.frameCnt ==> f in s.pc.cause.app || f in s.pc.cause.queued)
          && |s.pc.cause.queued| <= QueueLen(c))
  }

  lemma ScanBegins(c: Config, s: State, f: nat)
    requires InBounds(c, s) && Owned(c, s) && s.pc.ScanStart? && f < c.frameCnt
    ensures f in EnabledFrames(s) || f in App(s) || f in s.queue
  {
  }

  lemma TaskScanning(c: Config, s: State, ch: Choice)
    requires InBounds(c, s) && Owned(c, s) && QueueFits(c, s) && Scanning(c, s) && InBounds(c, TaskStep(c, s, ch))
    ensures Scanning(c, TaskStep(c, s, ch))
  {
    hide App, Owned, BufferStep, SendStep, InTransit;
    if Fills(s.pc) {
      BufferNotScanning(c, s, ch);
    } else if Sends(s.pc) {
      SendNotScanning(c, s, ch);
    } else if s.pc.ScanStart? && !s.en[s.framePos] {
      forall f | 0 <= f < c.frameCnt ensures f in EnabledFrames(s) || f in App(s) || f in s.queue {
        ScanBegins(c, s, f);
      }
    }
  }

  lemma BufferNotScanning(c: Config, s: State, ch: Choice)
    requires InBounds(c, s) && Fills(s.pc)
    ensures var pc := BufferStep(c, s, ch).pc; !pc.Scan? && !pc.StartFailed?
  {
  }

  lemma SendNotScanning(c: Config, s: State, ch: Choice)
    requires InBounds(c, s) && Sends(s.pc)
    ensures var pc := SendStep(c, s, ch).pc; !pc.Scan? && !pc.StartFailed?
  {
  }

  /** Nobody but the task clears `en`. */
  lemma AppScanning(c: Config, s: State, a: Action)
    requires InBounds(c, s) && Scanning(c, s) && Enabled(c, s, a) && !a.Task? && InBounds(c, Apply(c, s, a))
    ensures Scanning(c, Apply(c, s, a))
  {
    hide TaskStep, App;
  }

  // ------------------------------------------------------------ all runs

  ghost predicate Inv(c: Config, s: State) {
    && InBounds(c, s) && Owned(c, s) && Filling(c, s) && QueueFits(c, s)
    && LengthsFit(c, s) && InOrder(c, s) && Conserved(s) && Scanning(c, s)
  }

  lemma InitInv(c: Config)
    requires c.frameCnt > 0
    ensures Inv(c, Init(c))
  {
    assert Partition(Init(c).en, [], {}, {});
  }

  lemma TaskKeepsInv(c: Config, s: State, ch: Choice)
    requires Inv(c, s) && ch.copied <= c.pixelsPerDma
    ensures Inv(c, TaskStep(c, s, ch))
  {
    hide BufferStep, SendStep, StartStep, Owned, Filling, LengthsFit, InOrder, Scanning, Conserved, QueueFits;
    var a := Task(ch);
    StepQueueFits(c, s, a);
    if Fills(s.pc) {
      BufferFilling(c, s, ch);
    } else if Sends(s.pc) {
      SendFilling(c, s, ch);
      SendOwned(c, s, ch);
      SendInOrder(c, s, ch);
    } else {
      StartFilling(c, s, ch);
    }
    if !Sends(s.pc) {
      QuietStep(c, s, ch);
      QuietOwned(c, s, TaskStep(c, s, ch));
      OtherInOrder(c, s, ch);
    }
    TaskLengths(c, s, ch);
    StepConserves(c, s, a);
    TaskScanning(c, s, ch);
  }

  lemma StepKeepsInv(c: Config, s: State, a: Action)
    requires Inv(c, s) && Enabled(c, s, a)
    ensures Inv(c, Apply(c, s, a))
  {
    hide TaskStep, Owned, Filling, LengthsFit, InOrder, Scanning, Conserved, QueueFits;
    if a.Task? {
      TaskKeepsInv(c, s, a.choice);
    } else {
      AppFilling(c, s, a);
      AppOwned(c, s, a);
      StepQueueFits(c, s, a);
      AppLengths(c, s, a);
      AppInOrder(c, s, a);
      StepConserves(c, s, a);
      AppScanning(c, s, a);
    }
  }

  /** `run` lists the states of an execution that starts as `cam_config` leaves the camera; `acts` the actions
      between them, in any interleaving. */
  ghost predicate IsRun(c: Config, run: seq<State>, acts: seq<Action>) {
    && c.frameCnt > 0 && |run| == |acts| + 1 && run[0] == Init(c)
    && forall i :: 0 <= i < |acts| ==>
         InBounds(c, run[i]) && Enabled(c, run[i], acts[i]) && run[i + 1] == Apply(c, run[i], acts[i])
  }

  lemma {:induction false} AlwaysInv(c: Config, run: seq<State>, acts: seq<Action>, k: nat)
    requires IsRun(c, run, acts) && k < |run|
    ensures Inv(c, run[k])
  {
    hide Inv, Apply, Enabled;
    if k == 0 {
      InitInv(c);
    } else {
      AlwaysInv(c, run, acts, k - 1);
      StepKeepsInv(c, run[k - 1], acts[k - 1]);
    }
  }

  /** In every state of every run each frame is exactly one of: enabled (free or being filled), queued,
      with the application, in the task's hands; and it is queued at most once. */
  lemma OneOwner(c: Config, run: seq<State>, acts: seq<Action>, k: nat, f: nat)
    requires IsRun(c, run, acts) && k < |run| && f < c.frameCnt
    ensures var s := run[k];
      && InBounds(c, s) && multiset(s.queue)[f] <= 1
      && (if s.en[f] then 1 else 0) + multiset(s.queue)[f] + (if f in App(s) then 1 else 0)
         + (if f in InTransit(s) then 1 else 0) == 1
  {
    hide Apply, Enabled, App, InTransit, Filling, LengthsFit, InOrder, Conserved, Scanning;
    AlwaysInv(c, run, acts, k);
    DistinctMultiset(run[k].queue, f);
  }

  lemma {:induction false} DistinctMultiset(q: seq<nat>, f: nat)
    requires Distinct(q)
    ensures multiset(q)[f] == if f in q then 1 else 0
  {
    if |q| > 0 {
      DistinctMultiset(q[1..], f);
      assert q == [q[0]] + q[1..];
    }
  }

  /** A frame that is being filled is not queued and not with the application, even when the interrupt forces
      IDLE at any moment. */
  lemma FillingIsPrivate(c: Config, run: seq<State>, acts: seq<Action>, k: nat)
    requires IsRun(c, run, acts) && k < |run|
    ensures var s := run[k];
      ((s.pc.Receive? || s.pc.Dispatch?) && s.camState.ReadBuf?) || s.pc.EofCopy? || s.pc.VsyncCopy? ==>
        && s.framePos < |s.en| && s.en[s.framePos] && s.framePos !in s.queue && s.framePos !in App(s)
  {
    hide Apply, Enabled, App, LengthsFit, InOrder, Conserved, Scanning;
    AlwaysInv(c, run, acts, k);
  }

  /** The send after a successful pop finds room: the branch that reports FBQ-SND is unreachable.  When the
      queue has a place for every frame, even the first send does. */
  lemma SendsSucceed(c: Config, run: seq<State>, acts: seq<Action>, k: nat)
    requires IsRun(c, run, acts) && k < |run|
    ensures run[k].pc.Resend? ==> |run[k].queue| < QueueLen(c)
    ensures run[k].pc.Send? && !(c.latest && c.frameCnt > 1) ==> |run[k].queue| < QueueLen(c)
  {
    hide Apply, Enabled, App, Filling, LengthsFit, InOrder, Conserved, Scanning;
    AlwaysInv(c, run, acts, k);
    var s := run[k];
    if s.pc.Send? {
      assert s.framePos in InTransit(s);
      Pigeonhole(s.queue, c.frameCnt, s.framePos);
    }
  }

  function Range(n: nat): (r: set<nat>)
    ensures |r| == n && forall f: nat :: f in r <==> f < n
  {
    if n == 0 then {} else Range(n - 1) + {n - 1}
  }

  lemma SubsetSize(a: set<nat>, b: set<nat>)
    requires a <= b
    ensures |a| <= |b|
  {
    var rest := b - a;
    assert b == a + rest;
  }

  function Elements(q: seq<nat>): (r: set<nat>)
    ensures forall f :: f in r <==> f in q
    ensures |r| <= |q|
  {
    if |q| == 0 then {} else Elements(q[..|q| - 1]) + {q[|q| - 1]}
  }

  lemma {:induction false} DistinctElements(q: seq<nat>)
    requires Distinct(q)
    ensures |Elements(q)| == |q|
  {
    if |q| > 0 {
      DistinctElements(q[..|q| - 1]);
      assert q[|q| - 1] !in q[..|q| - 1];
    }
  }

  lemma Pigeonhole(q: seq<nat>, n: nat, f: nat)
    requires Distinct(q) && f < n && f !in q && forall g :: g in q ==> g < n
    ensures |q| < n
  {
    DistinctElements(q);
    SubsetSize(Elements(q) + {f}, Range(n));
  }

  /** Frames leave `cam_take` in the order of capture, none twice, and every capture is accounted for. */
  lemma DeliveredInOrder(c: Config, run: seq<State>, acts: seq<Action>, k: nat)
    requires IsRun(c, run, acts) && k < |run|
    ensures var s := run[k];
      && (forall i, j :: 0 <= i < j < |s.delivered| ==> s.delivered[i] < s.delivered[j] < s.captured)
      && s.captured == |s.delivered| + s.dropped + |s.queue| + (if s.checking.Some? then 1 else 0) + TransitCount(s.pc)
  {
    hide Apply, Enabled, Owned, Filling, LengthsFit, Scanning, Stamps;
    AlwaysInv(c, run, acts, k);
    var s := run[k];
    var line := s.delivered + Checked(s) + Stamps(s.stamp, s.queue) + Moving(s);
    forall i, j | 0 <= i < j < |s.delivered| ensures s.delivered[i] < s.delivered[j] < s.captured {
      assert line[i] == s.delivered[i] && line[j] == s.delivered[j];
    }
  }

  /** Raw frames reach the application whole; no frame outside PSRAM mode exceeds its buffer. */
  lemma DeliveredWhole(c: Config, run: seq<State>, acts: seq<Action>, k: nat, f: nat)
    requires IsRun(c, run, acts) && k < |run| && !c.psram && f < c.frameCnt
    ensures var s := run[k];
      && |s.len| == c.frameCnt && s.len[f] <= c.fbSize
      && (!c.jpeg && f in App(s) ==> s.len[f] == c.fbSize)
  {
    hide Apply, Enabled, App, Owned, Filling, InOrder, Conserved, Scanning;
    AlwaysInv(c, run, acts, k);
  }

  lemma {:induction false} SnapshotKept(c: Config, run: seq<State>, acts: seq<Action>, i: nat, k: nat)
    requires IsRun(c, run, acts) && i < k < |run| && run[i].pc.ScanStart? && forall j :: i < j <= k ==> run[j].pc.Scan?
    ensures run[k].pc.app == App(run[i]) && run[k].pc.queued == run[i].queue
  {
    hide App, EnabledFrames, BufferStep, SendStep;
    var s, a := run[k - 1], acts[k - 1];
    if i < k - 1 {
      SnapshotKept(c, run, acts, i, k - 1);
    }
    assert run[k] == Apply(c, s, a);
  }

  lemma CoverCount(n: nat, app: set<nat>, queued: seq<nat>)
    requires forall f :: 0 <= f < n ==> f in app || f in queued
    ensures n <= |app| + |queued|
  {
    SubsetSize(Range(n), app + Elements(queued));
    UnionSize(app, Elements(queued));
  }

  lemma UnionSize(a: set<nat>, b: set<nat>)
    ensures |a + b| <= |a| + |b|
  {
    assert a + b == a + (b - a);
    SubsetSize(b - a, b);
  }

  /** A scan for a free frame that starts when the application has none of the frames fails only if all
      frames are queued; in GRAB_LATEST mode with more than one frame it never fails. */
  lemma ScanSucceeds(c: Config, run: seq<State>, acts: seq<Action>, i: nat, k: nat)
    requires IsRun(c, run, acts) && i < k < |run| && run[i].pc.ScanStart? && App(run[i]) == {}
    requires forall j :: i < j < k ==> run[j].pc.Scan?
    requires run[k].pc.StartFailed? && run[k].pc.cause.NoneFree?
    ensures |run[i].queue| == c.frameCnt && !(c.latest && c.frameCnt > 1)
  {
    hide App, EnabledFrames, BufferStep, SendStep, Owned, Filling, LengthsFit, InOrder, Conserved;
    var s := run[k - 1];
    assert run[k] == Apply(c, s, acts[k - 1]);
    FailsFromScan(c, run, acts, i, k);
    SnapshotKept(c, run, acts, i, k - 1);
    AlwaysInv(c, run, acts, k);
    CoverCount(c.frameCnt, run[k].pc.cause.app, run[k].pc.cause.queued);
  }

  lemma FailsFromScan(c: Config, run: seq<State>, acts: seq<Action>, i: nat, k: nat)
    requires IsRun(c, run, acts) && i < k < |run| && run[i].pc.ScanStart?
    requires forall j :: i < j < k ==> run[j].pc.Scan?
    requires run[k].pc.StartFailed? && run[k].pc.cause.NoneFree?
    ensures i < k - 1 && run[k].pc.cause == NoneFree(run[k - 1].pc.app, run[k - 1].pc.queued)
  {
    hide App, EnabledFrames, BufferStep, SendStep;
    assert run[k] == Apply(c, run[k - 1], acts[k - 1]);
  }
}
