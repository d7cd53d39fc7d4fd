/** One Android surface: its native window comes and goes while frames are prepared and closed. */
module SurfaceLifecycle {
  import opened Options

  datatype Api = OpenGles | Vulkan

  datatype Size = Size(width: int, height: int)

  datatype Notice = Ready | Lost | Resized

  /** How attaching a window ends: not begun without a Java environment, no native window, no EGL surface
      for it, or attached. */
  datatype Attach = NoEnvironment | NoWindow | NoEglSurface | Attached

  datatype Result = Ok | Unsupported | InvalidRequest | Failed

  /** `window` names the Java surface whose native window is attached, `egl` says whether an EGL surface
      exists, and `log` lists the events pushed. */
  datatype State = State(
    api: Api, window: Option<nat>, egl: bool,
    size: Size, framebuffer: Size, pendingFramebuffer: Size,
    framePrepared: bool, resizePending: bool, destroyPending: bool, pendingSurface: Option<nat>,
    destroying: bool, log: seq<Notice>)

  function Created(api: Api): State {
    State(api, None, false, Size(0, 0), Size(0, 0), Size(0, 0), false, false, false, None, false, [])
  }

  // ----- the operations as functions -----

  function AttachWindow(s: State, java: nat, outcome: Attach): (r: State)
    ensures r.api == s.api
  {
    match outcome
    case NoEnvironment => s
    case NoWindow => s.(window := None)
    case NoEglSurface => if s.api.OpenGles? then s.(window := None, egl := false) else s.(window := Some(java))
    case Attached => if s.api.OpenGles? then s.(window := Some(java), egl := true) else s.(window := Some(java))
  }

  predicate Attaches(s: State, outcome: Attach) {
    outcome.Attached? || (outcome.NoEglSurface? && s.api.Vulkan?)
  }

  function Detached(s: State): State {
    s.(window := None, egl := false,
       framebuffer := Size(0, 0), pendingFramebuffer := Size(0, 0),
       resizePending := false, destroyPending := false, pendingSurface := None,
       log := if s.window.Some? && !s.destroying then s.log + [Lost] else s.log)
  }

  function ReleaseWindow(s: State, outcome: Attach): (r: State)
    ensures r.api == s.api
  {
    if s.framePrepared then s.(destroyPending := true)
    else if s.destroying || s.pendingSurface.None? then Detached(s)
    else
      var d := AttachWindow(Detached(s), s.pendingSurface.value, outcome);
      d.(log := d.log + [if Attaches(s, outcome) then Ready else Lost])
  }

  function ApplyPendingResize(s: State): State {
    if s.resizePending then s.(resizePending := false, framebuffer := s.pendingFramebuffer) else s
  }

  function CloseFrame(s: State, outcome: Attach): (r: State)
    ensures r.api == s.api
  {
    var closed := ApplyPendingResize(s.(framePrepared := false));
    if closed.destroyPending then ReleaseWindow(closed, outcome) else closed
  }

  function MakeCurrent(s: State, eglSucceeds: bool): (r: (State, Result))
    ensures r.0.api == s.api
  {
    if !s.api.OpenGles? then (s, Unsupported)
    else if !s.egl || s.destroyPending then (s, InvalidRequest)
    else if !eglSucceeds then (s, Failed)
    else (s.(framePrepared := true), Ok)
  }

  function Present(s: State, eglSucceeds: bool, swapSucceeds: bool, outcome: Attach): (r: (State, Result))
    ensures r.0.api == s.api
  {
    var (p, result) := if s.framePrepared then (s, if eglSucceeds then Ok else Failed) else MakeCurrent(s, eglSucceeds);
    if !result.Ok? then (p, result)
    else (CloseFrame(p, outcome), if swapSucceeds then Ok else Failed)
  }

  function Finish(s: State, outcome: Attach): (r: (State, Result))
    ensures r.0.api == s.api
  {
    if !s.framePrepared then (s, InvalidRequest) else (CloseFrame(s, outcome), Ok)
  }

  function OnCreated(s: State, java: nat, outcome: Attach): (r: State)
    ensures r.api == s.api
  {
    if s.framePrepared then s.(pendingSurface := Some(java), destroyPending := true)
    else
      var a := AttachWindow(ReleaseWindow(s, NoWindow), java, outcome);
      if Attaches(s, outcome) then a.(log := a.log + [Ready]) else a
  }

  function OnChanged(s: State, size: Size, framebuffer: Size): (r: State)
    ensures r.api == s.api
  {
    var c := s.(size := size, log := s.log + [Resized]);
    if s.framePrepared then c.(pendingFramebuffer := framebuffer, resizePending := true)
    else c.(framebuffer := framebuffer)
  }

  /** The part of `destroy_surface` that runs once it has been accepted, which needs no prepared frame.
      Taking the view down may report the loss of the surface before the call returns. */
  function Destroy(s: State, lossReported: bool): (r: State)
    ensures r.api == s.api
  {
    var d := s.(destroying := true);
    ReleaseWindow(if lossReported then ReleaseWindow(d, NoWindow) else d, NoWindow)
  }

  datatype Op =
    | MakeCurrentOp(eglSucceeds: bool)
    | PresentOp(eglSucceeds: bool, swapSucceeds: bool, outcome: Attach)
    | FinishOp(outcome: Attach)
    | CreatedOp(java: nat, outcome: Attach)
    | ChangedOp(size: Size, framebuffer: Size)
    | DestroyedOp(outcome: Attach)
    | DestroyOp(lossReported: bool)

  /** Calls on a destroyed surface find no handle; destruction is refused while a frame is prepared. */
  function Step(s: State, op: Op): (r: State)
    ensures r.api == s.api
  {
    if s.destroying then s
    else match op
      case MakeCurrentOp(egl) => MakeCurrent(s, egl).0
      case PresentOp(egl, swap, outcome) => Present(s, egl, swap, outcome).0
      case FinishOp(outcome) => Finish(s, outcome).0
      case CreatedOp(java, outcome) => OnCreated(s, java, outcome)
      case ChangedOp(size, framebuffer) => OnChanged(s, size, framebuffer)
      case DestroyedOp(outcome) => ReleaseWindow(s, outcome)
      case DestroyOp(lossReported) => if s.framePrepared then s else Destroy(s, lossReported)
  }

  function Run(api: Api, ops: seq<Op>): State {
    if ops == [] then Created(api) else Step(Run(api, ops[..|ops| - 1]), ops[|ops| - 1])
  }

  // ----- what every history keeps -----

  /** Whether the latest of the READY and LOST events is READY. */
  function LastIsReady(log: seq<Notice>): bool {
    if log == [] then false
    else match log[|log| - 1]
      case Ready => true
      case Lost => false
      case Resized => LastIsReady(log[..|log| - 1])
  }

  /** Any two READY events have a LOST between them. */
  ghost predicate Alternates(log: seq<Notice>) {
    forall i, j :: 0 <= i < j < |log| && log[i] == Ready && log[j] == Ready ==>
      exists k :: i < k < j && log[k] == Lost
  }

  lemma {:induction false} LostSinceReady(log: seq<Notice>, i: nat)
    requires !LastIsReady(log) && i < |log| && log[i] == Ready
    ensures exists k :: i < k < |log| && log[k] == Lost
  {
    if log[|log| - 1] == Resized {
      LostSinceReady(log[..|log| - 1], i);
      var k :| i < k < |log| - 1 && log[..|log| - 1][k] == Lost;
      assert log[k] == Lost;
    }
  }

  lemma AlternatesAfter(log: seq<Notice>, n: Notice)
    requires Alternates(log) && (n == Ready ==> !LastIsReady(log))
    ensures Alternates(log + [n])
    ensures LastIsReady(log + [n]) == match n case Ready => true case Lost => false case Resized => LastIsReady(log)
  {
    var after := log + [n];
    assert after[..|log|] == log;
    forall i, j | 0 <= i < j < |after| && after[i] == Ready && after[j] == Ready
      ensures exists k :: i < k < j && after[k] == Lost
    {
      if j == |log| {
        LostSinceReady(log, i);
        var k :| i < k < |log| && log[k] == Lost;
        assert after[k] == Lost;
      } else {
        var k :| i < k < j && log[k] == Lost;
        assert after[k] == Lost;
      }
    }
  }

  ghost predicate Inv(s: State) {
    && (s.egl <==> s.api.OpenGles? && s.window.Some?)
    && (s.framePrepared ==> s.egl)
    && (s.destroyPending || s.resizePending || s.pendingSurface.Some? ==> s.framePrepared)
    && (s.pendingSurface.Some? ==> s.destroyPending)
    && (s.destroying ==> s.window.None?)
    && (!s.destroying ==> (s.window.Some? <==> LastIsReady(s.log)))
    && Alternates(s.log)
  }

  /** The same while a frame is being closed: what is pending has not been carried out yet. */
  ghost predicate Closing(s: State) {
    && (s.egl <==> s.api.OpenGles? && s.window.Some?)
    && !s.framePrepared && !s.destroying && !s.resizePending
    && (s.pendingSurface.Some? ==> s.destroyPending)
    && (s.window.Some? <==> LastIsReady(s.log))
    && Alternates(s.log)
  }

  lemma ReleaseKeepsInv(s: State, outcome: Attach)
    requires Closing(s)
    ensures Inv(ReleaseWindow(s, outcome)) && !ReleaseWindow(s, outcome).framePrepared
  {
    var d := Detached(s);
    if s.window.Some? {
      AlternatesAfter(s.log, Lost);
    }
    if s.pendingSurface.Some? {
      AlternatesAfter(d.log, if Attaches(s, outcome) then Ready else Lost);
    }
  }

  lemma CloseKeepsInv(s: State, outcome: Attach)
    requires Inv(s) && s.framePrepared && !s.destroying
    ensures Inv(CloseFrame(s, outcome)) && !CloseFrame(s, outcome).framePrepared
  {
    var r := ApplyPendingResize(s.(framePrepared := false));
    assert Closing(r);
    ReleaseKeepsInv(r, outcome);
  }

  lemma CreatedKeepsInv(s: State, java: nat, outcome: Attach)
    requires Inv(s) && !s.destroying
    ensures Inv(OnCreated(s, java, outcome))
  {
    if !s.framePrepared {
      ReleaseKeepsInv(s, NoWindow);
      AlternatesAfter(ReleaseWindow(s, NoWindow).log, Ready);
    }
  }

  lemma StepKeepsInv(s: State, op: Op)
    requires Inv(s)
    ensures Inv(Step(s, op))
  {
    if !s.destroying {
      match op
      case MakeCurrentOp(_) =>
      case PresentOp(egl, swap, outcome) =>
        if s.framePrepared {
          CloseKeepsInv(s, outcome);
        } else if MakeCurrent(s, egl).1.Ok? {
          CloseKeepsInv(MakeCurrent(s, egl).0, outcome);
        }
      case FinishOp(outcome) =>
        if s.framePrepared { CloseKeepsInv(s, outcome); }
      case CreatedOp(java, outcome) => CreatedKeepsInv(s, java, outcome);
      case ChangedOp(size, framebuffer) => AlternatesAfter(s.log, Resized);
      case DestroyedOp(outcome) =>
        if !s.framePrepared { ReleaseKeepsInv(s, outcome); }
      case DestroyOp(_) =>
    }
  }

  /** In every history: a prepared frame has its window, nothing is pending without a prepared frame, a
      window is attached exactly when READY was the last word, and READY events alternate with LOST. */
  lemma {:induction false} RunKeepsInv(api: Api, ops: seq<Op>)
    ensures Inv(Run(api, ops))
  {
    if ops != [] {
      RunKeepsInv(api, ops[..|ops| - 1]);
      StepKeepsInv(Run(api, ops[..|ops| - 1]), ops[|ops| - 1]);
    }
  }

  /** While a frame stays prepared, no operation takes its window away or changes the framebuffer size. */
  lemma PreparedFrameIsFrozen(s: State, op: Op)
    requires Inv(s) && s.framePrepared && Step(s, op).framePrepared
    ensures Step(s, op).window == s.window && s.window.Some?
    ensures Step(s, op).framebuffer == s.framebuffer
  {
    match op
    case PresentOp(egl, swap, outcome) =>
      if !s.destroying && egl { CloseKeepsInv(s, outcome); }
    case FinishOp(outcome) =>
      if !s.destroying { CloseKeepsInv(s, outcome); }
    case _ =>
  }

  /** Closing the frame carries out everything that was deferred, and only that: a deferred loss wins
      over a deferred resize, and a deferred surface takes the place of the lost one if it attaches. */
  lemma ClosedFrameCatchesUp(s: State, op: Op)
    requires Inv(s) && s.framePrepared && !s.destroying && !Step(s, op).framePrepared
    ensures var r := Step(s, op);
            var outcome := if op.PresentOp? || op.FinishOp? then op.outcome else NoWindow;
            var replaced := s.pendingSurface.Some? && Succeeds(s.api, outcome);
            && (op.PresentOp? || op.FinishOp?)
            && !r.destroyPending && !r.resizePending && r.pendingSurface.None?
            && r.framebuffer == (if s.destroyPending then Size(0, 0)
                                 else if s.resizePending then s.pendingFramebuffer else s.framebuffer)
            && r.window == (if !s.destroyPending then s.window else if replaced then s.pendingSurface else None)
            && r.log == s.log + (if !s.destroyPending then []
                                 else if s.pendingSurface.None? then [Lost]
                                 else if replaced then [Lost, Ready] else [Lost, Lost])
  {
  }

  // ----- what each operation achieves -----

  /** The native window is there, and on OpenGL ES an EGL surface for it. */
  predicate Succeeds(api: Api, outcome: Attach) {
    outcome == Attached || (outcome == NoEglSurface && api == Vulkan)
  }

  /** The state without a window: sizes of the framebuffer 0, nothing pending, and the loss told if there was one. */
  function Emptied(s: State): State {
    State(s.api, None, false, s.size, Size(0, 0), Size(0, 0), false, false, false, None, s.destroying,
          s.log + if s.window.Some? then [Lost] else [])
  }

  lemma CreatedExactly(s: State, java: nat, outcome: Attach)
    requires Inv(s) && !s.destroying
    ensures OnCreated(s, java, outcome) ==
            if s.framePrepared then s.(pendingSurface := Some(java), destroyPending := true)
            else if Succeeds(s.api, outcome)
            then Emptied(s).(window := Some(java), egl := s.api == OpenGles, log := Emptied(s).log + [Ready])
            else Emptied(s)
  {
    hide Alternates, LastIsReady;
  }

  /** A created callback without a prepared frame makes the surface ready, and says so after the loss of the window
      before, exactly if the attachment succeeds; during a frame it is noted, in place of an earlier one. */
  lemma CreatedMakesReady(api: Api, ops: seq<Op>, java: nat, outcome: Attach)
    requires !Run(api, ops).destroying
    ensures var s, ready := Run(api, ops), Succeeds(api, outcome);
            Run(api, ops + [CreatedOp(java, outcome)]) ==
            if s.framePrepared then s.(pendingSurface := Some(java), destroyPending := true)
            else if ready
            then Emptied(s).(window := Some(java), egl := api == OpenGles, log := Emptied(s).log + [Ready])
            else Emptied(s)
  {
    hide Inv, OnCreated;
    assert (ops + [CreatedOp(java, outcome)])[..|ops|] == ops;
    RunKeepsInv(api, ops);
    RunKeepsApi(api, ops);
    CreatedExactly(Run(api, ops), java, outcome);
  }

  lemma {:induction false} RunKeepsApi(api: Api, ops: seq<Op>)
    ensures Run(api, ops).api == api
  {
    if ops != [] {
      hide Step;
      RunKeepsApi(api, ops[..|ops| - 1]);
    }
  }

  /** A destroyed callback takes the window away, or waits for the end of the frame. */
  lemma DestroyedTakesWindow(api: Api, ops: seq<Op>, outcome: Attach)
    requires !Run(api, ops).destroying
    ensures var s := Run(api, ops);
            Run(api, ops + [DestroyedOp(outcome)]) ==
            if s.framePrepared then s.(destroyPending := true) else Emptied(s)
  {
    assert (ops + [DestroyedOp(outcome)])[..|ops|] == ops;
    RunKeepsInv(api, ops);
  }

  /** A changed callback stores the size and tells it once; the framebuffer follows at once, or is noted during a
      frame. */
  lemma ChangedStoresSize(api: Api, ops: seq<Op>, size: Size, framebuffer: Size)
    requires !Run(api, ops).destroying
    ensures var s, n := Run(api, ops), Run(api, ops + [ChangedOp(size, framebuffer)]);
            && n.size == size && n.log == s.log + [Resized]
            && n.framebuffer == (if s.framePrepared then s.framebuffer else framebuffer)
            && n.pendingFramebuffer == (if s.framePrepared then framebuffer else s.pendingFramebuffer)
            && n.resizePending == s.framePrepared
            && n == s.(size := n.size, log := n.log, framebuffer := n.framebuffer,
                       pendingFramebuffer := n.pendingFramebuffer, resizePending := n.resizePending)
  {
    assert (ops + [ChangedOp(size, framebuffer)])[..|ops|] == ops;
    RunKeepsInv(api, ops);
  }

  /** Making current prepares a frame exactly on an OpenGL ES surface that has its window, is not about to lose it,
      and can be bound; it changes nothing else. */
  lemma CurrentPreparesFrame(api: Api, ops: seq<Op>, eglSucceeds: bool)
    requires !Run(api, ops).destroying
    ensures var s, (n, result) := Run(api, ops), MakeCurrent(Run(api, ops), eglSucceeds);
            && Run(api, ops + [MakeCurrentOp(eglSucceeds)]) == n
            && (result == Ok <==> api == OpenGles && s.window.Some? && !s.destroyPending && eglSucceeds)
            && n == s.(framePrepared := s.framePrepared || result == Ok)
  {
    assert (ops + [MakeCurrentOp(eglSucceeds)])[..|ops|] == ops;
    RunKeepsInv(api, ops);
    RunKeepsApi(api, ops);
  }

  /** Finishing closes a prepared frame and is refused without one; presenting closes it if the surface can be bound,
      and without one leaves the surface as it was. */
  lemma FramesAreClosed(api: Api, ops: seq<Op>, eglSucceeds: bool, swapSucceeds: bool, outcome: Attach)
    requires !Run(api, ops).destroying
    ensures var s := Run(api, ops);
            var finished, result := Finish(s, outcome).0, Finish(s, outcome).1;
            && (if s.framePrepared then !finished.framePrepared && result == Ok
                else finished == s && result == InvalidRequest)
    ensures var s := Run(api, ops);
            var (presented, result) := Present(s, eglSucceeds, swapSucceeds, outcome);
            && (if s.framePrepared && eglSucceeds then !presented.framePrepared else presented == s)
            && (result == Ok <==>
                  && api == OpenGles && s.window.Some? && eglSucceeds && swapSucceeds)
  {
    var s := Run(api, ops);
    RunKeepsInv(api, ops);
    RunKeepsApi(api, ops);
    if s.framePrepared {
      CloseKeepsInv(s, outcome);
    }
  }

  /** Destroying a surface without a prepared frame takes everything and tells nothing; a prepared frame forbids it. */
  lemma DestroyIsSilent(api: Api, ops: seq<Op>, lossReported: bool)
    requires !Run(api, ops).destroying
    ensures var s := Run(api, ops);
            Run(api, ops + [DestroyOp(lossReported)]) ==
            if s.framePrepared then s else Emptied(s).(destroying := true, log := s.log)
  {
    assert (ops + [DestroyOp(lossReported)])[..|ops|] == ops;
    RunKeepsInv(api, ops);
  }

  // ----- the surface object -----

  class Surface {
    const api: Api
    var window: Option<nat>
    var egl: bool
    var size: Size
    var framebuffer: Size
    var pendingFramebuffer: Size
    var framePrepared: bool
    var resizePending: bool
    var destroyPending: bool
    var pendingSurface: Option<nat>
    var destroying: bool
    var log: seq<Notice>

    ghost function Abs(): State
      reads this
    {
      State(api, window, egl, size, framebuffer, pendingFramebuffer,
            framePrepared, resizePending, destroyPending, pendingSurface, destroying, log)
    }

    constructor (api: Api)
      ensures Abs() == Created(api)
    {
      this.api := api;
      window, egl, pendingSurface := None, false, None;
      size, framebuffer, pendingFramebuffer := Size(0, 0), Size(0, 0), Size(0, 0);
      framePrepared, resizePending, destroyPending, destroying, log := false, false, false, false, [];
    }

    method Attach(java: nat, outcome: Attach) returns (ok: bool)
      modifies this
      ensures Abs() == AttachWindow(old(Abs()), java, outcome)
      ensures ok == Attaches(old(Abs()), outcome)
    {
      if outcome.NoEnvironment? {
        return false;
      }
      window := if outcome.NoWindow? then None else Some(java);
      if window.None? {
        return false;
      }
      if api == OpenGles {
        egl := !outcome.NoEglSurface?;
        if !egl {
          window := None;
          return false;
        }
      }
      return true;
    }

    /** Gives up the window and everything pending, and returns the surface that was waiting. */
    method Detach() returns (pending: Option<nat>)
      modifies this
      ensures Abs() == Detached(old(Abs())) && pending == old(pendingSurface)
    {
      var wasReady := window.Some?;
      egl := false;
      window := None;
      framebuffer, pendingFramebuffer := Size(0, 0), Size(0, 0);
      resizePending, destroyPending := false, false;
      if wasReady && !destroying {
        log := log + [Lost];
      }
      pending := pendingSurface;
      pendingSurface := None;
    }

    method Release(outcome: Attach)
      modifies this
      ensures Abs() == ReleaseWindow(old(Abs()), outcome)
    {
      if framePrepared {
        destroyPending := true;
        return;
      }
      var pending := Detach();
      if destroying {
        return;
      }
      if pending.Some? {
        var attached := Attach(pending.value, outcome);
        log := log + [if attached then Ready else Lost];
      }
    }

    method ApplyResize()
      modifies this
      ensures Abs() == ApplyPendingResize(old(Abs()))
    {
      if !resizePending {
        return;
      }
      resizePending := false;
      framebuffer := pendingFramebuffer;
    }

    method Current(eglSucceeds: bool) returns (result: Result)
      modifies this
      ensures (Abs(), result) == MakeCurrent(old(Abs()), eglSucceeds)
    {
      if api != OpenGles {
        return Unsupported;
      }
      if !egl {
        return InvalidRequest;
      }
      if destroyPending {
        return InvalidRequest;
      }
      if !eglSucceeds {
        return Failed;
      }
      framePrepared := true;
      return Ok;
    }

    method PresentFrame(eglSucceeds: bool, swapSucceeds: bool, outcome: Attach) returns (result: Result)
      modifies this
      ensures (Abs(), result) == Present(old(Abs()), eglSucceeds, swapSucceeds, outcome)
    {
      if !framePrepared {
        result := Current(eglSucceeds);
        if result != Ok {
          return;
        }
      } else if !eglSucceeds {
        return Failed;
      }
      framePrepared := false;
      ApplyResize();
      if destroyPending {
        Release(outcome);
      }
      return if swapSucceeds then Ok else Failed;
    }

    method FinishFrame(outcome: Attach) returns (result: Result)
      modifies this
      ensures (Abs(), result) == Finish(old(Abs()), outcome)
    {
      if !framePrepared {
        return InvalidRequest;
      }
      framePrepared := false;
      ApplyResize();
      if destroyPending {
        Release(outcome);
      }
      return Ok;
    }

    method NativeSurfaceCreated(java: nat, outcome: Attach)
      requires Inv(Abs()) && !destroying
      modifies this
      ensures Abs() == OnCreated(old(Abs()), java, outcome) && Inv(Abs())
      ensures !framePrepared ==> window == if Succeeds(api, outcome) then Some(java) else None
      ensures !framePrepared ==>
                log == old(log) + (if old(window).Some? then [Lost] else [])
                                + (if Succeeds(api, outcome) then [Ready] else [])
    {
      CreatedKeepsInv(Abs(), java, outcome);
      if framePrepared {
        pendingSurface := Some(java);
        destroyPending := true;
        return;
      }
      Release(NoWindow);
      var attached := Attach(java, outcome);
      if attached {
        log := log + [Ready];
      }
    }

    method NativeSurfaceChanged(size: Size, framebuffer: Size)
      modifies this
      ensures Abs() == OnChanged(old(Abs()), size, framebuffer)
    {
      this.size := size;
      if framePrepared {
        pendingFramebuffer := framebuffer;
        resizePending := true;
      } else {
        this.framebuffer := framebuffer;
      }
      log := log + [Resized];
    }
  }
}
