/** The overlay's global state and entry points: the Present and Reset
    detours, installation of both hooks, and teardown. The UI library's calls
    are recorded as events rather than performed. */
module Overlay {
  import opened Machine
  import opened Executable
  import opened MinHook
  import opened Hooks
  import opened ModuleScan
  import opened TF2Config
  import opened SteamResolver

  /** HRESULT: a signed 32-bit status, success when not negative. */
  type HResult = h: int | -0x8000_0000 <= h < 0x8000_0000

  const D3D_OK: HResult := 0

  predicate Succeeded(hr: HResult)
  {
    hr >= 0
  }

  /** What a detour does besides updating the flags, in order. */
  datatype Event =
    | ImguiInitialized          // the UI is set up on the game's device
    | FrameDrawn                // the overlay frame is built and rendered
    | DeviceObjectsInvalidated  // the UI's device objects are released
    | DeviceObjectsCreated      // the UI's device objects are recreated
    | ImguiShutdown             // the UI backends and context are destroyed
    | OriginalPresentCalled
    | OriginalResetCalled

  /** `g_initialized`, `g_overlayVisible` and the toggle latch. */
  datatype Flags = Flags(initialized: bool, overlayVisible: bool, toggleKeyPressed: bool)

  const INITIAL_FLAGS: Flags := Flags(false, true, false)

  /** How the frame-drawing step ended: normally, possibly with the hide
      button pressed, or by an exception. */
  datatype DrawOutcome = Drawn(hideClicked: bool) | DrawFailed

  /** What one Present call observes: whether the device pointer is set, the
      device's cooperative level, the async state of `OVERLAY_TOGGLE_KEY`,
      and how drawing would end. */
  datatype FrameInput = FrameInput(deviceNonNull: bool, cooperativeLevel: HResult, keyState: bv16, draw: DrawOutcome)

  datatype Transition = Transition(flags: Flags, events: seq<Event>)

  /** The "currently down" bit of `GetAsyncKeyState`. */
  predicate KeyDown(keyState: bv16)
  {
    keyState & 0x8000 != 0
  }

  predicate Hides(d: DrawOutcome)
  {
    d.DrawFailed? || d.hideClicked
  }

  /** The first Present on a device that is not ready: forward at once. */
  predicate NotReady(f: Flags, frame: FrameInput)
  {
    !f.initialized && frame.deviceNonNull && frame.cooperativeLevel != D3D_OK
  }

  /** `hkPresent` on flags `f`. */
  function PresentStep(f: Flags, frame: FrameInput): Transition
  {
    if NotReady(f, frame) then Transition(f, [OriginalPresentCalled])
    else
      var starting := !f.initialized && frame.deviceNonNull;
      var initialized := f.initialized || starting;
      var down := KeyDown(frame.keyState);
      var toggled := if down && !f.toggleKeyPressed then !f.overlayVisible else f.overlayVisible;
      var drawing := initialized && toggled;
      var visible := if drawing && Hides(frame.draw) then false else toggled;
      Transition(Flags(initialized, visible, down),
        (if starting then [ImguiInitialized] else []) + (if drawing then [FrameDrawn] else []) + [OriginalPresentCalled])
  }

  /** `hkReset` on flags `f`, when the original Reset returns `result`. */
  function ResetStep(f: Flags, result: HResult): Transition
  {
    Transition(f,
      (if f.initialized then [DeviceObjectsInvalidated] else []) + [OriginalResetCalled] +
      (if Succeeded(result) && f.initialized then [DeviceObjectsCreated] else []))
  }

  function Count(events: seq<Event>, e: Event): nat
  {
    if events == [] then 0 else (if events[0] == e then 1 else 0) + Count(events[1..], e)
  }

  lemma {:induction false} CountAppend(a: seq<Event>, b: seq<Event>, e: Event)
    ensures Count(a + b, e) == Count(a, e) + Count(b, e)
  {
    if a == [] {
      assert a + b == b;
    } else {
      assert (a + b)[1..] == a[1..] + b;
      CountAppend(a[1..], b, e);
    }
  }

  lemma CountAbsent(a: seq<Event>, e: Event)
    requires e !in a
    ensures Count(a, e) == 0
  {
    if a != [] {
      CountAbsent(a[1..], e);
    }
  }

  /** Every Present call forwards to the original exactly once, as its last
      action. */
  lemma {:induction false} PresentForwardsOnce(f: Flags, frame: FrameInput)
    ensures var ev := PresentStep(f, frame).events;
      Count(ev, OriginalPresentCalled) == 1 && ev[|ev| - 1] == OriginalPresentCalled
  {
    var ev := PresentStep(f, frame).events;
    if !NotReady(f, frame) {
      var head := ev[..|ev| - 1];
      assert ev == head + [OriginalPresentCalled];
      CountAbsent(head, OriginalPresentCalled);
      CountAppend(head, [OriginalPresentCalled], OriginalPresentCalled);
    }
  }

  /** Initialisation waits for a ready device: a device that is not ready
      changes nothing, a ready one initialises the UI first, and without a
      device nothing is initialised or drawn. Once initialised, the overlay
      stays initialised. */
  lemma DeferredInitialization(f: Flags, frame: FrameInput)
    ensures NotReady(f, frame) ==> PresentStep(f, frame) == Transition(f, [OriginalPresentCalled])
    ensures !f.initialized && frame.deviceNonNull && frame.cooperativeLevel == D3D_OK ==>
      PresentStep(f, frame).flags.initialized && PresentStep(f, frame).events[0] == ImguiInitialized
    ensures !f.initialized && !frame.deviceNonNull ==>
      !PresentStep(f, frame).flags.initialized && FrameDrawn !in PresentStep(f, frame).events
    ensures f.initialized ==> PresentStep(f, frame).flags.initialized
  {
  }

  /** The latch follows the key, and visibility can only turn on through a
      fresh key press. */
  lemma ToggleEdge(f: Flags, frame: FrameInput)
    requires !NotReady(f, frame)
    ensures PresentStep(f, frame).flags.toggleKeyPressed == KeyDown(frame.keyState)
    ensures PresentStep(f, frame).flags.overlayVisible && !f.overlayVisible ==>
      KeyDown(frame.keyState) && !f.toggleKeyPressed
    ensures KeyDown(frame.keyState) && !f.toggleKeyPressed && f.overlayVisible ==>
      !PresentStep(f, frame).flags.overlayVisible
    ensures KeyDown(frame.keyState) && !f.toggleKeyPressed && !f.overlayVisible ==>
      (PresentStep(f, frame).flags.overlayVisible <==>
        !(PresentStep(f, frame).flags.initialized && Hides(frame.draw)))
  {
  }

  /** Without a fresh press the visibility stays as it was, unless the
      frame drawn in this call hides it. */
  lemma ToggleNeedsFreshPress(f: Flags, frame: FrameInput)
    requires !NotReady(f, frame)
    requires !(KeyDown(frame.keyState) && !f.toggleKeyPressed)
    ensures var t := PresentStep(f, frame);
      t.flags.overlayVisible == (f.overlayVisible && !(FrameDrawn in t.events && Hides(frame.draw)))
  {
  }

  /** A key held across two frames flips visibility at most once: the
      second frame cannot change it except by hiding it while drawing. */
  lemma HeldKeyFlipsOnce(f: Flags, first: FrameInput, second: FrameInput)
    requires KeyDown(first.keyState) && KeyDown(second.keyState)
    requires !NotReady(f, first)
    ensures var g := PresentStep(f, first).flags; var h := PresentStep(g, second).flags;
      h.overlayVisible ==> g.overlayVisible
  {
  }

  /** Whether the overlay is visible once the toggle key has been handled:
      flipped on a fresh press, as it was otherwise. */
  predicate VisibleAfterToggle(f: Flags, frame: FrameInput)
  {
    if KeyDown(frame.keyState) && !f.toggleKeyPressed then !f.overlayVisible else f.overlayVisible
  }

  /** A frame is drawn exactly when the call gets past initialisation, the
      overlay is initialised and it is visible after the toggle; a failed
      draw or the hide button leaves it hidden; still visible afterwards
      means it was drawn. */
  lemma DrawGate(f: Flags, frame: FrameInput)
    ensures var t := PresentStep(f, frame);
      FrameDrawn in t.events <==> !NotReady(f, frame) && t.flags.initialized && VisibleAfterToggle(f, frame)
    ensures var t := PresentStep(f, frame);
      FrameDrawn in t.events && Hides(frame.draw) ==> !t.flags.overlayVisible
    ensures var t := PresentStep(f, frame);
      t.flags.initialized && t.flags.overlayVisible ==> FrameDrawn in t.events
  {
  }

  /** Reset forwards exactly once, releases the UI's device objects before it
      only when initialised, recreates them after it only on success when
      initialised, and leaves the flags alone. */
  lemma {:induction false} ResetOrdering(f: Flags, result: HResult)
    ensures var t := ResetStep(f, result);
      t.flags == f && Count(t.events, OriginalResetCalled) == 1
    ensures var ev := ResetStep(f, result).events;
      (DeviceObjectsInvalidated in ev <==> f.initialized) &&
      (DeviceObjectsCreated in ev <==> Succeeded(result) && f.initialized)
    ensures var ev := ResetStep(f, result).events;
      forall i, j :: 0 <= i < |ev| && 0 <= j < |ev| && ev[i] == DeviceObjectsInvalidated && ev[j] == OriginalResetCalled ==> i < j
    ensures var ev := ResetStep(f, result).events;
      forall i, j :: 0 <= i < |ev| && 0 <= j < |ev| && ev[i] == OriginalResetCalled && ev[j] == DeviceObjectsCreated ==> i < j
  {
    var pre: seq<Event> := if f.initialized then [DeviceObjectsInvalidated] else [];
    var post: seq<Event> := if Succeeded(result) && f.initialized then [DeviceObjectsCreated] else [];
    CountAbsent(pre, OriginalResetCalled);
    CountAbsent(post, OriginalResetCalled);
    CountAppend(pre, [OriginalResetCalled], OriginalResetCalled);
    CountAppend(pre + [OriginalResetCalled], post, OriginalResetCalled);
  }

  /** Whether the UI's device objects exist after a run of events. */
  function LiveAfter(live: bool, events: seq<Event>): bool
    decreases |events|
  {
    if events == [] then live
    else
      var e := events[0];
      var next :=
        if e == ImguiInitialized || e == DeviceObjectsCreated then true
        else if e == DeviceObjectsInvalidated || e == ImguiShutdown then false
        else live;
      LiveAfter(next, events[1..])
  }

  lemma {:induction false} LiveAfterAppend(live: bool, a: seq<Event>, b: seq<Event>)
    ensures LiveAfter(live, a + b) == LiveAfter(LiveAfter(live, a), b)
    decreases |a|
  {
    if a == [] {
      assert a + b == b;
    } else {
      assert (a + b)[1..] == a[1..] + b;
      var e := a[0];
      var next :=
        if e == ImguiInitialized || e == DeviceObjectsCreated then true
        else if e == DeviceObjectsInvalidated || e == ImguiShutdown then false
        else live;
      LiveAfterAppend(next, a[1..], b);
    }
  }

  /** After a Reset on an initialised overlay the device objects exist
      exactly when the Reset succeeded, whatever came before; so a failed
      Reset followed by a successful one recovers them. */
  lemma {:induction false} ResetRestoresDeviceObjects(f: Flags, live: bool, result: HResult)
    requires f.initialized
    ensures LiveAfter(live, ResetStep(f, result).events) == Succeeded(result)
  {
    var post: seq<Event> := if Succeeded(result) then [DeviceObjectsCreated] else [];
    LiveAfterAppend(live, [DeviceObjectsInvalidated], [OriginalResetCalled]);
    LiveAfterAppend(live, [DeviceObjectsInvalidated, OriginalResetCalled], post);
    assert ResetStep(f, result).events == [DeviceObjectsInvalidated, OriginalResetCalled] + post;
  }

  /** How `hooks::Initialize` ended; the three failures are its `throw`s. */
  datatype InitOutcome =
    | ModuleNotFound
    | EngineInitFailed
    | PresentNotFound
    | Installed(present: Addr, reset: Addr)

  ghost predicate InitReadable(proc: Process)
  {
    ResolverReadable(proc, PRESENT_PATTERN) && ResolverReadable(proc, RESET_PATTERN)
  }

  /** Where `hooks::Initialize` stops, and what it resolved. */
  function InitResult(proc: Process, mhInit: Status): InitOutcome
    requires InitReadable(proc)
  {
    if STEAM_OVERLAY_DLL !in proc.modules then ModuleNotFound
    else if mhInit != MhOk then EngineInitFailed
    else ResolvedTargets(proc)
  }

  /** The outcome once the engine is up: the resolved Present and Reset, or
      a failure when Present was not found. */
  function ResolvedTargets(proc: Process): InitOutcome
    requires InitReadable(proc)
  {
    var present := Resolve(proc, PRESENT_PATTERN);
    var reset := Resolve(proc, RESET_PATTERN);
    if present == 0 then PresentNotFound else Installed(present, reset)
  }

  /** The targets `REGISTER_HOOK` appends: Present, then Reset when found. */
  function Registered(outcome: InitOutcome): seq<Addr>
  {
    match outcome
    case Installed(p, r) => [p] + (if r != 0 then [r] else [])
    case _ => []
  }

  /** The engine calls of `hooks::Initialize`. */
  function InitCalls(query: PageQuery, mhInit: Status, outcome: InitOutcome, presentDetour: Addr, resetDetour: Addr,
                     presentSt: HookStatuses, resetSt: HookStatuses): seq<Logged>
  {
    if outcome == ModuleNotFound then []
    else [(MhInitialize, mhInit)] + InstallSteps(query, outcome, presentDetour, resetDetour, presentSt, resetSt)
  }

  /** The engine calls of the two `REGISTER_HOOK` steps: Present, then Reset
      when it was found; none when nothing was resolved. */
  function InstallSteps(query: PageQuery, outcome: InitOutcome, presentDetour: Addr, resetDetour: Addr,
                        presentSt: HookStatuses, resetSt: HookStatuses): seq<Logged>
  {
    match outcome
    case Installed(p, r) =>
      HookSteps(query, p, presentDetour, presentSt) +
      (if r != 0 then HookSteps(query, r, resetDetour, resetSt) else [])
    case _ => []
  }

  /** What `oPresent` holds after initialisation ended with `outcome`. */
  function PresentSlotAfter(query: PageQuery, outcome: InitOutcome, detour: Addr, st: HookStatuses, prev: Addr): Addr
  {
    if outcome.Installed? then SlotAfterHook(query, outcome.present, detour, st, prev) else prev
  }

  /** What `oReset` holds after initialisation ended with `outcome`. */
  function ResetSlotAfter(query: PageQuery, outcome: InitOutcome, detour: Addr, st: HookStatuses, prev: Addr): Addr
  {
    if outcome.Installed? && outcome.reset != 0 then SlotAfterHook(query, outcome.reset, detour, st, prev) else prev
  }

  /** The list grows by nothing on every failure and by one or two targets
      on success, the second one being Reset's and only when it was found;
      Present is always hooked through a create call, because a resolved
      function always passes the wrapper's protection check. So both
      resolved functions are admitted, and their slots receive the
      trampoline whenever the create succeeds. */
  lemma {:induction false} InitializeRegisters(proc: Process, mhInit: Status, presentDetour: Addr, resetDetour: Addr,
                                               presentSt: HookStatuses, resetSt: HookStatuses)
    requires InitReadable(proc) && presentDetour != 0
    ensures var o := InitResult(proc, mhInit);
      !o.Installed? <==> Registered(o) == []
    ensures var o := InitResult(proc, mhInit);
      o.Installed? ==>
        |Registered(o)| == (if o.reset != 0 then 2 else 1) && Registered(o)[0] == o.present &&
        IsValidExecutableAddress(proc.query, o.present) &&
        (o.reset != 0 ==> IsValidExecutableAddress(proc.query, o.reset))
    ensures var o := InitResult(proc, mhInit);
      var calls := InitCalls(proc.query, mhInit, o, presentDetour, resetDetour, presentSt, resetSt);
      o.Installed? ==> |calls| >= 2 && calls[1] == (MhCreateHook(o.present, presentDetour), presentSt.create)
    ensures var o := InitResult(proc, mhInit);
      o.Installed? ==>
        Admitted(proc.query, o.present, presentDetour) &&
        (o.reset != 0 && resetDetour != 0 ==> Admitted(proc.query, o.reset, resetDetour))
  {
    var o := InitResult(proc, mhInit);
    if o.Installed? {
      ResolveSound(proc, PRESENT_PATTERN);
      ResolveSound(proc, RESET_PATTERN);
      ValidatedPassesHookGate(proc.query, o.present);
      if o.reset != 0 {
        ValidatedPassesHookGate(proc.query, o.reset);
      }
      HookGate(proc.query, o.present, presentDetour, presentSt);
    }
  }

  /** The disable calls of the teardown loop, one per recorded target, in
      order; `fails` are the targets whose disable fails. */
  function DisableCalls(targets: seq<Addr>, fails: set<Addr>): (calls: seq<Logged>)
    ensures |calls| == |targets|
  {
    seq(|targets|, i requires 0 <= i < |targets| => (MhDisableHook(targets[i]), if targets[i] in fails then MhFailed else MhOk))
  }

  /** The engine calls of `hooks::Uninitialize`. */
  function UninitCalls(targets: seq<Addr>, fails: set<Addr>, uninit: Status): seq<Logged>
  {
    DisableCalls(targets, fails) + [(MhUninitialize, uninit)]
  }

  /** After the disable loop, no recorded target whose disable succeeded is
      still enabled. */
  lemma {:induction false} DisableLoopDisables(s: EngineState, targets: seq<Addr>, fails: set<Addr>)
    ensures forall t :: t in targets && t !in fails ==> t !in Replay(s, DisableCalls(targets, fails)).enabled
    decreases |targets|
  {
    if targets != [] {
      var calls := DisableCalls(targets, fails);
      var s1 := Step(s, calls[0]);
      assert calls[1..] == DisableCalls(targets[1..], fails);
      DisableLoopDisables(s1, targets[1..], fails);
      var last := targets[0];
      if last !in fails {
        assert last !in s1.enabled;
        DisableKeepsDisabled(s1, targets[1..], fails, last);
      }
      forall t | t in targets && t !in fails
        ensures t !in Replay(s, calls).enabled
      {
        if t != last {
          assert t in targets[1..];
        }
      }
    }
  }

  /** Disable calls never enable anything. */
  lemma {:induction false} DisableKeepsDisabled(s: EngineState, targets: seq<Addr>, fails: set<Addr>, t: Addr)
    requires t !in s.enabled
    ensures t !in Replay(s, DisableCalls(targets, fails)).enabled
    decreases |targets|
  {
    if targets != [] {
      var calls := DisableCalls(targets, fails);
      assert calls[1..] == DisableCalls(targets[1..], fails);
      DisableKeepsDisabled(Step(s, calls[0]), targets[1..], fails, t);
    }
  }

  /** A successful engine shutdown leaves the engine as it was before the
      first call, whatever the disable calls did; a teardown with nothing
      recorded makes the shutdown call only. */
  lemma {:induction false} UninitializeResets(s: EngineState, targets: seq<Addr>, fails: set<Addr>)
    ensures Replay(s, UninitCalls(targets, fails, MhOk)) == FRESH
    ensures UninitCalls([], fails, MhOk) == [(MhUninitialize, MhOk)]
  {
    var d := DisableCalls(targets, fails);
    ReplayAppend(s, d, [(MhUninitialize, MhOk)]);
    assert Replay(Replay(s, d), [(MhUninitialize, MhOk)]) == Replay(FRESH, []);
  }

  /** The DLL's globals: the three flags, the list of hooked targets, the
      hook engine, the two variables holding the trampolines to the
      original Present and Reset, and the addresses of the two detours. */
  class OverlayHook {
    var initialized: bool
    var overlayVisible: bool
    var toggleKeyPressed: bool
    var originalFunctions: seq<Addr>
    var events: seq<Event>
    const engine: HookEngine
    const oPresent: OriginalSlot
    const oReset: OriginalSlot
    const presentDetour: Addr
    const resetDetour: Addr

    function Current(): Flags
      reads this
    {
      Flags(initialized, overlayVisible, toggleKeyPressed)
    }

    ghost predicate Valid()
      reads this, engine
    {
      engine.Valid() && oPresent != oReset && presentDetour != 0 && resetDetour != 0
    }

    /** The state at load: not initialised, visible, latch released, nothing
      hooked. */
    constructor(presentDetour: Addr, resetDetour: Addr)
      requires presentDetour != 0 && resetDetour != 0
      ensures Valid() && fresh(engine) && fresh(oPresent) && fresh(oReset)
      ensures Current() == INITIAL_FLAGS && originalFunctions == [] && events == []
      ensures engine.state == FRESH && engine.log == [] && oPresent.fn == 0 && oReset.fn == 0
      ensures this.presentDetour == presentDetour && this.resetDetour == resetDetour
    {
      initialized := false;
      overlayVisible := true;
      toggleKeyPressed := false;
      originalFunctions := [];
      events := [];
      engine := new HookEngine();
      oPresent := new OriginalSlot();
      oReset := new OriginalSlot();
      this.presentDetour := presentDetour;
      this.resetDetour := resetDetour;
    }

    /** `hkPresent`: returns what the original Present returned. */
    method HkPresent(frame: FrameInput, presentResult: HResult) returns (hr: HResult)
      modifies this
      ensures hr == presentResult
      ensures Current() == PresentStep(old(Current()), frame).flags
      ensures events == old(events) + PresentStep(old(Current()), frame).events
      ensures originalFunctions == old(originalFunctions)
    {
      if !initialized && frame.deviceNonNull {
        var deviceState := frame.cooperativeLevel;
        if deviceState == D3D_OK {
          events := events + [ImguiInitialized];
          initialized := true;
        } else {
          events := events + [OriginalPresentCalled];
          return presentResult;
        }
      }
      var toggleKeyDown := KeyDown(frame.keyState);
      if toggleKeyDown && !toggleKeyPressed {
        overlayVisible := !overlayVisible;
      }
      toggleKeyPressed := toggleKeyDown;
      if initialized && overlayVisible {
        events := events + [FrameDrawn];
        match frame.draw
        case DrawFailed =>
          overlayVisible := false;
        case Drawn(hideClicked) =>
          if hideClicked {
            overlayVisible := false;
          }
      }
      events := events + [OriginalPresentCalled];
      hr := presentResult;
    }

    /** `hkReset`: returns what the original Reset returned. */
    method HkReset(resetResult: HResult) returns (hr: HResult)
      modifies this
      ensures hr == resetResult
      ensures Current() == old(Current())
      ensures events == old(events) + ResetStep(old(Current()), resetResult).events
      ensures originalFunctions == old(originalFunctions)
    {
      if initialized {
        events := events + [DeviceObjectsInvalidated];
      }
      events := events + [OriginalResetCalled];
      var result := resetResult;
      if Succeeded(result) && initialized {
        events := events + [DeviceObjectsCreated];
      }
      hr := result;
    }

    /** `REGISTER_HOOK`: hook the target, then record it whatever the
        outcome. */
    method RegisterHook(query: PageQuery, target: Addr, detour: Addr, slot: OriginalSlot, st: HookStatuses)
      requires Valid()
      modifies this, engine, slot
      ensures Valid()
      ensures originalFunctions == old(originalFunctions) + [target]
      ensures engine.log == old(engine.log) + HookSteps(query, target, detour, st)
      ensures engine.state == Replay(old(engine.state), HookSteps(query, target, detour, st))
      ensures slot.fn == SlotAfterHook(query, target, detour, st, old(slot.fn))
      ensures Current() == old(Current()) && events == old(events)
    {
      Hook(engine, query, target, detour, slot, st);
      originalFunctions := originalFunctions + [target];
    }

    /** `hooks::Initialize`. */
    method Initialize(proc: Process, mhInit: Status, presentSt: HookStatuses, resetSt: HookStatuses)
      returns (outcome: InitOutcome)
      requires Valid() && InitReadable(proc)
      modifies this, engine, oPresent, oReset
      ensures Valid()
      ensures outcome == InitResult(proc, mhInit)
      ensures originalFunctions == old(originalFunctions) + Registered(outcome)
      ensures engine.log == old(engine.log) +
        InitCalls(proc.query, mhInit, outcome, presentDetour, resetDetour, presentSt, resetSt)
      ensures engine.state == Replay(old(engine.state),
        InitCalls(proc.query, mhInit, outcome, presentDetour, resetDetour, presentSt, resetSt))
      ensures oPresent.fn == PresentSlotAfter(proc.query, outcome, presentDetour, presentSt, old(oPresent.fn))
      ensures oReset.fn == ResetSlotAfter(proc.query, outcome, resetDetour, resetSt, old(oReset.fn))
      ensures Current() == old(Current()) && events == old(events)
    {
      ghost var s0 := engine.state;
      ghost var log0 := engine.log;
      if STEAM_OVERLAY_DLL !in proc.modules {
        assert log0 + [] == log0;
        return ModuleNotFound;
      }
      engine.Perform(MhInitialize, mhInit);
      if mhInit != MhOk {
        ReplayUnfold(s0, [(MhInitialize, mhInit)]);
        return EngineInitFailed;
      }
      ReplayUnfold(s0, [(MhInitialize, mhInit)]);
      outcome := ResolveAndInstall(proc, presentSt, resetSt);
      ghost var install := InstallSteps(proc.query, outcome, presentDetour, resetDetour, presentSt, resetSt);
      ReplayAppend(s0, [(MhInitialize, mhInit)], install);
      AppendAssoc(log0, [(MhInitialize, mhInit)], install);
    }

    /** Resolve both functions and, when Present was found, register the
        hooks. */
    method ResolveAndInstall(proc: Process, presentSt: HookStatuses, resetSt: HookStatuses)
      returns (outcome: InitOutcome)
      requires Valid() && InitReadable(proc)
      modifies this, engine, oPresent, oReset
      ensures Valid()
      ensures outcome == ResolvedTargets(proc)
      ensures originalFunctions == old(originalFunctions) + Registered(outcome)
      ensures engine.log == old(engine.log) + InstallSteps(proc.query, outcome, presentDetour, resetDetour, presentSt, resetSt)
      ensures engine.state == Replay(old(engine.state),
        InstallSteps(proc.query, outcome, presentDetour, resetDetour, presentSt, resetSt))
      ensures oPresent.fn == PresentSlotAfter(proc.query, outcome, presentDetour, presentSt, old(oPresent.fn))
      ensures oReset.fn == ResetSlotAfter(proc.query, outcome, resetDetour, resetSt, old(oReset.fn))
      ensures Current() == old(Current()) && events == old(events)
    {
      var presentFunction := ExtractSteamFunction(proc, PRESENT_PATTERN);
      var resetFunction := ExtractSteamFunction(proc, RESET_PATTERN);
      if presentFunction == 0 {
        assert old(engine.log) + [] == engine.log;
        return PresentNotFound;
      }
      outcome := Installed(presentFunction, resetFunction);
      InstallHooks(proc.query, presentFunction, resetFunction, presentSt, resetSt);
    }

    /** Register Present, then Reset when it was found. */
    method InstallHooks(query: PageQuery, present: Addr, reset: Addr, presentSt: HookStatuses, resetSt: HookStatuses)
      requires Valid()
      modifies this, engine, oPresent, oReset
      ensures Valid()
      ensures originalFunctions == old(originalFunctions) + Registered(Installed(present, reset))
      ensures engine.log == old(engine.log) +
        InstallSteps(query, Installed(present, reset), presentDetour, resetDetour, presentSt, resetSt)
      ensures engine.state == Replay(old(engine.state),
        InstallSteps(query, Installed(present, reset), presentDetour, resetDetour, presentSt, resetSt))
      ensures oPresent.fn == SlotAfterHook(query, present, presentDetour, presentSt, old(oPresent.fn))
      ensures oReset.fn == if reset != 0 then SlotAfterHook(query, reset, resetDetour, resetSt, old(oReset.fn))
                           else old(oReset.fn)
      ensures Current() == old(Current()) && events == old(events)
    {
      ghost var s0 := engine.state;
      RegisterHook(query, present, presentDetour, oPresent, presentSt);
      ghost var first := HookSteps(query, present, presentDetour, presentSt);
      if reset != 0 {
        RegisterHook(query, reset, resetDetour, oReset, resetSt);
        ReplayAppend(s0, first, HookSteps(query, reset, resetDetour, resetSt));
      } else {
        assert first + [] == first;
      }
    }

    /** `hooks::Uninitialize`; `disableFails` are the targets whose disable
        call fails (the teardown ignores the statuses). */
    method Uninitialize(disableFails: set<Addr>, uninitStatus: Status)
      requires Valid()
      modifies this, engine
      ensures Valid()
      ensures originalFunctions == []
      ensures Current() == old(Current()).(initialized := false)
      ensures events == old(events) + (if old(initialized) then [ImguiShutdown] else [])
      ensures engine.log == old(engine.log) + UninitCalls(old(originalFunctions), disableFails, uninitStatus)
      ensures engine.state == Replay(old(engine.state), UninitCalls(old(originalFunctions), disableFails, uninitStatus))
    {
      if initialized {
        events := events + [ImguiShutdown];
        initialized := false;
      }
      ghost var s0 := engine.state;
      ghost var log0 := engine.log;
      var targets := originalFunctions;
      for i := 0 to |targets|
        modifies engine
        invariant engine.Valid()
        invariant engine.log == log0 + DisableCalls(targets[..i], disableFails)
        invariant engine.state == Replay(s0, DisableCalls(targets[..i], disableFails))
      {
        var org := targets[i];
        var status := if org in disableFails then MhFailed else MhOk;
        engine.Perform(MhDisableHook(org), status);
        assert DisableCalls(targets[..i + 1], disableFails) ==
          DisableCalls(targets[..i], disableFails) + [(MhDisableHook(org), status)];
        ReplayAppend(s0, DisableCalls(targets[..i], disableFails), [(MhDisableHook(org), status)]);
      }
      assert targets[..|targets|] == targets;
      originalFunctions := [];
      engine.Perform(MhUninitialize, uninitStatus);
      ReplayAppend(s0, DisableCalls(targets, disableFails), [(MhUninitialize, uninitStatus)]);
      assert engine.log == log0 + UninitCalls(targets, disableFails, uninitStatus);
    }
  }
}
