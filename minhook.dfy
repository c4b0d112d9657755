/** The hook engine the DLL drives (MinHook), reduced to what its callers can
    rely on: whether it is initialised, which targets have a hook created and
    which are enabled. Each call's status is an input; a call that fails
    leaves the engine as it was. */
module MinHook {
  import opened Machine

  /** `MH_OK` or any of the error statuses. */
  datatype Status = MhOk | MhFailed

  datatype EngineCall =
    | MhInitialize
    | MhCreateHook(target: Addr, detour: Addr)
    | MhEnableHook(target: Addr)
    | MhDisableHook(target: Addr)
    | MhRemoveHook(target: Addr)
    | MhUninitialize

  /** One call as it was made, with the status it returned. */
  type Logged = (EngineCall, Status)

  datatype EngineState = EngineState(initialized: bool, created: set<Addr>, enabled: set<Addr>)

  /** The state before the first call, and after a successful uninitialise,
      which disables and removes every hook. */
  const FRESH: EngineState := EngineState(false, {}, {})

  /** Only a created hook can be enabled. */
  predicate Coherent(s: EngineState)
  {
    s.enabled <= s.created
  }

  /** The effect of a call that returned `MH_OK`. Enabling a target with no
      hook is not something the engine reports as success; it changes
      nothing here. */
  function Effect(s: EngineState, call: EngineCall): EngineState
  {
    match call
    case MhInitialize => s.(initialized := true)
    case MhCreateHook(t, _) => s.(created := s.created + {t})
    case MhEnableHook(t) => if t in s.created then s.(enabled := s.enabled + {t}) else s
    case MhDisableHook(t) => s.(enabled := s.enabled - {t})
    case MhRemoveHook(t) => s.(created := s.created - {t}, enabled := s.enabled - {t})
    case MhUninitialize => FRESH
  }

  function Step(s: EngineState, entry: Logged): EngineState
  {
    if entry.1 == MhOk then Effect(s, entry.0) else s
  }

  /** The state after a sequence of calls, oldest first. */
  function Replay(s: EngineState, calls: seq<Logged>): EngineState
    decreases |calls|
  {
    if calls == [] then s else Replay(Step(s, calls[0]), calls[1..])
  }

  /** Replaying two logs one after the other is replaying their concatenation. */
  lemma {:induction false} ReplayAppend(s: EngineState, a: seq<Logged>, b: seq<Logged>)
    ensures Replay(s, a + b) == Replay(Replay(s, a), b)
    decreases |a|
  {
    if a != [] {
      assert (a + b)[1..] == a[1..] + b;
      ReplayAppend(Step(s, a[0]), a[1..], b);
    } else {
      assert a + b == b;
    }
  }

  /** Every call, successful or not, keeps the engine coherent. */
  lemma {:induction false} ReplayCoherent(s: EngineState, calls: seq<Logged>)
    requires Coherent(s)
    ensures Coherent(Replay(s, calls))
    decreases |calls|
  {
    if calls != [] {
      var t := Step(s, calls[0]);
      assert Coherent(t);
      ReplayCoherent(t, calls[1..]);
    }
  }

  /** A call that names a target changes the engine's view of that target
      only; initialise and uninitialise are the calls that name none. */
  function Names(call: EngineCall): Option<Addr>
  {
    match call
    case MhCreateHook(t, _) => Some(t)
    case MhEnableHook(t) => Some(t)
    case MhDisableHook(t) => Some(t)
    case MhRemoveHook(t) => Some(t)
    case _ => None
  }

  ghost predicate SameFor(s: EngineState, t: EngineState, u: Addr)
  {
    (u in s.created <==> u in t.created) && (u in s.enabled <==> u in t.enabled)
  }

  /** Calls that all name targets other than `u` leave `u` as it was. */
  lemma {:induction false} ReplayOtherTargets(s: EngineState, calls: seq<Logged>, u: Addr)
    requires forall i :: 0 <= i < |calls| ==> calls[i].0 != MhUninitialize
    requires forall i :: 0 <= i < |calls| ==> Names(calls[i].0) != Some(u)
    ensures SameFor(s, Replay(s, calls), u)
    ensures s.initialized ==> Replay(s, calls).initialized
    decreases |calls|
  {
    if calls != [] {
      var t := Step(s, calls[0]);
      assert SameFor(s, t, u);
      ReplayOtherTargets(t, calls[1..], u);
    }
  }

  /** The engine the DLL links against: its state and the calls made on it. */
  class HookEngine {
    var state: EngineState
    var log: seq<Logged>

    ghost predicate Valid()
      reads this
    {
      Coherent(state)
    }

    constructor()
      ensures Valid() && state == FRESH && log == []
    {
      state := FRESH;
      log := [];
    }

    /** Make one call, whose status is `status`. */
    method Perform(call: EngineCall, status: Status)
      requires Valid()
      modifies this
      ensures Valid()
      ensures log == old(log) + [(call, status)]
      ensures state == Step(old(state), (call, status))
    {
      if status == MhOk {
        state := Effect(state, call);
      }
      log := log + [(call, status)];
    }
  }
}
