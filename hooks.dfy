/** `hooks::Hook`: install one detour through the hook engine, after checking
    its arguments and the target page's protection, and remove the hook
    again when it cannot be enabled. */
module Hooks {
  import opened Machine
  import opened Executable
  import opened MinHook

  /** The variable `ppOriginal` points at: `MH_CreateHook` stores the
      trampoline to the original function there when it succeeds. */
  class OriginalSlot {
    var fn: Addr

    constructor()
      ensures fn == 0
    {
      fn := 0;
    }
  }

  /** What the engine answers to each call `Hook` may make, and the
      trampoline a successful create stores. */
  datatype HookStatuses = HookStatuses(create: Status, trampoline: Addr, enable: Status, remove: Status)

  /** The engine calls `Hook` makes, in order, with their statuses. */
  function HookSteps(query: PageQuery, target: Addr, detour: Addr, st: HookStatuses): (calls: seq<Logged>)
    ensures |calls| <= 3
    ensures forall i :: 0 <= i < |calls| ==> Names(calls[i].0) == Some(target)
  {
    if target == 0 || detour == 0 then []
    else if !PassesHookGate(query, target) then []
    else if st.create != MhOk then [(MhCreateHook(target, detour), st.create)]
    else if st.enable == MhOk then [(MhCreateHook(target, detour), MhOk), (MhEnableHook(target), MhOk)]
    else [(MhCreateHook(target, detour), MhOk), (MhEnableHook(target), st.enable), (MhRemoveHook(target), st.remove)]
  }

  /** The arguments are non-null and the target page is executable. */
  predicate Admitted(query: PageQuery, target: Addr, detour: Addr)
  {
    target != 0 && detour != 0 && PassesHookGate(query, target)
  }

  /** What `*ppOriginal` holds after `Hook`, when it held `prev` before: the
      trampoline when the target was admitted and the create succeeded,
      since only then does the engine write through the pointer. */
  function SlotAfterHook(query: PageQuery, target: Addr, detour: Addr, st: HookStatuses, prev: Addr): Addr
  {
    if Admitted(query, target, detour) && st.create == MhOk then st.trampoline else prev
  }

  /** `Hook(pTarget, pDetour, ppOriginal)`. It returns nothing, so its
      caller cannot tell whether the hook was installed. */
  method Hook(engine: HookEngine, query: PageQuery, target: Addr, detour: Addr, slot: OriginalSlot, st: HookStatuses)
    requires engine.Valid()
    modifies engine, slot
    ensures engine.Valid()
    ensures engine.log == old(engine.log) + HookSteps(query, target, detour, st)
    ensures engine.state == Replay(old(engine.state), HookSteps(query, target, detour, st))
    ensures slot.fn == SlotAfterHook(query, target, detour, st, old(slot.fn))
  {
    ReplayUnfold(engine.state, HookSteps(query, target, detour, st));
    if target == 0 || detour == 0 {
      return;
    }
    if target !in query {
      return;
    }
    if !ExecuteProtection(query[target]) {
      return;
    }
    engine.Perform(MhCreateHook(target, detour), st.create);
    if st.create != MhOk {
      return;
    }
    slot.fn := st.trampoline;
    engine.Perform(MhEnableHook(target), st.enable);
    if st.enable != MhOk {
      engine.Perform(MhRemoveHook(target), st.remove);
      return;
    }
  }

  /** Rejected arguments or a non-executable target lead to no engine call;
      an admitted target always leads to a create call first. */
  lemma HookGate(query: PageQuery, target: Addr, detour: Addr, st: HookStatuses)
    ensures HookSteps(query, target, detour, st) == [] <==> !Admitted(query, target, detour)
    ensures Admitted(query, target, detour) ==>
      HookSteps(query, target, detour, st)[0] == (MhCreateHook(target, detour), st.create)
  {
  }

  /** Enable is called only right after a successful create of the same
      target, and remove only right after that enable failed. */
  lemma HookCallDiscipline(query: PageQuery, target: Addr, detour: Addr, st: HookStatuses)
    ensures var calls := HookSteps(query, target, detour, st);
      forall i :: 0 <= i < |calls| && calls[i].0.MhEnableHook? ==>
        0 < i && calls[i - 1] == (MhCreateHook(target, detour), MhOk)
    ensures var calls := HookSteps(query, target, detour, st);
      forall i :: 0 <= i < |calls| && calls[i].0.MhRemoveHook? ==>
        0 < i && calls[i - 1].0 == MhEnableHook(target) && calls[i - 1].1 != MhOk
  {
  }

  /** What `Hook` leaves behind, on the engine state it started from:
      - after a successful create and enable, the target is hooked and enabled;
      - after a failed enable whose cleanup succeeds, the target has no hook;
      - when nothing is created, the engine is unchanged;
      - other targets and the initialisation flag are never touched. */
  lemma {:induction false} HookOutcome(s: EngineState, query: PageQuery, target: Addr, detour: Addr, st: HookStatuses)
    ensures var t := Replay(s, HookSteps(query, target, detour, st));
      Admitted(query, target, detour) && st.create == MhOk && st.enable == MhOk ==>
        target in t.created && target in t.enabled
    ensures var t := Replay(s, HookSteps(query, target, detour, st));
      Admitted(query, target, detour) && st.create == MhOk && st.enable != MhOk && st.remove == MhOk ==>
        target !in t.created && target !in t.enabled
    ensures !Admitted(query, target, detour) || st.create != MhOk ==>
      Replay(s, HookSteps(query, target, detour, st)) == s
    ensures var t := Replay(s, HookSteps(query, target, detour, st));
      t.initialized == s.initialized && forall u :: u != target ==> SameFor(s, t, u)
  {
    var calls := HookSteps(query, target, detour, st);
    var t := Replay(s, calls);
    ReplayUnfold(s, calls);
    forall u | u != target
      ensures SameFor(s, t, u)
    {
      ReplayOtherTargets(s, calls, u);
    }
  }

  /** `Replay` over at most three calls, written out. */
  lemma ReplayUnfold(s: EngineState, calls: seq<Logged>)
    requires |calls| <= 3
    ensures |calls| == 0 ==> Replay(s, calls) == s
    ensures |calls| == 1 ==> Replay(s, calls) == Step(s, calls[0])
    ensures |calls| == 2 ==> Replay(s, calls) == Step(Step(s, calls[0]), calls[1])
    ensures |calls| == 3 ==> Replay(s, calls) == Step(Step(Step(s, calls[0]), calls[1]), calls[2])
  {
    if |calls| > 0 {
      var s1 := Step(s, calls[0]);
      if |calls| > 1 {
        var s2 := Step(s1, calls[1]);
        assert Replay(s1, calls[1..]) == Replay(s2, calls[2..]);
        if |calls| > 2 {
          assert Replay(s2, calls[2..]) == Replay(Step(s2, calls[2]), calls[3..]);
        }
      }
    }
  }
}
