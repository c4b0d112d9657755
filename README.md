# SecretiveRendering, modelled in Dafny

SecretiveRendering is a DLL that is loaded into a Team Fortress 2 process
(64-bit). It finds two functions inside the Steam overlay module
`gameoverlayrenderer64.dll`, the overlay's own Direct3D 9 `Present` and
`Reset` wrappers, and hooks both with MinHook. Its `Present` detour then
draws an ImGui window that only the local screen shows. The DLL finds the
functions in two steps:

1. a byte-signature scan over the module image, with `?` wildcards;
2. decoding the `LEA RDX, [RIP + disp32]` instruction that sits in front of
   the matched call site.

This project models that core and proves properties of it:

| module (file) | what it models |
|---|---|
| `Machine` (machine.dfy) | 64-bit addresses with wrap-around, and process memory as a partial map from address to byte |
| `Hex` (hex.dfy) | the `getBits`/`getByte` macros that turn two pattern characters into a byte |
| `PatternScan` (pattern_scan.dfy) | the range overload of `FindPattern`, as an imperative loop proved against a functional automaton (`Run`) |
| `ModuleScan` (module_scan.dfy) | the module overload of `FindPattern`: the guard chain and the image range |
| `Executable` (executable.dfy) | `IsValidExecutableAddress` and the protection gate inside `hooks::Hook` |
| `Lea` (lea.dfy) | `ExtractFunctionFromLEA`, with an encoder as its partner |
| `MinHook` (minhook.dfy) | the hook engine, as an abstract state plus a log of calls and the statuses they returned |
| `Hooks` (hooks.dfy) | the `hooks::Hook` wrapper |
| `TF2Config` (config.dfy) | the configured module name, the two signatures and the toggle key |
| `SteamResolver` (steam_resolver.dfy) | `ExtractSteamFunction`: the standard offset -7, then offsets -15 to -3 |
| `Overlay` (overlay.dfy) | the DLL's globals as a class: `hkPresent`, `hkReset`, `hooks::Initialize`, `hooks::Uninitialize` |
| `ProcessCheck` (process_check.dfy) | `ValidateTF2Process`: lower-case the path, take the basename, look for a substring |

OS queries become inputs:

- `VirtualQuery` is a map from address to protection flags (`PageQuery`).
- `GetModuleHandleA` and `GetModuleInformation` are a table of loaded modules (`ModuleTable`).
- The path `GetModuleFileNameA` reports is a string parameter.
- `TestCooperativeLevel` and `GetAsyncKeyState` are fields of a per-frame input (`FrameInput`).
- The status of each MinHook call and the result of the original `Present`/`Reset` are parameters.

The ImGui calls are recorded as events (`Overlay.Event`) instead of being made.

The scanner is modelled as written. Three consequences are proved, because
they differ from reading it as an exact wildcard substring search:

- **Restart without backtracking.** After a mismatch the scanner resets to
  the first token and moves on to the next address. It does not re-try the
  bytes the failed attempt had consumed, so an overlapping occurrence can be
  missed. `PatternScan.NaiveRestartMissesOverlap` shows this: `AA BB` over
  `AA AA BB` returns 0, although the pattern occurs at offset 1.
- **Address 0 doubles as "no match".** `first_match == 0` also means "no
  attempt in progress". A scan that starts at address 0 therefore cannot
  report a match at 0 (`PatternScan.ZeroStartCollision`). Soundness is
  proved for a non-zero start, which is the only case the module overload
  produces: it refuses images below 0x10000.
- **A trailing space after a final hex pair is decided one byte late.**
  After the last pair, the cursor then lands on the terminator. The match
  is only reported at the top of the next iteration, so the range needs one
  byte more room (the `deferred` flag of `PatternScan.Parsed`,
  `PatternScan.ParseTrailingSpace`). A pattern written with single spaces
  and no trailing space is never deferred (`PatternScan.ParseFormatted`),
  even when it ends in `?`.

Other facts the proofs bring out:

- The resolver's final `IsValidExecutableAddress` check never rejects
  anything (`SteamResolver.RevalidationRedundant`).
- Offset -7 is tried twice: first on its own, then again inside the
  fallback range.
- The protection gate in `hooks::Hook` is weaker than the validator, because
  it has no 0x10000 lower bound (`Executable.HookGateAcceptsLowAddress`).
- Neither check accepts `PAGE_EXECUTE_WRITECOPY` on its own.
- `hooks::Hook` returns nothing, and `REGISTER_HOOK` records the target
  whatever the outcome.

## Model

| member | source | states |
|---|---|---|
| Hex.GetBits | SecretiveRendering/findpattern.h:9-10 | the value is below 16; a hex digit of either case gives its index in the digit table; any other character gives 0 |
| Hex.GetByte | SecretiveRendering/findpattern.h:11 | the high nibble is `getBits` of the first character and the low nibble `getBits` of the second; for two hex digits, formatting the byte gives the lower-cased pair back |
| Hex.GetByteIsShiftOr | SecretiveRendering/findpattern.h:11 | the macro's `getBits(x[0]) << 4 \| getBits(x[1])`, computed on 8-bit values, is the same byte |
| Hex.GetByteCaseInsensitive | SecretiveRendering/findpattern.h:10-11 | decoding gives the same byte whatever the letter case of either character |
| Hex.GetByteHexPair | SecretiveRendering/findpattern.h:10-11 | round trip: every byte spelled as two hex digits, upper or lower case, decodes back to itself |
| PatternScan.ParseFrom | SecretiveRendering/findpattern.h:29-42 | the cursor walk yields no tokens exactly when it stands on the terminator, and an empty walk counts as a deferred acceptance |
| PatternScan.ParseFormatted | SecretiveRendering/findpattern.h:17 | round trip: any non-empty token sequence, written as `XX`/`?` separated by single spaces, walks back into exactly those tokens, not deferred |
| PatternScan.ParseTrailingSpace | SecretiveRendering/findpattern.h:29-42 | a written pattern followed by one more space walks into the same tokens, deferred exactly when the last token is a hex pair |
| PatternScan.FormattedScanSound | SecretiveRendering/findpattern.h:20-51 | for a written pattern and a non-zero start, a non-zero result is the first of as many bytes as tokens, inside the range, each accepted by its token |
| PatternScan.FormattedMatchAtStart | SecretiveRendering/findpattern.h:28-40 | a written pattern that matches at a non-zero start and fits in the range is reported there |
| PatternScan.FindPattern | SecretiveRendering/findpattern.h:20-51 | the loop returns what the automaton `Run` returns; a null pattern or an empty range gives 0; a non-zero result from a non-zero start lies in the range, with the whole pattern matching from it |
| PatternScan.LoopStep | SecretiveRendering/findpattern.h:29-47 | one loop iteration (terminator test, byte comparison, early return, cursor step of 3 or 2, reset on mismatch) is one step of the automaton |
| PatternScan.RunSound | SecretiveRendering/findpattern.h:28-50 | when an attempt in progress matches so far, every non-zero result lies before the end with all its tokens matching |
| PatternScan.ScanSound | SecretiveRendering/findpattern.h:20-51 | every result of the range scan is 0 or a full match inside the range (for a non-zero start) |
| PatternScan.RunCompletes | SecretiveRendering/findpattern.h:35-40 | an attempt that started on a full match with room to finish returns that match's start |
| PatternScan.MatchAtStartIsFound | SecretiveRendering/findpattern.h:28-40 | a pattern matching at the first address of the range, with room for its walk, is reported there |
| PatternScan.AllWildcardsFoundAtStart | SecretiveRendering/findpattern.h:35-42 | a pattern made only of `?` is found at the first address whenever the range has room for its walk |
| PatternScan.RunNeedsRoom | SecretiveRendering/findpattern.h:28-50 | an attempt that cannot finish before the end of the range yields 0 |
| PatternScan.ShortRangeNotFound | SecretiveRendering/findpattern.h:28-50 | a range shorter than the pattern's walk never yields a match |
| PatternScan.WildcardScenario | SecretiveRendering/findpattern.h:35-42 | `AA ? CC` over 01 AA BB CC 02 is found one byte in |
| PatternScan.FirstFullMatchScenario | SecretiveRendering/findpattern.h:35-47 | after a partial match fails, the scan goes on and reports the first full match |
| PatternScan.NaiveRestartMissesOverlap | SecretiveRendering/findpattern.h:44-47 | the reset on mismatch does not re-try consumed bytes: `AA BB` matches `AA AA BB` at offset 1, yet the scan returns 0 |
| PatternScan.ZeroStartCollision | SecretiveRendering/findpattern.h:26-37 | from address 0, a one-token pattern that matches at 0 is reported as 0, i.e. not found |
| ModuleScan.ImageRange | SecretiveRendering/findpattern.h:64-80 | a range exists exactly when the module is loaded, its information query succeeds, its base is at least 0x10000 and base plus size neither wraps nor equals the base; the range is [base, base + size) |
| ModuleScan.FindPatternInModule | SecretiveRendering/findpattern.h:59-83 | a null name or pattern, or a failed guard, gives 0; otherwise the result is the range scan of the image; a non-zero result is a full match inside the image |
| Executable.ExecuteProtection | SecretiveRendering/findpattern.h:100 | the mask test holds exactly when one of `PAGE_EXECUTE`, `PAGE_EXECUTE_READ`, `PAGE_EXECUTE_READWRITE` is set |
| Executable.IsValidExecutableAddress | SecretiveRendering/findpattern.h:90-101 | valid exactly when the address is non-zero, at least 0x10000, the query succeeds and the page is executable |
| Executable.ValidatedPassesHookGate | SecretiveRendering/Rendering/basicHook.h:39-48 | an address the validator accepts always passes the wrapper's query-and-protection gate |
| Executable.HookGateAcceptsLowAddress | SecretiveRendering/Rendering/basicHook.h:39-48 | the wrapper's gate accepts an executable page below 0x10000 that the validator refuses |
| Executable.WriteCopyRefused | SecretiveRendering/findpattern.h:100 | `PAGE_EXECUTE_WRITECOPY` alone is not accepted |
| Lea.LeaBytesAreRdxRipRelative | SecretiveRendering/findpattern.h:117-118 | the bytes 48 8D 15 are exactly REX.W, opcode LEA and a ModR/M with mod 00, reg RDX and r/m 101 (RIP-relative) |
| Lea.ExtractFunctionFromLEA | SecretiveRendering/findpattern.h:110-130 | a null pattern address gives 0; a non-zero result is preceded by the 48 8D 15 prefix, equals the address after the 7-byte instruction plus the sign-extended displacement, and is valid executable memory; when all of that holds the result is non-zero |
| Lea.DecodeEncodeDisp | SecretiveRendering/findpattern.h:120 | decoding the four little-endian bytes of any 32-bit displacement gives the displacement back |
| Lea.EncodeDecodeDisp | SecretiveRendering/findpattern.h:120 | encoding the decoding of any four bytes gives the bytes back |
| Lea.DecodeEncodedLea | SecretiveRendering/findpattern.h:115-122 | where the bytes of `LEA RDX, [RIP + d]` sit, the decoder sees the prefix, reads `d` and computes the address past the instruction plus `d` |
| Lea.ExtractEncodedLea | SecretiveRendering/findpattern.h:110-130 | with that LEA at the pattern address minus 7, extraction yields the pattern address plus `d` when that is valid executable memory, and 0 otherwise |
| MinHook.ReplayCoherent | SecretiveRendering/Rendering/basicHook.h:51-63 | whatever calls are made and whatever they return, every enabled hook is a created one |
| MinHook.ReplayOtherTargets | SecretiveRendering/Rendering/basicHook.h:51-63 | create, enable, remove and disable calls on other targets leave a target's hooks as they were, and never un-initialise the engine |
| MinHook.HookEngine.Perform | SecretiveRendering/Rendering/basicHook.h:51-61 | a call is appended to the log and the state takes one step on it |
| Hooks.OriginalSlot.constructor | SecretiveRendering/Rendering/basicHook.cpp:11-12 | the trampoline variable starts out null |
| Hooks.HookSteps | SecretiveRendering/Rendering/basicHook.h:31-66 | at most three engine calls, each naming the target |
| Hooks.Hook | SecretiveRendering/Rendering/basicHook.h:31-66 | the engine log grows by exactly the wrapper's calls, the state is their replay, and the trampoline is stored only when the target is admitted and the create succeeds |
| Hooks.HookGate | SecretiveRendering/Rendering/basicHook.h:33-48 | no engine call is made exactly when a pointer is null, the query fails or the page is not executable; otherwise create comes first |
| Hooks.HookCallDiscipline | SecretiveRendering/Rendering/basicHook.h:51-63 | enable follows only a successful create of the same target, and remove only a failed enable |
| Hooks.HookOutcome | SecretiveRendering/Rendering/basicHook.h:51-63 | create and enable succeed: the target is hooked and enabled; enable fails and remove succeeds: no hook is left; nothing created: engine unchanged; other targets and the initialisation flag are untouched |
| TF2Config.SignatureParse | SecretiveRendering/Rendering/basicHook.h:89-90 | a signature `48 8B ? <byte> 00 00 00 E8` walks into those eight tokens, ending on a byte, not a wildcard |
| TF2Config.PresentPatternParse | SecretiveRendering/Rendering/basicHook.h:89 | the Present signature is the call-site tokens with vtable offset 0x88 |
| TF2Config.ResetPatternParse | SecretiveRendering/Rendering/basicHook.h:90 | the Reset signature is the call-site tokens with vtable offset 0x80 |
| TF2Config.ConfigPatternsParse | SecretiveRendering/Rendering/basicHook.h:88-91 | both signatures have eight tokens, the only wildcard third and the call opcode E8 last, and differ only in the vtable offset |
| SteamResolver.FallbackOffsets | SecretiveRendering/Rendering/basicHook.cpp:40 | thirteen offsets, -15 to -3 in increasing order |
| SteamResolver.FirstDecode | SecretiveRendering/Rendering/basicHook.cpp:40-46 | a non-zero first decode is valid executable memory |
| SteamResolver.FirstDecodeIsFirstSuccess | SecretiveRendering/Rendering/basicHook.cpp:37-46 | the search gives 0 exactly when every offset extracts 0; otherwise it gives the extraction at the first offset that succeeds |
| SteamResolver.TryFallbackOffsets | SecretiveRendering/Rendering/basicHook.cpp:40-46 | the loop returns the first non-zero extraction over -15..-3, or 0 |
| SteamResolver.ExtractSteamFunction | SecretiveRendering/Rendering/basicHook.cpp:26-56 | the method returns the resolver function: 0 when the signature is not found, else the first valid decode in the order -7, -15..-3 |
| SteamResolver.RevalidationRedundant | SecretiveRendering/Rendering/basicHook.cpp:49-52 | once the signature is found, the result is the first decode itself: the final validity check never rejects |
| SteamResolver.ResolveSound | SecretiveRendering/Rendering/basicHook.cpp:26-56 | a non-zero result comes from a found signature, is valid executable memory, and is the first successful extraction in search order; no signature means 0 |
| SteamResolver.StandardOffsetFirst | SecretiveRendering/Rendering/basicHook.cpp:37-38 | when offset -7 decodes, its result is returned |
| SteamResolver.NoLeaNoFunction | SecretiveRendering/Rendering/basicHook.cpp:37-55 | with no LEA prefix at any offset from -15 to -3, the result is 0 |
| Overlay.PresentForwardsOnce | SecretiveRendering/Rendering/basicHook.cpp:61-145 | every Present call forwards to the original exactly once, as its last action |
| Overlay.DeferredInitialization | SecretiveRendering/Rendering/basicHook.cpp:63-73 | a device that is not ready changes nothing and only forwards; a ready device first initialises the UI; without a device nothing is initialised; initialisation is never undone |
| Overlay.ToggleEdge | SecretiveRendering/Rendering/basicHook.cpp:76-83 | the latch follows the key; visibility turns on only on a fresh key press; a fresh press flips it (a shown overlay hides, a hidden one shows unless drawing hides it at once) |
| Overlay.ToggleNeedsFreshPress | SecretiveRendering/Rendering/basicHook.cpp:76-83 | without a fresh press (key up, or still held) visibility stays as it was, unless the frame drawn in this call hides it |
| Overlay.HeldKeyFlipsOnce | SecretiveRendering/Rendering/basicHook.cpp:76-83 | a key held over two frames cannot show the overlay again in the second frame |
| Overlay.DrawGate | SecretiveRendering/Rendering/basicHook.cpp:76-142 | a frame is drawn exactly when the call gets past initialisation, the overlay is initialised and it is visible after the toggle; a failed draw or the hide button leaves it hidden; initialised and still visible afterwards means a frame was drawn |
| Overlay.ResetOrdering | SecretiveRendering/Rendering/basicHook.cpp:150-167 | Reset forwards exactly once and keeps the flags; it releases the device objects exactly when initialised, before forwarding, and recreates them exactly on success when initialised, after forwarding |
| Overlay.ResetRestoresDeviceObjects | SecretiveRendering/Rendering/basicHook.cpp:153-160 | on an initialised overlay, the device objects exist after a Reset exactly when it succeeded |
| Overlay.InitializeRegisters | SecretiveRendering/Rendering/basicHook.cpp:171-217 | failures register nothing; success registers Present then, when found, Reset, both valid executable addresses; Present's hook is always attempted with a create call right after `MH_Initialize`; both resolved functions are admitted by the wrapper, so each slot receives its trampoline whenever the create succeeds |
| Overlay.DisableLoopDisables | SecretiveRendering/Rendering/basicHook.cpp:232-234 | after the teardown loop, no recorded target whose disable succeeded is enabled |
| Overlay.DisableKeepsDisabled | SecretiveRendering/Rendering/basicHook.cpp:232-234 | the teardown loop never enables a target |
| Overlay.UninitializeResets | SecretiveRendering/Rendering/basicHook.cpp:232-237 | a successful `MH_Uninitialize` leaves the engine as it was before any call; with nothing recorded, teardown makes that call only |
| Overlay.OverlayHook.constructor | SecretiveRendering/Rendering/basicHook.cpp:11-18 | at load: not initialised, visible, key released, nothing hooked, both trampolines null |
| Overlay.OverlayHook.HkPresent | SecretiveRendering/Rendering/basicHook.cpp:61-145 | returns the original Present's result; the flags and events are those of the Present step; the hook list is unchanged |
| Overlay.OverlayHook.HkReset | SecretiveRendering/Rendering/basicHook.cpp:150-167 | returns the original Reset's result; the flags are unchanged; the events are those of the Reset step |
| Overlay.OverlayHook.RegisterHook | SecretiveRendering/Rendering/basicHook.cpp:3-4 | the hook is attempted, then the target is appended to the list whatever the outcome |
| Overlay.OverlayHook.Initialize | SecretiveRendering/Rendering/basicHook.cpp:171-217 | the outcome is the module check, then the engine start, then the resolution; the list grows by the registered targets; the engine log and state follow exactly the calls made; `oPresent` and `oReset` hold what their hooks wrote, and are unchanged on every early exit |
| Overlay.OverlayHook.ResolveAndInstall | SecretiveRendering/Rendering/basicHook.cpp:192-210 | both functions are resolved; a missing Present stops before any hook, leaving both slots unchanged; otherwise both hooks are installed, with the slots as the wrapper left them |
| Overlay.OverlayHook.InstallHooks | SecretiveRendering/Rendering/basicHook.cpp:201-210 | Present is registered, then Reset when non-zero; the engine sees exactly those wrapper calls; `oPresent` gets Present's trampoline when admitted and created, `oReset` Reset's likewise, and is unchanged when Reset was not found |
| Overlay.OverlayHook.Uninitialize | SecretiveRendering/Rendering/basicHook.cpp:219-240 | the UI is shut down if initialised and the flag cleared; every recorded target gets one disable call in order, then `MH_Uninitialize`; the list is emptied |
| ProcessCheck.Stored | SecretiveRendering/dllmain.cpp:22-23 | the stored name is a prefix of the path shorter than MAX_PATH: the whole path when it fits, otherwise its first MAX_PATH - 1 characters |
| ProcessCheck.GetModuleFileNameA | SecretiveRendering/dllmain.cpp:23 | the buffer holds the stored name and a terminator; the result is the path length, or MAX_PATH when cut |
| ProcessCheck.LastIndexOf | SecretiveRendering/dllmain.cpp:36-38 | none exactly when the character is absent; otherwise an index holding it with no later occurrence |
| ProcessCheck.HasSubstring | SecretiveRendering/dllmain.cpp:40-42 | true exactly when the needle occurs at some index |
| ProcessCheck.ValidateTF2Process | SecretiveRendering/dllmain.cpp:21-48 | the in-place lower-casing loop and the basename and substring tests give exactly the function `IsTF2Name` of the path |
| ProcessCheck.EmptyPathRejected | SecretiveRendering/dllmain.cpp:25-28 | an empty path, i.e. a zero length, is rejected |
| ProcessCheck.CaseInsensitive | SecretiveRendering/dllmain.cpp:31-33 | the verdict is the same for a path and its lower-cased form |
| ProcessCheck.DirectoryIgnored | SecretiveRendering/dllmain.cpp:36-42 | for a directory and a backslash-free file name that fit the buffer, the verdict is exactly whether the lower-cased file name contains `tf2`, `hl2` or `tf_win64` |
| ProcessCheck.DirectoryNameNotMatched | SecretiveRendering/dllmain.cpp:36-42 | `a.exe` is rejected in any directory, even one named like the game |
| ProcessCheck.NameMatchedAsSubstring | SecretiveRendering/dllmain.cpp:40-42 | a file name containing any case of `tf2`, `hl2` or `tf_win64`, with any prefix and suffix, is accepted |

## Left out

- ImGui drawing (`SecretiveRendering/Rendering/basicHook.cpp:88-136`) is not modelled. The frame is the event `FrameDrawn`, and its outcome (normal, hide button pressed, exception) is an input. Frame-rate text and window layout are out of scope.
- `ImGui_ImplDX9_*`, `ImGui_ImplWin32_*`, `DestroyContext` and `InitializeImgui` are not modelled. They appear only as events.
- MinHook's internals (trampolines, thread suspension, code patching) are not modelled. The engine is an abstract state of created and enabled targets; each call's status is an input, and the engine records the calls.
- `VirtualQuery`, `GetModuleHandleA`, `GetModuleInformation`, `GetModuleFileNameA`, `GetAsyncKeyState` and `TestCooperativeLevel` are inputs (maps, a string, per-frame fields), not OS calls.
- The original `Present` and `Reset` are not called; their results are parameters.
- `DllMain`, the worker thread, `Sleep`, the exit-key loop, `FreeLibraryAndExitThread` and `ValidateSteamOverlay` in `SecretiveRendering/dllmain.cpp` are not part of this model. `ValidateTF2Process` is the only part of that file modelled.
- Logging (`LOGHEX`, console output) and `MessageBoxA` are left out. `ExtractSteamFunction`'s `patternName` only feeds the log and is dropped.
- C++ exceptions in `hooks::Initialize` are modelled as early returns with an `InitOutcome`. An exception escaping ImGui drawing is the `DrawFailed` input.
- Concurrency between the render thread and the unload path is not modelled.
- PatternScan.FindPattern: every read past the pattern's terminator is modelled as reading NUL, although C reads whatever follows the string. This happens for every pattern ending in `?`: `pattern[2]` is then one past the terminator. It also happens for a malformed pattern ending in a lone digit. Memory reads carry a precondition that the bytes are mapped, because an unmapped read faults in the process.
- PatternScan.FindPattern: soundness (`FoundInside`) is stated only for a non-zero start, because address 0 also means "no match" (see `PatternScan.ZeroStartCollision`). The module overload never starts below 0x10000.
- Lea.ExtractFunctionFromLEA: requires the bytes it compares and reads to be mapped, as above. The reads stop at the first mismatching prefix byte, as C's `&&` does.
- ProcessCheck.ValidateTF2Process: requires a path without NUL characters, because Windows paths never contain one. `tolower` is modelled for ASCII in the "C" locale only; non-ASCII and negative `char` values are left unchanged.
- Overlay.DisableCalls: the disable failures are given as a set of addresses, so two disables of the same recorded target always get the same status.
- SteamResolver.RevalidationRedundant: it holds because the page query is one fixed map. Between the two `VirtualQuery` calls of the real process a page's protection could change, and the model does not capture that.
- Hooks.Hook: the null `ppOriginal` case is not modelled, because every caller passes the address of a global.
