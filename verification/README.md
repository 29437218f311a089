# Character state machine — a Dafny model

This project models the movement-mechanic state machine of a third-person
character: `UCharacterStateMachine` and the handler base class
`UStateComponentBase` it drives.

A character owns one handler per movement mechanic: sliding, wall climbing,
wall running or air dashing, plus a default state. The machine keeps:

- a registry of (mechanic, handler) pairs, built at setup from a configured
  hierarchy of mechanics;
- the current mechanic and its handler;
- a flag that gates per-frame updates.

A request to switch mechanics is rejected in three cases:

- the mechanic has no handler;
- the handler's entry condition fails;
- the target handler's own permission table forbids entry from the current
  mechanic.

Otherwise the old handler exits and the new one enters. Exit and entry reset
the character's fall and dash state according to the handler's flags.

The model has four modules:

- `CharacterStates` (`CharacterStates.dfy`): the mechanic enumeration, and
  the conversion of a mechanic to its short name by splitting the reflected
  `ECharacterState::Name` string at `::`.
- `StateComponents` (`StateComponentBase.dfy`): the handler class with its
  permission table, flags and lifecycle hooks. It also holds the owning
  character, reduced to its two reset counters and a ghost trace. The trace
  records, in order, every broadcast, hook call and reset the hooks perform.
- `Registry` (`MechanicRegistry.dfy`): the registry entries, the lookup of a
  mechanic's handler, the registry that setup derives from the hierarchy,
  and the order in which the detection and debug fan-outs call handlers.
- `StateMachine` (`CharacterStateMachine.dfy`): the machine class.
  - `SetState` is proved against a ghost specification, `SetStateOutcome`.
    It gives, judged on the state before the call, whether the switch is
    rejected, or which handler is entered and which steps happen on the
    character.
  - The other operations are proved against the trace.
  - The example configuration `[DefaultState, Sliding, WallClimbing]` is
    played through as a method. In it, Sliding refuses entry from
    WallClimbing.

Environment parts become parameters or fields:

- Handler lookup by component name on the owning actor becomes a map from
  mechanic to handler, passed to `SetupStateMachine`.
- The engine's global pause becomes the machine field `gamePaused`.
- A derived handler's entry condition becomes the handler field
  `conditionCheck`. `BaseCheck` is the base class's answer, and
  `Overridden(v)` is a derived class's verdict for the current world.
- Script-side delegate broadcasts become trace events.

A duplicate mechanic in the hierarchy raises the pause signal, and setup then
still resolves and appends every entry (CharacterStateMachine.cpp:94-95 and
217-218). The model does the same.

## Model

| member | source | states |
|---|---|---|
| CharacterStates.AllStates | CharacterStateMachine.h:19-27 | The enumeration has exactly five members, listed in declaration order, and every member occurs at its ordinal. |
| CharacterStates.EnumToString | CharacterStateMachine.cpp:169-184 | Splitting the reflected `ECharacterState::<member>` string at `::` and taking the second piece yields exactly the member's declared name. |
| CharacterStates.SplitQualified | CharacterStateMachine.cpp:175 | Splitting a qualified name `p::n` whose halves have no separator gives exactly the two halves. |
| CharacterStates.EnumToStringInjective | CharacterStateMachine.cpp:191 | Distinct mechanics have distinct short names, so a lookup by name is a lookup by mechanic. |
| Registry.DefaultMechanicStateData | CharacterStateMachine.h:41-43 | A default entry is (DefaultState, null). |
| Registry.TranslateEnumToState | CharacterStateMachine.cpp:224-238 | Returns the handler of the first entry whose mechanic is the requested one, and null when no entry has that mechanic; a non-null result is registered under that mechanic. |
| Registry.TranslateAppend | CharacterStateMachine.cpp:186-202 | Appending entries never changes a lookup that already succeeds; a failing lookup continues in the appended entries. |
| Registry.ResolvedEntries | CharacterStateMachine.cpp:186-202 | The registry built from a hierarchy holds exactly the configured and attached mechanics, each with its attached handler. |
| Registry.ResolvedInOrder | CharacterStateMachine.cpp:186-202 | When every configured mechanic is attached, the registry has one entry per configured mechanic, in hierarchy order. |
| Registry.ResolvedLookup | CharacterStateMachine.cpp:186-202 | Looking a mechanic up in the built registry finds the attached handler when the mechanic is configured and attached, and nothing otherwise; an unresolved mechanic leaves the others intact. |
| Registry.ResolvedUnique | CharacterStateMachine.cpp:204-222 | Without duplicates in the hierarchy, the built registry has at most one entry per mechanic. |
| Registry.DetectTraceMembers | CharacterStateMachine.cpp:144-151 | The detection fan-out only calls detection hooks, and calls one on a handler exactly when it is registered and is not the current handler: a mechanic never detects itself. |
| Registry.DebugTraceMembers | CharacterStateMachine.cpp:102-105 | The debug fan-out only calls debug hooks, and calls one on a handler exactly when it is registered and its debug flag is set. |
| StateComponents.StateComponentBase.constructor | StateComponentBase.cpp:14-31 | A new handler's table has an entry for every mechanic, each allowing entry (the engine's MAX sentinel is not a mechanic); the three flags are false and the condition is the base check. |
| StateComponents.StateComponentBase.SetTransitionAllowed | StateComponentBase.h:37-39 | Editing one value of the fixed-size table changes only that value; the table stays total by its type. |
| StateComponents.StateComponentBase.OnSetStateConditionCheck | StateComponentBase.cpp:55-58 | The base check always agrees. |
| StateComponents.StateComponentBase.OnEnterState | StateComponentBase.cpp:60-65 | Broadcasts entry first, then resets falling if and only if the handler does not count towards falling, then resets the dash if and only if it resets the dash. |
| StateComponents.StateComponentBase.OnUpdateState | StateComponentBase.cpp:67-70 | Only broadcasts the update; the counters are unchanged. |
| StateComponents.StateComponentBase.OnExitState | StateComponentBase.cpp:72-76 | Broadcasts exit, then resets falling if and only if the handler does not count towards falling; never resets the dash. |
| StateComponents.StateComponentBase.OverrideMovementInput | StateComponentBase.cpp:78-80 | The base override leaves the movement vector unchanged. |
| StateComponents.StateComponentBase.OverrideAcceleration | StateComponentBase.cpp:82-84 | The base override leaves the speed unchanged. |
| StateComponents.StateComponentBase.OverrideCameraInput | StateComponentBase.cpp:86-88 | The base override leaves the rotation vector unchanged. |
| StateComponents.StateComponentBase.OverrideDetectState | StateComponentBase.cpp:90-92 | The base detection hook does nothing beyond being called. |
| StateComponents.StateComponentBase.OverrideDebug | StateComponentBase.cpp:94-96 | The base debug hook does nothing beyond being called. |
| StateComponents.StateComponentBase.DoesItCountTowardsFalling | StateComponentBase.h:87 | True exactly when leaving the mechanic performs no fall reset. |
| StateComponents.StateComponentBase.DoesItResetDash | StateComponentBase.h:88 | True exactly when entering the mechanic performs a dash reset. |
| StateComponents.StateComponentBase.GetDebugMechanic | StateComponentBase.h:89 | Returns the debug flag unchanged. |
| StateComponents.StateComponentBase.GetTransitionList | StateComponentBase.h:90 | A copy of the table that answers for every mechanic with the handler's own value. |
| StateComponents.ExitPrecedesEnter | StateComponentBase.cpp:60-76 | In a switch from one handler to another, the exit broadcast comes first and the entry broadcast directly after the exit steps, once each; only entry resets the dash; each side resets falling once unless it counts towards falling. |
| StateMachine.CharacterStateMachine.constructor | CharacterStateMachine.h:98-114 | A new machine is idle: current mechanic DefaultState, no current handler, updates off, empty registry, not paused. |
| StateMachine.CharacterStateMachine.UnregisteredRejected | CharacterStateMachine.cpp:35-52 | A mechanic with no registry entry can never be switched to. |
| StateMachine.CharacterStateMachine.GuardsRejected | CharacterStateMachine.cpp:38-56 | A switch is rejected when the target's condition fails, and when the target's own table forbids entry from the current mechanic. |
| StateMachine.CharacterStateMachine.GuardsSuffice | CharacterStateMachine.cpp:35-72 | A registered target whose condition holds and whose own table allows entry from the current mechanic is always switched to; with GuardsRejected, the target's guards decide the switch and the current handler's table plays no part. |
| StateMachine.CharacterStateMachine.SwitchSteps | CharacterStateMachine.cpp:54-72 | A switch enters the registered handler of the requested mechanic: one owned by the character, whose condition holds and whose table allows entry from the current mechanic. With a current handler, that handler's exit comes first, once, and the target's entry follows, once; from the idle machine the steps are the target's entry alone. |
| StateMachine.CharacterStateMachine.ReentryIsFullReset | CharacterStateMachine.cpp:54-72 | Requesting the current mechanic again, when its handler agrees, exits and re-enters the same handler. |
| StateMachine.CharacterStateMachine.SetState | CharacterStateMachine.cpp:33-73 | Returns true exactly when the switch is allowed. A rejected switch leaves the current handler, mechanic, update flag and character untouched. A successful one makes the target current under the requested mechanic, turns updates on and performs the exit and entry steps in order. The machine invariant is kept. |
| StateMachine.CharacterStateMachine.UpdateStateMachine | CharacterStateMachine.cpp:75-82 | Broadcasts an update on the current handler exactly when there is one and updates are on, then runs the debug fan-out. |
| StateMachine.CharacterStateMachine.SetupStateMachine | CharacterStateMachine.cpp:84-96 | An empty hierarchy changes nothing. Otherwise setup pauses if and only if the hierarchy repeats a mechanic, and then appends the registry built from the hierarchy to the existing entries, even after pausing. |
| StateMachine.CharacterStateMachine.OverrideDebug | CharacterStateMachine.cpp:98-106 | Calls the debug hook of each registered handler whose debug flag is set, in registry order, and nothing else. |
| StateMachine.CharacterStateMachine.OverrideMovementInput | CharacterStateMachine.cpp:110-116 | Without a current handler the vector is unchanged; otherwise it is the current handler's override. |
| StateMachine.CharacterStateMachine.OverrideAcceleration | CharacterStateMachine.cpp:118-124 | Without a current handler the speed is unchanged; otherwise it is the current handler's override. |
| StateMachine.CharacterStateMachine.OverrideCameraInput | CharacterStateMachine.cpp:126-132 | Without a current handler the vector is unchanged; otherwise it is the current handler's override. |
| StateMachine.CharacterStateMachine.DetectStates | CharacterStateMachine.cpp:136-152 | Without a current handler, calls nothing. With one, the skip test reads only the current handler's table, so either every other registered handler is asked to detect, in registry order, or none is. |
| StateMachine.CharacterStateMachine.DetectIgnoresCandidateTable | CharacterStateMachine.cpp:144-151 | When the current handler's entry for its own mechanic is true, every other registered handler is asked to detect, even one whose own table forbids entry from the current mechanic. |
| StateMachine.CharacterStateMachine.ManualExitState | CharacterStateMachine.cpp:157-163 | A no-op without a current handler; otherwise exactly a request to switch to DefaultState, including its rejections. |
| StateMachine.CharacterStateMachine.GetComponentReferences | CharacterStateMachine.cpp:186-202 | Appends, in hierarchy order, one entry per mechanic that resolves to a handler, skips the others and keeps the earlier entries. |
| StateMachine.CharacterStateMachine.CheckForDuplicates | CharacterStateMachine.cpp:204-222 | Raises the pause signal if and only if some mechanic occurs twice in the hierarchy. |
| StateMachine.CharacterStateMachine.IsThisCurrentState | CharacterStateMachine.h:80 | True exactly when the given handler is the current one, by identity; it is then registered under the current mechanic. |
| StateMachine.CharacterStateMachine.IsCurrentStateNull | CharacterStateMachine.h:81 | True exactly when there is no current handler, and then updates are off. |
| StateMachine.CharacterStateMachine.GetCurrentState | CharacterStateMachine.h:84 | Returns the current handler, which, when present, is registered under the current mechanic and belongs to the character. |
| StateMachine.CharacterStateMachine.GetCurrentEnumState | CharacterStateMachine.h:87 | Returns the current mechanic, under which the current handler, when present, is the one registered. |
| StateMachine.ExampleMachine | CharacterStateMachine.cpp:84-96 | Setting up `[DefaultState, Sliding, WallClimbing]` registers the attached handlers under their mechanics on an idle machine. |
| StateMachine.ExampleScenario | CharacterStateMachine.cpp:33-73 | In the example configuration, Sliding is entered from the idle machine, then WallClimbing from Sliding. The way back to Sliding is refused, and WallClimbing stays current. |

## Left out

- `RotateVector` and the two `LineTraceSingle` overloads: floating-point
  rotation and engine world queries.
- `BeginPlay`, `TickComponent` and the engine parts of both constructors:
  engine lifecycle glue.
- The on-screen debug messages, `DebugText` and `UE_LOG` output. These are
  diagnostics only, so neither the messages nor the `GEngine` null tests
  guarding them are modelled.
- The UEnum reflection in the handler constructor. The loop runs over the
  Dafny enumeration instead, and the engine's trailing MAX sentinel is not
  part of it.
- `FComponentReference::GetComponent` and `Cast`. The lookup of a handler by
  its component name is an injected map from mechanic to handler;
  `EnumToStringInjective` shows that this lookup by name is a lookup by
  mechanic.
- Delegate broadcast internals, and what scripts bound to the delegates do.
  A broadcast is a trace event.
- The behaviour of derived handlers:
  - Their entry conditions are the field `conditionCheck`.
  - Their detection hooks are modelled as the base hook. A derived hook that
    itself switches state, and the detection loop then seeing a new current
    handler, is not modelled.
  - Their movement, acceleration and camera overrides are the base identity.
- The values of vectors and speeds. They are opaque, because every base
  override is the identity.
- The character's own movement state, and what its `ResetFalling` and
  `ResetDash` do. The character is reduced to one counter per reset and the
  trace.
- `DetectStates` dereferences a null current handler when debugging is off
  and the registry is not empty. This is a precondition of the model rather
  than a modelled crash.
- The edit-time restriction that the table's key set is fixed is a type
  invariant, `TransitionTable`, rather than a run-time check.
- DetectStates: does not keep the promise of StateComponentBase.h:80-82 that
  a mechanic whose table prohibits entry from the current mechanic is not
  asked to detect. The skip test at CharacterStateMachine.cpp:146 reads the
  current handler's entry for its own mechanic, so such a candidate is still
  asked; the model follows the code, and `DetectIgnoresCandidateTable` shows
  the candidate being asked.
