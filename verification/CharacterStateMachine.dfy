/** The movement-mechanic state machine: which handler is active, whether a
    requested switch is allowed, and the per-frame dispatch to the handlers. */
module StateMachine {
  import opened CharacterStates
  import opened StateComponents
  import opened Registry

  /** What a call of SetState does, judged on the state before the call. */
  datatype SwitchOutcome =
    | Rejected
    | Switched(handler: StateComponentBase, steps: seq<Event>)

  class CharacterStateMachine {
    /** The character that owns the machine and all its handlers. */
    const character: Character
    /** The configured mechanics, in priority order. */
    var mechanicsHierarchy: seq<CharacterState>
    var debugStateMachine: bool
    var currentEnumState: CharacterState
    var currentState: StateComponentBase?
    var mechanicsList: seq<MechanicStateData>
    var runUpdate: bool
    /** The engine-wide pause signal that setup raises on a bad configuration. */
    var gamePaused: bool

    /** The machine's invariant: the character's counters agree with its
        trace, and the machine is consistent. */
    ghost predicate Valid()
      reads this, character
    {
      character.Valid() && Consistent()
    }

    /** Every registered handler belongs to the character, the current handler
        is the one the registry gives for the current mechanic, and updates run
        only while a handler is active. */
    ghost predicate Consistent()
      reads this
    {
      (forall e | e in mechanicsList :: e.component != null && e.component.owner == character) &&
      (currentState != null ==> currentState == TranslateEnumToState(mechanicsList, currentEnumState)) &&
      (runUpdate ==> currentState != null)
    }

    constructor (character: Character, hierarchy: seq<CharacterState>, debug: bool)
      requires character.Valid()
      ensures Valid()
      ensures this.character == character && mechanicsHierarchy == hierarchy && debugStateMachine == debug
      ensures currentEnumState == DefaultState && currentState == null && !runUpdate
      ensures mechanicsList == [] && !gamePaused
    {
      this.character := character;
      mechanicsHierarchy, debugStateMachine := hierarchy, debug;
      currentEnumState, currentState, runUpdate := DefaultState, null, false;
      mechanicsList, gamePaused := [], false;
    }

    /** The effect SetState(s) has in the current state: rejected when `s` has
        no handler, when the handler's condition fails, or when the handler's
        own table forbids entry from the current mechanic; otherwise the old
        handler exits and the new one enters. */
    ghost function SetStateOutcome(s: CharacterState): SwitchOutcome
      requires Valid()
      reads this, character, ComponentsOf(mechanicsList)
    {
      var target := TranslateEnumToState(mechanicsList, s);
      if target == null || !target.OnSetStateConditionCheck() then Rejected
      else if currentState != null && !target.GetTransitionList()[currentEnumState] then Rejected
      else Switched(target, ExitTraceOf(currentState) + target.EnterTrace())
    }

    /** The machine moved from the state before to the state now as `o` says. */
    twostate predicate Performed(s: CharacterState, o: SwitchOutcome)
      reads this, character
    {
      match o
      case Rejected =>
        currentState == old(currentState) && currentEnumState == old(currentEnumState)
        && runUpdate == old(runUpdate) && character.trace == old(character.trace)
      case Switched(handler, steps) =>
        currentState == handler && currentEnumState == s && runUpdate
        && character.trace == old(character.trace) + steps
    }

    /** A mechanic without a registry entry can never be switched to. */
    lemma UnregisteredRejected(s: CharacterState)
      requires Valid()
      requires forall e | e in mechanicsList :: e.state != s
      ensures SetStateOutcome(s) == Rejected
    {
    }

    /** A registered handler whose condition fails is never entered, and neither
        is one whose own table forbids entry from the current mechanic: it is
        the target's table that decides, not the current handler's. */
    lemma GuardsRejected(s: CharacterState)
      requires Valid()
      ensures var target := TranslateEnumToState(mechanicsList, s);
              target != null && !target.OnSetStateConditionCheck() ==> SetStateOutcome(s) == Rejected
      ensures var target := TranslateEnumToState(mechanicsList, s);
              target != null && currentState != null && !target.GetTransitionList()[currentEnumState]
              ==> SetStateOutcome(s) == Rejected
    {
    }

    /** Conversely, a registered handler whose condition holds and whose own
        table allows entry from the current mechanic is always entered: together
        with GuardsRejected, the target's three guards decide the switch, and
        the current handler's table plays no part. */
    lemma GuardsSuffice(s: CharacterState)
      requires Valid()
      requires var target := TranslateEnumToState(mechanicsList, s);
               target != null && target.OnSetStateConditionCheck()
               && (currentState != null ==> target.GetTransitionList()[currentEnumState])
      ensures SetStateOutcome(s).Switched?
      ensures SetStateOutcome(s).handler == TranslateEnumToState(mechanicsList, s)
    {
    }

    /** A switch enters the registered handler of the requested mechanic, which
        belongs to the character, passed its condition and allows entry from the
        current mechanic. With a current handler, the steps are that handler's
        exit, once, strictly followed by the target's entry, once; from the idle
        machine they are the target's entry alone. */
    lemma {:induction false} SwitchSteps(s: CharacterState)
      requires Valid()
      requires SetStateOutcome(s).Switched?
      ensures var o := SetStateOutcome(s);
              MechanicStateData(s, o.handler) in mechanicsList && o.handler.owner == character
              && o.handler.OnSetStateConditionCheck()
              && (currentState != null ==> o.handler.GetTransitionList()[currentEnumState])
      ensures var o := SetStateOutcome(s);
              currentState != null ==>
                o.steps[0] == Broadcast(Exit, currentState)
                && o.steps[|currentState.ExitTrace()|] == Broadcast(Enter, o.handler)
                && Occurrences(o.steps, Broadcast(Exit, currentState)) == 1
                && Occurrences(o.steps, Broadcast(Enter, o.handler)) == 1
                && Occurrences(o.steps, DashReset) == (if o.handler.resetsDash then 1 else 0)
      ensures var o := SetStateOutcome(s);
              currentState == null ==> o.steps == o.handler.EnterTrace()
    {
      var o := SetStateOutcome(s);
      var target := TranslateEnumToState(mechanicsList, s);
      assert MechanicStateData(s, target) in mechanicsList;
      if currentState != null {
        ExitPrecedesEnter(currentState, o.handler);
      } else {
        assert ExitTraceOf(currentState) == [];
        assert o.steps == [] + o.handler.EnterTrace();
      }
    }

    /** Requesting the current mechanic again, when its handler agrees, is a
        full reset: the same handler exits and then enters again. */
    lemma ReentryIsFullReset()
      requires Valid()
      requires currentState != null && currentState.OnSetStateConditionCheck()
      requires currentState.GetTransitionList()[currentEnumState]
      ensures SetStateOutcome(currentEnumState)
              == Switched(currentState, currentState.ExitTrace() + currentState.EnterTrace())
    {
    }

    method SetState(newStateEnum: CharacterState) returns (ok: bool)
      requires Valid()
      modifies this`currentState, this`currentEnumState, this`runUpdate
      modifies character`fallingResets, character`dashResets, character`trace
      ensures Valid()
      ensures ok == old(SetStateOutcome(newStateEnum)).Switched?
      ensures Performed(newStateEnum, old(SetStateOutcome(newStateEnum)))
    {
      ghost var outcome := SetStateOutcome(newStateEnum);
      ghost var exitSteps := ExitTraceOf(currentState);
      var translatedState := TranslateEnumToState(mechanicsList, newStateEnum);
      if translatedState == null || !translatedState.OnSetStateConditionCheck() {
        assert outcome == Rejected;
        return false;
      }
      ghost var enterSteps := translatedState.EnterTrace();
      if currentState != null {
        if !translatedState.GetTransitionList()[currentEnumState] {
          assert outcome == Rejected;
          return false;
        }
        runUpdate := false;
        currentState.OnExitState();
      }
      assert character.trace == old(character.trace) + exitSteps;
      assert outcome == Switched(translatedState, exitSteps + enterSteps);
      currentState := translatedState;
      currentEnumState := newStateEnum;
      ghost var midTrace := character.trace;
      currentState.OnEnterState();
      assert character.trace == midTrace + enterSteps;
      AppendAssoc(old(character.trace), exitSteps, enterSteps);
      runUpdate := true;
      ok := true;
    }

    method UpdateStateMachine()
      requires Valid()
      modifies character`trace
      ensures Valid()
      ensures character.trace == old(character.trace)
                + (if currentState != null && runUpdate then [Broadcast(Update, currentState)] else [])
                + DebugTrace(Handlers(mechanicsList))
    {
      if currentState != null && runUpdate {
        currentState.OnUpdateState();
      }
      OverrideDebug();
    }

    method SetupStateMachine(attached: map<CharacterState, StateComponentBase>)
      requires Valid()
      requires forall s | s in attached :: attached[s].owner == character
      modifies this`mechanicsList, this`gamePaused
      ensures Valid()
      ensures mechanicsHierarchy == [] ==> mechanicsList == old(mechanicsList) && gamePaused == old(gamePaused)
      ensures mechanicsHierarchy != [] ==> gamePaused == (old(gamePaused) || HasDuplicate(mechanicsHierarchy))
      ensures mechanicsHierarchy != [] ==> mechanicsList == old(mechanicsList) + Resolved(mechanicsHierarchy, attached)
    {
      if mechanicsHierarchy == [] {
        return;
      }
      CheckForDuplicates();
      GetComponentReferences(mechanicsHierarchy, attached);
    }

    method OverrideDebug()
      requires Valid()
      modifies character`trace
      ensures Valid()
      ensures character.trace == old(character.trace) + DebugTrace(Handlers(mechanicsList))
    {
      if mechanicsList == [] {
        return;
      }
      ghost var handlers := Handlers(mechanicsList);
      for i := 0 to |mechanicsList|
        invariant character.Valid()
        invariant character.trace == old(character.trace) + DebugTrace(handlers[..i])
      {
        var mechanic := mechanicsList[i];
        assert mechanic in mechanicsList;
        var component := mechanic.component;
        DebugTraceNext(handlers, i);
        AppendAssoc(old(character.trace), DebugTrace(handlers[..i]),
                    if component.debugMechanic then [HookCalled(Debug, component)] else []);
        if component.GetDebugMechanic() {
          component.OverrideDebug();
        }
      }
      assert handlers[..|mechanicsList|] == handlers;
    }

    method OverrideMovementInput(movement: Vector2d) returns (r: Vector2d)
      ensures currentState == null ==> r == movement
      ensures currentState != null ==> r == currentState.OverrideMovementInput(movement)
    {
      r := movement;
      if currentState != null {
        r := currentState.OverrideMovementInput(r);
      }
    }

    method OverrideAcceleration(speed: real) returns (r: real)
      ensures currentState == null ==> r == speed
      ensures currentState != null ==> r == currentState.OverrideAcceleration(speed)
    {
      r := speed;
      if currentState != null {
        r := currentState.OverrideAcceleration(r);
      }
    }

    method OverrideCameraInput(rotation: Vector2d) returns (r: Vector2d)
      ensures currentState == null ==> r == rotation
      ensures currentState != null ==> r == currentState.OverrideCameraInput(rotation)
    {
      r := rotation;
      if currentState != null {
        r := currentState.OverrideCameraInput(r);
      }
    }

    /** Asks every other registered handler to detect itself, or none: the skip
        test reads only the current handler's table at the current mechanic. */
    method DetectStates()
      requires Valid()
      requires currentState == null ==> debugStateMachine || mechanicsList == []
      modifies character`trace
      ensures Valid()
      ensures currentState == null ==> character.trace == old(character.trace)
      ensures currentState != null ==>
                character.trace == old(character.trace)
                  + (if currentState.GetTransitionList()[currentEnumState]
                     then DetectTrace(Handlers(mechanicsList), currentState) else [])
    {
      if currentState == null && debugStateMachine {
        return;
      }
      ghost var handlers := Handlers(mechanicsList);
      ghost var asked := currentState != null && currentState.canTransitionFromStateList[currentEnumState];
      for i := 0 to |mechanicsList|
        invariant character.Valid()
        invariant character.trace == old(character.trace) + (if asked then DetectTrace(handlers[..i], currentState) else [])
      {
        var mechanic := mechanicsList[i];
        assert mechanic in mechanicsList;
        var component := mechanic.component;
        DetectTraceNext(handlers, currentState, i);
        AppendAssoc(old(character.trace), DetectTrace(handlers[..i], currentState),
                    if component != currentState then [HookCalled(DetectState, component)] else []);
        if currentState == component || !currentState.GetTransitionList()[currentEnumState] {
          continue;
        }
        component.OverrideDetectState();
      }
      assert handlers[..|mechanicsList|] == handlers;
    }

    /** The detection skip test reads the current handler's entry for its own
        mechanic, never the candidate's table: a registered candidate whose own
        table forbids entry from the current mechanic is still asked to detect
        whenever the current handler's entry is true. */
    lemma DetectIgnoresCandidateTable(candidate: StateComponentBase)
      requires Valid() && currentState != null
      requires currentState.GetTransitionList()[currentEnumState]
      requires candidate in Handlers(mechanicsList) && candidate != currentState
      requires !candidate.GetTransitionList()[currentEnumState]
      ensures HookCalled(DetectState, candidate) in DetectTrace(Handlers(mechanicsList), currentState)
    {
      DetectTraceMembers(Handlers(mechanicsList), currentState);
    }

    method ManualExitState()
      requires Valid()
      modifies this`currentState, this`currentEnumState, this`runUpdate
      modifies character`fallingResets, character`dashResets, character`trace
      ensures Valid()
      ensures old(currentState) == null ==> Performed(DefaultState, Rejected)
      ensures old(currentState) != null ==> Performed(DefaultState, old(SetStateOutcome(DefaultState)))
    {
      if currentState != null {
        var _ := SetState(DefaultState);
      }
    }

    method GetComponentReferences(hierarchy: seq<CharacterState>, attached: map<CharacterState, StateComponentBase>)
      requires Valid()
      requires forall s | s in attached :: attached[s].owner == character
      modifies this`mechanicsList
      ensures Valid()
      ensures mechanicsList == old(mechanicsList) + Resolved(hierarchy, attached)
    {
      for i := 0 to |hierarchy|
        invariant Valid()
        invariant mechanicsList == old(mechanicsList) + Resolved(hierarchy[..i], attached)
      {
        var state := hierarchy[i];
        assert hierarchy[..i + 1][..i] == hierarchy[..i];
        if state in attached {
          var entry := MechanicStateData(state, attached[state]);
          TranslateAppend(mechanicsList, [entry], currentEnumState);
          mechanicsList := mechanicsList + [entry];
        }
      }
      assert hierarchy[..|hierarchy|] == hierarchy;
    }

    method CheckForDuplicates()
      requires Valid()
      modifies this`gamePaused
      ensures Valid()
      ensures gamePaused == (old(gamePaused) || HasDuplicate(mechanicsHierarchy))
    {
      var uniqueStates: set<CharacterState> := {};
      for i := 0 to |mechanicsHierarchy|
        invariant uniqueStates == set j | 0 <= j < i :: mechanicsHierarchy[j]
        invariant !HasDuplicate(mechanicsHierarchy[..i])
      {
        var state := mechanicsHierarchy[i];
        if state in uniqueStates {
          var j :| 0 <= j < i && mechanicsHierarchy[j] == state;
          assert mechanicsHierarchy[j] == mechanicsHierarchy[i];
          gamePaused := true;
          return;
        }
        uniqueStates := uniqueStates + {state};
      }
      assert mechanicsHierarchy[..|mechanicsHierarchy|] == mechanicsHierarchy;
    }

    function IsThisCurrentState(component: StateComponentBase): (current: bool)
      requires Valid()
      reads this, character
      ensures current <==> currentState == component
      ensures current ==> MechanicStateData(currentEnumState, component) in mechanicsList
    {
      currentState == component
    }

    function IsCurrentStateNull(): (none: bool)
      requires Valid()
      reads this, character
      ensures none <==> currentState == null
      ensures none ==> !runUpdate
    {
      currentState == null
    }

    function GetCurrentState(): (h: StateComponentBase?)
      requires Valid()
      reads this, character
      ensures h == currentState
      ensures h != null ==> MechanicStateData(currentEnumState, h) in mechanicsList && h.owner == character
    {
      currentState
    }

    function GetCurrentEnumState(): (s: CharacterState)
      requires Valid()
      reads this, character
      ensures s == currentEnumState
      ensures currentState != null ==> TranslateEnumToState(mechanicsList, s) == currentState
    {
      currentEnumState
    }
  }

  /** The handlers of the example configuration, all owned by `character`:
      Sliding refuses entry from WallClimbing, WallClimbing allows every entry. */
  method ExampleHandlers(character: Character) returns (default: StateComponentBase,
                                                        sliding: StateComponentBase, climbing: StateComponentBase)
    ensures fresh(default) && fresh(sliding) && fresh(climbing) && sliding != climbing
    ensures default.owner == character && sliding.owner == character && climbing.owner == character
    ensures sliding.conditionCheck == BaseCheck && climbing.conditionCheck == BaseCheck
    ensures !sliding.canTransitionFromStateList[WallClimbing] && climbing.canTransitionFromStateList[Sliding]
  {
    default := new StateComponentBase(character);
    sliding := new StateComponentBase(character);
    climbing := new StateComponentBase(character);
    sliding.SetTransitionAllowed(WallClimbing, false);
  }

  /** The example configuration set up on an idle machine: DefaultState,
      Sliding and WallClimbing, each with its handler. */
  method ExampleMachine(character: Character, default: StateComponentBase, sliding: StateComponentBase,
                        climbing: StateComponentBase) returns (machine: CharacterStateMachine)
    requires character.Valid()
    requires default.owner == character && sliding.owner == character && climbing.owner == character
    ensures fresh(machine) && machine.character == character
    ensures machine.Valid() && machine.currentState == null
    ensures TranslateEnumToState(machine.mechanicsList, Sliding) == sliding
    ensures TranslateEnumToState(machine.mechanicsList, WallClimbing) == climbing
  {
    var hierarchy := [DefaultState, Sliding, WallClimbing];
    machine := new CharacterStateMachine(character, hierarchy, false);
    var attached := map[DefaultState := default, Sliding := sliding, WallClimbing := climbing];
    machine.SetupStateMachine(attached);
    assert machine.mechanicsList == Resolved(hierarchy, attached);
    assert hierarchy[1] == Sliding && hierarchy[2] == WallClimbing;
    ResolvedLookup(hierarchy, attached, Sliding);
    ResolvedLookup(hierarchy, attached, WallClimbing);
  }

  /** The switching sequence of the example configuration: Sliding is entered
      from the idle machine, WallClimbing from Sliding, and the way back to
      Sliding is refused, leaving WallClimbing active. */
  method ExampleScenario() returns (first: bool, second: bool, third: bool, final: CharacterState)
    ensures first && second && !third && final == WallClimbing
  {
    var character := new Character();
    var default, sliding, climbing := ExampleHandlers(character);
    var machine := ExampleMachine(character, default, sliding, climbing);
    first := machine.SetState(Sliding);
    assert machine.currentEnumState == Sliding;
    second := machine.SetState(WallClimbing);
    assert machine.currentState == climbing && machine.currentEnumState == WallClimbing;
    third := machine.SetState(Sliding);
    final := machine.GetCurrentEnumState();
  }
}
