/** A mechanic handler: its permission table ("from which mechanics may this one
    be entered"), its behaviour flags, and the lifecycle and override hooks the
    state machine calls. The owning character is abstracted to the two resets the
    hooks perform on it and to a ghost trace of everything the hooks did, in
    order. */
module StateComponents {
  import opened CharacterStates

  /** The three lifecycle broadcasts a handler makes to its script-side
      observers. */
  datatype Lifecycle = Enter | Update | Exit

  /** The hooks the base handler leaves empty and the state machine calls. */
  datatype Hook = DetectState | Debug

  /** One observable step on the character: a broadcast, a call of an empty
      hook, or one of the two resets. */
  datatype Event =
    | Broadcast(phase: Lifecycle, source: StateComponentBase)
    | HookCalled(hook: Hook, target: StateComponentBase)
    | FallingReset
    | DashReset

  /** How often `e` occurs in `trace`. */
  function Occurrences(trace: seq<Event>, e: Event): (n: nat)
    ensures n <= |trace|
  {
    if trace == [] then 0
    else Occurrences(trace[..|trace| - 1], e) + (if trace[|trace| - 1] == e then 1 else 0)
  }

  /** Counting distributes over concatenation. */
  lemma {:induction false} OccurrencesConcat(a: seq<Event>, b: seq<Event>, e: Event)
    ensures Occurrences(a + b, e) == Occurrences(a, e) + Occurrences(b, e)
    decreases |b|
  {
    if b == [] {
      assert a + b == a;
    } else {
      var b' := b[..|b| - 1];
      assert (a + b)[..|a + b| - 1] == a + b';
      OccurrencesConcat(a, b', e);
    }
  }

  /** Regrouping a trace that grows by two pieces. */
  lemma AppendAssoc(a: seq<Event>, b: seq<Event>, c: seq<Event>)
    ensures a + (b + c) == a + b + c
  {
  }

  /** The character that owns the handlers. Only the two resets the handlers
      perform are modelled, as counters; `trace` records every step in order. */
  class Character {
    var fallingResets: nat
    var dashResets: nat
    ghost var trace: seq<Event>

    /** The counters agree with the trace. */
    ghost predicate Valid()
      reads this
    {
      fallingResets == Occurrences(trace, FallingReset) &&
      dashResets == Occurrences(trace, DashReset)
    }

    constructor ()
      ensures Valid() && trace == [] && fallingResets == 0 && dashResets == 0
    {
      fallingResets, dashResets := 0, 0;
      trace := [];
    }

    method ResetFalling()
      requires Valid()
      modifies this`fallingResets, this`trace
      ensures Valid() && trace == old(trace) + [FallingReset]
      ensures fallingResets == old(fallingResets) + 1 && dashResets == old(dashResets)
    {
      OccurrencesConcat(trace, [FallingReset], FallingReset);
      OccurrencesConcat(trace, [FallingReset], DashReset);
      fallingResets := fallingResets + 1;
      trace := trace + [FallingReset];
    }

    method ResetDash()
      requires Valid()
      modifies this`dashResets, this`trace
      ensures Valid() && trace == old(trace) + [DashReset]
      ensures dashResets == old(dashResets) + 1 && fallingResets == old(fallingResets)
    {
      OccurrencesConcat(trace, [DashReset], FallingReset);
      OccurrencesConcat(trace, [DashReset], DashReset);
      dashResets := dashResets + 1;
      trace := trace + [DashReset];
    }

    /** Records a broadcast or a hook call; neither touches the counters. */
    ghost method Record(e: Event)
      requires Valid() && (e.Broadcast? || e.HookCalled?)
      modifies this`trace
      ensures Valid() && trace == old(trace) + [e]
    {
      OccurrencesConcat(trace, [e], FallingReset);
      OccurrencesConcat(trace, [e], DashReset);
      trace := trace + [e];
    }
  }

  /** The verdict of a handler's entry condition: the base check, or the verdict
      a derived mechanic's override gives for the world as it currently is. */
  datatype ConditionCheck = BaseCheck | Overridden(verdict: bool)

  /** A two-component input vector; its contents play no part in the model. */
  datatype Vector2d = Vector2d(x: real, y: real)

  /** The exit steps of `h`, or none when there is no handler. */
  ghost function ExitTraceOf(h: StateComponentBase?): seq<Event>
    reads h
  {
    if h == null then [] else h.ExitTrace()
  }

  /** A permission table: its keys are fixed to one per mechanic, so it answers
      for every mechanic. */
  type TransitionTable = m: map<CharacterState, bool> | forall s: CharacterState :: s in m
    witness AllAllowed()

  /** The table allowing entry from every mechanic. */
  function AllAllowed(): (m: map<CharacterState, bool>)
    ensures forall s: CharacterState :: s in m && m[s]
  {
    var states := AllStates();
    assert forall s: CharacterState :: s in states by {
      forall s: CharacterState ensures s in states {
        assert states[Ordinal(s)] == s;
      }
    }
    map s | s in states :: true
  }

  class StateComponentBase {
    const owner: Character
    /** For every mechanic, whether this one may be entered from it. */
    var canTransitionFromStateList: TransitionTable
    var countTowardsFalling: bool
    var resetsDash: bool
    var debugMechanic: bool
    var conditionCheck: ConditionCheck

    /** Every mechanic gets an entry, and every entry allows the transition. */
    constructor (owner: Character)
      ensures this.owner == owner
      ensures forall s: CharacterState :: canTransitionFromStateList[s]
      ensures !countTowardsFalling && !resetsDash && !debugMechanic
      ensures conditionCheck == BaseCheck
    {
      var table: map<CharacterState, bool> := map[];
      var states := AllStates();
      for i := 0 to |states|
        invariant forall s: CharacterState :: s in table <==> s in states[..i]
        invariant forall s | s in table :: table[s]
      {
        table := table[states[i] := true];
      }
      assert states[..|states|] == states;
      forall s: CharacterState ensures s in table {
        assert states[Ordinal(s)] == s;
      }
      this.owner := owner;
      canTransitionFromStateList := table;
      countTowardsFalling, resetsDash, debugMechanic := false, false, false;
      conditionCheck := BaseCheck;
    }

    /** Editing one value of the fixed-size table: the keys stay the same. */
    method SetTransitionAllowed(from: CharacterState, allowed: bool)
      modifies this`canTransitionFromStateList
      ensures canTransitionFromStateList == old(canTransitionFromStateList)[from := allowed]
    {
      canTransitionFromStateList := canTransitionFromStateList[from := allowed];
    }

    /** The steps entering this mechanic performs on the owner, in order. */
    ghost function EnterTrace(): seq<Event>
      reads this
    {
      [Broadcast(Enter, this)]
        + (if !countTowardsFalling then [FallingReset] else [])
        + (if resetsDash then [DashReset] else [])
    }

    /** The steps leaving this mechanic performs on the owner, in order. */
    ghost function ExitTrace(): seq<Event>
      reads this
    {
      [Broadcast(Exit, this)] + (if !countTowardsFalling then [FallingReset] else [])
    }

    /** Whether the mechanic may be entered now; the base check always agrees. */
    function OnSetStateConditionCheck(): (ok: bool)
      reads this
      ensures conditionCheck == BaseCheck ==> ok
    {
      match conditionCheck
      case BaseCheck => true
      case Overridden(verdict) => verdict
    }

    method OnEnterState()
      requires owner.Valid()
      modifies owner`fallingResets, owner`dashResets, owner`trace
      ensures owner.Valid() && owner.trace == old(owner.trace) + EnterTrace()
      ensures owner.fallingResets == old(owner.fallingResets) + (if countTowardsFalling then 0 else 1)
      ensures owner.dashResets == old(owner.dashResets) + (if resetsDash then 1 else 0)
    {
      owner.Record(Broadcast(Enter, this));
      if !countTowardsFalling {
        owner.ResetFalling();
      }
      if resetsDash {
        owner.ResetDash();
      }
    }

    method OnUpdateState()
      requires owner.Valid()
      modifies owner`trace
      ensures owner.Valid() && owner.trace == old(owner.trace) + [Broadcast(Update, this)]
    {
      owner.Record(Broadcast(Update, this));
    }

    method OnExitState()
      requires owner.Valid()
      modifies owner`fallingResets, owner`dashResets, owner`trace
      ensures owner.Valid() && owner.trace == old(owner.trace) + ExitTrace()
      ensures owner.fallingResets == old(owner.fallingResets) + (if countTowardsFalling then 0 else 1)
      ensures owner.dashResets == old(owner.dashResets)
    {
      owner.Record(Broadcast(Exit, this));
      if !countTowardsFalling {
        owner.ResetFalling();
      }
    }

    function OverrideMovementInput(movement: Vector2d): (r: Vector2d)
      ensures r == movement
    {
      movement
    }

    function OverrideAcceleration(speed: real): (r: real)
      ensures r == speed
    {
      speed
    }

    function OverrideCameraInput(rotation: Vector2d): (r: Vector2d)
      ensures r == rotation
    {
      rotation
    }

    /** The base detection hook does nothing; the call itself is recorded. */
    method OverrideDetectState()
      requires owner.Valid()
      modifies owner`trace
      ensures owner.Valid() && owner.trace == old(owner.trace) + [HookCalled(DetectState, this)]
    {
      owner.Record(HookCalled(DetectState, this));
    }

    /** The base debug hook does nothing; the call itself is recorded. */
    method OverrideDebug()
      requires owner.Valid()
      modifies owner`trace
      ensures owner.Valid() && owner.trace == old(owner.trace) + [HookCalled(Debug, this)]
    {
      owner.Record(HookCalled(Debug, this));
    }

    function DoesItCountTowardsFalling(): (counts: bool)
      reads this
      ensures counts <==> FallingReset !in ExitTrace()
    {
      countTowardsFalling
    }

    function DoesItResetDash(): (resets: bool)
      reads this
      ensures resets <==> DashReset in EnterTrace()
    {
      resetsDash
    }

    function GetDebugMechanic(): (debug: bool)
      reads this
      ensures debug == debugMechanic
    {
      debugMechanic
    }

    /** A copy of the permission table; it answers for every mechanic. */
    function GetTransitionList(): (table: map<CharacterState, bool>)
      reads this
      ensures forall s: CharacterState :: s in table && table[s] == canTransitionFromStateList[s]
    {
      canTransitionFromStateList
    }
  }

  /** Switching from `from` to `to` broadcasts the exit of `from` first and the
      entry of `to` after it, once each, and resets the dash only on entry. */
  lemma ExitPrecedesEnter(from: StateComponentBase, to: StateComponentBase)
    ensures var t := from.ExitTrace() + to.EnterTrace();
      t[0] == Broadcast(Exit, from) && t[|from.ExitTrace()|] == Broadcast(Enter, to)
      && Occurrences(t, Broadcast(Exit, from)) == 1
      && Occurrences(t, Broadcast(Enter, to)) == 1
      && Occurrences(t, DashReset) == (if to.resetsDash then 1 else 0)
      && Occurrences(t, FallingReset)
         == (if from.countTowardsFalling then 0 else 1) + (if to.countTowardsFalling then 0 else 1)
  {
    var x, y := from.ExitTrace(), to.EnterTrace();
    var f := if !from.countTowardsFalling then [FallingReset] else [];
    var g := if !to.countTowardsFalling then [FallingReset] else [];
    var d := if to.resetsDash then [DashReset] else [];
    forall e: Event
      ensures Occurrences(x + y, e) ==
        Occurrences([Broadcast(Exit, from)], e) + Occurrences(f, e)
        + Occurrences([Broadcast(Enter, to)], e) + Occurrences(g, e) + Occurrences(d, e)
    {
      OccurrencesConcat(x, y, e);
      OccurrencesConcat([Broadcast(Exit, from)], f, e);
      OccurrencesConcat([Broadcast(Enter, to)] + g, d, e);
      OccurrencesConcat([Broadcast(Enter, to)], g, e);
    }
  }
}
