/** The registry of (mechanic, handler) pairs the state machine dispatches on,
    the lookup of a mechanic's handler in it, how setup derives it from the
    configured hierarchy, and the order in which the detection and debug fan-outs
    call the registered handlers. */
module Registry {
  import opened CharacterStates
  import opened StateComponents

  /** One registry entry. */
  datatype MechanicStateData = MechanicStateData(state: CharacterState, component: StateComponentBase?)

  /** The entry a default-constructed record holds. */
  function DefaultMechanicStateData(): (d: MechanicStateData)
    ensures d.state == DefaultState && d.component == null
  {
    MechanicStateData(DefaultState, null)
  }

  /** The handlers the entries of `list` refer to. */
  function ComponentsOf(list: seq<MechanicStateData>): set<StateComponentBase?>
  {
    set e | e in list :: e.component
  }

  /** Every entry refers to a handler. */
  predicate Resolving(list: seq<MechanicStateData>)
  {
    forall e | e in list :: e.component != null
  }

  /** The handler of the first entry for `s`, or null when no entry is for `s`. */
  function TranslateEnumToState(list: seq<MechanicStateData>, s: CharacterState): (c: StateComponentBase?)
    ensures c != null ==> MechanicStateData(s, c) in list
    ensures (forall i | 0 <= i < |list| :: list[i].state != s) ==> c == null
    ensures forall i | 0 <= i < |list| && list[i].state == s && (forall j | 0 <= j < i :: list[j].state != s) ::
              c == list[i].component
  {
    if list == [] then null
    else if list[0].state == s then list[0].component
    else
      var c := TranslateEnumToState(list[1..], s);
      assert forall i | 1 <= i < |list| :: list[i] == list[1..][i - 1];
      c
  }

  /** Appending entries never changes the handler found for a mechanic that
      already had one, and otherwise the lookup continues in what was appended. */
  lemma {:induction false} TranslateAppend(a: seq<MechanicStateData>, b: seq<MechanicStateData>, s: CharacterState)
    requires Resolving(a)
    ensures TranslateEnumToState(a + b, s)
            == if TranslateEnumToState(a, s) != null then TranslateEnumToState(a, s) else TranslateEnumToState(b, s)
    decreases |a|
  {
    if a != [] {
      assert (a + b)[0] == a[0];
      assert (a + b)[1..] == a[1..] + b;
      assert a[0] in a;
      if a[0].state != s {
        TranslateAppend(a[1..], b, s);
      }
    } else {
      assert a + b == b;
    }
  }

  /** The entries resolving `hierarchy` against the handlers `attached` to the
      character, in hierarchy order; a mechanic without a handler gets none. */
  function Resolved(hierarchy: seq<CharacterState>, attached: map<CharacterState, StateComponentBase>): seq<MechanicStateData>
  {
    if hierarchy == [] then []
    else
      var last := hierarchy[|hierarchy| - 1];
      Resolved(hierarchy[..|hierarchy| - 1], attached)
        + (if last in attached then [MechanicStateData(last, attached[last])] else [])
  }

  /** An entry is resolved exactly when its mechanic is configured and attached,
      and it then refers to the attached handler. */
  lemma {:induction false} ResolvedEntries(hierarchy: seq<CharacterState>, attached: map<CharacterState, StateComponentBase>)
    ensures forall e | e in Resolved(hierarchy, attached) ::
              e.state in hierarchy && e.state in attached && e.component == attached[e.state]
    ensures forall s | s in hierarchy && s in attached ::
              MechanicStateData(s, attached[s]) in Resolved(hierarchy, attached)
    decreases |hierarchy|
  {
    if hierarchy != [] {
      var init := hierarchy[..|hierarchy| - 1];
      assert hierarchy == init + [hierarchy[|hierarchy| - 1]];
      ResolvedEntries(init, attached);
    }
  }

  /** When every configured mechanic is attached, the registry has one entry per
      configured mechanic, in hierarchy order. */
  lemma {:induction false} ResolvedInOrder(hierarchy: seq<CharacterState>, attached: map<CharacterState, StateComponentBase>)
    requires forall s | s in hierarchy :: s in attached
    ensures |Resolved(hierarchy, attached)| == |hierarchy|
    ensures forall i | 0 <= i < |hierarchy| ::
              Resolved(hierarchy, attached)[i] == MechanicStateData(hierarchy[i], attached[hierarchy[i]])
    decreases |hierarchy|
  {
    if hierarchy != [] {
      var init := hierarchy[..|hierarchy| - 1];
      assert forall s | s in init :: s in hierarchy;
      ResolvedInOrder(init, attached);
    }
  }

  /** Looking a mechanic up in a freshly resolved registry finds the attached
      handler when the mechanic is configured and attached, and nothing otherwise:
      a mechanic that fails to resolve never disturbs the others. */
  lemma {:induction false} ResolvedLookup(hierarchy: seq<CharacterState>, attached: map<CharacterState, StateComponentBase>, s: CharacterState)
    ensures TranslateEnumToState(Resolved(hierarchy, attached), s)
            == if s in hierarchy && s in attached then attached[s] else null
    decreases |hierarchy|
  {
    if hierarchy != [] {
      var init := hierarchy[..|hierarchy| - 1];
      var last := hierarchy[|hierarchy| - 1];
      var step := if last in attached then [MechanicStateData(last, attached[last])] else [];
      assert hierarchy == init + [last];
      ResolvedLookup(init, attached, s);
      ResolvedEntries(init, attached);
      TranslateAppend(Resolved(init, attached), step, s);
    }
  }

  /** Some mechanic occurs twice in the configured hierarchy. */
  predicate HasDuplicate(hierarchy: seq<CharacterState>)
  {
    exists i, j | 0 <= i < j < |hierarchy| :: hierarchy[i] == hierarchy[j]
  }

  /** Without duplicates in the hierarchy, the resolved registry has at most one
      entry per mechanic. */
  lemma {:induction false} ResolvedUnique(hierarchy: seq<CharacterState>, attached: map<CharacterState, StateComponentBase>)
    requires !HasDuplicate(hierarchy)
    ensures forall i, j | 0 <= i < j < |Resolved(hierarchy, attached)| ::
              Resolved(hierarchy, attached)[i].state != Resolved(hierarchy, attached)[j].state
    decreases |hierarchy|
  {
    if hierarchy != [] {
      var init := hierarchy[..|hierarchy| - 1];
      var last := hierarchy[|hierarchy| - 1];
      assert !HasDuplicate(init) by {
        forall i, j | 0 <= i < j < |init| ensures init[i] != init[j] {
          assert init[i] == hierarchy[i] && init[j] == hierarchy[j];
        }
      }
      ResolvedUnique(init, attached);
      ResolvedEntries(init, attached);
      assert last !in init by {
        forall i | 0 <= i < |init| ensures init[i] != last {
          assert init[i] == hierarchy[i];
        }
      }
      var r := Resolved(init, attached);
      forall k | 0 <= k < |r| ensures r[k].state != last {
        assert r[k] in Resolved(init, attached);
        assert r[k].state in init;
      }
    }
  }

  /** The handlers of the entries of `list`, in registry order. */
  function Handlers(list: seq<MechanicStateData>): (handlers: seq<StateComponentBase?>)
    ensures |handlers| == |list|
    ensures forall i | 0 <= i < |list| :: handlers[i] == list[i].component
  {
    seq(|list|, i requires 0 <= i < |list| => list[i].component)
  }

  /** The detection hook calls a scan over `handlers` makes: one per handler,
      in order, except for the current one. */
  ghost function DetectTrace(handlers: seq<StateComponentBase?>, current: StateComponentBase?): seq<Event>
  {
    if handlers == [] then []
    else
      var c := handlers[|handlers| - 1];
      DetectTrace(handlers[..|handlers| - 1], current)
        + (if c != null && c != current then [HookCalled(DetectState, c)] else [])
  }

  /** Scanning one more handler appends its call, if it gets one. */
  lemma DetectTraceNext(handlers: seq<StateComponentBase?>, current: StateComponentBase?, i: nat)
    requires i < |handlers|
    ensures DetectTrace(handlers[..i + 1], current) == DetectTrace(handlers[..i], current)
              + (if handlers[i] != null && handlers[i] != current then [HookCalled(DetectState, handlers[i])] else [])
  {
    assert handlers[..i + 1][..i] == handlers[..i];
  }

  /** Detection asks exactly the handlers other than the current one, and only
      asks for detection. */
  lemma {:induction false} DetectTraceMembers(handlers: seq<StateComponentBase?>, current: StateComponentBase?)
    ensures forall e | e in DetectTrace(handlers, current) :: e.HookCalled? && e.hook == DetectState
    ensures forall h: StateComponentBase ::
              HookCalled(DetectState, h) in DetectTrace(handlers, current) <==> h != current && h in handlers
    decreases |handlers|
  {
    if handlers != [] {
      var init := handlers[..|handlers| - 1];
      assert handlers == init + [handlers[|handlers| - 1]];
      DetectTraceMembers(init, current);
    }
  }

  /** The debug hook calls a fan-out over `handlers` makes: one per handler
      whose debugging is on, in order. */
  ghost function DebugTrace(handlers: seq<StateComponentBase?>): seq<Event>
    reads handlers
  {
    if handlers == [] then []
    else
      var c := handlers[|handlers| - 1];
      DebugTrace(handlers[..|handlers| - 1])
        + (if c != null && c.debugMechanic then [HookCalled(Debug, c)] else [])
  }

  /** Fanning out to one more handler appends its call, if it gets one. */
  lemma DebugTraceNext(handlers: seq<StateComponentBase?>, i: nat)
    requires i < |handlers|
    ensures DebugTrace(handlers[..i + 1]) == DebugTrace(handlers[..i])
              + (if handlers[i] != null && handlers[i].debugMechanic then [HookCalled(Debug, handlers[i])] else [])
  {
    assert handlers[..i + 1][..i] == handlers[..i];
  }

  /** The debug fan-out calls exactly the handlers whose flag is set. */
  lemma {:induction false} DebugTraceMembers(handlers: seq<StateComponentBase?>)
    ensures forall e | e in DebugTrace(handlers) :: e.HookCalled? && e.hook == Debug
    ensures forall h: StateComponentBase ::
              HookCalled(Debug, h) in DebugTrace(handlers) <==> h in handlers && h.debugMechanic
    decreases |handlers|
  {
    if handlers != [] {
      var init := handlers[..|handlers| - 1];
      assert handlers == init + [handlers[|handlers| - 1]];
      DebugTraceMembers(init);
    }
  }
}
