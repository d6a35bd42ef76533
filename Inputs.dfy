/**
 * Host input: the fixed table that binds a (port, joypad button) pair of the
 * host to an input command of the emulated machine, and the reconciliation
 * that turns this frame's button presses into the engine's per-command key
 * state.
 */
module Inputs {
  import opened Primitives

  /** The host's abstract joypad buttons (libretro's RetroPad). */
  datatype JoypadButton = B | Y | Select | Start | Up | Down | Left | Right | A | X | L | R | L2 | R2 | L3 | R3

  /** The buttons of one emulated controller that the binding table uses. */
  datatype ControllerButton = Start | Up | Down | Left | Right | A | B | C

  /** One input signal of the emulated machine: a button on controller 1 or 2. */
  datatype InputCommand = Controller1(button: ControllerButton) | Controller2(button: ControllerButton)

  /** A host port number together with a host button. */
  type Key = (u32, JoypadButton)

  /**
   * The emulated button a host button drives, the same for both ports: the
   * canonical buttons keep their names and host X is relabelled to C.
   */
  function ControllerButtonFor(button: JoypadButton): Option<ControllerButton>
  {
    match button
    case Start => Some(ControllerButton.Start)
    case Up => Some(ControllerButton.Up)
    case Down => Some(ControllerButton.Down)
    case Left => Some(ControllerButton.Left)
    case Right => Some(ControllerButton.Right)
    case A => Some(ControllerButton.A)
    case B => Some(ControllerButton.B)
    case X => Some(ControllerButton.C)
    case _ => None
  }

  /** The command a key is bound to: port 0 drives controller 1, port 1 drives controller 2. */
  function BindingFor(key: Key): Option<InputCommand>
  {
    match ControllerButtonFor(key.1)
    case None => None
    case Some(b) =>
      if key.0 == 0 then Some(Controller1(b))
      else if key.0 == 1 then Some(Controller2(b))
      else None
  }

  /** The map `m` binds exactly the keys BindingFor binds, to the same commands. */
  ghost predicate IsBindingTable(m: map<Key, InputCommand>)
  {
    forall key: Key :: (key in m <==> BindingFor(key).Some?) && (key in m ==> Some(m[key]) == BindingFor(key))
  }

  /** Distinct keys are bound to distinct commands. */
  ghost predicate Injective(bindings: map<Key, InputCommand>)
  {
    forall k1, k2 | k1 in bindings && k2 in bindings && k1 != k2 :: bindings[k1] != bindings[k2]
  }

  /**
   * The binding table of `CoreEmulator::default`, built by sixteen successive
   * inserts.
   */
  method DefaultBindings() returns (m: map<Key, InputCommand>)
    ensures IsBindingTable(m)
    ensures |m| == 16
  {
    // Each insert adds a key that is not there yet, so none overwrites another.
    m := map[];
    assert (0, JoypadButton.Start) !in m;
    m := m[(0, JoypadButton.Start) := Controller1(ControllerButton.Start)];
    assert (0, JoypadButton.Up) !in m;
    m := m[(0, JoypadButton.Up) := Controller1(ControllerButton.Up)];
    assert (0, JoypadButton.Down) !in m;
    m := m[(0, JoypadButton.Down) := Controller1(ControllerButton.Down)];
    assert (0, JoypadButton.Left) !in m;
    m := m[(0, JoypadButton.Left) := Controller1(ControllerButton.Left)];
    assert (0, JoypadButton.Right) !in m;
    m := m[(0, JoypadButton.Right) := Controller1(ControllerButton.Right)];
    assert (0, JoypadButton.A) !in m;
    m := m[(0, JoypadButton.A) := Controller1(ControllerButton.A)];
    assert (0, JoypadButton.B) !in m;
    m := m[(0, JoypadButton.B) := Controller1(ControllerButton.B)];
    assert (0, JoypadButton.X) !in m;
    m := m[(0, JoypadButton.X) := Controller1(ControllerButton.C)];

    assert (1, JoypadButton.Start) !in m;
    m := m[(1, JoypadButton.Start) := Controller2(ControllerButton.Start)];
    assert (1, JoypadButton.Up) !in m;
    m := m[(1, JoypadButton.Up) := Controller2(ControllerButton.Up)];
    assert (1, JoypadButton.Down) !in m;
    m := m[(1, JoypadButton.Down) := Controller2(ControllerButton.Down)];
    assert (1, JoypadButton.Left) !in m;
    m := m[(1, JoypadButton.Left) := Controller2(ControllerButton.Left)];
    assert (1, JoypadButton.Right) !in m;
    m := m[(1, JoypadButton.Right) := Controller2(ControllerButton.Right)];
    assert (1, JoypadButton.A) !in m;
    m := m[(1, JoypadButton.A) := Controller2(ControllerButton.A)];
    assert (1, JoypadButton.B) !in m;
    m := m[(1, JoypadButton.B) := Controller2(ControllerButton.B)];
    assert (1, JoypadButton.X) !in m;
    m := m[(1, JoypadButton.X) := Controller2(ControllerButton.C)];
    forall key: Key
      ensures (key in m <==> BindingFor(key).Some?) && (key in m ==> Some(m[key]) == BindingFor(key))
    {
      if key.0 == 0 || key.0 == 1 {
        match key.1
        case B =>
        case Y =>
        case Select =>
        case Start =>
        case Up =>
        case Down =>
        case Left =>
        case Right =>
        case A =>
        case X =>
        case L =>
        case R =>
        case L2 =>
        case R2 =>
        case L3 =>
        case R3 =>
      }
    }
  }

  /** Host X is relabelled: on either port it drives the emulated C, and nothing else drives C. */
  lemma HostXDrivesC(m: map<Key, InputCommand>)
    requires IsBindingTable(m)
    ensures (0, JoypadButton.X) in m && m[(0, JoypadButton.X)] == Controller1(ControllerButton.C)
    ensures (1, JoypadButton.X) in m && m[(1, JoypadButton.X)] == Controller2(ControllerButton.C)
    ensures forall key | key in m && m[key].button == ControllerButton.C :: key.1 == JoypadButton.X
  {
  }

  /** Only ports 0 and 1 are bound; port 0 drives controller 1 only and port 1 controller 2 only. */
  lemma BindingPorts(m: map<Key, InputCommand>)
    requires IsBindingTable(m)
    ensures forall key | key in m :: key.0 == 0 || key.0 == 1
    ensures forall key | key in m && key.0 == 0 :: m[key].Controller1?
    ensures forall key | key in m && key.0 == 1 :: m[key].Controller2?
    ensures forall b: ControllerButton :: Controller1(b) in m.Values && Controller2(b) in m.Values
  {
    forall key | key in m
      ensures key.0 == 0 || key.0 == 1
      ensures key.0 == 0 ==> m[key].Controller1?
      ensures key.0 == 1 ==> m[key].Controller2?
    {
      assert BindingFor(key).Some?;
    }
    forall b: ControllerButton
      ensures Controller1(b) in m.Values && Controller2(b) in m.Values
    {
      var host := match b
        case Start => JoypadButton.Start
        case Up => JoypadButton.Up
        case Down => JoypadButton.Down
        case Left => JoypadButton.Left
        case Right => JoypadButton.Right
        case A => JoypadButton.A
        case B => JoypadButton.B
        case C => JoypadButton.X;
      assert BindingFor((0, host)) == Some(Controller1(b));
      assert BindingFor((1, host)) == Some(Controller2(b));
    }
  }

  /** Distinct keys of the table are bound to distinct commands. */
  lemma BindingTableInjective(m: map<Key, InputCommand>)
    requires IsBindingTable(m)
    ensures Injective(m)
  {
  }

  // ---------------------------------------------------------------------
  // Per-frame reconciliation of host presses into the engine's key state
  // ---------------------------------------------------------------------

  /** The engine's per-command key state; its contents belong to the engine. */
  type KeyState

  /** The engine's `KeyState::new` and `KeyState::update_state`, both left abstract. */
  datatype KeyRules = KeyRules(initial: bool -> KeyState, update: (KeyState, bool) -> KeyState)

  /**
   * What handling one binding stores for its command: the update of the
   * existing entry when there is one, a new key state otherwise.
   */
  function Refreshed(state: map<InputCommand, KeyState>, command: InputCommand, pressed: bool, rules: KeyRules): KeyState
  {
    if command in state then rules.update(state[command], pressed) else rules.initial(pressed)
  }

  /** The input state after handling the bindings of `order`, one after the other. */
  function ApplyInOrder(state: map<InputCommand, KeyState>, bindings: map<Key, InputCommand>,
                        pressed: Key -> bool, rules: KeyRules, order: seq<Key>): map<InputCommand, KeyState>
    requires forall key | key in order :: key in bindings
  {
    if order == [] then state
    else
      var before := ApplyInOrder(state, bindings, pressed, rules, order[..|order| - 1]);
      var key := order[|order| - 1];
      before[bindings[key] := Refreshed(before, bindings[key], pressed(key), rules)]
  }

  /** The keys an enumeration visits. */
  ghost function Elements(order: seq<Key>): set<Key>
  {
    set key | key in order
  }

  ghost predicate NoDuplicates(order: seq<Key>)
  {
    forall i, j | 0 <= i < j < |order| :: order[i] != order[j]
  }

  /** The commands that the given keys are bound to. */
  ghost function Image(bindings: map<Key, InputCommand>, keys: set<Key>): set<InputCommand>
    requires keys <= bindings.Keys
  {
    set key | key in keys :: bindings[key]
  }

  /**
   * Order-free description of the state after the bindings of `keys` have
   * been handled: each bound command holds its refreshed state computed from
   * the state before, the commands of no handled binding are unchanged, and
   * nothing else appears.
   */
  ghost predicate ReconciledOn(before: map<InputCommand, KeyState>, after: map<InputCommand, KeyState>,
                               bindings: map<Key, InputCommand>, keys: set<Key>, pressed: Key -> bool, rules: KeyRules)
    requires keys <= bindings.Keys
  {
    && after.Keys == before.Keys + Image(bindings, keys)
    && (forall key | key in keys :: bindings[key] in after && after[bindings[key]] == Refreshed(before, bindings[key], pressed(key), rules))
    && (forall c | c in before && c !in Image(bindings, keys) :: c in after && after[c] == before[c])
  }

  /**
   * Handling injective bindings one after the other, in any order without
   * repetitions, yields the order-free description.
   */
  lemma {:induction false} ApplyInOrderReconciles(state: map<InputCommand, KeyState>, bindings: map<Key, InputCommand>,
                                                 pressed: Key -> bool, rules: KeyRules, order: seq<Key>)
    requires Injective(bindings)
    requires forall key | key in order :: key in bindings
    requires NoDuplicates(order)
    ensures ReconciledOn(state, ApplyInOrder(state, bindings, pressed, rules, order), bindings, Elements(order), pressed, rules)
  {
    var keys := Elements(order);
    var after := ApplyInOrder(state, bindings, pressed, rules, order);
    if order == [] {
      assert Image(bindings, keys) == {};
    } else {
      var front := order[..|order| - 1];
      var last := order[|order| - 1];
      var frontKeys := Elements(front);
      var before := ApplyInOrder(state, bindings, pressed, rules, front);
      ApplyInOrderReconciles(state, bindings, pressed, rules, front);
      assert keys == frontKeys + {last};
      assert last !in frontKeys;
      var c := bindings[last];
      assert Image(bindings, keys) == Image(bindings, frontKeys) + {c};
      assert c !in Image(bindings, frontKeys);
      assert Refreshed(before, c, pressed(last), rules) == Refreshed(state, c, pressed(last), rules);
      assert after == before[c := Refreshed(state, c, pressed(last), rules)];
      forall key | key in keys
        ensures bindings[key] in after && after[bindings[key]] == Refreshed(state, bindings[key], pressed(key), rules)
      {
        if key != last {
          assert key in frontKeys;
        }
      }
    }
  }

  /** The order-free description determines the new state. */
  lemma ReconciledUnique(before: map<InputCommand, KeyState>, first: map<InputCommand, KeyState>,
                         second: map<InputCommand, KeyState>, bindings: map<Key, InputCommand>,
                         keys: set<Key>, pressed: Key -> bool, rules: KeyRules)
    requires keys <= bindings.Keys
    requires ReconciledOn(before, first, bindings, keys, pressed, rules)
    requires ReconciledOn(before, second, bindings, keys, pressed, rules)
    ensures first == second
  {
  }

  /**
   * The iteration order of the binding table does not matter: any two
   * enumerations of its keys give the same input state.
   */
  lemma OrderIndependent(state: map<InputCommand, KeyState>, bindings: map<Key, InputCommand>,
                         pressed: Key -> bool, rules: KeyRules, first: seq<Key>, second: seq<Key>)
    requires Injective(bindings)
    requires NoDuplicates(first) && NoDuplicates(second)
    requires Elements(first) == bindings.Keys == Elements(second)
    ensures ApplyInOrder(state, bindings, pressed, rules, first) == ApplyInOrder(state, bindings, pressed, rules, second)
  {
    ApplyInOrderReconciles(state, bindings, pressed, rules, first);
    ApplyInOrderReconciles(state, bindings, pressed, rules, second);
    ReconciledUnique(state, ApplyInOrder(state, bindings, pressed, rules, first),
                     ApplyInOrder(state, bindings, pressed, rules, second), bindings, bindings.Keys, pressed, rules);
  }

  /** Presses of keys that no binding mentions have no effect on the input state. */
  lemma {:induction false} UnboundKeysIgnored(state: map<InputCommand, KeyState>, bindings: map<Key, InputCommand>,
                                              first: Key -> bool, second: Key -> bool, rules: KeyRules, order: seq<Key>)
    requires forall key | key in order :: key in bindings
    requires forall key | key in bindings :: first(key) == second(key)
    ensures ApplyInOrder(state, bindings, first, rules, order) == ApplyInOrder(state, bindings, second, rules, order)
  {
    if order != [] {
      UnboundKeysIgnored(state, bindings, first, second, rules, order[..|order| - 1]);
    }
  }

  /**
   * With the default table, the host's X on port 0 (port 1) sets the key
   * state of controller 1's (controller 2's) C.
   */
  lemma HostXSetsC(before: map<InputCommand, KeyState>, after: map<InputCommand, KeyState>,
                   m: map<Key, InputCommand>, pressed: Key -> bool, rules: KeyRules)
    requires IsBindingTable(m)
    requires ReconciledOn(before, after, m, m.Keys, pressed, rules)
    ensures Controller1(ControllerButton.C) in after
    ensures after[Controller1(ControllerButton.C)] == Refreshed(before, Controller1(ControllerButton.C), pressed((0, JoypadButton.X)), rules)
    ensures Controller2(ControllerButton.C) in after
    ensures after[Controller2(ControllerButton.C)] == Refreshed(before, Controller2(ControllerButton.C), pressed((1, JoypadButton.X)), rules)
  {
    HostXDrivesC(m);
  }
}
