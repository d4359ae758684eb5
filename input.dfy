/**
 * The input layer of include/raz/input.hpp: the Input record, devices that
 * track button states and turn button events into Inputs, actions that
 * match Inputs (button and axis actions and their &&, || and !
 * combinations), and the ActionMap that tries its actions in id order and
 * hands each match to a chain of handlers.
 *
 * Axis values are floating point and are not modelled; an Input keeps its
 * type, button, axis, device, action and handled fields. Handlers are
 * opaque callables: each is given as the value it leaves in the mutable
 * `handled` flag of the Input it is called with.
 */
module Input {
  import opened Codec

  /** Input::InputType flags. */
  const UnknownType: bv32 := 1
  const ButtonPressedType: bv32 := 2
  const ButtonHoldType: bv32 := 4
  const ButtonReleasedType: bv32 := 8
  const AxisChangedType: bv32 := 16

  /** InputDevice::ButtonState flags. */
  const Released: bv32 := 1
  const Pressed: bv32 := 2
  const Hold: bv32 := 4

  /** Input, without its floating-point axis_value and axis_delta. */
  datatype Input = Input(kind: bv32, button: u32, axis: u32, device: u32, action: u32, handled: bool)

  /** Input(): type Unknown, every id 0, not handled. */
  const DefaultInput := Input(UnknownType, 0, 0, 0, 0, false)

  /** The Input a button event of a device with the given ID returns. */
  function ButtonInput(kind: bv32, button: u32, id: u32): (input: Input)
    ensures input.kind == kind && input.button == button && input.device == id
    ensures input == DefaultInput.(kind := kind, button := button, device := id)
  {
    Input(kind, button, 0, id, 0, false)
  }

  /** The state a button moves to on a press: Hold when it was Pressed, Pressed otherwise. */
  function AfterPress(s: bv32): (t: bv32)
    ensures t == Pressed || t == Hold
    ensures t == Hold <==> s == Pressed
  {
    if s == Pressed then Hold else Pressed
  }

  /** isButtonDown for a button in state s: s & (Hold | Pressed). */
  predicate Down(s: bv32)
  {
    s & (Hold | Pressed) != 0
  }

  /** Among the three named states, a button is down exactly when it is Pressed or held. */
  lemma DownIffPressedOrHold(s: bv32)
    requires s == Released || s == Pressed || s == Hold
    ensures Down(s) <==> s == Pressed || s == Hold
  {
  }

  /** A button is down after any press and up after any release. */
  lemma PressDownReleaseUp(s: bv32)
    ensures Down(AfterPress(s)) && !Down(Released)
  {
  }

  class InputDevice {
    /** The template parameter ID. */
    const id: u32
    /** m_btn_states: ButtonCount states. */
    const states: array<bv32>

    /**
     * InputDevice(): the button states are not initialised by the
     * constructor; their first values are given as initial.
     */
    constructor (id: u32, initial: seq<bv32>)
      ensures this.id == id && fresh(states) && states[..] == initial
    {
      this.id := id;
      states := new bv32[|initial|](i requires 0 <= i < |initial| => initial[i]);
    }

    /** getButtonState */
    function GetButtonState(button: u32): bv32
      reads states
      requires button < states.Length
    {
      states[button]
    }

    /** isButtonDown: the state has the Hold or the Pressed bit. */
    function IsButtonDown(button: u32): (down: bool)
      reads states
      requires button < states.Length
      ensures down == Down(GetButtonState(button))
    {
      states[button] & (Hold | Pressed) != 0
    }

    /** operator()(ButtonPressed): Pressed becomes Hold, anything else Pressed. */
    method Press(button: u32) returns (input: Input)
      requires button < states.Length
      modifies states
      ensures states[..] == old(states[..])[button := AfterPress(old(states[button]))]
      ensures input == ButtonInput(ButtonPressedType, button, id)
      ensures IsButtonDown(button)
    {
      if states[button] == Pressed {
        states[button] := Hold;
      } else {
        states[button] := Pressed;
      }
      input := ButtonInput(ButtonPressedType, button, id);
    }

    /** operator()(ButtonReleased): the button becomes Released whatever it was. */
    method Release(button: u32) returns (input: Input)
      requires button < states.Length
      modifies states
      ensures states[..] == old(states[..])[button := Released]
      ensures input == ButtonInput(ButtonReleasedType, button, id)
      ensures !IsButtonDown(button)
    {
      states[button] := Released;
      input := ButtonInput(ButtonReleasedType, button, id);
    }
  }

  /** The default mask of createButtonAction: ButtonPressed | ButtonHold. */
  const DefaultMask: bv32 := ButtonPressedType | ButtonHoldType

  /** The actions: createButtonAction, createAxisAction, and the &&, || and ! operators. */
  datatype Action =
    | ButtonAction(button: u32, mask: bv32)
    | AxisAction(axis: u32)
    | And(left: Action, right: Action)
    | Or(left: Action, right: Action)
    | Not(operand: Action)

  /** The test of a button action's mask: the Input's type has a bit of the mask. */
  predicate InMask(kind: bv32, mask: bv32)
  {
    kind & mask != 0
  }

  /** tryInput */
  predicate TryInput(a: Action, input: Input)
  {
    match a
    case ButtonAction(button, mask) => input.button == button && InMask(input.kind, mask)
    case AxisAction(axis) => input.axis == axis
    case And(l, r) => TryInput(l, input) && TryInput(r, input)
    case Or(l, r) => TryInput(l, input) || TryInput(r, input)
    case Not(x) => !TryInput(x, input)
  }

  /**
   * With the default mask, a button action fires on the presses of its
   * button and on no release.
   */
  lemma DefaultButtonAction(button: u32, other: u32, id: u32)
    ensures TryInput(ButtonAction(button, DefaultMask), ButtonInput(ButtonPressedType, button, id))
    ensures !TryInput(ButtonAction(button, DefaultMask), ButtonInput(ButtonReleasedType, button, id))
    ensures other != button ==> !TryInput(ButtonAction(button, DefaultMask), ButtonInput(ButtonPressedType, other, id))
  {
  }

  /**
   * The axis field of a button event's Input stays 0, so an axis action on
   * axis 0 also fires on every button event.
   */
  lemma AxisZeroMatchesButtonEvents(kind: bv32, button: u32, id: u32)
    ensures TryInput(AxisAction(0), ButtonInput(kind, button, id))
  {
  }

  /** The combinators obey De Morgan's laws and double negation. */
  lemma {:induction false} CombinatorLaws(a: Action, b: Action, input: Input)
    ensures TryInput(Not(And(a, b)), input) == TryInput(Or(Not(a), Not(b)), input)
    ensures TryInput(Not(Or(a, b)), input) == TryInput(And(Not(a), Not(b)), input)
    ensures TryInput(Not(Not(a)), input) == TryInput(a, input)
  {
  }

  /**
   * Only an Input's type, button and axis decide what matches it: which
   * action it names, its device and whether it was handled never do.
   */
  lemma {:induction false} MatchIgnoresDispatchFields(a: Action, x: Input, y: Input)
    requires x.kind == y.kind && x.button == y.button && x.axis == y.axis
    ensures TryInput(a, x) == TryInput(a, y)
  {
    match a
    case ButtonAction(_, _) =>
    case AxisAction(_) =>
    case And(l, r) =>
      MatchIgnoresDispatchFields(l, x, y);
      MatchIgnoresDispatchFields(r, x, y);
    case Or(l, r) =>
      MatchIgnoresDispatchFields(l, x, y);
      MatchIgnoresDispatchFields(r, x, y);
    case Not(o) =>
      MatchIgnoresDispatchFields(o, x, y);
  }

  /** A handler, given as the value it leaves in the handled flag of the Input it is called with. */
  type Handler = Input -> bool

  /** One handler call: which handler, and the Input it saw. */
  datatype Call = Call(handler: nat, input: Input)

  /**
   * invokeHandlers(input, handlers[k..]): handler k is called, and the
   * following ones only while the Input is not handled. The result is the
   * calls made and the Input afterwards.
   */
  function InvokeHandlers(input: Input, handlers: seq<Handler>, k: nat): (seq<Call>, Input)
    requires k <= |handlers|
    decreases |handlers| - k
  {
    if k == |handlers| then ([], input)
    else
      var after := input.(handled := handlers[k](input));
      if after.handled then ([Call(k, input)], after)
      else
        var rest := InvokeHandlers(after, handlers, k + 1);
        ([Call(k, input)] + rest.0, rest.1)
  }

  /**
   * The handler chain: handlers are called in order from k on, the first
   * one always and each later one only on an Input not yet handled; the
   * chain stops early only once the Input is handled, and only the handled
   * flag of the Input ever changes.
   */
  lemma {:induction false} HandlerChain(input: Input, handlers: seq<Handler>, k: nat)
    requires k <= |handlers|
    ensures var r := InvokeHandlers(input, handlers, k);
      && r.1 == input.(handled := r.1.handled)
      && (k < |handlers| ==> |r.0| > 0 && r.0[0].input == input)
      && k + |r.0| <= |handlers|
      && (forall j :: 0 <= j < |r.0| ==> r.0[j].handler == k + j && r.0[j].input == input.(handled := r.0[j].input.handled))
      && (forall j :: 0 < j < |r.0| ==> !r.0[j].input.handled)
      && (k + |r.0| < |handlers| ==> r.1.handled)
      && (|r.0| > 0 ==> r.1.handled == handlers[r.0[|r.0| - 1].handler](r.0[|r.0| - 1].input))
    decreases |handlers| - k
  {
    if k < |handlers| {
      var after := input.(handled := handlers[k](input));
      if !after.handled {
        HandlerChain(after, handlers, k + 1);
        var rest := InvokeHandlers(after, handlers, k + 1);
        var r := InvokeHandlers(input, handlers, k);
        assert r.0 == [Call(k, input)] + rest.0;
        assert forall j :: 0 < j < |r.0| ==> r.0[j] == rest.0[j - 1];
      }
    }
  }

  /** The least element of a non-empty set of ids. */
  function Least(s: set<u32>): (least: u32)
    requires |s| > 0
    ensures least in s && forall x :: x in s ==> least <= x
  {
    LeastExists(s);
    var least :| least in s && forall x :: x in s ==> least <= x;
    least
  }

  /** A non-empty set of ids has a least element. */
  lemma {:induction false} LeastExists(s: set<int>)
    requires |s| > 0
    ensures exists least :: least in s && forall x :: x in s ==> least <= x
    decreases |s|
  {
    assert exists y :: y in s by {
      if forall y :: y !in s {
        assert false;
      }
    }
    var y :| y in s;
    var others := s - {y};
    if |others| > 0 {
      LeastExists(others);
      var least :| least in others && forall x :: x in others ==> least <= x;
      var m := if y < least then y else least;
      forall x | x in s
        ensures m <= x
      {
        if x != y {
          assert x in others;
        }
      }
      assert m in s;
    } else {
      assert s == {y};
    }
  }

  /** A set of ids in ascending order: the order in which a std::map is iterated. */
  function AscendingIds(s: set<u32>): (ids: seq<u32>)
    ensures forall i, j :: 0 <= i < j < |ids| ==> ids[i] < ids[j]
    ensures forall x :: x in ids <==> x in s
    decreases |s|
  {
    if |s| == 0 then []
    else
      var least := Least(s);
      [least] + AscendingIds(s - {least})
  }

  /**
   * tryActions over the actions with the ids from position i of ids on, in
   * that order: every action matching the Input gets it with input.action
   * set to its id, and the handler chain runs on it. The Input is one local
   * copy for the whole loop, so a handled flag set for one action is still
   * set for the next.
   */
  function TryFrom(actions: map<u32, Action>, ids: seq<u32>, i: nat, input: Input, handlers: seq<Handler>): (seq<Call>, Input)
    requires i <= |ids| && forall id :: id in ids ==> id in actions
    decreases |ids| - i
  {
    if i == |ids| then ([], input)
    else if TryInput(actions[ids[i]], input) then
      var invoked := InvokeHandlers(input.(action := ids[i]), handlers, 0);
      var rest := TryFrom(actions, ids, i + 1, invoked.1, handlers);
      (invoked.0 + rest.0, rest.1)
    else TryFrom(actions, ids, i + 1, input, handlers)
  }

  /**
   * Every handler call tryActions makes is for a bound action that matches
   * the Input, and sees that action's id in input.action.
   */
  lemma {:induction false} TryFromMatches(actions: map<u32, Action>, ids: seq<u32>, i: nat, input: Input, handlers: seq<Handler>)
    requires i <= |ids| && forall id :: id in ids ==> id in actions
    ensures forall call :: call in TryFrom(actions, ids, i, input, handlers).0 ==>
      call.input.action in ids[i..] && TryInput(actions[call.input.action], call.input)
    decreases |ids| - i
  {
    if i < |ids| {
      assert ids[i..] == [ids[i]] + ids[i + 1..];
      if TryInput(actions[ids[i]], input) {
        var invoked := InvokeHandlers(input.(action := ids[i]), handlers, 0);
        HandlerChain(input.(action := ids[i]), handlers, 0);
        MatchesTagged(actions[ids[i]], input, invoked.0, ids[i]);
        TryFromMatches(actions, ids, i + 1, invoked.1, handlers);
      } else {
        TryFromMatches(actions, ids, i + 1, input, handlers);
      }
    }
  }

  /**
   * Every bound action from position i on that matches the Input gets it:
   * with at least one handler, the first handler is called on the Input
   * tagged with that action's id. Handling the Input for an earlier action
   * does not keep it from later ones.
   */
  lemma {:induction false} TryFromComplete(actions: map<u32, Action>, ids: seq<u32>, i: nat, input: Input, handlers: seq<Handler>, j: nat)
    requires i <= |ids| && forall id :: id in ids ==> id in actions
    requires i <= j < |ids| && TryInput(actions[ids[j]], input) && |handlers| > 0
    ensures exists call :: call in TryFrom(actions, ids, i, input, handlers).0 && call.handler == 0 && call.input.action == ids[j]
    decreases |ids| - i
  {
    if TryInput(actions[ids[i]], input) {
      var invoked := InvokeHandlers(input.(action := ids[i]), handlers, 0);
      var rest := TryFrom(actions, ids, i + 1, invoked.1, handlers);
      HandlerChain(input.(action := ids[i]), handlers, 0);
      assert TryFrom(actions, ids, i, input, handlers).0 == invoked.0 + rest.0;
      if i == j {
        assert invoked.0[0] in invoked.0 + rest.0;
      } else {
        MatchIgnoresDispatchFields(actions[ids[j]], input, invoked.1);
        TryFromComplete(actions, ids, i + 1, invoked.1, handlers, j);
        var call :| call in rest.0 && call.handler == 0 && call.input.action == ids[j];
        assert call in invoked.0 + rest.0;
      }
    } else {
      TryFromComplete(actions, ids, i + 1, input, handlers, j);
    }
  }

  /** Handler calls whose action ids never decrease. */
  predicate AscendingCalls(calls: seq<Call>)
  {
    forall j, k :: 0 <= j < k < |calls| ==> calls[j].input.action <= calls[k].input.action
  }

  /**
   * Over ascending ids, the calls tryActions makes see the action ids in
   * ascending order: all handlers for one action run before any for a
   * larger id.
   */
  lemma {:induction false} TryFromOrdered(actions: map<u32, Action>, ids: seq<u32>, i: nat, input: Input, handlers: seq<Handler>)
    requires i <= |ids| && forall id :: id in ids ==> id in actions
    requires forall a, b :: 0 <= a < b < |ids| ==> ids[a] < ids[b]
    ensures AscendingCalls(TryFrom(actions, ids, i, input, handlers).0)
    decreases |ids| - i
  {
    if i < |ids| {
      if TryInput(actions[ids[i]], input) {
        var invoked := InvokeHandlers(input.(action := ids[i]), handlers, 0);
        var rest := TryFrom(actions, ids, i + 1, invoked.1, handlers).0;
        TryFromOrdered(actions, ids, i + 1, invoked.1, handlers);
        HandlerChain(input.(action := ids[i]), handlers, 0);
        TryFromMatches(actions, ids, i + 1, invoked.1, handlers);
        AboveFirst(ids, i, rest);
        ConcatAscending(invoked.0, rest, ids[i]);
      } else {
        TryFromOrdered(actions, ids, i + 1, input, handlers);
      }
    }
  }

  /** Calls for actions listed after position i of ascending ids are for ids above ids[i]. */
  lemma AboveFirst(ids: seq<u32>, i: nat, calls: seq<Call>)
    requires i < |ids| && forall a, b :: 0 <= a < b < |ids| ==> ids[a] < ids[b]
    requires forall call :: call in calls ==> call.input.action in ids[i + 1..]
    ensures forall call :: call in calls ==> ids[i] < call.input.action
  {
    forall call | call in calls
      ensures ids[i] < call.input.action
    {
      var m :| 0 <= m < |ids[i + 1..]| && ids[i + 1..][m] == call.input.action;
      assert ids[i + 1 + m] == call.input.action;
    }
  }

  /** Calls for one action x followed by ascending calls for actions above x are ascending. */
  lemma ConcatAscending(first: seq<Call>, rest: seq<Call>, x: u32)
    requires forall j :: 0 <= j < |first| ==> first[j].input.action == x
    requires forall call :: call in rest ==> x < call.input.action
    requires AscendingCalls(rest)
    ensures AscendingCalls(first + rest)
  {
    var calls := first + rest;
    forall j, k | 0 <= j < k < |calls|
      ensures calls[j].input.action <= calls[k].input.action
    {
      if k >= |first| {
        assert calls[k] == rest[k - |first|] && calls[k] in rest;
        if j >= |first| {
          assert calls[j] == rest[j - |first|];
        }
      }
    }
  }

  /** A handler call on a tagged Input still matches the action that matched the Input. */
  lemma MatchesTagged(a: Action, input: Input, calls: seq<Call>, id: u32)
    requires TryInput(a, input)
    requires forall j :: 0 <= j < |calls| ==> calls[j].input == input.(action := id).(handled := calls[j].input.handled)
    ensures forall j :: 0 <= j < |calls| ==> calls[j].input.action == id && TryInput(a, calls[j].input)
  {
    forall j | 0 <= j < |calls|
      ensures calls[j].input.action == id && TryInput(a, calls[j].input)
    {
      MatchIgnoresDispatchFields(a, input, calls[j].input);
    }
  }

  class ActionMap {
    /** m_actions */
    var actions: map<u32, Action>

    constructor ()
      ensures actions == map[]
    {
      actions := map[];
    }

    /** bind: the action for the id is set, replacing any earlier one. */
    method Bind(id: u32, action: Action)
      modifies this
      ensures actions == old(actions)[id := action]
    {
      actions := actions[id := action];
    }

    /** unbind: the action for the id, if any, is erased. */
    method Unbind(id: u32)
      modifies this
      ensures actions == old(actions) - {id}
    {
      actions := actions - {id};
    }

    /** tryActions: the actions in ascending id order, each matching one passed to the handlers. */
    method TryActions(input: Input, handlers: seq<Handler>) returns (calls: seq<Call>)
      ensures calls == TryFrom(actions, AscendingIds(actions.Keys), 0, input, handlers).0
      ensures AscendingCalls(calls)
      ensures forall call :: call in calls ==> call.input.action in actions && TryInput(actions[call.input.action], call.input)
      ensures |handlers| > 0 ==> forall id :: id in actions && TryInput(actions[id], input) ==>
        exists call :: call in calls && call.handler == 0 && call.input.action == id
    {
      var ids := AscendingIds(actions.Keys);
      TryFromOrdered(actions, ids, 0, input, handlers);
      TryFromMatches(actions, ids, 0, input, handlers);
      if |handlers| > 0 {
        forall id | id in actions && TryInput(actions[id], input)
          ensures exists call :: call in TryFrom(actions, ids, 0, input, handlers).0 && call.handler == 0 && call.input.action == id
        {
          var j :| 0 <= j < |ids| && ids[j] == id;
          TryFromComplete(actions, ids, 0, input, handlers, j);
        }
      }
      calls := TryEach(actions, ids, input, handlers);
    }

    /**
     * operator()(event, handlers...) for a button event: the device turns
     * the press (or release) into an Input, which goes to tryActions.
     */
    method ButtonEvent(device: InputDevice, button: u32, pressed: bool, handlers: seq<Handler>) returns (calls: seq<Call>)
      requires button < device.states.Length
      modifies device.states
      ensures device.states[..] == old(device.states[..])[button := if pressed then AfterPress(old(device.states[button])) else Released]
      ensures calls == TryFrom(actions, AscendingIds(actions.Keys), 0, ButtonInput(if pressed then ButtonPressedType else ButtonReleasedType, button, device.id), handlers).0
    {
      var input;
      if pressed {
        input := device.Press(button);
      } else {
        input := device.Release(button);
      }
      calls := TryActions(input, handlers);
    }
  }

  /** The loop of tryActions over the given ids, in their order. */
  method TryEach(actions: map<u32, Action>, ids: seq<u32>, input: Input, handlers: seq<Handler>) returns (calls: seq<Call>)
    requires forall id :: id in ids ==> id in actions
    ensures calls == TryFrom(actions, ids, 0, input, handlers).0
  {
    var current := input;
    calls := [];
    for i := 0 to |ids|
      invariant TryFrom(actions, ids, 0, input, handlers).0 == calls + TryFrom(actions, ids, i, current, handlers).0
    {
      var id := ids[i];
      if TryInput(actions[id], current) {
        var invoked := InvokeHandlers(current.(action := id), handlers, 0);
        ghost var later := TryFrom(actions, ids, i + 1, invoked.1, handlers).0;
        assert calls + (invoked.0 + later) == (calls + invoked.0) + later;
        calls := calls + invoked.0;
        current := invoked.1;
      }
    }
  }
}
