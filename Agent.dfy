/**
 * The agent of the Unity bridge (integrations/Unity/.../Bridge/Agent.cs): the action object whose
 * three axis fields `SetAction` rewrites in place, and the agent that `setProperties` configures
 * from a scene record and that delegates `SetAction` to its action object.
 */
module Bridge {
  import opened Wrappers
  import opened ActionDecoding

  /**
   * `Actions` with its two subclasses folded into the constant `kind`. The axis fields are the
   * only state `SetAction` writes; `name`, `dist` and `available` are written by `setProperties`.
   */
  class Actions {
    const kind: ActionKind
    var name: string
    var dist: string
    var available: seq<string>
    var forward: real
    var moveRight: real
    var turnRight: real

    /** The `dist` string agrees with the subclass, as `setProperties` arranges. */
    ghost predicate Valid()
      reads this
    {
      dist == DistName(kind)
    }

    /** The motion intent the three axis fields hold. */
    function Intent(): Axes
      reads this
    {
      Axes(forward, moveRight, turnRight)
    }

    /** `new DiscreteActions()` or `new ContinuousActions()`: unnamed, empty, all axes zero. */
    constructor (kind: ActionKind)
      ensures this.kind == kind && name == "" && dist == "" && available == []
      ensures Intent() == Zero
    {
      this.kind := kind;
      name, dist, available := "", "", [];
      forward, moveRight, turnRight := 0.0, 0.0, 0.0;
    }

    /** `DiscreteActions.SetAction`: clear all three axes, then set the one the indexed verb names. */
    method SetDiscreteAction(stepAction: seq<real>) returns (outcome: Outcome<ActionError>)
      requires Valid() && kind == Discrete
      modifies this`forward, this`moveRight, this`turnRight
      ensures Decoded(Intent(), outcome) == DecodeDiscrete(available, stepAction, old(Intent()))
    {
      // the check of `dist` the source makes first always holds here
      assert dist == "discrete";
      if |stepAction| == 0 {
        // stepAction[0] throws before any field is cleared
        return Fail(WrongLength(1, 0));
      }
      var lengthOk := |stepAction| == 1;
      var i := Truncate(stepAction[0]);
      forward := 0.0;
      moveRight := 0.0;
      turnRight := 0.0;
      if !(0 <= i < |available|) {
        // available[i] throws after the fields are cleared
        return Fail(if lengthOk then IndexOutOfRange(i) else WrongLength(1, |stepAction|));
      }
      var verb := available[i];
      var known := true;
      match verb {
        case "move_forward" => forward := 1.0;
        case "move_backward" => forward := -1.0;
        case "move_left" => moveRight := 1.0;
        case "move_right" => moveRight := -1.0;
        case "turn_left" => turnRight := -1.0;
        case "turn_right" => turnRight := 1.0;
        case _ => known := false;
      }
      if !lengthOk {
        outcome := Fail(WrongLength(1, |stepAction|));
      } else if !known {
        outcome := Fail(UnknownAction(verb));
      } else {
        outcome := Pass;
      }
    }

    /** `ContinuousActions.SetAction`: each entry of `available` sets its axis to the matching scalar. */
    method SetContinuousAction(stepAction: seq<real>) returns (outcome: Outcome<ActionError>)
      requires Valid() && kind == Continuous
      modifies this`forward, this`moveRight, this`turnRight
      ensures Decoded(Intent(), outcome) == DecodeContinuous(available, stepAction, old(Intent()))
    {
      assert dist == "continuous";
      var lengthOk := |stepAction| == |available|;
      var n := if |stepAction| < |available| then |stepAction| else |available|;
      var unknown: Option<string> := None;
      for i := 0 to n
        invariant Intent() == ApplyAll(old(Intent()), available[..i], stepAction[..i])
        invariant unknown == FirstUnknown(available[..i])
      {
        match available[i] {
          case "move_forward_backward" => forward := stepAction[i];
          case "move_left_right" => moveRight := stepAction[i];
          case "turn_left_right" => turnRight := stepAction[i];
          case _ =>
            if unknown.None? {
              unknown := Some(available[i]);
            }
        }
        assert available[..i + 1][..i] == available[..i];
        assert stepAction[..i + 1][..i] == stepAction[..i];
      }
      if !lengthOk {
        outcome := Fail(WrongLength(|available|, |stepAction|));
      } else {
        assert available[..n] == available;
        outcome := if unknown.Some? then Fail(UnknownAction(unknown.value)) else Pass;
      }
    }

    /** The abstract `SetAction`, dispatched on the subclass. */
    method SetAction(stepAction: seq<real>) returns (outcome: Outcome<ActionError>)
      requires Valid()
      modifies this`forward, this`moveRight, this`turnRight
      ensures Decoded(Intent(), outcome) == Decode(kind, available, stepAction, old(Intent()))
    {
      match kind {
        case Discrete => outcome := SetDiscreteAction(stepAction);
        case Continuous => outcome := SetContinuousAction(stepAction);
      }
    }
  }

  /** A Unity colour: four channels. */
  datatype Color = Color(r: real, g: real, b: real, a: real)

  const White := Color(1.0, 1.0, 1.0, 1.0)

  /** The fields of the scene's agent record that `setProperties` reads. */
  datatype AgentRecord = AgentRecord(
    color: Color,
    height: real,
    moveSpeed: real,
    turnSpeed: real,
    actionName: string,
    actionDist: string,
    availableActions: seq<string>)

  /** What `setProperties` reports instead of asserting. */
  datatype ConfigError = UnknownDist(dist: string)

  class Agent {
    var moveSpeed: real
    var turnSpeed: real
    var height: real
    var color: Color
    var actions: Actions?

    /** Once configured, the agent's action object agrees with its `dist` string. */
    ghost predicate Valid()
      reads this, actions
    {
      actions != null ==> actions.Valid()
    }

    /** An agent as Unity creates it: default speeds and height, white, no action space yet. */
    constructor ()
      ensures Valid()
      ensures moveSpeed == 1.0 && turnSpeed == 1.0 && height == 1.0 && color == White
      ensures actions == null
    {
      moveSpeed, turnSpeed, height, color := 1.0, 1.0, 1.0, White;
      actions := null;
    }

    /**
     * `setProperties`: copy the record's appearance and speeds, then build the action object the
     * record's `action_dist` selects and copy the action fields into it. An `action_dist` that is
     * neither "discrete" nor "continuous" is reported, and the action object is left as it was.
     */
    method SetProperties(agentData: AgentRecord) returns (outcome: Outcome<ConfigError>)
      requires Valid()
      modifies this
      ensures Valid()
      ensures color == agentData.color && height == agentData.height
      ensures moveSpeed == agentData.moveSpeed && turnSpeed == agentData.turnSpeed
      ensures outcome.Pass? <==> DistKind(agentData.actionDist).Some?
      ensures outcome.Pass? ==>
        actions != null && fresh(actions) &&
        Some(actions.kind) == DistKind(agentData.actionDist) &&
        actions.name == agentData.actionName &&
        actions.dist == agentData.actionDist &&
        actions.available == agentData.availableActions &&
        actions.Intent() == Zero
      ensures outcome.Fail? ==>
        outcome == Fail(UnknownDist(agentData.actionDist)) && actions == old(actions)
    {
      color := agentData.color;
      height := agentData.height;
      moveSpeed := agentData.moveSpeed;
      turnSpeed := agentData.turnSpeed;
      var a: Actions;
      match agentData.actionDist {
        case "discrete" => a := new Actions(Discrete);
        case "continuous" => a := new Actions(Continuous);
        case _ => return Fail(UnknownDist(agentData.actionDist));
      }
      a.name := agentData.actionName;
      a.dist := agentData.actionDist;
      a.available := agentData.availableActions;
      actions := a;
      outcome := Pass;
    }

    /** `Agent.SetAction`: hand the step action to the configured action object. */
    method SetAction(stepAction: seq<real>) returns (outcome: Outcome<ActionError>)
      requires Valid()
      modifies actions
      ensures Valid()
      ensures actions == null ==> outcome == Fail(NotConfigured)
      ensures actions != null ==>
        Decoded(actions.Intent(), outcome) ==
          Decode(actions.kind, actions.available, stepAction, old(actions.Intent()))
      ensures actions != null ==>
        actions.name == old(actions.name) && actions.dist == old(actions.dist) &&
        actions.available == old(actions.available)
    {
      if actions == null {
        return Fail(NotConfigured);
      }
      outcome := actions.SetAction(stepAction);
    }
  }

  /** The action object's fields as plain values, for reasoning about `setProperties` as written. */
  datatype ActionsView = ActionsView(kind: ActionKind, name: string, dist: string, available: seq<string>)

  predicate ViewValid(v: ActionsView) {
    v.dist == DistName(v.kind)
  }

  /**
   * The action object after `setProperties` exactly as Agent.cs writes it: on an unrecognised
   * `action_dist` no new object is built, and the three copies still go to the previous object
   * (or throw on a null one, leaving none).
   */
  function SetPropertiesAsWritten(prev: Option<ActionsView>, agentData: AgentRecord): Option<ActionsView> {
    match DistKind(agentData.actionDist)
    case Some(k) => Some(ActionsView(k, agentData.actionName, agentData.actionDist, agentData.availableActions))
    case None =>
      match prev
      case None => None
      case Some(p) =>
        Some(p.(name := agentData.actionName, dist := agentData.actionDist,
                available := agentData.availableActions))
  }

  /**
   * As written, reconfiguring an agent with an unrecognised `action_dist` leaves an action object
   * whose `dist` no longer names its subclass, so the `dist` check of every later `SetAction` fails.
   */
  lemma SetPropertiesAsWrittenBreaksDist(prev: ActionsView, agentData: AgentRecord)
    requires ViewValid(prev)
    requires DistKind(agentData.actionDist).None?
    ensures SetPropertiesAsWritten(Some(prev), agentData).Some?
    ensures !ViewValid(SetPropertiesAsWritten(Some(prev), agentData).value)
  {
  }

  /** The same on the concrete input: a discrete agent reconfigured with "gaussian". */
  lemma SetPropertiesAsWrittenExample()
    ensures var prev := ActionsView(Discrete, "move", "discrete", ["move_forward"]);
      var rec := AgentRecord(White, 1.0, 1.0, 1.0, "move", "gaussian", ["move_forward"]);
      SetPropertiesAsWritten(Some(prev), rec) ==
        Some(ActionsView(Discrete, "move", "gaussian", ["move_forward"]))
  {
  }

  /** With a recognised `action_dist`, the as-written and the corrected behaviour agree and keep `dist` valid. */
  lemma SetPropertiesAsWrittenRecognised(prev: Option<ActionsView>, agentData: AgentRecord)
    requires DistKind(agentData.actionDist).Some?
    ensures SetPropertiesAsWritten(prev, agentData).Some?
    ensures ViewValid(SetPropertiesAsWritten(prev, agentData).value)
  {
  }

  /** A client: configuring from a record and reading the action fields back gives the record's values. */
  method ConfigureAndReadBack(agentData: AgentRecord) returns (dist: string, name: string, available: seq<string>)
    requires DistKind(agentData.actionDist).Some?
    ensures dist == agentData.actionDist && name == agentData.actionName
    ensures available == agentData.availableActions
  {
    var agent := new Agent();
    var outcome := agent.SetProperties(agentData);
    dist, name, available := agent.actions.dist, agent.actions.name, agent.actions.available;
  }

  /** A client: the example of a discrete agent that turns right on index 1. */
  method DiscreteClient() returns (intent: Axes)
    ensures intent == Axes(0.0, 0.0, 1.0)
  {
    var agent := new Agent();
    var rec := AgentRecord(White, 1.0, 1.0, 1.0, "move", "discrete", ["move_forward", "turn_right"]);
    var configured := agent.SetProperties(rec);
    var outcome := agent.SetAction([1.0]);
    DiscreteExample(Zero);
    intent := agent.actions.Intent();
  }
}
