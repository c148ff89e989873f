/**
 * The action space of a simulated agent (integrations/Unity/.../Bridge/Agent.cs), as values:
 * the motion intent the agent holds, the two kinds of action space, and what one call of
 * `SetAction` makes of a raw action vector. The classes in module Bridge are proved against
 * the decoding functions defined here.
 */
module ActionDecoding {
  import opened Wrappers

  /** The three motion axes the source stores as `forward`, `moveRight` and `turnRight`. */
  datatype Axes = Axes(forward: real, moveRight: real, turnRight: real)

  /** The intent a freshly created action object holds (all three fields start at 0.0f). */
  const Zero := Axes(0.0, 0.0, 0.0)

  datatype Axis = Forward | MoveRight | TurnRight

  function Get(a: Axes, x: Axis): real {
    match x
    case Forward => a.forward
    case MoveRight => a.moveRight
    case TurnRight => a.turnRight
  }

  function Set(a: Axes, x: Axis, v: real): (r: Axes)
    ensures Get(r, x) == v
    ensures forall y :: y != x ==> Get(r, y) == Get(a, y)
  {
    match x
    case Forward => a.(forward := v)
    case MoveRight => a.(moveRight := v)
    case TurnRight => a.(turnRight := v)
  }

  /** No more than one of the three axes is non-zero. */
  predicate AtMostOneNonZero(a: Axes) {
    (a.forward != 0.0 ==> a.moveRight == 0.0 && a.turnRight == 0.0) &&
    (a.moveRight != 0.0 ==> a.turnRight == 0.0)
  }

  /** The two subclasses of `Actions`, as a closed variant. */
  datatype ActionKind = Discrete | Continuous

  /** The `action_dist` string that selects each kind. */
  function DistName(k: ActionKind): string {
    match k
    case Discrete => "discrete"
    case Continuous => "continuous"
  }

  /** The kind `setProperties` builds for an `action_dist` string, or None for any other string. */
  function DistKind(s: string): (r: Option<ActionKind>)
    ensures r.Some? <==> s == "discrete" || s == "continuous"
    ensures r.Some? ==> DistName(r.value) == s
  {
    if s == "discrete" then Some(Discrete)
    else if s == "continuous" then Some(Continuous)
    else None
  }

  lemma DistNameRoundTrip(k: ActionKind)
    ensures DistKind(DistName(k)) == Some(k)
  {
  }

  /** What a call of `SetAction` reports instead of the source's `Debug.Assert` messages. */
  datatype ActionError =
    | NotConfigured                           // `actions` is still null
    | WrongLength(expected: nat, actual: nat) // the step action has the wrong number of entries
    | IndexOutOfRange(index: int)             // the discrete index misses `available`
    | UnknownAction(name: string)             // a name outside the verb or axis table

  /** The intent after one call, together with what the call reported. */
  datatype Decoded = Decoded(intent: Axes, outcome: Outcome<ActionError>)

  /** C#'s `(int)` cast of a finite float: truncation toward zero. */
  function Truncate(x: real): (n: int)
    ensures 0.0 <= x ==> n as real <= x < n as real + 1.0
    ensures x < 0.0 ==> n as real - 1.0 < x <= n as real
    ensures (n < 0) == (x <= -1.0)
  {
    if x >= 0.0 then x.Floor else -((-x).Floor)
  }

  // ---------------------------------------------------------------------------------------
  // Discrete actions
  // ---------------------------------------------------------------------------------------

  /** The six verbs of the discrete switch, each with the intent it produces from zero. */
  function DiscreteVerb(verb: string): (r: Option<Axes>)
    ensures r.Some? ==> AtMostOneNonZero(r.value)
    ensures r.Some? ==> r.value != Zero
  {
    match verb
    case "move_forward" => Some(Axes(1.0, 0.0, 0.0))
    case "move_backward" => Some(Axes(-1.0, 0.0, 0.0))
    case "move_left" => Some(Axes(0.0, 1.0, 0.0))
    case "move_right" => Some(Axes(0.0, -1.0, 0.0))
    case "turn_left" => Some(Axes(0.0, 0.0, -1.0))
    case "turn_right" => Some(Axes(0.0, 0.0, 1.0))
    case _ => None
  }

  /** Reads the verb back from a unit intent: the inverse of the verb table. */
  function VerbOf(a: Axes): Option<string> {
    if a == Axes(1.0, 0.0, 0.0) then Some("move_forward")
    else if a == Axes(-1.0, 0.0, 0.0) then Some("move_backward")
    else if a == Axes(0.0, 1.0, 0.0) then Some("move_left")
    else if a == Axes(0.0, -1.0, 0.0) then Some("move_right")
    else if a == Axes(0.0, 0.0, -1.0) then Some("turn_left")
    else if a == Axes(0.0, 0.0, 1.0) then Some("turn_right")
    else None
  }

  /** Distinct verbs give distinct intents: the table loses nothing. */
  lemma DiscreteVerbInjective(verb: string)
    requires DiscreteVerb(verb).Some?
    ensures VerbOf(DiscreteVerb(verb).value) == Some(verb)
  {
  }

  /**
   * Only the six verbs are recognised, and each drives exactly one axis to +1 or -1: forward for
   * the two moves along the view, moveRight (+1 to the left) for the two side steps, turnRight
   * (+1 to the right) for the two turns.
   */
  lemma DiscreteVerbTable(verb: string)
    ensures DiscreteVerb(verb).Some? <==>
      verb in {"move_forward", "move_backward", "move_left", "move_right", "turn_left", "turn_right"}
    ensures verb == "move_forward" ==> DiscreteVerb(verb) == Some(Set(Zero, Forward, 1.0))
    ensures verb == "move_backward" ==> DiscreteVerb(verb) == Some(Set(Zero, Forward, -1.0))
    ensures verb == "move_left" ==> DiscreteVerb(verb) == Some(Set(Zero, MoveRight, 1.0))
    ensures verb == "move_right" ==> DiscreteVerb(verb) == Some(Set(Zero, MoveRight, -1.0))
    ensures verb == "turn_left" ==> DiscreteVerb(verb) == Some(Set(Zero, TurnRight, -1.0))
    ensures verb == "turn_right" ==> DiscreteVerb(verb) == Some(Set(Zero, TurnRight, 1.0))
    ensures DiscreteVerb(verb).Some? ==>
      exists x :: Get(DiscreteVerb(verb).value, x) in {1.0, -1.0} &&
                  forall y :: y != x ==> Get(DiscreteVerb(verb).value, y) == 0.0
  {
    var r := DiscreteVerb(verb);
    if r.Some? {
      var x := if r.value.forward != 0.0 then Forward
               else if r.value.moveRight != 0.0 then MoveRight
               else TurnRight;
      assert Get(r.value, x) in {1.0, -1.0};
    }
  }

  /**
   * One call of `DiscreteActions.SetAction` on intent `prev`. An empty step action throws at
   * `stepAction[0]` before anything is written. Otherwise the intent is zeroed first, so an index
   * outside `available` or an unknown verb leaves it zeroed; a longer step action is used through
   * its first entry. The error reported is the first assertion the source would fail.
   */
  function DecodeDiscrete(available: seq<string>, step: seq<real>, prev: Axes): (r: Decoded)
    ensures r.outcome.Pass? <==>
      |step| == 1 && 0 <= Truncate(step[0]) < |available| &&
      DiscreteVerb(available[Truncate(step[0])]).Some?
    ensures |step| == 0 ==> r.intent == prev
    ensures |step| != 0 ==> AtMostOneNonZero(r.intent)
    ensures |step| != 1 ==> r.outcome == Fail(WrongLength(1, |step|))
  {
    if |step| == 0 then Decoded(prev, Fail(WrongLength(1, 0)))
    else
      var i := Truncate(step[0]);
      var lengthError := if |step| == 1 then None else Some(WrongLength(1, |step|));
      if !(0 <= i < |available|) then
        Decoded(Zero, Fail(lengthError.GetOr(IndexOutOfRange(i))))
      else match DiscreteVerb(available[i])
        case Some(a) => Decoded(a, if lengthError.Some? then Fail(lengthError.value) else Pass)
        case None => Decoded(Zero, Fail(lengthError.GetOr(UnknownAction(available[i]))))
  }

  /** A completed discrete call sets the verb's axis, and an unknown verb leaves every axis at zero. */
  lemma DiscreteSetsNamedVerb(available: seq<string>, step: seq<real>, prev: Axes)
    requires |step| == 1 && 0 <= Truncate(step[0]) < |available|
    ensures var verb := available[Truncate(step[0])];
      DecodeDiscrete(available, step, prev).intent ==
        if DiscreteVerb(verb).Some? then DiscreteVerb(verb).value else Zero
    ensures DiscreteVerb(available[Truncate(step[0])]).None? ==>
      DecodeDiscrete(available, step, prev).outcome == Fail(UnknownAction(available[Truncate(step[0])]))
  {
  }

  /** An index the truncation puts outside `available` zeroes the intent and is reported. */
  lemma DiscreteIndexOutOfRange(available: seq<string>, step: seq<real>, prev: Axes)
    requires |step| == 1 && !(0 <= Truncate(step[0]) < |available|)
    ensures DecodeDiscrete(available, step, prev) ==
      Decoded(Zero, Fail(IndexOutOfRange(Truncate(step[0]))))
  {
  }

  /** ["move_forward", "turn_right"] with [1.0] turns right and moves no other axis. */
  lemma DiscreteExample(prev: Axes)
    ensures DecodeDiscrete(["move_forward", "turn_right"], [1.0], prev) ==
      Decoded(Axes(0.0, 0.0, 1.0), Pass)
  {
    assert Truncate(1.0) == 1;
  }

  /** Only the first entry of a longer step action is read: the intent is that of the first entry alone. */
  lemma DiscreteUsesFirstEntry(available: seq<string>, step: seq<real>, prev: Axes)
    requires |step| >= 1
    ensures DecodeDiscrete(available, step, prev).intent == DecodeDiscrete(available, step[..1], prev).intent
  {
    assert step[..1][0] == step[0];
  }

  /** Index 1.9 truncates to 1, and -0.5 truncates to 0; neither is rounded. */
  lemma DiscreteIndexTruncates(prev: Axes)
    ensures DecodeDiscrete(["move_forward", "turn_right"], [1.9], prev).intent == Axes(0.0, 0.0, 1.0)
    ensures DecodeDiscrete(["move_forward", "turn_right"], [-0.5], prev).intent == Axes(1.0, 0.0, 0.0)
  {
    assert Truncate(1.9) == 1;
    assert Truncate(-0.5) == 0;
  }

  // ---------------------------------------------------------------------------------------
  // Continuous actions
  // ---------------------------------------------------------------------------------------

  /** The three axis names of the continuous switch. */
  function ContinuousAxis(name: string): Option<Axis> {
    match name
    case "move_forward_backward" => Some(Forward)
    case "move_left_right" => Some(MoveRight)
    case "turn_left_right" => Some(TurnRight)
    case _ => None
  }

  /** One pass of the continuous loop: the named axis takes the value verbatim; an unknown name changes nothing. */
  function ApplyNamed(a: Axes, name: string, v: real): Axes {
    match ContinuousAxis(name)
    case Some(x) => Set(a, x, v)
    case None => a
  }

  /** The loop over `names` and `vals`, index by index, starting from intent `a`. */
  function ApplyAll(a: Axes, names: seq<string>, vals: seq<real>): Axes
    requires |names| == |vals|
  {
    if |names| == 0 then a
    else ApplyNamed(ApplyAll(a, names[..|names| - 1], vals[..|vals| - 1]), names[|names| - 1], vals[|vals| - 1])
  }

  /** The first name the continuous switch does not recognise. */
  function FirstUnknown(names: seq<string>): (r: Option<string>)
    ensures r.None? <==> forall i :: 0 <= i < |names| ==> ContinuousAxis(names[i]).Some?
    ensures r.Some? ==>
      exists i :: 0 <= i < |names| && names[i] == r.value && ContinuousAxis(names[i]).None? &&
        (forall j :: 0 <= j < i ==> ContinuousAxis(names[j]).Some?)
  {
    if |names| == 0 then None
    else
      var p := FirstUnknown(names[..|names| - 1]);
      if p.Some? then
        assert forall i :: 0 <= i < |names| - 1 ==> names[..|names| - 1][i] == names[i];
        p
      else if ContinuousAxis(names[|names| - 1]).None? then Some(names[|names| - 1])
      else
        assert forall i :: 0 <= i < |names| - 1 ==> names[..|names| - 1][i] == names[i];
        None
  }

  /** The last index whose name selects axis `x`, if any. */
  function LastNaming(names: seq<string>, x: Axis): (r: Option<nat>)
    ensures r.Some? ==> (r.value < |names| && ContinuousAxis(names[r.value]) == Some(x) &&
      forall j :: r.value < j < |names| ==> ContinuousAxis(names[j]) != Some(x))
    ensures r.None? ==> forall j :: 0 <= j < |names| ==> ContinuousAxis(names[j]) != Some(x)
  {
    if |names| == 0 then None
    else if ContinuousAxis(names[|names| - 1]) == Some(x) then Some(|names| - 1)
    else
      var p := LastNaming(names[..|names| - 1], x);
      assert forall j :: 0 <= j < |names| - 1 ==> names[..|names| - 1][j] == names[j];
      p
  }

  /**
   * What the continuous loop leaves on each axis: the value at the last index naming it,
   * or, when no name selects it, the value it had before the call.
   */
  lemma {:induction false} ApplyAllAxis(a: Axes, names: seq<string>, vals: seq<real>, x: Axis)
    requires |names| == |vals|
    ensures Get(ApplyAll(a, names, vals), x) ==
      match LastNaming(names, x)
      case Some(k) => vals[k]
      case None => Get(a, x)
  {
    if |names| != 0 {
      var n := |names| - 1;
      ApplyAllAxis(a, names[..n], vals[..n], x);
      if ContinuousAxis(names[n]) != Some(x) {
        var p := LastNaming(names[..n], x);
        if p.Some? {
          assert vals[..n][p.value] == vals[p.value];
        }
      }
    }
  }

  /**
   * One call of `ContinuousActions.SetAction` on intent `prev`. Nothing is reset. On a length
   * mismatch the source's loop runs over the shorter of the two lists (it stops at the step
   * action's end, or throws at `available[i]` past the list's end), so exactly that prefix is applied.
   */
  function DecodeContinuous(available: seq<string>, step: seq<real>, prev: Axes): (r: Decoded)
    ensures r.outcome.Pass? <==>
      |step| == |available| && forall i :: 0 <= i < |available| ==> ContinuousAxis(available[i]).Some?
    ensures |step| != |available| ==> r.outcome == Fail(WrongLength(|available|, |step|))
  {
    var n := if |step| < |available| then |step| else |available|;
    var intent := ApplyAll(prev, available[..n], step[..n]);
    if |step| != |available| then Decoded(intent, Fail(WrongLength(|available|, |step|)))
    else match FirstUnknown(available)
      case Some(name) => Decoded(intent, Fail(UnknownAction(name)))
      case None => Decoded(intent, Pass)
  }

  /**
   * A matching continuous call sets each named axis to the value at the last index naming it,
   * verbatim and unclamped, and keeps every axis no name selects at its previous value.
   */
  lemma ContinuousAxisValue(available: seq<string>, step: seq<real>, prev: Axes, x: Axis)
    requires |step| == |available|
    ensures Get(DecodeContinuous(available, step, prev).intent, x) ==
      match LastNaming(available, x)
      case Some(k) => step[k]
      case None => Get(prev, x)
  {
    assert available[..|available|] == available;
    assert step[..|step|] == step;
    ApplyAllAxis(prev, available, step, x);
  }

  /** An axis no entry of `available` names keeps its value, whatever the step action holds. */
  lemma ContinuousKeepsUnnamedAxes(available: seq<string>, step: seq<real>, prev: Axes, x: Axis)
    requires forall i :: 0 <= i < |available| ==> ContinuousAxis(available[i]) != Some(x)
    ensures Get(DecodeContinuous(available, step, prev).intent, x) == Get(prev, x)
  {
    var n := if |step| < |available| then |step| else |available|;
    ApplyAllAxis(prev, available[..n], step[..n], x);
  }

  /** ["move_forward_backward"] with [0.7] and then [-0.2] leaves a previous turn of 0.5 alone. */
  lemma ContinuousExample()
    ensures var once := DecodeContinuous(["move_forward_backward"], [0.7], Axes(0.0, 0.0, 0.5));
      var twice := DecodeContinuous(["move_forward_backward"], [-0.2], once.intent);
      once == Decoded(Axes(0.7, 0.0, 0.5), Pass) && twice == Decoded(Axes(-0.2, 0.0, 0.5), Pass)
  {
    var names: seq<string> := ["move_forward_backward"];
    assert names[..1] == names;
    assert [0.7][..1] == [0.7];
    assert [-0.2][..1] == [-0.2];
    assert names[..0] == [];
  }

  /** Either kind's decoding, selected by the variant. */
  function Decode(kind: ActionKind, available: seq<string>, step: seq<real>, prev: Axes): Decoded {
    match kind
    case Discrete => DecodeDiscrete(available, step, prev)
    case Continuous => DecodeContinuous(available, step, prev)
  }
}
