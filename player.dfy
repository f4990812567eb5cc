/** game/components/player.py: the player's input turned into the character controller's
    velocity, and the camera following the player. */
module GamePlayer {
  import opened Common
  import opened Geometry
  import opened EngineMath
  import opened EngineInput
  import opened EngineComponents
  import opened GameCharacterController

  /** `MOVEMENT_PER_SECOND`, `JUMP_SPEED`, `MAX_VERTICAL_SPEED`, `MAX_HORIZONTAL_SPEED`. */
  const MovementPerSecond: real := 1700.0
  const JumpSpeed: real := 700.0
  const MaxVerticalSpeed: real := 1200.0
  const MaxHorizontalSpeed: real := 500.0

  /** Slowing down with no direction held: `vx - sign(vx) * min(step, abs(vx))`. */
  function Friction(vx: real, step: real): real {
    vx - Sign(vx) * MinReal(step, Abs(vx))
  }

  /** For a non-negative step, friction brings the speed toward 0 by the step, stops there
      and never reverses the direction; a character at rest stays at rest. */
  lemma FrictionTowardZero(vx: real, step: real)
    requires step >= 0.0
    ensures var r := Friction(vx, step);
      && Abs(r) <= Abs(vx)
      && (Abs(vx) <= step ==> r == 0.0)
      && (Abs(vx) > step ==> Abs(r) == Abs(vx) - step && Sign(r) == Sign(vx))
      && r * vx >= 0.0
      && (vx == 0.0 ==> r == 0.0)
  {
  }

  /** What the `try` block of `_handle_input` leaves behind: the velocity and flying state it
      set, and the exception that ended it early, if any (it is caught and logged). */
  datatype Steer = Steer(velocity: Vec, flying: bool, raised: Option<Exception>)

  /** The horizontal part of the `try` block: the velocity it leaves and the exception that
      ended it early, if any. */
  datatype Push = Push(velocity: Vec, raised: Option<Exception>)

  /** Lines 30-39: "left" and "right" push the horizontal velocity, and friction applies
      when neither is held. An unbound name raises and skips the rest. */
  function Pushed(bindings: map<string, Key>, keyStatus: map<Key, KeyStatus>, v: Vec, dt: real): Push {
    var step := MovementPerSecond * dt;
    match BindingPressed(bindings, keyStatus, "left")
    case Raise(e) => Push(v, Some(e))
    case Ok(left) =>
      var v1 := if left then v.(x := v.x - step) else v;
      match BindingPressed(bindings, keyStatus, "right")
      case Raise(e) => Push(v1, Some(e))
      case Ok(right) =>
        var v2 := if right then v1.(x := v1.x + step) else v1;
        Push(if !left && !right then v2.(x := Friction(v2.x, step)) else v2, None)
  }

  /** Lines 41-44: "jump" from the ground starts a jump. */
  function Jumped(bindings: map<string, Key>, keyStatus: map<Key, KeyStatus>, v: Vec, flying: bool): Steer {
    match BindingPressed(bindings, keyStatus, "jump")
    case Raise(e) => Steer(v, flying, Some(e))
    case Ok(jump) =>
      if jump && !flying then Steer(v.(y := -JumpSpeed), true, None)
      else Steer(v, flying, None)
  }

  /** The `try` block of `_handle_input`: the horizontal part, then the jump unless an
      unbound name already ended the block. */
  function Steered(bindings: map<string, Key>, keyStatus: map<Key, KeyStatus>, v: Vec, flying: bool, dt: real): Steer {
    var h := Pushed(bindings, keyStatus, v, dt);
    if h.raised.Some? then Steer(h.velocity, flying, h.raised)
    else Jumped(bindings, keyStatus, h.velocity, flying)
  }

  /** The velocity clamping after the `try` block. */
  function Clamped(v: Vec): (r: Vec)
    ensures -MaxHorizontalSpeed <= r.x <= MaxHorizontalSpeed
    ensures -MaxVerticalSpeed <= r.y <= MaxVerticalSpeed
    ensures -MaxHorizontalSpeed <= v.x <= MaxHorizontalSpeed ==> r.x == v.x
    ensures -MaxVerticalSpeed <= v.y <= MaxVerticalSpeed ==> r.y == v.y
  {
    Vec(Clamp(v.x, -MaxHorizontalSpeed, MaxHorizontalSpeed), Clamp(v.y, -MaxVerticalSpeed, MaxVerticalSpeed))
  }

  /** All three names bound. */
  predicate AllBound(bindings: map<string, Key>) {
    "left" in bindings && "right" in bindings && "jump" in bindings
  }

  /** With every name bound, holding one direction moves by a step in it, holding both
      cancels out, and holding neither applies friction. */
  lemma Directions(bindings: map<string, Key>, keyStatus: map<Key, KeyStatus>, v: Vec, flying: bool, dt: real)
    requires AllBound(bindings)
    ensures var s := Steered(bindings, keyStatus, v, flying, dt);
      var left, right := BindingPressed(bindings, keyStatus, "left").value, BindingPressed(bindings, keyStatus, "right").value;
      && s.raised.None?
      && (left && !right ==> s.velocity.x == v.x - MovementPerSecond * dt)
      && (right && !left ==> s.velocity.x == v.x + MovementPerSecond * dt)
      && (left && right ==> s.velocity.x == v.x)
      && (!left && !right ==> s.velocity.x == Friction(v.x, MovementPerSecond * dt))
  {
  }

  /** With every name bound, "jump" from the ground sets the upward jump speed and flying;
      otherwise the vertical velocity and flying state are left alone. */
  lemma JumpOnlyFromGround(bindings: map<string, Key>, keyStatus: map<Key, KeyStatus>, v: Vec, flying: bool, dt: real)
    requires AllBound(bindings)
    ensures var s := Steered(bindings, keyStatus, v, flying, dt);
      var jump := BindingPressed(bindings, keyStatus, "jump").value;
      && (jump && !flying ==> s.velocity.y == -JumpSpeed && s.flying)
      && (!(jump && !flying) ==> s.velocity.y == v.y && s.flying == flying)
  {
  }

  /** An unbound name stops the block where it is asked: what was done before stays, nothing
      after it happens, and its exception is the one logged. */
  lemma MissingBindingStopsEarly(bindings: map<string, Key>, keyStatus: map<Key, KeyStatus>, v: Vec, flying: bool, dt: real)
    ensures var s := Steered(bindings, keyStatus, v, flying, dt);
      && ("left" !in bindings ==> s == Steer(v, flying, Some(BindingDoesNotExist("left"))))
      && ("left" in bindings && "right" !in bindings ==>
            var left := StatusOf(keyStatus, bindings["left"]) in {PressedThisFrame, Pressed};
            s == Steer(if left then v.(x := v.x - MovementPerSecond * dt) else v, flying, Some(BindingDoesNotExist("right"))))
      && ("left" in bindings && "right" in bindings && "jump" !in bindings ==>
            s.velocity.y == v.y && s.flying == flying && s.raised == Some(BindingDoesNotExist("jump")))
      && (AllBound(bindings) <==> s.raised.None?)
  {
  }

  /** The state `_handle_input` leaves, from the state before it. */
  ghost predicate InputHandled(input: Input, controller: CharacterController, bindings: map<string, Key>, keyStatus: map<Key, KeyStatus>,
                               v: Vec, flying: bool, dt: real, warning: Option<Exception>)
    reads input, controller
  {
    var s := Steered(bindings, keyStatus, v, flying, dt);
    && controller.velocity == Clamped(s.velocity) && controller.flying == s.flying && warning == s.raised
    && input.bindings == bindings && (forall k :: StatusOf(input.keyStatus, k) == StatusOf(keyStatus, k))
  }

  /** `_handle_input()`: the controller's velocity and flying state follow the bound keys,
      then the velocity is clamped to the maximum speeds whether or not a binding was
      missing. The caught exception is returned as the warning that would be logged. */
  method HandleInput(input: Input, controller: CharacterController, dt: real) returns (warning: Option<Exception>)
    modifies input, controller`velocity, controller`flying
    ensures InputHandled(input, controller, old(input.bindings), old(input.keyStatus), old(controller.velocity), old(controller.flying), dt, warning)
    ensures controller.appliedVelocity == old(controller.appliedVelocity)
  {
    warning := PushHorizontally(input, controller, dt);
    if warning.None? {
      warning := JumpFromGround(input, controller);
    }
    controller.velocity := controller.velocity.(x := Clamp(controller.velocity.x, -MaxHorizontalSpeed, MaxHorizontalSpeed));
    controller.velocity := controller.velocity.(y := Clamp(controller.velocity.y, -MaxVerticalSpeed, MaxVerticalSpeed));
  }

  /** Lines 30-39 of `_handle_input`. */
  method PushHorizontally(input: Input, controller: CharacterController, dt: real) returns (raised: Option<Exception>)
    modifies input, controller`velocity
    ensures var h := Pushed(old(input.bindings), old(input.keyStatus), old(controller.velocity), dt);
      controller.velocity == h.velocity && raised == h.raised
    ensures controller.flying == old(controller.flying) && controller.appliedVelocity == old(controller.appliedVelocity)
    ensures input.bindings == old(input.bindings) && forall k :: StatusOf(input.keyStatus, k) == StatusOf(old(input.keyStatus), k)
  {
    ghost var keyStatus := input.keyStatus;
    raised := None;
    var left := input.IsBindingPressed("left");
    if left.Raise? {
      return Some(left.error);
    }
    var bindingPressed := false;
    if left.value {
      bindingPressed := true;
      controller.velocity := controller.velocity.(x := controller.velocity.x - MovementPerSecond * dt);
    }
    var right := input.IsBindingPressed("right");
    SameStatusesSameAnswers(input.bindings, input.keyStatus, keyStatus, "right");
    if right.Raise? {
      return Some(right.error);
    }
    if right.value {
      bindingPressed := true;
      controller.velocity := controller.velocity.(x := controller.velocity.x + MovementPerSecond * dt);
    }
    if !bindingPressed {
      var sigma := Sign(controller.velocity.x);
      controller.velocity := controller.velocity.(x := controller.velocity.x - sigma * MinReal(MovementPerSecond * dt, Abs(controller.velocity.x)));
    }
  }

  /** Lines 41-44 of `_handle_input`. */
  method JumpFromGround(input: Input, controller: CharacterController) returns (raised: Option<Exception>)
    modifies input, controller`velocity, controller`flying
    ensures var j := Jumped(old(input.bindings), old(input.keyStatus), old(controller.velocity), old(controller.flying));
      controller.velocity == j.velocity && controller.flying == j.flying && raised == j.raised
    ensures controller.appliedVelocity == old(controller.appliedVelocity)
    ensures input.bindings == old(input.bindings) && forall k :: StatusOf(input.keyStatus, k) == StatusOf(old(input.keyStatus), k)
  {
    raised := None;
    var jump := input.IsBindingPressed("jump");
    if jump.Raise? {
      raised := Some(jump.error);
    } else if jump.value && !controller.flying {
      controller.velocity := controller.velocity.(y := -JumpSpeed);
      controller.flying := true;
    }
  }

  /** `update()`: the camera's transform takes the player's position vector itself, so the
      camera follows every later change of it; then the input is handled. */
  method Update(camera: Component, player: Component, input: Input, controller: CharacterController, dt: real) returns (warning: Option<Exception>)
    requires camera.data.TransformData? && player.data.TransformData?
    modifies camera`data, input, controller`velocity, controller`flying
    ensures camera.data == old(camera.data).(position := old(player.data.position))
    ensures player != camera ==> player.data == old(player.data)
    ensures controller.appliedVelocity == old(controller.appliedVelocity)
    ensures InputHandled(input, controller, old(input.bindings), old(input.keyStatus), old(controller.velocity), old(controller.flying), dt, warning)
  {
    camera.data := camera.data.(position := player.data.position);
    warning := HandleInput(input, controller, dt);
  }
}
