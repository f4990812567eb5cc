/** game/components/cameracontrols.py: moving a free camera with the direction bindings. */
module GameCameraControls {
  import opened Common
  import opened Geometry
  import opened EngineInput
  import opened EngineComponents

  /** The camera's speed: 800 units per second along each axis. */
  const CameraSpeed: real := 800.0

  /** How far the camera moved along each axis, and the exception that ended the `try` block
      early, if any. */
  datatype Pan = Pan(dx: real, dy: real, raised: Option<Exception>)

  /** Whether `name` is bound and held. */
  predicate Held(bindings: map<string, Key>, keyStatus: map<Key, KeyStatus>, name: string) {
    name in bindings && IsPressedStatus(StatusOf(keyStatus, bindings[name]))
  }

  /** The move of one binding along its axis: `step` when held, else nothing. */
  function Along(bindings: map<string, Key>, keyStatus: map<Key, KeyStatus>, name: string, step: real): real {
    if Held(bindings, keyStatus, name) then step else 0.0
  }

  /** One `if Input.is_binding_pressed(name)` of the block: skipped once an exception was
      raised; otherwise an unbound name raises, and a held one adds `amount` to the x
      (`horizontal`) or the y of the position. */
  function PanStep(bindings: map<string, Key>, keyStatus: map<Key, KeyStatus>, name: string, horizontal: bool, amount: real, p: Pan): Pan {
    if p.raised.Some? then p
    else if name !in bindings then p.(raised := Some(BindingDoesNotExist(name)))
    else if !Held(bindings, keyStatus, name) then p
    else if horizontal then p.(dx := p.dx + amount)
    else p.(dy := p.dy + amount)
  }

  /** The whole block, from no movement: "forward" moves up (y decreases), "back" down,
      "left" and "right" along x, each by `step`. */
  function Panned(bindings: map<string, Key>, keyStatus: map<Key, KeyStatus>, step: real): Pan {
    var p1 := PanStep(bindings, keyStatus, "forward", false, -step, Pan(0.0, 0.0, None));
    var p2 := PanStep(bindings, keyStatus, "back", false, step, p1);
    var p3 := PanStep(bindings, keyStatus, "left", true, -step, p2);
    PanStep(bindings, keyStatus, "right", true, step, p3)
  }

  /** `is_binding_pressed(name)` answers `Held` for a bound name. */
  lemma PressedIsHeld(bindings: map<string, Key>, keyStatus: map<Key, KeyStatus>, name: string)
    requires name in bindings
    ensures BindingPressed(bindings, keyStatus, name) == Ok(Held(bindings, keyStatus, name))
  {
  }

  /** With the four names bound, each held binding moves the camera by `step` in its
      direction, so opposite bindings held together cancel out. */
  lemma HeldBindingsMove(bindings: map<string, Key>, keyStatus: map<Key, KeyStatus>, step: real)
    requires "forward" in bindings && "back" in bindings && "left" in bindings && "right" in bindings
    ensures var p := Panned(bindings, keyStatus, step);
      && p.raised.None?
      && p.dx == Along(bindings, keyStatus, "right", step) - Along(bindings, keyStatus, "left", step)
      && p.dy == Along(bindings, keyStatus, "back", step) - Along(bindings, keyStatus, "forward", step)
      && (Held(bindings, keyStatus, "left") == Held(bindings, keyStatus, "right") ==> p.dx == 0.0)
      && (Held(bindings, keyStatus, "forward") == Held(bindings, keyStatus, "back") ==> p.dy == 0.0)
  {
  }

  /** A missing binding ends the block: the moves before it stay applied, and none after it
      is taken. */
  lemma MissingBindingSkipsTheRest(bindings: map<string, Key>, keyStatus: map<Key, KeyStatus>, step: real)
    ensures var p := Panned(bindings, keyStatus, step);
      && ("forward" !in bindings ==> p == Pan(0.0, 0.0, Some(BindingDoesNotExist("forward"))))
      && ("forward" in bindings && "back" !in bindings ==>
            p == Pan(0.0, -Along(bindings, keyStatus, "forward", step), Some(BindingDoesNotExist("back"))))
      && ("forward" in bindings && "back" in bindings && "left" !in bindings ==>
            && p.dx == 0.0
            && p.dy == Along(bindings, keyStatus, "back", step) - Along(bindings, keyStatus, "forward", step)
            && p.raised == Some(BindingDoesNotExist("left")))
      && ("forward" in bindings && "back" in bindings && "left" in bindings && "right" !in bindings ==>
            p.dx == -Along(bindings, keyStatus, "left", step) && p.raised == Some(BindingDoesNotExist("right")))
  {
  }

  /** `update()`: with a `Transform` on the object (`transform` is what `get_component`
      found), its position vector is moved in place by every held binding until a missing
      one ends the block; without one nothing is read or changed. The caught exception is
      returned as the warning that would be logged. */
  method Update(transform: Component?, input: Input, dt: real) returns (warning: Option<Exception>)
    requires transform != null ==> transform.data.TransformData?
    modifies input, if transform != null then {transform.data.position} else {}
    ensures transform == null ==> warning.None? && unchanged(input)
    ensures transform != null ==>
      var p := Panned(old(input.bindings), old(input.keyStatus), CameraSpeed * dt);
      var position := transform.data.position;
      && position.x == old(position.x) + p.dx && position.y == old(position.y) + p.dy
      && warning == p.raised
    ensures input.bindings == old(input.bindings) && forall k :: StatusOf(input.keyStatus, k) == StatusOf(old(input.keyStatus), k)
  {
    warning := None;
    if transform == null {
      return;
    }
    warning := PanCamera(input, transform.data.position, CameraSpeed * dt);
  }

  /** The four `if` statements of `update` on the transform's position vector. */
  method PanCamera(input: Input, position: Vector2, step: real) returns (warning: Option<Exception>)
    modifies input, position
    ensures var p := Panned(old(input.bindings), old(input.keyStatus), step);
      && position.x == old(position.x) + p.dx && position.y == old(position.y) + p.dy
      && warning == p.raised
    ensures input.bindings == old(input.bindings) && forall k :: StatusOf(input.keyStatus, k) == StatusOf(old(input.keyStatus), k)
  {
    ghost var bindings, keyStatus, x0, y0 := input.bindings, input.keyStatus, position.x, position.y;
    ghost var p0 := Pan(0.0, 0.0, None);
    ghost var p1 := PanStep(bindings, keyStatus, "forward", false, -step, p0);
    ghost var p2 := PanStep(bindings, keyStatus, "back", false, step, p1);
    ghost var p3 := PanStep(bindings, keyStatus, "left", true, -step, p2);
    ghost var p4 := PanStep(bindings, keyStatus, "right", true, step, p3);
    assert Panned(bindings, keyStatus, step) == p4;
    warning := MoveIfHeld(input, position, "forward", false, -step, x0, y0, p0, keyStatus);
    if warning.Some? {
      assert p4 == p1;
      return;
    }
    warning := MoveIfHeld(input, position, "back", false, step, x0, y0, p1, keyStatus);
    if warning.Some? {
      assert p4 == p2;
      return;
    }
    warning := MoveIfHeld(input, position, "left", true, -step, x0, y0, p2, keyStatus);
    if warning.Some? {
      assert p4 == p3;
      return;
    }
    warning := MoveIfHeld(input, position, "right", true, step, x0, y0, p3, keyStatus);
  }

  /** One of the four `if` statements of `update`: asks about `name` and, when it is held,
      adds `amount` to the position's x (`horizontal`) or y in place. `p` is the movement
      so far from `(x0, y0)`. */
  method MoveIfHeld(input: Input, position: Vector2, name: string, horizontal: bool, amount: real,
                    ghost x0: real, ghost y0: real, ghost p: Pan, ghost keyStatus: map<Key, KeyStatus>) returns (raised: Option<Exception>)
    requires p.raised.None? && position.x == x0 + p.dx && position.y == y0 + p.dy
    requires forall k :: StatusOf(input.keyStatus, k) == StatusOf(keyStatus, k)
    modifies input, position
    ensures var q := PanStep(old(input.bindings), keyStatus, name, horizontal, amount, p);
      && raised == q.raised && position.x == x0 + q.dx && position.y == y0 + q.dy
    ensures input.bindings == old(input.bindings) && forall k :: StatusOf(input.keyStatus, k) == StatusOf(keyStatus, k)
  {
    SameStatusesSameAnswers(input.bindings, input.keyStatus, keyStatus, name);
    if name in input.bindings {
      PressedIsHeld(input.bindings, keyStatus, name);
    }
    var pressed := input.IsBindingPressed(name);
    if pressed.Raise? {
      return Some(pressed.error);
    }
    raised := None;
    if pressed.value {
      if horizontal {
        position.x := position.x + amount;
      } else {
        position.y := position.y + amount;
      }
    }
  }
}
