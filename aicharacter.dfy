/** game/components/aicharacter.py: a character that walks along a path of named nodes. */
module GameAICharacter {
  import opened Common
  import opened Geometry
  import opened EngineMath
  import opened GameCharacterController

  /** `MOVEMENT_SPEED`. */
  const DefaultMovementSpeed: real := 600.0

  /** `epsilon` of `update`: a node closer than this horizontally counts as reached. */
  const ArrivalDistance: real := 3.0

  /** The path nodes `start` finds for the names, in order, skipping the names the scene
      has no object for. A node is given by its transform's position vector; the lookup
      stands for `scene.get_object_by_name`. */
  function Found(names: seq<string>, lookup: string -> Option<Vector2>): (r: seq<Vector2>)
    ensures |r| <= |names|
    ensures forall x :: x in r ==> exists n :: n in names && lookup(n) == Some(x)
  {
    if names == [] then []
    else
      var init := names[..|names| - 1];
      var last := names[|names| - 1];
      var r := Found(init, lookup) + (match lookup(last) case Some(x) => [x] case None => []);
      assert forall n :: n in init ==> n in names;
      r
  }

  /** The names are looked up one after another: the nodes found for `a + b` are those
      found for `a`, then those found for `b`. */
  lemma {:induction false} FoundConcat(a: seq<string>, b: seq<string>, lookup: string -> Option<Vector2>)
    ensures Found(a + b, lookup) == Found(a, lookup) + Found(b, lookup)
    decreases |b|
  {
    if b == [] {
      assert a + b == a;
    } else {
      var init := b[..|b| - 1];
      assert (a + b)[..|a + b| - 1] == a + init && (a + b)[|a + b| - 1] == b[|b| - 1];
      FoundConcat(a, init, lookup);
    }
  }

  /** One name gives its node, or nothing when the scene has no object of that name. */
  lemma FoundOne(n: string, lookup: string -> Option<Vector2>)
    ensures Found([n], lookup) == match lookup(n) case Some(x) => [x] case None => []
  {
    assert [n][..0] == [];
  }

  /** When every name is found, the path is the found nodes, one per name, in order. */
  lemma {:induction false} AllNamesFound(names: seq<string>, lookup: string -> Option<Vector2>)
    requires forall i :: 0 <= i < |names| ==> lookup(names[i]).Some?
    ensures |Found(names, lookup)| == |names|
    ensures forall i :: 0 <= i < |names| ==> Found(names, lookup)[i] == lookup(names[i]).value
  {
    if names != [] {
      var init, last := names[..|names| - 1], names[|names| - 1];
      assert forall i :: 0 <= i < |init| ==> init[i] == names[i];
      AllNamesFound(init, lookup);
      var f := Found(init, lookup);
      assert Found(names, lookup) == f + [lookup(last).value];
    }
  }

  /** When no name is found, the path stays empty. */
  lemma {:induction false} NoNameFound(names: seq<string>, lookup: string -> Option<Vector2>)
    requires forall i :: 0 <= i < |names| ==> lookup(names[i]).None?
    ensures Found(names, lookup) == []
  {
    if names != [] {
      NoNameFound(names[..|names| - 1], lookup);
    }
  }

  /** Reaching the current node: the index moves on; past the last node it wraps to 0 when
      the path loops, and otherwise stays on the last node and stops. */
  function Arrive(index: nat, length: nat, loop: bool): (r: (nat, bool))
    requires index < length
    ensures r.0 < length
  {
    if index + 1 < length then (index + 1, false)
    else if loop then (0, false)
    else (length - 1, true)
  }

  /** The index and stopped flag after `k` arrivals from the start of a path, counting only
      the arrivals before stopping. */
  function AfterArrivals(k: nat, length: nat, loop: bool): (r: (nat, bool))
    requires length > 0
    ensures r.0 < length
  {
    if k == 0 then (0, false)
    else
      var (index, stopped) := AfterArrivals(k - 1, length, loop);
      if stopped then (index, stopped) else Arrive(index, length, loop)
  }

  /** The first pass along a path visits each node in order; a path that does not loop
      then stops on its last node. */
  lemma {:induction false} FirstPass(k: nat, length: nat, loop: bool)
    requires length > 0
    ensures k < length ==> AfterArrivals(k, length, loop) == (k, false)
    ensures !loop && k >= length ==> AfterArrivals(k, length, loop) == (length - 1, true)
  {
    if k > 0 {
      FirstPass(k - 1, length, loop);
    }
  }

  /** A looping path never stops and starts over after every `length` arrivals. */
  lemma {:induction false} LoopRepeats(k: nat, length: nat)
    requires length > 0
    ensures AfterArrivals(k + length, length, true) == AfterArrivals(k, length, true)
    ensures !AfterArrivals(k, length, true).1
  {
    if k == 0 {
      FirstPass(length - 1, length, true);
    } else {
      LoopRepeats(k - 1, length);
      assert k + length - 1 == (k - 1) + length;
    }
  }

  /** `diff.normalize()` of the horizontal difference `(dx, 0)`: its x component. */
  function Direction(dx: real): (d: real)
    requires dx != 0.0
    ensures d == Sign(dx)
  {
    var magnitude := Abs(dx);
    UnitQuotients(magnitude);
    dx / magnitude
  }

  /** A positive number divided by itself, or by its negation. */
  lemma UnitQuotients(y: real)
    requires y > 0.0
    ensures y / y == 1.0 && (-y) / y == -1.0
  {
  }

  /** The AI-character component. */
  class AICharacter {
    /** `_path_nodes_names`. */
    const pathNodeNames: seq<string>
    var path: seq<Vector2>
    const loop: bool
    var currentPathIndex: nat
    var stopped: bool
    const movementSpeed: real

    /** The index always points into the path, or is 0 while the path is empty. */
    predicate IndexInPath()
      reads this
    {
      currentPathIndex < |path| || currentPathIndex == 0
    }

    /** `AICharacter(path, loop, movement_speed)`: no path nodes yet, at the first index,
        not stopped; no names when `path` is `None`. */
    constructor (names: Option<seq<string>>, loop: bool, movementSpeed: real)
      ensures pathNodeNames == names.GetOr([]) && path == [] && this.loop == loop
      ensures currentPathIndex == 0 && !stopped && this.movementSpeed == movementSpeed
      ensures IndexInPath()
    {
      pathNodeNames := names.GetOr([]);
      path := [];
      this.loop := loop;
      currentPathIndex := 0;
      stopped := false;
      this.movementSpeed := movementSpeed;
    }

    /** `start()`: the nodes found for the names are appended to the path, in order. */
    method Start(lookup: string -> Option<Vector2>)
      requires IndexInPath()
      modifies this
      ensures path == old(path) + Found(pathNodeNames, lookup)
      ensures currentPathIndex == old(currentPathIndex) && stopped == old(stopped)
      ensures IndexInPath()
    {
      var i := 0;
      ghost var before := path;
      while i < |pathNodeNames|
        invariant 0 <= i <= |pathNodeNames|
        invariant path == before + Found(pathNodeNames[..i], lookup)
        invariant currentPathIndex == old(currentPathIndex) && stopped == old(stopped)
      {
        assert pathNodeNames[..i + 1][..i] == pathNodeNames[..i];
        var node := lookup(pathNodeNames[i]);
        if node.Some? {
          path := path + [node.value];
        }
        i := i + 1;
      }
      assert pathNodeNames[..i] == pathNodeNames;
    }

    /** `update()`: nothing happens with an empty path or once stopped. Otherwise, while the
        current node is more than 3 units away horizontally, the controller's horizontal
        velocity is pushed toward it and clamped to the movement speed; once it is that
        close, the character arrives at it. `position` is the character's own position. */
    method Update(position: Vector2, controller: CharacterController, dt: real)
      requires IndexInPath()
      modifies this, controller
      ensures IndexInPath()
      ensures path == old(path)
      ensures old(|path| == 0 || stopped) ==>
        currentPathIndex == old(currentPathIndex) && stopped == old(stopped) && unchanged(controller)
      ensures old(|path| > 0 && !stopped) ==>
        var dx := old(path[currentPathIndex]).x - position.x;
        if Abs(dx) > ArrivalDistance then
          && controller.velocity == old(controller.velocity).(x := Clamp(Sign(dx) * movementSpeed * dt + old(controller.velocity.x), -movementSpeed, movementSpeed))
          && controller.flying == old(controller.flying) && controller.appliedVelocity == old(controller.appliedVelocity)
          && currentPathIndex == old(currentPathIndex) && stopped == old(stopped)
        else
          && (currentPathIndex, stopped) == Arrive(old(currentPathIndex), |path|, loop)
          && unchanged(controller)
    {
      if |path| == 0 || stopped {
        return;
      }
      var node := path[currentPathIndex];
      var dx := node.x - position.x;
      if Abs(dx) > ArrivalDistance {
        var newVelocityX := Direction(dx) * movementSpeed * dt + controller.velocity.x;
        controller.velocity := controller.velocity.(x := Clamp(newVelocityX, -movementSpeed, movementSpeed));
      } else {
        currentPathIndex := currentPathIndex + 1;
        if currentPathIndex >= |path| {
          if loop {
            currentPathIndex := 0;
          } else {
            currentPathIndex := |path| - 1;
            stopped := true;
          }
        }
      }
    }
  }
}
