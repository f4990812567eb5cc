/** game/components/charactercontroller.py: gravity, the collision sweeps against the tiled
    map and the animation a character shows, applied once per frame. */
module GameCharacterController {
  import opened Common
  import opened Geometry
  import opened EngineMath
  import opened EngineComponents

  /** A map tile, by its column and row. */
  datatype Tile = Tile(x: int, y: int)

  /** The tiled-map queries the controller makes. Their implementation over the loaded map
      (engine/tiledmap.py) is not part of this model, so a map is given by what they answer:
      the collidable tiles overlapping a rectangle, the rectangle a tile covers, and whether
      a position lies inside the map. */
  datatype TileMap = TileMap(
    collidableTiles: Rect -> seq<Tile>,
    rectangleForTile: Tile -> Rect,
    containsPosition: Vec -> bool)

  /** `DEFAULT_GRAVITY`. */
  const DefaultGravity: real := 825.0

  /** `epsilon` of `_handle_collisions`: the probes reach one unit past the next step, and a
      landing leaves the box one unit above the tile. */
  const Epsilon: real := 1.0

  /** `len(tiled_map.get_tiles_for_area(rectangle, collidable=True)) > 0`. */
  predicate Touches(tiledMap: TileMap, rectangle: Rect) {
    |tiledMap.collidableTiles(rectangle)| > 0
  }

  /** `min(tiles, key=lambda t: t.y)`: the position of the first tile with the smallest row. */
  function LowestIndex(tiles: seq<Tile>): (i: nat)
    requires tiles != []
    ensures i < |tiles|
    ensures forall j :: 0 <= j < |tiles| ==> tiles[i].y <= tiles[j].y
    ensures forall j :: 0 <= j < i ==> tiles[j].y > tiles[i].y
  {
    if |tiles| == 1 then 0
    else
      var k := LowestIndex(tiles[1..]);
      if tiles[k + 1].y < tiles[0].y then k + 1 else 0
  }

  /** The animation `_handle_animations` plays. */
  datatype Animation = Stand | Walk | Jump

  /** What `_handle_animations` does to the sprite renderer: the new `horizontal_flip`
      (`None` leaves it as it was) and the animation it plays. */
  datatype Shown = Shown(flip: Option<bool>, animation: Animation)

  /** `_handle_animations` for the final horizontal velocity and flying state. */
  function AnimationFor(vx: real, flying: bool): (s: Shown)
    ensures s.flip == Some(true) <==> vx < 0.0
    ensures s.flip == Some(false) <==> vx > 0.0
    ensures s.flip.None? <==> vx == 0.0
    ensures s.animation == Jump <==> flying
    ensures s.animation == Walk <==> !flying && vx != 0.0
    ensures s.animation == Stand <==> !flying && vx == 0.0
  {
    var flip := if vx < 0.0 then Some(true) else if vx > 0.0 then Some(false) else None;
    var animation := if !flying then (if vx != 0.0 then Walk else Stand) else Jump;
    Shown(flip, animation)
  }

  /** The state `_handle_collisions` works on: the controller's `flying` and `velocity`, the
      step `dt_velocity` and the y of the transform's position vector. */
  datatype Motion = Motion(flying: bool, velocity: Vec, dtVelocity: Vec, y: real)

  /** The rectangle of the ground check: the box moved 3 units down. */
  function GroundProbe(box: Rect): Rect {
    box.Move(0.0, 3.0)
  }

  /** The horizontal probe: the box moved by the horizontal step plus epsilon, and by `dy`. */
  function HorizontalProbe(box: Rect, m: Motion, dy: real): Rect {
    box.Move(m.dtVelocity.x + Epsilon * Sign(m.dtVelocity.x), dy)
  }

  /** The vertical probe: the box moved by the vertical step plus epsilon. */
  function VerticalProbe(box: Rect, m: Motion): Rect {
    box.Move(0.0, m.dtVelocity.y + Epsilon * Sign(m.dtVelocity.y))
  }

  /** `_horizontal_collision`: a hit stops the horizontal motion. */
  function HorizontalStep(tiledMap: TileMap, rectangle: Rect, m: Motion): Motion {
    if Touches(tiledMap, rectangle) then
      m.(velocity := m.velocity.(x := 0.0), dtVelocity := m.dtVelocity.(x := 0.0))
    else m
  }

  /** The y a landing puts the position at: the top of the highest hit tile, less half the
      box's height, less epsilon. */
  function LandingY(tiledMap: TileMap, box: Rect, tiles: seq<Tile>): real
    requires tiles != []
  {
    tiledMap.rectangleForTile(tiles[LowestIndex(tiles)]).top - box.height / 2.0 - Epsilon
  }

  /** The vertical sweep: while flying, a hit either bounces off a ceiling (moving up) or
      lands (moving down or still). */
  function VerticalStep(tiledMap: TileMap, box: Rect, m: Motion, dt: real): Motion {
    if !m.flying then m
    else
      var tiles := tiledMap.collidableTiles(VerticalProbe(box, m));
      if |tiles| == 0 then m
      else if m.velocity.y < 0.0 then
        var vy := -m.velocity.y / 2.0;
        m.(velocity := m.velocity.(y := vy), dtVelocity := m.dtVelocity.(y := vy * dt))
      else
        m.(flying := false, velocity := m.velocity.(y := 0.0), dtVelocity := m.dtVelocity.(y := 0.0 * dt),
           y := LandingY(tiledMap, box, tiles))
  }

  /** The state up to the vertical sweep: the ground check, gravity, the step and the first
      horizontal sweep. */
  function BeforeVertical(tiledMap: TileMap, box: Rect, flying: bool, velocity: Vec, gravity: real, dt: real, y: real): Motion {
    var f := flying || !Touches(tiledMap, GroundProbe(box));
    var v := if f then velocity.(y := velocity.y + gravity * dt) else velocity;
    var m := Motion(f, v, v.Times(dt), y);
    if v.x != 0.0 then HorizontalStep(tiledMap, HorizontalProbe(box, m, 0.0), m) else m
  }

  /** The whole of `_handle_collisions` before the animations: then the vertical sweep and
      the second horizontal sweep, which also moves the box by the vertical step. */
  function Collide(tiledMap: TileMap, box: Rect, flying: bool, velocity: Vec, gravity: real, dt: real, y: real): Motion {
    var m := VerticalStep(tiledMap, box, BeforeVertical(tiledMap, box, flying, velocity, gravity, dt, y), dt);
    if m.velocity.x != 0.0 then HorizontalStep(tiledMap, HorizontalProbe(box, m, m.dtVelocity.y), m) else m
  }

  /** The vertical motion after `Collide` is the vertical sweep's: the second horizontal
      sweep only stops horizontal motion. */
  lemma VerticalSettledBySweep(tiledMap: TileMap, box: Rect, flying: bool, velocity: Vec, gravity: real, dt: real, y: real)
    ensures var m := VerticalStep(tiledMap, box, BeforeVertical(tiledMap, box, flying, velocity, gravity, dt, y), dt);
      var r := Collide(tiledMap, box, flying, velocity, gravity, dt, y);
      && r.flying == m.flying && r.velocity.y == m.velocity.y && r.dtVelocity.y == m.dtVelocity.y && r.y == m.y
  {
  }

  /** A character standing on a collidable tile stays on the ground: no gravity, no vertical
      motion beyond its own velocity, and its position is not snapped. */
  lemma SupportedStaysGrounded(tiledMap: TileMap, box: Rect, velocity: Vec, gravity: real, dt: real, y: real)
    requires Touches(tiledMap, GroundProbe(box))
    ensures var r := Collide(tiledMap, box, false, velocity, gravity, dt, y);
      && !r.flying && r.velocity.y == velocity.y && r.dtVelocity.y == velocity.y * dt && r.y == y
  {
    VerticalSettledBySweep(tiledMap, box, false, velocity, gravity, dt, y);
  }

  /** A grounded character with nothing collidable 3 units below moves exactly as a flying one. */
  lemma UnsupportedStartsFlying(tiledMap: TileMap, box: Rect, velocity: Vec, gravity: real, dt: real, y: real)
    requires !Touches(tiledMap, GroundProbe(box))
    ensures Collide(tiledMap, box, false, velocity, gravity, dt, y) == Collide(tiledMap, box, true, velocity, gravity, dt, y)
  {
  }

  /** Gravity is added exactly when the character is flying after the ground check, and the
      first sweep leaves the vertical motion and the position alone. */
  lemma GravityOnlyWhenFlying(tiledMap: TileMap, box: Rect, flying: bool, velocity: Vec, gravity: real, dt: real, y: real)
    ensures var m := BeforeVertical(tiledMap, box, flying, velocity, gravity, dt, y);
      && (m.flying <==> flying || !Touches(tiledMap, GroundProbe(box)))
      && m.velocity.y == (if m.flying then velocity.y + gravity * dt else velocity.y)
      && m.dtVelocity.y == m.velocity.y * dt
      && m.y == y
  {
  }

  /** Flying with nothing hit by the vertical probe: the character keeps flying with the
      velocity gravity gave it, and its position is not snapped. */
  lemma FreeFall(tiledMap: TileMap, box: Rect, flying: bool, velocity: Vec, gravity: real, dt: real, y: real)
    requires var m := BeforeVertical(tiledMap, box, flying, velocity, gravity, dt, y);
      m.flying && !Touches(tiledMap, VerticalProbe(box, m))
    ensures var r := Collide(tiledMap, box, flying, velocity, gravity, dt, y);
      && r.flying && r.velocity.y == velocity.y + gravity * dt && r.y == y
  {
    VerticalSettledBySweep(tiledMap, box, flying, velocity, gravity, dt, y);
  }

  /** Hitting a ceiling while moving up halves the vertical speed and reverses it; the
      character keeps flying and its position is not snapped. */
  lemma CeilingBounce(tiledMap: TileMap, box: Rect, flying: bool, velocity: Vec, gravity: real, dt: real, y: real)
    requires var m := BeforeVertical(tiledMap, box, flying, velocity, gravity, dt, y);
      m.flying && Touches(tiledMap, VerticalProbe(box, m)) && m.velocity.y < 0.0
    ensures var m := BeforeVertical(tiledMap, box, flying, velocity, gravity, dt, y);
      var r := Collide(tiledMap, box, flying, velocity, gravity, dt, y);
      && r.flying && r.velocity.y == -m.velocity.y / 2.0 && r.velocity.y > 0.0
      && r.dtVelocity.y == r.velocity.y * dt && r.y == y
  {
    VerticalSettledBySweep(tiledMap, box, flying, velocity, gravity, dt, y);
  }

  /** Hitting the ground while moving down (or not moving vertically) lands: the position is
      put on the first, highest tile hit, and the character stops flying and falling. */
  lemma Landing(tiledMap: TileMap, box: Rect, flying: bool, velocity: Vec, gravity: real, dt: real, y: real)
    requires var m := BeforeVertical(tiledMap, box, flying, velocity, gravity, dt, y);
      m.flying && Touches(tiledMap, VerticalProbe(box, m)) && m.velocity.y >= 0.0
    ensures var m := BeforeVertical(tiledMap, box, flying, velocity, gravity, dt, y);
      var tiles := tiledMap.collidableTiles(VerticalProbe(box, m));
      var r := Collide(tiledMap, box, flying, velocity, gravity, dt, y);
      && (exists i :: 0 <= i < |tiles| && (forall j :: 0 <= j < |tiles| ==> tiles[i].y <= tiles[j].y)
            && r.y == tiledMap.rectangleForTile(tiles[i]).top - box.height / 2.0 - 1.0)
      && !r.flying && r.velocity.y == 0.0 && r.dtVelocity.y == 0.0
  {
    VerticalSettledBySweep(tiledMap, box, flying, velocity, gravity, dt, y);
    var m := BeforeVertical(tiledMap, box, flying, velocity, gravity, dt, y);
    var tiles := tiledMap.collidableTiles(VerticalProbe(box, m));
    var i := LowestIndex(tiles);
    assert forall j :: 0 <= j < |tiles| ==> tiles[i].y <= tiles[j].y;
  }

  /** Whatever the sweeps hit, the step the character is moved by is its final velocity
      times the frame time. */
  lemma StepIsVelocityTimesDt(tiledMap: TileMap, box: Rect, flying: bool, velocity: Vec, gravity: real, dt: real, y: real)
    ensures var r := Collide(tiledMap, box, flying, velocity, gravity, dt, y);
      r.dtVelocity == r.velocity.Times(dt)
  {
    var m0 := BeforeVertical(tiledMap, box, flying, velocity, gravity, dt, y);
    var m1 := VerticalStep(tiledMap, box, m0, dt);
    VerticalKeepsStep(tiledMap, box, m0, dt);
    if m1.velocity.x != 0.0 {
      HorizontalKeepsStep(tiledMap, HorizontalProbe(box, m1, m1.dtVelocity.y), m1, dt);
    }
  }

  /** A horizontal sweep keeps the step equal to the velocity times `dt`. */
  lemma HorizontalKeepsStep(tiledMap: TileMap, rectangle: Rect, m: Motion, dt: real)
    requires m.dtVelocity == m.velocity.Times(dt)
    ensures var r := HorizontalStep(tiledMap, rectangle, m); r.dtVelocity == r.velocity.Times(dt)
  {
    if Touches(tiledMap, rectangle) {
      assert 0.0 * dt == 0.0;
    }
  }

  /** So does the vertical sweep. */
  lemma VerticalKeepsStep(tiledMap: TileMap, box: Rect, m: Motion, dt: real)
    requires m.dtVelocity == m.velocity.Times(dt)
    ensures var r := VerticalStep(tiledMap, box, m, dt); r.dtVelocity == r.velocity.Times(dt)
  {
    assert 0.0 * dt == 0.0;
  }

  /** A sweep either keeps the horizontal velocity or stops it; a character that was not
      moving horizontally is not probed and stays still horizontally. */
  lemma HorizontalKeptOrStopped(tiledMap: TileMap, box: Rect, flying: bool, velocity: Vec, gravity: real, dt: real, y: real)
    ensures var r := Collide(tiledMap, box, flying, velocity, gravity, dt, y);
      && (r.velocity.x == velocity.x || r.velocity.x == 0.0)
      && (velocity.x == 0.0 ==> r.velocity.x == 0.0 && r.dtVelocity.x == 0.0)
  {
  }

  /** A hit by the first horizontal probe stops the character horizontally for the frame. */
  lemma WallStops(tiledMap: TileMap, box: Rect, flying: bool, velocity: Vec, gravity: real, dt: real, y: real)
    requires velocity.x != 0.0
    requires var f := flying || !Touches(tiledMap, GroundProbe(box));
      var v := if f then velocity.(y := velocity.y + gravity * dt) else velocity;
      Touches(tiledMap, HorizontalProbe(box, Motion(f, v, v.Times(dt), y), 0.0))
    ensures var r := Collide(tiledMap, box, flying, velocity, gravity, dt, y);
      r.velocity.x == 0.0 && r.dtVelocity.x == 0.0
  {
  }

  /** The character-controller component. */
  class CharacterController {
    var flying: bool
    var velocity: Vec
    /** `applied_velocity`: the step the character was last moved by. */
    var appliedVelocity: Vec
    const gravity: real

    /** `CharacterController(gravity)`: flying and at rest. */
    constructor (gravity: real)
      ensures flying && velocity == Vec(0.0, 0.0) && appliedVelocity == Vec(0.0, 0.0)
      ensures this.gravity == gravity
    {
      flying := true;
      velocity, appliedVelocity := Vec(0.0, 0.0), Vec(0.0, 0.0);
      this.gravity := gravity;
    }

    /** The state after `_handle_collisions`, given the state `m` it computes: the controller
        holds its flying state and velocity, the step is the applied velocity, the position
        vector it started with holds the (possibly snapped) y, and the transform holds a new
        position vector: that one moved by the step. */
    ghost predicate Resolved(transform: Component, position: Vector2, m: Motion, shown: Shown)
      reads this, transform, position, if transform.data.TransformData? then {transform.data.position} else {}
    {
      && flying == m.flying && velocity == m.velocity && appliedVelocity == m.dtVelocity
      && position.y == m.y
      && transform.data.TransformData?
      && transform.data.position.x == position.x + m.dtVelocity.x
      && transform.data.position.y == m.y + m.dtVelocity.y
      && shown == AnimationFor(m.velocity.x, m.flying)
    }

    /** `update()`: nothing happens without a tiled map in the scene or when the position
        lies outside it; otherwise the collisions are handled with the scene's frame time. */
    method Update(tiledMap: Option<TileMap>, dt: real, transform: Component, box: Rect) returns (shown: Option<Shown>)
      requires transform.data.TransformData?
      modifies this`flying, this`velocity, this`appliedVelocity, transform`data, transform.data.position`y
      ensures var p := old(transform.data.position);
        if tiledMap.None? || !tiledMap.value.containsPosition(Vec(old(p.x), old(p.y))) then
          shown.None? && unchanged(this, transform, p)
        else
          && shown.Some?
          && Resolved(transform, p, Collide(tiledMap.value, box, old(flying), old(velocity), gravity, dt, old(p.y)), shown.value)
          && p.x == old(p.x) && fresh(transform.data.position)
          && transform.data.rotation == old(transform.data.rotation) && transform.data.scale == old(transform.data.scale)
    {
      if tiledMap.None? {
        return None;
      }
      var position := transform.data.position;
      if !tiledMap.value.containsPosition(Vec(position.x, position.y)) {
        return None;
      }
      var s := HandleCollisions(tiledMap.value, dt, transform, box);
      shown := Some(s);
    }

    /** `_handle_collisions(tiled_map, dt)`. */
    method HandleCollisions(tiledMap: TileMap, dt: real, transform: Component, box: Rect) returns (shown: Shown)
      requires transform.data.TransformData?
      modifies this`flying, this`velocity, this`appliedVelocity, transform`data, transform.data.position`y
      ensures var p := old(transform.data.position);
        && Resolved(transform, p, Collide(tiledMap, box, old(flying), old(velocity), gravity, dt, old(p.y)), shown)
        && p.x == old(p.x) && fresh(transform.data.position)
        && transform.data.rotation == old(transform.data.rotation) && transform.data.scale == old(transform.data.scale)
    {
      var position := transform.data.position;
      ghost var y := position.y;
      GroundCheckAndGravity(tiledMap, box, dt);
      var dtVelocity := velocity.Times(dt);
      ghost var m0 := Motion(flying, velocity, dtVelocity, y);
      if velocity.x != 0.0 {
        dtVelocity := HorizontalCollision(box.Move(dtVelocity.x + Epsilon * Sign(dtVelocity.x), 0.0), tiledMap, dtVelocity);
      }
      assert Motion(flying, velocity, dtVelocity, y) == BeforeVertical(tiledMap, box, old(flying), old(velocity), gravity, dt, y)
        by { assert velocity == m0.velocity ==> m0 == BeforeVertical(tiledMap, box, old(flying), old(velocity), gravity, dt, y); }
      dtVelocity := VerticalCollision(tiledMap, box, position, dtVelocity, dt);
      ghost var m2 := Motion(flying, velocity, dtVelocity, position.y);
      if velocity.x != 0.0 {
        dtVelocity := HorizontalCollision(box.Move(dtVelocity.x + Epsilon * Sign(dtVelocity.x), dtVelocity.y), tiledMap, dtVelocity);
      }
      assert Motion(flying, velocity, dtVelocity, position.y) == Collide(tiledMap, box, old(flying), old(velocity), gravity, dt, y);
      shown := AnimationFor(velocity.x, flying);
      appliedVelocity := dtVelocity;
      var moved := new Vector2(position.x + appliedVelocity.x, position.y + appliedVelocity.y);
      transform.data := transform.data.(position := moved);
    }

    /** Lines 35-42 of `_handle_collisions`: the ground check, then gravity while flying. */
    method GroundCheckAndGravity(tiledMap: TileMap, box: Rect, dt: real)
      modifies this`flying, this`velocity
      ensures flying == (old(flying) || !Touches(tiledMap, GroundProbe(box)))
      ensures velocity == if flying then old(velocity).(y := old(velocity).y + gravity * dt) else old(velocity)
      ensures appliedVelocity == old(appliedVelocity)
    {
      if !flying {
        var mapTiles := tiledMap.collidableTiles(GroundProbe(box));
        if |mapTiles| == 0 {
          flying := true;
        }
      }
      if flying {
        velocity := velocity.(y := velocity.y + gravity * dt);
      }
    }

    /** Lines 52-63 of `_handle_collisions`: the vertical sweep, which may snap the shared
        position vector onto the ground. */
    method VerticalCollision(tiledMap: TileMap, box: Rect, position: Vector2, dtVelocity: Vec, dt: real) returns (d: Vec)
      modifies this`flying, this`velocity, position`y
      ensures Motion(flying, velocity, d, position.y) ==
        VerticalStep(tiledMap, box, Motion(old(flying), old(velocity), dtVelocity, old(position.y)), dt)
      ensures position.x == old(position.x) && appliedVelocity == old(appliedVelocity)
    {
      d := dtVelocity;
      if flying {
        var tiles := tiledMap.collidableTiles(box.Move(0.0, d.y + Epsilon * Sign(d.y)));
        if |tiles| > 0 {
          if velocity.y < 0.0 {
            velocity := velocity.(y := -velocity.y / 2.0);
          } else {
            var tile := tiles[LowestIndex(tiles)];
            position.y := tiledMap.rectangleForTile(tile).top - box.height / 2.0 - Epsilon;
            flying := false;
            velocity := velocity.(y := 0.0);
          }
          d := d.(y := velocity.y * dt);
        }
      }
    }

    /** `_horizontal_collision(rectangle, tiled_map, dt_velocity)`: a hit stops the
        horizontal velocity and the horizontal step; otherwise nothing changes. */
    method HorizontalCollision(rectangle: Rect, tiledMap: TileMap, dtVelocity: Vec) returns (d: Vec)
      modifies this`velocity
      ensures Touches(tiledMap, rectangle) ==> velocity == old(velocity).(x := 0.0) && d == dtVelocity.(x := 0.0)
      ensures !Touches(tiledMap, rectangle) ==> velocity == old(velocity) && d == dtVelocity
      ensures flying == old(flying) && appliedVelocity == old(appliedVelocity)
    {
      d := dtVelocity;
      if |tiledMap.collidableTiles(rectangle)| > 0 {
        velocity := velocity.(x := 0.0);
        d := d.(x := 0.0);
      }
    }
  }
}
