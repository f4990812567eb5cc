/** engine/components.py: the component class hierarchy and what each
    constructor puts in a fresh component. */
module EngineComponents {
  import opened Common
  import opened Geometry

  /** The engine's component classes. */
  datatype ComponentClass = BaseComponent | Camera | Renderable | SpriteRenderer | Transform | TiledMap

  /** The direct base class named in each `class X(Base)` statement. */
  function BaseOf(c: ComponentClass): Option<ComponentClass> {
    match c
    case BaseComponent => None
    case Camera => Some(BaseComponent)
    case Renderable => Some(BaseComponent)
    case SpriteRenderer => Some(Renderable)
    case Transform => Some(BaseComponent)
    case TiledMap => Some(Renderable)
  }

  /** Distance from `BaseComponent` along the base-class chain. */
  function Depth(c: ComponentClass): nat {
    match c
    case BaseComponent => 0
    case SpriteRenderer => 2
    case TiledMap => 2
    case _ => 1
  }

  /** `isinstance(obj, cls)` for an object of class `c`: `cls` is `c` or one of its base classes. */
  predicate IsInstance(c: ComponentClass, cls: ComponentClass)
    decreases Depth(c)
  {
    c == cls || (BaseOf(c).Some? && IsInstance(BaseOf(c).value, cls))
  }

  /** Every component is a `BaseComponent`; the renderables are `Renderable`,
      `SpriteRenderer` and `TiledMap`; a class matches only itself and its bases. */
  lemma InstanceQueries(c: ComponentClass)
    ensures IsInstance(c, BaseComponent)
    ensures IsInstance(c, Renderable) <==> c == Renderable || c == SpriteRenderer || c == TiledMap
    ensures IsInstance(c, SpriteRenderer) <==> c == SpriteRenderer
    ensures IsInstance(c, Camera) <==> c == Camera
    ensures IsInstance(c, Transform) <==> c == Transform
    ensures IsInstance(c, TiledMap) <==> c == TiledMap
  {
  }

  /** The subclass relation is a partial order. */
  lemma {:induction false} InstanceIsPartialOrder(a: ComponentClass, b: ComponentClass, c: ComponentClass)
    ensures IsInstance(a, a)
    ensures IsInstance(a, b) && IsInstance(b, c) ==> IsInstance(a, c)
    ensures IsInstance(a, b) && IsInstance(b, a) ==> a == b
    decreases Depth(a)
  {
    if BaseOf(a).Some? {
      InstanceIsPartialOrder(BaseOf(a).value, b, c);
    }
    if IsInstance(a, b) && IsInstance(b, a) && a != b {
      DepthMonotone(a, b);
      DepthMonotone(b, a);
    }
  }

  lemma {:induction false} DepthMonotone(a: ComponentClass, b: ComponentClass)
    requires IsInstance(a, b) && a != b
    ensures Depth(b) < Depth(a)
    decreases Depth(a)
  {
    var p := BaseOf(a).value;
    if p != b {
      DepthMonotone(p, b);
    }
  }

  /** The keyword arguments the constructors look at (`**kwargs`); `None` is an absent key. */
  datatype Kwargs = Kwargs(
    fov: Option<int>,
    path: Option<string>,
    position: Option<Vector2>,
    rotation: Option<real>,
    scale: Option<real>,
    mapPath: Option<string>)

  const NoKwargs: Kwargs := Kwargs(None, None, None, None, None, None)

  /** The attributes each constructor sets beyond `game_object`. A loaded sprite image
      is represented by the path it was loaded from. `TiledMap` gets `RenderableData`:
      its `__init` (one trailing underscore pair missing) is not a constructor, so
      `Renderable.__init__` runs and `map_path` and `map` are never set. */
  datatype Data =
    | BaseData
    | CameraData(fov: int)
    | RenderableData(shouldRender: bool)
    | SpriteRendererData(shouldRender: bool, image: Option<string>)
    | TransformData(position: Vector2, rotation: real, scale: real)

  /** The shape of data that a component of class `cls` carries. */
  predicate Fits(cls: ComponentClass, d: Data) {
    match cls
    case BaseComponent => d.BaseData?
    case Camera => d.CameraData?
    case Renderable => d.RenderableData?
    case SpriteRenderer => d.SpriteRendererData?
    case Transform => d.TransformData?
    case TiledMap => d.RenderableData?
  }

  /** A component: its class, its owner back-reference and its class-specific attributes. */
  class Component {
    const cls: ComponentClass
    /** `game_object`: the owner, the attribute every reader of a component uses. */
    var gameObject: object?
    /** `gameobject` (no underscore): the attribute `addcomponents` and `removecomponents`
        assign. Nothing reads it; `null` also stands for "never assigned". */
    var looseGameobject: object?
    var data: Data

    /** `cls(**kwargs)`: no owner yet, and the class's defaults where a keyword is absent. */
    constructor (cls: ComponentClass, kwargs: Kwargs)
      ensures this.cls == cls && gameObject == null && looseGameobject == null && Fits(cls, data)
      ensures cls == Camera ==> data == CameraData(kwargs.fov.GetOr(80))
      ensures cls == Renderable || cls == TiledMap ==> data == RenderableData(true)
      ensures cls == SpriteRenderer ==> data == SpriteRendererData(true, kwargs.path)
      ensures cls == Transform ==>
        && data.rotation == kwargs.rotation.GetOr(0.0)
        && data.scale == kwargs.scale.GetOr(1.0)
        && (kwargs.position.Some? ==> data.position == kwargs.position.value)
        && (kwargs.position.None? ==> fresh(data.position) && data.position.x == 0.0 && data.position.y == 0.0)
    {
      this.cls := cls;
      gameObject, looseGameobject := null, null;
      match cls
      case BaseComponent =>
        data := BaseData;
      case Camera =>
        data := CameraData(kwargs.fov.GetOr(80));
      case Renderable =>
        data := RenderableData(true);
      case SpriteRenderer =>
        data := SpriteRendererData(true, kwargs.path);
      case Transform =>
        var position: Vector2;
        if kwargs.position.Some? {
          position := kwargs.position.value;
        } else {
          position := new Vector2(0.0, 0.0);
        }
        data := TransformData(position, kwargs.rotation.GetOr(0.0), kwargs.scale.GetOr(1.0));
      case TiledMap =>
        data := RenderableData(true);
    }
  }
}
