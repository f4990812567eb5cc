/** engine/gameobject.py: a game object and its set of components. */
module EngineGameObject {
  import opened Common
  import opened EngineComponents

  /** Some member of `cs` is an instance of `cls`. */
  predicate HasInstance(cs: set<Component>, cls: ComponentClass) {
    exists c :: c in cs && IsInstance(c.cls, cls)
  }

  class GameObject {
    var components: set<Component>
    /** The scene the object belongs to (the module of `Scene` imports this one, hence `object?`). */
    var scene: object?
    /** The id the scene assigned, `None` while the object is in no scene. */
    var id: Option<int>

    /** A new object: no components and in no scene. `__init__` sets no `id` attribute at
        all; the model gives it `None`, the value `add_object` expects of a fresh object
        (its as-written refusal is `EngineScene.AddFreshObject`). */
    constructor ()
      ensures components == {} && scene == null && id == None
    {
      components, scene, id := {}, null, None;
    }

    /** The components that are instances of `cls`. */
    function Matching(cls: ComponentClass): set<Component>
      reads this
    {
      set c | c in components && IsInstance(c.cls, cls)
    }

    /** `addcomponents(*components)` as written: the set becomes the union with the
        arguments, and each argument's `gameobject` attribute is assigned. The owner
        attribute that components are read through, `game_object`, stays as it was. */
    method AddComponents(cs: seq<Component>)
      modifies this`components, cs`looseGameobject
      ensures components == old(components) + set c | c in cs
      ensures forall c :: c in cs ==> c.looseGameobject == this && c.gameObject == old(c.gameObject)
      ensures scene == old(scene) && id == old(id)
    {
      components := components + set c | c in cs;
      var i := 0;
      while i < |cs|
        invariant 0 <= i <= |cs|
        invariant forall j :: 0 <= j < i ==> cs[j].looseGameobject == this
        invariant forall c :: c in cs ==> c.gameObject == old(c.gameObject)
        invariant components == old(components) + set c | c in cs
        invariant scene == old(scene) && id == old(id)
      {
        cs[i].looseGameobject := this;
        i := i + 1;
      }
    }

    /** `addcomponents` as its tests expect: the set becomes the union with the
        arguments, and each argument's owner (`game_object`) becomes this object. */
    method AddComponentsIntended(cs: seq<Component>)
      modifies this`components, cs`gameObject
      ensures components == old(components) + set c | c in cs
      ensures forall c :: c in cs ==> c.gameObject == this
      ensures scene == old(scene) && id == old(id)
    {
      components := components + set c | c in cs;
      var i := 0;
      while i < |cs|
        invariant 0 <= i <= |cs|
        invariant forall j :: 0 <= j < i ==> cs[j].gameObject == this
        invariant components == old(components) + set c | c in cs
        invariant scene == old(scene) && id == old(id)
      {
        cs[i].gameObject := this;
        i := i + 1;
      }
    }

    /** `removecomponents(*components)` as written: the set becomes the difference, and
        each argument's `gameobject` attribute is cleared, whether or not it was a member;
        `game_object` stays as it was. */
    method RemoveComponents(cs: seq<Component>)
      modifies this`components, cs`looseGameobject
      ensures components == old(components) - set c | c in cs
      ensures forall c :: c in cs ==> c.looseGameobject == null && c.gameObject == old(c.gameObject)
      ensures scene == old(scene) && id == old(id)
    {
      components := components - set c | c in cs;
      var i := 0;
      while i < |cs|
        invariant 0 <= i <= |cs|
        invariant forall j :: 0 <= j < i ==> cs[j].looseGameobject == null
        invariant forall c :: c in cs ==> c.gameObject == old(c.gameObject)
        invariant components == old(components) - set c | c in cs
        invariant scene == old(scene) && id == old(id)
      {
        cs[i].looseGameobject := null;
        i := i + 1;
      }
    }

    /** `removecomponents` as its tests expect: the set becomes the difference, and each
        argument's owner (`game_object`) is cleared. */
    method RemoveComponentsIntended(cs: seq<Component>)
      modifies this`components, cs`gameObject
      ensures components == old(components) - set c | c in cs
      ensures forall c :: c in cs ==> c.gameObject == null
      ensures scene == old(scene) && id == old(id)
    {
      components := components - set c | c in cs;
      var i := 0;
      while i < |cs|
        invariant 0 <= i <= |cs|
        invariant forall j :: 0 <= j < i ==> cs[j].gameObject == null
        invariant components == old(components) - set c | c in cs
        invariant scene == old(scene) && id == old(id)
      {
        cs[i].gameObject := null;
        i := i + 1;
      }
    }

    /** `getcomponents(cls)`: each member that is an instance of `cls`, once, in the
        set's iteration order (which Python leaves unspecified). */
    method GetComponents(cls: ComponentClass) returns (r: seq<Component>)
      ensures forall c :: c in r <==> c in components && IsInstance(c.cls, cls)
      ensures forall i, j :: 0 <= i < j < |r| ==> r[i] != r[j]
      ensures |r| == |Matching(cls)|
    {
      r := [];
      var rest := components;
      ghost var seen: set<Component> := {};
      while rest != {}
        invariant rest <= components
        invariant forall c :: c in r <==> c in components && c !in rest && IsInstance(c.cls, cls)
        invariant forall i, j :: 0 <= i < j < |r| ==> r[i] != r[j]
        invariant seen == set c | c in r
        invariant |seen| == |r|
        decreases rest
      {
        var c :| c in rest;
        if IsInstance(c.cls, cls) {
          assert c !in r;
          r := r + [c];
          seen := seen + {c};
        }
        rest := rest - {c};
      }
      assert seen == Matching(cls);
    }

    /** `getcomponent(cls)`: some matching member, or `None` exactly when there is none. */
    method GetComponent(cls: ComponentClass) returns (r: Component?)
      ensures r == null <==> !HasInstance(components, cls)
      ensures r != null ==> r in components && IsInstance(r.cls, cls)
    {
      var all := GetComponents(cls);
      if |all| == 0 {
        assert forall c :: c in components && IsInstance(c.cls, cls) ==> c in all;
      } else {
        assert all[0] in all;
      }
      if |all| > 0 {
        r := all[0];
      } else {
        r := null;
      }
    }

    /** `update()`: nothing to do. */
    method Update() {
    }

    /** `update_postframe()`: nothing to do. */
    method UpdatePostframe() {
    }

    /** `hascomponent(cls)` as written: `len(self.getcomponents(cls) > 0)` takes the length
        of a comparison result. In Python 2 a list compares greater than an int, so the
        argument is `True`, and `len(True)` raises `TypeError` (Python 3 raises it at the
        comparison already). Either way the call never returns. */
    method HasComponentAsWritten(cls: ComponentClass) returns (r: Result<bool>)
      ensures r == Raise(TypeError)
    {
      var all := GetComponents(cls);
      r := Raise(TypeError);
    }

    /** `hascomponent(cls)` as documented and as the tests expect:
        `len(self.getcomponents(cls)) > 0`. */
    method HasComponent(cls: ComponentClass) returns (b: bool)
      ensures b <==> HasInstance(components, cls)
    {
      var all := GetComponents(cls);
      b := |all| > 0;
      if !b {
        assert forall c :: c in components && IsInstance(c.cls, cls) ==> c in all;
      } else {
        assert all[0] in all;
      }
    }
  }

  /** A fresh object given a fresh `Transform` through `addcomponents` as written: the
      component's `game_object` is still `None`, only the unread `gameobject` is set. */
  method AddComponentsLeavesOwnerUnset() returns (obj: GameObject, owner: object?, loose: object?)
    ensures owner == null && loose == obj
  {
    obj := new GameObject();
    var t := new Component(Transform, NoKwargs);
    obj.AddComponents([t]);
    owner, loose := t.gameObject, t.looseGameobject;
  }

  /** The same with the intended `addcomponents`: the owner is the object. */
  method AddComponentsIntendedSetsOwner() returns (obj: GameObject, owner: object?)
    ensures owner == obj
  {
    obj := new GameObject();
    var t := new Component(Transform, NoKwargs);
    obj.AddComponentsIntended([t]);
    owner := t.gameObject;
  }

  /** An object holding a `Transform`: `hascomponent(Transform)` as written raises
      `TypeError`, where the intended query answers true. */
  method HasComponentOnTransform() returns (asWritten: Result<bool>, intended: bool)
    ensures asWritten == Raise(TypeError) && intended
  {
    var obj := new GameObject();
    var t := new Component(Transform, NoKwargs);
    obj.AddComponents([t]);
    asWritten := obj.HasComponentAsWritten(Transform);
    intended := obj.HasComponent(Transform);
  }
}
