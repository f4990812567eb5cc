/** engine/scene.py: the registry of game objects, keyed by the ids the scene hands out. */
module EngineScene {
  import opened Common
  import opened OrderedDicts
  import opened EngineComponents
  import opened EngineGameObject
  import opened FrameLogs

  predicate Increasing(s: seq<int>) {
    forall i, j :: 0 <= i < j < |s| ==> s[i] < s[j]
  }

  /** Removing an element from an increasing sequence leaves it increasing. */
  lemma {:induction false} EraseKeepsIncreasing(s: seq<int>, k: int)
    requires Increasing(s)
    ensures Increasing(Erase(s, k))
  {
    if s != [] {
      EraseKeepsIncreasing(s[1..], k);
      var rest := Erase(s[1..], k);
      if s[0] != k {
        var r := [s[0]] + rest;
        assert Erase(s, k) == r;
        forall i, j | 0 <= i < j < |r| ensures r[i] < r[j] {
          if i == 0 {
            assert r[j] == rest[j - 1] && rest[j - 1] in s[1..];
            var m :| 0 <= m < |s[1..]| && s[1..][m] == r[j];
            assert s[m + 1] == r[j];
          } else {
            assert r[i] == rest[i - 1] && r[j] == rest[j - 1];
          }
        }
      }
    }
  }

  /** The ids among the first `n` of `ks` whose component set in `comps` holds an
      instance of `cls`, in the order of `ks`. */
  function Owners(ks: seq<int>, n: nat, comps: map<int, set<Component>>, cls: ComponentClass): (o: seq<int>)
    requires n <= |ks| && forall k :: k in ks ==> k in comps
    ensures forall x :: x in o ==> x in ks && HasInstance(comps[x], cls)
    ensures forall j :: 0 <= j < n && ks[j] in comps && HasInstance(comps[ks[j]], cls) ==> ks[j] in o
    ensures |o| <= n
  {
    if n == 0 then []
    else Owners(ks, n - 1, comps, cls) + (if HasInstance(comps[ks[n - 1]], cls) then [ks[n - 1]] else [])
  }

  /** The owners come in the order of `ks`: over increasing ids they increase, and none
      exceeds the last id looked at. */
  lemma {:induction false} OwnersIncreasing(ks: seq<int>, n: nat, comps: map<int, set<Component>>, cls: ComponentClass)
    requires n <= |ks| && (forall k :: k in ks ==> k in comps) && Increasing(ks)
    ensures Increasing(Owners(ks, n, comps, cls))
    ensures n > 0 ==> forall x :: x in Owners(ks, n, comps, cls) ==> x <= ks[n - 1]
  {
    if n > 0 {
      OwnersIncreasing(ks, n - 1, comps, cls);
      var o, r := Owners(ks, n - 1, comps, cls), Owners(ks, n, comps, cls);
      assert forall x :: x in o ==> x < ks[n - 1];
      forall i, j | 0 <= i < j < |r| ensures r[i] < r[j] {
        if j == |o| {
          assert r[i] == o[i] && o[i] in o;
        } else {
          assert r[i] == o[i] && r[j] == o[j];
        }
      }
      forall x | x in r ensures x <= ks[n - 1] {
        if x != ks[n - 1] {
          assert x in o;
        }
      }
    }
  }

  /** `r` holds, in order, one instance of `cls` from each owner among the first `n` of `ks`. */
  predicate PicksOne(ks: seq<int>, n: nat, comps: map<int, set<Component>>, cls: ComponentClass, r: seq<Component>) {
    && n <= |ks|
    && (forall k :: k in ks ==> k in comps)
    && var o := Owners(ks, n, comps, cls);
    && |r| == |o|
    && forall j :: 0 <= j < |r| ==> r[j] in comps[o[j]] && IsInstance(r[j].cls, cls)
  }

  /** Looking at one more id keeps `PicksOne`: a component is appended exactly when
      that id's set holds an instance. */
  lemma PicksOneStep(ks: seq<int>, i: nat, comps: map<int, set<Component>>, cls: ComponentClass,
                     r: seq<Component>, c: Component?)
    requires i < |ks| && PicksOne(ks, i, comps, cls, r) && ks[i] in comps
    requires c == null <==> !HasInstance(comps[ks[i]], cls)
    requires c != null ==> c in comps[ks[i]] && IsInstance(c.cls, cls)
    ensures PicksOne(ks, i + 1, comps, cls, if c != null then r + [c] else r)
  {
    var r' := if c != null then r + [c] else r;
    var o, o' := Owners(ks, i, comps, cls), Owners(ks, i + 1, comps, cls);
    forall j | 0 <= j < |r'|
      ensures r'[j] in comps[o'[j]] && IsInstance(r'[j].cls, cls)
    {
      if j < |r| {
        assert r'[j] == r[j] && o'[j] == o[j];
      }
    }
  }

  class Scene {
    /** `objects`: id to object, in insertion order. */
    var objects: OrderedDict<int, GameObject>
    var camera: GameObject?
    var dt: real
    const game: object?
    /** `_maxIndex`: the next id to hand out. */
    var maxIndex: nat

    /** Every registered object carries the id it is registered under and refers back
        to this scene; ids are below the counter and increase in insertion order. */
    ghost predicate Valid()
      reads this, objects.entries.Values
    {
      && objects.Valid()
      && Increasing(objects.keys)
      && forall k :: k in objects.entries ==>
           && 0 <= k < maxIndex
           && objects.entries[k].id == Some(k)
           && objects.entries[k].scene == this
    }

    constructor (game: object?)
      ensures Valid() && objects == Empty() && maxIndex == 0
      ensures camera == null && dt == 0.0 && this.game == game
    {
      objects := Empty();
      camera := null;
      dt := 0.0;
      this.game := game;
      maxIndex := 0;
    }

    /** `add_object(obj)` for an object that has an `id` attribute (see `AddFreshObject`):
        refused with `ValueError` when the object already has an id or a scene; otherwise it
        is registered under the next id, which only grows. */
    method AddObject(obj: GameObject) returns (r: Outcome)
      requires Valid()
      modifies this, obj
      ensures Valid()
      ensures camera == old(camera) && dt == old(dt)
      ensures old(obj.id).Some? || old(obj.scene) != null ==>
        r == Raised(ValueError) && unchanged(this, obj)
      ensures old(obj.id).None? && old(obj.scene) == null ==>
        && r == Done
        && objects == old(objects).Put(old(maxIndex), obj)
        && old(maxIndex) !in old(objects.entries)
        && obj.id == Some(old(maxIndex)) && obj.scene == this
        && maxIndex == old(maxIndex) + 1
        && obj.components == old(obj.components)
    {
      if obj.id.Some? || obj.scene != null {
        return Raised(ValueError);
      }
      Register(obj);
      r := Done;
    }

    /** The registering half of `add_object`, for an object in no scene. */
    method Register(obj: GameObject)
      requires Valid() && obj.id.None? && obj.scene == null
      modifies this, obj
      ensures Valid()
      ensures camera == old(camera) && dt == old(dt)
      ensures objects == old(objects).Put(old(maxIndex), obj)
      ensures old(maxIndex) !in old(objects.entries)
      ensures obj.id == Some(old(maxIndex)) && obj.scene == this
      ensures maxIndex == old(maxIndex) + 1
      ensures obj.components == old(obj.components)
    {
      var old0, key := objects, maxIndex;
      assert forall k :: k in old0.entries ==> old0.entries[k] != obj;
      objects := objects.Put(key, obj);
      obj.id := Some(key);
      maxIndex := maxIndex + 1;
      obj.scene := this;
      assert Increasing(objects.keys) by {
        assert objects.keys == old0.keys + [key];
        forall j | 0 <= j < |old0.keys| ensures old0.keys[j] < key {
          assert old0.keys[j] in old0.entries;
        }
      }
      forall k | k in objects.entries
        ensures 0 <= k < maxIndex && objects.entries[k].id == Some(k) && objects.entries[k].scene == this
      {
        if k != key {
          assert objects.entries[k] == old0.entries[k];
        }
      }
    }

    /** `remove_object(obj)`: refused with `ValueError` unless the object's id is
        registered to this very object; otherwise only that entry goes, and the
        object's scene and id are cleared. */
    method RemoveObject(obj: GameObject) returns (r: Outcome)
      requires Valid()
      modifies this, obj
      ensures Valid()
      ensures camera == old(camera) && dt == old(dt) && maxIndex == old(maxIndex)
      ensures
        var found := old(obj.id).Some? && old(obj.id).value in old(objects.entries)
                     && old(objects.entries[obj.id.value]) == obj;
        && (!found ==> r == Raised(ValueError) && unchanged(this, obj))
        && (found ==>
              && r == Done
              && objects == old(objects).Delete(old(obj.id).value)
              && obj.scene == null && obj.id == None
              && obj.components == old(obj.components))
    {
      if obj.id.None? || obj.id.value !in objects.entries || objects.entries[obj.id.value] != obj {
        return Raised(ValueError);
      }
      Unregister(obj);
      r := Done;
    }

    /** The deleting half of `remove_object`, for an object registered under its id. */
    method Unregister(obj: GameObject)
      requires Valid() && obj.id.Some? && obj.id.value in objects.entries
      requires objects.entries[obj.id.value] == obj
      modifies this, obj
      ensures Valid()
      ensures camera == old(camera) && dt == old(dt) && maxIndex == old(maxIndex)
      ensures objects == old(objects).Delete(old(obj.id).value)
      ensures obj.scene == null && obj.id == None && obj.components == old(obj.components)
    {
      var old0, k := objects, obj.id.value;
      EraseKeepsIncreasing(old0.keys, k);
      objects := objects.Delete(k);
      assert objects.keys == Erase(old0.keys, k);
      obj.scene := null;
      obj.id := None;
      forall x | x in objects.entries
        ensures 0 <= x < maxIndex && objects.entries[x].id == Some(x) && objects.entries[x].scene == this
      {
        assert objects.entries[x] == old0.entries[x] && x != k;
        assert old0.entries[x].id == Some(x);
      }
    }

    /** `setup_frame(dt)`: only the frame time changes. */
    method SetupFrame(dt: real, ghost log: FrameLog)
      requires Valid()
      modifies this`dt, log`steps
      ensures Valid() && this.dt == dt
      ensures log.steps == old(log.steps) + [SetupFrameStep(dt)]
    {
      this.dt := dt;
      log.steps := log.steps + [SetupFrameStep(dt)];
    }

    /** `simulate_preframe()`: `update()` on every object, in insertion order; returns
        the objects in the order they were updated. */
    method SimulatePreframe(ghost log: FrameLog) returns (called: seq<GameObject>)
      requires Valid()
      modifies log`steps
      ensures called == objects.Values()
      ensures forall i, j :: 0 <= i < j < |called| ==> called[i] != called[j]
      ensures log.steps == old(log.steps) + [PreframeStep]
    {
      called := [];
      var i := 0;
      while i < |objects.keys|
        invariant 0 <= i <= |objects.keys|
        invariant called == objects.Values()[..i]
        invariant log.steps == old(log.steps)
      {
        var obj := objects.entries[objects.keys[i]];
        obj.Update();
        called := called + [obj];
        i := i + 1;
      }
      ValuesAreDistinct();
      log.steps := log.steps + [PreframeStep];
    }

    /** `simulate_postframe()`: `update_postframe()` on every object, in insertion order. */
    method SimulatePostframe(ghost log: FrameLog) returns (called: seq<GameObject>)
      requires Valid()
      modifies log`steps
      ensures called == objects.Values()
      ensures forall i, j :: 0 <= i < j < |called| ==> called[i] != called[j]
      ensures log.steps == old(log.steps) + [PostframeStep]
    {
      called := [];
      var i := 0;
      while i < |objects.keys|
        invariant 0 <= i <= |objects.keys|
        invariant called == objects.Values()[..i]
        invariant log.steps == old(log.steps)
      {
        var obj := objects.entries[objects.keys[i]];
        obj.UpdatePostframe();
        called := called + [obj];
        i := i + 1;
      }
      ValuesAreDistinct();
      log.steps := log.steps + [PostframeStep];
    }

    /** Two different ids never hold the same object, so each object is visited once. */
    lemma ValuesAreDistinct()
      requires Valid()
      ensures forall i, j :: 0 <= i < j < |objects.Values()| ==> objects.Values()[i] != objects.Values()[j]
    {
      var vs := objects.Values();
      forall i, j | 0 <= i < j < |vs| ensures vs[i] != vs[j] {
        assert vs[i].id == Some(objects.keys[i]);
        assert vs[j].id == Some(objects.keys[j]);
      }
    }

    /** The component set of each registered object, by id. */
    ghost function Components(): (m: map<int, set<Component>>)
      reads this, objects.entries.Values
      ensures m.Keys == objects.entries.Keys
    {
      map k | k in objects.entries :: objects.entries[k].components
    }

    /** `get_objects_of_type(cls)`: for each object in insertion order that has a
        component matching `cls`, one such component. */
    method GetObjectsOfType(cls: ComponentClass) returns (r: seq<Component>)
      requires objects.Valid()
      ensures PicksOne(objects.keys, |objects.keys|, Components(), cls, r)
    {
      r := CollectComponents(cls, Components());
    }

    /** The loop of `get_objects_of_type`, against a snapshot `comps` of the component sets. */
    method CollectComponents(cls: ComponentClass, ghost comps: map<int, set<Component>>) returns (r: seq<Component>)
      requires forall k :: k in objects.keys ==> k in comps
      requires forall k :: k in comps ==> k in objects.entries && comps[k] == objects.entries[k].components
      ensures PicksOne(objects.keys, |objects.keys|, comps, cls, r)
    {
      r := [];
      var i := 0;
      while i < |objects.keys|
        invariant 0 <= i <= |objects.keys|
        invariant PicksOne(objects.keys, i, comps, cls, r)
      {
        var k := objects.keys[i];
        var obj := objects.entries[k];
        var component := obj.GetComponent(cls);
        assert obj.components == comps[k];
        PicksOneStep(objects.keys, i, comps, cls, r, component);
        if component != null {
          r := r + [component];
        }
        i := i + 1;
      }
    }

    /** `get_object_of_type(cls)`: a matching component of the first object in insertion
        order that has one, or `None` when no object has one. */
    method GetObjectOfType(cls: ComponentClass) returns (r: Component?)
      requires objects.Valid()
      ensures var o := Owners(objects.keys, |objects.keys|, Components(), cls);
        && (r == null <==> o == [])
        && (r != null ==> r in Components()[o[0]] && IsInstance(r.cls, cls))
    {
      var all := GetObjectsOfType(cls);
      r := if |all| > 0 then all[0] else null;
    }
  }

  /** The guard of `add_object` as written, `obj.id is not None or obj.scene`, on an object
      that may lack the `id` attribute (`hasId` false): reading it raises `AttributeError`
      before the guard decides; otherwise a set id or a scene raises `ValueError`. */
  function AddGuardAsWritten(hasId: bool, id: Option<int>, scene: object?): (r: Outcome)
    ensures !hasId ==> r == Raised(AttributeError)
    ensures hasId ==> (r == Done <==> id.None? && scene == null)
    ensures hasId && r.Raised? ==> r.error == ValueError
  {
    if !hasId then Raised(AttributeError)
    else if id.Some? || scene != null then Raised(ValueError)
    else Done
  }

  /** A fresh object added to a fresh scene. `GameObject.__init__` sets no `id`, so as
      written the guard raises `AttributeError`; with the id starting as `None`, the
      object is registered under id 0. */
  method AddFreshObject() returns (asWritten: Outcome, intended: Outcome, obj: GameObject, s: Scene)
    ensures asWritten == Raised(AttributeError)
    ensures intended == Done && obj.id == Some(0) && obj.scene == s && s.objects.entries == map[0 := obj]
  {
    obj := new GameObject();
    asWritten := AddGuardAsWritten(false, obj.id, obj.scene);
    s := new Scene(null);
    intended := s.AddObject(obj);
    assert s.objects.entries == map[][0 := obj];
  }
}
