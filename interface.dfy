/** engine/interface.py: the tree of interface elements (named children with parent
    back-pointers, path lookup, the breadth-first walk, event listeners) and the size
    and offset arithmetic of `SpriteGroup`. */
module EngineInterface {
  import opened Common
  import opened OrderedDicts
  import opened Geometry

  /** A registered event callback, by identity; what it does is not part of this model. */
  type Callback = nat

  /** An event as `process_event` receives it: a dictionary with string keys. */
  type EventData = map<string, string>

  // ----- paths -----

  /** `s.split(sep)`: the pieces between the separators; there is always at least one. */
  function Split(s: string, sep: char): (parts: seq<string>)
    ensures |parts| >= 1
    ensures forall i :: 0 <= i < |parts| ==> sep !in parts[i]
    ensures Join(parts, sep) == s
    decreases |s|
  {
    if s == [] then [[]]
    else
      var rest := Split(s[1..], sep);
      if s[0] == sep then
        assert ([[]] + rest)[1..] == rest;
        [[]] + rest
      else
        var parts := [[s[0]] + rest[0]] + rest[1..];
        assert |rest| > 1 ==> Join(rest, sep) == rest[0] + [sep] + Join(rest[1..], sep);
        assert parts[1..] == rest[1..];
        assert [s[0]] + s[1..] == s;
        parts
  }

  /** `sep.join(parts)`. */
  function Join(parts: seq<string>, sep: char): string
    requires |parts| >= 1
  {
    if |parts| == 1 then parts[0] else parts[0] + [sep] + Join(parts[1..], sep)
  }

  /** A prefix without the separator becomes part of the first piece. */
  lemma {:induction false} SplitPrefix(a: string, t: string, sep: char)
    requires sep !in a
    ensures Split(a + t, sep) == [a + Split(t, sep)[0]] + Split(t, sep)[1..]
    decreases |a|
  {
    var st := Split(t, sep);
    if a == [] {
      assert a + t == t && a + st[0] == st[0];
      assert [st[0]] + st[1..] == st;
    } else {
      assert (a + t)[0] == a[0] && (a + t)[1..] == a[1..] + t;
      SplitPrefix(a[1..], t, sep);
      var rest := Split(a[1..] + t, sep);
      assert rest[0] == a[1..] + st[0] && rest[1..] == st[1..];
      assert Split(a + t, sep) == [[a[0]] + rest[0]] + rest[1..];
      assert [a[0]] + (a[1..] + st[0]) == a + st[0];
    }
  }

  /** Splitting a joined path gives back its pieces when none holds the separator. */
  lemma {:induction false} SplitJoin(parts: seq<string>, sep: char)
    requires |parts| >= 1 && forall i :: 0 <= i < |parts| ==> sep !in parts[i]
    ensures Split(Join(parts, sep), sep) == parts
  {
    if |parts| == 1 {
      SplitPrefix(parts[0], [], sep);
      assert parts[0] + [] == parts[0];
    } else {
      SplitJoin(parts[1..], sep);
      SplitCons(parts[0], Join(parts[1..], sep), sep);
      assert [parts[0]] + parts[1..] == parts;
    }
  }

  /** A piece without the separator, then the separator, splits off that piece. */
  lemma SplitCons(a: string, t: string, sep: char)
    requires sep !in a
    ensures Split(a + [sep] + t, sep) == [a] + Split(t, sep)
  {
    SplitAfterSep(t, sep);
    SplitPrefix(a, [sep] + t, sep);
    assert a + [sep] + t == a + ([sep] + t);
    assert a + [] == a;
  }

  /** A leading separator splits off an empty first piece. */
  lemma SplitAfterSep(t: string, sep: char)
    ensures Split([sep] + t, sep) == [[]] + Split(t, sep)
  {
    assert ([sep] + t)[1..] == t;
  }

  /** The element a path of names leads to from `e`, or `null` as soon as a name is missing. */
  ghost function Resolve(e: UIElement, names: seq<string>): UIElement?
    reads *
    decreases |names|
  {
    if names == [] then e
    else if names[0] !in e.children.entries then null
    else Resolve(e.children.entries[names[0]], names[1..])
  }

  /** Looking up `a` then `b` is looking up the path `a + b`. */
  lemma {:induction false} ResolveConcat(e: UIElement, a: seq<string>, b: seq<string>)
    ensures Resolve(e, a + b) == (var m := Resolve(e, a); if m == null then null else Resolve(m, b))
    decreases |a|
  {
    if a == [] {
      assert a + b == b;
    } else {
      assert (a + b)[0] == a[0] && (a + b)[1..] == a[1..] + b;
      if a[0] in e.children.entries {
        ResolveConcat(e.children.entries[a[0]], a[1..], b);
      }
    }
  }

  // ----- events -----

  /** `process_event(event)`: `event["name"]` (`KeyError` without one), then the callback
      registered under that name, if any, is the one called with the element and the event. */
  function Dispatch(listeners: map<string, Callback>, event: EventData): (r: Result<Option<Callback>>)
    ensures r.Raise? <==> "name" !in event
    ensures r.Raise? ==> r.error == KeyError
    ensures r.Ok? ==> (r.value.Some? <==> event["name"] in listeners)
    ensures r.Ok? && r.value.Some? ==> r.value.value == listeners[event["name"]]
  {
    if "name" !in event then Raise(KeyError)
    else if event["name"] in listeners then Ok(Some(listeners[event["name"]]))
    else Ok(None)
  }

  /** After `listen_for_event(n, cb)` an event named `n` reaches `cb`, and after
      `stop_listening_for_event(n)` it reaches nothing; other names are unaffected by either. */
  lemma ListenThenStop(listeners: map<string, Callback>, n: string, cb: Callback, event: EventData)
    requires "name" in event
    ensures event["name"] == n ==> Dispatch(listeners[n := cb], event) == Ok(Some(cb))
    ensures event["name"] == n ==> Dispatch(listeners - {n}, event) == Ok(None)
    ensures event["name"] != n ==> Dispatch(listeners[n := cb], event) == Dispatch(listeners, event)
    ensures event["name"] != n ==> Dispatch(listeners - {n}, event) == Dispatch(listeners, event)
  {
  }

  // ----- the breadth-first walk -----

  /** The children of every element of `s`, element after element, each in insertion order. */
  ghost function KidsOf(s: seq<UIElement>): seq<UIElement>
    reads set x | x in s
    requires forall x :: x in s ==> x.children.Valid()
  {
    if s == [] then []
    else KidsOf(s[..|s| - 1]) + s[|s| - 1].children.Values()
  }

  /** The elements below `root` are finitely many and form a tree: each has a height
      above its children's, its children are distinct and point back to it.
      (Without this `get_children(direct=False)` never ends.) */
  ghost predicate TreeBelow(root: UIElement, height: map<UIElement, nat>)
    reads height.Keys
  {
    root in height && forall e :: e in height ==> NodeBelow(e, height)
  }

  /** The children of `e` are distinct, lower than `e` and point back to it. */
  ghost predicate NodeBelow(e: UIElement, height: map<UIElement, nat>)
    reads height.Keys
    requires e in height
  {
    && e.children.Valid()
    && Distinct(e.children.Values())
    && forall c :: c in e.children.entries.Values ==> c in height && height[c] < height[e] && c.parent == e
  }

  /** A sequence without repetitions drawn from a set is no longer than the set. */
  lemma {:induction false} DistinctBound<T>(s: seq<T>, within: set<T>)
    requires Distinct(s) && forall x :: x in s ==> x in within
    ensures |s| <= |within|
  {
    if s != [] {
      assert forall x :: x in s[1..] ==> x in within - {s[0]} by {
        forall x | x in s[1..] ensures x in within - {s[0]} {
          var j :| 0 <= j < |s[1..]| && s[1..][j] == x;
          assert s[j + 1] == x;
        }
      }
      DistinctBound(s[1..], within - {s[0]});
    }
  }

  /** In a result of the walk, every direct child and every child of a walked element is walked. */
  lemma {:induction false} WalkIsClosed(root: UIElement, r: seq<UIElement>)
    requires root.children.Valid() && forall x :: x in r ==> x.children.Valid()
    requires r == root.children.Values() + KidsOf(r)
    ensures forall x :: x in root.children.entries.Values ==> x in r
    ensures forall i, c :: 0 <= i < |r| && c in r[i].children.entries.Values ==> c in r
  {
    forall x | x in root.children.entries.Values ensures x in r {
      var k :| k in root.children.entries && root.children.entries[k] == x;
      var j :| 0 <= j < |root.children.keys| && root.children.keys[j] == k;
      assert r[j] == root.children.Values()[j];
    }
    forall i, c | 0 <= i < |r| && c in r[i].children.entries.Values ensures c in r {
      KidsOfHolds(r, i, c);
    }
  }

  /** A child of the `i`-th element is among the children `KidsOf` collects. */
  lemma {:induction false} KidsOfHolds(s: seq<UIElement>, i: nat, c: UIElement)
    requires forall x :: x in s ==> x.children.Valid()
    requires i < |s| && c in s[i].children.entries.Values
    ensures c in KidsOf(s)
    decreases |s|
  {
    var last := s[|s| - 1];
    if i == |s| - 1 {
      var vs := last.children.Values();
      var k :| k in last.children.entries && last.children.entries[k] == c;
      var j :| 0 <= j < |last.children.keys| && last.children.keys[j] == k;
      assert vs[j] == c;
    } else {
      assert s[..|s| - 1][i] == s[i];
      KidsOfHolds(s[..|s| - 1], i, c);
    }
  }

  /** `UIElement`: a named node of the interface tree. */
  class UIElement {
    var name: Option<string>
    var parent: UIElement?
    var children: OrderedDict<string, UIElement>
    var position: Vector2
    var width: int
    var height: int
    var eventListeners: map<string, Callback>

    /** `UIElement(name, position, width, height)`: no parent, no children, no listeners;
        the position defaults to (0, 0). */
    constructor (name: Option<string>, position: Option<(real, real)>, width: int, height: int)
      ensures this.name == name && parent == null && children == Empty() && eventListeners == map[]
      ensures this.width == width && this.height == height
      ensures fresh(this.position)
      ensures (this.position.x, this.position.y) == position.GetOr((0.0, 0.0))
    {
      this.name := name;
      parent := null;
      children := Empty();
      var p := position.GetOr((0.0, 0.0));
      this.position := new Vector2(p.0, p.1);
      this.width, this.height := width, height;
      eventListeners := map[];
    }

    /** `add_child(element)`: `ValueError` when the element already has a parent or has no
        name; `IndexError` when the name is taken or the element is already a child;
        otherwise the element is appended under its name and points back here. */
    method AddChild(element: UIElement) returns (r: Outcome)
      requires children.Valid()
      modifies this`children, element`parent
      ensures element.name == old(element.name)
      ensures old(element.parent) != null ==> r == Raised(ValueError)
      ensures old(element.parent) == null && (element.name.None? || element.name.value == []) ==> r == Raised(ValueError)
      ensures (old(element.parent) == null && element.name.Some? && element.name.value != [] &&
        (element.name.value in old(children.entries) || element in old(children.entries.Values))) ==> r == Raised(IndexError)
      ensures r.Raised? ==> unchanged(this, element)
      ensures r.Done? <==> (old(element.parent) == null && element.name.Some? && element.name.value != [] &&
        element.name.value !in old(children.entries) && element !in old(children.entries.Values))
      ensures r.Done? ==> children == old(children).Put(element.name.value, element) && element.parent == this
      ensures r.Done? ==> children.Values() == old(children.Values()) + [element]
      ensures r.Done? && Distinct(old(children.Values())) ==> Distinct(children.Values())
      ensures name == old(name) && eventListeners == old(eventListeners)
      ensures width == old(width) && height == old(height) && position == old(position)
    {
      if element.parent != null {
        return Raised(ValueError);
      }
      if element.name.None? || |element.name.value| == 0 {
        return Raised(ValueError);
      }
      if element.name.value in children.entries || element in children.entries.Values {
        return Raised(IndexError);
      }
      Adopt(element);
      r := Done;
    }

    /** The last two statements of `add_child`: `children[element.name] = element` and
        `element.parent = self`, for a named element that is not a child yet. */
    method Adopt(element: UIElement)
      requires children.Valid() && element.name.Some?
      requires element.name.value !in children.entries && element !in children.entries.Values
      modifies this`children, element`parent
      ensures element.name == old(element.name)
      ensures children == old(children).Put(element.name.value, element) && element.parent == this
      ensures children.Values() == old(children.Values()) + [element]
      ensures Distinct(old(children.Values())) ==> Distinct(children.Values())
      ensures name == old(name) && eventListeners == old(eventListeners)
      ensures width == old(width) && height == old(height) && position == old(position)
    {
      ghost var before := children;
      ValuesAfterPutNew(before, element.name.value, element);
      children := children.Put(element.name.value, element);
      element.parent := this;
      assert element !in before.Values();
    }

    /** `add_child(element)` with the check it lacks: an element is also refused with
        `ValueError` when it is this element or has this element below it, so adding keeps
        the elements a tree. The new heights lift every element not below `element` above it. */
    method AddChildIntended(element: UIElement, ghost height: map<UIElement, nat>) returns (r: Outcome, ghost height': map<UIElement, nat>)
      requires TreeBelow(this, height) && TreeBelow(element, height)
      modifies this`children, element`parent
      ensures element.name == old(element.name)
      ensures old(element.parent) != null ==> r == Raised(ValueError)
      ensures old(element.parent) == null && (element.name.None? || element.name.value == []) ==> r == Raised(ValueError)
      ensures (old(element.parent) == null && element.name.Some? && element.name.value != [] &&
        (element.name.value in old(children.entries) || element in old(children.entries.Values))) ==> r == Raised(IndexError)
      ensures (old(element.parent) == null && element.name.Some? && element.name.value != [] &&
        element.name.value !in old(children.entries) && element !in old(children.entries.Values) &&
        old(Reaches(element, this, height))) ==> r == Raised(ValueError)
      ensures r.Raised? ==> unchanged(this, element)
      ensures r.Done? <==> (old(element.parent) == null && element.name.Some? && element.name.value != [] &&
        element.name.value !in old(children.entries) && element !in old(children.entries.Values) &&
        !old(Reaches(element, this, height)))
      ensures r.Done? ==> children == old(children).Put(element.name.value, element) && element.parent == this
      ensures r.Done? ==> height'.Keys == height.Keys && TreeBelow(this, height') && TreeBelow(element, height')
      ensures r.Raised? ==> height' == height
    {
      height' := height;
      if element.parent != null {
        return Raised(ValueError), height';
      }
      if element.name.None? || |element.name.value| == 0 {
        return Raised(ValueError), height';
      }
      if element.name.value in children.entries || element in children.entries.Values {
        return Raised(IndexError), height';
      }
      var cyclic := IsBelow(element, height);
      if cyclic {
        return Raised(ValueError), height';
      }
      height' := AdoptIntoTree(element, height);
      r := Done;
    }

    /** `Adopt` of a parentless element this element is not below: the lifted heights
        describe a tree holding both. */
    method AdoptIntoTree(element: UIElement, ghost height: map<UIElement, nat>) returns (ghost height': map<UIElement, nat>)
      requires TreeBelow(this, height) && TreeBelow(element, height)
      requires element.parent == null && element.name.Some? && !Reaches(element, this, height)
      requires element.name.value !in children.entries && element !in children.entries.Values
      modifies this`children, element`parent
      ensures children == old(children).Put(element.name.value, element) && element.parent == this
      ensures height'.Keys == height.Keys && TreeBelow(this, height') && TreeBelow(element, height')
    {
      height' := Lifted(element, height);
      KeepsTree(element, height, height');
      ghost var kids := map e | e in height :: e.children;
      ghost var parents := map e | e in height :: e.parent;
      ghost var before := children;
      forall e | e in height && e != this
        ensures OtherOk(element, height', kids, parents, e)
      {
        assert NodeBelow(e, height);
      }
      assert NodeBelow(this, height);
      Adopt(element);
      forall c | c in before.entries.Values
        ensures c in height' && height'[c] < height'[this] && c.parent == this
      {
        assert old(c.parent) == this && c != element;
      }
      ParentAfterAdopt(this, element, height', before);
      TreeAfterAdopt(this, element, height', kids, parents);
    }

    /** `element is self or self in element.get_children()`: this element is `element` or
        lies below it. */
    method IsBelow(element: UIElement, ghost height: map<UIElement, nat>) returns (b: bool)
      requires this in height && TreeBelow(element, height)
      ensures b <==> Reaches(element, this, height)
    {
      var below := element.GetChildren(false, height);
      WalkIsClosed(element, below);
      if element == this {
        return true;
      }
      b := this in below;
      if b {
        ReachedByWalk(element, below, this, height);
      } else if Reaches(element, this, height) {
        WalkHoldsReached(element, element, this, below, height);
      }
    }

    /** The new heights order every child below its parent, the adopted element under this one. */
    lemma KeepsTree(element: UIElement, height: map<UIElement, nat>, height': map<UIElement, nat>)
      requires TreeBelow(this, height) && TreeBelow(element, height) && element.parent == null
      requires !Reaches(element, this, height)
      requires height' == Lifted(element, height)
      ensures height'.Keys == height.Keys && height'[element] < height'[this]
      ensures forall e, c :: e in height && c in e.children.entries.Values ==> c in height && height'[c] < height'[e] && c != element
    {
      forall e, c | e in height && c in e.children.entries.Values
        ensures c in height && height'[c] < height'[e] && c != element
      {
        if Reaches(element, e, height) {
          ReachesClosed(this, element, e, c, height);
        } else if Reaches(element, c, height) {
          ReachesBounded(element, c, height);
        }
      }
    }

    /** `remove_child(element_name)`: `ValueError` for no name or an empty one; `None` when
        there is no such child; otherwise the child is deleted, loses its parent and is returned. */
    method RemoveChild(elementName: Option<string>) returns (r: Result<UIElement?>)
      requires children.Valid()
      modifies this`children, (if elementName.Some? && elementName.value in children.entries then {children.entries[elementName.value]} else {})`parent
      ensures elementName.None? || elementName.value == [] ==> r == Raise(ValueError) && unchanged(this)
      ensures elementName.Some? && elementName.value != [] && elementName.value !in old(children.entries) ==>
        r == Ok(null) && unchanged(this)
      ensures elementName.Some? && elementName.value != [] && elementName.value in old(children.entries) ==>
        && r.Ok? && r.value == old(children.entries[elementName.value])
        && children == old(children).Delete(elementName.value)
        && r.value.parent == null
      ensures name == old(name) && eventListeners == old(eventListeners)
      ensures width == old(width) && height == old(height) && position == old(position)
    {
      if elementName.None? || |elementName.value| == 0 {
        return Raise(ValueError);
      }
      var n := elementName.value;
      if n !in children.entries {
        return Ok(null);
      }
      var element := children.entries[n];
      children := children.Delete(n);
      element.parent := null;
      r := Ok(element);
    }

    /** `find_child(child_name)` as written: the walk stops at the first name, missing or not,
        because the step to a found child reads the attribute `chilren`, which does not exist. */
    method FindChildAsWritten(childName: string) returns (r: Result<UIElement?>)
      ensures Split(childName, '/')[0] !in children.entries ==> r == Ok(null)
      ensures Split(childName, '/')[0] in children.entries ==> r == Raise(AttributeError)
    {
      var allElements := Split(childName, '/');
      if allElements[0] !in children.entries {
        return Ok(null);
      }
      r := Raise(AttributeError);
    }

    /** `find_child(child_name)` as evidently intended: follows the names separated by `/`
        child by child and gives `None` as soon as one is missing. */
    method FindChild(childName: string) returns (r: UIElement?)
      ensures r == Resolve(this, Split(childName, '/'))
    {
      var allElements := Split(childName, '/');
      var parent := this;
      var i := 0;
      while i < |allElements|
        invariant 0 <= i <= |allElements|
        invariant Resolve(this, allElements) == Resolve(parent, allElements[i..])
      {
        var elementName := allElements[i];
        assert allElements[i..][1..] == allElements[i + 1..];
        if elementName !in parent.children.entries {
          return null;
        }
        parent := parent.children.entries[elementName];
        i := i + 1;
      }
      r := parent;
    }

    /** `process_event(event)`: the callback this event is delivered to, if any. */
    method ProcessEvent(event: EventData) returns (r: Result<Option<Callback>>)
      ensures r == Dispatch(eventListeners, event)
    {
      if "name" !in event {
        return Raise(KeyError);
      }
      var n := event["name"];
      if n in eventListeners {
        return Ok(Some(eventListeners[n]));
      }
      r := Ok(None);
    }

    /** `listen_for_event(event_name, callback)`: `ValueError` for a `None` callback,
        otherwise the callback replaces any earlier one for that name. */
    method ListenForEvent(eventName: string, callback: Option<Callback>) returns (r: Outcome)
      modifies this`eventListeners
      ensures callback.None? ==> r == Raised(ValueError) && unchanged(this)
      ensures callback.Some? ==> r == Done && eventListeners == old(eventListeners)[eventName := callback.value]
      ensures children == old(children) && parent == old(parent) && name == old(name)
    {
      if callback.None? {
        return Raised(ValueError);
      }
      eventListeners := eventListeners[eventName := callback.value];
      r := Done;
    }

    /** `stop_listening_for_event(event_name)`: drops the callback for that name, if any. */
    method StopListening(eventName: string)
      modifies this`eventListeners
      ensures eventListeners == old(eventListeners) - {eventName}
      ensures children == old(children) && parent == old(parent) && name == old(name)
    {
      if eventName in eventListeners {
        eventListeners := eventListeners - {eventName};
      }
    }

    /** `get_children(direct)`: with `direct` the children in insertion order; otherwise every
        element below this one exactly once, breadth first: the children, then the children of
        each walked element in the order they were walked. */
    method GetChildren(direct: bool, ghost height: map<UIElement, nat>) returns (r: seq<UIElement>)
      requires children.Valid()
      requires !direct ==> TreeBelow(this, height)
      ensures direct ==> r == children.Values()
      ensures !direct ==> (forall x :: x in r ==> x.children.Valid()) && r == children.Values() + KidsOf(r)
      ensures !direct ==> Distinct(r) && forall x :: x in r ==> x in height && x != this
    {
      var walk := children.Values();
      ghost var first := walk;
      if !direct {
        WalkStart(this, height);
      }
      var i := 0;
      while i < |walk|
        invariant 0 <= i <= |walk|
        invariant direct ==> walk == first
        invariant !direct ==> WalkState(this, height, first, walk, i)
        decreases (if direct then |walk| else |height.Keys|) - i
      {
        var element := walk[i];
        if !direct {
          WalkStep(this, height, first, walk, i);
          walk := walk + element.children.Values();
        }
        i := i + 1;
      }
      r := walk;
      if !direct {
        WalkDone(this, height, first, walk);
      }
    }
  }

  /** A finished walk holds the children and their children's children, once each. */
  lemma WalkDone(root: UIElement, height: map<UIElement, nat>, first: seq<UIElement>, walk: seq<UIElement>)
    requires root in height && WalkState(root, height, first, walk, |walk|)
    ensures (forall x :: x in walk ==> x.children.Valid()) && walk == root.children.Values() + KidsOf(walk)
    ensures Distinct(walk) && forall x :: x in walk ==> x in height && x != root
  {
    assert walk[..|walk|] == walk;
  }

  /** What the walk keeps after `i` steps: it is the children followed by the children of the
      first `i` walked elements, repeats nothing, stays below `root`, and every element in it is
      a child of `root` or of an element already walked. */
  ghost predicate WalkState(root: UIElement, height: map<UIElement, nat>, first: seq<UIElement>, walk: seq<UIElement>, i: nat)
    reads height.Keys, root
    requires root in height
  {
    && root.children.Valid()
    && first == root.children.Values()
    && i <= |walk| <= |height.Keys|
    && Below(root, height, walk)
    && (forall x :: x in walk ==> x.children.Valid())
    && walk == first + KidsOf(walk[..i])
    && Distinct(walk)
    && FromWalked(root, walk, i)
  }

  /** Every element of `walk` is below `root` in the tree `height` describes. */
  ghost predicate Below(root: UIElement, height: map<UIElement, nat>, walk: seq<UIElement>)
    requires root in height
  {
    forall x :: x in walk ==> x in height && height[x] < height[root]
  }

  /** Every element of `walk` is a child of `root` or of one of the first `i` elements. */
  ghost predicate FromWalked(root: UIElement, walk: seq<UIElement>, i: nat)
    reads set x | x in walk
    requires i <= |walk|
  {
    forall x :: x in walk ==> x.parent == root || x.parent in walk[..i]
  }

  /** The walk starts in `WalkState` with the children of `root`. */
  lemma WalkStart(root: UIElement, height: map<UIElement, nat>)
    requires TreeBelow(root, height) && root.children.Valid()
    ensures WalkState(root, height, root.children.Values(), root.children.Values(), 0)
  {
    var first := root.children.Values();
    assert forall j :: 0 <= j < |first| ==> first[j] in root.children.entries.Values;
    DistinctBound(first, height.Keys);
    assert first == first + KidsOf(first[..0]);
  }

  /** Appending the children of the `i`-th walked element repeats nothing: a child points back
      to its parent, which is walked only once and is not the root. */
  lemma AppendKeepsDistinct(root: UIElement, walk: seq<UIElement>, i: nat, kids: seq<UIElement>)
    requires i < |walk| && Distinct(walk) && Distinct(kids) && walk[i] != root
    requires FromWalked(root, walk, i)
    requires forall c :: c in kids ==> c.parent == walk[i]
    ensures Distinct(walk + kids)
  {
    var next := walk + kids;
    assert walk[i] !in walk[..i];
    forall j, k | 0 <= j < k < |next| ensures next[j] != next[k] {
      if k >= |walk| {
        if j < |walk| {
          assert next[k] in kids && next[j] == walk[j];
        } else {
          assert next[j] == kids[j - |walk|] && next[k] == kids[k - |walk|];
        }
      }
    }
  }

  /** `KidsOf` over one more element of `s`. */
  lemma KidsOfStep(s: seq<UIElement>, i: nat)
    requires i < |s| && forall x :: x in s ==> x.children.Valid()
    ensures (forall x :: x in s[..i + 1] ==> x.children.Valid()) && (forall x :: x in s[..i] ==> x.children.Valid())
    ensures KidsOf(s[..i + 1]) == KidsOf(s[..i]) + s[i].children.Values()
  {
    assert s[..i + 1][..i] == s[..i];
  }

  /** One step of the walk keeps `WalkState`. */
  lemma WalkStep(root: UIElement, height: map<UIElement, nat>, first: seq<UIElement>, walk: seq<UIElement>, i: nat)
    requires TreeBelow(root, height) && WalkState(root, height, first, walk, i) && i < |walk|
    ensures WalkState(root, height, first, walk + walk[i].children.Values(), i + 1)
  {
    var e := walk[i];
    var kids := e.children.Values();
    var next := walk + kids;
    KidsStayBelow(root, height, e);
    AppendKeepsDistinct(root, walk, i, kids);
    AppendStaysBelow(root, height, walk, kids);
    AppendFromWalked(root, walk, i, kids);
    DistinctBound(next, height.Keys);
    WalkEquationStep(first, walk, i);
  }

  /** Appending children of elements below the root keeps the walk below the root. */
  lemma AppendStaysBelow(root: UIElement, height: map<UIElement, nat>, walk: seq<UIElement>, kids: seq<UIElement>)
    requires root in height && Below(root, height, walk)
    requires forall c :: c in kids ==> c in height && height[c] < height[root]
    ensures Below(root, height, walk + kids)
  {
    assert forall x :: x in walk + kids ==> x in walk || x in kids;
  }

  /** Appending the children of the `i`-th element keeps every element traced to a walked parent. */
  lemma AppendFromWalked(root: UIElement, walk: seq<UIElement>, i: nat, kids: seq<UIElement>)
    requires i < |walk| && FromWalked(root, walk, i)
    requires forall c :: c in kids ==> c.parent == walk[i]
    ensures FromWalked(root, walk + kids, i + 1)
  {
    var next := walk + kids;
    assert next[..i + 1] == walk[..i + 1];
    assert forall x :: x in walk[..i] ==> x in walk[..i + 1];
    assert forall x :: x in next ==> x in walk || x in kids;
  }

  /** The walk's equation over one more walked element. */
  lemma WalkEquationStep(first: seq<UIElement>, walk: seq<UIElement>, i: nat)
    requires i < |walk| && forall x :: x in walk ==> x.children.Valid()
    requires walk == first + KidsOf(walk[..i])
    ensures var next := walk + walk[i].children.Values();
      (forall x :: x in next[..i + 1] ==> x.children.Valid()) && next == first + KidsOf(next[..i + 1])
  {
    var next := walk + walk[i].children.Values();
    assert next[..i + 1] == walk[..i + 1];
    KidsOfStep(walk, i);
  }

  /** The children of an element of the tree are in the tree, below it, and point back to it. */
  lemma KidsStayBelow(root: UIElement, height: map<UIElement, nat>, e: UIElement)
    requires TreeBelow(root, height) && e in height
    ensures e.children.Valid()
    ensures forall c :: c in e.children.Values() ==> c.parent == e && c in height && height[c] < height[e]
    ensures forall c :: c in e.children.Values() ==> c.children.Valid()
  {
    var kids := e.children.Values();
    assert forall j :: 0 <= j < |kids| ==> kids[j] in e.children.entries.Values;
  }

  /** `x` is `a` or lies below it, following children whose heights in `height` decrease. */
  ghost predicate Reaches(a: UIElement, x: UIElement, height: map<UIElement, nat>)
    reads height.Keys
    requires a in height
    decreases height[a]
  {
    a == x || exists c :: c in a.children.entries.Values && c in height && height[c] < height[a] && Reaches(c, x, height)
  }

  /** What `a` reaches in a tree is in the tree and no higher than `a`. */
  lemma {:induction false} ReachesBounded(a: UIElement, x: UIElement, height: map<UIElement, nat>)
    requires a in height && Reaches(a, x, height)
    ensures x in height && height[x] <= height[a]
    decreases height[a]
  {
    if a != x {
      var c :| c in a.children.entries.Values && c in height && height[c] < height[a] && Reaches(c, x, height);
      ReachesBounded(c, x, height);
    }
  }

  /** What `a` reaches in a tree, it reaches the children of as well. */
  lemma {:induction false} ReachesClosed(root: UIElement, a: UIElement, x: UIElement, c: UIElement, height: map<UIElement, nat>)
    requires TreeBelow(root, height) && a in height && Reaches(a, x, height)
    requires c in x.children.entries.Values
    ensures c in height && Reaches(a, c, height)
    decreases height[a]
  {
    ReachesBounded(a, x, height);
    if a != x {
      var d :| d in a.children.entries.Values && d in height && height[d] < height[a] && Reaches(d, x, height);
      ReachesClosed(root, d, x, c, height);
    }
  }

  /** A walk that holds the children of `e` and is closed under children holds everything
      below `e`, `e` itself aside. */
  lemma {:induction false} WalkHoldsReached(e: UIElement, a: UIElement, x: UIElement, r: seq<UIElement>, height: map<UIElement, nat>)
    requires a in height && Reaches(a, x, height) && (a == e || a in r)
    requires forall y :: y in e.children.entries.Values ==> y in r
    requires forall i, c :: 0 <= i < |r| && c in r[i].children.entries.Values ==> c in r
    ensures x == e || x in r
    decreases height[a]
  {
    if a != x {
      var c :| c in a.children.entries.Values && c in height && height[c] < height[a] && Reaches(c, x, height);
      if a != e {
        var i :| 0 <= i < |r| && r[i] == a;
        assert c in r[i].children.entries.Values;
      }
      WalkHoldsReached(e, c, x, r, height);
    }
  }

  /** The heights after `element` is put under an element it does not reach: what `element`
      reaches keeps its height, everything else is lifted above `element`. */
  ghost function Lifted(element: UIElement, height: map<UIElement, nat>): (h: map<UIElement, nat>)
    reads height.Keys
    requires element in height
    ensures h.Keys == height.Keys
  {
    map x | x in height :: if Reaches(element, x, height) then height[x] else height[x] + height[element] + 1
  }

  /** Everything the walk from `e` visits lies below `e`. */
  lemma {:induction false} ReachedByWalk(e: UIElement, r: seq<UIElement>, x: UIElement, height: map<UIElement, nat>)
    requires TreeBelow(e, height) && (forall y :: y in r ==> y.children.Valid() && y in height)
    requires r == e.children.Values() + KidsOf(r) && x in r
    ensures Reaches(e, x, height)
    decreases MaxHeight(height) - height[x]
  {
    var c0 := e.children.Values();
    if x in c0 {
      var j :| 0 <= j < |c0| && c0[j] == x;
      assert e.children.entries[e.children.keys[j]] == x;
      assert Reaches(x, x, height);
    } else {
      assert x in KidsOf(r);
      var p := KidsOfParent(r, x);
      ReachedByWalk(e, r, p, height);
      ReachesClosed(e, e, p, x, height);
    }
  }

  /** An element `KidsOf` collects is a child of one of the elements it collects from. */
  lemma {:induction false} KidsOfParent(s: seq<UIElement>, x: UIElement) returns (p: UIElement)
    requires (forall y :: y in s ==> y.children.Valid()) && x in KidsOf(s)
    ensures p in s && x in p.children.entries.Values
    decreases |s|
  {
    var init := s[..|s| - 1];
    var last := s[|s| - 1];
    if x in KidsOf(init) {
      p := KidsOfParent(init, x);
    } else {
      var vs := last.children.Values();
      var j :| 0 <= j < |vs| && vs[j] == x;
      assert last.children.entries[last.children.keys[j]] == x;
      p := last;
    }
  }

  /** A height no element of the map exceeds. */
  ghost function MaxHeight(height: map<UIElement, nat>): (m: nat)
    ensures forall x :: x in height ==> height[x] <= m
    decreases |height.Keys|
  {
    if height == map[] then 0
    else
      var k :| k in height;
      var rest := height - {k};
      assert |rest.Keys| < |height.Keys| by {
        assert rest.Keys == height.Keys - {k};
      }
      assert forall x :: x in height ==> x == k || x in rest;
      Max(height[k], MaxHeight(rest))
  }

  /** The tree after `element` is put under `parent`: `parent` is in order, and every other
      element kept its children, which kept their parents. */
  lemma TreeAfterAdopt(parent: UIElement, element: UIElement, height: map<UIElement, nat>,
                       kids: map<UIElement, OrderedDict<string, UIElement>>, parents: map<UIElement, UIElement?>)
    requires parent in height && element in height && NodeBelow(parent, height)
    requires forall e :: e in height && e != parent ==> OtherOk(element, height, kids, parents, e)
    requires forall x :: x in parents && x != element ==> x.parent == parents[x]
    ensures TreeBelow(parent, height) && TreeBelow(element, height)
  {
    forall e | e in height
      ensures NodeBelow(e, height)
    {
      if e != parent {
        OtherAfterAdopt(element, height, kids, parents, e);
      }
    }
  }

  /** `e` has the children it had before (`kids[e]`), lower than `e`, pointing back to it (as
      `parents` records), and none of them is `element`. */
  ghost predicate OtherOk(element: UIElement, height: map<UIElement, nat>,
                        kids: map<UIElement, OrderedDict<string, UIElement>>, parents: map<UIElement, UIElement?>, e: UIElement)
    reads e`children
  {
    e in height && e in kids && e.children == kids[e] && kids[e].Valid() && Distinct(kids[e].Values())
    && forall c :: c in kids[e].entries.Values ==> c in height && height[c] < height[e] && c != element && c in parents && parents[c] == e
  }

  /** `parent` after it adopted `element`. */
  lemma ParentAfterAdopt(parent: UIElement, element: UIElement, height: map<UIElement, nat>, before: OrderedDict<string, UIElement>)
    requires parent in height && element in height && height[element] < height[parent]
    requires forall c :: c in before.entries.Values ==> c in height && height[c] < height[parent] && c.parent == parent
    requires element.name.Some? && before.Valid()
    requires parent.children == before.Put(element.name.value, element) && Distinct(parent.children.Values())
    requires element.parent == parent
    ensures NodeBelow(parent, height)
  {
    forall c | c in parent.children.entries.Values
      ensures c in height && height[c] < height[parent] && c.parent == parent
    {
      if c != element {
        PutKeepsOtherValues(before, element.name.value, element, c);
      }
    }
  }

  /** An element other than the new parent: its children and theirs parents are as before. */
  lemma OtherAfterAdopt(element: UIElement, height: map<UIElement, nat>,
                        kids: map<UIElement, OrderedDict<string, UIElement>>, parents: map<UIElement, UIElement?>, e: UIElement)
    requires OtherOk(element, height, kids, parents, e)
    requires forall x :: x in parents && x != element ==> x.parent == parents[x]
    ensures NodeBelow(e, height)
  {
  }

  /** A value of `d.Put(k, v)` other than `v` was a value of `d`. */
  lemma PutKeepsOtherValues(d: OrderedDict<string, UIElement>, k: string, v: UIElement, c: UIElement)
    requires d.Valid() && c in d.Put(k, v).entries.Values && c != v
    ensures c in d.entries.Values
  {
    var j :| j in d.Put(k, v).entries && d.Put(k, v).entries[j] == c;
    assert j in d.entries && d.entries[j] == c;
  }

  /** An element that is its own child has no tree below it. */
  lemma SelfChildHasNoTree(e: UIElement, height: map<UIElement, nat>)
    requires e in e.children.entries.Values
    ensures !TreeBelow(e, height)
  {
  }

  // ----- SpriteGroup layout -----

  /** A width and a height: of a sprite as it is drawn (the loaded image is not modelled), of
      the group's surface, and of the element. */
  datatype Size = Size(width: int, height: int)

  /** The extent along the group's direction, and across it. */
  function Along(s: Size, horizontal: bool): int { if horizontal then s.width else s.height }
  function Across(s: Size, horizontal: bool): int { if horizontal then s.height else s.width }

  /** Python's `s[:count]`: a negative count drops that many elements from the end. */
  function PrefixSlice<T>(s: seq<T>, count: int): (r: seq<T>)
    ensures |r| <= |s| && r == s[..|r|]
    ensures count >= 0 ==> |r| == Min(count, |s|)
    ensures count < 0 ==> |r| == Max(|s| + count, 0)
  {
    if count >= 0 then s[..Min(count, |s|)] else s[..Max(|s| + count, 0)]
  }

  /** The sum of the sprites' extents along the direction (the `reduce` of `_construct_sprite`). */
  function LengthSum(s: seq<Size>, horizontal: bool): int
  {
    if s == [] then 0 else LengthSum(s[..|s| - 1], horizontal) + Along(s[|s| - 1], horizontal)
  }

  /** The largest extent across the direction (the `max` of `_construct_sprite`). */
  function Thickness(s: seq<Size>, horizontal: bool): (m: int)
    requires s != []
    ensures forall i :: 0 <= i < |s| ==> Across(s[i], horizontal) <= m
    ensures exists i :: 0 <= i < |s| && Across(s[i], horizontal) == m
  {
    if |s| == 1 then Across(s[0], horizontal)
    else
      var init := s[..|s| - 1];
      var m := Max(Thickness(init, horizontal), Across(s[|s| - 1], horizontal));
      assert forall i :: 0 <= i < |s| - 1 ==> s[i] == init[i];
      m
  }

  /** Width and height from the extents along and across the direction. */
  function Oriented(along: int, across: int, horizontal: bool): (r: Size)
    ensures Along(r, horizontal) == along && Across(r, horizontal) == across
  {
    if horizontal then Size(along, across) else Size(across, along)
  }

  /** `_construct_sprite`: the size of the surface the visible sprites are drawn on. A zero count
      gives an empty surface; otherwise the first `visible_count` sprites (Python slice) laid
      end to end with `max((n - 1) * spacing, 0)` between them, as thick as the thickest; no
      visible sprite at all makes `max` of an empty list raise `ValueError`. */
  function SurfaceSize(images: seq<Size>, visibleCount: int, spacing: int, horizontal: bool): (r: Result<Size>)
    ensures visibleCount == 0 ==> r == Ok(Size(0, 0))
    ensures r.Raise? <==> visibleCount != 0 && PrefixSlice(images, visibleCount) == []
    ensures r.Raise? ==> r.error == ValueError
    ensures visibleCount != 0 && r.Ok? ==>
      var visible := PrefixSlice(images, visibleCount);
      r.value == Oriented(LengthSum(visible, horizontal) + Max((|visible| - 1) * spacing, 0), Thickness(visible, horizontal), horizontal)
  {
    if visibleCount == 0 then Ok(Size(0, 0))
    else
      var visible := PrefixSlice(images, visibleCount);
      if visible == [] then Raise(ValueError)
      else
        var spacingSize := Max((|visible| - 1) * spacing, 0);
        Ok(Oriented(LengthSum(visible, horizontal) + spacingSize, Thickness(visible, horizontal), horizontal))
  }

  /** How many sprites the loop of `rebuild_sprite` draws: it stops at `visible_count`. */
  function Drawn(visibleCount: int, total: nat): (n: nat)
    ensures n <= total
    ensures visibleCount <= 0 ==> n == 0
    ensures visibleCount > 0 ==> n == Min(visibleCount, total)
  {
    if visibleCount <= 0 then 0 else Min(visibleCount, total)
  }

  /** Where the `i`-th sprite starts along the direction: the sprites before it, each followed by the spacing. */
  function Offset(images: seq<Size>, i: nat, spacing: int, horizontal: bool): int
    requires i <= |images|
  {
    LengthSum(images[..i], horizontal) + i * spacing
  }

  /** Each sprite starts where the one before it ends, plus the spacing. */
  lemma OffsetStep(images: seq<Size>, i: nat, spacing: int, horizontal: bool)
    requires 1 <= i <= |images|
    ensures Offset(images, i, spacing, horizontal) == Offset(images, i - 1, spacing, horizontal) + spacing + Along(images[i - 1], horizontal)
  {
    assert images[..i][..i - 1] == images[..i - 1];
  }

  /** The positions `rebuild_sprite` draws the first `n` sprites at. */
  function Blits(images: seq<Size>, n: nat, spacing: int, horizontal: bool): (b: seq<Size>)
    requires n <= |images|
    ensures |b| == n
    ensures forall i :: 0 <= i < n ==> b[i] == Oriented(Offset(images, i, spacing, horizontal), 0, horizontal)
  {
    seq(n, i requires 0 <= i < n => Oriented(Offset(images, i, spacing, horizontal), 0, horizontal))
  }

  /** The element size `rebuild_sprite` leaves after drawing `n > 0` sprites, as written: it ends
      where the last sprite ends, but is only as thick as the last sprite (or 0). */
  function ElementSizeAsWritten(images: seq<Size>, n: nat, spacing: int, horizontal: bool): Size
    requires 0 < n <= |images|
  {
    Oriented(Offset(images, n - 1, spacing, horizontal) + Along(images[n - 1], horizontal), Max(0, Across(images[n - 1], horizontal)), horizontal)
  }

  /** The element size as evidently intended: as thick as the thickest sprite drawn. */
  function ElementSizeIntended(images: seq<Size>, n: nat, spacing: int, horizontal: bool): Size
    requires 0 < n <= |images|
  {
    Oriented(Offset(images, n - 1, spacing, horizontal) + Along(images[n - 1], horizontal), Thickness(images[..n], horizontal), horizontal)
  }

  /** With a positive count and no negative spacing, the intended element size is the size of
      the surface `_construct_sprite` builds. */
  lemma IntendedSizeIsSurfaceSize(images: seq<Size>, visibleCount: int, spacing: int, horizontal: bool)
    requires images != [] && visibleCount > 0 && spacing >= 0
    ensures SurfaceSize(images, visibleCount, spacing, horizontal) == Ok(ElementSizeIntended(images, Drawn(visibleCount, |images|), spacing, horizontal))
  {
    var n := Drawn(visibleCount, |images|);
    var visible := images[..n];
    assert PrefixSlice(images, visibleCount) == visible;
    assert visible[..n - 1] == images[..n - 1];
    assert Max((n - 1) * spacing, 0) == (n - 1) * spacing;
  }

  /** Two sprites side by side, the second one shorter: the surface is as tall as the first,
      the element as written only as tall as the second. */
  lemma AsWrittenSizeDiffers()
    ensures var images := [Size(4, 10), Size(4, 3)];
      && SurfaceSize(images, 2, 0, true) == Ok(Size(8, 10))
      && ElementSizeAsWritten(images, 2, 0, true) == Size(8, 3)
      && ElementSizeIntended(images, 2, 0, true) == Size(8, 10)
  {
    var images := [Size(4, 10), Size(4, 3)];
    assert images[..2] == images && images[..1] == [Size(4, 10)];
    assert PrefixSlice(images, 2) == images;
    assert LengthSum(images[..1], true) == 4;
    assert LengthSum(images, true) == 8;
  }

  /** With sprites of no negative size and no negative spacing, every sprite drawn lies inside
      the surface: it starts at or after its beginning and ends at or before its end. */
  lemma DrawnSpritesFitSurface(images: seq<Size>, visibleCount: int, spacing: int, horizontal: bool, i: nat)
    requires forall j :: 0 <= j < |images| ==> images[j].width >= 0 && images[j].height >= 0
    requires spacing >= 0 && SurfaceSize(images, visibleCount, spacing, horizontal).Ok?
    requires i < Drawn(visibleCount, |images|)
    ensures var surface := SurfaceSize(images, visibleCount, spacing, horizontal).value;
      && 0 <= Offset(images, i, spacing, horizontal)
      && Offset(images, i, spacing, horizontal) + Along(images[i], horizontal) <= Along(surface, horizontal)
      && Across(images[i], horizontal) <= Across(surface, horizontal)
  {
    var n := Drawn(visibleCount, |images|);
    var visible := images[..n];
    assert PrefixSlice(images, visibleCount) == visible;
    assert visible[i] == images[i];
    assert visible[..i + 1] == images[..i + 1] && visible[..i] == images[..i];
    LengthSumPrefix(visible, i + 1, horizontal);
    LengthSumPrefix(visible, i, horizontal);
    OffsetStep(images, i + 1, spacing, horizontal);
    MulMono(i, n - 1, spacing);
  }

  /** `a * c <= b * c` for `0 <= a <= b` and `c >= 0`. */
  lemma MulMono(a: nat, b: nat, c: int)
    requires a <= b && c >= 0
    ensures 0 <= a * c <= b * c
  {
  }

  /** The first `k` sprites of no negative size are no longer than all of them, and none is negative. */
  lemma {:induction false} LengthSumPrefix(s: seq<Size>, k: nat, horizontal: bool)
    requires k <= |s| && forall j :: 0 <= j < |s| ==> s[j].width >= 0 && s[j].height >= 0
    ensures 0 <= LengthSum(s[..k], horizontal) <= LengthSum(s, horizontal)
  {
    if k < |s| {
      var init := s[..|s| - 1];
      assert init[..k] == s[..k];
      LengthSumPrefix(init, k, horizontal);
    } else {
      assert s[..k] == s;
      if s != [] {
        LengthSumPrefix(s[..|s| - 1], |s| - 1, horizontal);
      }
    }
  }

  /** `SpriteGroup`: sprites drawn in a row or a column onto one surface. The element it
      extends (name, position, size, place in the tree) is `element`. */
  class SpriteGroup {
    const element: UIElement
    var images: seq<Size>
    var horizontal: bool
    var spacing: int
    var visibleCount: int
    /** The size of `self.sprite`, once a surface has been built. */
    var surface: Option<Size>
    /** The positions sprites were drawn at on the current surface, in drawing order. */
    var blits: seq<Size>

    /** `SpriteGroup(name, sprites, position, spacing, horizontal)`: every sprite visible, and
        the surface built right away; with every sprite visible the build cannot raise. */
    constructor (name: Option<string>, sprites: seq<Size>, position: Option<(real, real)>, spacing: int, horizontal: bool)
      ensures fresh(element) && element.name == name && element.parent == null && element.children == Empty()
      ensures images == sprites && this.spacing == spacing && this.horizontal == horizontal && visibleCount == |sprites|
      ensures SurfaceSize(sprites, |sprites|, spacing, horizontal).Ok?
      ensures surface == Some(SurfaceSize(sprites, |sprites|, spacing, horizontal).value)
      ensures blits == Blits(sprites, |sprites|, spacing, horizontal)
      ensures sprites == [] ==> element.width == 0 && element.height == 0
      ensures sprites != [] ==> Size(element.width, element.height) == ElementSizeAsWritten(sprites, |sprites|, spacing, horizontal)
    {
      element := new UIElement(name, position, 0, 0);
      images, this.spacing, this.horizontal, visibleCount := sprites, spacing, horizontal, |sprites|;
      surface, blits := None, [];
      new;
      assert PrefixSlice(sprites, |sprites|) == sprites;
      var r := RebuildSprite();
    }

    /** `_construct_sprite()`: a new surface of `SurfaceSize`, or the `ValueError` of `max([])`. */
    method ConstructSprite() returns (r: Outcome)
      modifies this`surface, this`blits
      ensures var size := SurfaceSize(images, visibleCount, spacing, horizontal);
        && (size.Raise? ==> r == Raised(size.error) && unchanged(this))
        && (size.Ok? ==> r == Done && surface == Some(size.value) && blits == [])
      ensures images == old(images) && horizontal == old(horizontal) && spacing == old(spacing) && visibleCount == old(visibleCount)
    {
      var size := SurfaceSize(images, visibleCount, spacing, horizontal);
      if size.Raise? {
        return Raised(size.error);
      }
      surface, blits := Some(size.value), [];
      r := Done;
    }

    /** `rebuild_sprite()` as written: builds the surface, then draws the first `visible_count`
        sprites end to end; the element's length follows the last one drawn, and so does its
        thickness. */
    method RebuildSprite() returns (r: Outcome)
      modifies this`surface, this`blits, element`width, element`height
      ensures images == old(images) && horizontal == old(horizontal) && spacing == old(spacing) && visibleCount == old(visibleCount)
      ensures var size := SurfaceSize(images, visibleCount, spacing, horizontal);
        && (size.Raise? ==> r == Raised(ValueError) && unchanged(this, element))
        && (size.Ok? ==> r == Done && surface == Some(size.value))
      ensures r.Done? ==> blits == Blits(images, Drawn(visibleCount, |images|), spacing, horizontal)
      ensures r.Done? && Drawn(visibleCount, |images|) == 0 ==> element.width == old(element.width) && element.height == old(element.height)
      ensures r.Done? && Drawn(visibleCount, |images|) > 0 ==>
        Size(element.width, element.height) == ElementSizeAsWritten(images, Drawn(visibleCount, |images|), spacing, horizontal)
      ensures element.name == old(element.name) && element.parent == old(element.parent) && element.children == old(element.children)
    {
      r := ConstructSprite();
      if r.Raised? {
        return;
      }
      var width, height, drawn := DrawSpritesAsWritten(images, visibleCount, spacing, horizontal, element.width, element.height);
      element.width, element.height := width, height;
      blits := drawn;
    }

    /** `rebuild_sprite()` as evidently intended: the element is as thick as the thickest sprite
        drawn, so for a positive count and no negative spacing it has the surface's size. */
    method RebuildSpriteIntended() returns (r: Outcome)
      modifies this`surface, this`blits, element`width, element`height
      ensures images == old(images) && horizontal == old(horizontal) && spacing == old(spacing) && visibleCount == old(visibleCount)
      ensures var size := SurfaceSize(images, visibleCount, spacing, horizontal);
        && (size.Raise? ==> r == Raised(ValueError) && unchanged(this, element))
        && (size.Ok? ==> r == Done && surface == Some(size.value))
      ensures r.Done? ==> blits == Blits(images, Drawn(visibleCount, |images|), spacing, horizontal)
      ensures r.Done? && Drawn(visibleCount, |images|) == 0 ==> element.width == old(element.width) && element.height == old(element.height)
      ensures r.Done? && Drawn(visibleCount, |images|) > 0 ==>
        Size(element.width, element.height) == ElementSizeIntended(images, Drawn(visibleCount, |images|), spacing, horizontal)
      ensures r.Done? && visibleCount > 0 && spacing >= 0 ==> surface == Some(Size(element.width, element.height))
      ensures element.name == old(element.name) && element.parent == old(element.parent) && element.children == old(element.children)
    {
      r := ConstructSprite();
      if r.Raised? {
        return;
      }
      var width, height, drawn := DrawSpritesIntended(images, visibleCount, spacing, horizontal, element.width, element.height);
      element.width, element.height := width, height;
      blits := drawn;
      if visibleCount > 0 && spacing >= 0 {
        IntendedSizeIsSurfaceSize(images, visibleCount, spacing, horizontal);
      }
    }
  }

  /** The drawing loop of `rebuild_sprite` as written, from the element's size `(width0, height0)`:
      the sprites up to `visible_count` drawn end to end; the size ends where the last one ends
      and is as thick as the last one. */
  method DrawSpritesAsWritten(images: seq<Size>, visibleCount: int, spacing: int, horizontal: bool, width0: int, height0: int)
    returns (width: int, height: int, drawn: seq<Size>)
    ensures drawn == Blits(images, Drawn(visibleCount, |images|), spacing, horizontal)
    ensures Drawn(visibleCount, |images|) == 0 ==> width == width0 && height == height0
    ensures Drawn(visibleCount, |images|) > 0 ==> Size(width, height) == ElementSizeAsWritten(images, Drawn(visibleCount, |images|), spacing, horizontal)
  {
    var x, y := 0, 0;
    width, height, drawn := width0, height0, [];
    var i := 0;
    while i < |images|
      invariant i <= Drawn(visibleCount, |images|)
      invariant horizontal ==> y == 0 && x == (if i == 0 then 0 else Offset(images, i - 1, spacing, horizontal))
      invariant !horizontal ==> x == 0 && y == (if i == 0 then 0 else Offset(images, i - 1, spacing, horizontal))
      invariant drawn == Blits(images, i, spacing, horizontal)
      invariant i == 0 ==> width == width0 && height == height0
      invariant i > 0 ==> Size(width, height) == ElementSizeAsWritten(images, i, spacing, horizontal)
    {
      if i >= visibleCount {
        break;
      }
      var info := images[i];
      if i > 0 {
        OffsetStep(images, i, spacing, horizontal);
      }
      if horizontal {
        if i > 0 {
          x := x + spacing;
          x := x + images[i - 1].width;
        }
        height := Max(y, info.height);
        width := x + info.width;
      } else {
        if i > 0 {
          y := y + spacing;
          y := y + images[i - 1].height;
        }
        width := Max(x, info.width);
        height := y + info.height;
      }
      drawn := drawn + [Size(x, y)];
      i := i + 1;
    }
  }

  /** The drawing loop of `rebuild_sprite` as evidently intended: as thick as the thickest sprite drawn. */
  method DrawSpritesIntended(images: seq<Size>, visibleCount: int, spacing: int, horizontal: bool, width0: int, height0: int)
    returns (width: int, height: int, drawn: seq<Size>)
    ensures drawn == Blits(images, Drawn(visibleCount, |images|), spacing, horizontal)
    ensures Drawn(visibleCount, |images|) == 0 ==> width == width0 && height == height0
    ensures Drawn(visibleCount, |images|) > 0 ==> Size(width, height) == ElementSizeIntended(images, Drawn(visibleCount, |images|), spacing, horizontal)
  {
    var x, y := 0, 0;
    width, height, drawn := width0, height0, [];
    var i := 0;
    while i < |images|
      invariant i <= Drawn(visibleCount, |images|)
      invariant horizontal ==> y == 0 && x == (if i == 0 then 0 else Offset(images, i - 1, spacing, horizontal))
      invariant !horizontal ==> x == 0 && y == (if i == 0 then 0 else Offset(images, i - 1, spacing, horizontal))
      invariant drawn == Blits(images, i, spacing, horizontal)
      invariant i == 0 ==> width == width0 && height == height0
      invariant i > 0 ==> Size(width, height) == ElementSizeIntended(images, i, spacing, horizontal)
    {
      if i >= visibleCount {
        break;
      }
      var info := images[i];
      if i > 0 {
        OffsetStep(images, i, spacing, horizontal);
        IntendedSizeStep(images, i, spacing, horizontal);
      } else {
        assert images[..1] == [info];
      }
      if horizontal {
        if i > 0 {
          x := x + spacing;
          x := x + images[i - 1].width;
        }
        height := if i == 0 then info.height else Max(height, info.height);
        width := x + info.width;
      } else {
        if i > 0 {
          y := y + spacing;
          y := y + images[i - 1].height;
        }
        width := if i == 0 then info.width else Max(width, info.width);
        height := y + info.height;
      }
      drawn := drawn + [Size(x, y)];
      i := i + 1;
    }
  }

  /** The intended size after one more sprite: longer by the spacing and that sprite, and
      thicker if that sprite is. */
  lemma IntendedSizeStep(images: seq<Size>, i: nat, spacing: int, horizontal: bool)
    requires 1 <= i < |images|
    ensures var before := ElementSizeIntended(images, i, spacing, horizontal);
      ElementSizeIntended(images, i + 1, spacing, horizontal) ==
        Oriented(Offset(images, i, spacing, horizontal) + Along(images[i], horizontal), Max(Across(before, horizontal), Across(images[i], horizontal)), horizontal)
  {
    assert images[..i + 1][..i] == images[..i];
  }

  /** A child found by name: `find_child` as written raises `AttributeError`, as intended it
      returns the child. */
  method FindChildOnOneLevel() returns (asWritten: Result<UIElement?>, intended: UIElement?, child: UIElement)
    ensures asWritten == Raise(AttributeError) && intended == child
  {
    var root := new UIElement(Some("root"), None, 0, 0);
    child := new UIElement(Some("a"), None, 0, 0);
    var added := root.AddChild(child);
    assert added == Done && root.children.entries == map["a" := child];
    assert Split("a", '/') == ["a"] by {
      assert "a"[1..] == [];
    }
    assert Resolve(root, ["a"]) == child by {
      assert ["a"][1..] == [];
    }
    asWritten := root.FindChildAsWritten("a");
    intended := root.FindChild("a");
  }

  /** An element added to itself: `add_child` as written accepts it, and then no heights make
      a tree below it, so `get_children()` never returns; the intended `add_child` refuses it. */
  method AddChildToItself() returns (asWritten: Outcome, intended: Outcome, e: UIElement)
    ensures asWritten == Done && e in e.children.entries.Values && e.parent == e
    ensures forall h :: !TreeBelow(e, h)
    ensures intended == Raised(ValueError)
  {
    var f := new UIElement(Some("a"), None, 0, 0);
    ghost var h := map[f := 0];
    assert NodeBelow(f, h);
    assert Reaches(f, f, h);
    ghost var g;
    intended, g := f.AddChildIntended(f, h);
    e := new UIElement(Some("a"), None, 0, 0);
    asWritten := e.AddChild(e);
    assert e.children.entries["a"] == e;
    forall h | true ensures !TreeBelow(e, h) {
      SelfChildHasNoTree(e, h);
    }
  }

  /** `SpriteGroup` of a tall and a short sprite in a row: as written the element is as tall
      as the short one, as intended as tall as the surface. */
  method SpriteGroupHeights() returns (surface: Size, asWritten: Size, intended: Size)
    ensures surface == Size(8, 10) && asWritten == Size(8, 3) && intended == Size(8, 10)
  {
    AsWrittenSizeDiffers();
    var g := new SpriteGroup(Some("hearts"), [Size(4, 10), Size(4, 3)], None, 0, true);
    surface := g.surface.value;
    asWritten := Size(g.element.width, g.element.height);
    var r := g.RebuildSpriteIntended();
    intended := Size(g.element.width, g.element.height);
  }
}
