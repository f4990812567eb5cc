/** engine/input.py: named key bindings and the status of every key. */
module EngineInput {
  import opened Common

  /** A key code (pygame's key constants are non-negative integers). */
  type Key = nat

  /** `KeyStatus`: a key is up or down, and was either changed during this frame or before it. */
  datatype KeyStatus = Depressed | DepressedThisFrame | PressedThisFrame | Pressed

  /** `Bindings.__getitem__`: the key bound to `name`, or `BindingDoesNotExist(name)`. */
  function LookupBinding(bindings: map<string, Key>, name: string): (r: Result<Key>)
    ensures r.Ok? <==> name in bindings
    ensures r.Ok? ==> r.value == bindings[name]
    ensures r.Raise? ==> r.error == BindingDoesNotExist(name)
  {
    if name in bindings then Ok(bindings[name]) else Raise(BindingDoesNotExist(name))
  }

  /** `key_status[key]` on the `defaultdict`: a key never recorded reads as `DEPRESSED`. */
  function StatusOf(keyStatus: map<Key, KeyStatus>, key: Key): (s: KeyStatus)
    ensures key in keyStatus ==> s == keyStatus[key]
    ensures key !in keyStatus ==> s == Depressed
  {
    if key in keyStatus then keyStatus[key] else Depressed
  }

  /** `get_binding_status(name)`: the status of the key bound to `name`. */
  function BindingStatus(bindings: map<string, Key>, keyStatus: map<Key, KeyStatus>, name: string): (r: Result<KeyStatus>)
    ensures r.Raise? <==> name !in bindings
    ensures r.Raise? ==> r.error == BindingDoesNotExist(name)
    ensures r.Ok? ==> r.value == StatusOf(keyStatus, bindings[name])
  {
    match LookupBinding(bindings, name)
    case Ok(key) => Ok(StatusOf(keyStatus, key))
    case Raise(e) => Raise(e)
  }

  /** The two status groups that `is_binding_pressed` and `is_binding_depressed` test for. */
  predicate IsPressedStatus(s: KeyStatus) {
    s in [PressedThisFrame, Pressed]
  }

  predicate IsDepressedStatus(s: KeyStatus) {
    s in [DepressedThisFrame, Depressed]
  }

  /** Every status is in exactly one of the two groups. */
  lemma PressedXorDepressed(s: KeyStatus)
    ensures IsPressedStatus(s) <==> !IsDepressedStatus(s)
    ensures IsPressedStatus(s) <==> s == PressedThisFrame || s == Pressed
  {
  }

  /** `is_binding_pressed(name)`. */
  function BindingPressed(bindings: map<string, Key>, keyStatus: map<Key, KeyStatus>, name: string): (r: Result<bool>)
    ensures r.Raise? <==> name !in bindings
    ensures r.Ok? ==> (r.value <==> StatusOf(keyStatus, bindings[name]) in {PressedThisFrame, Pressed})
  {
    match BindingStatus(bindings, keyStatus, name)
    case Ok(s) => Ok(IsPressedStatus(s))
    case Raise(e) => Raise(e)
  }

  /** `is_binding_depressed(name)`. */
  function BindingDepressed(bindings: map<string, Key>, keyStatus: map<Key, KeyStatus>, name: string): (r: Result<bool>)
    ensures r.Raise? <==> name !in bindings
    ensures r.Ok? ==> (r.value <==> StatusOf(keyStatus, bindings[name]) in {DepressedThisFrame, Depressed})
  {
    match BindingStatus(bindings, keyStatus, name)
    case Ok(s) => Ok(IsDepressedStatus(s))
    case Raise(e) => Raise(e)
  }

  /** For a bound name exactly one of pressed and depressed holds; an unbound name
      raises the same exception for both. */
  lemma {:induction false} PressedIffNotDepressed(bindings: map<string, Key>, keyStatus: map<Key, KeyStatus>, name: string)
    ensures BindingPressed(bindings, keyStatus, name).Ok? <==> BindingDepressed(bindings, keyStatus, name).Ok?
    ensures BindingPressed(bindings, keyStatus, name).Ok? ==>
      BindingPressed(bindings, keyStatus, name).value != BindingDepressed(bindings, keyStatus, name).value
    ensures BindingPressed(bindings, keyStatus, name).Raise? ==>
      BindingPressed(bindings, keyStatus, name) == BindingDepressed(bindings, keyStatus, name)
  {
    if name in bindings {
      PressedXorDepressed(StatusOf(keyStatus, bindings[name]));
    }
  }

  /** A binding's status depends on its own key only. */
  lemma OtherKeysDoNotMatter(bindings: map<string, Key>, keyStatus: map<Key, KeyStatus>, name: string, key: Key, s: KeyStatus)
    requires name in bindings && bindings[name] != key
    ensures BindingStatus(bindings, keyStatus[key := s], name) == BindingStatus(bindings, keyStatus, name)
  {
  }

  /** Reading a key inserts `DEPRESSED` for it, which changes no status that can be read. */
  lemma DefaultInsertionIsInvisible(keyStatus: map<Key, KeyStatus>, key: Key, other: Key)
    requires key !in keyStatus
    ensures StatusOf(keyStatus[key := Depressed], other) == StatusOf(keyStatus, other)
  {
  }

  /** Key statuses that read the same everywhere answer every binding query the same. */
  lemma SameStatusesSameAnswers(bindings: map<string, Key>, ks1: map<Key, KeyStatus>, ks2: map<Key, KeyStatus>, name: string)
    requires forall k :: StatusOf(ks1, k) == StatusOf(ks2, k)
    ensures BindingPressed(bindings, ks1, name) == BindingPressed(bindings, ks2, name)
    ensures BindingDepressed(bindings, ks1, name) == BindingDepressed(bindings, ks2, name)
  {
    if name in bindings {
      assert StatusOf(ks1, bindings[name]) == StatusOf(ks2, bindings[name]);
    }
  }

  /** The shared input state: `Input.bindings` and `Input.key_status`. */
  class Input {
    var bindings: map<string, Key>
    var keyStatus: map<Key, KeyStatus>

    /** No bindings, and every key reads as `DEPRESSED`. */
    constructor ()
      ensures bindings == map[] && keyStatus == map[]
    {
      bindings, keyStatus := map[], map[];
    }

    /** `key_status[key]`: a key read for the first time gets the default entry. */
    method ReadStatus(key: Key) returns (s: KeyStatus)
      modifies this
      ensures s == StatusOf(old(keyStatus), key)
      ensures keyStatus == old(keyStatus)[key := s]
      ensures bindings == old(bindings)
    {
      if key !in keyStatus {
        keyStatus := keyStatus[key := Depressed];
      }
      s := keyStatus[key];
    }

    /** `get_binding_status(name)`: raises for an unbound name before touching the
        statuses; otherwise reads the bound key's status. */
    method GetBindingStatus(name: string) returns (r: Result<KeyStatus>)
      modifies this
      ensures r == BindingStatus(old(bindings), old(keyStatus), name)
      ensures r.Raise? ==> keyStatus == old(keyStatus)
      ensures r.Ok? ==> keyStatus == old(keyStatus)[old(bindings)[name] := r.value]
      ensures bindings == old(bindings)
    {
      if name !in bindings {
        return Raise(BindingDoesNotExist(name));
      }
      var s := ReadStatus(bindings[name]);
      r := Ok(s);
    }

    /** `is_binding_pressed(name)`. */
    method IsBindingPressed(name: string) returns (r: Result<bool>)
      modifies this
      ensures r == BindingPressed(old(bindings), old(keyStatus), name)
      ensures forall k :: StatusOf(keyStatus, k) == StatusOf(old(keyStatus), k)
      ensures bindings == old(bindings)
    {
      var status := GetBindingStatus(name);
      match status
      case Ok(s) => r := Ok(s in [PressedThisFrame, Pressed]);
      case Raise(e) => r := Raise(e);
    }

    /** `is_binding_depressed(name)`. */
    method IsBindingDepressed(name: string) returns (r: Result<bool>)
      modifies this
      ensures r == BindingDepressed(old(bindings), old(keyStatus), name)
      ensures forall k :: StatusOf(keyStatus, k) == StatusOf(old(keyStatus), k)
      ensures bindings == old(bindings)
    {
      var status := GetBindingStatus(name);
      match status
      case Ok(s) => r := Ok(s in [DepressedThisFrame, Depressed]);
      case Raise(e) => r := Raise(e);
    }
  }
}
