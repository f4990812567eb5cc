/** engine/application.py: the per-frame key-status transition and the frame order of `run`. */
module EngineApplication {
  import opened Common
  import opened OrderedDicts
  import opened EngineInput
  import opened EngineScene
  import opened EngineRenderer
  import opened FrameLogs

  /** The events `_handle_input` receives: key presses and releases, and the mouse events
      that are fetched with them but change no key status. */
  datatype Event = KeyDown(key: Key) | KeyUp(key: Key) | MouseEvent

  /** The first loop of `_handle_input`: a status changed during the last frame becomes steady. */
  function Settle(s: KeyStatus): (t: KeyStatus)
    ensures t == Depressed || t == Pressed
    ensures IsPressedStatus(t) <==> IsPressedStatus(s)
    ensures (s == Depressed || s == Pressed) ==> t == s
  {
    match s
    case DepressedThisFrame => Depressed
    case PressedThisFrame => Pressed
    case _ => s
  }

  /** Every recorded key settled. */
  function SettleAll(keyStatus: map<Key, KeyStatus>): (m: map<Key, KeyStatus>)
    ensures m.Keys == keyStatus.Keys
    ensures forall k :: k in m ==> m[k] == Settle(keyStatus[k])
  {
    map k | k in keyStatus :: Settle(keyStatus[k])
  }

  /** The second loop's step: `KEYDOWN` and `KEYUP` record a change during this frame. */
  function Apply(keyStatus: map<Key, KeyStatus>, e: Event): (m: map<Key, KeyStatus>)
    ensures e.MouseEvent? ==> m == keyStatus
    ensures e.KeyDown? ==> m == keyStatus[e.key := PressedThisFrame]
    ensures e.KeyUp? ==> m == keyStatus[e.key := DepressedThisFrame]
  {
    match e
    case KeyDown(k) => keyStatus[k := PressedThisFrame]
    case KeyUp(k) => keyStatus[k := DepressedThisFrame]
    case MouseEvent => keyStatus
  }

  /** The events applied in order. */
  function ApplyEvents(keyStatus: map<Key, KeyStatus>, events: seq<Event>): map<Key, KeyStatus>
  {
    if events == [] then keyStatus
    else Apply(ApplyEvents(keyStatus, events[..|events| - 1]), events[|events| - 1])
  }

  /** The status the last event on `key` records, if any event is about `key`. */
  function LastEventFor(events: seq<Event>, key: Key): (r: Option<KeyStatus>)
    ensures r.None? <==> forall i :: 0 <= i < |events| ==> events[i].MouseEvent? || events[i].key != key
  {
    if events == [] then None
    else
      var e := events[|events| - 1];
      if e.KeyDown? && e.key == key then Some(PressedThisFrame)
      else if e.KeyUp? && e.key == key then Some(DepressedThisFrame)
      else
        var r := LastEventFor(events[..|events| - 1], key);
        assert forall i :: 0 <= i < |events| - 1 ==> events[..|events| - 1][i] == events[i];
        r
  }

  /** When a key has events, the last one decides its status; a key without events
      keeps what it had, recorded or not. */
  lemma {:induction false} LastEventWins(keyStatus: map<Key, KeyStatus>, events: seq<Event>, key: Key)
    ensures var m, last := ApplyEvents(keyStatus, events), LastEventFor(events, key);
      && (last.Some? ==> key in m && m[key] == last.value)
      && (last.None? ==> (key in m <==> key in keyStatus) && (key in m ==> m[key] == keyStatus[key]))
  {
    if events != [] {
      LastEventWins(keyStatus, events[..|events| - 1], key);
    }
  }

  /** The keys recorded after the events: the ones before, and every key an event was about. */
  lemma {:induction false} RecordedKeys(keyStatus: map<Key, KeyStatus>, events: seq<Event>)
    ensures forall k :: k in ApplyEvents(keyStatus, events) <==> k in keyStatus || LastEventFor(events, k).Some?
  {
    forall k ensures k in ApplyEvents(keyStatus, events) <==> k in keyStatus || LastEventFor(events, k).Some? {
      LastEventWins(keyStatus, events, k);
    }
  }

  /** The events without the mouse events. */
  function KeyEvents(events: seq<Event>): (r: seq<Event>)
    ensures |r| <= |events|
    ensures forall i :: 0 <= i < |r| ==> !r[i].MouseEvent?
  {
    if events == [] then []
    else
      var init, e := events[..|events| - 1], events[|events| - 1];
      KeyEvents(init) + (if e.MouseEvent? then [] else [e])
  }

  /** Mouse events change no key status: dropping them gives the same statuses. */
  lemma {:induction false} MouseEventsChangeNothing(keyStatus: map<Key, KeyStatus>, events: seq<Event>)
    ensures ApplyEvents(keyStatus, KeyEvents(events)) == ApplyEvents(keyStatus, events)
  {
    if events != [] {
      var init, e := events[..|events| - 1], events[|events| - 1];
      MouseEventsChangeNothing(keyStatus, init);
      if !e.MouseEvent? {
        var ks := KeyEvents(init) + [e];
        assert ks == KeyEvents(events);
        assert ks[..|ks| - 1] == KeyEvents(init) && ks[|ks| - 1] == e;
      } else {
        assert KeyEvents(events) == KeyEvents(init);
      }
    }
  }

  /** After a frame's input handling, a key with no event that was steady keeps its
      status, and one changed during the last frame has become steady. */
  lemma NoEventMeansSettled(keyStatus: map<Key, KeyStatus>, events: seq<Event>, key: Key)
    requires key in keyStatus && LastEventFor(events, key).None?
    ensures var m := ApplyEvents(SettleAll(keyStatus), events);
      key in m && m[key] == Settle(keyStatus[key])
  {
    LastEventWins(SettleAll(keyStatus), events, key);
  }

  /** A frame: the events fetched for it and its frame time. */
  datatype Frame = Frame(events: seq<Event>, dt: real)

  /** The steps of one frame, in the order `run` takes them. */
  function FrameSteps(frame: Frame): seq<FrameStep> {
    [HandleInputStep, SetupFrameStep(frame.dt), PreframeStep, RenderStep, PostframeStep]
  }

  /** The steps of the given frames, one frame after the other. */
  function FrameTrace(frames: seq<Frame>): (t: seq<FrameStep>)
    ensures |t| == 5 * |frames|
  {
    if frames == [] then [] else FrameTrace(frames[..|frames| - 1]) + FrameSteps(frames[|frames| - 1])
  }

  /** The steps at positions `5i` to `5i + 4` of the trace are frame `i`'s: input handling,
      set-up with that frame's `dt`, pre-frame update, rendering and post-frame update. */
  lemma {:induction false} FrameTraceInOrder(frames: seq<Frame>, i: nat)
    requires i < |frames|
    ensures var t := FrameTrace(frames);
      5 * i + 5 <= |t| && t[5 * i .. 5 * i + 5] == [HandleInputStep, SetupFrameStep(frames[i].dt), PreframeStep, RenderStep, PostframeStep]
  {
    var init := frames[..|frames| - 1];
    var t0 := FrameTrace(init);
    var t := t0 + FrameSteps(frames[|frames| - 1]);
    if i < |init| {
      FrameTraceInOrder(init, i);
      assert t[5 * i .. 5 * i + 5] == t0[5 * i .. 5 * i + 5];
    } else {
      assert t[5 * i .. 5 * i + 5] == FrameSteps(frames[i]);
    }
  }

  /** The key statuses after the given frames: each frame settles every recorded status,
      then applies its events. */
  function AfterFrames(keyStatus: map<Key, KeyStatus>, frames: seq<Frame>): map<Key, KeyStatus>
  {
    if frames == [] then keyStatus
    else ApplyEvents(SettleAll(AfterFrames(keyStatus, frames[..|frames| - 1])), frames[|frames| - 1].events)
  }

  /** Running the frames up to `i + 1` is running those up to `i`, then frame `i`. */
  lemma OneMoreFrame(keyStatus: map<Key, KeyStatus>, frames: seq<Frame>, i: nat)
    requires i < |frames|
    ensures FrameTrace(frames[..i + 1]) == FrameTrace(frames[..i]) + FrameSteps(frames[i])
    ensures AfterFrames(keyStatus, frames[..i + 1]) == ApplyEvents(SettleAll(AfterFrames(keyStatus, frames[..i])), frames[i].events)
  {
    assert frames[..i + 1][..i] == frames[..i];
  }

  /** A recorded key that no frame has an event for ends steady on the side it started on,
      once at least one frame has run. */
  lemma {:induction false} QuietKeySettles(keyStatus: map<Key, KeyStatus>, frames: seq<Frame>, key: Key)
    requires key in keyStatus && forall i :: 0 <= i < |frames| ==> LastEventFor(frames[i].events, key).None?
    ensures var m := AfterFrames(keyStatus, frames);
      key in m && m[key] == if frames == [] then keyStatus[key] else Settle(keyStatus[key])
  {
    if frames != [] {
      var init := frames[..|frames| - 1];
      QuietKeySettles(keyStatus, init, key);
      NoEventMeansSettled(AfterFrames(keyStatus, init), frames[|frames| - 1].events, key);
    }
  }

  /** A key's status after the frames is decided by the last frame with an event for it:
      the event it records, settled once for every later frame. */
  lemma {:induction false} LastFrameWins(keyStatus: map<Key, KeyStatus>, frames: seq<Frame>, j: nat, key: Key)
    requires j < |frames| && LastEventFor(frames[j].events, key).Some?
    requires forall i :: j < i < |frames| ==> LastEventFor(frames[i].events, key).None?
    ensures var m, s := AfterFrames(keyStatus, frames), LastEventFor(frames[j].events, key).value;
      key in m && m[key] == if j == |frames| - 1 then s else Settle(s)
    decreases |frames|
  {
    var init := frames[..|frames| - 1];
    if j == |frames| - 1 {
      LastEventWins(SettleAll(AfterFrames(keyStatus, init)), frames[j].events, key);
    } else {
      assert init[j] == frames[j];
      LastFrameWins(keyStatus, init, j, key);
      NoEventMeansSettled(AfterFrames(keyStatus, init), frames[|frames| - 1].events, key);
    }
  }

  /** `Application`: the scene it runs and the shared input state. */
  class Application {
    var scene: Scene?
    const input: Input

    /** A new application has no scene yet. */
    constructor (input: Input)
      ensures scene == null && this.input == input
    {
      scene := null;
      this.input := input;
    }

    /** `_handle_input(events)`: every recorded status settles, then the events apply in order. */
    method HandleInput(events: seq<Event>, ghost log: FrameLog)
      modifies input, log`steps
      ensures input.keyStatus == ApplyEvents(SettleAll(old(input.keyStatus)), events)
      ensures input.bindings == old(input.bindings)
      ensures log.steps == old(log.steps) + [HandleInputStep]
    {
      var rest := input.keyStatus.Keys;
      ghost var before := input.keyStatus;
      while rest != {}
        invariant rest <= before.Keys && input.keyStatus.Keys == before.Keys
        invariant forall k :: k in before ==>
          input.keyStatus[k] == if k in rest then before[k] else Settle(before[k])
        invariant input.bindings == old(input.bindings) && log.steps == old(log.steps)
        decreases rest
      {
        var key :| key in rest;
        var val := input.keyStatus[key];
        if val == DepressedThisFrame {
          input.keyStatus := input.keyStatus[key := Depressed];
        } else if val == PressedThisFrame {
          input.keyStatus := input.keyStatus[key := Pressed];
        }
        rest := rest - {key};
      }
      assert forall k :: k in before ==> input.keyStatus[k] == SettleAll(before)[k];
      assert input.keyStatus == SettleAll(before);
      ghost var settled := input.keyStatus;
      var i := 0;
      while i < |events|
        invariant 0 <= i <= |events|
        invariant input.keyStatus == ApplyEvents(settled, events[..i])
        invariant input.bindings == old(input.bindings) && log.steps == old(log.steps)
      {
        var event := events[i];
        assert events[..i + 1][..i] == events[..i];
        match event {
          case KeyDown(key) => input.keyStatus := input.keyStatus[key := PressedThisFrame];
          case KeyUp(key) => input.keyStatus := input.keyStatus[key := DepressedThisFrame];
          case MouseEvent =>
        }
        i := i + 1;
      }
      assert events[..i] == events;
      log.steps := log.steps + [HandleInputStep];
    }

    /** One pass of `run`'s loop on the scene `s`: the input, the frame set-up, the pre-frame
        update, the rendering and the post-frame update, in that order. */
    method RunFrame(frame: Frame, s: Scene, ghost log: FrameLog)
      requires s.Valid()
      modifies input, log`steps, s`dt
      ensures log.steps == old(log.steps) + FrameSteps(frame)
      ensures input.keyStatus == ApplyEvents(SettleAll(old(input.keyStatus)), frame.events)
      ensures input.bindings == old(input.bindings)
      ensures s.Valid() && s.dt == frame.dt
    {
      HandleInput(frame.events, log);
      s.SetupFrame(frame.dt, log);
      var updated := s.SimulatePreframe(log);
      Render(log);
      var postUpdated := s.SimulatePostframe(log);
    }

    /** `run()` over the given frames: `MissingSceneError` without a scene; otherwise each
        frame handles the input, sets up the scene with its frame time, then runs the
        pre-frame update, the rendering and the post-frame update, as `log` records. */
    method Run(frames: seq<Frame>, ghost log: FrameLog) returns (r: Outcome)
      requires scene != null ==> scene.Valid()
      modifies input, log`steps, (if scene != null then {scene} else {})`dt
      ensures old(scene) == null ==> r == Raised(MissingSceneError) && unchanged(input) && log.steps == old(log.steps)
      ensures old(scene) != null ==> r == Done && log.steps == old(log.steps) + FrameTrace(frames)
      ensures old(scene) != null ==> input.keyStatus == AfterFrames(old(input.keyStatus), frames)
      ensures input.bindings == old(input.bindings) && scene == old(scene)
      ensures old(scene) != null ==>
        && scene.Valid() && scene.objects == old(scene.objects) && scene.maxIndex == old(scene.maxIndex)
        && scene.camera == old(scene.camera)
        && (|frames| > 0 ==> scene.dt == frames[|frames| - 1].dt)
    {
      if scene == null {
        return Raised(MissingSceneError);
      }
      RunFrames(frames, scene, log);
      r := Done;
    }

    /** The loop of `run` on the scene `s`, over the given frames. */
    method RunFrames(frames: seq<Frame>, s: Scene, ghost log: FrameLog)
      requires s.Valid()
      modifies input, log`steps, s`dt
      ensures log.steps == old(log.steps) + FrameTrace(frames)
      ensures input.keyStatus == AfterFrames(old(input.keyStatus), frames)
      ensures input.bindings == old(input.bindings)
      ensures s.Valid() && (|frames| > 0 ==> s.dt == frames[|frames| - 1].dt)
    {
      var i := 0;
      while i < |frames|
        invariant 0 <= i <= |frames|
        invariant s.Valid()
        invariant log.steps == old(log.steps) + FrameTrace(frames[..i])
        invariant input.keyStatus == AfterFrames(old(input.keyStatus), frames[..i])
        invariant input.bindings == old(input.bindings)
        invariant i > 0 ==> s.dt == frames[i - 1].dt
      {
        RunFrame(frames[i], s, log);
        OneMoreFrame(old(input.keyStatus), frames, i);
        i := i + 1;
      }
      assert frames[..i] == frames;
    }
  }
}
