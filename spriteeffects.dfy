/** game/spriteeffects.py: the blinking effect a sprite renderer runs each frame. */
module GameSpriteEffects {
  import opened EngineComponents

  /** The default `frequency`: seconds between two toggles of the sprite's visibility. */
  const DefaultFrequency: real := 0.25

  /** The blinking effect. The time of the scene and the frame time are parameters of the
      methods that read them, and the sprite renderer is passed to `Run`. */
  class BlinkEffect {
    const length: real
    var end: real
    /** `time_since_last_blink`. */
    var timeSinceLastBlink: real
    const frequency: real
    var finished: bool

    /** Time since the last toggle never reaches the frequency without being reset to 0. */
    predicate Settled()
      reads this
    {
      timeSinceLastBlink == 0.0 || timeSinceLastBlink < frequency
    }

    /** `BlinkEffect(length, frequency)`: no end time and no time since a toggle yet. */
    constructor (length: real, frequency: real)
      ensures this.length == length && this.frequency == frequency
      ensures end == 0.0 && timeSinceLastBlink == 0.0 && !finished
      ensures Settled()
    {
      this.length, this.frequency := length, frequency;
      end, timeSinceLastBlink := 0.0, 0.0;
      finished := false;
    }

    /** `on_start()`: the effect ends `length` seconds after the scene's time `time`. */
    method OnStart(time: real)
      modifies this`end
      ensures end == time + length
      ensures timeSinceLastBlink == old(timeSinceLastBlink) && finished == old(finished)
    {
      end := time + length;
    }

    /** `run()`: from the end time on, the sprite is shown and the effect finishes with the
        time since the last toggle untouched. Before it, the frame time accumulates, and once
        it reaches the frequency the sprite's visibility flips and the count starts over. */
    method Run(time: real, dt: real, sprite: Component)
      requires sprite.data.SpriteRendererData?
      modifies this`timeSinceLastBlink, this`finished, sprite`data
      ensures end == old(end)
      ensures time >= old(end) ==>
        && sprite.data == old(sprite.data).(shouldRender := true)
        && finished && timeSinceLastBlink == old(timeSinceLastBlink)
      ensures time < old(end) ==>
        var acc := old(timeSinceLastBlink) + dt;
        && finished == old(finished)
        && (acc >= frequency ==> timeSinceLastBlink == 0.0 && sprite.data == old(sprite.data).(shouldRender := !old(sprite.data.shouldRender)))
        && (acc < frequency ==> timeSinceLastBlink == acc && sprite.data == old(sprite.data))
      ensures time < old(end) ==> Settled()
      ensures old(Settled()) ==> Settled()
    {
      if time >= end {
        sprite.data := sprite.data.(shouldRender := true);
        finished := true;
        return;
      }
      timeSinceLastBlink := timeSinceLastBlink + dt;
      if timeSinceLastBlink >= frequency {
        sprite.data := sprite.data.(shouldRender := !sprite.data.shouldRender);
        timeSinceLastBlink := 0.0;
      }
    }
  }
}
