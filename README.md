# pyPlatformer engine core in Dafny

A model of the bookkeeping core of the pyPlatformer engine, and of the small rule-based game
behaviours built on it, with proofs of what that code promises.

**Engine**
- The `Scene` registry hands out growing ids and keeps its objects in insertion order. It runs
  the per-frame updates over them and finds components by type.
- A `GameObject` holds a set of components, matched against the component class hierarchy.
- Key bindings and key statuses, with the per-frame status transition of the application.
- The frame order of `Application.run`.
- The tree of `UIElement`s: named children, path lookup, event listeners and the
  breadth-first walk, plus the size and offset arithmetic of `SpriteGroup`.
- `sign` and the bit generator `bits`.
- The renderer's background-colour parse.

**Game**
- The character controller's ground check, gravity, sweeps, ceiling bounce and landing.
- The player's input rules, with friction and clamping.
- The AI character's waypoint walk.
- Damage to a character.
- The blinking sprite effect.
- The free camera controls.

One module per source file:

| file | module | source |
|---|---|---|
| common.dfy | Common | `Option`, the exceptions, `Result` |
| framelog.dfy | FrameLogs | the ghost record of the steps each frame takes |
| ordered_dict.dfy | OrderedDicts | `collections.OrderedDict` as a value |
| geometry.dfy | Geometry | stand-ins for `Vector2` and rectangles |
| components.dfy | EngineComponents | engine/components.py |
| gameobject.dfy | EngineGameObject | engine/gameobject.py |
| scene.dfy | EngineScene | engine/scene.py |
| input.dfy | EngineInput | engine/input.py |
| application.dfy | EngineApplication | engine/application.py |
| interface.dfy | EngineInterface | engine/interface.py |
| engine_math.dfy | EngineMath | engine/math/functions.py |
| renderer.dfy | EngineRenderer | engine/renderer.py |
| charactercontroller.dfy | GameCharacterController | game/components/charactercontroller.py |
| player.dfy | GamePlayer | game/components/player.py |
| aicharacter.dfy | GameAICharacter | game/components/aicharacter.py |
| character.dfy | GameCharacter | game/components/character.py |
| spriteeffects.dfy | GameSpriteEffects | game/spriteeffects.py |
| cameracontrols.dfy | GameCameraControls | game/components/cameracontrols.py |

## How the source is represented

**State and errors**
- Objects whose fields the source updates in place are classes: `Scene`, `GameObject`,
  `Component`, `Input`, `Application`, `UIElement`, `SpriteGroup`, `CharacterController`,
  `AICharacter`, `Character` and `BlinkEffect`.
- Their methods state the new state with `modifies`/`old`. Each is tied to a specification
  function about which lemmas are proved, or to an invariant it keeps.
- Raised exceptions are values: `Result`, `Outcome`, or an `Option<Exception>` for an
  exception that the code catches and logs. A method returns the exception instead of logging
  it.

**Components**
- A component is one class, `Component`, with a constant class tag `cls` and a `data` variant
  per component class.
- `isinstance` follows the base-class chain of the class tag.
- The game's own components keep their state in their own classes. Each method takes the
  engine data it reads as parameters:
  - the frame time `dt` and the scene time;
  - the owner's `Transform` component, and its position vector;
  - the sprite renderer;
  - the tiled-map queries;
  - the bounding rectangle;
  - the scene's lookup of objects by name.
- Positions are `Vector2` objects, because the source aliases them: the camera takes the
  player's position vector itself. Velocities are `Vec` values.

**Other data**
- Key codes are natural numbers.
- The tiled-map queries the controller needs are function values in a `TileMap` datatype:
  `get_tiles_for_area(rect, collidable=True)`, `get_rectangle_for_tile` and
  `is_position_in_map`.
- Python numbers in movement arithmetic are `real`. Layout sizes are `int`.
- Python's `OrderedDict` is a value with the keys in insertion order and the key-to-value map.

**Where the revision does not follow its own API.** Several names the game components call
are defined nowhere in this revision; each is modelled with its evident meaning:
- `get_component` on components and game objects: `GameObject` only has `getcomponent`.
- `game_object.transform`, and `self.transform`, `self.scene` and `self.get_component` on
  components.
- `scene.get_object_by_name` and `scene.time`.
- `BoundingRectangle`.
- `clamp`, which engine/math/functions.py does not define. It is `max(lo, min(x, hi))`.
- Indexing `transform.position[1]` in the camera controls is read as the y coordinate.
- `obj.get_components` in the renderer: `GameObject` only has `getcomponents`.
- `scene.interface`, which the renderer reads but no code sets. Its evident meaning is "no
  interface", `None`.
- `tiled_map.map`, which the renderer reads. `TiledMap`'s constructor
  is spelled `__init`, so it is not a constructor, and a `TiledMap` gets `Renderable`'s
  attributes only. `EngineRenderer.FillColourAsWritten` states what the renderer then does;
  `FillColour` and the controller's tile-map queries take the map as if it had been loaded.

One more gap is a finding below: `GameObject.__init__` sets no `id` attribute, although
`Scene.add_object` reads one. A fresh object is modelled with `id == None`, as the scene tests
assume; `EngineScene.AddFreshObject` states the AttributeError the code as written raises.

## Model

| member | source | states |
|---|---|---|
| OrderedDicts.Erase | engine/scene.py:39 | removing a key from the key order keeps exactly the other keys and keeps them free of repeats |
| OrderedDicts.EraseAt | engine/scene.py:39 | deleting the key at position i cuts out exactly that position of the order |
| OrderedDicts.Put | engine/scene.py:26 | `d[k] = v` appends a new key to the order and keeps an old key's place; the result stays well formed |
| OrderedDicts.Delete | engine/scene.py:39 | `del d[k]` drops exactly that entry; the order keeps the other keys |
| OrderedDicts.Values | engine/scene.py:55 | the values are listed in key-insertion order |
| OrderedDicts.DeleteAfterPut | engine/interface.py:48-65 | adding a new key and deleting it restores the dictionary |
| OrderedDicts.ValuesAfterPutNew | engine/interface.py:48 | a new key's value goes to the end of the values |
| OrderedDicts.ValuesAfterDelete | engine/scene.py:39 | deleting the i-th key removes exactly the i-th value; the others keep their order |
| EngineComponents.InstanceQueries | engine/components.py:6-46 | every component is a BaseComponent; exactly SpriteRenderer, TiledMap and Renderable are Renderable; the other classes match only themselves |
| EngineComponents.InstanceIsPartialOrder | engine/components.py:6-46 | the subclass relation is reflexive, transitive and antisymmetric |
| EngineComponents.Component.constructor | engine/components.py:7-50 | no owner; `fov` defaults to 80; renderables start rendered; a SpriteRenderer without `path` has no image; a Transform defaults to a new (0,0), rotation 0 and scale 1; a TiledMap gets Renderable's attributes |
| EngineGameObject.GameObject.constructor | engine/gameobject.py:2-4 | a new object has no components and no scene; its missing `id` attribute is taken as `None` |
| EngineGameObject.GameObject.AddComponents | engine/gameobject.py:6-12 | the set becomes the union with the arguments; as written only the unread `gameobject` attribute is set, and `game_object` is unchanged |
| EngineGameObject.GameObject.AddComponentsIntended | engine/gameobject.py:6-12 | the union, and every argument's owner becomes this object |
| EngineGameObject.GameObject.RemoveComponents | engine/gameobject.py:14-20 | the set becomes the difference; as written only the unread `gameobject` is cleared |
| EngineGameObject.GameObject.RemoveComponentsIntended | engine/gameobject.py:14-20 | the difference, and every argument's owner is cleared |
| EngineGameObject.GameObject.GetComponents | engine/gameobject.py:22-32 | exactly the members that are instances of the class, each once |
| EngineGameObject.GameObject.GetComponent | engine/gameobject.py:34-41 | `None` exactly when no member matches; otherwise a matching member |
| EngineGameObject.GameObject.HasComponentAsWritten | engine/gameobject.py:43-49 | as written, the call always raises TypeError |
| EngineGameObject.GameObject.HasComponent | engine/gameobject.py:43-49 | as documented: true exactly when some member matches |
| EngineGameObject.AddComponentsLeavesOwnerUnset | engine/gameobject.py:10-12 | after `addcomponents` as written, a fresh Transform still has no `game_object`; only `gameobject` is the object |
| EngineGameObject.AddComponentsIntendedSetsOwner | engine/gameobject.py:10-12 | with the intended `addcomponents`, the Transform's `game_object` is the object |
| EngineGameObject.HasComponentOnTransform | engine/gameobject.py:49 | an object that holds a Transform: as written `hascomponent` raises TypeError; as intended it answers true |
| EngineScene.EraseKeepsIncreasing | engine/scene.py:39 | removing an id keeps the ids in increasing order |
| EngineScene.Owners | engine/scene.py:81-86 | the ids that own a matching component are exactly the ids whose set holds an instance |
| EngineScene.OwnersIncreasing | engine/scene.py:82-85 | those owners come in insertion order |
| EngineScene.PicksOneStep | engine/scene.py:83-85 | one loop step appends a component exactly when that object has a matching one |
| EngineScene.Scene.constructor | engine/scene.py:11-16 | no objects, no camera, dt 0, counter 0; the registry invariant holds |
| EngineScene.Scene.AddObject | engine/scene.py:18-29 | as intended, for an object whose `id` is set up: ValueError, with nothing changed, for an object with an id or a scene; otherwise the object is appended under the next id, points back to the scene, and the counter grows by one; the invariant holds, so ids are unique, below the counter and increasing |
| EngineScene.Scene.Register | engine/scene.py:26-29 | the registering half: the new id was free, and the invariant is kept |
| EngineScene.Scene.RemoveObject | engine/scene.py:31-41 | ValueError, with nothing changed, unless the object's id maps to this object; otherwise only that entry goes, the rest keep their order, scene and id are cleared, and the counter stays |
| EngineScene.AddGuardAsWritten | engine/scene.py:23-24 | AttributeError when the object has no `id` attribute; otherwise ValueError for a set id or a scene, and success exactly when it has neither |
| EngineScene.AddFreshObject | engine/gameobject.py:2-4 | a fresh object added to a fresh scene: as written AttributeError, as intended registered under id 0 and the scene holds exactly it |
| EngineScene.Scene.Unregister | engine/scene.py:39-41 | the deleting half keeps the invariant |
| EngineScene.Scene.SetupFrame | engine/scene.py:43-48 | only `dt` changes, and the set-up step with that `dt` is logged |
| EngineScene.Scene.SimulatePreframe | engine/scene.py:50-56 | `update` runs once per object, in insertion order; the pre-frame step is logged |
| EngineScene.Scene.SimulatePostframe | engine/scene.py:58-64 | `update_postframe` runs once per object, in insertion order; the post-frame step is logged |
| EngineScene.Scene.ValuesAreDistinct | engine/scene.py:55-56 | no object is registered under two ids |
| EngineScene.Scene.GetObjectsOfType | engine/scene.py:75-86 | in insertion order, one component of the class per object that has one |
| EngineScene.Scene.CollectComponents | engine/scene.py:81-86 | the loop of `get_objects_of_type` keeps that statement for the objects seen so far |
| EngineScene.Scene.GetObjectOfType | engine/scene.py:66-73 | `None` exactly when no object has a match; otherwise a match from the first owner in insertion order |
| EngineInput.LookupBinding | engine/input.py:24-29 | the bound key, or BindingDoesNotExist carrying the name exactly when it is unbound |
| EngineInput.StatusOf | engine/input.py:35 | a key never recorded reads as DEPRESSED |
| EngineInput.BindingStatus | engine/input.py:37-39 | the status of the bound key; it raises exactly for an unbound name |
| EngineInput.PressedXorDepressed | engine/input.py:17-21 | each of the four statuses is in exactly one of the pressed and depressed groups |
| EngineInput.BindingPressed | engine/input.py:41-43 | true exactly for PRESSED_THIS_FRAME or PRESSED; it raises exactly for an unbound name |
| EngineInput.BindingDepressed | engine/input.py:45-47 | true exactly for DEPRESSED_THIS_FRAME or DEPRESSED; it raises exactly for an unbound name |
| EngineInput.PressedIffNotDepressed | engine/input.py:41-47 | for a bound name exactly one of pressed and depressed holds; an unbound name raises the same for both |
| EngineInput.OtherKeysDoNotMatter | engine/input.py:38-39 | a binding's status does not depend on the other keys |
| EngineInput.DefaultInsertionIsInvisible | engine/input.py:35 | the default entry a read inserts changes no readable status |
| EngineInput.SameStatusesSameAnswers | engine/input.py:41-47 | statuses that read the same answer every binding query the same way |
| EngineInput.Input.constructor | engine/input.py:33-35 | no bindings and no recorded status |
| EngineInput.Input.ReadStatus | engine/input.py:35 | reading a key returns its status and records the default |
| EngineInput.Input.GetBindingStatus | engine/input.py:37-39 | agrees with BindingStatus; an unbound name touches no status |
| EngineInput.Input.IsBindingPressed | engine/input.py:41-43 | agrees with BindingPressed; statuses read the same afterwards |
| EngineInput.Input.IsBindingDepressed | engine/input.py:45-47 | agrees with BindingDepressed; statuses read the same afterwards |
| EngineApplication.Settle | engine/application.py:73-77 | a changed-this-frame status becomes steady and stays pressed or depressed |
| EngineApplication.SettleAll | engine/application.py:73-77 | every recorded key settles; no key is added |
| EngineApplication.Apply | engine/application.py:79-83 | KEYDOWN records PRESSED_THIS_FRAME, KEYUP records DEPRESSED_THIS_FRAME, a mouse event changes nothing |
| EngineApplication.LastEventFor | engine/application.py:79-83 | no status exactly when no event is about the key |
| EngineApplication.LastEventWins | engine/application.py:79-83 | the last event about a key decides its status; a key without events keeps what it had |
| EngineApplication.RecordedKeys | engine/application.py:79-83 | afterwards the recorded keys are the earlier ones and the keys with events |
| EngineApplication.KeyEvents | engine/application.py:60-61 | dropping the mouse events leaves only key events |
| EngineApplication.MouseEventsChangeNothing | engine/application.py:79-83 | the mouse events fetched with the key events change no status |
| EngineApplication.NoEventMeansSettled | engine/application.py:73-83 | a key without events ends the frame settled |
| EngineApplication.FrameTraceInOrder | engine/application.py:60-66 | steps 5i to 5i+4 of the trace are frame i's input handling, setup with its dt, preframe, render and postframe, in that order |
| EngineApplication.Application.constructor | engine/application.py:17-20 | no scene yet |
| EngineApplication.OneMoreFrame | engine/application.py:48-68 | one more frame adds its five steps to the trace and one settle-then-apply round to the statuses |
| EngineApplication.QuietKeySettles | engine/application.py:60-83 | a recorded key no frame has an event for ends steady on the side it started on, after one frame or more |
| EngineApplication.LastFrameWins | engine/application.py:60-83 | a key's final status is the one the last frame with an event for it recorded, settled if later frames ran |
| EngineApplication.Application.HandleInput | engine/application.py:70-83 | the statuses become the settled statuses with the events applied in order; the input step is logged |
| EngineApplication.Application.RunFrame | engine/application.py:49-68 | one pass logs input, set-up with the frame's dt, pre-frame, render and post-frame in that order; the statuses settle and take the frame's events; the scene keeps its invariant |
| EngineApplication.Application.RunFrames | engine/application.py:48-68 | the loop over the frames: the log grows by exactly FrameTrace of the frames, the statuses become AfterFrames of the old ones, and the scene keeps its invariant and the last dt |
| EngineApplication.Application.Run | engine/application.py:32-66 | MissingSceneError with nothing done and nothing logged when there is no scene; otherwise the log grows by exactly FrameTrace of the frames, the statuses are AfterFrames of the old ones, and the scene keeps its objects, its invariant and the last dt |
| EngineInterface.Split | engine/interface.py:77 | `split("/")` gives at least one piece, none holding `/`, and the pieces join back to the path |
| EngineInterface.SplitJoin | engine/interface.py:77 | splitting a joined path gives back its names |
| EngineInterface.ResolveConcat | engine/interface.py:79-84 | following a + b is following a, then b from where a led |
| EngineInterface.Dispatch | engine/interface.py:86-89 | KeyError without a `name` key; otherwise the callback registered for the name, if any |
| EngineInterface.ListenThenStop | engine/interface.py:91-99 | after `listen_for_event(n, cb)` an event named n reaches cb; after stopping it reaches none; other names are unaffected |
| EngineInterface.WalkIsClosed | engine/interface.py:111-115 | the full walk holds every direct child and every child of anything it holds |
| EngineInterface.UIElement.constructor | engine/interface.py:19-30 | no parent, no children, no listeners, and a new position vector, (0,0) by default |
| EngineInterface.UIElement.AddChild | engine/interface.py:32-49 | ValueError for an element with a parent or without a name; IndexError for a taken name or an existing child; nothing changes on an error; otherwise the element is appended under its name, points back here, and the other children keep their order |
| EngineInterface.UIElement.Adopt | engine/interface.py:48-49 | the child is appended and the children stay distinct |
| EngineInterface.UIElement.AddChildIntended | engine/interface.py:32-49 | as intended: the same errors as AddChild, and ValueError for the element itself or an element this one is below; it succeeds exactly otherwise, and then both sides are one tree |
| EngineInterface.UIElement.IsBelow | engine/interface.py:104-115 | the ancestor test the intended `add_child` makes with `get_children()`: true exactly when this element is `element` or below it |
| EngineInterface.UIElement.AdoptIntoTree | engine/interface.py:48-49 | adopting an element this one is not below keeps a tree over the same elements |
| EngineInterface.UIElement.KeepsTree | engine/interface.py:48-49 | the lifted heights put the adopted element below this one and keep every child below its parent |
| EngineInterface.AddChildToItself | engine/interface.py:39-49 | `e.add_child(e)` as written succeeds and leaves no tree below `e`; as intended it raises ValueError |
| EngineInterface.SelfChildHasNoTree | engine/interface.py:111-115 | an element that is its own child has no tree below it |
| EngineInterface.ReachesBounded | engine/interface.py:111-115 | what an element reaches is in the tree and no higher |
| EngineInterface.ReachesClosed | engine/interface.py:111-115 | the children of what an element reaches are reached too |
| EngineInterface.WalkHoldsReached | engine/interface.py:111-115 | a walk closed under children holds everything below the element |
| EngineInterface.ReachedByWalk | engine/interface.py:111-115 | everything the walk visits is below the element |
| EngineInterface.TreeAfterAdopt | engine/interface.py:48-49 | after the adoption every element is in order, so both sides are trees |
| EngineInterface.ParentAfterAdopt | engine/interface.py:48-49 | the new parent keeps every child below it and pointing back to it |
| EngineInterface.UIElement.RemoveChild | engine/interface.py:51-67 | ValueError for no name or an empty one; `None` with nothing changed for an absent name; otherwise the child is deleted, loses its parent and is returned |
| EngineInterface.UIElement.FindChildAsWritten | engine/interface.py:77-84 | as written: `None` when the first name is missing, otherwise AttributeError |
| EngineInterface.UIElement.FindChild | engine/interface.py:69-84 | as intended: the element the `/`-separated path leads to, or `None` at the first missing name |
| EngineInterface.UIElement.ProcessEvent | engine/interface.py:86-89 | the callback the event is delivered to, as Dispatch says |
| EngineInterface.UIElement.ListenForEvent | engine/interface.py:91-95 | ValueError with nothing changed for a `None` callback; otherwise it is registered under the name |
| EngineInterface.UIElement.StopListening | engine/interface.py:97-99 | the name's callback is dropped, if any |
| EngineInterface.UIElement.GetChildren | engine/interface.py:104-115 | direct: the children in insertion order; otherwise the children followed by the children of each element walked, breadth first, every element once, all below this one |
| EngineInterface.WalkDone | engine/interface.py:111-115 | the finished walk is the children plus the children of everything walked, and repeats nothing |
| EngineInterface.WalkStart | engine/interface.py:111 | the walk starts from the children |
| EngineInterface.WalkStep | engine/interface.py:112-115 | one step of the walk keeps it free of repeats, inside the tree and equal to children plus the children walked so far |
| EngineInterface.AppendKeepsDistinct | engine/interface.py:114 | appending a walked element's children repeats nothing |
| EngineInterface.PrefixSlice | engine/interface.py:224 | Python's `s[:count]`, for negative counts too |
| EngineInterface.Thickness | engine/interface.py:228 | the largest thickness of a visible sprite |
| EngineInterface.SurfaceSize | engine/interface.py:219-231 | count 0 gives 0x0; otherwise the visible sprites end to end plus `max((n-1)*spacing, 0)` by the thickest; ValueError exactly when nothing is visible |
| EngineInterface.Drawn | engine/interface.py:199-201 | the loop draws `min(visible_count, len)` sprites, none for a count of 0 or less |
| EngineInterface.OffsetStep | engine/interface.py:203-212 | each sprite starts where the previous one ends, plus the spacing |
| EngineInterface.Blits | engine/interface.py:197-217 | the i-th sprite is drawn at its offset along the direction, and at 0 across it |
| EngineInterface.IntendedSizeIsSurfaceSize | engine/interface.py:207-231 | with a positive count and no negative spacing, the intended element size is the surface size |
| EngineInterface.AsWrittenSizeDiffers | engine/interface.py:207-208 | a tall sprite then a short one: the surface is 8x10, the element as written 8x3 |
| EngineInterface.DrawnSpritesFitSurface | engine/interface.py:197-233 | with no negative sizes or spacing, every drawn sprite lies inside the surface |
| EngineInterface.IntendedSizeStep | engine/interface.py:203-215 | one more sprite: longer by the spacing and the sprite, and thicker if the sprite is |
| EngineInterface.SpriteGroup.constructor | engine/interface.py:172-189 | every sprite visible, and the surface and the as-written element size are built without error |
| EngineInterface.SpriteGroup.ConstructSprite | engine/interface.py:219-234 | a new surface of SurfaceSize with no sprites drawn, or ValueError with nothing changed |
| EngineInterface.SpriteGroup.RebuildSprite | engine/interface.py:191-217 | as written: the surface, the sprites drawn at their offsets, and the element as long as the drawn row but as thick as its last sprite |
| EngineInterface.SpriteGroup.RebuildSpriteIntended | engine/interface.py:191-217 | as intended: the element ends up the size of the surface |
| EngineInterface.DrawSpritesAsWritten | engine/interface.py:197-217 | the drawing loop as written, stated by Blits and ElementSizeAsWritten |
| EngineInterface.DrawSpritesIntended | engine/interface.py:197-217 | the drawing loop as intended, stated by Blits and ElementSizeIntended |
| EngineInterface.FindChildOnOneLevel | engine/interface.py:82 | a child found by name: as written AttributeError, as intended the child |
| EngineInterface.SpriteGroupHeights | engine/interface.py:207-215 | a built group: the surface is 8x10, the element as written 8x3, as intended 8x10 |
| EngineMath.Sign | engine/math/functions.py:4-5 | -1 exactly for negative numbers, 1 otherwise, so `sign(0) == 1` |
| EngineMath.SignTimesNumberIsMagnitude | engine/math/functions.py:5 | `sign(x) * x == abs(x)` |
| EngineMath.Clamp | game/components/player.py:50-51 | the imported `clamp`: the value inside the bounds, the nearer bound outside, never outside for ordered bounds |
| EngineMath.LowBit | engine/math/functions.py:10 | `n & (~n+1)` is between 1 and n |
| EngineMath.SetBitsStep | engine/math/functions.py:9-12 | one step yields the lowest set bit and continues with that bit cleared |
| EngineMath.SetBitsSound | engine/math/functions.py:10-11 | every yielded value is a power of two whose bit is set in n |
| EngineMath.SetBitsComplete | engine/math/functions.py:9-12 | every set bit is yielded |
| EngineMath.SetBitsSumAndCount | engine/math/functions.py:9-12 | the values add up to n, one per set bit (popcount) |
| EngineMath.SetBitsIncreasing | engine/math/functions.py:9-12 | the values strictly increase, so none repeats |
| EngineMath.YieldedIffSetBit | engine/math/functions.py:9-12 | a value is yielded exactly when it is a set bit of n |
| EngineMath.Bits | engine/math/functions.py:8-12 | the generator loop ends (nothing for 0) and yields exactly the set bits, increasing, adding up to n, popcount many |
| EngineRenderer.HexValue | engine/renderer.py:25 | a value below 16 exactly for the ASCII hexadecimal digits |
| EngineRenderer.ParseHexPair | engine/renderer.py:25 | `int(x, 16)` of two characters: two digits give `16a+b`; otherwise a space, a sign or a non-digit decides; only ValueError is raised |
| EngineRenderer.Pairs | engine/renderer.py:23-24 | `(L-1)/2` slices, each exactly two characters, at `1+2i` |
| EngineRenderer.ParseAll | engine/renderer.py:25 | succeeds exactly when every piece parses, giving their values in order |
| EngineRenderer.FillColour | engine/renderer.py:21-27 | black `(0, 0, 0)` without a tiled map; otherwise the parsed pieces |
| EngineRenderer.FillColourAsWritten | engine/renderer.py:21-27 | as written: AttributeError exactly when the scene has a tiled map, black otherwise |
| EngineRenderer.TiledMapFillRaises | engine/components.py:46-50 | a new TiledMap has only Renderable's attributes; as written the fill raises AttributeError, as intended `#336699` fills with (51, 102, 153) |
| EngineRenderer.Render | engine/renderer.py:15-46 | the render step is logged; the renderer is taken to complete, as stated under Left out |
| EngineRenderer.DigitsGiveBytes | engine/renderer.py:23-25 | hex digits after the first character give `(L-1)/2` components in 0..255 |
| EngineRenderer.FirstCharacterIgnored | engine/renderer.py:24 | the first character is never looked at |
| EngineRenderer.SignedPieceIsNegative | engine/renderer.py:25 | `"#-f0000"` parses to `(-15, 0, 0)` |
| EngineRenderer.ParseFormat | engine/renderer.py:23-25 | a colour written as `#rrggbb...` reads back as its components |
| GameCharacterController.LowestIndex | game/components/charactercontroller.py:59 | `min(tiles, key=y)`: the first tile with the smallest y |
| GameCharacterController.AnimationFor | game/components/charactercontroller.py:79-94 | flip on negative vx, unflip on positive, keep at 0; jump exactly when flying, walk exactly when grounded and moving, stand otherwise |
| GameCharacterController.VerticalSettledBySweep | game/components/charactercontroller.py:52-67 | the vertical outcome is the vertical sweep's; the second horizontal sweep only touches x |
| GameCharacterController.SupportedStaysGrounded | game/components/charactercontroller.py:35-42 | a grounded character with a tile 3 below gets no gravity, is not snapped and stays grounded |
| GameCharacterController.UnsupportedStartsFlying | game/components/charactercontroller.py:35-39 | with nothing 3 below, a grounded character moves exactly as a flying one |
| GameCharacterController.GravityOnlyWhenFlying | game/components/charactercontroller.py:35-46 | flying after the ground check exactly when it was flying or unsupported; gravity is added exactly then |
| GameCharacterController.FreeFall | game/components/charactercontroller.py:52-55 | with no vertical hit: still flying, velocity plus gravity, no snap |
| GameCharacterController.CeilingBounce | game/components/charactercontroller.py:55-57 | a hit moving up reverses and halves the vertical speed, and the character keeps flying |
| GameCharacterController.Landing | game/components/charactercontroller.py:58-63 | a hit moving down snaps y to the top of the highest tile hit minus half the height minus 1, and stops flying and falling |
| GameCharacterController.StepIsVelocityTimesDt | game/components/charactercontroller.py:46-72 | the step applied is always the final velocity times dt |
| GameCharacterController.HorizontalKeptOrStopped | game/components/charactercontroller.py:48-50 | x velocity is kept or stopped; a character not moving along x is never probed |
| GameCharacterController.WallStops | game/components/charactercontroller.py:48-50 | a first-probe hit stops x velocity and x step for the frame |
| GameCharacterController.CharacterController.constructor | game/components/charactercontroller.py:11-16 | flying, at rest, with the given gravity |
| GameCharacterController.CharacterController.Update | game/components/charactercontroller.py:18-27 | nothing changes without a tiled map or outside it; otherwise the collisions are resolved as Collide says |
| GameCharacterController.CharacterController.HandleCollisions | game/components/charactercontroller.py:29-72 | the final state is Collide's: flying, velocity, applied velocity, the snapped y on the old vector, a new position vector moved by the step, and the animation |
| GameCharacterController.CharacterController.GroundCheckAndGravity | game/components/charactercontroller.py:35-42 | the ground check, then gravity exactly when flying |
| GameCharacterController.CharacterController.VerticalCollision | game/components/charactercontroller.py:52-63 | the vertical sweep, as VerticalStep says |
| GameCharacterController.CharacterController.HorizontalCollision | game/components/charactercontroller.py:74-77 | a hit stops x velocity and x step; otherwise nothing changes |
| GamePlayer.FrictionTowardZero | game/components/player.py:37-39 | friction moves vx toward 0 by the step, stops at 0, never reverses, and keeps 0 at 0 |
| GamePlayer.Clamped | game/components/player.py:49-51 | afterwards `abs(vx) <= 500` and `abs(vy) <= 1200`, and in-range values are unchanged |
| GamePlayer.Directions | game/components/player.py:30-39 | "left" subtracts 1700*dt, "right" adds it, both cancel, neither applies friction |
| GamePlayer.JumpOnlyFromGround | game/components/player.py:41-44 | "jump" on the ground sets vy to -700 and flying; otherwise vy and flying are kept |
| GamePlayer.MissingBindingStopsEarly | game/components/player.py:28-47 | an unbound name ends the block: earlier changes stay, later ones are skipped, and its exception is the warning |
| GamePlayer.HandleInput | game/components/player.py:25-51 | the velocity and flying that Steered gives, then clamped whatever was raised |
| GamePlayer.PushHorizontally | game/components/player.py:29-39 | the horizontal part, as Pushed says |
| GamePlayer.JumpFromGround | game/components/player.py:41-44 | the jump, as Jumped says |
| GamePlayer.Update | game/components/player.py:18-23 | the camera's transform takes the player's position vector itself, then the input is handled |
| GameAICharacter.Found | game/components/aicharacter.py:20-24 | only nodes the scene has for the names, no more nodes than names |
| GameAICharacter.FoundConcat | game/components/aicharacter.py:20-24 | the nodes found for `a + b` are those found for `a`, then those for `b`, so the path follows the names' order and skips the missing ones |
| GameAICharacter.FoundOne | game/components/aicharacter.py:21-24 | one name gives its node, or nothing when the scene has no such object |
| GameAICharacter.AllNamesFound | game/components/aicharacter.py:20-24 | when every name is found, the path is their nodes in order |
| GameAICharacter.NoNameFound | game/components/aicharacter.py:20-24 | when no name is found, the path stays empty |
| GameAICharacter.Arrive | game/components/aicharacter.py:40-47 | arriving keeps the index inside the path |
| GameAICharacter.FirstPass | game/components/aicharacter.py:40-47 | the first pass visits the nodes in order; a path that does not loop then stops on its last node |
| GameAICharacter.LoopRepeats | game/components/aicharacter.py:43-44 | a looping path never stops and repeats every `len(path)` arrivals |
| GameAICharacter.Direction | game/components/aicharacter.py:35-38 | the normalised horizontal difference is the sign |
| GameAICharacter.AICharacter.constructor | game/components/aicharacter.py:9-18 | no names for `path=None`; an empty path, index 0, not stopped |
| GameAICharacter.AICharacter.Start | game/components/aicharacter.py:20-24 | the found nodes are appended to the path, in order |
| GameAICharacter.AICharacter.Update | game/components/aicharacter.py:26-47 | nothing with an empty path or once stopped; far from the node only vx changes, to the clamped push; otherwise the index arrives; the index stays inside the path |
| GameCharacter.DamagedHealth | game/components/character.py:12-15 | health less the amount, or exactly 0 at or below 0 |
| GameCharacter.DamageAccumulates | game/components/character.py:12-15 | two non-negative hits leave the health one hit of their sum would |
| GameCharacter.Character.constructor | game/components/character.py:5-7 | the given health |
| GameCharacter.Character.Damage | game/components/character.py:12-16 | health becomes DamagedHealth and is never negative; `kill` runs exactly when it reached 0 or below |
| GameSpriteEffects.BlinkEffect.constructor | game/spriteeffects.py:5-11 | end 0, accumulator 0, not finished, the settled invariant holds |
| GameSpriteEffects.BlinkEffect.OnStart | game/spriteeffects.py:13-15 | end becomes the scene time plus the length |
| GameSpriteEffects.BlinkEffect.Run | game/spriteeffects.py:17-27 | from the end on: shown and finished, accumulator untouched; before: dt accumulates and, once it reaches the frequency, visibility flips and the count restarts; the accumulator stays 0 or below the frequency |
| GameCameraControls.PressedIsHeld | game/components/cameracontrols.py:12 | `is_binding_pressed` on a bound name answers Held |
| GameCameraControls.HeldBindingsMove | game/components/cameracontrols.py:12-19 | each held binding moves 800*dt its way; opposite bindings cancel |
| GameCameraControls.MissingBindingSkipsTheRest | game/components/cameracontrols.py:8-22 | an unbound name ends the block: earlier moves stay, later ones are skipped, and its exception is the warning |
| GameCameraControls.Update | game/components/cameracontrols.py:7-22 | without a Transform nothing changes; otherwise the position vector moves as Panned says |
| GameCameraControls.PanCamera | game/components/cameracontrols.py:12-19 | the four `if` statements, as Panned says |
| GameCameraControls.MoveIfHeld | game/components/cameracontrols.py:12-19 | one `if`, as PanStep says |

## Left out

**Machinery outside the modelled code**
- pygame: the frame loop's clock, QUIT handling, FPS report, display flip, drawing and image
  loading are I/O. The FPS-derived `dt` and the scene are parameters of `Run`.
- `Canvas`, `SpriteElement` and the renderer's drawing and camera offset are drawing code.
- engine/tiledmap.py wraps pytmx: the tile-map queries are parameters of the controller.
- game/platformer.py, engine/game.py and main.py are wiring code.
- The older duplicate constructors under engine/components/ are superseded by
  engine/components.py.
- Logging is left out: a caught exception is returned as the warning.
- The effect base class `SpriteRenderer.Effect` and the sprite renderer's animations are not
  part of this model.
  - `finished` starts false, which the base class evidently does.
  - `play_animation` and `horizontal_flip` become the returned `Shown` tag.
  - `SpriteElement`'s sprite loading is not modelled.
- The animation choice is returned, not stored: `_handle_animations` runs before the final
  position is set. This order does not matter, because it reads only the velocity and
  `flying`.

**Numbers**
- Floating-point rounding is not modelled: movement arithmetic is over `real`. Layout
  arithmetic is over unbounded `int`.
- EngineMath.LowBit: `n & (~n+1)` is modelled by its arithmetic meaning, the lowest power of
  two dividing n, not by two's-complement bit operations. Python integers are unbounded, so
  there is no width to model.
- GameCharacter: health and damage are `int`, where the source takes any Python number; a
  fractional health or damage is not modelled.
- `bits` of a negative number does not terminate in Python. The model takes `n: nat`.

**Data taken as given**
- `Scene.get_object_by_name`, `scene.time`, `Vector2.length`/`normalize` and the tile-map
  methods are called but not defined in this revision:
  - the name lookup, the time and the tile queries are parameters;
  - `normalize` of `(dx, 0)` is `Sign(dx)`.
- GameAICharacter.AICharacter.Update: the path holds position vectors instead of objects, and
  the character's own position is a parameter.
- GamePlayer.Update: only the camera-follow assignment and the input handling are modelled.
  The camera and the player are passed as their `Transform` components.
- GameCharacterController.HorizontalProbe, GameCharacterController.VerticalProbe and
  GameCharacterController.LandingY: the bounding rectangle has `real` coordinates, moves
  exactly and is halved exactly. pygame's `Rect.move` truncates to integers, and Python 2's
  `height/2` on an int floors, so a height of 33 gives 16 where the model gives 16.5.
- GameCharacterController.CharacterController.Update: the bounding rectangle is a parameter.
  It is assumed to stay put while the position changes, as it does within one frame of the
  source.

**Contracts deliberately weaker**
- EngineInterface.UIElement.GetChildren: it requires the elements below to form a tree, as
  heights that decrease from parent to child witness. Without that, as after `e.add_child(e)`,
  the source's walk never ends (see AddChildToItself), which the model does not represent.
- EngineRenderer.Render: drawing is not modelled, and render is taken to complete. As written
  it raises AttributeError on every frame: at `tiled_map.map` when the scene has a tiled map,
  at `obj.get_components` when it has an object, and at `scene.interface` otherwise. So the
  frame trace that EngineApplication.Application.Run and RunFrames promise is that of the
  intended renderer; as written a frame stops after the pre-frame update.
- EngineRenderer.FillColour: it reads the map's background colour as if `TiledMap` had loaded
  the map; FillColourAsWritten states the AttributeError the code as written raises.
- EngineGameObject.GameObject.GetComponents: Python's set iteration order is unspecified. The
  model states the members and not their order, so `getcomponent` promises some match, not
  the first.

## Findings

| source | as written | input that shows it | evidently intended | confidence | as-written member | corrected member |
|---|---|---|---|---|---|---|
| engine/gameobject.py:49 | `len(self.getcomponents(cls) > 0)` takes the length of a comparison, which raises TypeError | any object, e.g. one holding a Transform, asked `hascomponent(Transform)` | `len(self.getcomponents(cls)) > 0`, as the docstring says | high; not executed | EngineGameObject.HasComponentOnTransform | EngineGameObject.GameObject.HasComponent |
| engine/gameobject.py:12 | `addcomponents` sets `cmp.gameobject`, but the owner attribute everything reads is `game_object` | a fresh Transform added to a fresh object still has `game_object == None` | assign `cmp.game_object = self` (and clear it in `removecomponents`) | high; not executed | EngineGameObject.AddComponentsLeavesOwnerUnset | EngineGameObject.AddComponentsIntendedSetsOwner |
| engine/interface.py:82 | `parent.chilren[...]` is a misspelling, so every name that is found raises AttributeError | a root with child "a", asked `find_child("a")` | `parent.children[element_name]` | high; not executed | EngineInterface.FindChildOnOneLevel | EngineInterface.UIElement.FindChild |
| engine/interface.py:39-49 | `add_child` does not check that the element is not this element or above it, so an element can become its own child | `e.add_child(e)` for an element `e` named "a" with no parent: it succeeds, and `e.get_children()` then never ends | refuse an element that this one is, or is below, with ValueError | medium; not executed | EngineInterface.AddChildToItself | EngineInterface.UIElement.AddChildIntended |
| engine/components.py:47 | `TiledMap` defines `__init` instead of `__init__`, so `map` is never set and `render` raises AttributeError at `tiled_map.map` | any scene holding a TiledMap component | `def __init__` and `from engine import tiledmap`, so that the map is loaded and its background colour read | high; not executed | EngineRenderer.TiledMapFillRaises | EngineRenderer.FillColour |
| engine/gameobject.py:2-4 | `GameObject.__init__` sets no `id`, so `add_object`'s guard `obj.id is not None` raises AttributeError for every fresh object | a fresh GameObject added to a fresh Scene | `self.id = None` in `__init__`, as `add_object` and the scene tests expect | high; not executed | EngineScene.AddFreshObject | EngineScene.Scene.AddObject |
| engine/interface.py:207-215 | `rebuild_sprite` sets the thickness to `max(y, info[2])` (or `max(x, info[1])`), where the other coordinate stays 0, so it ends as thick as the last sprite | sprites 4x10 and 4x3 in a row: the surface is 8x10, the element 8x3 | as thick as the thickest sprite, the surface `_construct_sprite` builds | medium; not executed | EngineInterface.SpriteGroupHeights | EngineInterface.SpriteGroup.RebuildSpriteIntended |
