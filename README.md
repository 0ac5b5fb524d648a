# CutTheVerlet game rules in Dafny

CutTheVerlet is a rope-cutting puzzle. A prize hangs from ropes, the player
swipes to cut them, and the level ends when the prize lands in the
crocodile's mouth (won) or falls below the bottom of the screen (lost).
Either way a new level is presented after a short delay, with a scene
transition.

This project models the rules that `GameScene` enforces on top of the
physics engine:

- cutting ropes with a swipe, at most one rope per gesture unless the
  `CanCutMultipleRopesAtOnce` switch allows more;
- the prize becoming dynamic on the first cut;
- removing the hit rope node and fading out the rest of that rope;
- detecting a lost level (prize at or below y = 0) and a won level
  (contact between the crocodile and the prize, in either order);
- sealing the level once it is over and requesting exactly one transition.

Files:

- `rope_names.dfy` (module `RopeNames`): the decimal names `"0"`, `"1"`, …
  that `setUpRopes` gives its ropes. It proves that reading a name back
  gives its index, so distinct ropes never share a name.
- `game_rules.dfy` (module `GameRules`): the scene's state as a value, with
  one function per event handler. It also defines an event datatype, a
  `Run` of events over a level's lifetime, and the lifetime lemmas: one
  transition at most, sealed after conclusion, one cut per gesture, and
  the prize staying dynamic.
- `game_scene.dfy` (module `Scene`): class `GameScene`. Its fields are the
  ones the source updates in place: `levelOver`, `ropeCut`, the prize's
  `dynamic` flag and the scene's child list. Each handler is a method
  with the loops the source has. Each is proved to leave `Snapshot()`
  equal to the matching `GameRules` function of the old snapshot, so the
  lifetime lemmas hold of any sequence of handler calls.

Modelling choices:

- A node is identified by its index in the child list. Removing a node
  keeps its slot and sets its status to `Removed`. A node running the
  fade-out that ends in its removal is `Fading`.
- The physics engine is an input. A ray cast becomes the list of node
  indices it reports, and a contact becomes the pair of node indices it
  reports. Every reported body belongs to a node of the scene, because the
  source force-unwraps `body.node`. Particle emitters have no physics body,
  so hits name only the nodes that existed before the move.
- Every touch in `touchesMoved` adds an unnamed particle-emitter node after
  its ray cast is resolved, as the source does.
- `RopeNode` is not part of this model. `setUpRopes` takes, for each entry
  of the rope data, the number of nodes that rope adds to the scene. All
  of those nodes carry the rope's name.
- `arc4random_uniform(12)` becomes `UniformBelow(12, draw)`, where `draw` is
  the random generator's output and is passed to `Update` as a parameter.
- The prize's `CGFloat` height is a `real`.
- Both switches from `Constants.swift` are constructor parameters. The
  multi-cut switch is a field of the scene; the start-dynamic switch sets
  the prize's flag at setup.
- The code keeps no rope registry and removes no joint itself. A cut
  removes the hit node and starts a fade-then-remove on every other child
  with the same name (GameScene.swift:399-409).
- The ray enumeration keeps going after a cut. With one cut per gesture,
  each later hit returns at the `ropeCut` guard (GameScene.swift:386-388).
- Every cut sets the prize's `dynamic` flag to true again, which changes
  nothing after the first cut (GameScene.swift:396).
- A fading node keeps its name and its physics body until its fade ends.
  A later gesture that hits such a remnant of a cut rope counts it as that
  gesture's one cut: the remnant is removed and `ropeCut` is set
  (GameScene.swift:386-410). A rope the same swipe crosses afterwards is
  then not cut. The model reproduces this.

## Model

| member | source | states |
|---|---|---|
| RopeNames.Decimal | CutTheVerlet/GameScene.swift:163 | a rope's name is non-empty, made only of decimal digits, and has no leading zero |
| RopeNames.DecimalRoundTrip | CutTheVerlet/GameScene.swift:163 | reading rope i's name back as a decimal number gives i |
| RopeNames.DecimalInjective | CutTheVerlet/GameScene.swift:155-163 | ropes with different indices get different names |
| GameRules.Segments | CutTheVerlet/GameScene.swift:155-171 | the ropes add as many nodes as the counts sum to, each carrying a name and present in the scene |
| GameRules.SegmentNames | CutTheVerlet/GameScene.swift:155-166 | every node the ropes add is named by the index of one of the ropes |
| GameRules.SegmentsNamedByRope | CutTheVerlet/GameScene.swift:155-166 | the nodes named by rope i's name are exactly rope i's nodes (counts[i] of them); a name i beyond the rope count names no node |
| GameRules.InitialRopeNames | CutTheVerlet/GameScene.swift:39-48 | in a freshly set-up scene, rope i's name picks out exactly the nodes of rope i |
| GameRules.Initial | CutTheVerlet/GameScene.swift:36-48 | a fresh level is not over, has not cut, has requested nothing, has its prize flag set by the start switch, and has every node present; the prize and the crocodile are distinct, unnamed nodes |
| GameRules.Began | CutTheVerlet/GameScene.swift:296-300 | touch-down clears the cut flag and changes nothing else |
| GameRules.CutWith | CutTheVerlet/GameScene.swift:384-412 | a hit blocked by the one-cut guard, or a hit on an unnamed node, changes nothing; a cut sets the cut flag and the prize's dynamic flag and removes the hit node; names never change, removed nodes stay removed, fading nodes never become present again, and the level flag and the schedule are untouched |
| GameRules.CutTouchesOnlyItsRope | CutTheVerlet/GameScene.swift:396-409 | after a cut, every other node of the same rope is fading (or stays removed), and nodes with another name or no name are unchanged |
| GameRules.RayHits | CutTheVerlet/GameScene.swift:312-319 | resolving a ray's hits keeps the child count, the names, the level flag and the schedule; the dynamic flag, the cut flag and removals are never undone, and a fading or removed node never becomes present again |
| GameRules.RayCutsBound | CutTheVerlet/GameScene.swift:386-410 | after a ray, the cut flag and the prize's dynamic flag are each set exactly when they were set before or the ray cut; with one cut per gesture the ray cuts at most once, and not at all if the gesture already cut |
| GameRules.UnnamedHitsChangeNothing | CutTheVerlet/GameScene.swift:393 | a ray whose hits all land on unnamed nodes leaves the state as it was |
| GameRules.FirstCutWins | CutTheVerlet/GameScene.swift:384-412 | with one cut per gesture and no cut yet, a ray has exactly the effect of cutting its first named hit alone, so every other rope it crosses is untouched |
| GameRules.MultiCutRemovesEveryNamedHit | CutTheVerlet/GameScene.swift:386-411 | with multi-cut on, every named node the ray hits ends up removed, and every node of each rope it hits is fading or removed |
| GameRules.Moved | CutTheVerlet/GameScene.swift:304-327 | a move adds one node per touch, keeps the existing names, the level flag and the schedule, and never undoes the dynamic or cut flags |
| GameRules.MovedCutsBound | CutTheVerlet/GameScene.swift:304-319 | over all the touches of a move, the cut flag and the prize's dynamic flag each record whether anything was cut (or were already set); with one cut per gesture the move cuts at most once |
| GameRules.OneCutPerGesture | CutTheVerlet/GameScene.swift:384-411 | with one cut per gesture, any run of events without a touch-down cuts at most one rope, and none if the gesture already cut |
| GameRules.CutsBetweenTouchDowns | CutTheVerlet/GameScene.swift:296-300 | with one cut per gesture, a touch-down followed by any events up to the next touch-down cuts at most one rope |
| GameRules.UniformBelow | CutTheVerlet/GameScene.swift:358 | the random transition index is below the number of transitions |
| GameRules.Updated | CutTheVerlet/GameScene.swift:333-361 | a frame update on a level that is over, or with the prize above the floor, changes nothing; otherwise it seals the level and appends exactly one transition, one of the twelve random ones, and changes nothing else |
| GameRules.Contacted | CutTheVerlet/GameScene.swift:363-382 | a contact seals the level exactly when it was over or the pair is crocodile and prize; an open level then gets the doorway transition; any other pair, or a sealed level, changes nothing; nodes and flags other than the level flag never change |
| GameRules.ContactOrderIrrelevant | CutTheVerlet/GameScene.swift:368 | (a, b) and (b, a) have the same effect |
| GameRules.FadeDone | CutTheVerlet/GameScene.swift:404-408 | the end of a fade removes that one fading node; a node not fading, and every other node and field, stay as they were |
| GameRules.StepKeepsLevelInv | CutTheVerlet/GameScene.swift:333-382 | every handler keeps "one transition requested exactly when the level is over" |
| GameRules.AtMostOneTransition | CutTheVerlet/GameScene.swift:333-382 | over any run of events, at most one transition is ever requested, and only once the level is over |
| GameRules.FreshLevelAtMostOneTransition | CutTheVerlet/GameScene.swift:36-48 | a freshly set-up level requests at most one transition, whatever happens to it |
| GameRules.SealedAfterConclusion | CutTheVerlet/GameScene.swift:333-366 | once the level is over, every later event leaves it over and requests nothing more |
| GameRules.PrizeStaysDynamic | CutTheVerlet/GameScene.swift:396 | once the prize is dynamic, no later event makes it static again |
| GameRules.PrizeDynamicOnlyByCut | CutTheVerlet/GameScene.swift:384-412 | over any run of events, the prize is dynamic afterwards exactly when it was before or the run cut a rope |
| GameRules.FreshLevelPrizeActivation | CutTheVerlet/GameScene.swift:124 | in a level whose prize starts static, the prize is dynamic exactly once a rope has been cut |
| GameRules.OneConclusionPerFrame | CutTheVerlet/GameScene.swift:333-382 | a capture and a fall in the same frame request exactly one transition in either order: the doorway if the contact runs first, a random one if the update runs first |
| Scene.GameScene.constructor | CutTheVerlet/GameScene.swift:39-48 | a new scene with the two switches, set up as `Initial` describes, satisfies the scene invariant |
| Scene.GameScene.SetUpScenery | CutTheVerlet/GameScene.swift:68-101 | appends two unnamed nodes (background and water) and changes nothing else |
| Scene.GameScene.SetUpPrize | CutTheVerlet/GameScene.swift:103-128 | appends the unnamed prize node, records its index, and sets its dynamic flag from the start switch |
| Scene.GameScene.SetUpRopes | CutTheVerlet/GameScene.swift:132-172 | appends, rope by rope, the nodes of each rope named by its index |
| Scene.GameScene.SetUpCrocodile | CutTheVerlet/GameScene.swift:176-223 | appends the unnamed crocodile node and records its index |
| Scene.GameScene.TouchesBegan | CutTheVerlet/GameScene.swift:296-300 | the new state is `Began` of the old |
| Scene.GameScene.CheckIfRopeCut | CutTheVerlet/GameScene.swift:384-412 | removing the hit node and fading its rope in place gives `CutWith` of the old state |
| Scene.GameScene.CutAlongRay | CutTheVerlet/GameScene.swift:312-319 | resolving the reported bodies one by one gives `RayHits` of the old state |
| Scene.GameScene.TouchesMoved | CutTheVerlet/GameScene.swift:304-327 | the new state is `Moved` of the old, and the scene invariant is kept |
| Scene.GameScene.SwitchToNewGame | CutTheVerlet/GameScene.swift:414-424 | appends the transition to the requested ones and changes nothing else |
| Scene.GameScene.Update | CutTheVerlet/GameScene.swift:333-361 | the new state is `Updated` of the old, and the scene invariant is kept |
| Scene.GameScene.DidBeginContact | CutTheVerlet/GameScene.swift:363-382 | the new state is `Contacted` of the old, and the scene invariant is kept |
| Scene.GameScene.FinishFade | CutTheVerlet/GameScene.swift:404-408 | the new state is `FadeDone` of the old |

## Left out

- The physics engine: gravity, integration, collision and contact masks, and
  the ray cast itself. Ray hits and contact pairs are inputs.
- `RopeNode` (segment count, spacing, joints, `attachToPrize`): it is not part
  of this model. Only the number of nodes each rope adds is an input.
- Geometry in `CGFloat`: anchor scaling by the view bounds and screen scale,
  the prize and crocodile positions, and scenery sizes. This is display glue.
- Loading the rope data from the property list (file I/O). The rope data is
  given as a sequence.
- Audio: the background music player and the sound actions.
- Animations and effects with no effect on the rules: crocodile mouth
  cycling with random timing, the nom-nom animation, the colour flash, and
  the particles the emitters show.
- The prize's removal after a capture (GameScene.swift:271-274): the shrink
  ends with `removeFromParent`, but the model keeps the prize node present.
  This has no effect on the rules, because `levelOver` is already set and
  every later check returns at once.
- The timing of fades and of the 1-second transition delay. A fade's end is
  the separate event `FinishFade`. A transition is recorded as requested,
  and presenting the new scene is out of scope. A new level is a new
  `GameScene`.
- Swift's `UInt32` conversion of the transition count. The count is 12, so
  nothing is truncated.
