# City driving games: car, pedestrians and the two game modes

This project models the core of two Three.js browser games. They share one city and one
car.

- Kill mode (`public/main1.js`): the car runs over pedestrians for points.
- Mission mode (`src/main.js`): the car drives from one corner of the city to the other.

The model keeps the imperative shape of the scripts:

- Module-level variables and the `Pedestrian` objects are Dafny classes whose methods
  update their fields in place.
- Every method is proved equal to a pure specification function on a snapshot of the
  state (`Car.State()`, `Pedestrian.View()`, `Mission.Game.View()`).
- The games' properties are lemmas about those functions.

Modules:

- `Effects` (effects.dfy): the three timed effect lists, each entry a creation time and
  a lifetime.
  - Tire marks are capped at 300: the oldest are shifted out.
  - The reverse-index sweeps of `updateTireMarks` and `updateDebrisParticles` splice out
    every expired entry.
  - The collision, building-damage and blood-stain spawners append a fixed number of
    entries per damage tier.
- `Vehicle` (vehicle.dfy): one `updateCar` tick of the car, shared by both games.
  - Pedals, clamp and steering; the drift model; the tire-mark counter.
  - The edge-triggered collision gate with its 500 ms cooldown (16 per tick).
  - The damage table; the disabled latch; the restart.
- `Sidewalk` (sidewalk.dfy): the road grid, the sidewalk points a pedestrian draws, and
  `isValidPosition`.
- `Pedestrians` (pedestrians.dfy):
  - the `Pedestrian` state machine (walking, idle, turning, falling);
  - `activateRagdoll`, `cleanupRagdoll` and `remove`;
  - the `activeRagdolls` registry, capped at five.
- `KillMode` (kill_mode.dfy): kill mode's `updateCar`.
  - The car tick; the hit loop, which scores 10 points per kill and turns the victim
    into a ragdoll; the fallen-body sweep with respawn.
  - One `animate` frame: every pedestrian's `update`, then `updateCar`, then the effect
    sweeps.
  - The start-up spawn and the key-R restart.
  - A ghost set of the pedestrians killed since the last restart carries the scoring
    invariant: score is ten times the kill count, which is the number of distinct
    pedestrians killed.
- `Mission` (mission.dfy): mission mode's `updateCar` with the `missionComplete` latch,
  `checkEndPoint`, one `animate` frame, and the key-R restart.

Everything the scripts read from Three.js, cannon-es, the keyboard, `Math.random()` and
`Date.now()` is a parameter:

- the car's position after `translateZ` and the slide;
- whether the car's box overlaps a building, a wall or a pedestrian;
- the distance moved this frame;
- the random draws, each in [0, 1);
- the current time in milliseconds.

Behaviour of the code that the proofs bring out:

- A killed pedestrian is never marked as a fallen body. `activateRagdoll` clears
  `isAlive`, and `update` returns early for a pedestrian that is not alive, so
  `handleFallingState` never runs (`RagdollNeverSettles`). The fallen-body sweep of kill
  mode therefore never finds a body; on a valid game it changes nothing
  (`KillMode.Game.Sweep`).
- A point drawn on a sidewalk is 23 from its own road line, outside the 7.5–15.5 band of
  `isValidPosition`. Such a point passes only when its coordinate along the sidewalk
  falls near a crossing road (`CandidateValidIff`).
- In mission mode a collision never ends the mission. The comment on `missionComplete`
  says otherwise. `hasHitBuilding` is never set (`TickKeepsFlags`).
- Both restarts keep the tire marks, the drift state, the steering angle and the
  tire-mark counter (`KillMode.Game.Restart`, `Mission.Restarted`).
- Holding both steering keys cancels the turn, but the steering angle is the right
  key's, so a drift still builds (`BothSteeringKeys`).

## Model

| member | source | states |
|---|---|---|
| Effects.Survivors | public/main1.js:1887-1905 | the tire-mark sweep keeps no expired entry and never grows the list |
| Effects.SurvivorsExactly | public/main1.js:1818-1885 | an entry survives a sweep exactly when it was on the list and is not older than its lifetime |
| Effects.SurvivorsAppend | src/main.js:1028-1115 | sweeping a concatenation sweeps each part, so survivors keep their relative order |
| Effects.SweepIdempotent | src/main.js:1097-1115 | a second sweep at the same time removes nothing more |
| Effects.Newest | public/main1.js:1552-1557 | shifting while more than the cap remain leaves the last min(n, cap) entries |
| Effects.NewestKeepsAppended | src/main.js:816-838 | capping after the push keeps the newly pushed pair; only the oldest marks are dropped |
| Effects.Sparks | public/main1.js:1569-1613 | one spark per draw, created now, lifetime in [2000, 3000) |
| Effects.CollisionDebrisCount | public/main1.js:1561-1643 | a damaging hit appends 15, 29 or 43 debris entries for the minor, medium or severe tier: sparks, 5 dust puffs, 0/4/8 building debris |
| Effects.StainCount | public/main1.js:1647-1651 | a kill lays between 3 and 5 blood stains |
| Effects.EffectList.DropOldest | public/main1.js:1552-1557 | the shift loop leaves the list capped as `Newest` says |
| Effects.EffectList.Sweep | public/main1.js:1891-1904 | the reverse-index splice loop leaves exactly the survivors, in order |
| Effects.CreateTireMark | public/main1.js:1505-1558 | two marks are pushed, the list is then capped at 300 and never exceeds it |
| Effects.SpawnDamageEffects | public/main1.js:1752-1815 | the debris list gains the tier's sparks, dust and debris; the marker list gains one crack of lifetime 10000 |
| Vehicle.Throttle | public/main1.js:1290-1304 | the speed after the pedals is clamped to [-1.5, 1.5] and unchanged when already inside |
| Vehicle.BothSteeringKeys | public/main1.js:1294-1301 | both steering keys leave the heading unchanged while the steering angle is the right key's |
| Vehicle.DriftStep | public/main1.js:1307-1329 | drifting exactly above intensity 0.3; intensity stays in [0, 1], grows while sliding and is multiplied by the decay factor 0.95 otherwise; the slide direction opposes the steering; lateral speed stays within 0.1725 |
| Vehicle.TireTimerStep | public/main1.js:1331-1339 | a mark is emitted only on a positive multiple of three; the counter resets exactly when the car is not drifting above half speed |
| Vehicle.MarksEveryThirdTick | src/main.js:678-686 | over n qualifying ticks the marks emitted are (t + n) / 3 - t / 3, one pair every third tick |
| Vehicle.DamageFor | public/main1.js:1385-1401 | tiers 0–3 with damage 0, 5, 15, 30 |
| Vehicle.DamageTierCountsThresholds | src/main.js:733-745 | the tier is the number of thresholds (0.3, 0.7, 1.2) the impact speed reaches |
| Vehicle.DamageMonotone | public/main1.js:1389-1401 | a harder impact never gives a lower tier or less damage |
| Vehicle.InitialIsSane | public/main1.js:1236-1270 | the start-up state satisfies the car invariant |
| Vehicle.TickKeepsSane | public/main1.js:1271-1502 | every tick keeps the invariant: speed, drift intensity and lateral speed bounded, health in [0, 100], disabled exactly at health 0, damage tier at most 3 |
| Vehicle.RestartIsSane | public/main1.js:2107-2158 | the restart keeps the car invariant |
| Vehicle.GateOpensExactly | public/main1.js:1376-1377 | a hit goes through exactly when the car overlaps an obstacle, was not already colliding and the decremented cooldown has run out |
| Vehicle.HitEffects | public/main1.js:1403-1434 | without a hit, health and damage are unchanged; with one, the cooldown is 500, `isColliding` is set, the car is back at its old position at height 1 and its speed is the post-input speed times −0.3 when the car is still running and exactly 0 when the hit disabled it |
| Vehicle.DamageOnlyAccumulates | src/main.js:720-778 | the damage level never drops, health never rises and is floored at 0, health 0 means disabled |
| Vehicle.DisabledIsLatched | public/main1.js:1275-1278 | a disabled car's tick only zeroes the velocity and emits nothing |
| Vehicle.NoDoubleDamage | public/main1.js:1424-1427 | the tick after a hit cannot hit again, whatever the car overlaps |
| Vehicle.CooldownCountsDown | public/main1.js:1281-1283 | n ticks after a hit the cooldown is 500 − 16n, for n up to 31, and for n below 31 it is still above 16, so the gate stays shut |
| Vehicle.CoolingRun | public/main1.js:1281-1377 | while the cooldown outlasts a run of ticks, none of them gets a hit through whatever the car overlaps, the cooldown is `CooldownAfter` of the ticks and health is kept |
| Vehicle.GateShutAfterHit | public/main1.js:1376-1427 | after a hit that leaves the car running, the next 31 ticks get no hit through and leave the cooldown at `CooldownAfter(500, n)` = 500 - 16n; after 31 it is at most 16, so the 32nd tick can hit |
| Vehicle.SevereHitScenario | public/main1.js:1389-1421 | a full-speed head-on hit at 100 health leaves 70 health, tier 3, speed -0.45 |
| Vehicle.LastMinorHitDisables | src/main.js:741-754 | a minor hit at 5 health leaves health 0, the car disabled and stopped |
| Vehicle.Car.constructor | public/main1.js:1242-1270 | the car variables start at zero speed, full health, no damage, not disabled |
| Vehicle.Car.Stop | public/main1.js:1275-1278 | only the velocity is zeroed |
| Vehicle.Car.Drive | src/main.js:627-783 | the statements of the tick produce exactly `DriveStep`'s state, tire-mark flag, hit flag and effect tier |
| Vehicle.Car.ApplyControls | public/main1.js:1280-1304 | cooldown decrement, steering, heading and clamped speed as `Controls` gives them |
| Vehicle.Car.ApplySlide | public/main1.js:1306-1339 | drift fields and the tire-mark counter as `Slide` gives them |
| Vehicle.Car.ApplyCollision | public/main1.js:1376-1434 | the collision gate and the ground clamp as `Collide` gives them |
| Vehicle.Car.Restart | src/main.js:1424-1463 | start pose, zero speed, full health, no damage, not disabled, no cooldown, not colliding; everything else kept |
| Sidewalk.Round | public/main1.js:793-794 | `Math.round` lands within half a unit, halves rounding up |
| Sidewalk.RoadIndex | public/main1.js:753-754 | the drawn road index is one of the 7 road lines |
| Sidewalk.FirstValid | public/main1.js:746-770 | the first attempt among ten whose point passes, every earlier one failing |
| Sidewalk.ChosenTargetValidOrStay | public/main1.js:740-779 | the new target is valid, or it is the current position and all ten attempts failed |
| Sidewalk.NearestRoadIsNearest | public/main1.js:793-798 | the rounded grid index names the nearest road line, at most half a block away |
| Sidewalk.BandOfAnyRoad | public/main1.js:800-802 | a point in the band of any road line is in the band of the nearest one |
| Sidewalk.ValidPositionIff | public/main1.js:781-805 | `isValidPosition` holds exactly inside the city and in the band of some road line on one axis |
| Sidewalk.OffsetIsOutsideBand | public/main1.js:757-765 | a sidewalk coordinate is exactly 23 from the nearest road line, outside the band |
| Sidewalk.CandidateValidIff | public/main1.js:756-770 | a drawn point passes exactly when inside the city with its along-sidewalk coordinate in a crossing road's band |
| Sidewalk.OuterSidewalkOutsideCity | public/main1.js:757-765 | points on the outer side of the first and of the last road line never pass |
| Pedestrians.ImpactMagnitude | public/main1.js:1001-1002 | the impact force is the larger of 5 and 12 times the car's speed: at least both, and equal to one of them |
| Pedestrians.ImpactScenarios | public/main1.js:1001-1002 | a hit at 0.6 per frame in either direction gives force 7.2; one at 0.25 gives the floor of 5 |
| Pedestrians.SpawnedIsValid | public/main1.js:588-705 | a new pedestrian has no ragdoll and a base speed in [0.08, 0.15) |
| Pedestrians.DeadIsFrozen | public/main1.js:807-808 | `update` on a dead pedestrian changes nothing |
| Pedestrians.UpdateKeepsValid | public/main1.js:807-833 | `update` keeps the ragdoll-handle invariant and never touches life, ragdoll, death time or the fallen flag |
| Pedestrians.UpdateKeepsFlags | public/main1.js:807-833 | for a pedestrian that has no ragdoll while alive, `update` keeps the life, ragdoll and fallen flags |
| Pedestrians.DeadStaysFrozen | public/main1.js:807-808 | a dead pedestrian stays exactly as it is over any run of updates |
| Pedestrians.RagdollNeverSettles | public/main1.js:983-987 | after `activateRagdoll`, no run of updates marks the body fallen or leaves the falling state |
| Pedestrians.IdlePause | public/main1.js:904-909 | `transitionToIdle` stops the pedestrian for a pause in [2, 5) |
| Pedestrians.IdleEndsWhenPauseElapsed | public/main1.js:879-895 | an idle pedestrian walks again, at base speed towards a newly chosen target, exactly when the pause has elapsed; until then it stays put |
| Pedestrians.TurningEndsAfterPause | public/main1.js:897-902 | a turning pedestrian walks again exactly once more than 0.3 s have passed |
| Pedestrians.ArrivalPausesOrRetargets | public/main1.js:841-848 | within 2 of the target it does not move, pauses exactly on a draw below 0.15, and otherwise takes the chosen new target |
| Pedestrians.WalkingApproachesTarget | public/main1.js:849-855 | away from the target a step of `speed` along the unit vector leaves it exactly `speed` closer |
| Pedestrians.ActivatedIsRagdoll | public/main1.js:983-1101 | `activateRagdoll` on a living pedestrian leaves a dead, stopped, falling ragdoll with two bodies and force at least 5 |
| Pedestrians.CleanupIsIdempotent | public/main1.js:1104-1124 | cleanup does nothing without a ragdoll, tears it down and removes the pedestrian otherwise, and a second call does nothing |
| Pedestrians.Admit | public/main1.js:1089-1097 | the registry ends with the new ragdoll, holds at most five, grows by one below the cap, and gains nobody else |
| Pedestrians.AdmitKeepsNewest | public/main1.js:1089-1097 | admitting keeps the newest five; exactly the oldest is evicted when the registry was full |
| Pedestrians.AdmitKeepsOthers | public/main1.js:1092-1096 | every entry but the evicted one stays in the registry |
| Pedestrians.CleanedUpActivated | public/main1.js:1104-1124 | a ragdoll cleaned up right after `activateRagdoll` made it is dead, stopped, falling, out of the scene, with no handles |
| Pedestrians.Pedestrian.constructor | public/main1.js:588-705 | the new pedestrian is walking from its spawn point at its drawn speed towards the chosen target |
| Pedestrians.Pedestrian.SelectNewTarget | public/main1.js:740-779 | the up-to-ten-attempt loop sets the target `ChosenTarget` gives and nothing else |
| Pedestrians.Pedestrian.TransitionToIdle | public/main1.js:904-909 | the state becomes idle with a drawn pause and zero speed |
| Pedestrians.Pedestrian.TransitionToWalking | public/main1.js:911-921 | walking at base speed with a newly chosen target |
| Pedestrians.Pedestrian.TransitionToTurning | public/main1.js:923-926 | the state becomes turning with its timer reset |
| Pedestrians.Pedestrian.HandleWalking | public/main1.js:835-877 | arrival, stepping and wandering as `WalkStep` gives them |
| Pedestrians.Pedestrian.HandleIdle | public/main1.js:879-895 | fidget and end of pause as `IdleStep` gives them |
| Pedestrians.Pedestrian.HandleTurning | public/main1.js:897-902 | the end of the turn as `TurningStep` gives it |
| Pedestrians.Pedestrian.HandleFalling | public/main1.js:951-981 | the first settling of the torso marks the body fallen at `now` |
| Pedestrians.Pedestrian.Update | public/main1.js:807-833 | the early return, both timers, then the state's handler, as `Updated` gives them |
| Pedestrians.Pedestrian.ActivateRagdoll | public/main1.js:983-1101 | the pedestrian becomes the `Activated` ragdoll, the registry is `Admit`ted, and only an evicted other pedestrian is cleaned up |
| Pedestrians.Pedestrian.Register | public/main1.js:1089-1097 | push, shift on overflow, and cleanup of the shifted entry unless it is this pedestrian |
| Pedestrians.Pedestrian.CleanupRagdoll | public/main1.js:1104-1124 | the pedestrian becomes `CleanedUp`: handles dropped, not alive, out of the scene |
| Pedestrians.Pedestrian.Remove | public/main1.js:1126-1134 | not alive and out of the scene; nothing else changes |
| KillMode.Newcomer | public/main1.js:1164-1189 | a spawned pedestrian is alive, in the scene, walking, with no ragdoll and no fallen body |
| KillMode.VictimsExactly | public/main1.js:1439-1444 | a pedestrian is killed by the hit loop exactly when it was alive and overlapped |
| KillMode.VictimsCounted | public/main1.js:1446 | the kills counted equal the number of distinct pedestrians killed |
| KillMode.KillStainsCount | public/main1.js:1449-1451 | the loop lays between 3 and 5 stains per kill |
| KillMode.VictimOrderLists | public/main1.js:1439-1456 | the order in which the hit loop activates ragdolls, from the last index to the first, holds exactly the victims, as many as the kills counted |
| KillMode.AdmitAllKeepsNewest | public/main1.js:1089-1097 | admitting a run of ragdolls one by one leaves the newest five of the old registry followed by the run |
| KillMode.HitsStrike | public/main1.js:1455 | a strike in the hit loop extends the registry by one `Admit`, gives the victim its `Activated` view, and cleans up only the entry it evicts |
| KillMode.KeptExactly | public/main1.js:1465-1474 | the sweep keeps exactly the pedestrians that are not corpses |
| KillMode.KeptAllWithoutCorpses | public/main1.js:1467 | with no corpse the sweep keeps everyone, in order |
| KillMode.SpawnPedestrians | public/main1.js:1164-1192 | one new, distinct pedestrian per spawn, in order |
| KillMode.ClearCorpse | public/main1.js:1469-1473 | a swept body is cleaned up when it has a ragdoll and removed otherwise |
| KillMode.Game.ActiveRagdollsBounded | public/main1.js:127 | at most five pedestrians hold live ragdolls at any time |
| KillMode.Game.constructor | public/main1.js:1193-1194 | empty lists, the car at the centre, 25 spawned pedestrians, score and kills zero, invariant established |
| KillMode.Game.Kill | public/main1.js:1445-1456 | one kill: ten points, one more kill, the stains laid, the victim a falling ragdoll at `now` with its `Activated` view, the registry `Admit`ted, only the evicted entry cleaned up, nobody else's life or state changed |
| KillMode.Game.Tally | public/main1.js:1446-1451 | one more kill, ten more points, the kill's blood stains appended; the victim joins the killed set and the score stays ten points per kill |
| KillMode.Game.Strike | public/main1.js:1455 | `activateRagdoll` on a living pedestrian keeps the registry and pedestrian invariants, admits the victim and changes nobody's life but the victim's |
| KillMode.Game.Ragdoll | public/main1.js:1455 | the victim's view becomes `Activated`, the registry `Admit`s it, the evicted entry is cleaned up and every other view is unchanged; nobody else's life or state changes, no fallen flag changes, and the only active ragdolls are the victim's and those still on the registry |
| KillMode.Game.HitPedestrians | public/main1.js:1436-1462 | the victims are exactly the alive and hit pedestrians; kills, score and stains follow; the others keep their life flag; the registry is the old one with the victims admitted from the last index to the first; a victim's view is `Activated`, or discarded when a later hit of the same loop evicted it; an evicted bystander is cleaned up; every other view is unchanged |
| KillMode.Game.UpdatePedestrians | public/main1.js:1436-1496 | the hit loop's kills, stains, registry and views, and the sweep changes nothing more |
| KillMode.Game.SweepFallen | public/main1.js:1464-1496 | the kept pedestrians in order, then one fresh living pedestrian per cleared corpse, whose view is the `Respawned` newcomer drawn for that corpse; cleared bodies cleaned up, others untouched |
| KillMode.Game.SpliceRespawn | public/main1.js:1467-1491 | the corpse at index k is cleaned up, spliced out, and a fresh `Newcomer` drawn with the given spawn is pushed at the end |
| KillMode.CorpseIndices | public/main1.js:1465-1467 | the corpse indices from `i` on, each a corpse, strictly decreasing (the loop runs from the end), and every corpse listed |
| KillMode.RespawnedFromCorpses | public/main1.js:1465-1491 | the m-th newcomer of the sweep is `Newcomer(spawns[c])` for the m-th corpse index `c` counting down, and there are as many newcomers as corpses |
| KillMode.Game.Sweep | public/main1.js:1465-1467 | on a valid game the sweep finds no fallen body and changes nothing |
| KillMode.Game.UpdateCar | public/main1.js:1271-1502 | the car follows `Tick`; tire marks, cracks, debris, stains, kills and score follow it; a disabled car leaves the registry and every pedestrian view unchanged; a running one admits the victims and changes the views as the hit loop does; the invariant is kept |
| KillMode.Game.Drive | public/main1.js:1280-1496 | a running car: `DriveStep`, its effects, then the hit loop's kills, registry and views |
| KillMode.Game.UpdatePedestrianStates | public/main1.js:2189 | every pedestrian's view becomes `Updated`, in list order; nobody's life flag changes; the invariant is kept |
| KillMode.Game.SweepEffects | public/main1.js:1818-1905 | the tire marks, debris and damage markers lose exactly their expired entries |
| KillMode.Game.CarAndEffects | public/main1.js:2190-2194 | `updateCar` followed by the sweeps: the lists `updateCar` leaves, swept at `now` |
| KillMode.Game.Animate | public/main1.js:2179-2198 | one frame: the pedestrians updated, then `updateCar` on the updated views (registry, victims and evictions as the hit loop gives them), then the three lists swept; the invariant is kept |
| KillMode.Game.Restart | public/main1.js:2106-2160 | only key R on a disabled car restarts: car reset, score and kills zero, debris and markers cleared; tire marks and pedestrians kept |
| Mission.InitialInv | src/main.js:545-611 | the start-up state satisfies the mission invariant and is not complete |
| Mission.TickedKeepsInv | src/main.js:613-784 | the mission-mode tick keeps the car invariant, the 300-mark cap and a stopped car once complete |
| Mission.StepKeepsInv | src/main.js:1486-1496 | a whole `animate` frame keeps the invariant |
| Mission.RestartKeepsInv | src/main.js:1419-1471 | the restart keeps the invariant |
| Mission.TickKeepsFlags | src/main.js:622-625 | the tick never changes `missionComplete` or `hasHitBuilding`: a collision does not end the mission |
| Mission.CompleteFreezesTick | src/main.js:616-625 | after completion a tick only zeroes a disabled car's velocity; no mark, debris or crack appears |
| Mission.CheckedLatches | src/main.js:1402-1416 | complete afterwards exactly when complete before or within 30 of the end; a newly finished car is stopped; a second check changes nothing |
| Mission.StartIsFarFromEnd | src/main.js:545-548 | the start corner is not within 30 of the end |
| Mission.RestartAcceptedIff | src/main.js:1419-1471 | accepted exactly on key R with the mission complete or the car disabled; gives a fresh drivable run at the start with tire marks kept; otherwise nothing changes |
| Mission.ReachingEndCompletes | src/main.js:1486-1492 | a frame whose tick leaves the car within 30 of the end completes the mission and stops the car |
| Mission.CompleteStep | src/main.js:1486-1496 | a frame of a finished mission leaves the car unchanged and only expires list entries |
| Mission.CompleteIsFinal | src/main.js:1486-1496 | after completion, no run of frames changes the car or clears the flag |
| Mission.Game.constructor | src/main.js:545-611 | the script's start-up state with the car at the start corner |
| Mission.Game.UpdateCar | src/main.js:613-784 | the two early returns, then the drive, as `Ticked` gives them; the invariant is kept |
| Mission.Game.Drive | src/main.js:627-783 | car tick, tire marks and damage effects as `Driven` gives them |
| Mission.Game.SweepEffects | src/main.js:1028-1115 | the three lists lose exactly their expired entries |
| Mission.Game.CheckEndPoint | src/main.js:1402-1416 | the squared-distance test, the latch and the stop, as `Checked` gives them |
| Mission.Game.Animate | src/main.js:1486-1496 | one frame is `Step`: tick, sweeps, end check; the invariant is kept |
| Mission.Game.Restart | src/main.js:1419-1471 | the key-R handler as `Restarted` gives it; the invariant is kept |

## Left out

- Scene graph, meshes, materials, textures, model loading, audio, HUD, mini-map, camera and rendering: they hold no game state the model tracks.
- Physics of cannon-es: ragdoll bodies are opaque handles; whether a torso has settled is an input.
- Car geometry: `translateZ`, the lateral slide and box intersections are inputs (the moved position, the `collided` flag, per-pedestrian hit flags). The slide's `> 0.001` test is folded into the moved position. Car rotation is kept only as a heading number; the tilt and scale reset on restart are visual.
- Particle motion, fading, opacity and the positions of stains, sparks and cracks: only each entry's creation time and lifetime are kept. `applyCarDamage` only recolours and deforms the mesh.
- `Date.now()` is one `now` per frame, although the source reads the clock several times in a frame.
- `Pedestrians.WalkingApproachesTarget`: the distance `Math.sqrt(dx * dx + dz * dz)` and the wrapped turn angle are inputs. Only this lemma assumes that the distance squared equals the squared offset; no other member relies on it.
- `Mission.AtEnd`: `Math.sqrt(d) < 30` is stated as `d < 900`; the two agree for non-negative `d`.
- The `if (!car) return` guards: the model starts after the car model has loaded.
- `Pedestrian.respawn()` and `switchAnimation`: nothing calls `respawn`, and animations are visual.
- `physicsWorld.step`, `updateCamera`, `updateHUD`, `updateMiniMap` and the render call of kill mode's `animate`: the physics is an input and the rest is display.
- Floating-point rounding: every quantity is a mathematical real.
