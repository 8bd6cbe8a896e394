/** The pedestrians of kill mode: the `Pedestrian` class with its walking state machine,
    its ragdoll bookkeeping, and the `activeRagdolls` registry that caps how many ragdolls
    are simulated at once. Physics bodies are opaque handles; everything a pedestrian's
    handlers read from Three.js, cannon-es or `Math.random()` is an input. */
module Pedestrians {
  import Sidewalk
  import Effects

  const MinWalkSpeed: real := 0.08
  const WalkSpeedRange: real := 0.07
  const ArrivalDistance: real := 2.0
  const PauseChance: real := 0.15
  const TurnRate: real := 0.15
  const WanderAfter: real := 3.0
  const WanderChance: real := 0.01
  const FidgetChance: real := 0.005
  const FidgetRange: real := 0.3
  const MinPause: real := 2.0
  const PauseRange: real := 3.0
  const TurningTime: real := 0.3
  const ImpactScale: real := 12.0
  const MinImpact: real := 5.0
  const TorsoMass: real := 70.0
  const HeadMass: real := 5.0
  const MaxActiveRagdolls: nat := 5

  datatype PedState = Walking | Idle | Turning | Falling

  datatype Option<T> = None | Some(value: T)

  /** A cannon-es body handle. */
  class Body {
    const mass: real

    constructor (mass: real)
      ensures this.mass == mass
    {
      this.mass := mass;
    }
  }

  /** The neck's point-to-point constraint between the torso and the head. */
  class Joint {
    const torso: Body
    const head: Body

    constructor (torso: Body, head: Body)
      ensures this.torso == torso && this.head == head
    {
      this.torso := torso;
      this.head := head;
    }
  }

  /** Snapshot of a pedestrian's fields (`x`, `z` and `heading` are the mesh's position
      and `rotation.y`; `inScene` is whether the mesh is in the scene). */
  datatype PedView = PedView(
    x: real, z: real, heading: real,
    speed: real, baseSpeed: real,
    targetX: real, targetZ: real,
    isAlive: bool, inScene: bool,
    state: PedState, stateTimer: real, pauseDuration: real, sinceDirectionChange: real,
    deathTime: int, fallenBody: bool,
    ragdollActive: bool, torso: Body?, head: Body?, neck: Joint?, bodies: seq<Body>,
    impactForce: Option<real>)

  /** What one call of `update` reads besides the pedestrian: the handler's first and
      second `Math.random()`, the draws of a `selectNewTarget` it may run, the distance
      `Math.sqrt(dx * dx + dz * dz)` to the target, the wrapped angle to the target, the
      target nudge `(sin a * 5, cos a * 5)` of a random wander, and whether the torso
      body has come to rest (speed below 0.5 and height below 1.5). */
  datatype PedInput = PedInput(
    chance: real, amount: real, attempts: seq<Sidewalk.Attempt>,
    distance: real, turn: real, nudgeX: real, nudgeZ: real, settled: bool)

  predicate AttemptsOk(attempts: seq<Sidewalk.Attempt>) {
    Sidewalk.MaxAttempts <= |attempts| && forall i :: 0 <= i < |attempts| ==> Sidewalk.Draws(attempts[i])
  }

  /** The draws of the input lie in [0, 1), as `Math.random()` gives them. */
  predicate InputOk(input: PedInput) {
    && 0.0 <= input.chance < 1.0 && 0.0 <= input.amount < 1.0
    && AttemptsOk(input.attempts)
  }

  /** The distance of the input is `Math.sqrt` of the squared offset to the target. */
  predicate DistanceFits(v: PedView, input: PedInput) {
    && input.distance >= 0.0
    && input.distance * input.distance
       == (v.targetX - v.x) * (v.targetX - v.x) + (v.targetZ - v.z) * (v.targetZ - v.z)
  }

  /** The ragdoll handles agree with `ragdollActive`, a ragdoll is always a dead, falling
      pedestrian, and the base speed lies in [0.08, 0.15). */
  predicate Consistent(ragdollActive: bool, torso: Body?, head: Body?, neck: Joint?, bodies: seq<Body>,
                       isAlive: bool, state: PedState, baseSpeed: real) {
    && (ragdollActive ==>
          torso != null && head != null && neck != null && bodies == [torso, head] && !isAlive && state == Falling)
    && (!ragdollActive ==> torso == null && head == null && neck == null && bodies == [])
    && MinWalkSpeed <= baseSpeed < MinWalkSpeed + WalkSpeedRange
  }

  predicate ValidView(v: PedView) {
    Consistent(v.ragdollActive, v.torso, v.head, v.neck, v.bodies, v.isAlive, v.state, v.baseSpeed)
  }

  /** The constructor before its `selectNewTarget`: walking towards its own position at
      a speed drawn in [0.08, 0.15). */
  function Spawned(x: real, z: real, speedDraw: real): PedView {
    var speed := MinWalkSpeed + speedDraw * WalkSpeedRange;
    PedView(x, z, 0.0, speed, speed, x, z, true, true, Walking, 0.0, 0.0, 0.0, 0, false,
            false, null, null, null, [], None)
  }

  /** `selectNewTarget`. */
  function Retargeted(v: PedView, attempts: seq<Sidewalk.Attempt>): PedView
    requires AttemptsOk(attempts)
  {
    Aimed(v, Sidewalk.ChosenTarget(attempts, Sidewalk.Point(v.x, v.z)))
  }

  function Aimed(v: PedView, t: Sidewalk.Point): PedView {
    v.(targetX := t.x, targetZ := t.z)
  }

  function ToIdle(v: PedView, draw: real): PedView {
    v.(state := Idle, stateTimer := 0.0, pauseDuration := MinPause + draw * PauseRange, speed := 0.0)
  }

  function ToWalking(v: PedView, attempts: seq<Sidewalk.Attempt>): PedView
    requires AttemptsOk(attempts)
  {
    Retargeted(Started(v), attempts)
  }

  /** `transitionToWalking` before its `selectNewTarget`. */
  function Started(v: PedView): PedView {
    v.(state := Walking, stateTimer := 0.0, speed := v.baseSpeed)
  }

  function ToTurning(v: PedView): PedView {
    v.(state := Turning, stateTimer := 0.0)
  }

  /** `handleWalkingState`: within 2 of the target, pause (15%) or pick a new target;
      otherwise step towards it, then maybe wander. */
  function WalkStep(v: PedView, input: PedInput): PedView
    requires InputOk(input)
  {
    if input.distance < ArrivalDistance then
      if input.chance < PauseChance then ToIdle(v, input.amount) else Retargeted(v, input.attempts)
    else Wandered(Advanced(v, input), input)
  }

  /** The step of `handleWalkingState`: `speed` along the offset to the target divided
      by the distance, and a turn 15% of the way to face it. */
  function Advanced(v: PedView, input: PedInput): PedView
    requires input.distance >= ArrivalDistance
  {
    var dx := v.targetX - v.x;
    var dz := v.targetZ - v.z;
    v.(x := v.x + dx / input.distance * v.speed, z := v.z + dz / input.distance * v.speed,
       heading := v.heading + input.turn * TurnRate)
  }

  /** After 3 seconds without a wander, the target is nudged with a 1% chance. */
  function Wandered(v: PedView, input: PedInput): PedView {
    if v.sinceDirectionChange > WanderAfter && input.chance < WanderChance then
      v.(targetX := v.targetX + input.nudgeX, targetZ := v.targetZ + input.nudgeZ, sinceDirectionChange := 0.0)
    else v
  }

  /** `handleIdleState`: a rare fidget, then back to walking once the pause is over. */
  function IdleStep(v: PedView, input: PedInput): PedView
    requires InputOk(input)
  {
    var turned := if input.chance < FidgetChance then v.(heading := v.heading + (input.amount - 0.5) * FidgetRange) else v;
    if turned.stateTimer >= turned.pauseDuration then ToWalking(turned, input.attempts) else turned
  }

  /** `handleTurningState`. */
  function TurningStep(v: PedView, input: PedInput): PedView
    requires InputOk(input)
  {
    if v.stateTimer > TurningTime then ToWalking(v, input.attempts) else v
  }

  /** `handleFallingState`: the first time the torso comes to rest the body is marked
      fallen and the time noted. */
  function FallingStep(v: PedView, input: PedInput, now: int): PedView {
    if v.ragdollActive && v.torso != null && input.settled && !v.fallenBody then
      v.(fallenBody := true, deathTime := now)
    else v
  }

  /** `update(deltaTime)`: nothing for a dead pedestrian; otherwise both timers advance
      and the handler of the current state runs. */
  function Updated(v: PedView, dt: real, input: PedInput, now: int): PedView
    requires InputOk(input)
  {
    if !v.isAlive then v else Handled(Ticked(v, dt), input, now)
  }

  /** Both timers of `update` advanced by the frame's delta time. */
  function Ticked(v: PedView, dt: real): PedView {
    v.(stateTimer := v.stateTimer + dt, sinceDirectionChange := v.sinceDirectionChange + dt)
  }

  /** The handler `update` runs for the current state. */
  function Handled(v: PedView, input: PedInput, now: int): PedView
    requires InputOk(input)
  {
    match v.state
    case Walking => WalkStep(v, input)
    case Idle => IdleStep(v, input)
    case Turning => TurningStep(v, input)
    case Falling => FallingStep(v, input, now)
  }

  /** `Math.max(Math.abs(carVelocity) * 12, 5)`: the larger of the scaled speed and the
      floor of 5. */
  function ImpactMagnitude(carSpeed: real): (m: real)
    ensures m >= MinImpact && m >= Sidewalk.Abs(carSpeed) * ImpactScale
    ensures m == MinImpact || m == Sidewalk.Abs(carSpeed) * ImpactScale
  {
    var s := if carSpeed < 0.0 then -carSpeed else carSpeed;
    if s * ImpactScale >= MinImpact then s * ImpactScale else MinImpact
  }

  /** A hit at 0.6 per frame, in either direction, throws the body with force 7.2; a
      slow hit gets the floor of 5. */
  lemma ImpactScenarios()
    ensures ImpactMagnitude(0.6) == 7.2 && ImpactMagnitude(-0.6) == 7.2
    ensures ImpactMagnitude(0.25) == MinImpact
  {
  }

  /** `activateRagdoll`'s own fields: falling, stopped, dead, a torso and a head body
      pushed onto `ragdollBodies`, a neck joint, the impact force, the time of death.
      The car's heading is not used. */
  function Activated(v: PedView, torso: Body, head: Body, neck: Joint, carSpeed: real, now: int): PedView {
    Died(Attached(Fallen(v, carSpeed), torso, head, neck), now)
  }

  /** The state, flags and impact force `activateRagdoll` sets. */
  function Fallen(v: PedView, carSpeed: real): PedView {
    v.(state := Falling, speed := 0.0, isAlive := false, ragdollActive := true,
       impactForce := Some(ImpactMagnitude(carSpeed)))
  }

  /** The torso, head and neck joint `activateRagdoll` creates. */
  function Attached(v: PedView, torso: Body, head: Body, neck: Joint): PedView {
    v.(torso := torso, head := head, neck := neck, bodies := v.bodies + [torso, head])
  }

  function Died(v: PedView, now: int): PedView {
    v.(deathTime := now)
  }

  /** `remove`. */
  function Removed(v: PedView): PedView {
    v.(isAlive := false, inScene := false)
  }

  /** `cleanupRagdoll`: nothing unless a ragdoll is active; then every handle is dropped
      and the pedestrian removed. */
  function CleanedUp(v: PedView): PedView {
    if !v.ragdollActive then v
    else Removed(Detached(v))
  }

  /** The ragdoll handles dropped by `cleanupRagdoll`. */
  function Detached(v: PedView): PedView {
    v.(neck := null, bodies := [], torso := null, head := null, ragdollActive := false)
  }

  /** A ragdoll `activateRagdoll` made and `cleanupRagdoll` dropped again: whichever
      bodies it was given are gone. */
  function Discarded(v: PedView, carSpeed: real, now: int): PedView {
    Removed(Detached(Died(Fallen(v, carSpeed), now)))
  }

  // ---- Properties of the pedestrian model ----

  /** Cleaning up a fresh ragdoll leaves the same pedestrian whatever bodies it had. */
  lemma CleanedUpActivated(v: PedView, torso: Body, head: Body, neck: Joint, carSpeed: real, now: int)
    ensures CleanedUp(Activated(v, torso, head, neck, carSpeed, now)) == Discarded(v, carSpeed, now)
  {
  }

  lemma SpawnedIsValid(x: real, z: real, speedDraw: real, attempts: seq<Sidewalk.Attempt>)
    requires 0.0 <= speedDraw < 1.0 && AttemptsOk(attempts)
    ensures ValidView(Retargeted(Spawned(x, z, speedDraw), attempts))
  {
  }

  /** A dead pedestrian's `update` changes nothing. */
  lemma DeadIsFrozen(v: PedView, dt: real, input: PedInput, now: int)
    requires InputOk(input) && !v.isAlive
    ensures Updated(v, dt, input, now) == v
  {
  }

  /** `update` keeps the handle invariant and never touches the ragdoll, the death time
      or `fallenBody`: a living pedestrian has no ragdoll, so the falling handler finds
      nothing to settle. */
  lemma UpdateKeepsValid(v: PedView, dt: real, input: PedInput, now: int)
    requires ValidView(v) && InputOk(input)
    ensures var r := Updated(v, dt, input, now);
      ValidView(r) && r.fallenBody == v.fallenBody && r.deathTime == v.deathTime
      && r.ragdollActive == v.ragdollActive && r.isAlive == v.isAlive && r.bodies == v.bodies
  {
    if v.isAlive {
      assert ValidView(Ticked(v, dt));
      HandledKeepsValid(Ticked(v, dt), input, now);
    }
  }

  /** `update` keeps the life, ragdoll and fallen-body flags of a pedestrian that has no
      ragdoll while it lives, whatever its handles. */
  lemma UpdateKeepsFlags(v: PedView, dt: real, input: PedInput, now: int)
    requires InputOk(input) && (v.isAlive ==> !v.ragdollActive)
    ensures var r := Updated(v, dt, input, now);
      r.isAlive == v.isAlive && r.ragdollActive == v.ragdollActive && r.fallenBody == v.fallenBody
  {
    if v.isAlive {
      var t := Ticked(v, dt);
      match t.state
      case Walking => assert Handled(t, input, now) == WalkStep(t, input);
      case Idle => assert Handled(t, input, now) == IdleStep(t, input);
      case Turning => assert Handled(t, input, now) == TurningStep(t, input);
      case Falling => assert Handled(t, input, now) == t;
    }
  }

  /** The handler step of a living pedestrian keeps the handle invariant. */
  lemma HandledKeepsValid(t: PedView, input: PedInput, now: int)
    requires ValidView(t) && t.isAlive && InputOk(input)
    ensures var r := Handled(t, input, now);
      ValidView(r) && r.fallenBody == t.fallenBody && r.deathTime == t.deathTime
      && r.ragdollActive == t.ragdollActive && r.isAlive == t.isAlive && r.bodies == t.bodies
  {
    match t.state
    case Walking => assert Handled(t, input, now) == WalkStep(t, input);
    case Idle => assert Handled(t, input, now) == IdleStep(t, input);
    case Turning => assert Handled(t, input, now) == TurningStep(t, input);
    case Falling => assert Handled(t, input, now) == t;
  }

  /** The draws of every input of a run of updates lie in [0, 1). */
  predicate RunFits(inputs: seq<PedInput>) {
    forall i :: 0 <= i < |inputs| ==> InputOk(inputs[i])
  }

  /** A run of updates, one per frame, each with its own delta time, input and clock. */
  function UpdatedRun(v: PedView, dt: seq<real>, inputs: seq<PedInput>, now: seq<int>): PedView
    requires |dt| == |inputs| == |now|
    requires RunFits(inputs)
    decreases |inputs|
  {
    if |inputs| == 0 then v
    else UpdatedRun(Updated(v, dt[0], inputs[0], now[0]), dt[1..], inputs[1..], now[1..])
  }

  /** A dead pedestrian stays exactly as it is over any run of updates. */
  lemma {:induction false} DeadStaysFrozen(v: PedView, dt: seq<real>, inputs: seq<PedInput>, now: seq<int>)
    requires |dt| == |inputs| == |now|
    requires RunFits(inputs) && !v.isAlive
    ensures UpdatedRun(v, dt, inputs, now) == v
    decreases |inputs|
  {
    if |inputs| > 0 {
      DeadIsFrozen(v, dt[0], inputs[0], now[0]);
      DeadStaysFrozen(v, dt[1..], inputs[1..], now[1..]);
    }
  }

  /** Once activated, a pedestrian never leaves the falling state and its body is never
      marked fallen, however many updates follow, so the fallen-body sweep of kill mode
      never selects it. */
  lemma RagdollNeverSettles(v: PedView, torso: Body, head: Body, neck: Joint, carSpeed: real, t: int,
                            dt: seq<real>, inputs: seq<PedInput>, now: seq<int>)
    requires !v.fallenBody
    requires |dt| == |inputs| == |now|
    requires RunFits(inputs)
    ensures var r := UpdatedRun(Activated(v, torso, head, neck, carSpeed, t), dt, inputs, now);
      r.state == Falling && !r.fallenBody && r.ragdollActive && !r.isAlive
  {
    DeadStaysFrozen(Activated(v, torso, head, neck, carSpeed, t), dt, inputs, now);
  }

  /** `transitionToIdle` stops the pedestrian for a pause in [2, 5). */
  lemma IdlePause(v: PedView, draw: real)
    requires 0.0 <= draw < 1.0
    ensures var r := ToIdle(v, draw);
      r.state == Idle && r.stateTimer == 0.0 && r.speed == 0.0 && MinPause <= r.pauseDuration < MinPause + PauseRange
  {
  }

  /** An idle pedestrian walks again, at its base speed towards a newly chosen target,
      exactly on the first update at which the pause has elapsed. */
  lemma IdleEndsWhenPauseElapsed(v: PedView, dt: real, input: PedInput, now: int)
    requires InputOk(input) && v.isAlive && v.state == Idle
    ensures var r := Updated(v, dt, input, now);
      (v.stateTimer + dt >= v.pauseDuration ==>
         r.state == Walking && r.stateTimer == 0.0 && r.speed == v.baseSpeed
         && Sidewalk.Point(r.targetX, r.targetZ) == Sidewalk.ChosenTarget(input.attempts, Sidewalk.Point(v.x, v.z)))
      && (v.stateTimer + dt < v.pauseDuration ==>
         r.state == Idle && r.stateTimer == v.stateTimer + dt && r.speed == v.speed
         && r.x == v.x && r.z == v.z && r.targetX == v.targetX && r.targetZ == v.targetZ)
  {
  }

  /** A turning pedestrian walks again once more than 0.3 s have passed in the state. */
  lemma TurningEndsAfterPause(v: PedView, dt: real, input: PedInput, now: int)
    requires InputOk(input) && v.isAlive && v.state == Turning
    ensures var r := Updated(v, dt, input, now);
      (v.stateTimer + dt > TurningTime ==> r.state == Walking && r.stateTimer == 0.0 && r.speed == v.baseSpeed)
      && (v.stateTimer + dt <= TurningTime ==> r.state == Turning && r.stateTimer == v.stateTimer + dt)
  {
  }

  /** On arrival a walking pedestrian either pauses or picks a new target; it does not
      move on that update. */
  lemma ArrivalPausesOrRetargets(v: PedView, dt: real, input: PedInput, now: int)
    requires InputOk(input) && v.isAlive && v.state == Walking && input.distance < ArrivalDistance
    ensures var r := Updated(v, dt, input, now);
      r.x == v.x && r.z == v.z
      && (r.state == Idle <==> input.chance < PauseChance)
      && (r.state == Idle || r.state == Walking)
      && (r.state == Idle ==> r.speed == 0.0 && MinPause <= r.pauseDuration < MinPause + PauseRange)
      && (r.state == Walking ==>
            Sidewalk.Point(r.targetX, r.targetZ) == Sidewalk.ChosenTarget(input.attempts, Sidewalk.Point(v.x, v.z)))
  {
  }

  /** Away from the target a walking pedestrian steps straight towards the (un-nudged)
      target: a step no longer than the distance leaves it exactly `speed` closer. */
  lemma {:induction false} WalkingApproachesTarget(v: PedView, dt: real, input: PedInput, now: int)
    requires InputOk(input) && DistanceFits(v, input) && v.isAlive && v.state == Walking && input.distance >= ArrivalDistance
    requires 0.0 <= v.speed <= input.distance
    ensures var r := Updated(v, dt, input, now);
      r.state == Walking
      && (v.targetX - r.x) * (v.targetX - r.x) + (v.targetZ - r.z) * (v.targetZ - r.z)
         == (input.distance - v.speed) * (input.distance - v.speed)
  {
    var r := Updated(v, dt, input, now);
    UpdatedWalkPosition(v, dt, input, now);
    Approach(v.targetX, v.targetZ, v.x, v.z, r.x, r.z, input.distance, v.speed);
  }

  /** Away from the target the walking update moves `speed` along the unit vector
      towards the target and stays in the walking state. */
  lemma UpdatedWalkPosition(v: PedView, dt: real, input: PedInput, now: int)
    requires InputOk(input) && v.isAlive && v.state == Walking && input.distance >= ArrivalDistance
    ensures var r := Updated(v, dt, input, now);
      r.state == Walking
      && r.x == v.x + (v.targetX - v.x) / input.distance * v.speed
      && r.z == v.z + (v.targetZ - v.z) / input.distance * v.speed
  {
  }

  /** The step of `WalkingApproachesTarget` with the pedestrian's fields named. */
  lemma Approach(tx: real, tz: real, x: real, z: real, rx: real, rz: real, d: real, s: real)
    requires d > 0.0 && d * d == (tx - x) * (tx - x) + (tz - z) * (tz - z)
    requires rx == x + (tx - x) / d * s && rz == z + (tz - z) / d * s
    ensures (tx - rx) * (tx - rx) + (tz - rz) * (tz - rz) == (d - s) * (d - s)
  {
    StepTowards(tx - x, tz - z, d, s);
    assert tx - rx == (tx - x) - (tx - x) / d * s;
    assert tz - rz == (tz - z) - (tz - z) / d * s;
  }

  /** Moving `s` along the unit vector of an offset of length `d` leaves an offset of
      length d - s. */
  lemma StepTowards(dx: real, dz: real, d: real, s: real)
    requires d > 0.0 && d * d == dx * dx + dz * dz
    ensures (dx - dx / d * s) * (dx - dx / d * s) + (dz - dz / d * s) * (dz - dz / d * s) == (d - s) * (d - s)
  {
    var k := 1.0 - s / d;
    assert dx - dx / d * s == k * dx;
    assert dz - dz / d * s == k * dz;
    assert k * d == d - s;
    calc {
      (k * dx) * (k * dx) + (k * dz) * (k * dz);
      k * k * (dx * dx + dz * dz);
      k * k * (d * d);
      (k * d) * (k * d);
    }
  }

  /** `activateRagdoll` on a living pedestrian leaves a valid falling ragdoll whose
      impact force is at least 5. */
  lemma ActivatedIsRagdoll(v: PedView, torso: Body, head: Body, neck: Joint, carSpeed: real, now: int)
    requires ValidView(v) && v.isAlive
    ensures var r := Activated(v, torso, head, neck, carSpeed, now);
      ValidView(r) && r.state == Falling && r.speed == 0.0 && !r.isAlive && r.ragdollActive
      && r.bodies == [torso, head] && r.impactForce.Some? && r.impactForce.value >= MinImpact
  {
  }

  /** `cleanupRagdoll` is a no-op without a ragdoll, tears everything down otherwise,
      and a second call does nothing. */
  lemma CleanupIsIdempotent(v: PedView)
    ensures var r := CleanedUp(v);
      CleanedUp(r) == r
      && (!v.ragdollActive ==> r == v)
      && (v.ragdollActive ==>
            !r.ragdollActive && r.bodies == [] && r.torso == null && r.head == null && r.neck == null
            && !r.isAlive && !r.inScene)
      && (!v.isAlive ==> !r.isAlive)
      && r.fallenBody == v.fallenBody && r.state == v.state && r.deathTime == v.deathTime
      && (ValidView(v) ==> ValidView(r))
  {
  }

  // ---- The active-ragdoll registry ----

  /** `activeRagdolls` after a push and at most one shift. */
  function Admit(entries: seq<Pedestrian>, p: Pedestrian): (r: seq<Pedestrian>)
    ensures |r| > 0 && r[|r| - 1] == p
    ensures |entries| <= MaxActiveRagdolls ==> |r| <= MaxActiveRagdolls
    ensures |entries| < MaxActiveRagdolls ==> |r| == |entries| + 1
    ensures forall q :: q in r ==> q in entries || q == p
  {
    var pushed := entries + [p];
    if |pushed| > MaxActiveRagdolls then pushed[1..] else pushed
  }

  /** The entry the shift drops: the oldest one when the push overflows, else none. */
  function Evicted(entries: seq<Pedestrian>): (r: seq<Pedestrian>)
    ensures |r| <= 1 && forall q :: q in r ==> q in entries
  {
    if |entries| + 1 > MaxActiveRagdolls then entries[..1] else []
  }

  /** Within the cap, admitting is keeping the newest five of the pushed list: exactly
      the oldest entry is dropped on overflow and the new one is never the one dropped. */
  lemma {:induction false} AdmitKeepsNewest(entries: seq<Pedestrian>, p: Pedestrian)
    requires |entries| <= MaxActiveRagdolls
    ensures Admit(entries, p) == Effects.Newest(entries + [p], MaxActiveRagdolls)
    ensures |Evicted(entries)| == 1 <==> |entries| == MaxActiveRagdolls
    ensures |Evicted(entries)| == 1 ==> Evicted(entries) == [entries[0]] && Admit(entries, p) == entries[1..] + [p]
    ensures Evicted(entries) == [] ==> Admit(entries, p) == entries + [p]
  {
    var pushed := entries + [p];
    if |pushed| > MaxActiveRagdolls {
      assert Effects.Newest(pushed, MaxActiveRagdolls) == pushed[1..];
      assert pushed[1..] == entries[1..] + [p];
    } else {
      assert Effects.Newest(pushed, MaxActiveRagdolls) == pushed;
    }
  }

  /** Entries other than the evicted one stay in the registry. */
  lemma AdmitKeepsOthers(entries: seq<Pedestrian>, p: Pedestrian, q: Pedestrian)
    requires q in entries && q !in Evicted(entries)
    ensures q in Admit(entries, p)
  {
    var i :| 0 <= i < |entries| && entries[i] == q;
    if |entries| + 1 > MaxActiveRagdolls {
      assert i > 0;
      assert Admit(entries, p)[i - 1] == q;
    }
  }

  class RagdollRegistry {
    var entries: seq<Pedestrian>

    constructor ()
      ensures entries == []
    {
      entries := [];
    }
  }

  class Pedestrian {
    var x: real
    var z: real
    var heading: real
    var speed: real
    const baseSpeed: real
    var targetX: real
    var targetZ: real
    var isAlive: bool
    var inScene: bool
    var state: PedState
    var stateTimer: real
    var pauseDuration: real
    var sinceDirectionChange: real
    var deathTime: int
    var fallenBody: bool
    var ragdollActive: bool
    var torsoBody: Body?
    var headBody: Body?
    var neckConstraint: Joint?
    var ragdollBodies: seq<Body>
    var impactForce: Option<real>

    function View(): PedView
      reads this
    {
      PedView(x, z, heading, speed, baseSpeed, targetX, targetZ, isAlive, inScene, state, stateTimer,
              pauseDuration, sinceDirectionChange, deathTime, fallenBody, ragdollActive, torsoBody,
              headBody, neckConstraint, ragdollBodies, impactForce)
    }

    predicate Valid()
      reads this
    {
      Consistent(ragdollActive, torsoBody, headBody, neckConstraint, ragdollBodies, isAlive, state, baseSpeed)
    }

    /** `new Pedestrian(x, z)`. */
    constructor (x0: real, z0: real, speedDraw: real, attempts: seq<Sidewalk.Attempt>)
      requires 0.0 <= speedDraw < 1.0 && AttemptsOk(attempts)
      ensures View() == Retargeted(Spawned(x0, z0, speedDraw), attempts)
      ensures Valid()
    {
      x, z, heading := x0, z0, 0.0;
      speed := MinWalkSpeed + speedDraw * WalkSpeedRange;
      baseSpeed := MinWalkSpeed + speedDraw * WalkSpeedRange;
      targetX, targetZ := x0, z0;
      isAlive, inScene := true, true;
      state, stateTimer, pauseDuration, sinceDirectionChange := Walking, 0.0, 0.0, 0.0;
      deathTime, fallenBody := 0, false;
      ragdollActive, torsoBody, headBody, neckConstraint, ragdollBodies := false, null, null, null, [];
      impactForce := None;
      new;
      SelectNewTarget(attempts);
    }

    /** `selectNewTarget`: up to ten draws, keeping the first valid one, else staying. */
    method SelectNewTarget(attempts: seq<Sidewalk.Attempt>)
      requires AttemptsOk(attempts)
      modifies this
      ensures View() == Retargeted(old(View()), attempts)
    {
      var tries := 0;
      var valid := false;
      while !valid && tries < Sidewalk.MaxAttempts
        invariant 0 <= tries <= Sidewalk.MaxAttempts
        invariant View() == Aimed(old(View()), Sidewalk.Point(targetX, targetZ))
        invariant forall i :: 0 <= i < (if valid then tries - 1 else tries) ==>
          !Sidewalk.IsValidPosition(Sidewalk.CandidatePoint(attempts[i]))
        invariant valid ==>
          tries >= 1 && Sidewalk.Point(targetX, targetZ) == Sidewalk.CandidatePoint(attempts[tries - 1])
          && Sidewalk.IsValidPosition(Sidewalk.CandidatePoint(attempts[tries - 1]))
        decreases Sidewalk.MaxAttempts - tries
      {
        var p := Sidewalk.CandidatePoint(attempts[tries]);
        targetX, targetZ := p.x, p.z;
        if Sidewalk.IsValidPosition(p) {
          valid := true;
        }
        tries := tries + 1;
      }
      if !valid {
        targetX, targetZ := x, z;
      }
    }

    method TransitionToIdle(draw: real)
      modifies this
      ensures View() == ToIdle(old(View()), draw)
    {
      state := Idle;
      stateTimer := 0.0;
      pauseDuration := MinPause + draw * PauseRange;
      speed := 0.0;
    }

    method TransitionToWalking(attempts: seq<Sidewalk.Attempt>)
      requires AttemptsOk(attempts)
      modifies this
      ensures View() == ToWalking(old(View()), attempts)
    {
      ghost var v := View();
      state := Walking;
      stateTimer := 0.0;
      speed := baseSpeed;
      assert View() == Started(v);
      SelectNewTarget(attempts);
    }

    /** `transitionToTurning`; nothing in the game calls it. */
    method TransitionToTurning()
      modifies this
      ensures View() == ToTurning(old(View()))
    {
      state := Turning;
      stateTimer := 0.0;
    }

    method HandleWalking(input: PedInput)
      requires InputOk(input)
      modifies this
      ensures View() == WalkStep(old(View()), input)
    {
      if input.distance < ArrivalDistance {
        if input.chance < PauseChance {
          TransitionToIdle(input.amount);
        } else {
          SelectNewTarget(input.attempts);
        }
      } else {
        Advance(input);
        Wander(input);
      }
    }

    method Advance(input: PedInput)
      requires input.distance >= ArrivalDistance
      modifies this
      ensures View() == Advanced(old(View()), input)
    {
      var dx := targetX - x;
      var dz := targetZ - z;
      x := x + dx / input.distance * speed;
      z := z + dz / input.distance * speed;
      heading := heading + input.turn * TurnRate;
    }

    method Wander(input: PedInput)
      modifies this
      ensures View() == Wandered(old(View()), input)
    {
      if sinceDirectionChange > WanderAfter && input.chance < WanderChance {
        targetX := targetX + input.nudgeX;
        targetZ := targetZ + input.nudgeZ;
        sinceDirectionChange := 0.0;
      }
    }

    method HandleIdle(input: PedInput)
      requires InputOk(input)
      modifies this
      ensures View() == IdleStep(old(View()), input)
    {
      if input.chance < FidgetChance {
        heading := heading + (input.amount - 0.5) * FidgetRange;
      }
      if stateTimer >= pauseDuration {
        TransitionToWalking(input.attempts);
      }
    }

    method HandleTurning(input: PedInput)
      requires InputOk(input)
      modifies this
      ensures View() == TurningStep(old(View()), input)
    {
      if stateTimer > TurningTime {
        TransitionToWalking(input.attempts);
      }
    }

    method HandleFalling(input: PedInput, now: int)
      modifies this
      ensures View() == FallingStep(old(View()), input, now)
    {
      if ragdollActive && torsoBody != null {
        if input.settled && !fallenBody {
          fallenBody := true;
          deathTime := now;
        }
      }
    }

    /** `update(deltaTime)`. */
    method Update(dt: real, input: PedInput, now: int)
      requires InputOk(input)
      modifies this
      ensures View() == Updated(old(View()), dt, input, now)
    {
      if !isAlive {
        return;
      }
      ghost var v := View();
      stateTimer := stateTimer + dt;
      sinceDirectionChange := sinceDirectionChange + dt;
      assert View() == Ticked(v, dt);
      HandleState(input, now);
    }

    /** The `switch (this.state)` of `update`. */
    method HandleState(input: PedInput, now: int)
      requires InputOk(input)
      modifies this
      ensures View() == Handled(old(View()), input, now)
    {
      match state {
        case Walking => HandleWalking(input);
        case Idle => HandleIdle(input);
        case Turning => HandleTurning(input);
        case Falling => HandleFalling(input, now);
      }
    }

    /** `activateRagdoll(carDirection, carVelocity, carPosition)`: this pedestrian's
        bookkeeping, then the registry push with at most one eviction, whose ragdoll is
        cleaned up unless it is this pedestrian. Nothing else changes. */
    method ActivateRagdoll(registry: RagdollRegistry, carSpeed: real, now: int)
      modifies this, registry, Evicted(registry.entries)
      ensures fresh(torsoBody) && fresh(headBody) && fresh(neckConstraint)
      ensures torsoBody != null && headBody != null && neckConstraint != null
      ensures View() == Activated(old(View()), torsoBody, headBody, neckConstraint, carSpeed, now)
      ensures registry.entries == Admit(old(registry.entries), this)
      ensures forall q :: q in Evicted(old(registry.entries)) && q != this ==> q.View() == CleanedUp(old(q.View()))
    {
      BecomeRagdoll(carSpeed);
      Register(registry);
      ghost var v := View();
      deathTime := now;
      assert View() == Died(v, now);
    }

    /** The first half of `activateRagdoll`: state, flags, force, bodies and joint. */
    method BecomeRagdoll(carSpeed: real)
      modifies this
      ensures fresh(torsoBody) && fresh(headBody) && fresh(neckConstraint)
      ensures torsoBody != null && headBody != null && neckConstraint != null
      ensures View() == Attached(Fallen(old(View()), carSpeed), torsoBody, headBody, neckConstraint)
    {
      var torso := new Body(TorsoMass);
      var head := new Body(HeadMass);
      var neck := new Joint(torso, head);
      ghost var v := View();
      assert v == old(View());
      state, speed, isAlive, ragdollActive := Falling, 0.0, false, true;
      impactForce := Some(ImpactMagnitude(carSpeed));
      assert View() == Fallen(v, carSpeed);
      torsoBody, headBody, neckConstraint := torso, head, neck;
      ragdollBodies := ragdollBodies + [torso, head];
    }

    /** The registry half of `activateRagdoll`: push, and on overflow shift the oldest
        and clean it up unless it is this pedestrian. */
    method Register(registry: RagdollRegistry)
      modifies registry, Evicted(registry.entries)
      ensures registry.entries == Admit(old(registry.entries), this)
      ensures forall q :: q in Evicted(old(registry.entries)) && q != this ==> q.View() == CleanedUp(old(q.View()))
      ensures this in Evicted(old(registry.entries)) ==> View() == old(View())
    {
      ghost var evicted := Evicted(registry.entries);
      registry.entries := registry.entries + [this];
      if |registry.entries| > MaxActiveRagdolls {
        var oldest := registry.entries[0];
        assert evicted == [oldest];
        registry.entries := registry.entries[1..];
        if oldest != this {
          oldest.CleanupRagdoll();
        }
      }
    }

    /** `cleanupRagdoll`. */
    method CleanupRagdoll()
      modifies this
      ensures View() == CleanedUp(old(View()))
    {
      if !ragdollActive {
        return;
      }
      ghost var v := View();
      if neckConstraint != null {
        neckConstraint := null;
      }
      ragdollBodies := [];
      torsoBody := null;
      headBody := null;
      ragdollActive := false;
      assert View() == Detached(v);
      Remove();
    }

    /** `remove`. */
    method Remove()
      modifies this
      ensures View() == Removed(old(View()))
    {
      isAlive := false;
      inScene := false;
    }
  }
}
