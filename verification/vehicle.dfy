/** The car of both games: one tick of `updateCar` (throttle, steering, drift, tire-mark
    timer, collision gate and damage table). The spec functions work on a snapshot
    `CarState` of the module-level variables; class `Car` holds those variables and its
    methods are proved to follow the spec functions. Geometry is an input: the caller
    supplies the position after `translateZ` and the lateral slide, and whether the car's
    box overlaps a building or wall. */
module Vehicle {

  const Acceleration: real := 0.05
  const MaxSpeed: real := 1.5
  const RotationSpeed: real := 0.03
  const HandbrakeFactor: real := 0.7
  const DriftThreshold: real := 0.8
  const MaxDriftIntensity: real := 1.0
  const DriftDecay: real := 0.95
  const LateralFriction: real := 0.92
  const DriftingLevel: real := 0.3
  const DriftGain: real := 2.5
  const LateralGain: real := 0.015
  const TireMarkSpeed: real := 0.5
  const TireMarkEvery: nat := 3
  const MinorDamageThreshold: real := 0.3
  const MediumDamageThreshold: real := 0.7
  const SevereDamageThreshold: real := 1.2
  const CollisionCooldownTime: int := 500
  /** The cooldown is decremented by one approximate 60 fps frame per tick. */
  const FrameMillis: int := 16
  const GroundHeight: real := 1.0
  const Rebound: real := -0.3
  const FullHealth: int := 100
  /** The largest lateral speed the drift slide can build up:
      (LateralBound + LateralGain) * LateralFriction == LateralBound. */
  const LateralBound: real := 0.1725

  datatype Vec3 = Vec3(x: real, y: real, z: real)

  /** Held keys; each flag is already the or of the arrow key and its letter
      (ArrowUp/KeyW, ArrowDown/KeyS, ArrowLeft/KeyA, ArrowRight/KeyD, Space). */
  datatype Keys = Keys(accelerate: bool, reverse: bool, left: bool, right: bool, handbrake: bool)

  function Abs(v: real): real { if v < 0.0 then -v else v }
  function Min(a: real, b: real): real { if a <= b then a else b }
  function Max(a: real, b: real): real { if a >= b then a else b }
  function MaxInt(a: int, b: int): int { if a >= b then a else b }

  /** Speed after the pedals and the handbrake, before the clamp. */
  function Pedals(v: real, keys: Keys): real {
    var up := if keys.accelerate then v + Acceleration else v;
    var down := if keys.reverse then up - Acceleration else up;
    if keys.handbrake then down * HandbrakeFactor else down
  }

  /** `carVelocity.z` after the input step: the pedalled speed clamped to
      [-maxSpeed, maxSpeed]. */
  function Throttle(v: real, keys: Keys): (r: real)
    ensures -MaxSpeed <= r <= MaxSpeed
    ensures -MaxSpeed <= Pedals(v, keys) <= MaxSpeed ==> r == Pedals(v, keys)
    ensures Pedals(v, keys) > MaxSpeed ==> r == MaxSpeed
    ensures Pedals(v, keys) < -MaxSpeed ==> r == -MaxSpeed
  {
    Max(-MaxSpeed, Min(MaxSpeed, Pedals(v, keys)))
  }

  /** `currentSteeringAngle`: the right key is tested last, so it wins. */
  function SteeringAngle(keys: Keys): real {
    if keys.right then -RotationSpeed else if keys.left then RotationSpeed else 0.0
  }

  /** The change of `car.rotation.y`: both keys held cancel out. */
  function HeadingChange(keys: Keys): real {
    (if keys.left then RotationSpeed else 0.0) - (if keys.right then RotationSpeed else 0.0)
  }

  /** With both steering keys held the car does not turn, yet the steering angle is
      that of the right key, so a drift can still build up. */
  lemma BothSteeringKeys(keys: Keys)
    requires keys.left && keys.right
    ensures HeadingChange(keys) == 0.0 && SteeringAngle(keys) == -RotationSpeed
  {
  }

  datatype Drift = Drift(intensity: real, drifting: bool, lateral: real)

  /** The drift condition: steering this tick and normalised speed above 0.8. */
  predicate Sliding(speedNorm: real, steer: real) {
    Abs(steer) > 0.0 && speedNorm > DriftThreshold
  }

  /** Drift intensity, `isDrifting` and lateral velocity after one tick, given the
      normalised speed |v| / maxSpeed and the steering angle. */
  function DriftStep(d: Drift, speedNorm: real, steer: real): (r: Drift)
    ensures r.drifting <==> r.intensity > DriftingLevel
    ensures !Sliding(speedNorm, steer) ==> r.intensity == d.intensity * DriftDecay
    ensures 0.0 <= d.intensity <= MaxDriftIntensity && speedNorm >= 0.0 ==>
      0.0 <= r.intensity <= MaxDriftIntensity
    ensures Sliding(speedNorm, steer) && speedNorm >= 0.0 ==>
      r.intensity >= Min(MaxDriftIntensity, d.intensity)
    ensures !Sliding(speedNorm, steer) && d.intensity >= 0.0 ==> r.intensity <= d.intensity
    ensures !Sliding(speedNorm, steer) ==> r.lateral == d.lateral * LateralFriction
    ensures Sliding(speedNorm, steer) && steer > 0.0 && r.intensity > 0.0 ==>
      r.lateral < d.lateral * LateralFriction
    ensures Sliding(speedNorm, steer) && steer < 0.0 && r.intensity > 0.0 ==>
      r.lateral > d.lateral * LateralFriction
    ensures 0.0 <= d.intensity && speedNorm >= 0.0 && Abs(d.lateral) <= LateralBound ==>
      Abs(r.lateral) <= LateralBound
  {
    if Sliding(speedNorm, steer) then
      var intensity := Min(MaxDriftIntensity, d.intensity + speedNorm * Abs(steer) * DriftGain);
      var direction := if steer > 0.0 then -1.0 else 1.0;
      Drift(intensity, intensity > DriftingLevel,
            (d.lateral + direction * intensity * LateralGain) * LateralFriction)
    else
      var intensity := d.intensity * DriftDecay;
      Drift(intensity, intensity > DriftingLevel, d.lateral * LateralFriction)
  }

  datatype TireTimer = TireTimer(timer: nat, emit: bool)

  /** The tire-mark counter: it counts consecutive ticks of drifting above half speed,
      emits on every multiple of three, and is reset by any other tick. */
  function TireTimerStep(timer: nat, drifting: bool, speedNorm: real): (r: TireTimer)
    ensures r.emit ==> r.timer > 0 && r.timer % TireMarkEvery == 0
    ensures !(drifting && speedNorm > TireMarkSpeed) <==> r.timer == 0
  {
    if drifting && speedNorm > TireMarkSpeed then TireTimer(timer + 1, (timer + 1) % TireMarkEvery == 0)
    else TireTimer(0, false)
  }

  /** Marks emitted over `n` consecutive qualifying ticks starting from counter `timer`. */
  function MarksOver(timer: nat, n: nat): nat
    decreases n
  {
    if n == 0 then 0
    else
      var t := TireTimerStep(timer, true, 1.0);
      (if t.emit then 1 else 0) + MarksOver(t.timer, n - 1)
  }

  /** Over a drifting run that starts from a reset counter, a mark pair is created on
      exactly every third tick. */
  lemma {:induction false} MarksEveryThirdTick(timer: nat, n: nat)
    ensures MarksOver(timer, n) == (timer + n) / 3 - timer / 3
    decreases n
  {
    if n > 0 {
      MarksEveryThirdTick(timer + 1, n - 1);
      assert (timer + 1) / 3 - timer / 3 == if (timer + 1) % 3 == 0 then 1 else 0;
    }
  }

  datatype Damage = Damage(amount: int, tier: nat)

  /** Health lost and damage tier reached for an impact speed. */
  function DamageFor(impact: real): (d: Damage)
    ensures d.tier <= 3
    ensures d.amount == (if d.tier == 3 then 30 else if d.tier == 2 then 15 else if d.tier == 1 then 5 else 0)
  {
    if impact >= SevereDamageThreshold then Damage(30, 3)
    else if impact >= MediumDamageThreshold then Damage(15, 2)
    else if impact >= MinorDamageThreshold then Damage(5, 1)
    else Damage(0, 0)
  }

  /** The tier is the number of thresholds the impact speed reaches. */
  lemma DamageTierCountsThresholds(impact: real)
    ensures DamageFor(impact).tier ==
      (if impact >= MinorDamageThreshold then 1 else 0)
      + (if impact >= MediumDamageThreshold then 1 else 0)
      + (if impact >= SevereDamageThreshold then 1 else 0)
  {
  }

  /** A harder impact never does less damage. */
  lemma DamageMonotone(a: real, b: real)
    requires a <= b
    ensures DamageFor(a).tier <= DamageFor(b).tier
    ensures DamageFor(a).amount <= DamageFor(b).amount
  {
  }

  /** Snapshot of the module-level car variables. `velocity` is `carVelocity.z`; the x
      and y components are only ever set to zero. */
  datatype CarState = CarState(
    velocity: real,
    heading: real,
    position: Vec3,
    steering: real,
    driftIntensity: real,
    isDrifting: bool,
    lateralVelocity: real,
    tireMarkTimer: nat,
    health: int,
    damageLevel: nat,
    disabled: bool,
    cooldown: int,
    colliding: bool)

  /** The state after the car model has loaded at `start`. */
  function InitialCar(start: Vec3): CarState {
    CarState(0.0, 0.0, start, 0.0, 0.0, false, 0.0, 0, FullHealth, 0, false, 0, false)
  }

  /** The invariant every reachable state satisfies. */
  predicate Sane(s: CarState) {
    && -MaxSpeed <= s.velocity <= MaxSpeed
    && 0.0 <= s.driftIntensity <= MaxDriftIntensity
    && (s.isDrifting <==> s.driftIntensity > DriftingLevel)
    && Abs(s.lateralVelocity) <= LateralBound
    && 0 <= s.health <= FullHealth
    && s.damageLevel <= 3
    && (s.disabled <==> s.health == 0)
    && -FrameMillis < s.cooldown <= CollisionCooldownTime
  }

  /** What the tick reports to the effect lists: a tire-mark pair to create, whether the
      collision gate let a hit through (sound, cooldown), and the damage tier whose
      effects to spawn (0 when the hit did no damage or there was none). */
  datatype TickResult = TickResult(state: CarState, tireMark: bool, hit: bool, effectTier: nat)

  function OnGround(p: Vec3): Vec3 {
    if p.y < GroundHeight then p.(y := GroundHeight) else p
  }

  /** A hit the gate let through: damage by impact speed, health floored at 0, the car
      disabled at 0 health, the pre-move position restored at ground height, the speed
      reversed and damped, `isColliding` set and the cooldown restarted. */
  function Impact(s: CarState, before: Vec3): (r: TickResult) {
    var d := DamageFor(Abs(s.velocity));
    var health := MaxInt(0, s.health - d.amount);
    var v := if health <= 0 then 0.0 else s.velocity;
    TickResult(
      s.(damageLevel := if d.tier > s.damageLevel then d.tier else s.damageLevel,
         health := health,
         disabled := if health <= 0 then true else s.disabled,
         velocity := v * Rebound,
         position := before.(y := GroundHeight),
         colliding := true,
         cooldown := CollisionCooldownTime),
      false, true, d.tier)
  }

  /** The collision gate on the moved car, then the ground clamp. */
  function Collide(s: CarState, before: Vec3, collided: bool): (r: TickResult) {
    var g :=
      if !collided then TickResult(s.(colliding := false), false, false, 0)
      else if !s.colliding && s.cooldown <= 0 then Impact(s, before)
      else TickResult(s, false, false, 0);
    g.(state := g.state.(position := OnGround(g.state.position)))
  }

  /** The cooldown decrement and the keyboard step: steering angle, heading, and the
      clamped speed. */
  function Controls(s: CarState, keys: Keys): CarState {
    s.(cooldown := if s.cooldown > 0 then s.cooldown - FrameMillis else s.cooldown,
       steering := SteeringAngle(keys),
       heading := s.heading + HeadingChange(keys),
       velocity := Throttle(s.velocity, keys))
  }

  datatype Slid = Slid(state: CarState, tireMark: bool)

  /** The drift step and the tire-mark counter, driven by the speed and steering angle
      the controls produced. */
  function Slide(s: CarState): Slid {
    var speedNorm := Abs(s.velocity) / MaxSpeed;
    var d := DriftStep(Drift(s.driftIntensity, s.isDrifting, s.lateralVelocity), speedNorm, s.steering);
    var t := TireTimerStep(s.tireMarkTimer, d.drifting, speedNorm);
    Slid(s.(driftIntensity := d.intensity, isDrifting := d.drifting, lateralVelocity := d.lateral,
            tireMarkTimer := t.timer), t.emit)
  }

  /** `updateCar` on a car that is not disabled (and, in mission mode, not finished):
      controls, drift, tire-mark timer, move to `moved`, collision gate. */
  function DriveStep(s: CarState, keys: Keys, moved: Vec3, collided: bool): (r: TickResult) {
    var d := Slide(Controls(s, keys));
    Collide(d.state.(position := moved), s.position, collided).(tireMark := d.tireMark)
  }

  /** A disabled car only has its velocity zeroed. */
  function Stopped(s: CarState): CarState {
    s.(velocity := 0.0)
  }

  /** The car part of `updateCar` in both games. */
  function Tick(s: CarState, keys: Keys, moved: Vec3, collided: bool): (r: TickResult) {
    if s.disabled then TickResult(Stopped(s), false, false, 0) else DriveStep(s, keys, moved, collided)
  }

  /** The restart handler's car part: start pose, zero velocity, full health, no damage,
      not disabled, no cooldown, not colliding. Drift, steering and the tire-mark counter
      are left as they were. */
  function Restarted(s: CarState, start: Vec3): CarState {
    s.(position := start, heading := 0.0, velocity := 0.0, health := FullHealth, damageLevel := 0,
       disabled := false, cooldown := 0, colliding := false)
  }

  // ---- Properties of one tick ----

  lemma InitialIsSane(start: Vec3)
    ensures Sane(InitialCar(start))
  {
  }

  /** Every tick keeps the invariant: speed within ±maxSpeed, drift intensity in [0, 1]
      with `isDrifting` exactly above 0.3, lateral speed bounded, health in [0, 100],
      disabled exactly at 0 health. */
  lemma TickKeepsSane(s: CarState, keys: Keys, moved: Vec3, collided: bool)
    requires Sane(s)
    ensures Sane(Tick(s, keys, moved, collided).state)
  {
    if !s.disabled {
      var v := Throttle(s.velocity, keys);
      assert Abs(v) / MaxSpeed >= 0.0;
    }
  }

  lemma RestartIsSane(s: CarState, start: Vec3)
    requires Sane(s)
    ensures Sane(Restarted(s, start))
  {
  }

  /** The collision gate is edge-triggered: a hit goes through exactly when the car
      overlaps an obstacle, was not already colliding, and the cooldown has run out
      after this tick's decrement. */
  lemma GateOpensExactly(s: CarState, keys: Keys, moved: Vec3, collided: bool)
    requires !s.disabled
    ensures DriveStep(s, keys, moved, collided).hit <==>
      collided && !s.colliding && s.cooldown <= FrameMillis
  {
  }

  /** Without a hit the health, damage level and disabled flag do not change; with one,
      the cooldown restarts at 500, `isColliding` is set, the car is back at its pre-move
      position at ground height and its speed is the post-input speed times -0.3 (or 0
      when the car was disabled by the hit). */
  lemma HitEffects(s: CarState, keys: Keys, moved: Vec3, collided: bool)
    requires !s.disabled
    ensures var r := DriveStep(s, keys, moved, collided);
      && (!r.hit ==>
            r.state.health == s.health && r.state.damageLevel == s.damageLevel
            && r.state.disabled == s.disabled && r.effectTier == 0)
      && (r.hit ==>
            r.state.cooldown == CollisionCooldownTime && r.state.colliding
            && r.state.position == s.position.(y := GroundHeight)
            && (!r.state.disabled ==> r.state.velocity == Throttle(s.velocity, keys) * Rebound)
            && (r.state.disabled ==> r.state.velocity == 0.0))
      && (!collided ==> !r.state.colliding)
  {
  }

  /** The damage level never decreases and health never increases; health is floored
      at 0 and reaching it disables the car. */
  lemma DamageOnlyAccumulates(s: CarState, keys: Keys, moved: Vec3, collided: bool)
    requires Sane(s)
    ensures var r := Tick(s, keys, moved, collided).state;
      r.damageLevel >= s.damageLevel && r.health <= s.health && r.health >= 0
      && (r.health == 0 ==> r.disabled)
  {
  }

  /** Once disabled, every tick only re-zeroes the velocity, and emits nothing. */
  lemma DisabledIsLatched(s: CarState, keys: Keys, moved: Vec3, collided: bool)
    requires s.disabled
    ensures Tick(s, keys, moved, collided) == TickResult(s.(velocity := 0.0), false, false, 0)
  {
  }

  /** A hit cannot be applied twice in a row: on the tick after a hit the gate is shut,
      whatever the car overlaps. */
  lemma {:induction false} NoDoubleDamage(s: CarState, k1: Keys, m1: Vec3, k2: Keys, m2: Vec3, c2: bool)
    requires !s.disabled
    ensures var r1 := DriveStep(s, k1, m1, true);
      r1.hit && !r1.state.disabled ==>
        var r2 := DriveStep(r1.state, k2, m2, c2);
        !r2.hit && r2.state.health == r1.state.health
  {
    GateOpensExactly(s, k1, m1, true);
    var r1 := DriveStep(s, k1, m1, true);
    if r1.hit && !r1.state.disabled {
      GateOpensExactly(r1.state, k2, m2, c2);
      HitEffects(r1.state, k2, m2, c2);
    }
  }

  /** The cooldown after `n` ticks without a new hit. */
  function CooldownAfter(c: int, n: nat): int
    decreases n
  {
    if n == 0 then c else CooldownAfter(if c > 0 then c - FrameMillis else c, n - 1)
  }

  /** From a fresh hit the cooldown after n ticks is 500 - 16n, for n up to 31; for
      n below 31 it is still above 16, so the gate stays shut even after separation. */
  lemma {:induction false} CooldownCountsDown(n: nat)
    requires n <= 31
    ensures CooldownAfter(CollisionCooldownTime, n) == CollisionCooldownTime - FrameMillis * n
    ensures n < 31 ==> CooldownAfter(CollisionCooldownTime, n) > FrameMillis
  {
    CountdownLinear(CollisionCooldownTime, n);
  }

  lemma {:induction false} CountdownLinear(c: int, n: nat)
    requires c - FrameMillis * n > -FrameMillis
    ensures CooldownAfter(c, n) == c - FrameMillis * n
    decreases n
  {
    if n > 0 {
      assert c > 0;
      CountdownLinear(c - FrameMillis, n - 1);
    }
  }

  /** The per-frame inputs of the car part of `updateCar`: the keys held, where the
      physics step moved the car, and whether it then overlaps an obstacle. */
  datatype Input = Input(keys: Keys, moved: Vec3, collided: bool)

  /** The car after one tick per input, in order. */
  function TickRun(s: CarState, ins: seq<Input>): CarState
    decreases |ins|
  {
    if ins == [] then s
    else TickRun(Tick(s, ins[0].keys, ins[0].moved, ins[0].collided).state, ins[1..])
  }

  /** Whether the collision gate lets a hit through on any of those ticks. */
  predicate HitDuring(s: CarState, ins: seq<Input>)
    decreases |ins|
  {
    ins != [] &&
      var r := Tick(s, ins[0].keys, ins[0].moved, ins[0].collided);
      r.hit || HitDuring(r.state, ins[1..])
  }

  /** While the cooldown outlasts the run, no input gets a hit through, whatever the car
      overlaps: the cooldown counts down as `CooldownAfter` says and health is kept. */
  lemma {:induction false} CoolingRun(s: CarState, ins: seq<Input>)
    requires !s.disabled && s.cooldown - FrameMillis * |ins| > 0
    ensures !HitDuring(s, ins)
    ensures TickRun(s, ins).cooldown == CooldownAfter(s.cooldown, |ins|)
    ensures !TickRun(s, ins).disabled && TickRun(s, ins).health == s.health
    decreases |ins|
  {
    if ins != [] {
      var i := ins[0];
      var r := DriveStep(s, i.keys, i.moved, i.collided);
      GateOpensExactly(s, i.keys, i.moved, i.collided);
      HitEffects(s, i.keys, i.moved, i.collided);
      assert !r.hit;
      assert r.state.cooldown == s.cooldown - FrameMillis;
      CoolingRun(r.state, ins[1..]);
    }
  }

  /** After a hit that leaves the car running, the next 31 ticks get no hit through,
      whatever the car overlaps, and the cooldown is `CooldownAfter(500, n)`, 500 less
      16 per tick; after the 31st it has run out, so the 32nd tick can hit again. */
  lemma GateShutAfterHit(s: CarState, keys: Keys, moved: Vec3, ins: seq<Input>)
    requires !s.disabled && |ins| <= 31
    ensures var r := DriveStep(s, keys, moved, true);
      r.hit && !r.state.disabled ==>
        && !HitDuring(r.state, ins)
        && TickRun(r.state, ins).cooldown == CooldownAfter(CollisionCooldownTime, |ins|)
        && TickRun(r.state, ins).cooldown == CollisionCooldownTime - FrameMillis * |ins|
        && (|ins| == 31 ==> TickRun(r.state, ins).cooldown <= FrameMillis)
  {
    var r := DriveStep(s, keys, moved, true);
    if r.hit && !r.state.disabled {
      HitEffects(s, keys, moved, true);
      CoolingRun(r.state, ins);
      CountdownLinear(CollisionCooldownTime, |ins|);
    }
  }

  /** The scenario of a head-on hit at full speed: 100 health drops to 70, tier 3,
      the car is back where it was at ground height and moves at -0.45. */
  lemma SevereHitScenario(s: CarState, moved: Vec3)
    requires Sane(s) && s.health == 100 && s.velocity == MaxSpeed && !s.colliding && s.cooldown <= 0
    ensures var r := DriveStep(s, Keys(true, false, false, false, false), moved, true);
      r.hit && r.state.health == 70 && r.state.damageLevel == 3 && r.effectTier == 3
      && r.state.position == s.position.(y := GroundHeight) && r.state.velocity == -0.45
  {
  }

  /** The scenario of a minor hit at 5 health: health 0, disabled, velocity zero. */
  lemma LastMinorHitDisables(s: CarState, moved: Vec3)
    requires Sane(s) && s.health == 5 && s.velocity == MinorDamageThreshold && !s.colliding && s.cooldown <= 0
    ensures var r := DriveStep(s, Keys(false, false, false, false, false), moved, true);
      r.hit && r.state.health == 0 && r.state.disabled && r.state.velocity == 0.0
  {
  }

  /** The module-level car variables, updated in place by the tick. */
  class Car {
    var velocity: real
    var heading: real
    var position: Vec3
    var steering: real
    var driftIntensity: real
    var isDrifting: bool
    var lateralVelocity: real
    var tireMarkTimer: nat
    var health: int
    var damageLevel: nat
    var disabled: bool
    var cooldown: int
    var colliding: bool

    function State(): CarState
      reads this
    {
      CarState(velocity, heading, position, steering, driftIntensity, isDrifting, lateralVelocity,
               tireMarkTimer, health, damageLevel, disabled, cooldown, colliding)
    }

    constructor (start: Vec3)
      ensures State() == InitialCar(start)
    {
      velocity, heading, position, steering := 0.0, 0.0, start, 0.0;
      driftIntensity, isDrifting, lateralVelocity, tireMarkTimer := 0.0, false, 0.0, 0;
      health, damageLevel, disabled, cooldown, colliding := FullHealth, 0, false, 0, false;
    }

    /** The early return of a disabled car: `carVelocity.set(0, 0, 0)`. */
    method Stop()
      modifies this
      ensures State() == Stopped(old(State()))
    {
      velocity := 0.0;
    }

    /** The rest of `updateCar`'s car part, statement by statement. */
    method Drive(keys: Keys, moved: Vec3, collided: bool) returns (tireMark: bool, hit: bool, effectTier: nat)
      modifies this
      ensures var r := DriveStep(old(State()), keys, moved, collided);
        State() == r.state && tireMark == r.tireMark && hit == r.hit && effectTier == r.effectTier
    {
      var oldPosition := position;
      ApplyControls(keys);
      tireMark := ApplySlide();
      position := moved;
      hit, effectTier := ApplyCollision(oldPosition, collided);
    }

    method ApplyControls(keys: Keys)
      modifies this
      ensures State() == Controls(old(State()), keys)
    {
      if cooldown > 0 {
        cooldown := cooldown - FrameMillis;
      }
      steering := 0.0;
      if keys.accelerate { velocity := velocity + Acceleration; }
      if keys.reverse { velocity := velocity - Acceleration; }
      if keys.left {
        steering := RotationSpeed;
        heading := heading + RotationSpeed;
      }
      if keys.right {
        steering := -RotationSpeed;
        heading := heading - RotationSpeed;
      }
      if keys.handbrake { velocity := velocity * HandbrakeFactor; }
      velocity := Max(-MaxSpeed, Min(MaxSpeed, velocity));
    }

    method ApplySlide() returns (tireMark: bool)
      modifies this
      ensures State() == Slide(old(State())).state && tireMark == Slide(old(State())).tireMark
    {
      var speedNorm := Abs(velocity) / MaxSpeed;
      if Abs(steering) > 0.0 && speedNorm > DriftThreshold {
        driftIntensity := Min(MaxDriftIntensity, driftIntensity + speedNorm * Abs(steering) * DriftGain);
        isDrifting := driftIntensity > DriftingLevel;
        var direction := if steering > 0.0 then -1.0 else 1.0;
        lateralVelocity := lateralVelocity + direction * driftIntensity * LateralGain;
      } else {
        driftIntensity := driftIntensity * DriftDecay;
        isDrifting := driftIntensity > DriftingLevel;
      }
      lateralVelocity := lateralVelocity * LateralFriction;

      tireMark := false;
      if isDrifting && speedNorm > TireMarkSpeed {
        tireMarkTimer := tireMarkTimer + 1;
        if tireMarkTimer % TireMarkEvery == 0 {
          tireMark := true;
        }
      } else {
        tireMarkTimer := 0;
      }
    }

    method ApplyCollision(oldPosition: Vec3, collided: bool) returns (hit: bool, effectTier: nat)
      modifies this
      ensures var r := Collide(old(State()), oldPosition, collided);
        State() == r.state && hit == r.hit && effectTier == r.effectTier
    {
      hit, effectTier := false, 0;
      if collided {
        if !colliding && cooldown <= 0 {
          var d := DamageFor(Abs(velocity));
          if d.tier > damageLevel {
            damageLevel := d.tier;
          }
          health := MaxInt(0, health - d.amount);
          if health <= 0 {
            disabled := true;
            velocity := 0.0;
          }
          effectTier := d.tier;
          position := oldPosition.(y := GroundHeight);
          velocity := velocity * Rebound;
          colliding := true;
          cooldown := CollisionCooldownTime;
          hit := true;
        }
      } else {
        colliding := false;
      }
      if position.y < GroundHeight {
        position := position.(y := GroundHeight);
      }
    }

    /** The car part of the restart handler. */
    method Restart(start: Vec3)
      modifies this
      ensures State() == Restarted(old(State()), start)
    {
      position := start;
      heading := 0.0;
      velocity := 0.0;
      health := FullHealth;
      damageLevel := 0;
      disabled := false;
      cooldown := 0;
      colliding := false;
    }
  }
}
