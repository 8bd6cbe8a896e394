/** Mission mode (`src/main.js`): drive from the start corner to the end corner. The car
    tick is the one of `Vehicle`, gated first by `isCarDisabled` and then by the
    `missionComplete` latch that `checkEndPoint` sets; the key-R handler restarts a
    finished or disabled run. `World` is a snapshot of the script's state, and the spec
    functions follow the order of one `animate` frame. */
module Mission {
  import Vehicle
  import Effects

  /** `(startX, 1, startZ)`: 60 beyond the corner of the 1080-wide city. */
  const Start: Vehicle.Vec3 := Vehicle.Vec3(-600.0, 1.0, -600.0)
  const EndX: real := 600.0
  const EndZ: real := 600.0
  /** `checkEndPoint` completes the mission strictly within this distance of the end. */
  const FinishRadius: real := 30.0

  /** Everything one frame reads from outside: the keys, where `translateZ` and the
      slide put the car, whether its box overlaps a building or wall, `Date.now()`,
      and the draws of the collision sparks. */
  datatype Frame = Frame(keys: Vehicle.Keys, moved: Vehicle.Vec3, collided: bool, now: int, sparkDraws: seq<real>)

  /** Enough spark draws for the largest damage tier. */
  predicate FrameOk(f: Frame) {
    |f.sparkDraws| >= Effects.SparkCount(3)
  }

  /** The state of the script: the car variables, the two mission flags and the three
      effect lists. */
  datatype World = World(
    car: Vehicle.CarState, complete: bool, hitBuilding: bool,
    tireMarks: seq<Effects.Effect>, debris: seq<Effects.Effect>, markers: seq<Effects.Effect>)

  /** The state when the car model has loaded. */
  function Initial(): World {
    World(Vehicle.InitialCar(Start), false, false, [], [], [])
  }

  /** `Math.sqrt(dx * dx + dz * dz) < 30`, compared on squares: the square root of a
      non-negative number is below 30 exactly when the number is below 900. */
  predicate AtEnd(p: Vehicle.Vec3) {
    (p.x - EndX) * (p.x - EndX) + (p.z - EndZ) * (p.z - EndZ) < FinishRadius * FinishRadius
  }

  /** `updateCar` on a car that is neither disabled nor finished: the car tick, a pair
      of tire marks when the timer fires (the list capped at 300), and the debris and
      crack of a damaging collision. */
  function Driven(w: World, f: Frame): World
    requires FrameOk(f)
  {
    var t := Vehicle.DriveStep(w.car, f.keys, f.moved, f.collided);
    w.(car := t.state,
       tireMarks := if t.tireMark then Effects.Newest(w.tireMarks + [Effects.TireMark(f.now), Effects.TireMark(f.now)], Effects.TireMarkCap)
                    else w.tireMarks,
       debris := if t.effectTier > 0 then w.debris + Effects.CollisionDebris(t.effectTier, f.now, f.sparkDraws) else w.debris,
       markers := if t.effectTier > 0 then w.markers + [Effects.Effect(f.now, Effects.CrackLifetime)] else w.markers)
  }

  /** `updateCar` in mission mode: a disabled car only has its velocity zeroed, a
      finished mission freezes everything, otherwise the car drives. */
  function Ticked(w: World, f: Frame): World
    requires FrameOk(f)
  {
    if w.car.disabled then w.(car := Vehicle.Stopped(w.car))
    else if w.complete then w
    else Driven(w, f)
  }

  /** `updateTireMarks` then `updateDebrisParticles`: every list loses its expired
      entries. */
  function Swept(w: World, now: int): World {
    w.(tireMarks := Effects.Survivors(w.tireMarks, now),
       debris := Effects.Survivors(w.debris, now),
       markers := Effects.Survivors(w.markers, now))
  }

  /** `checkEndPoint`: once the car is within 30 of the end the mission is complete and
      the car stopped; a finished mission is left alone. */
  function Checked(w: World): World {
    if w.complete || !AtEnd(w.car.position) then w
    else w.(complete := true, car := Vehicle.Stopped(w.car))
  }

  /** One `animate` frame: `updateCar`, `updateTireMarks`, `updateDebrisParticles`,
      `checkEndPoint` (the camera, HUD and mini-map change nothing modelled). */
  function Step(w: World, f: Frame): World
    requires FrameOk(f)
  {
    Checked(Swept(Ticked(w, f), f.now))
  }

  /** The key-R handler: accepted only when the mission is complete or the car is
      disabled. It puts the car back at the start with full health, clears debris and
      damage markers and both mission flags; the tire marks stay. */
  function Restarted(w: World, keyR: bool): World {
    if keyR && (w.complete || w.car.disabled) then
      World(Vehicle.Restarted(w.car, Start), false, false, w.tireMarks, [], [])
    else w
  }

  /** A run of frames. */
  function Run(w: World, fs: seq<Frame>): World
    requires forall i :: 0 <= i < |fs| ==> FrameOk(fs[i])
    decreases |fs|
  {
    if fs == [] then w else Run(Step(w, fs[0]), fs[1..])
  }

  /** What every reachable state satisfies: the car invariant of `Vehicle.Sane`, at most
      300 tire marks, a finished mission has a stopped car, and `hasHitBuilding` is never
      set. */
  predicate Inv(w: World) {
    && Vehicle.Sane(w.car)
    && |w.tireMarks| <= Effects.TireMarkCap
    && (w.complete ==> w.car.velocity == 0.0)
    && !w.hitBuilding
  }

  // ---- Properties of mission mode ----

  lemma InitialInv()
    ensures Inv(Initial()) && !Initial().complete
  {
    Vehicle.InitialIsSane(Start);
  }

  /** The car tick keeps the invariant. */
  lemma TickedKeepsInv(w: World, f: Frame)
    requires FrameOk(f) && Inv(w)
    ensures Inv(Ticked(w, f))
  {
    Vehicle.TickKeepsSane(w.car, f.keys, f.moved, f.collided);
    if !w.car.disabled && !w.complete {
      var t := Vehicle.DriveStep(w.car, f.keys, f.moved, f.collided);
      assert Vehicle.Tick(w.car, f.keys, f.moved, f.collided) == t;
    }
  }

  /** Every frame keeps the invariant. */
  lemma StepKeepsInv(w: World, f: Frame)
    requires FrameOk(f) && Inv(w)
    ensures Inv(Step(w, f))
  {
    TickedKeepsInv(w, f);
    var s := Swept(Ticked(w, f), f.now);
    assert Inv(s);
  }

  lemma RestartKeepsInv(w: World, keyR: bool)
    requires Inv(w)
    ensures Inv(Restarted(w, keyR))
  {
    Vehicle.RestartIsSane(w.car, Start);
  }

  /** The car tick never changes either mission flag: a collision does not end the
      mission (whatever the source's comment on `missionComplete` says), and
      `hasHitBuilding` is never set. */
  lemma TickKeepsFlags(w: World, f: Frame)
    requires FrameOk(f)
    ensures Ticked(w, f).complete == w.complete && Ticked(w, f).hitBuilding == w.hitBuilding
  {
  }

  /** After the mission is complete a tick changes nothing unless the car is disabled,
      and then only its velocity is zeroed; no tire mark, debris or crack appears. */
  lemma CompleteFreezesTick(w: World, f: Frame)
    requires FrameOk(f) && w.complete
    ensures var r := Ticked(w, f);
      r.car == (if w.car.disabled then w.car.(velocity := 0.0) else w.car)
      && r.tireMarks == w.tireMarks && r.debris == w.debris && r.markers == w.markers
  {
  }

  /** `checkEndPoint` is a latch: the mission is complete afterwards exactly when it was
      before or the car is within 30 of the end; a newly completed mission has a stopped
      car, and nothing else changes. */
  lemma CheckedLatches(w: World)
    ensures var r := Checked(w);
      (r.complete <==> w.complete || AtEnd(w.car.position))
      && (!w.complete && AtEnd(w.car.position) ==> r.car == w.car.(velocity := 0.0))
      && (w.complete || !AtEnd(w.car.position) ==> r == w)
      && r.tireMarks == w.tireMarks && r.debris == w.debris && r.markers == w.markers
      && Checked(r) == r
  {
  }

  /** The start corner is far from the end, so a restarted run is never complete on
      its first `checkEndPoint`. */
  lemma StartIsFarFromEnd()
    ensures !AtEnd(Start)
  {
    assert (Start.x - EndX) * (Start.x - EndX) == 1440000.0;
  }

  /** The restart is accepted exactly when key R is pressed with the mission complete or
      the car disabled; an accepted restart gives a fresh, drivable run at the start
      that `checkEndPoint` leaves alone, with the tire marks kept. */
  lemma RestartAcceptedIff(w: World, keyR: bool)
    ensures var r := Restarted(w, keyR);
      && (keyR && (w.complete || w.car.disabled) ==>
            && r.car == Vehicle.Restarted(w.car, Start)
            && !r.complete && !r.car.disabled && r.car.health == Vehicle.FullHealth
            && r.car.position == Start && r.tireMarks == w.tireMarks && r.debris == [] && r.markers == []
            && Checked(r) == r)
      && (!(keyR && (w.complete || w.car.disabled)) ==> r == w)
  {
    StartIsFarFromEnd();
  }

  /** Reaching the end completes the mission on that frame's `checkEndPoint`, whatever
      the tick before it did, provided the car is at the end after the tick. */
  lemma ReachingEndCompletes(w: World, f: Frame)
    requires FrameOk(f) && !w.complete && AtEnd(Ticked(w, f).car.position)
    ensures Step(w, f).complete && Step(w, f).car.velocity == 0.0
  {
    TickKeepsFlags(w, f);
  }

  /** One frame of a finished mission: the car stays as it is and the mission stays
      complete; the lists only lose expired entries. */
  lemma {:induction false} CompleteStep(w: World, f: Frame)
    requires FrameOk(f) && Inv(w) && w.complete
    ensures var r := Step(w, f);
      r.car == w.car && r.complete && Inv(r)
      && r.tireMarks == Effects.Survivors(w.tireMarks, f.now)
      && r.debris == Effects.Survivors(w.debris, f.now)
      && r.markers == Effects.Survivors(w.markers, f.now)
  {
    CompleteFreezesTick(w, f);
    StepKeepsInv(w, f);
    assert w.car.(velocity := 0.0) == w.car;
  }

  /** Once the mission is complete, no run of frames moves or changes the car again, and
      the mission stays complete until a restart. */
  lemma {:induction false} CompleteIsFinal(w: World, fs: seq<Frame>)
    requires forall i :: 0 <= i < |fs| ==> FrameOk(fs[i])
    requires Inv(w) && w.complete
    ensures Run(w, fs).car == w.car && Run(w, fs).complete && Inv(Run(w, fs))
    decreases |fs|
  {
    if fs != [] {
      CompleteStep(w, fs[0]);
      CompleteIsFinal(Step(w, fs[0]), fs[1..]);
    }
  }

  /** The script's state, updated in place. */
  class Game {
    const car: Vehicle.Car
    const tireMarks: Effects.EffectList
    const debris: Effects.EffectList
    const markers: Effects.EffectList
    var missionComplete: bool
    var hasHitBuilding: bool

    function View(): World
      reads this, car, tireMarks, debris, markers
    {
      World(car.State(), missionComplete, hasHitBuilding, tireMarks.items, debris.items, markers.items)
    }

    ghost predicate Valid()
      reads this, car, tireMarks, debris, markers
    {
      && tireMarks != debris && tireMarks != markers && debris != markers
      && Inv(View())
    }

    /** The script's start-up, with the car loaded at the start corner. */
    constructor ()
      ensures Valid() && View() == Initial()
    {
      car := new Vehicle.Car(Start);
      tireMarks := new Effects.EffectList();
      debris := new Effects.EffectList();
      markers := new Effects.EffectList();
      missionComplete, hasHitBuilding := false, false;
      new;
      InitialInv();
    }

    /** `updateCar` in mission mode. */
    method UpdateCar(f: Frame)
      requires Valid() && FrameOk(f)
      modifies car, tireMarks, debris, markers
      ensures Valid()
      ensures View() == Ticked(old(View()), f)
    {
      TickedKeepsInv(View(), f);
      if car.disabled {
        car.Stop();
        return;
      }
      if missionComplete {
        return;
      }
      Drive(f);
    }

    /** The driving part of `updateCar`: the car tick, the tire marks and the damage
        effects. */
    method Drive(f: Frame)
      requires FrameOk(f) && tireMarks != debris && tireMarks != markers && debris != markers
      modifies car, tireMarks, debris, markers
      ensures View() == Driven(old(View()), f)
    {
      ghost var t := Vehicle.DriveStep(car.State(), f.keys, f.moved, f.collided);
      var tireMark, hit, tier := car.Drive(f.keys, f.moved, f.collided);
      assert tireMark == t.tireMark && tier == t.effectTier && car.State() == t.state;
      if tireMark {
        Effects.CreateTireMark(tireMarks, f.now);
      }
      if tier > 0 {
        Effects.SpawnDamageEffects(debris, markers, tier, f.now, f.sparkDraws);
      }
    }

    /** `updateTireMarks` then `updateDebrisParticles`. */
    method SweepEffects(now: int)
      requires tireMarks != debris && tireMarks != markers && debris != markers
      modifies tireMarks, debris, markers
      ensures View() == Swept(old(View()), now)
    {
      tireMarks.Sweep(now);
      debris.Sweep(now);
      markers.Sweep(now);
    }

    /** `checkEndPoint`. */
    method CheckEndPoint()
      modifies this, car
      ensures View() == Checked(old(View()))
    {
      if missionComplete {
        return;
      }
      var dx := car.position.x - EndX;
      var dz := car.position.z - EndZ;
      if dx * dx + dz * dz < FinishRadius * FinishRadius {
        missionComplete := true;
        car.Stop();
      }
    }

    /** One `animate` frame. */
    method Animate(f: Frame)
      requires Valid() && FrameOk(f)
      modifies this, car, tireMarks, debris, markers
      ensures Valid()
      ensures View() == Step(old(View()), f)
    {
      StepKeepsInv(View(), f);
      UpdateCar(f);
      SweepEffects(f.now);
      CheckEndPoint();
    }

    /** The key-R handler. */
    method Restart(keyR: bool)
      requires Valid()
      modifies this, car, debris, markers
      ensures Valid()
      ensures View() == Restarted(old(View()), keyR)
    {
      RestartKeepsInv(View(), keyR);
      if keyR && (missionComplete || car.disabled) {
        car.Restart(Start);
        debris.Clear();
        markers.Clear();
        hasHitBuilding := false;
        missionComplete := false;
      }
    }
  }
}
