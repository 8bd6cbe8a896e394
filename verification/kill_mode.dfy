/** Kill mode (`public/main1.js`): the car tick with its pedestrian hit loop and the
    fallen-body sweep, the initial spawn, and the restart key. The game object holds the
    module-level state of the script; a ghost set records who has been killed since the
    last restart. */
module KillMode {
  import Vehicle
  import Effects
  import Sidewalk
  import Pedestrians

  const PointsPerKill: int := 10
  /** A fallen body is cleared once it has lain on the ground longer than this. */
  const CorpseLifetime: int := 5000
  const InitialPedestrians: nat := 25
  /** `(startX, 1, startZ)` with the start at the city centre. */
  const Start: Vehicle.Vec3 := Vehicle.Vec3(0.0, 1.0, 0.0)

  /** The draws of one spawned pedestrian: its sidewalk point (the same four draws as a
      target attempt), its walking-speed draw and its first target's attempts. */
  datatype Spawn = Spawn(where: Sidewalk.Attempt, speedDraw: real, attempts: seq<Sidewalk.Attempt>)

  predicate SpawnOk(s: Spawn) {
    Sidewalk.Draws(s.where) && 0.0 <= s.speedDraw < 1.0 && Pedestrians.AttemptsOk(s.attempts)
  }

  /** The pedestrian `new Pedestrian(x, z)` makes at the drawn sidewalk point. */
  function Newcomer(s: Spawn): (v: Pedestrians.PedView)
    requires SpawnOk(s)
    ensures v.isAlive && v.inScene && v.state == Pedestrians.Walking && !v.fallenBody && !v.ragdollActive
  {
    var at := Sidewalk.CandidatePoint(s.where);
    Pedestrians.Retargeted(Pedestrians.Spawned(at.x, at.z, s.speedDraw), s.attempts)
  }

  /** Everything one `updateCar` of kill mode reads from outside: the keys, where
      `translateZ` and the slide put the car, whether its box overlaps a building or
      wall, the distance it moved (`actualCarSpeed`), `Date.now()`, the draws of the
      collision sparks, for each pedestrian whether the car's box overlaps it and the
      blood-stain draw for it, and the draws for respawned pedestrians. */
  datatype Frame = Frame(
    keys: Vehicle.Keys, moved: Vehicle.Vec3, collided: bool, travelled: real, now: int,
    sparkDraws: seq<real>, hits: seq<bool>, stainDraws: seq<real>, spawns: seq<Spawn>)

  predicate Distinct(ps: seq<Pedestrians.Pedestrian>) {
    forall i, j :: 0 <= i < j < |ps| ==> ps[i] != ps[j]
  }

  function AliveFlags(ps: seq<Pedestrians.Pedestrian>): (r: seq<bool>)
    reads set p | p in ps
    ensures |r| == |ps| && forall i :: 0 <= i < |ps| ==> r[i] == ps[i].isAlive
  {
    if ps == [] then [] else [ps[0].isAlive] + AliveFlags(ps[1..])
  }

  /** The pedestrians a hit loop kills from index `i` on: alive at the start and hit. */
  function Victims(ps: seq<Pedestrians.Pedestrian>, alive: seq<bool>, hits: seq<bool>, i: nat): set<Pedestrians.Pedestrian>
    requires |alive| == |ps| && |hits| == |ps| && i <= |ps|
    decreases |ps| - i
  {
    if i == |ps| then {}
    else Victims(ps, alive, hits, i + 1) + (if alive[i] && hits[i] then {ps[i]} else {})
  }

  /** A pedestrian at or after index `i` is a victim exactly when it was alive and hit;
      none before `i` is, on a list without repeats. */
  lemma {:induction false} VictimsExactly(ps: seq<Pedestrians.Pedestrian>, alive: seq<bool>, hits: seq<bool>, i: nat, j: nat)
    requires |alive| == |ps| && |hits| == |ps| && i <= |ps| && j < |ps| && Distinct(ps)
    ensures ps[j] in Victims(ps, alive, hits, i) <==> i <= j && alive[j] && hits[j]
    decreases |ps| - i
  {
    if i < |ps| {
      VictimsExactly(ps, alive, hits, i + 1, j);
    }
  }

  /** The number of kills from index `i` on. */
  function KillsFrom(alive: seq<bool>, hits: seq<bool>, i: nat): nat
    requires |hits| == |alive| && i <= |alive|
    decreases |alive| - i
  {
    if i == |alive| then 0 else KillsFrom(alive, hits, i + 1) + (if alive[i] && hits[i] then 1 else 0)
  }

  /** On a list without repeats, the victims are as many as the kills counted. */
  lemma {:induction false} VictimsCounted(ps: seq<Pedestrians.Pedestrian>, alive: seq<bool>, hits: seq<bool>, i: nat)
    requires |alive| == |ps| && |hits| == |ps| && i <= |ps| && Distinct(ps)
    ensures |Victims(ps, alive, hits, i)| == KillsFrom(alive, hits, i)
    decreases |ps| - i
  {
    if i < |ps| {
      VictimsCounted(ps, alive, hits, i + 1);
      VictimsExactly(ps, alive, hits, i + 1, i);
    }
  }

  /** The blood stains the hit loop pushes, walking the pedestrians from the last down
      to index `i`. */
  function KillStains(alive: seq<bool>, hits: seq<bool>, draws: seq<real>, now: int, i: nat): seq<Effects.Effect>
    requires |hits| == |alive| && |draws| == |alive| && i <= |alive|
    requires forall j :: 0 <= j < |draws| ==> 0.0 <= draws[j] < 1.0
    decreases |alive| - i
  {
    if i == |alive| then []
    else KillStains(alive, hits, draws, now, i + 1)
         + (if alive[i] && hits[i] then Effects.BloodStains(now, draws[i]) else [])
  }

  /** The views of a list of pedestrians. */
  ghost function ViewsOf(ps: seq<Pedestrians.Pedestrian>): (r: seq<Pedestrians.PedView>)
    reads set p | p in ps
    ensures |r| == |ps| && forall j {:trigger r[j]} :: 0 <= j < |ps| ==> r[j] == ps[j].View()
  {
    if ps == [] then [] else [ps[0].View()] + ViewsOf(ps[1..])
  }

  /** Every kill lays between three and five stains. */
  lemma {:induction false} KillStainsCount(alive: seq<bool>, hits: seq<bool>, draws: seq<real>, now: int, i: nat)
    requires |hits| == |alive| && |draws| == |alive| && i <= |alive|
    requires forall j :: 0 <= j < |draws| ==> 0.0 <= draws[j] < 1.0
    ensures 3 * KillsFrom(alive, hits, i) <= |KillStains(alive, hits, draws, now, i)| <= 5 * KillsFrom(alive, hits, i)
    decreases |alive| - i
  {
    if i < |alive| {
      KillStainsCount(alive, hits, draws, now, i + 1);
    }
  }

  /** For each pedestrian, whether the sweep clears it: a fallen body that has lain
      longer than five seconds. */
  function CorpseFlags(ps: seq<Pedestrians.Pedestrian>, now: int): (r: seq<bool>)
    reads set p | p in ps
    ensures |r| == |ps|
    ensures forall i :: 0 <= i < |ps| ==> r[i] == (ps[i].fallenBody && now - ps[i].deathTime > CorpseLifetime)
  {
    if ps == [] then []
    else [ps[0].fallenBody && now - ps[0].deathTime > CorpseLifetime] + CorpseFlags(ps[1..], now)
  }

  /** The pedestrians the sweep spawns for the corpses from index `i` on, in the order
      it spawns them: the sweep runs from the last index down, and the corpse at index
      `c` is replaced by a newcomer drawn with `spawns[c]`. */
  function Respawned(spawns: seq<Spawn>, corpse: seq<bool>, i: nat): (r: seq<Pedestrians.PedView>)
    requires i <= |corpse| <= |spawns| && forall j :: 0 <= j < |spawns| ==> SpawnOk(spawns[j])
    decreases |corpse| - i
  {
    if i == |corpse| then []
    else Respawned(spawns, corpse, i + 1) + (if corpse[i] then [Newcomer(spawns[i])] else [])
  }

  /** The indices of the corpses from index `i` on, in the order the sweep reaches
      them: from the last down. */
  function CorpseIndices(corpse: seq<bool>, i: nat): (r: seq<nat>)
    requires i <= |corpse|
    ensures forall m :: 0 <= m < |r| ==> i <= r[m] < |corpse| && corpse[r[m]]
    ensures forall m, n :: 0 <= m < n < |r| ==> r[m] > r[n]
    ensures forall c :: i <= c < |corpse| && corpse[c] ==> c in r
    decreases |corpse| - i
  {
    if i == |corpse| then []
    else CorpseIndices(corpse, i + 1) + (if corpse[i] then [i] else [])
  }

  /** The `m`-th newcomer of the sweep is the one drawn for the `m`-th corpse it
      reaches, counting down from the end of the list. */
  lemma {:induction false} RespawnedFromCorpses(spawns: seq<Spawn>, corpse: seq<bool>, i: nat)
    requires i <= |corpse| <= |spawns| && forall j :: 0 <= j < |spawns| ==> SpawnOk(spawns[j])
    ensures |Respawned(spawns, corpse, i)| == |CorpseIndices(corpse, i)|
    ensures forall m :: 0 <= m < |Respawned(spawns, corpse, i)| ==>
      Respawned(spawns, corpse, i)[m] == Newcomer(spawns[CorpseIndices(corpse, i)[m]])
    decreases |corpse| - i
  {
    if i < |corpse| {
      RespawnedFromCorpses(spawns, corpse, i + 1);
    }
  }

  /** The pedestrians the sweep keeps, in their order. */
  function Kept(ps: seq<Pedestrians.Pedestrian>, corpse: seq<bool>): (r: seq<Pedestrians.Pedestrian>)
    requires |corpse| == |ps|
    ensures |r| <= |ps|
  {
    if ps == [] then []
    else (if corpse[0] then [] else [ps[0]]) + Kept(ps[1..], corpse[1..])
  }

  lemma KeptStep(ps: seq<Pedestrians.Pedestrian>, corpse: seq<bool>, i: nat)
    requires |corpse| == |ps| && i < |ps|
    ensures corpse[i] ==> Kept(ps[i..], corpse[i..]) == Kept(ps[i + 1..], corpse[i + 1..])
    ensures !corpse[i] ==> Kept(ps[i..], corpse[i..]) == [ps[i]] + Kept(ps[i + 1..], corpse[i + 1..])
  {
    assert ps[i..][1..] == ps[i + 1..];
    assert corpse[i..][1..] == corpse[i + 1..];
  }

  /** With no corpse on the list the sweep keeps everyone. */
  lemma {:induction false} KeptAllWithoutCorpses(ps: seq<Pedestrians.Pedestrian>, corpse: seq<bool>)
    requires |corpse| == |ps|
    requires forall i :: 0 <= i < |corpse| ==> !corpse[i]
    ensures Kept(ps, corpse) == ps
  {
    if ps != [] {
      KeptAllWithoutCorpses(ps[1..], corpse[1..]);
    }
  }

  /** The sweep keeps exactly the pedestrians that are not corpses. */
  lemma {:induction false} KeptExactly(ps: seq<Pedestrians.Pedestrian>, corpse: seq<bool>, i: nat)
    requires |corpse| == |ps| && i < |ps| && Distinct(ps)
    ensures ps[i] in Kept(ps, corpse) <==> !corpse[i]
  {
    if i > 0 {
      KeptExactly(ps[1..], corpse[1..], i - 1);
      assert ps[i] != ps[0];
    } else {
      KeptOmits(ps[1..], corpse[1..], ps[0]);
    }
  }

  lemma {:induction false} KeptOmits(ps: seq<Pedestrians.Pedestrian>, corpse: seq<bool>, p: Pedestrians.Pedestrian)
    requires |corpse| == |ps| && p !in ps
    ensures p !in Kept(ps, corpse)
  {
    if ps != [] {
      KeptOmits(ps[1..], corpse[1..], p);
    }
  }

  /** A sequence has no more distinct elements than entries. */
  lemma {:induction false} SetOfSeqBound<T>(s: seq<T>)
    ensures |set x | x in s| <= |s|
  {
    if s != [] {
      SetOfSeqBound(s[1..]);
      assert (set x | x in s) == (set x | x in s[1..]) + {s[0]};
    }
  }

  lemma {:induction false} SubsetCardinality<T>(a: set<T>, b: set<T>)
    requires a <= b
    ensures |a| <= |b|
    decreases b
  {
    if a != {} {
      var x :| x in a;
      SubsetCardinality(a - {x}, b - {x});
    }
  }

  /** What the sweep does to a body it clears: `cleanupRagdoll` when its ragdoll is
      active, `remove` otherwise. */
  function Cleared(v: Pedestrians.PedView): Pedestrians.PedView {
    if v.ragdollActive then Pedestrians.CleanedUp(v) else Pedestrians.Removed(v)
  }

  /** The victims of the hit loop from index `i` on, in the order it strikes them: from
      the last index down. */
  function VictimOrder(ps: seq<Pedestrians.Pedestrian>, alive: seq<bool>, hits: seq<bool>, i: nat): seq<Pedestrians.Pedestrian>
    requires |alive| == |ps| && |hits| == |ps| && i <= |ps|
    decreases |ps| - i
  {
    if i == |ps| then []
    else VictimOrder(ps, alive, hits, i + 1) + (if alive[i] && hits[i] then [ps[i]] else [])
  }

  /** The strike order lists the victims and no one else, one entry per kill. */
  lemma {:induction false} VictimOrderLists(ps: seq<Pedestrians.Pedestrian>, alive: seq<bool>, hits: seq<bool>, i: nat)
    requires |alive| == |ps| && |hits| == |ps| && i <= |ps|
    ensures |VictimOrder(ps, alive, hits, i)| == KillsFrom(alive, hits, i)
    ensures forall q :: q in VictimOrder(ps, alive, hits, i) <==> q in Victims(ps, alive, hits, i)
    decreases |ps| - i
  {
    if i < |ps| {
      VictimOrderLists(ps, alive, hits, i + 1);
    }
  }

  /** The registry after `activateRagdoll` has admitted each pedestrian of `order` in
      turn. */
  function AdmitAll(entries: seq<Pedestrians.Pedestrian>, order: seq<Pedestrians.Pedestrian>): seq<Pedestrians.Pedestrian>
    decreases |order|
  {
    if order == [] then entries
    else Pedestrians.Admit(AdmitAll(entries, order[..|order| - 1]), order[|order| - 1])
  }

  lemma AdmitAllStep(entries: seq<Pedestrians.Pedestrian>, order: seq<Pedestrians.Pedestrian>, p: Pedestrians.Pedestrian)
    ensures AdmitAll(entries, order + [p]) == Pedestrians.Admit(AdmitAll(entries, order), p)
  {
    assert (order + [p])[..|order|] == order;
  }

  /** Capping twice is capping once. */
  lemma {:induction false} NewestOfNewest<T>(s: seq<T>, p: T, cap: nat)
    requires cap > 0
    ensures Effects.Newest(Effects.Newest(s, cap) + [p], cap) == Effects.Newest(s + [p], cap)
    decreases |s|
  {
    if |s| > cap {
      assert (s + [p])[1..] == s[1..] + [p];
      NewestOfNewest(s[1..], p, cap);
    }
  }

  /** From a registry within the cap, admitting a run of pedestrians leaves the five
      admitted last, counting those already there as the oldest. */
  lemma {:induction false} AdmitAllKeepsNewest(entries: seq<Pedestrians.Pedestrian>, order: seq<Pedestrians.Pedestrian>)
    requires |entries| <= Pedestrians.MaxActiveRagdolls
    ensures AdmitAll(entries, order) == Effects.Newest(entries + order, Pedestrians.MaxActiveRagdolls)
    decreases |order|
  {
    if order != [] {
      var rest, p := order[..|order| - 1], order[|order| - 1];
      assert order == rest + [p];
      assert entries + order == (entries + rest) + [p];
      var r := AdmitAll(entries, rest);
      AdmitAllKeepsNewest(entries, rest);
      Pedestrians.AdmitKeepsNewest(r, p);
      NewestOfNewest(entries + rest, p, Pedestrians.MaxActiveRagdolls);
    }
  }

  /** Admitting a pedestrian not yet on the registry keeps the entries distinct. */
  lemma AdmitDistinct(entries: seq<Pedestrians.Pedestrian>, p: Pedestrians.Pedestrian)
    requires Distinct(entries) && p !in entries
    ensures Distinct(Pedestrians.Admit(entries, p))
  {
    var pushed := entries + [p];
    assert Distinct(pushed);
  }

  /** On a registry without repeats, another pedestrian stays on it exactly when it is on
      it and not the one evicted. */
  lemma AdmitMembers(entries: seq<Pedestrians.Pedestrian>, p: Pedestrians.Pedestrian, q: Pedestrians.Pedestrian)
    requires Distinct(entries) && q != p
    ensures q in Pedestrians.Admit(entries, p) <==> q in entries && q !in Pedestrians.Evicted(entries)
  {
    if q in entries && q !in Pedestrians.Evicted(entries) {
      Pedestrians.AdmitKeepsOthers(entries, p, q);
    }
    if |entries| + 1 > Pedestrians.MaxActiveRagdolls && q in Pedestrians.Evicted(entries) {
      assert q == entries[0];
      assert forall j :: 0 <= j < |entries| - 1 ==> Pedestrians.Admit(entries, p)[j] == entries[j + 1];
    }
  }

  /** What the hit loop leaves of a pedestrian whose view was `v0` and now is `r`: a
      victim still on the registry is the ragdoll `activateRagdoll` made of it, with the
      bodies it now holds; a victim a later kill pushed off the registry has been cleaned
      up again; a bystander pushed off the registry has been cleaned up; no one else
      changes. */
  predicate AfterHits(v0: Pedestrians.PedView, r: Pedestrians.PedView, struck: bool, wasEntry: bool, isEntry: bool,
                      speed: real, now: int)
  {
    if struck then
      if isEntry then
        r.torso != null && r.head != null && r.neck != null
        && r == Pedestrians.Activated(v0, r.torso, r.head, r.neck, speed, now)
      else r == Pedestrians.Discarded(v0, speed, now)
    else if wasEntry && !isEntry then r == Pedestrians.CleanedUp(v0)
    else r == v0
  }

  /** The hit loop's effect on the registry and on the views once the pedestrians from
      index `i` on are done: `vs0` and `entries0` are the views and the registry it
      started from, `vs` and `entries` the current ones. */
  predicate HitsDone(ps: seq<Pedestrians.Pedestrian>, alive: seq<bool>, hits: seq<bool>, speed: real, now: int,
                     vs0: seq<Pedestrians.PedView>, entries0: seq<Pedestrians.Pedestrian>,
                     vs: seq<Pedestrians.PedView>, entries: seq<Pedestrians.Pedestrian>, i: nat)
  {
    && |vs0| == |ps| && |vs| == |ps| && |alive| == |ps| && |hits| == |ps| && i <= |ps|
    && entries == AdmitAll(entries0, VictimOrder(ps, alive, hits, i))
    && forall j :: 0 <= j < |ps| ==> StruckAt(ps, alive, hits, speed, now, vs0, entries0, vs, entries, i, j)
  }

  /** `HitsDone` for the pedestrian at index `j`: it was not on the registry if it was
      alive, it is on the registry only if it was there or has been struck, and its view
      is as `AfterHits` says. */
  predicate StruckAt(ps: seq<Pedestrians.Pedestrian>, alive: seq<bool>, hits: seq<bool>, speed: real, now: int,
                     vs0: seq<Pedestrians.PedView>, entries0: seq<Pedestrians.Pedestrian>,
                     vs: seq<Pedestrians.PedView>, entries: seq<Pedestrians.Pedestrian>, i: nat, j: nat)
    requires |vs0| == |ps| && |vs| == |ps| && |alive| == |ps| && |hits| == |ps| && j < |ps|
  {
    && (alive[j] ==> ps[j] !in entries0)
    && (ps[j] in entries ==> ps[j] in entries0 || (i <= j && alive[j] && hits[j]))
    && AfterHits(vs0[j], vs[j], i <= j && alive[j] && hits[j], ps[j] in entries0, ps[j] in entries, speed, now)
  }

  /** Before the first strike nothing has happened. */
  lemma HitsStart(ps: seq<Pedestrians.Pedestrian>, alive: seq<bool>, hits: seq<bool>, speed: real, now: int,
                  vs0: seq<Pedestrians.PedView>, entries0: seq<Pedestrians.Pedestrian>)
    requires |vs0| == |ps| && |alive| == |ps| && |hits| == |ps|
    requires forall j :: 0 <= j < |ps| && alive[j] ==> ps[j] !in entries0
    ensures HitsDone(ps, alive, hits, speed, now, vs0, entries0, vs0, entries0, |ps|)
  {
    assert VictimOrder(ps, alive, hits, |ps|) == [];
    forall j | 0 <= j < |ps|
      ensures StruckAt(ps, alive, hits, speed, now, vs0, entries0, vs0, entries0, |ps|, j)
    {
    }
  }

  /** The hit loop passes over the pedestrian at index `k`, dead or not hit. */
  lemma HitsPass(ps: seq<Pedestrians.Pedestrian>, alive: seq<bool>, hits: seq<bool>, speed: real, now: int,
                 vs0: seq<Pedestrians.PedView>, entries0: seq<Pedestrians.Pedestrian>,
                 vs: seq<Pedestrians.PedView>, entries: seq<Pedestrians.Pedestrian>, k: nat)
    requires HitsDone(ps, alive, hits, speed, now, vs0, entries0, vs, entries, k + 1)
    requires !(alive[k] && hits[k])
    ensures HitsDone(ps, alive, hits, speed, now, vs0, entries0, vs, entries, k)
  {
    var order := VictimOrder(ps, alive, hits, k + 1);
    assert order + [] == order;
    assert VictimOrder(ps, alive, hits, k) == order;
    forall j | 0 <= j < |ps|
      ensures StruckAt(ps, alive, hits, speed, now, vs0, entries0, vs, entries, k, j)
    {
      assert StruckAt(ps, alive, hits, speed, now, vs0, entries0, vs, entries, k + 1, j);
    }
  }

  /** What one strike does to the views `vs` of the pedestrian list, giving `vs'`: the
      pedestrian at index `k` becomes the ragdoll `activateRagdoll` makes of it, the entry
      the registry `entries` pushes off is cleaned up, and no one else changes. */
  predicate StrikeViews(ps: seq<Pedestrians.Pedestrian>, vs: seq<Pedestrians.PedView>, vs': seq<Pedestrians.PedView>,
                        entries: seq<Pedestrians.Pedestrian>, k: nat, speed: real, now: int)
  {
    && |vs| == |ps| && |vs'| == |ps| && k < |ps|
    && vs'[k].torso != null && vs'[k].head != null && vs'[k].neck != null
    && vs'[k] == Pedestrians.Activated(vs[k], vs'[k].torso, vs'[k].head, vs'[k].neck, speed, now)
    && (forall j {:trigger vs'[j]} :: 0 <= j < |ps| && ps[j] in Pedestrians.Evicted(entries) ==> vs'[j] == Pedestrians.CleanedUp(vs[j]))
    && forall j {:trigger vs'[j]} :: 0 <= j < |ps| && j != k && ps[j] !in Pedestrians.Evicted(entries) ==> vs'[j] == vs[j]
  }

  /** The hit loop strikes the pedestrian at index `k`: it becomes a ragdoll, is
      admitted to the registry, and the entry that falls off is cleaned up. */
  lemma HitsStrike(ps: seq<Pedestrians.Pedestrian>, alive: seq<bool>, hits: seq<bool>, speed: real, now: int,
                   vs0: seq<Pedestrians.PedView>, entries0: seq<Pedestrians.Pedestrian>,
                   vs: seq<Pedestrians.PedView>, entries: seq<Pedestrians.Pedestrian>, vs': seq<Pedestrians.PedView>,
                   k: nat)
    requires HitsDone(ps, alive, hits, speed, now, vs0, entries0, vs, entries, k + 1)
    requires Distinct(ps) && Distinct(entries)
    requires alive[k] && hits[k] && StrikeViews(ps, vs, vs', entries, k, speed, now)
    ensures ps[k] !in entries
    ensures HitsDone(ps, alive, hits, speed, now, vs0, entries0, vs', Pedestrians.Admit(entries, ps[k]), k)
  {
    var order := VictimOrder(ps, alive, hits, k + 1);
    assert VictimOrder(ps, alive, hits, k) == order + [ps[k]];
    AdmitAllStep(entries0, order, ps[k]);
    assert StruckAt(ps, alive, hits, speed, now, vs0, entries0, vs, entries, k + 1, k);
    assert ps[k] !in entries;
    forall j | 0 <= j < |ps|
      ensures StruckAt(ps, alive, hits, speed, now, vs0, entries0, vs', Pedestrians.Admit(entries, ps[k]), k, j)
    {
      HitsStrikeAt(ps, alive, hits, speed, now, vs0, entries0, vs, entries, vs', k, j);
    }
  }

  /** `HitsStrike` for the pedestrian at index `j`. */
  lemma HitsStrikeAt(ps: seq<Pedestrians.Pedestrian>, alive: seq<bool>, hits: seq<bool>, speed: real, now: int,
                     vs0: seq<Pedestrians.PedView>, entries0: seq<Pedestrians.Pedestrian>,
                     vs: seq<Pedestrians.PedView>, entries: seq<Pedestrians.Pedestrian>, vs': seq<Pedestrians.PedView>,
                     k: nat, j: nat)
    requires HitsDone(ps, alive, hits, speed, now, vs0, entries0, vs, entries, k + 1)
    requires Distinct(ps) && Distinct(entries)
    requires alive[k] && hits[k] && StrikeViews(ps, vs, vs', entries, k, speed, now) && j < |ps| && ps[k] !in entries
    ensures StruckAt(ps, alive, hits, speed, now, vs0, entries0, vs', Pedestrians.Admit(entries, ps[k]), k, j)
  {
    assert StruckAt(ps, alive, hits, speed, now, vs0, entries0, vs, entries, k + 1, j);
    assert StruckAt(ps, alive, hits, speed, now, vs0, entries0, vs, entries, k + 1, k);
    var admitted := Pedestrians.Admit(entries, ps[k]);
    if j == k {
      assert vs[k] == vs0[k];
      assert admitted[|admitted| - 1] == ps[k];
    } else {
      assert ps[j] != ps[k];
      AdmitMembers(entries, ps[k], ps[j]);
      if ps[j] in Pedestrians.Evicted(entries) {
        if k + 1 <= j && alive[j] && hits[j] {
          Pedestrians.CleanedUpActivated(vs0[j], vs[j].torso, vs[j].head, vs[j].neck, speed, now);
        }
      }
    }
  }

  /** `new Pedestrian(x, z)` at the drawn sidewalk point. */
  method Respawn(s: Spawn) returns (p: Pedestrians.Pedestrian)
    requires SpawnOk(s)
    ensures fresh(p) && p.View() == Newcomer(s)
  {
    var at := Sidewalk.CandidatePoint(s.where);
    p := new Pedestrians.Pedestrian(at.x, at.z, s.speedDraw, s.attempts);
  }

  /** `spawnPedestrians(count)`: one new pedestrian per spawn, in order. */
  method SpawnPedestrians(spawns: seq<Spawn>) returns (ps: seq<Pedestrians.Pedestrian>)
    requires forall i :: 0 <= i < |spawns| ==> SpawnOk(spawns[i])
    ensures |ps| == |spawns| && Distinct(ps)
    ensures forall i :: 0 <= i < |spawns| ==> fresh(ps[i]) && ps[i].View() == Newcomer(spawns[i])
  {
    ps := [];
    var i := 0;
    while i < |spawns|
      invariant 0 <= i <= |spawns| && |ps| == i && Distinct(ps)
      invariant forall j :: 0 <= j < i ==> fresh(ps[j]) && ps[j].View() == Newcomer(spawns[j])
    {
      var p := Respawn(spawns[i]);
      ps := ps + [p];
      i := i + 1;
    }
  }

  /** The sweep's clean-up of one body: `cleanupRagdoll` when its ragdoll is active,
      `remove` otherwise. */
  method ClearCorpse(p: Pedestrians.Pedestrian)
    modifies p
    ensures p.View() == Cleared(old(p.View()))
  {
    if p.ragdollActive {
      p.CleanupRagdoll();
    } else {
      p.Remove();
    }
  }

  class Game {
    const car: Vehicle.Car
    const tireMarks: Effects.EffectList
    const debris: Effects.EffectList
    const markers: Effects.EffectList
    const registry: Pedestrians.RagdollRegistry
    var pedestrians: seq<Pedestrians.Pedestrian>
    var score: int
    var killCount: int
    /** The pedestrians killed since the last restart. */
    ghost var killed: set<Pedestrians.Pedestrian>

    /** The three effect lists are distinct, the score is ten points per kill, and every
        kill is a different pedestrian. */
    ghost predicate Scored()
      reads this
    {
      && tireMarks != debris && tireMarks != markers && debris != markers
      && score == PointsPerKill * killCount
      && killCount == |killed|
    }

    /** A killed pedestrian never comes back to life. */
    ghost predicate KilledStayDead()
      reads this, killed
    {
      forall p :: p in killed ==> !p.isAlive
    }

    /** The registry holds at most five pedestrians, each once, all of them dead and on
        the pedestrian list. */
    ghost predicate RegistryOk()
      reads this, registry, registry.entries
    {
      && |registry.entries| <= Pedestrians.MaxActiveRagdolls && Distinct(registry.entries)
      && forall q :: q in registry.entries ==> !q.isAlive && q in pedestrians
    }

    /** The pedestrian list has no repeats, holds no fallen body, and every active
        ragdoll on it is on the registry. */
    ghost predicate PedestriansOk()
      reads this, registry, pedestrians
    {
      && Distinct(pedestrians)
      && forall p :: p in pedestrians ==> !p.fallenBody && (p.ragdollActive ==> p in registry.entries)
    }

    ghost predicate Valid()
      reads this, registry, registry.entries, pedestrians, killed
    {
      Scored() && KilledStayDead() && RegistryOk() && PedestriansOk()
    }

    /** The set of pedestrians whose ragdoll is being simulated. */
    ghost function ActiveRagdolls(): set<Pedestrians.Pedestrian>
      reads this, pedestrians
    {
      set p | p in pedestrians && p.ragdollActive
    }

    /** At most five ragdolls are simulated at any time. */
    lemma ActiveRagdollsBounded()
      requires Valid()
      ensures |ActiveRagdolls()| <= Pedestrians.MaxActiveRagdolls
    {
      var entries := set q | q in registry.entries;
      assert ActiveRagdolls() <= entries;
      SetOfSeqBound(registry.entries);
      SubsetCardinality(ActiveRagdolls(), entries);
    }

    /** The script's start-up: empty lists, the car at the start, and
        `spawnPedestrians(25)`, one spawn draw per pedestrian. */
    constructor (spawns: seq<Spawn>)
      requires |spawns| == InitialPedestrians
      requires forall i :: 0 <= i < |spawns| ==> SpawnOk(spawns[i])
      ensures Valid() && fresh(car) && fresh(tireMarks) && fresh(debris) && fresh(markers) && fresh(registry)
      ensures car.State() == Vehicle.InitialCar(Start)
      ensures tireMarks.items == [] && debris.items == [] && markers.items == [] && registry.entries == []
      ensures |pedestrians| == |spawns| && score == 0 && killCount == 0
      ensures forall i :: 0 <= i < |spawns| ==> pedestrians[i].View() == Newcomer(spawns[i])
    {
      car := new Vehicle.Car(Start);
      tireMarks := new Effects.EffectList();
      debris := new Effects.EffectList();
      markers := new Effects.EffectList();
      registry := new Pedestrians.RagdollRegistry();
      score, killCount := 0, 0;
      killed := {};
      var ps := SpawnPedestrians(spawns);
      pedestrians := ps;
      new;
      forall p | p in pedestrians
        ensures !p.fallenBody && !p.ragdollActive
      {
        var j :| 0 <= j < |pedestrians| && pedestrians[j] == p;
        assert p.View() == Newcomer(spawns[j]);
      }
    }

    /** One hit of the hit loop, on the pedestrian at index `k`: the kill is scored,
        the stains laid, and the pedestrian turned into a ragdoll hit at the car's
        travelled distance. Only the pedestrian and the registry entry it evicts
        change. */
    method Kill(k: nat, stainDraw: real, travelled: real, now: int)
      requires Valid() && k < |pedestrians| && pedestrians[k].isAlive && 0.0 <= stainDraw < 1.0
      modifies this, pedestrians[k], registry, Pedestrians.Evicted(registry.entries), debris
      ensures Valid()
      ensures pedestrians == old(pedestrians)
      ensures killed == old(killed) + {pedestrians[k]} && killCount == old(killCount) + 1 && score == old(score) + PointsPerKill
      ensures debris.items == old(debris.items) + Effects.BloodStains(now, stainDraw)
      ensures registry.entries == Pedestrians.Admit(old(registry.entries), pedestrians[k])
      ensures var ped := pedestrians[k];
        ped.state == Pedestrians.Falling && !ped.isAlive && ped.ragdollActive && ped.deathTime == now
      ensures StrikeViews(pedestrians, old(ViewsOf(pedestrians)), ViewsOf(pedestrians), old(registry.entries), k, travelled, now)
      ensures forall j :: 0 <= j < |pedestrians| && j != k ==>
        pedestrians[j].isAlive == old(pedestrians[j].isAlive) && pedestrians[j].state == old(pedestrians[j].state)
    {
      var ped := pedestrians[k];
      ghost var vs := ViewsOf(pedestrians);
      assert ped !in killed;
      Tally(ped, stainDraw, now);
      assert ViewsOf(pedestrians) == vs;
      Strike(ped, k, travelled, now);
    }

    /** The bookkeeping of a kill: one more kill, ten more points, and the blood stains. */
    method Tally(ped: Pedestrians.Pedestrian, stainDraw: real, now: int)
      requires Scored() && ped !in killed && 0.0 <= stainDraw < 1.0
      modifies this`killCount, this`score, this`killed, debris
      ensures Scored() && killed == old(killed) + {ped}
      ensures killCount == old(killCount) + 1 && score == old(score) + PointsPerKill
      ensures debris.items == old(debris.items) + Effects.BloodStains(now, stainDraw)
    {
      killCount := killCount + 1;
      score := score + PointsPerKill;
      killed := killed + {ped};
      debris.PushAll(Effects.BloodStains(now, stainDraw));
    }

    /** The ragdoll half of a kill: `activateRagdoll` on a living pedestrian. */
    method Strike(ped: Pedestrians.Pedestrian, ghost k: nat, travelled: real, now: int)
      requires RegistryOk() && PedestriansOk()
      requires k < |pedestrians| && pedestrians[k] == ped && ped.isAlive
      requires forall p :: p in killed && p != ped ==> !p.isAlive
      modifies ped, registry, Pedestrians.Evicted(registry.entries)
      ensures KilledStayDead() && RegistryOk() && PedestriansOk()
      ensures registry.entries == Pedestrians.Admit(old(registry.entries), ped)
      ensures ped.state == Pedestrians.Falling && !ped.isAlive && ped.ragdollActive && ped.deathTime == now
      ensures StrikeViews(pedestrians, old(ViewsOf(pedestrians)), ViewsOf(pedestrians), old(registry.entries), k, travelled, now)
      ensures forall j :: 0 <= j < |pedestrians| && j != k ==>
        pedestrians[j].isAlive == old(pedestrians[j].isAlive) && pedestrians[j].state == old(pedestrians[j].state)
    {
      ghost var before := registry.entries;
      ghost var evicted := Pedestrians.Evicted(before);
      if evicted != [] && evicted[0] != ped {
        Pedestrians.CleanupIsIdempotent(evicted[0].View());
      }
      assert ped !in before;
      AdmitDistinct(before, ped);
      Ragdoll(ped, k, travelled, now);
      forall q | q in evicted
        ensures !q.isAlive && q.state == old(q.state)
      {
        assert q.View() == Pedestrians.CleanedUp(old(q.View()));
      }
      forall p | p in killed
        ensures !p.isAlive
      {
        if p != ped && p !in evicted {
          assert !old(p.isAlive);
          assert p.isAlive == old(p.isAlive);
        }
      }
      assert RegistryOk() by {
        forall q | q in registry.entries
          ensures !q.isAlive && q in pedestrians
        {
          assert q in before || q == ped;
        }
      }
      forall p | p in pedestrians && p.ragdollActive
        ensures p in registry.entries
      {
        if p != ped {
          Pedestrians.AdmitKeepsOthers(before, ped, p);
        }
      }
    }

    /** `activateRagdoll` on the pedestrian at index `k`, seen on the views of the whole
        list. */
    method Ragdoll(ped: Pedestrians.Pedestrian, ghost k: nat, travelled: real, now: int)
      requires k < |pedestrians| && pedestrians[k] == ped && Distinct(pedestrians) && ped !in registry.entries
      requires forall q :: q in registry.entries ==> !q.isAlive
      modifies ped, registry, Pedestrians.Evicted(registry.entries)
      ensures registry.entries == Pedestrians.Admit(old(registry.entries), ped)
      ensures ped.torsoBody != null && ped.headBody != null && ped.neckConstraint != null
      ensures ped.View() == Pedestrians.Activated(old(ped.View()), ped.torsoBody, ped.headBody, ped.neckConstraint, travelled, now)
      ensures forall q :: q in Pedestrians.Evicted(old(registry.entries)) ==> q.View() == Pedestrians.CleanedUp(old(q.View()))
      ensures StrikeViews(pedestrians, old(ViewsOf(pedestrians)), ViewsOf(pedestrians), old(registry.entries), k, travelled, now)
      ensures forall j :: 0 <= j < |pedestrians| && j != k ==>
        pedestrians[j].isAlive == old(pedestrians[j].isAlive) && pedestrians[j].state == old(pedestrians[j].state)
      ensures forall p :: p in pedestrians ==> p.fallenBody == old(p.fallenBody)
      ensures forall p :: p in pedestrians && p.ragdollActive ==> p == ped || (p !in Pedestrians.Evicted(old(registry.entries)) && old(p.ragdollActive))
    {
      ghost var vs := ViewsOf(pedestrians);
      ghost var evicted := Pedestrians.Evicted(registry.entries);
      ped.ActivateRagdoll(registry, travelled, now);
      ghost var vs' := ViewsOf(pedestrians);
      forall j | 0 <= j < |pedestrians| && j != k && pedestrians[j] !in evicted
        ensures vs'[j] == vs[j]
      {
        assert pedestrians[j] != ped;
      }
      forall j | 0 <= j < |pedestrians| && j != k
        ensures pedestrians[j].isAlive == old(pedestrians[j].isAlive) && pedestrians[j].state == old(pedestrians[j].state)
      {
        if pedestrians[j] !in evicted {
          assert vs'[j] == vs[j];
        }
      }
      forall p | p in pedestrians
        ensures p.fallenBody == old(p.fallenBody)
        ensures p.ragdollActive ==> p == ped || (p !in evicted && old(p.ragdollActive))
      {
        var j :| 0 <= j < |pedestrians| && pedestrians[j] == p;
        if j != k && p !in evicted {
          assert vs'[j] == vs[j];
        }
      }
    }

    /** The hit loop of `updateCar`: the pedestrians from the last to the first, the
        dead skipped. */
    method HitPedestrians(f: Frame)
      requires Valid()
      requires |f.hits| == |pedestrians| && |f.stainDraws| == |pedestrians|
      requires forall j :: 0 <= j < |f.stainDraws| ==> 0.0 <= f.stainDraws[j] < 1.0
      modifies this, registry, pedestrians, debris
      ensures Valid()
      ensures pedestrians == old(pedestrians)
      ensures var alive := old(AliveFlags(pedestrians));
        && killed == old(killed) + Victims(pedestrians, alive, f.hits, 0)
        && killCount == old(killCount) + KillsFrom(alive, f.hits, 0)
        && debris.items == old(debris.items) + KillStains(alive, f.hits, f.stainDraws, f.now, 0)
        && forall j :: 0 <= j < |pedestrians| ==>
             if alive[j] && f.hits[j] then pedestrians[j].state == Pedestrians.Falling && !pedestrians[j].isAlive
             else pedestrians[j].isAlive == alive[j]
      ensures registry.entries == AdmitAll(old(registry.entries), VictimOrder(pedestrians, old(AliveFlags(pedestrians)), f.hits, 0))
      ensures forall j :: 0 <= j < |pedestrians| ==>
        AfterHits(old(pedestrians[j].View()), pedestrians[j].View(), old(pedestrians[j].isAlive) && f.hits[j],
                  pedestrians[j] in old(registry.entries), pedestrians[j] in registry.entries, f.travelled, f.now)
    {
      ghost var alive := AliveFlags(pedestrians);
      ghost var vs0 := ViewsOf(pedestrians);
      HitsStart(pedestrians, alive, f.hits, f.travelled, f.now, vs0, registry.entries);
      RunHits(f, alive, vs0);
      forall j | 0 <= j < |pedestrians|
        ensures AfterHits(vs0[j], pedestrians[j].View(), alive[j] && f.hits[j],
                          pedestrians[j] in old(registry.entries), pedestrians[j] in registry.entries, f.travelled, f.now)
      {
        assert StruckAt(pedestrians, alive, f.hits, f.travelled, f.now, vs0, old(registry.entries),
                        ViewsOf(pedestrians), registry.entries, 0, j);
      }
    }

    /** The loop itself, from the flags `alive` and the views `vs0` at its start. */
    method RunHits(f: Frame, ghost alive: seq<bool>, ghost vs0: seq<Pedestrians.PedView>)
      requires HitProgress(f, alive, killed, killCount, debris.items, |pedestrians|)
      requires vs0 == ViewsOf(pedestrians)
      requires HitsDone(pedestrians, alive, f.hits, f.travelled, f.now, vs0, registry.entries, vs0, registry.entries, |pedestrians|)
      modifies this, registry, pedestrians, debris
      ensures pedestrians == old(pedestrians)
      ensures HitProgress(f, alive, old(killed), old(killCount), old(debris.items), 0)
      ensures HitsDone(pedestrians, alive, f.hits, f.travelled, f.now, vs0, old(registry.entries),
                       ViewsOf(pedestrians), registry.entries, 0)
    {
      var i := |pedestrians|;
      while i > 0
        invariant 0 <= i <= |pedestrians| && pedestrians == old(pedestrians)
        invariant HitProgress(f, alive, old(killed), old(killCount), old(debris.items), i)
        invariant HitsDone(pedestrians, alive, f.hits, f.travelled, f.now, vs0, old(registry.entries),
                           ViewsOf(pedestrians), registry.entries, i)
        decreases i
      {
        HitAt(f, alive, old(killed), old(killCount), old(debris.items), vs0, old(registry.entries), i);
        i := i - 1;
      }
    }

    /** The state of the hit loop once the pedestrians from index `i` on are done. */
    ghost predicate HitProgress(f: Frame, alive: seq<bool>, killed0: set<Pedestrians.Pedestrian>, killCount0: int,
                                debris0: seq<Effects.Effect>, i: nat)
      reads this, registry, registry.entries, pedestrians, killed, debris
    {
      && i <= |pedestrians| && |alive| == |pedestrians|
      && |f.hits| == |pedestrians| && |f.stainDraws| == |pedestrians|
      && (forall j :: 0 <= j < |f.stainDraws| ==> 0.0 <= f.stainDraws[j] < 1.0)
      && Valid()
      && killed == killed0 + Victims(pedestrians, alive, f.hits, i)
      && killCount == killCount0 + KillsFrom(alive, f.hits, i)
      && debris.items == debris0 + KillStains(alive, f.hits, f.stainDraws, f.now, i)
      && forall j :: 0 <= j < |pedestrians| ==>
           if i <= j && alive[j] && f.hits[j] then pedestrians[j].state == Pedestrians.Falling && !pedestrians[j].isAlive
           else pedestrians[j].isAlive == alive[j]
    }

    /** One step of the hit loop: the pedestrian at index `i - 1` is killed when it is
        alive and hit. */
    method HitAt(f: Frame, ghost alive: seq<bool>, ghost killed0: set<Pedestrians.Pedestrian>, ghost killCount0: int,
                 ghost debris0: seq<Effects.Effect>, ghost vs0: seq<Pedestrians.PedView>,
                 ghost entries0: seq<Pedestrians.Pedestrian>, i: nat)
      requires 0 < i <= |pedestrians| && HitProgress(f, alive, killed0, killCount0, debris0, i)
      requires HitsDone(pedestrians, alive, f.hits, f.travelled, f.now, vs0, entries0, ViewsOf(pedestrians), registry.entries, i)
      modifies this, registry, pedestrians, debris
      ensures pedestrians == old(pedestrians)
      ensures HitProgress(f, alive, killed0, killCount0, debris0, i - 1)
      ensures HitsDone(pedestrians, alive, f.hits, f.travelled, f.now, vs0, entries0, ViewsOf(pedestrians), registry.entries, i - 1)
    {
      var k := i - 1;
      assert k + 1 == i;
      assert pedestrians[k].isAlive == alive[k];
      if pedestrians[k].isAlive && f.hits[k] {
        StrikeAt(f, alive, killed0, killCount0, debris0, vs0, entries0, i);
      } else {
        SkipAt(f, alive, killed0, killCount0, debris0, i);
        HitsPass(pedestrians, alive, f.hits, f.travelled, f.now, vs0, entries0, ViewsOf(pedestrians), registry.entries, k);
      }
    }

    /** The hit loop strikes the pedestrian at index `i - 1`, alive and hit. */
    method StrikeAt(f: Frame, ghost alive: seq<bool>, ghost killed0: set<Pedestrians.Pedestrian>, ghost killCount0: int,
                    ghost debris0: seq<Effects.Effect>, ghost vs0: seq<Pedestrians.PedView>,
                    ghost entries0: seq<Pedestrians.Pedestrian>, i: nat)
      requires 0 < i <= |pedestrians| && HitProgress(f, alive, killed0, killCount0, debris0, i)
      requires HitsDone(pedestrians, alive, f.hits, f.travelled, f.now, vs0, entries0, ViewsOf(pedestrians), registry.entries, i)
      requires alive[i - 1] && f.hits[i - 1]
      modifies this, registry, pedestrians, debris
      ensures pedestrians == old(pedestrians)
      ensures HitProgress(f, alive, killed0, killCount0, debris0, i - 1)
      ensures HitsDone(pedestrians, alive, f.hits, f.travelled, f.now, vs0, entries0, ViewsOf(pedestrians), registry.entries, i - 1)
    {
      var k := i - 1;
      assert k + 1 == i;
      ghost var vs := ViewsOf(pedestrians);
      ghost var entries := registry.entries;
      KillAt(f, alive, killed0, killCount0, debris0, i);
      HitsStrike(pedestrians, alive, f.hits, f.travelled, f.now, vs0, entries0, vs, entries, ViewsOf(pedestrians), k);
    }

    /** The hit loop passes over a pedestrian that was dead or not hit. */
    lemma SkipAt(f: Frame, alive: seq<bool>, killed0: set<Pedestrians.Pedestrian>, killCount0: int,
                 debris0: seq<Effects.Effect>, i: nat)
      requires 0 < i <= |pedestrians| && HitProgress(f, alive, killed0, killCount0, debris0, i)
      requires !(alive[i - 1] && f.hits[i - 1])
      ensures HitProgress(f, alive, killed0, killCount0, debris0, i - 1)
    {
      var k := i - 1;
      assert k + 1 == i;
      assert KillStains(alive, f.hits, f.stainDraws, f.now, k) == KillStains(alive, f.hits, f.stainDraws, f.now, i) + [];
    }

    /** The hit loop kills the pedestrian at index `i - 1`, alive and hit. */
    method KillAt(f: Frame, ghost alive: seq<bool>, ghost killed0: set<Pedestrians.Pedestrian>, ghost killCount0: int,
                  ghost debris0: seq<Effects.Effect>, i: nat)
      requires 0 < i <= |pedestrians| && HitProgress(f, alive, killed0, killCount0, debris0, i)
      requires alive[i - 1] && f.hits[i - 1]
      modifies this, registry, pedestrians, debris
      ensures pedestrians == old(pedestrians)
      ensures HitProgress(f, alive, killed0, killCount0, debris0, i - 1)
      ensures registry.entries == Pedestrians.Admit(old(registry.entries), pedestrians[i - 1])
      ensures StrikeViews(pedestrians, old(ViewsOf(pedestrians)), ViewsOf(pedestrians), old(registry.entries), i - 1, f.travelled, f.now)
    {
      var k := i - 1;
      assert k + 1 == i;
      ghost var ped := pedestrians[k];
      ghost var stains := Effects.BloodStains(f.now, f.stainDraws[k]);
      assert ped.isAlive;
      ghost var ev := Pedestrians.Evicted(registry.entries);
      assert forall j :: 0 <= j < |ev| ==> ev[j] in pedestrians;
      Kill(k, f.stainDraws[k], f.travelled, f.now);
      assert Victims(pedestrians, alive, f.hits, k) == Victims(pedestrians, alive, f.hits, i) + {ped};
      assert (killed0 + Victims(pedestrians, alive, f.hits, i)) + {ped} == killed0 + (Victims(pedestrians, alive, f.hits, i) + {ped});
      assert KillStains(alive, f.hits, f.stainDraws, f.now, k) == KillStains(alive, f.hits, f.stainDraws, f.now, i) + stains;
      assert (debris0 + KillStains(alive, f.hits, f.stainDraws, f.now, i)) + stains == debris0 + (KillStains(alive, f.hits, f.stainDraws, f.now, i) + stains);
      assert KillsFrom(alive, f.hits, k) == KillsFrom(alive, f.hits, i) + 1;
      forall j | 0 <= j < |pedestrians|
        ensures if k <= j && alive[j] && f.hits[j] then pedestrians[j].state == Pedestrians.Falling && !pedestrians[j].isAlive
                else pedestrians[j].isAlive == alive[j]
      {
        if j != k {
          assert pedestrians[j].isAlive == old(pedestrians[j].isAlive) && pedestrians[j].state == old(pedestrians[j].state);
        }
      }
    }

    /** The fallen-body sweep of `updateCar`: every body that has lain longer than five
        seconds is cleaned up (or just removed) and spliced out, and a new pedestrian is
        spawned at the end of the list for it. */
    method SweepFallen(now: int, spawns: seq<Spawn>)
      requires Distinct(pedestrians)
      requires |spawns| >= |pedestrians| && forall i :: 0 <= i < |spawns| ==> SpawnOk(spawns[i])
      modifies this`pedestrians, pedestrians
      ensures var corpse := old(CorpseFlags(pedestrians, now));
        var kept := Kept(old(pedestrians), corpse);
        && |pedestrians| == |old(pedestrians)| && pedestrians[..|kept|] == kept
        && |pedestrians| - |kept| == |Respawned(spawns, corpse, 0)|
        && forall j :: |kept| <= j < |pedestrians| ==>
             fresh(pedestrians[j]) && pedestrians[j].isAlive && pedestrians[j].View() == Respawned(spawns, corpse, 0)[j - |kept|]
      ensures var corpse := old(CorpseFlags(pedestrians, now));
        forall i :: 0 <= i < |old(pedestrians)| ==>
          old(pedestrians[i]).View() == if corpse[i] then Cleared(old(pedestrians[i].View())) else old(pedestrians[i].View())
    {
      ghost var ps := pedestrians;
      ghost var vs := ViewsOf(ps);
      ghost var corpse := CorpseFlags(pedestrians, now);
      assert ps[|ps|..] == [] && corpse[|ps|..] == [] && ps[..|ps|] == ps;
      ghost var spawned: seq<Pedestrians.Pedestrian>;
      spawned := RunSweep(now, spawns, ps, corpse, vs);
    }

    /** What the finished sweep leaves, in terms of the list it started from. */
    lemma SweepDone(now: int, spawns: seq<Spawn>, ps: seq<Pedestrians.Pedestrian>, corpse: seq<bool>,
                    vs: seq<Pedestrians.PedView>, spawned: seq<Pedestrians.Pedestrian>)
      requires SweepProgress(now, spawns, ps, corpse, vs, spawned, 0)
      ensures |corpse| == |ps| <= |spawns| && forall j :: 0 <= j < |spawns| ==> SpawnOk(spawns[j])
      ensures pedestrians == Kept(ps, corpse) + spawned && |pedestrians| == |ps|
      ensures |spawned| == |Respawned(spawns, corpse, 0)|
      ensures forall m :: 0 <= m < |spawned| ==>
        spawned[m].isAlive && spawned[m].View() == Respawned(spawns, corpse, 0)[m]
      ensures forall j :: 0 <= j < |ps| ==> ps[j].View() == if corpse[j] then Cleared(vs[j]) else vs[j]
    {
      assert ps[..0] == [] && ps[0..] == ps && corpse[0..] == corpse;
    }

    /** The loop of the sweep, from the last pedestrian of `ps` to the first. */
    method RunSweep(now: int, spawns: seq<Spawn>, ghost ps: seq<Pedestrians.Pedestrian>, ghost corpse: seq<bool>,
                    ghost vs: seq<Pedestrians.PedView>)
      returns (ghost spawned: seq<Pedestrians.Pedestrian>)
      requires SweepProgress(now, spawns, ps, corpse, vs, [], |ps|)
      requires |spawns| >= |ps| && forall j :: 0 <= j < |spawns| ==> SpawnOk(spawns[j])
      modifies this`pedestrians, ps
      ensures var kept := Kept(ps, corpse);
        && |pedestrians| == |ps| && pedestrians[..|kept|] == kept
        && |pedestrians| - |kept| == |Respawned(spawns, corpse, 0)|
        && forall j :: |kept| <= j < |pedestrians| ==>
             fresh(pedestrians[j]) && pedestrians[j].isAlive && pedestrians[j].View() == Respawned(spawns, corpse, 0)[j - |kept|]
      ensures forall j :: 0 <= j < |ps| ==> ps[j].View() == if corpse[j] then Cleared(vs[j]) else vs[j]
    {
      spawned := [];
      assert ps[..|ps|] == ps && ps[|ps|..] == [];
      var i := |pedestrians|;
      while i > 0
        invariant 0 <= i <= |ps| && SweepProgress(now, spawns, ps, corpse, vs, spawned, i)
        invariant forall p :: p in spawned ==> fresh(p)
        decreases i
      {
        assert old(allocated(ps[i - 1]));
        spawned := SweepAt(now, spawns, ps, corpse, vs, spawned, i);
        i := i - 1;
      }
      SweepDone(now, spawns, ps, corpse, vs, spawned);
      forall m | 0 <= m < |spawned|
        ensures fresh(spawned[m])
      {
        assert spawned[m] in spawned;
      }
      TailViews(Kept(ps, corpse), spawned, Respawned(spawns, corpse, 0));
    }

    /** The list `kept + spawned` read by index: the pedestrians past `kept` are the
        spawned ones, with the views `rs`. */
    lemma TailViews(kept: seq<Pedestrians.Pedestrian>, spawned: seq<Pedestrians.Pedestrian>, rs: seq<Pedestrians.PedView>)
      requires pedestrians == kept + spawned && |spawned| == |rs|
      requires forall m :: 0 <= m < |spawned| ==> spawned[m].isAlive && spawned[m].View() == rs[m]
      ensures pedestrians[..|kept|] == kept
      ensures forall j :: |kept| <= j < |pedestrians| ==>
        pedestrians[j] == spawned[j - |kept|] && pedestrians[j].isAlive && pedestrians[j].View() == rs[j - |kept|]
    {
      assert pedestrians[..|kept|] == kept;
      forall j | |kept| <= j < |pedestrians|
        ensures pedestrians[j] == spawned[j - |kept|]
      {
      }
    }

    /** The state of the sweep once the pedestrians from index `i` on are done: `ps`
        is the list it started from, `vs` their views then, `spawned` the pedestrians
        it has added. */
    ghost predicate SweepProgress(now: int, spawns: seq<Spawn>, ps: seq<Pedestrians.Pedestrian>, corpse: seq<bool>,
                                  vs: seq<Pedestrians.PedView>, spawned: seq<Pedestrians.Pedestrian>, i: nat)
      reads this, ps, spawned
    {
      && i <= |ps| && |corpse| == |ps| && |vs| == |ps| && Distinct(ps)
      && (forall j :: 0 <= j < |ps| ==> corpse[j] == (vs[j].fallenBody && now - vs[j].deathTime > CorpseLifetime))
      && pedestrians == ps[..i] + (Kept(ps[i..], corpse[i..]) + spawned)
      && |Kept(ps[i..], corpse[i..])| + |spawned| == |ps| - i
      && (forall j {:trigger ps[j].View()} :: 0 <= j < |ps| ==>
            ps[j].View() == if i <= j && corpse[j] then Cleared(vs[j]) else vs[j])
      && |spawns| >= |ps| && (forall j :: 0 <= j < |spawns| ==> SpawnOk(spawns[j]))
      && SpawnedAs(spawned, Respawned(spawns, corpse, i))
    }

    lemma SpawnedAsAppend(spawned: seq<Pedestrians.Pedestrian>, rs: seq<Pedestrians.PedView>,
                          p: Pedestrians.Pedestrian, v: Pedestrians.PedView)
      requires SpawnedAs(spawned, rs) && p.isAlive && p.View() == v
      ensures SpawnedAs(spawned + [p], rs + [v])
    {
    }

    /** The pedestrians `spawned` are alive and have the views `rs`. */
    ghost predicate SpawnedAs(spawned: seq<Pedestrians.Pedestrian>, rs: seq<Pedestrians.PedView>)
      reads spawned
    {
      |spawned| == |rs| && forall m :: 0 <= m < |spawned| ==> spawned[m].isAlive && spawned[m].View() == rs[m]
    }

    /** One step of the sweep, on the pedestrian at index `i - 1`. */
    method SweepAt(now: int, spawns: seq<Spawn>, ghost ps: seq<Pedestrians.Pedestrian>, ghost corpse: seq<bool>,
                   ghost vs: seq<Pedestrians.PedView>, ghost spawned: seq<Pedestrians.Pedestrian>, i: nat)
      returns (ghost spawned': seq<Pedestrians.Pedestrian>)
      requires 0 < i <= |ps| && SweepProgress(now, spawns, ps, corpse, vs, spawned, i)
      requires |spawns| >= |ps| && forall j :: 0 <= j < |spawns| ==> SpawnOk(spawns[j])
      requires ps[i - 1] !in spawned
      modifies this`pedestrians, ps[i - 1]
      ensures SweepProgress(now, spawns, ps, corpse, vs, spawned', i - 1)
      ensures forall p :: p in spawned' ==> p in spawned || fresh(p)
    {
      var k := i - 1;
      assert pedestrians[k] == ps[k] && ps[k].View() == vs[k];
      var ped := pedestrians[k];
      if ped.fallenBody && now - ped.deathTime > CorpseLifetime {
        spawned' := ReplaceAt(now, spawns, ps, corpse, vs, spawned, i);
      } else {
        PassAt(now, spawns, ps, corpse, vs, spawned, i);
        spawned' := spawned;
      }
    }

    /** The sweep cleans up the corpse at index `i - 1`, splices it out and appends a
        newcomer. */
    method ReplaceAt(now: int, spawns: seq<Spawn>, ghost ps: seq<Pedestrians.Pedestrian>, ghost corpse: seq<bool>,
                     ghost vs: seq<Pedestrians.PedView>, ghost spawned: seq<Pedestrians.Pedestrian>, i: nat)
      returns (ghost spawned': seq<Pedestrians.Pedestrian>)
      requires 0 < i <= |ps| && SweepProgress(now, spawns, ps, corpse, vs, spawned, i) && corpse[i - 1]
      requires |spawns| >= |ps| && forall j :: 0 <= j < |spawns| ==> SpawnOk(spawns[j])
      requires ps[i - 1] !in spawned
      modifies this`pedestrians, ps[i - 1]
      ensures SweepProgress(now, spawns, ps, corpse, vs, spawned', i - 1)
      ensures forall p :: p in spawned' ==> p in spawned || fresh(p)
    {
      var k := i - 1;
      assert k + 1 == i;
      assert SpawnedAs(spawned, Respawned(spawns, corpse, i));
      ghost var tail := Kept(ps[i..], corpse[i..]);
      KeptStep(ps, corpse, k);
      assert ps[..i] == ps[..k] + [ps[k]];
      assert pedestrians == ps[..k] + ([ps[k]] + (tail + spawned));
      assert pedestrians[k] == ps[k] && ps[k].View() == vs[k];
      assert pedestrians[..k] == ps[..k] && pedestrians[k + 1..] == tail + spawned;
      ghost var rs := Respawned(spawns, corpse, i);
      var newcomer := SpliceRespawn(k, spawns[k]);
      assert SpawnedAs(spawned, rs);
      assert (ps[..k] + (tail + spawned)) + [newcomer] == ps[..k] + (tail + (spawned + [newcomer]));
      spawned' := spawned + [newcomer];
      assert Respawned(spawns, corpse, k) == rs + [Newcomer(spawns[k])];
      SpawnedAsAppend(spawned, rs, newcomer, Newcomer(spawns[k]));
    }

    /** The statements of the sweep on a corpse at index `k`: clear it, splice it out,
        and push a newcomer drawn with `s`. */
    method SpliceRespawn(k: nat, s: Spawn) returns (newcomer: Pedestrians.Pedestrian)
      requires k < |pedestrians| && SpawnOk(s)
      modifies this`pedestrians, pedestrians[k]
      ensures fresh(newcomer) && newcomer.View() == Newcomer(s)
      ensures pedestrians == old(pedestrians[..k] + pedestrians[k + 1..]) + [newcomer]
      ensures old(pedestrians[k]).View() == Cleared(old(pedestrians[k].View()))
    {
      var ped := pedestrians[k];
      ClearCorpse(ped);
      pedestrians := pedestrians[..k] + pedestrians[k + 1..];
      newcomer := Respawn(s);
      pedestrians := pedestrians + [newcomer];
    }

    /** The sweep keeps the pedestrian at index `i - 1`, which is no old corpse. */
    lemma PassAt(now: int, spawns: seq<Spawn>, ps: seq<Pedestrians.Pedestrian>, corpse: seq<bool>,
                 vs: seq<Pedestrians.PedView>, spawned: seq<Pedestrians.Pedestrian>, i: nat)
      requires 0 < i <= |ps| && SweepProgress(now, spawns, ps, corpse, vs, spawned, i) && !corpse[i - 1]
      ensures SweepProgress(now, spawns, ps, corpse, vs, spawned, i - 1)
    {
      var k := i - 1;
      assert k + 1 == i;
      ghost var tail := Kept(ps[i..], corpse[i..]);
      KeptStep(ps, corpse, k);
      assert ps[..i] == ps[..k] + [ps[k]];
      assert pedestrians == ps[..k] + ([ps[k]] + (tail + spawned));
      assert [ps[k]] + (tail + spawned) == ([ps[k]] + tail) + spawned;
    }

    /** `updateCar` in kill mode. */
    method UpdateCar(f: Frame)
      requires Valid()
      requires |f.sparkDraws| >= Effects.SparkCount(3)
      requires |f.hits| == |pedestrians| && |f.stainDraws| == |pedestrians| && |f.spawns| >= |pedestrians|
      requires forall j :: 0 <= j < |f.stainDraws| ==> 0.0 <= f.stainDraws[j] < 1.0
      requires forall j :: 0 <= j < |f.spawns| ==> SpawnOk(f.spawns[j])
      modifies this, car, tireMarks, debris, markers, registry, pedestrians
      ensures Valid()
      ensures pedestrians == old(pedestrians)
      ensures var t := Vehicle.Tick(old(car.State()), f.keys, f.moved, f.collided);
        && car.State() == t.state
        && tireMarks.items == (if t.tireMark then Effects.Newest(old(tireMarks.items) + [Effects.TireMark(f.now), Effects.TireMark(f.now)], Effects.TireMarkCap) else old(tireMarks.items))
        && markers.items == old(markers.items) + (if t.effectTier > 0 then [Effects.Effect(f.now, Effects.CrackLifetime)] else [])
      ensures var alive := old(AliveFlags(pedestrians));
        var t := Vehicle.Tick(old(car.State()), f.keys, f.moved, f.collided);
        && (old(car.disabled) ==>
              debris.items == old(debris.items) && killed == old(killed) && killCount == old(killCount))
        && (!old(car.disabled) ==>
              && debris.items == old(debris.items)
                   + (if t.effectTier > 0 then Effects.CollisionDebris(t.effectTier, f.now, f.sparkDraws) else [])
                   + KillStains(alive, f.hits, f.stainDraws, f.now, 0)
              && killed == old(killed) + Victims(pedestrians, alive, f.hits, 0)
              && killCount == old(killCount) + KillsFrom(alive, f.hits, 0))
      ensures old(car.disabled) ==>
        && registry.entries == old(registry.entries)
        && forall j :: 0 <= j < |pedestrians| ==> pedestrians[j].View() == old(pedestrians[j].View())
      ensures !old(car.disabled) ==>
        && registry.entries == AdmitAll(old(registry.entries), VictimOrder(pedestrians, old(AliveFlags(pedestrians)), f.hits, 0))
        && forall j :: 0 <= j < |pedestrians| ==>
             AfterHits(old(pedestrians[j].View()), pedestrians[j].View(), old(pedestrians[j].isAlive) && f.hits[j],
                       pedestrians[j] in old(registry.entries), pedestrians[j] in registry.entries, f.travelled, f.now)
    {
      if car.disabled {
        car.Stop();
        return;
      }
      assert Vehicle.Tick(car.State(), f.keys, f.moved, f.collided) == Vehicle.DriveStep(car.State(), f.keys, f.moved, f.collided);
      Drive(f);
    }

    /** `updateCar` for a car that is not disabled: the car moves, then the hit loop
        and the sweep. */
    method Drive(f: Frame)
      requires Valid() && !car.disabled
      requires |f.sparkDraws| >= Effects.SparkCount(3)
      requires |f.hits| == |pedestrians| && |f.stainDraws| == |pedestrians| && |f.spawns| >= |pedestrians|
      requires forall j :: 0 <= j < |f.stainDraws| ==> 0.0 <= f.stainDraws[j] < 1.0
      requires forall j :: 0 <= j < |f.spawns| ==> SpawnOk(f.spawns[j])
      modifies this, car, tireMarks, debris, markers, registry, pedestrians
      ensures Valid()
      ensures pedestrians == old(pedestrians)
      ensures var t := Vehicle.DriveStep(old(car.State()), f.keys, f.moved, f.collided);
        && car.State() == t.state
        && tireMarks.items == (if t.tireMark then Effects.Newest(old(tireMarks.items) + [Effects.TireMark(f.now), Effects.TireMark(f.now)], Effects.TireMarkCap) else old(tireMarks.items))
        && markers.items == old(markers.items) + (if t.effectTier > 0 then [Effects.Effect(f.now, Effects.CrackLifetime)] else [])
      ensures var alive := old(AliveFlags(pedestrians));
        var t := Vehicle.DriveStep(old(car.State()), f.keys, f.moved, f.collided);
        && debris.items == old(debris.items)
             + (if t.effectTier > 0 then Effects.CollisionDebris(t.effectTier, f.now, f.sparkDraws) else [])
             + KillStains(alive, f.hits, f.stainDraws, f.now, 0)
        && killed == old(killed) + Victims(pedestrians, alive, f.hits, 0)
        && killCount == old(killCount) + KillsFrom(alive, f.hits, 0)
      ensures registry.entries == AdmitAll(old(registry.entries), VictimOrder(pedestrians, old(AliveFlags(pedestrians)), f.hits, 0))
      ensures forall j :: 0 <= j < |pedestrians| ==>
        AfterHits(old(pedestrians[j].View()), pedestrians[j].View(), old(pedestrians[j].isAlive) && f.hits[j],
                  pedestrians[j] in old(registry.entries), pedestrians[j] in registry.entries, f.travelled, f.now)
    {
      ghost var alive := AliveFlags(pedestrians);
      MoveCar(f);
      assert AliveFlags(pedestrians) == alive;
      UpdatePedestrians(f);
    }

    /** The pedestrian half of `updateCar`: the hit loop, then the fallen-body sweep. */
    method UpdatePedestrians(f: Frame)
      requires Valid()
      requires |f.hits| == |pedestrians| && |f.stainDraws| == |pedestrians| && |f.spawns| >= |pedestrians|
      requires forall j :: 0 <= j < |f.stainDraws| ==> 0.0 <= f.stainDraws[j] < 1.0
      requires forall j :: 0 <= j < |f.spawns| ==> SpawnOk(f.spawns[j])
      modifies this, registry, pedestrians, debris
      ensures Valid()
      ensures pedestrians == old(pedestrians)
      ensures var alive := old(AliveFlags(pedestrians));
        && killed == old(killed) + Victims(pedestrians, alive, f.hits, 0)
        && killCount == old(killCount) + KillsFrom(alive, f.hits, 0)
        && debris.items == old(debris.items) + KillStains(alive, f.hits, f.stainDraws, f.now, 0)
      ensures registry.entries == AdmitAll(old(registry.entries), VictimOrder(pedestrians, old(AliveFlags(pedestrians)), f.hits, 0))
      ensures forall j :: 0 <= j < |pedestrians| ==>
        AfterHits(old(pedestrians[j].View()), pedestrians[j].View(), old(pedestrians[j].isAlive) && f.hits[j],
                  pedestrians[j] in old(registry.entries), pedestrians[j] in registry.entries, f.travelled, f.now)
    {
      HitPedestrians(f);
      Sweep(f.now, f.spawns);
    }

    /** The car half of `updateCar` for a car that is not disabled: drive, lay tire
        marks when sliding, and spawn the damage effects of a damaging collision. */
    method MoveCar(f: Frame)
      requires !car.disabled && |f.sparkDraws| >= Effects.SparkCount(3)
      requires tireMarks != debris && tireMarks != markers && debris != markers
      modifies car, tireMarks, debris, markers
      ensures var t := Vehicle.DriveStep(old(car.State()), f.keys, f.moved, f.collided);
        && car.State() == t.state
        && tireMarks.items == (if t.tireMark then Effects.Newest(old(tireMarks.items) + [Effects.TireMark(f.now), Effects.TireMark(f.now)], Effects.TireMarkCap) else old(tireMarks.items))
        && markers.items == old(markers.items) + (if t.effectTier > 0 then [Effects.Effect(f.now, Effects.CrackLifetime)] else [])
        && debris.items == old(debris.items) + (if t.effectTier > 0 then Effects.CollisionDebris(t.effectTier, f.now, f.sparkDraws) else [])
    {
      ghost var t := Vehicle.DriveStep(car.State(), f.keys, f.moved, f.collided);
      var tireMark, hit, tier := car.Drive(f.keys, f.moved, f.collided);
      assert tireMark == t.tireMark && tier == t.effectTier && car.State() == t.state;
      if tireMark {
        Effects.CreateTireMark(tireMarks, f.now);
      }
      if tier > 0 {
        Effects.SpawnDamageEffects(debris, markers, tier, f.now, f.sparkDraws);
      }
    }

    /** The sweep on a valid game, which finds no fallen body: nothing changes. */
    method Sweep(now: int, spawns: seq<Spawn>)
      requires Valid()
      requires |spawns| >= |pedestrians| && forall i :: 0 <= i < |spawns| ==> SpawnOk(spawns[i])
      modifies this`pedestrians, pedestrians
      ensures Valid() && pedestrians == old(pedestrians)
      ensures forall j :: 0 <= j < |pedestrians| ==> pedestrians[j].View() == old(pedestrians[j].View())
    {
      ghost var ps := pedestrians;
      ghost var corpse := CorpseFlags(pedestrians, now);
      KeptAllWithoutCorpses(ps, corpse);
      SweepFallen(now, spawns);
      assert pedestrians == ps;
      forall p | p in pedestrians
        ensures p.isAlive == old(p.isAlive) && p.fallenBody == old(p.fallenBody) && p.ragdollActive == old(p.ragdollActive)
      {
        var j :| 0 <= j < |ps| && ps[j] == p;
        assert p.View() == old(p.View());
      }
    }

    /** `pedestrians.forEach(ped => ped.update(deltaTime))`, each pedestrian with its
        own draws. No pedestrian lives or dies, gains or loses a ragdoll. */
    method UpdatePedestrianStates(dt: real, inputs: seq<Pedestrians.PedInput>, now: int)
      requires Valid()
      requires |inputs| == |pedestrians| && forall j :: 0 <= j < |inputs| ==> Pedestrians.InputOk(inputs[j])
      modifies pedestrians
      ensures Valid()
      ensures forall j :: 0 <= j < |pedestrians| ==>
        pedestrians[j].View() == Pedestrians.Updated(old(pedestrians[j].View()), dt, inputs[j], now)
      ensures AliveFlags(pedestrians) == old(AliveFlags(pedestrians))
    {
      RunUpdates(dt, inputs, now);
      forall j | 0 <= j < |pedestrians|
        ensures pedestrians[j].isAlive == old(pedestrians[j].isAlive)
        ensures pedestrians[j].ragdollActive == old(pedestrians[j].ragdollActive)
        ensures pedestrians[j].fallenBody == old(pedestrians[j].fallenBody)
      {
        var p := pedestrians[j];
        assert old(p.ragdollActive) ==> p in registry.entries;
        Pedestrians.UpdateKeepsFlags(old(p.View()), dt, inputs[j], now);
      }
      assert AliveFlags(pedestrians) == old(AliveFlags(pedestrians));
      assert KilledStayDead() by {
        forall p | p in killed
          ensures !p.isAlive
        {
          if p in pedestrians {
            var j :| 0 <= j < |pedestrians| && pedestrians[j] == p;
          }
        }
      }
      assert RegistryOk() by {
        forall q | q in registry.entries
          ensures !q.isAlive
        {
          var j :| 0 <= j < |pedestrians| && pedestrians[j] == q;
        }
      }
      assert PedestriansOk() by {
        forall p | p in pedestrians
          ensures !p.fallenBody && (p.ragdollActive ==> p in registry.entries)
        {
          var j :| 0 <= j < |pedestrians| && pedestrians[j] == p;
        }
      }
    }

    /** The `forEach` loop itself, in list order. */
    method RunUpdates(dt: real, inputs: seq<Pedestrians.PedInput>, now: int)
      requires Distinct(pedestrians)
      requires |inputs| == |pedestrians| && forall j :: 0 <= j < |inputs| ==> Pedestrians.InputOk(inputs[j])
      modifies pedestrians
      ensures forall j :: 0 <= j < |pedestrians| ==>
        pedestrians[j].View() == Pedestrians.Updated(old(pedestrians[j].View()), dt, inputs[j], now)
    {
      var i := 0;
      while i < |pedestrians|
        invariant 0 <= i <= |pedestrians|
        invariant forall j :: 0 <= j < i ==>
          pedestrians[j].View() == Pedestrians.Updated(old(pedestrians[j].View()), dt, inputs[j], now)
        invariant forall j :: i <= j < |pedestrians| ==> pedestrians[j].View() == old(pedestrians[j].View())
        decreases |pedestrians| - i
      {
        pedestrians[i].Update(dt, inputs[i], now);
        forall j | 0 <= j < |pedestrians| && j != i
          ensures pedestrians[j] != pedestrians[i]
        {
        }
        i := i + 1;
      }
    }

    /** `updateTireMarks` then `updateDebrisParticles`, which sweeps the debris and then
        the damage markers: every expired effect is gone, the others stay in order. */
    method SweepEffects(now: int)
      requires tireMarks != debris && tireMarks != markers && debris != markers
      modifies tireMarks, debris, markers
      ensures tireMarks.items == Effects.Survivors(old(tireMarks.items), now)
      ensures debris.items == Effects.Survivors(old(debris.items), now)
      ensures markers.items == Effects.Survivors(old(markers.items), now)
    {
      tireMarks.Sweep(now);
      debris.Sweep(now);
      markers.Sweep(now);
    }

    /** One `animate` frame: every pedestrian's `update`, `updateCar`, then the effect
        sweeps. */
    method Animate(f: Frame, dt: real, inputs: seq<Pedestrians.PedInput>)
      requires Valid()
      requires |inputs| == |pedestrians| && forall j :: 0 <= j < |inputs| ==> Pedestrians.InputOk(inputs[j])
      requires |f.sparkDraws| >= Effects.SparkCount(3)
      requires |f.hits| == |pedestrians| && |f.stainDraws| == |pedestrians| && |f.spawns| >= |pedestrians|
      requires forall j :: 0 <= j < |f.stainDraws| ==> 0.0 <= f.stainDraws[j] < 1.0
      requires forall j :: 0 <= j < |f.spawns| ==> SpawnOk(f.spawns[j])
      modifies this, car, tireMarks, debris, markers, registry, pedestrians
      ensures Valid()
      ensures pedestrians == old(pedestrians)
      ensures var t := Vehicle.Tick(old(car.State()), f.keys, f.moved, f.collided);
        && car.State() == t.state
        && tireMarks.items == Effects.Survivors(
             if t.tireMark then Effects.Newest(old(tireMarks.items) + [Effects.TireMark(f.now), Effects.TireMark(f.now)], Effects.TireMarkCap)
             else old(tireMarks.items), f.now)
        && markers.items == Effects.Survivors(
             old(markers.items) + (if t.effectTier > 0 then [Effects.Effect(f.now, Effects.CrackLifetime)] else []), f.now)
      ensures var alive := old(AliveFlags(pedestrians));
        var t := Vehicle.Tick(old(car.State()), f.keys, f.moved, f.collided);
        && (old(car.disabled) ==>
              debris.items == Effects.Survivors(old(debris.items), f.now) && killed == old(killed) && killCount == old(killCount))
        && (!old(car.disabled) ==>
              && debris.items == Effects.Survivors(old(debris.items)
                   + (if t.effectTier > 0 then Effects.CollisionDebris(t.effectTier, f.now, f.sparkDraws) else [])
                   + KillStains(alive, f.hits, f.stainDraws, f.now, 0), f.now)
              && killed == old(killed) + Victims(pedestrians, alive, f.hits, 0)
              && killCount == old(killCount) + KillsFrom(alive, f.hits, 0))
      ensures old(car.disabled) ==>
        && registry.entries == old(registry.entries)
        && forall j :: 0 <= j < |pedestrians| ==>
             pedestrians[j].View() == Pedestrians.Updated(old(pedestrians[j].View()), dt, inputs[j], f.now)
      ensures !old(car.disabled) ==>
        && registry.entries == AdmitAll(old(registry.entries), VictimOrder(pedestrians, old(AliveFlags(pedestrians)), f.hits, 0))
        && forall j :: 0 <= j < |pedestrians| ==>
             AfterHits(Pedestrians.Updated(old(pedestrians[j].View()), dt, inputs[j], f.now), pedestrians[j].View(),
                       old(pedestrians[j].isAlive) && f.hits[j],
                       pedestrians[j] in old(registry.entries), pedestrians[j] in registry.entries, f.travelled, f.now)
    {
      UpdatePedestrianStates(dt, inputs, f.now);
      CarAndEffects(f);
    }

    /** `updateCar` and the effect sweeps of one `animate` frame. */
    method CarAndEffects(f: Frame)
      requires Valid()
      requires |f.sparkDraws| >= Effects.SparkCount(3)
      requires |f.hits| == |pedestrians| && |f.stainDraws| == |pedestrians| && |f.spawns| >= |pedestrians|
      requires forall j :: 0 <= j < |f.stainDraws| ==> 0.0 <= f.stainDraws[j] < 1.0
      requires forall j :: 0 <= j < |f.spawns| ==> SpawnOk(f.spawns[j])
      modifies this, car, tireMarks, debris, markers, registry, pedestrians
      ensures Valid()
      ensures pedestrians == old(pedestrians)
      ensures var t := Vehicle.Tick(old(car.State()), f.keys, f.moved, f.collided);
        && car.State() == t.state
        && tireMarks.items == Effects.Survivors(
             if t.tireMark then Effects.Newest(old(tireMarks.items) + [Effects.TireMark(f.now), Effects.TireMark(f.now)], Effects.TireMarkCap)
             else old(tireMarks.items), f.now)
        && markers.items == Effects.Survivors(
             old(markers.items) + (if t.effectTier > 0 then [Effects.Effect(f.now, Effects.CrackLifetime)] else []), f.now)
      ensures var alive := old(AliveFlags(pedestrians));
        var t := Vehicle.Tick(old(car.State()), f.keys, f.moved, f.collided);
        && (old(car.disabled) ==>
              debris.items == Effects.Survivors(old(debris.items), f.now) && killed == old(killed) && killCount == old(killCount))
        && (!old(car.disabled) ==>
              && debris.items == Effects.Survivors(old(debris.items)
                   + (if t.effectTier > 0 then Effects.CollisionDebris(t.effectTier, f.now, f.sparkDraws) else [])
                   + KillStains(alive, f.hits, f.stainDraws, f.now, 0), f.now)
              && killed == old(killed) + Victims(pedestrians, alive, f.hits, 0)
              && killCount == old(killCount) + KillsFrom(alive, f.hits, 0))
      ensures old(car.disabled) ==>
        && registry.entries == old(registry.entries)
        && forall j :: 0 <= j < |pedestrians| ==> pedestrians[j].View() == old(pedestrians[j].View())
      ensures !old(car.disabled) ==>
        && registry.entries == AdmitAll(old(registry.entries), VictimOrder(pedestrians, old(AliveFlags(pedestrians)), f.hits, 0))
        && forall j :: 0 <= j < |pedestrians| ==>
             AfterHits(old(pedestrians[j].View()), pedestrians[j].View(), old(pedestrians[j].isAlive) && f.hits[j],
                       pedestrians[j] in old(registry.entries), pedestrians[j] in registry.entries, f.travelled, f.now)
    {
      UpdateCar(f);
      SweepEffects(f.now);
    }

    /** The key-R handler: only a disabled car is restarted. The car goes back to the
        start with full health, the score and kill count are zeroed, debris and damage
        markers are cleared; tire marks, pedestrians and ragdolls stay. */
    method Restart(keyR: bool)
      requires Valid()
      modifies this, car, debris, markers
      ensures Valid()
      ensures var accepted := keyR && old(car.disabled);
        && (accepted ==>
              car.State() == Vehicle.Restarted(old(car.State()), Start)
              && score == 0 && killCount == 0 && debris.items == [] && markers.items == [])
        && (!accepted ==>
              car.State() == old(car.State()) && score == old(score) && killCount == old(killCount)
              && debris.items == old(debris.items) && markers.items == old(markers.items))
      ensures pedestrians == old(pedestrians) && tireMarks.items == old(tireMarks.items)
    {
      if keyR && car.disabled {
        car.Restart(Start);
        score := 0;
        killCount := 0;
        killed := {};
        debris.Clear();
        markers.Clear();
      }
    }
  }
}
