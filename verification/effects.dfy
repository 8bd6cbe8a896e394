/** Timed visual-effect lists shared by both games: tire marks, debris particles and
    damage markers. Each entry remembers when it was created (milliseconds from the
    clock the caller reads) and how long it lives; the meshes themselves are left out. */
module Effects {

  /** `updateTireMarks` fades and removes a mark after this many milliseconds. */
  const TireMarkFadeTime: real := 8000.0
  /** `createTireMark` keeps at most this many marks. */
  const TireMarkCap: nat := 300

  const DustLifetime: real := 1500.0
  const DustCount: nat := 5
  const BuildingDebrisLifetime: real := 5000.0
  const CrackLifetime: real := 10000.0
  const BloodStainLifetime: real := 15000.0

  /** One scene object on a timed list. A tire mark carries the fixed fade time of
      `updateTireMarks` as its lifetime. */
  datatype Effect = Effect(created: int, lifetime: real)

  /** The removal test of the sweeps: age strictly greater than the lifetime. */
  predicate Expired(e: Effect, now: int) {
    (now - e.created) as real > e.lifetime
  }

  function TireMark(now: int): Effect {
    Effect(now, TireMarkFadeTime)
  }

  /** The entries a sweep at time `now` keeps, in their original order. */
  function Survivors(s: seq<Effect>, now: int): (r: seq<Effect>)
    ensures |r| <= |s|
    ensures forall i :: 0 <= i < |r| ==> !Expired(r[i], now)
  {
    if s == [] then []
    else (if Expired(s[0], now) then [] else [s[0]]) + Survivors(s[1..], now)
  }

  /** A sweep keeps exactly the unexpired entries. */
  lemma {:induction false} SurvivorsExactly(s: seq<Effect>, now: int, e: Effect)
    ensures e in Survivors(s, now) <==> e in s && !Expired(e, now)
  {
    if s != [] {
      SurvivorsExactly(s[1..], now, e);
      assert s == [s[0]] + s[1..];
    }
  }

  /** A sweep of a concatenation is the concatenation of the sweeps, so the relative
      order of the surviving entries is kept. */
  lemma {:induction false} SurvivorsAppend(a: seq<Effect>, b: seq<Effect>, now: int)
    ensures Survivors(a + b, now) == Survivors(a, now) + Survivors(b, now)
  {
    if a != [] {
      assert (a + b)[1..] == a[1..] + b;
      SurvivorsAppend(a[1..], b, now);
    } else {
      assert a + b == b;
    }
  }

  /** A list in which nothing has expired is left as it is, so a second sweep at the
      same time removes nothing more. */
  lemma {:induction false} SurvivorsOfFresh(s: seq<Effect>, now: int)
    requires forall i :: 0 <= i < |s| ==> !Expired(s[i], now)
    ensures Survivors(s, now) == s
  {
    if s != [] {
      SurvivorsOfFresh(s[1..], now);
    }
  }

  lemma SweepIdempotent(s: seq<Effect>, now: int)
    ensures Survivors(Survivors(s, now), now) == Survivors(s, now)
  {
    SurvivorsOfFresh(Survivors(s, now), now);
  }

  /** What is left after repeatedly dropping the oldest entry while more than `cap`
      remain. */
  function Newest<T>(s: seq<T>, cap: nat): (r: seq<T>)
    ensures |r| == if |s| <= cap then |s| else cap
    ensures r == s[|s| - |r|..]
  {
    if |s| <= cap then s else Newest(s[1..], cap)
  }

  /** Capping after appending keeps the appended entries when they fit under the cap:
      the oldest entries are the ones dropped. */
  lemma {:induction false} NewestKeepsAppended<T>(s: seq<T>, t: seq<T>, cap: nat)
    requires |t| <= cap
    ensures Newest(s + t, cap)[|Newest(s + t, cap)| - |t|..] == t
  {
    var r := Newest(s + t, cap);
    assert |r| >= |t|;
    assert r == (s + t)[|s + t| - |r|..];
    assert r[|r| - |t|..] == (s + t)[|s|..];
    assert (s + t)[|s|..] == t;
  }

  /** The spark and debris particles `createCollisionEffects` spawns for a damage tier
      (1 minor, 2 medium, 3 severe). */
  function SparkCount(tier: nat): nat {
    if tier == 3 then 30 else if tier == 2 then 20 else 10
  }

  /** `createBuildingDamage` drops falling debris for medium and severe damage only. */
  function BuildingDebrisCount(tier: nat): nat {
    if tier == 3 then 8 else if tier == 2 then 4 else 0
  }

  /** Particles with lifetime 2000 + 1000 * draw, one per draw. */
  function Sparks(now: int, draws: seq<real>): (r: seq<Effect>)
    ensures |r| == |draws|
    ensures forall i :: 0 <= i < |draws| && 0.0 <= draws[i] < 1.0 ==>
      r[i].created == now && 2000.0 <= r[i].lifetime < 3000.0
  {
    seq(|draws|, i requires 0 <= i < |draws| => Effect(now, 2000.0 + draws[i] * 1000.0))
  }

  function Repeat(e: Effect, n: nat): (r: seq<Effect>)
    ensures |r| == n && forall i :: 0 <= i < n ==> r[i] == e
  {
    seq(n, _ => e)
  }

  /** Everything one damaging collision appends to the debris list, in order: sparks,
      five dust puffs, then the building debris. */
  function CollisionDebris(tier: nat, now: int, draws: seq<real>): seq<Effect>
    requires |draws| >= SparkCount(tier)
  {
    Sparks(now, draws[..SparkCount(tier)])
      + Repeat(Effect(now, DustLifetime), DustCount)
      + Repeat(Effect(now, BuildingDebrisLifetime), BuildingDebrisCount(tier))
  }

  lemma CollisionDebrisCount(tier: nat, now: int, draws: seq<real>)
    requires 1 <= tier <= 3 && |draws| >= SparkCount(tier)
    ensures |CollisionDebris(tier, now, draws)| == (if tier == 3 then 43 else if tier == 2 then 29 else 15)
  {
  }

  /** `createBloodStain` lays 3 + floor(3 * draw) stains. */
  function StainCount(draw: real): (n: nat)
    requires 0.0 <= draw < 1.0
    ensures 3 <= n <= 5
  {
    3 + (draw * 3.0).Floor
  }

  /** The stains of one kill, all pushed onto the debris list. */
  function BloodStains(now: int, draw: real): (r: seq<Effect>)
    requires 0.0 <= draw < 1.0
  {
    Repeat(Effect(now, BloodStainLifetime), StainCount(draw))
  }

  /** A mutable list of timed effects, edited in place like the source's arrays. */
  class EffectList {
    var items: seq<Effect>

    constructor ()
      ensures items == []
    {
      items := [];
    }

    method Push(e: Effect)
      modifies this
      ensures items == old(items) + [e]
    {
      items := items + [e];
    }

    method PushAll(es: seq<Effect>)
      modifies this
      ensures items == old(items) + es
    {
      items := items + es;
    }

    /** `arr.length = 0`. */
    method Clear()
      modifies this
      ensures items == []
    {
      items := [];
    }

    /** `while (arr.length > cap) arr.shift()`. */
    method DropOldest(cap: nat)
      modifies this
      ensures items == Newest(old(items), cap)
    {
      while |items| > cap
        invariant Newest(items, cap) == Newest(old(items), cap)
        decreases |items|
      {
        items := items[1..];
      }
    }

    /** The reverse-index loop of `updateTireMarks` and `updateDebrisParticles`:
        every expired entry is spliced out, the others stay in order. */
    method Sweep(now: int)
      modifies this
      ensures items == Survivors(old(items), now)
    {
      ghost var s := items;
      var i := |items|;
      while i > 0
        invariant 0 <= i <= |s|
        invariant items == s[..i] + Survivors(s[i..], now)
        decreases i
      {
        i := i - 1;
        assert items[i] == s[i];
        assert s[i..] == [s[i]] + s[i + 1..];
        if Expired(items[i], now) {
          items := items[..i] + items[i + 1..];
          assert s[..i + 1] == s[..i] + [s[i]];
        } else {
          assert s[..i + 1] == s[..i] + [s[i]];
        }
      }
      assert s[..0] == [] && s[0..] == s;
    }
  }

  /** `createTireMark`: one mark per rear wheel, then the oldest are dropped until
      at most 300 remain. */
  method CreateTireMark(marks: EffectList, now: int)
    modifies marks
    ensures marks.items == Newest(old(marks.items) + [TireMark(now), TireMark(now)], TireMarkCap)
    ensures |marks.items| <= TireMarkCap
  {
    ghost var before := marks.items;
    marks.Push(TireMark(now));
    marks.Push(TireMark(now));
    assert marks.items == before + [TireMark(now), TireMark(now)];
    marks.DropOldest(TireMarkCap);
  }

  /** `createCollisionEffects` followed by `createBuildingDamage` for a damage tier:
      particles go to the debris list, one crack to the damage markers. */
  method SpawnDamageEffects(debris: EffectList, markers: EffectList, tier: nat, now: int, draws: seq<real>)
    requires debris != markers
    requires |draws| >= SparkCount(tier)
    modifies debris, markers
    ensures debris.items == old(debris.items) + CollisionDebris(tier, now, draws)
    ensures markers.items == old(markers.items) + [Effect(now, CrackLifetime)]
  {
    debris.PushAll(Sparks(now, draws[..SparkCount(tier)]));
    debris.PushAll(Repeat(Effect(now, DustLifetime), DustCount));
    markers.Push(Effect(now, CrackLifetime));
    if tier == 3 || tier == 2 {
      debris.PushAll(Repeat(Effect(now, BuildingDebrisLifetime), BuildingDebrisCount(tier)));
    } else {
      assert Repeat(Effect(now, BuildingDebrisLifetime), BuildingDebrisCount(tier)) == [];
    }
  }
}
