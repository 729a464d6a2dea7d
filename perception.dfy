/**
 * The observer side of perception (UGAPerceptionComponent): a map from target
 * GUID to what the observer knows about that target (awareness and line of
 * sight), updated once per tick from a three-stage test (range, vision cone,
 * line trace), and the side-effect-free queries other components ask of it.
 *
 * The world (actor poses, the distance and angle computations and the line
 * trace) is a collaborator and is given as the `World` value of oracles. The
 * target components an observer can see through the perception system are
 * given as a sequence of `TargetRef` snapshots, in registry order.
 */
module Perception {
  import opened Common

  /** A target's GUID (FGuid). */
  type Guid = nat

  /** The perception state of a target (EGATargetState). */
  datatype TargetState = Unknown | Immediate | Hidden

  /** IsKnown: the target has been seen at some point. */
  predicate IsKnown(s: TargetState) {
    s == Immediate || s == Hidden
  }

  /** What a target component remembers about itself (FTargetCache). */
  datatype TargetCache = TargetCache(state: TargetState, position: Vec3, velocity: Vec3)

  /** What an observer knows about one target (FTargetData). */
  datatype TargetData = TargetData(awareness: real, clearLos: bool)

  /** A freshly added map entry: no awareness, no line of sight. */
  const DefaultTargetData := TargetData(0.0, false)

  datatype VisionParameters = VisionParameters(visionAngle: real, visionDistance: real)

  /** The outcome of LineTraceSingleByChannel: nothing hit, or a hit on an
      actor (None when the hit has no actor). */
  datatype TraceResult = NoHit | Hit(actor: Option<ActorId>)

  /**
   * The scene, as the perception code queries it:
   *  - `location`, `forward`, `velocity`: an actor's pose,
   *  - `distance(a, b)`: FVector::Distance,
   *  - `angle(from, forward, to)`: the angle in degrees between `forward` and the
   *    direction from `from` to `to` (Acos of the clamped dot product),
   *  - `trace(ignored, from, to)`: the visibility-channel line trace that ignores
   *    actor `ignored`.
   */
  datatype World = World(
    location: ActorId -> Vec3,
    forward: ActorId -> Vec3,
    velocity: ActorId -> Vec3,
    distance: (Vec3, Vec3) -> real,
    angle: (Vec3, Vec3, Vec3) -> real,
    trace: (ActorId, Vec3, Vec3) -> TraceResult)

  /** A registered target component as the observer sees it: its GUID, its
      owning actor (None when it has none) and its last known state. */
  datatype TargetRef = TargetRef(guid: Guid, owner: Option<ActorId>, cache: TargetCache)

  // ---------------------------------------------------------------------------
  // Awareness

  const AwarenessGainRate: real := 0.1
  const AwarenessDecayRate: real := 0.05

  function Clamp(v: real, lo: real, hi: real): real
    requires lo <= hi
  {
    if v < lo then lo else if v > hi then hi else v
  }

  function Min(a: real, b: real): real { if a <= b then a else b }

  function Max(a: real, b: real): real { if a >= b then a else b }

  /** The awareness after one update: raised by the gain rate with clear line
      of sight, lowered by the decay rate without, then clamped to [0, 1]. */
  function NextAwareness(a: real, clearLos: bool): (r: real)
    ensures 0.0 <= r <= 1.0
    ensures 0.0 <= a <= 1.0 && clearLos ==> r == Min(1.0, a + AwarenessGainRate)
    ensures 0.0 <= a <= 1.0 && !clearLos ==> r == Max(0.0, a - AwarenessDecayRate)
  {
    Clamp(if clearLos then a + AwarenessGainRate else a - AwarenessDecayRate, 0.0, 1.0)
  }

  /** The awareness after `n` updates with the same line-of-sight outcome. */
  function AwarenessAfter(a: real, clearLos: bool, n: nat): real {
    if n == 0 then a else NextAwareness(AwarenessAfter(a, clearLos, n - 1), clearLos)
  }

  /** With line of sight throughout, awareness climbs by 0.1 per update until it reaches 1. */
  lemma {:induction false} AwarenessGain(a: real, n: nat)
    requires 0.0 <= a <= 1.0
    ensures AwarenessAfter(a, true, n) == Min(1.0, a + n as real * AwarenessGainRate)
  {
    if n > 0 {
      AwarenessGain(a, n - 1);
    }
  }

  /** Without line of sight throughout, awareness falls by 0.05 per update until it reaches 0. */
  lemma {:induction false} AwarenessDecay(a: real, n: nat)
    requires 0.0 <= a <= 1.0
    ensures AwarenessAfter(a, false, n) == Max(0.0, a - n as real * AwarenessDecayRate)
  {
    if n > 0 {
      AwarenessDecay(a, n - 1);
    }
  }

  /** From a fresh entry, ten updates with line of sight make the observer fully
      aware (the level at which the target goes Immediate), and nine do not. */
  lemma TenClearUpdatesMakeFullyAware()
    ensures AwarenessAfter(DefaultTargetData.awareness, true, 10) == 1.0
    ensures AwarenessAfter(DefaultTargetData.awareness, true, 9) < 1.0
  {
    AwarenessGain(0.0, 10);
    AwarenessGain(0.0, 9);
  }

  /** The entry for a target after one update that reached the line-of-sight
      decision: it records the outcome, its awareness lies in [0, 1], and from
      an awareness in [0, 1] it rises by the gain rate (capped at 1) with line
      of sight and falls by the decay rate (floored at 0) without. */
  function UpdatedData(d: TargetData, clearLos: bool): (r: TargetData)
    ensures r.clearLos == clearLos
    ensures 0.0 <= r.awareness <= 1.0
    ensures 0.0 <= d.awareness <= 1.0 && clearLos ==> r.awareness == Min(1.0, d.awareness + 0.1)
    ensures 0.0 <= d.awareness <= 1.0 && !clearLos ==> r.awareness == Max(0.0, d.awareness - 0.05)
  {
    TargetData(NextAwareness(d.awareness, clearLos), clearLos)
  }

  // ---------------------------------------------------------------------------
  // Queries on the target registry

  /** GetCurrentTarget: the first registered target, provided it is known. */
  function GetCurrentTarget(targets: seq<TargetRef>): (r: Option<TargetRef>)
    ensures r.Some? <==> |targets| > 0 && IsKnown(targets[0].cache.state)
    ensures r.Some? ==> r.value == targets[0]
  {
    if |targets| > 0 && IsKnown(targets[0].cache.state) then Some(targets[0]) else None
  }

  /** HasTarget: whether there is a current target. */
  function HasTarget(targets: seq<TargetRef>): (r: bool)
    ensures r <==> GetCurrentTarget(targets).Some?
  {
    GetCurrentTarget(targets) != None
  }

  /** A target is attended to exactly when the registry is not empty and its
      first target is known; an unknown first target hides every later one. */
  lemma HasTargetIffFirstKnown(targets: seq<TargetRef>)
    ensures HasTarget(targets) <==> |targets| > 0 && IsKnown(targets[0].cache.state)
    ensures |targets| > 0 && !IsKnown(targets[0].cache.state) ==>
              forall i :: 0 <= i < |targets| ==> GetCurrentTarget(targets) != Some(targets[i])
  {
  }

  class PerceptionComponent {
    /** The pawn this observer looks through (GetOwnerPawn); None when there is none. */
    const ownerPawn: Option<ActorId>
    const visionParameters: VisionParameters
    var targetMap: map<Guid, TargetData>

    /** Every awareness lies in [0, 1]. */
    ghost predicate Valid()
      reads this
    {
      forall guid :: guid in targetMap ==> 0.0 <= targetMap[guid].awareness <= 1.0
    }

    /** A new observer: the default vision cone (90 degrees, 1000 units) and no
        target entries. */
    constructor (ownerPawn: Option<ActorId>)
      ensures Valid()
      ensures this.ownerPawn == ownerPawn
      ensures visionParameters == VisionParameters(90.0, 1000.0)
      ensures targetMap == map[]
    {
      this.ownerPawn := ownerPawn;
      visionParameters := VisionParameters(90.0, 1000.0);
      targetMap := map[];
    }

    /** `p` is within vision distance of `pawn`. */
    predicate InRange(world: World, pawn: ActorId, p: Vec3) {
      world.distance(world.location(pawn), p) <= visionParameters.visionDistance
    }

    /** `p` is within half the vision angle of `pawn`'s forward direction. */
    predicate InCone(world: World, pawn: ActorId, p: Vec3) {
      world.angle(world.location(pawn), world.forward(pawn), p) <= visionParameters.visionAngle / 2.0
    }

    /** The line-of-sight outcome UpdateTargetData computes for a target actor:
        in range, in the cone, and the trace hits nothing or the target itself. */
    predicate ClearLineOfSight(world: World, pawn: ActorId, target: ActorId) {
      var p := world.location(target);
      && InRange(world, pawn, p)
      && InCone(world, pawn, p)
      && var hit := world.trace(pawn, world.location(pawn), p);
         hit.NoHit? || hit == Hit(Some(target))
    }

    /** TestVisibility: no pawn, out of range or out of the cone means not
        visible; otherwise visible exactly when the trace hits nothing. */
    function TestVisibility(world: World, location: Vec3): (visible: bool)
      ensures visible <==>
                && ownerPawn.Some?
                && InRange(world, ownerPawn.value, location)
                && InCone(world, ownerPawn.value, location)
                && world.trace(ownerPawn.value, world.location(ownerPawn.value), location).NoHit?
    {
      match ownerPawn
      case None => false
      case Some(pawn) =>
        if world.distance(world.location(pawn), location) > visionParameters.visionDistance then false
        else if world.angle(world.location(pawn), world.forward(pawn), location) > visionParameters.visionAngle / 2.0 then false
        else
          var hit := world.trace(pawn, world.location(pawn), location);
          if hit.NoHit? then true else false
    }

    /** A target actor that passes TestVisibility at its own location also has
        clear line of sight in the awareness update. */
    lemma VisibleImpliesClearLineOfSight(world: World, target: ActorId)
      requires TestVisibility(world, world.location(target))
      ensures ClearLineOfSight(world, ownerPawn.value, target)
    {
    }

    /** The converse fails exactly on a trace that hits the target itself: the
        awareness update counts it as line of sight, TestVisibility does not. */
    lemma HitOnTargetIsClearButNotVisible(world: World, target: ActorId)
      requires ownerPawn.Some?
      requires ClearLineOfSight(world, ownerPawn.value, target)
      ensures !TestVisibility(world, world.location(target)) <==>
                world.trace(ownerPawn.value, world.location(ownerPawn.value), world.location(target)) == Hit(Some(target))
    {
    }

    /** GetTargetData: the entry for `guid`, if there is one. */
    function GetTargetData(guid: Guid): (r: Option<TargetData>)
      reads this
      ensures r.Some? <==> guid in targetMap
      ensures r.Some? ==> r.value == targetMap[guid]
    {
      if guid in targetMap then Some(targetMap[guid]) else None
    }

    /** GetCurrentTargetState: the current target's cache together with this
        observer's entry for it, when there is a current target with an entry. */
    function GetCurrentTargetState(targets: seq<TargetRef>): (r: Option<(TargetCache, TargetData)>)
      reads this
      ensures r.Some? <==> GetCurrentTarget(targets).Some? && targets[0].guid in targetMap
      ensures r.Some? ==> r.value == (targets[0].cache, targetMap[targets[0].guid])
    {
      match GetCurrentTarget(targets)
      case None => None
      case Some(t) =>
        match GetTargetData(t.guid)
        case None => None
        case Some(d) => Some((t.cache, d))
    }

    // -------------------------------------------------------------------------
    // GetAllTargetStates

    /** A target GetAllTargetStates reports: it has an entry, and it is known
        unless every target with an entry is asked for. */
    predicate Reported(onlyKnown: bool, t: TargetRef)
      reads this
    {
      t.guid in targetMap && (!onlyKnown || IsKnown(t.cache.state))
    }

    /** The reported targets, in registry order. */
    function ReportedTargets(onlyKnown: bool, targets: seq<TargetRef>): (r: seq<TargetRef>)
      reads this
      ensures |r| <= |targets|
      ensures forall i :: 0 <= i < |r| ==> r[i].guid in targetMap
    {
      if targets == [] then []
      else
        var last := targets[|targets| - 1];
        ReportedTargets(onlyKnown, targets[..|targets| - 1]) + (if Reported(onlyKnown, last) then [last] else [])
    }

    /** A target is reported exactly when it is registered and passes the filter. */
    lemma {:induction false} ReportedTargetsMembers(onlyKnown: bool, targets: seq<TargetRef>, t: TargetRef)
      ensures t in ReportedTargets(onlyKnown, targets) <==> t in targets && Reported(onlyKnown, t)
    {
      if targets != [] {
        var front := targets[..|targets| - 1];
        ReportedTargetsMembers(onlyKnown, front, t);
        assert targets == front + [targets[|targets| - 1]];
      }
    }

    /** Asking for every target with an entry reports at least the known ones. */
    lemma {:induction false} ReportedKnownIncluded(targets: seq<TargetRef>)
      ensures |ReportedTargets(true, targets)| <= |ReportedTargets(false, targets)|
    {
      if targets != [] {
        ReportedKnownIncluded(targets[..|targets| - 1]);
      }
    }

    /** GetAllTargetStates: appends the cache and the entry of every reported
        target to the two output lists, in registry order. */
    method GetAllTargetStates(onlyKnown: bool, targets: seq<TargetRef>,
                              cachesOut: seq<TargetCache>, datasOut: seq<TargetData>)
      returns (caches: seq<TargetCache>, datas: seq<TargetData>)
      ensures var sel := ReportedTargets(onlyKnown, targets);
              && |caches| == |cachesOut| + |sel| && caches[..|cachesOut|] == cachesOut
              && |datas| == |datasOut| + |sel| && datas[..|datasOut|] == datasOut
              && (forall i :: 0 <= i < |sel| ==>
                    caches[|cachesOut| + i] == sel[i].cache && datas[|datasOut| + i] == targetMap[sel[i].guid])
    {
      caches, datas := cachesOut, datasOut;
      var i := 0;
      while i < |targets|
        invariant 0 <= i <= |targets|
        invariant var sel := ReportedTargets(onlyKnown, targets[..i]);
                  && |caches| == |cachesOut| + |sel| && caches[..|cachesOut|] == cachesOut
                  && |datas| == |datasOut| + |sel| && datas[..|datasOut|] == datasOut
                  && (forall k :: 0 <= k < |sel| ==>
                        caches[|cachesOut| + k] == sel[k].cache && datas[|datasOut| + k] == targetMap[sel[k].guid])
      {
        var t := targets[i];
        assert targets[..i + 1][..i] == targets[..i];
        var d := GetTargetData(t.guid);
        if d.Some? {
          if !onlyKnown || IsKnown(t.cache.state) {
            caches := caches + [t.cache];
            datas := datas + [d.value];
          }
        }
        i := i + 1;
      }
      assert targets[..i] == targets;
    }

    // -------------------------------------------------------------------------
    // UpdateTargetData

    /** The target map after UpdateTargetData for `target`: unchanged without an
        owner pawn; otherwise the entry is created if missing and, when the
        target has an owning actor, refreshed from the line-of-sight test. */
    function AfterUpdate(m: map<Guid, TargetData>, world: World, target: TargetRef): map<Guid, TargetData>
    {
      match ownerPawn
      case None => m
      case Some(pawn) =>
        var entry := if target.guid in m then m[target.guid] else DefaultTargetData;
        match target.owner
        case None => m[target.guid := entry]
        case Some(actor) => m[target.guid := UpdatedData(entry, ClearLineOfSight(world, pawn, actor))]
    }

    /** With an owner pawn the update makes an entry for the target, reuses an
        existing one, and leaves every other entry alone; awareness stays in [0, 1]. */
    lemma AfterUpdateEntries(m: map<Guid, TargetData>, world: World, target: TargetRef)
      ensures var r := AfterUpdate(m, world, target);
              && (ownerPawn.None? ==> r == m)
              && (ownerPawn.Some? ==> r.Keys == m.Keys + {target.guid})
              && (forall guid :: guid in m && guid != target.guid ==> r[guid] == m[guid])
              && (ownerPawn.Some? && target.guid !in m && target.owner.None? ==> r[target.guid] == DefaultTargetData)
              && (ownerPawn.Some? && target.owner.Some? ==>
                    var before := if target.guid in m then m[target.guid] else DefaultTargetData;
                    r[target.guid].awareness == NextAwareness(before.awareness, r[target.guid].clearLos))
              && (forall guid :: guid in m && 0.0 <= m[guid].awareness <= 1.0 ==> 0.0 <= r[guid].awareness <= 1.0)
    {
    }

    /** Line of sight can only be set for a target within range and inside the
        vision cone, and inside them it is set exactly when the trace hits
        nothing or the target itself. */
    lemma AfterUpdateLineOfSight(m: map<Guid, TargetData>, world: World, target: TargetRef)
      requires ownerPawn.Some? && target.owner.Some?
      ensures var r := AfterUpdate(m, world, target);
              var pawn := ownerPawn.value;
              var p := world.location(target.owner.value);
              && (r[target.guid].clearLos ==> InRange(world, pawn, p) && InCone(world, pawn, p))
              && (InRange(world, pawn, p) && InCone(world, pawn, p) ==>
                    (r[target.guid].clearLos <==>
                       var hit := world.trace(pawn, world.location(pawn), p);
                       hit.NoHit? || hit == Hit(Some(target.owner.value))))
    {
    }

    /** UpdateTargetData. */
    method UpdateTargetData(target: TargetRef, world: World)
      requires Valid()
      modifies this
      ensures Valid()
      ensures targetMap == AfterUpdate(old(targetMap), world, target)
    {
      if ownerPawn.None? {
        return;
      }
      var pawn := ownerPawn.value;
      var data := GetTargetData(target.guid);
      if data.None? {
        targetMap := targetMap[target.guid := DefaultTargetData];
      }
      var entry := targetMap[target.guid];
      if target.owner.None? {
        return;
      }
      var actor := target.owner.value;
      var ownerLocation := world.location(pawn);
      var targetLocation := world.location(actor);
      var inVisionCone := false;
      if world.distance(ownerLocation, targetLocation) <= visionParameters.visionDistance {
        inVisionCone := world.angle(ownerLocation, world.forward(pawn), targetLocation) <= visionParameters.visionAngle / 2.0;
      }
      entry := entry.(clearLos := false);
      if inVisionCone {
        var hit := world.trace(pawn, ownerLocation, targetLocation);
        entry := entry.(clearLos := hit.NoHit? || hit.actor == Some(actor));
      }
      var awareness := if entry.clearLos then entry.awareness + AwarenessGainRate else entry.awareness - AwarenessDecayRate;
      entry := entry.(awareness := Clamp(awareness, 0.0, 1.0));
      targetMap := targetMap[target.guid := entry];
    }

    /** The target map after updates for `targets`, in order. */
    function AfterUpdates(m: map<Guid, TargetData>, world: World, targets: seq<TargetRef>): map<Guid, TargetData>
    {
      if targets == [] then m
      else AfterUpdate(AfterUpdates(m, world, targets[..|targets| - 1]), world, targets[|targets| - 1])
    }

    /** After a tick every registered target has an entry (given an owner pawn),
        and no entry is ever dropped. */
    lemma {:induction false} AfterUpdatesKeys(m: map<Guid, TargetData>, world: World, targets: seq<TargetRef>)
      ensures m.Keys <= AfterUpdates(m, world, targets).Keys
      ensures ownerPawn.Some? ==> forall i :: 0 <= i < |targets| ==> targets[i].guid in AfterUpdates(m, world, targets)
    {
      if targets != [] {
        var front := targets[..|targets| - 1];
        AfterUpdatesKeys(m, world, front);
        AfterUpdateEntries(AfterUpdates(m, world, front), world, targets[|targets| - 1]);
        assert forall i :: 0 <= i < |targets| - 1 ==> targets[i] == front[i];
      }
    }

    /** UpdateAllTargetData: one update per registered target, in registry order. */
    method UpdateAllTargetData(targets: seq<TargetRef>, world: World)
      requires Valid()
      modifies this
      ensures Valid()
      ensures targetMap == AfterUpdates(old(targetMap), world, targets)
    {
      var i := 0;
      while i < |targets|
        invariant 0 <= i <= |targets|
        invariant Valid()
        invariant targetMap == AfterUpdates(old(targetMap), world, targets[..i])
      {
        assert targets[..i + 1][..i] == targets[..i];
        UpdateTargetData(targets[i], world);
        i := i + 1;
      }
      assert targets[..i] == targets;
    }
  }
}
