/** The attack instances a character spawns: projectiles (Projectile.cs),
    which hover, launch, and are destroyed at the end of the frame of their
    first eligible contact (every eligible contact of that frame still
    delivers, so a projectile hits once only when that contact is alone),
    and melee hitboxes (MeleeHitbox.cs), which follow their owner and may
    hit many times. */
module Attacks {
  import opened Common
  import opened Definitions
  import opened Enemies

  /** What a trigger touched: its transform, that transform together with
      all its ancestors, its layer, whether it has an IDamageable component,
      and its EnemyHealth component if any. */
  datatype Collider = Collider(transform: TransformId, lineage: set<TransformId>, layer: Layer,
                               damageable: bool, enemy: EnemyHealth?)

  /** A transform is its own ancestor. */
  predicate WellFormed(c: Collider)
  {
    c.transform in c.lineage
  }

  /** Transform.IsChildOf: the collider's transform is owner or below it. */
  predicate IsChildOf(c: Collider, owner: TransformId)
  {
    owner in c.lineage
  }

  /** 1 << layer. */
  function LayerBit(layer: Layer): bv32
  {
    (1 as bv32) << layer
  }

  /** The layer test ((1 << layer) & mask) != 0. */
  predicate InMask(layer: Layer, mask: bv32)
  {
    LayerBit(layer) & mask != 0
  }

  /** The empty mask hits nothing. */
  lemma EmptyMaskHitsNothing(layer: Layer)
    ensures !InMask(layer, 0)
  {
  }

  /** Adding a layer's bit to the mask admits that layer ... */
  lemma AddedLayerIsHit(layer: Layer, mask: bv32)
    ensures InMask(layer, mask | LayerBit(layer))
  {
  }

  /** ... and leaves every other layer as it was. */
  lemma AddingLayerKeepsOthers(layer: Layer, other: Layer, mask: bv32)
    requires other != layer
    ensures InMask(other, mask | LayerBit(layer)) <==> InMask(other, mask)
  {
  }

  /** Clearing a layer's bit excludes that layer ... */
  lemma RemovedLayerIsIgnored(layer: Layer, mask: bv32)
    ensures !InMask(layer, mask & !LayerBit(layer))
  {
  }

  /** ... and leaves every other layer as it was. */
  lemma RemovingLayerKeepsOthers(layer: Layer, other: Layer, mask: bv32)
    requires other != layer
    ensures InMask(other, mask & !LayerBit(layer)) <==> InMask(other, mask)
  {
  }

  /** How a contact is classified by OnTriggerEnter2D's two guards. */
  datatype Verdict = IgnoredOwner | IgnoredLayer | Eligible

  function ContactVerdict(owner: Option<TransformId>, mask: bv32, other: Collider): (v: Verdict)
    ensures v == Eligible <==> (owner.Nothing? || !IsChildOf(other, owner.value)) && InMask(other.layer, mask)
    ensures owner.Some? && WellFormed(other) && other.transform == owner.value ==> v == IgnoredOwner
  {
    if owner.Some? && IsChildOf(other, owner.value) then IgnoredOwner
    else if !InMask(other.layer, mask) then IgnoredLayer
    else Eligible
  }

  /** The time a second Destroy(gameObject, t) leaves the object to live:
      the earlier of the two schedules wins. */
  function EarliestDeadline(scheduled: Option<real>, t: real): (d: real)
    ensures d <= t
    ensures scheduled.Some? ==> d <= scheduled.value
    ensures d == t || (scheduled.Some? && d == scheduled.value)
  {
    if scheduled.Some? then MinReal(scheduled.value, t) else t
  }

  /** Mathf.Sign: 0 counts as positive. */
  function Sign(x: real): (s: real)
    ensures s == 1.0 || s == -1.0
    ensures x >= 0.0 ==> s == 1.0
    ensures x < 0.0 ==> s == -1.0
  {
    if x >= 0.0 then 1.0 else -1.0
  }

  /** Minimum lifetimes enforced by Initialize. */
  const ProjectileMinLifetime: real := 0.1
  const MeleeMinLifetime: real := 0.05

  /** The HoverThenLaunch coroutine: not started, suspended in its hover
      loop with `elapsed` seconds accumulated, or finished (launched). */
  datatype HoverPhase = Idle | Hovering(elapsed: real) | Launched

  /** One resumption of the coroutine with the frame's deltaTime: the loop
      test `elapsed < hoverTime` either runs one more hover frame or falls
      through to the launch. */
  function Resume(p: HoverPhase, hoverTime: real, dt: real): (q: HoverPhase)
    ensures p.Hovering? && p.elapsed < hoverTime ==> q == Hovering(p.elapsed + dt)
    ensures p.Hovering? && p.elapsed >= hoverTime ==> q == Launched
    ensures !p.Hovering? ==> q == p
  {
    match p
    case Hovering(t) => if t < hoverTime then Hovering(t + dt) else Launched
    case _ => p
  }

  /** The phase after resuming once per frame with the given deltaTimes. */
  function Run(p: HoverPhase, hoverTime: real, dts: seq<real>): HoverPhase
    decreases |dts|
  {
    if dts == [] then p else Run(Resume(p, hoverTime, dts[0]), hoverTime, dts[1..])
  }

  function Sum(dts: seq<real>): real
    decreases |dts|
  {
    if dts == [] then 0.0 else dts[0] + Sum(dts[1..])
  }

  predicate NonNegative(dts: seq<real>)
  {
    forall i :: 0 <= i < |dts| ==> dts[i] >= 0.0
  }

  lemma {:induction false} SumNonNegative(dts: seq<real>)
    requires NonNegative(dts)
    ensures Sum(dts) >= 0.0
    decreases |dts|
  {
    if dts != [] {
      SumNonNegative(dts[1..]);
    }
  }

  /** A launched projectile stays launched. */
  lemma {:induction false} LaunchedIsFinal(hoverTime: real, dts: seq<real>)
    ensures Run(Launched, hoverTime, dts) == Launched
    decreases |dts|
  {
    if dts != [] {
      LaunchedIsFinal(hoverTime, dts[1..]);
    }
  }

  /** While the accumulated time stays below hoverTime the projectile keeps
      hovering, and the counter holds exactly the time that has passed. */
  lemma {:induction false} HoversWhileBelow(t: real, hoverTime: real, dts: seq<real>)
    requires NonNegative(dts) && t + Sum(dts) < hoverTime
    ensures Run(Hovering(t), hoverTime, dts) == Hovering(t + Sum(dts))
    decreases |dts|
  {
    if dts != [] {
      SumNonNegative(dts[1..]);
      assert t < hoverTime;
      HoversWhileBelow(t + dts[0], hoverTime, dts[1..]);
    }
  }

  /** With every frame at least eps long, the projectile has launched once
      the frames after the first cover the remaining hover time. */
  lemma {:induction false} LaunchesInTime(t: real, hoverTime: real, dts: seq<real>, eps: real)
    requires eps > 0.0 && |dts| >= 1
    requires forall i :: 0 <= i < |dts| ==> dts[i] >= eps
    requires t + (|dts| - 1) as real * eps >= hoverTime
    ensures Run(Hovering(t), hoverTime, dts) == Launched
    decreases |dts|
  {
    if t >= hoverTime {
      LaunchedIsFinal(hoverTime, dts[1..]);
    } else {
      assert |dts| >= 2;
      assert (|dts| - 1) as real * eps == (|dts| - 2) as real * eps + eps;
      LaunchesInTime(t + dts[0], hoverTime, dts[1..], eps);
    }
  }

  /** With no hover time the coroutine launches at its first step. */
  lemma ZeroHoverLaunchesAtOnce(dt: real)
    ensures Resume(Hovering(0.0), 0.0, dt) == Launched
  {
  }

  /** The damage one projectile contact hands to an IDamageable: its damage
      when the contact passes both guards and the target is damageable. */
  function ContactDamage(owner: Option<TransformId>, mask: bv32, damage: int, other: Collider): (d: Option<int>)
    ensures d.Some? <==> ContactVerdict(owner, mask, other) == Eligible && other.damageable
    ensures d.Some? ==> d.value == damage
  {
    if ContactVerdict(owner, mask, other) == Eligible && other.damageable then Some(damage) else Nothing
  }

  /** The damages handed over by the contacts reported in one frame.
      Destroy(gameObject) only takes effect when the frame ends, so every
      contact of that frame is still processed. */
  function StepDeliveries(owner: Option<TransformId>, mask: bv32, damage: int, contacts: seq<Collider>): (ds: seq<int>)
    decreases |contacts|
    ensures |ds| <= |contacts|
    ensures forall i :: 0 <= i < |ds| ==> ds[i] == damage
  {
    if contacts == [] then []
    else
      var d := ContactDamage(owner, mask, damage, contacts[0]);
      (if d.Some? then [d.value] else []) + StepDeliveries(owner, mask, damage, contacts[1..])
  }

  /** Some contact of the step passes both guards, so Destroy(gameObject) is called. */
  predicate AnyEligible(owner: Option<TransformId>, mask: bv32, contacts: seq<Collider>)
  {
    exists i :: 0 <= i < |contacts| && ContactVerdict(owner, mask, contacts[i]) == Eligible
  }

  /** A step whose contacts are all filtered out delivers nothing. */
  lemma {:induction false} FilteredStepDeliversNothing(owner: Option<TransformId>, mask: bv32, damage: int,
                                                     contacts: seq<Collider>)
    requires !AnyEligible(owner, mask, contacts)
    ensures StepDeliveries(owner, mask, damage, contacts) == []
    decreases |contacts|
  {
    if contacts != [] {
      assert ContactVerdict(owner, mask, contacts[0]) != Eligible;
      assert !AnyEligible(owner, mask, contacts[1..]) by {
        forall i | 0 <= i < |contacts[1..]|
          ensures ContactVerdict(owner, mask, contacts[1..][i]) != Eligible
        {
          assert contacts[1..][i] == contacts[i + 1];
        }
      }
      FilteredStepDeliversNothing(owner, mask, damage, contacts[1..]);
    }
  }

  /** A step with exactly one contact that passes the guards delivers the
      damage once if that target is damageable, and nothing otherwise. */
  lemma {:induction false} OneEligibleContactOneHit(owner: Option<TransformId>, mask: bv32, damage: int,
                                                   contacts: seq<Collider>, k: nat)
    requires k < |contacts|
    requires ContactVerdict(owner, mask, contacts[k]) == Eligible
    requires forall j :: 0 <= j < |contacts| && j != k ==> ContactVerdict(owner, mask, contacts[j]) != Eligible
    ensures StepDeliveries(owner, mask, damage, contacts) == if contacts[k].damageable then [damage] else []
    decreases |contacts|
  {
    if k == 0 {
      assert !AnyEligible(owner, mask, contacts[1..]) by {
        forall i | 0 <= i < |contacts[1..]|
          ensures ContactVerdict(owner, mask, contacts[1..][i]) != Eligible
        {
          assert contacts[1..][i] == contacts[i + 1];
        }
      }
      FilteredStepDeliversNothing(owner, mask, damage, contacts[1..]);
    } else {
      assert ContactVerdict(owner, mask, contacts[0]) != Eligible;
      forall j | 0 <= j < |contacts[1..]| && j != k - 1
        ensures ContactVerdict(owner, mask, contacts[1..][j]) != Eligible
      {
        assert contacts[1..][j] == contacts[j + 1];
      }
      OneEligibleContactOneHit(owner, mask, damage, contacts[1..], k - 1);
    }
  }

  /** Two damageable targets that both pass the guards in the same frame are
      both hit: the projectile's Destroy(gameObject) only takes effect once
      the frame is over. */
  lemma SameFrameContactsBothDeliver(owner: Option<TransformId>, mask: bv32, damage: int, a: Collider, b: Collider)
    requires ContactDamage(owner, mask, damage, a).Some? && ContactDamage(owner, mask, damage, b).Some?
    ensures StepDeliveries(owner, mask, damage, [a, b]) == [damage, damage]
  {
    assert [a, b][1..] == [b];
  }

  /** One frame of a projectile's life: the time and the trigger contacts
      reported to it by all the physics steps of that frame. */
  datatype Step = Step(now: real, contacts: seq<Collider>)

  /** The damages a live projectile hands over during the given steps: each
      step processes all its contacts, an eligible one schedules the
      destruction for now, and once a scheduled destruction is due the
      object is gone and receives nothing more. `destroyAt` is the deadline
      already pending when the steps begin (such as the one the launch
      sets); contact-triggered destruction is the only one scheduled here,
      and the function describes the contact sequence on its own rather
      than a `Projectile` object. */
  function LifeDeliveries(destroyAt: Option<real>, owner: Option<TransformId>, mask: bv32, damage: int,
                          steps: seq<Step>): seq<int>
    decreases |steps|
  {
    if steps == [] then []
    else
      var s := steps[0];
      var at := if AnyEligible(owner, mask, s.contacts) then Some(EarliestDeadline(destroyAt, s.now)) else destroyAt;
      StepDeliveries(owner, mask, damage, s.contacts)
        + (if at.Some? && s.now >= at.value then [] else LifeDeliveries(at, owner, mask, damage, steps[1..]))
  }

  /** Single hit: when the first step with a contact that passes the guards
      has only one such contact, the projectile hands over its damage at
      most once over its whole life, and only to that target when it is
      damageable (nothing if the lifetime ran out first). */
  lemma {:induction false} SingleHit(destroyAt: Option<real>, owner: Option<TransformId>, mask: bv32, damage: int,
                                    steps: seq<Step>, k: nat, i: nat)
    requires k < |steps| && i < |steps[k].contacts|
    requires forall j :: 0 <= j < k ==> !AnyEligible(owner, mask, steps[j].contacts)
    requires ContactVerdict(owner, mask, steps[k].contacts[i]) == Eligible
    requires forall m :: 0 <= m < |steps[k].contacts| && m != i ==>
      ContactVerdict(owner, mask, steps[k].contacts[m]) != Eligible
    ensures var ds := LifeDeliveries(destroyAt, owner, mask, damage, steps);
      ds == [] || ds == (if steps[k].contacts[i].damageable then [damage] else [])
    decreases k
  {
    var s := steps[0];
    if k == 0 {
      OneEligibleContactOneHit(owner, mask, damage, s.contacts, i);
      assert AnyEligible(owner, mask, s.contacts);
    } else {
      FilteredStepDeliversNothing(owner, mask, damage, s.contacts);
      var at := destroyAt;
      if !(at.Some? && s.now >= at.value) {
        SingleHit(at, owner, mask, damage, steps[1..], k - 1, i);
      }
    }
  }

  class Projectile {
    var speed: real
    var damage: int
    var hoverTime: real
    var lifetime: real
    var hitMask: bv32
    var owner: Option<TransformId>
    var hasFollowPoint: bool
    var dirX: real
    var phase: HoverPhase
    /** The rigidbody's linear velocity. */
    var velocity: Vec2
    var position: Vec3
    /** When a scheduled Destroy(gameObject, t) takes effect, if one is pending. */
    var destroyAt: Option<real>
    /** Destroy has taken effect: the object no longer receives calls. */
    var destroyed: bool

    /** The coroutine's invariants: a running projectile has a unit
        direction and clamped times; it is still while hovering; once
        launched it moves horizontally at its speed with a destruction
        scheduled. */
    ghost predicate Valid()
      reads this
    {
      && (phase != Idle ==> (dirX == 1.0 || dirX == -1.0) && hoverTime >= 0.0 && lifetime >= ProjectileMinLifetime)
      && (phase.Hovering? ==> velocity == ZeroVelocity)
      && (phase.Launched? ==> velocity == Vec2(dirX * speed, 0.0) && destroyAt.Some?)
    }

    /** Awake, with the prefab's serialized hit mask and the default stats. */
    constructor (hitMask: bv32, position: Vec3)
      ensures Valid() && phase == Idle && velocity == ZeroVelocity && !destroyed && destroyAt.Nothing?
      ensures this.hitMask == hitMask && this.position == position && owner.Nothing?
      ensures speed == 10.0 && damage == 1 && hoverTime == 1.0 && lifetime == 3.0 && dirX == 1.0
    {
      speed, damage, hoverTime, lifetime := 10.0, 1, 1.0, 3.0;
      this.hitMask := hitMask;
      owner := Nothing;
      hasFollowPoint := false;
      dirX := 1.0;
      phase := Idle;
      velocity := ZeroVelocity;
      this.position := position;
      destroyAt := Nothing;
      destroyed := false;
    }

    /** Initialize: stores the clamped parameters and (re)starts the hover
        coroutine, which runs to its first yield at once (on a destroyed
        object it never runs). `now`, `dt` and `followPos` are this frame's
        time, deltaTime and follow-point position. */
    method Initialize(owner: Option<TransformId>, hasFollowPoint: bool, followPos: Vec3, dirX: real,
                      speed: real, damage: int, hoverTime: real, lifetime: real, hitMask: bv32,
                      now: real, dt: real)
      modifies this`owner, this`hasFollowPoint, this`dirX, this`speed, this`damage, this`hoverTime
      modifies this`lifetime, this`hitMask, this`phase, this`velocity, this`position, this`destroyAt
      ensures Valid()
      ensures this.owner == owner && this.hasFollowPoint == hasFollowPoint && this.hitMask == hitMask
      ensures this.speed == speed && this.damage == damage
      ensures this.dirX == Sign(dirX)
      ensures this.hoverTime == MaxReal(0.0, hoverTime) && this.lifetime == MaxReal(ProjectileMinLifetime, lifetime)
      ensures phase == if destroyed then Hovering(0.0) else Resume(Hovering(0.0), this.hoverTime, dt)
      ensures destroyed ==> velocity == ZeroVelocity && position == old(position) && destroyAt == old(destroyAt)
      ensures !destroyed && this.hoverTime > 0.0 ==>
        phase == Hovering(dt) && velocity == ZeroVelocity && destroyAt == old(destroyAt)
      ensures !destroyed && this.hoverTime > 0.0 ==>
        position == (if hasFollowPoint then followPos else old(position))
      ensures !destroyed && this.hoverTime == 0.0 ==>
        && velocity == Vec2(this.dirX * speed, 0.0) && position == old(position)
        && destroyAt == Some(EarliestDeadline(old(destroyAt), now + this.lifetime))
    {
      this.owner := owner;
      this.hasFollowPoint := hasFollowPoint;
      this.dirX := Sign(dirX);
      this.speed := speed;
      this.damage := damage;
      this.hoverTime := MaxReal(0.0, hoverTime);
      this.lifetime := MaxReal(ProjectileMinLifetime, lifetime);
      this.hitMask := hitMask;
      // StopCoroutine on the old routine, StartCoroutine(HoverThenLaunch())
      velocity := ZeroVelocity;
      phase := Hovering(0.0);
      ResumeHover(now, dt, followPos);
    }

    /** One resumption of HoverThenLaunch: another hover frame (follow the
        spawn point) or the launch (horizontal velocity, destruction after
        lifetime). Not running, or destroyed: nothing happens, as a destroyed
        object's coroutines stop. */
    method ResumeHover(now: real, dt: real, followPos: Vec3)
      requires Valid()
      modifies this`phase, this`velocity, this`position, this`destroyAt
      ensures Valid()
      ensures phase == if destroyed then old(phase) else Resume(old(phase), hoverTime, dt)
      ensures !destroyed && old(phase).Hovering? && old(phase).elapsed < hoverTime ==>
        && velocity == old(velocity) && destroyAt == old(destroyAt)
        && position == (if hasFollowPoint then followPos else old(position))
      ensures !destroyed && old(phase).Hovering? && old(phase).elapsed >= hoverTime ==>
        && velocity == Vec2(dirX * speed, 0.0) && position == old(position)
        && destroyAt == Some(EarliestDeadline(old(destroyAt), now + lifetime))
      ensures destroyed || !old(phase).Hovering? ==>
        phase == old(phase) && velocity == old(velocity) && position == old(position) && destroyAt == old(destroyAt)
    {
      if destroyed || !phase.Hovering? { return; }
      if phase.elapsed < hoverTime {
        phase := Hovering(phase.elapsed + dt);
        if hasFollowPoint {
          position := followPos;
        }
      } else {
        velocity := Vec2(dirX * speed, 0.0);
        phase := Launched;
        destroyAt := Some(EarliestDeadline(destroyAt, now + lifetime));
      }
    }

    /** The engine carries out a scheduled Destroy once its time has come. */
    method Expire(now: real)
      modifies this`destroyed
      ensures old(Valid()) ==> Valid()
      ensures destroyed == (old(destroyed) || (destroyAt.Some? && now >= destroyAt.value))
    {
      if destroyAt.Some? && now >= destroyAt.value {
        destroyed := true;
      }
    }

    /** OnTriggerEnter2D at time `now`: the owner (or anything under it) and
        layers outside the mask are ignored and the projectile lives on; any
        other contact hands the damage to an IDamageable and calls
        Destroy(gameObject), which takes effect when the frame ends. A
        destroyed projectile receives no contacts. */
    method OnTriggerEnter2D(other: Collider, now: real) returns (delivered: Option<int>)
      modifies this`destroyAt
      ensures old(Valid()) ==> Valid()
      ensures delivered == if destroyed then Nothing else ContactDamage(owner, hitMask, damage, other)
      ensures destroyAt ==
        if !destroyed && ContactVerdict(owner, hitMask, other) == Eligible
        then Some(EarliestDeadline(old(destroyAt), now)) else old(destroyAt)
    {
      if destroyed {
        return Nothing;
      }
      if owner.Some? && IsChildOf(other, owner.value) {
        return Nothing;
      }
      if !InMask(other.layer, hitMask) {
        return Nothing;
      }
      delivered := if other.damageable then Some(damage) else Nothing;
      destroyAt := Some(EarliestDeadline(destroyAt, now));
    }
  }

  /** The EnemyHealth a contact can reach, as a frame. */
  function EnemyOf(other: Collider): set<EnemyHealth>
  {
    if other.enemy == null then {} else {other.enemy}
  }

  class MeleeHitbox {
    var damage: int
    var owner: Option<TransformId>
    var hitMask: bv32
    var hasFollowPoint: bool
    var lifetime: real
    var position: Vec3
    /** When a scheduled Destroy(gameObject, t) takes effect, if one is pending. */
    var destroyAt: Option<real>
    /** Destroy has taken effect: the object no longer receives calls. */
    var destroyed: bool

    /** A freshly instantiated hitbox: serialized damage 1, empty mask. */
    constructor (position: Vec3)
      ensures damage == 1 && hitMask == 0 && owner.Nothing? && !hasFollowPoint && lifetime == 0.0
      ensures this.position == position && destroyAt.Nothing? && !destroyed
    {
      damage := 1;
      owner := Nothing;
      hitMask := 0;
      hasFollowPoint := false;
      lifetime := 0.0;
      this.position := position;
      destroyAt := Nothing;
      destroyed := false;
    }

    /** Initialize: stores the parameters, clamps the lifetime and schedules
        the destruction `lifetime` seconds from now. */
    method Initialize(owner: Option<TransformId>, hasFollowPoint: bool, damage: int, lifetime: real,
                      hitMask: bv32, now: real)
      modifies this`owner, this`hasFollowPoint, this`damage, this`lifetime, this`hitMask, this`destroyAt
      ensures this.owner == owner && this.hasFollowPoint == hasFollowPoint
      ensures this.damage == damage && this.hitMask == hitMask
      ensures this.lifetime == MaxReal(MeleeMinLifetime, lifetime) && this.lifetime >= MeleeMinLifetime
      ensures destroyAt == Some(EarliestDeadline(old(destroyAt), now + this.lifetime))
    {
      this.owner := owner;
      this.hasFollowPoint := hasFollowPoint;
      this.damage := damage;
      this.lifetime := MaxReal(MeleeMinLifetime, lifetime);
      this.hitMask := hitMask;
      destroyAt := Some(EarliestDeadline(destroyAt, now + this.lifetime));
    }

    /** Update: stick to the follow point, when there is one; a destroyed
        hitbox receives no more updates. */
    method Update(followPos: Vec3)
      modifies this`position
      ensures position == if hasFollowPoint && !destroyed then followPos else old(position)
    {
      if hasFollowPoint && !destroyed {
        position := followPos;
      }
    }

    /** The engine carries out a scheduled Destroy once its time has come. */
    method Expire(now: real)
      modifies this`destroyed
      ensures destroyed == (old(destroyed) || (destroyAt.Some? && now >= destroyAt.value))
    {
      if destroyAt.Some? && now >= destroyAt.value {
        destroyed := true;
      }
    }

    /** OnTriggerEnter2D: after the owner and layer guards, an EnemyHealth
        target takes the hitbox's damage with the default (None) element.
        The hitbox itself is never destroyed by a contact. */
    method OnTriggerEnter2D(other: Collider)
      modifies EnemyOf(other)`CurrentHealth, EnemyOf(other)`dieCalls
      ensures other.enemy != null && !destroyed && ContactVerdict(owner, hitMask, other) == Eligible ==>
        other.enemy.TookDamage(damage, ElementType.None)
      ensures other.enemy != null && (destroyed || ContactVerdict(owner, hitMask, other) != Eligible) ==>
        other.enemy.CurrentHealth == old(other.enemy.CurrentHealth) && other.enemy.dieCalls == old(other.enemy.dieCalls)
    {
      if destroyed { return; }
      if owner.Some? && IsChildOf(other, owner.value) {
        return;
      }
      if !InMask(other.layer, hitMask) {
        return;
      }
      if other.enemy != null {
        other.enemy.TakeDamage(damage);
      }
    }
  }

  /** Health of one enemy after a series of melee contacts with it. */
  function MeleeHealthAfter(health: int, owner: Option<TransformId>, mask: bv32, damage: int,
                            enemyElement: ElementType, others: seq<Collider>): int
    decreases |others|
  {
    if others == [] then health
    else
      var h := if ContactVerdict(owner, mask, others[0]) == Eligible
               then ResolveHit(health, damage, ElementType.None, enemyElement).health else health;
      MeleeHealthAfter(h, owner, mask, damage, enemyElement, others[1..])
  }

  /** Multi-hit: every eligible contact of a melee hitbox with positive damage
      takes the full damage again, so n eligible contacts take n times it. */
  lemma {:induction false} MeleeHitsAccumulate(health: int, owner: Option<TransformId>, mask: bv32, damage: int,
                                               enemyElement: ElementType, others: seq<Collider>)
    requires damage > 0
    requires forall j :: 0 <= j < |others| ==> ContactVerdict(owner, mask, others[j]) == Eligible
    ensures MeleeHealthAfter(health, owner, mask, damage, enemyElement, others) == health - |others| * damage
    decreases |others|
  {
    if others != [] {
      MeleeHitsAccumulate(health - damage, owner, mask, damage, enemyElement, others[1..]);
    }
  }
}
