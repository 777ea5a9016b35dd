/** The per-tick rules of the playable character (BasePlayerController.cs):
    input clamp, attack freeze, facing, jump, attack cooldowns and the reset
    applied when the character definition changes. */
module Player {
  import opened Common
  import opened Definitions

  /** |horizontal| at or below this leaves the facing unchanged. */
  const WalkDeadZone: real := 0.01
  /** |velocity.y| below this counts as grounded. */
  const GroundedThreshold: real := 0.01
  /** The timestamp both attack clocks are reset to by a definition change. */
  const NeverAttacked: real := -999.0

  /** Mathf.Clamp(x, -1, 1). */
  function ClampAxis(x: real): (h: real)
    ensures -1.0 <= h <= 1.0
    ensures -1.0 <= x <= 1.0 ==> h == x
    ensures x > 1.0 ==> h == 1.0
    ensures x < -1.0 ==> h == -1.0
  {
    if x < -1.0 then -1.0 else if x > 1.0 then 1.0 else x
  }

  /** The horizontal intent Update computes: clamped, and forced to zero
      while an attack is in progress. */
  function ControlAxis(moveX: real, attacking: bool): (h: real)
    ensures -1.0 <= h <= 1.0
    ensures attacking ==> h == 0.0
    ensures !attacking ==> h == ClampAxis(moveX)
  {
    if attacking then 0.0 else ClampAxis(moveX)
  }

  /** -1 when facing left, +1 when facing right. */
  function FacingDirection(facingLeft: bool): real
  {
    if facingLeft then -1.0 else 1.0
  }

  /** HandleFlip: the facing after one tick with horizontal intent h. Outside
      the dead zone the character faces the way it is pushed; inside it the
      facing is kept. */
  function FacingAfter(h: real, facingLeft: bool): (left: bool)
    ensures -WalkDeadZone <= h <= WalkDeadZone ==> left == facingLeft
    ensures h > WalkDeadZone ==> !left
    ensures h < -WalkDeadZone ==> left
  {
    if h > WalkDeadZone && facingLeft then !facingLeft
    else if h < -WalkDeadZone && !facingLeft then !facingLeft
    else facingLeft
  }

  /** Flipping twice restores the facing; the flip rule is idempotent, so a
      second tick with the same intent never flips back. */
  lemma FacingIsStable(h: real, facingLeft: bool)
    ensures FacingAfter(h, FacingAfter(h, facingLeft)) == FacingAfter(h, facingLeft)
  {
  }

  /** IsGrounded: the placeholder ground check on vertical speed. A body at
      rest counts as grounded; one rising or falling at the threshold speed
      or faster does not, whatever its horizontal speed. */
  predicate IsGrounded(v: Vec2): (g: bool)
    ensures v.y == 0.0 ==> g
    ensures g ==> -GroundedThreshold < v.y < GroundedThreshold
  {
    -GroundedThreshold < v.y < GroundedThreshold
  }

  /** HandleJump: a flyer always jumps, others only when grounded; the
      horizontal component is never touched. */
  function JumpVelocity(v: Vec2, canFly: bool, jumpForce: real): (r: Vec2)
    ensures r.x == v.x
    ensures canFly || IsGrounded(v) ==> r.y == jumpForce
    ensures !canFly && !IsGrounded(v) ==> r == v
  {
    if canFly || IsGrounded(v) then Vec2(v.x, jumpForce) else v
  }

  /** FixedUpdate: the velocity written for walking. Gravity's component is
      kept; the horizontal speed never exceeds the walk speed. */
  function WalkVelocity(v: Vec2, attacking: bool, h: real, walkSpeed: real): (r: Vec2)
    ensures r.y == v.y
    ensures attacking ==> r.x == 0.0
    ensures !attacking ==> r.x == h * walkSpeed
    ensures walkSpeed >= 0.0 && -1.0 <= h <= 1.0 ==> -walkSpeed <= r.x <= walkSpeed
  {
    if attacking then Vec2(0.0, v.y) else Vec2(h * walkSpeed, v.y)
  }

  /** The cooldown gate of HandleAttacks: a queued attack fires when its
      cooldown has elapsed since the last one. */
  predicate Fires(queued: bool, now: real, last: real, cooldown: real): (f: bool)
    ensures !queued ==> !f
    ensures f && cooldown >= 0.0 ==> now >= last
    ensures f ==> now - last >= cooldown
  {
    queued && now >= last + cooldown
  }

  /** After a definition change both attacks are ready at any time from the
      start of play, for any cooldown up to 999 seconds. */
  lemma ResetMakesAttacksReady(now: real, cooldown: real)
    requires now >= 0.0 && cooldown <= 999.0
    ensures Fires(true, now, NeverAttacked, cooldown)
  {
  }

  /** What an attack asks the engine to instantiate. A melee hitbox is
      mirrored by the facing direction; a projectile gets its launch
      velocity only when the prefab has a Rigidbody2D. */
  datatype Spawn =
    | MeleeSpawn(prefab: Prefab, direction: real)
    | RangedSpawn(prefab: Prefab, launchVelocity: Option<Vec2>)

  /** DoMeleeAttack: nothing without a prefab. */
  function MeleeSpawnFor(c: CharacterDefinition, facingLeft: bool): (s: seq<Spawn>)
    ensures |s| <= 1
    ensures |s| == 1 <==> c.meleeHitboxPrefab.Some?
    ensures |s| == 1 ==> s[0].MeleeSpawn? && s[0].prefab == c.meleeHitboxPrefab.value
    ensures |s| == 1 ==> s[0].direction == (if facingLeft then -1.0 else 1.0)
  {
    match c.meleeHitboxPrefab
    case Nothing => []
    case Some(p) => [MeleeSpawn(p, FacingDirection(facingLeft))]
  }

  /** DoRangedAttack: nothing without a prefab; the launch velocity is
      (dir * rangedProjectileSpeed, 0). */
  function RangedSpawnFor(c: CharacterDefinition, facingLeft: bool): (s: seq<Spawn>)
    ensures |s| <= 1
    ensures |s| == 1 <==> c.rangedProjectilePrefab.Some?
    ensures |s| == 1 ==> s[0].RangedSpawn? && s[0].prefab == c.rangedProjectilePrefab.value
    ensures |s| == 1 ==> (s[0].launchVelocity.Some? <==> s[0].prefab.hasRigidbody)
    ensures |s| == 1 && s[0].launchVelocity.Some? ==>
      s[0].launchVelocity.value ==
        Vec2((if facingLeft then -1.0 else 1.0) * c.rangedProjectileSpeed, 0.0)
  {
    match c.rangedProjectilePrefab
    case Nothing => []
    case Some(p) =>
      [RangedSpawn(p, if p.hasRigidbody then Some(Vec2(FacingDirection(facingLeft) * c.rangedProjectileSpeed, 0.0)) else Nothing)]
  }

  /** The attack-related state one HandleAttacks call reads and writes. */
  datatype AttackState = AttackState(lastMelee: real, lastRanged: real, attacking: bool, spawns: seq<Spawn>)

  /** HandleAttacks with DoMeleeAttack and DoRangedAttack, for character c. */
  function AttackStep(c: CharacterDefinition, meleeQueued: bool, rangedQueued: bool, now: real,
                      facingLeft: bool, s: AttackState): (r: AttackState)
    ensures |s.spawns| <= |r.spawns| <= |s.spawns| + 2 && r.spawns[..|s.spawns|] == s.spawns
    ensures s.attacking ==> r.attacking
    ensures r.spawns == s.spawns
      + (if Fires(meleeQueued, now, s.lastMelee, c.meleeCooldown) then MeleeSpawnFor(c, facingLeft) else [])
      + (if Fires(rangedQueued, now, s.lastRanged, c.rangedCooldown) then RangedSpawnFor(c, facingLeft) else [])
  {
    var melee := Fires(meleeQueued, now, s.lastMelee, c.meleeCooldown);
    var ranged := Fires(rangedQueued, now, s.lastRanged, c.rangedCooldown);
    AttackState(
      if melee then now else s.lastMelee,
      if ranged then now else s.lastRanged,
      s.attacking || (melee && c.meleeHitboxPrefab.Some?) || (ranged && c.rangedProjectilePrefab.Some?),
      s.spawns + (if melee then MeleeSpawnFor(c, facingLeft) else [])
               + (if ranged then RangedSpawnFor(c, facingLeft) else []))
  }

  /** Melee and ranged are independent: each clock moves exactly when its
      own attack is queued and off cooldown, whatever the other one does. */
  lemma AttacksAreIndependent(c: CharacterDefinition, meleeQueued: bool, rangedQueued: bool, now: real,
                              facingLeft: bool, s: AttackState)
    ensures var r := AttackStep(c, meleeQueued, rangedQueued, now, facingLeft, s);
      && (r.lastMelee == now || r.lastMelee == s.lastMelee)
      && (r.lastMelee != s.lastMelee ==> Fires(meleeQueued, now, s.lastMelee, c.meleeCooldown))
      && (Fires(meleeQueued, now, s.lastMelee, c.meleeCooldown) ==> r.lastMelee == now)
      && (Fires(rangedQueued, now, s.lastRanged, c.rangedCooldown) ==> r.lastRanged == now)
      && (!Fires(rangedQueued, now, s.lastRanged, c.rangedCooldown) ==> r.lastRanged == s.lastRanged)
      && r.lastMelee == AttackStep(c, meleeQueued, false, now, facingLeft, s).lastMelee
      && r.lastRanged == AttackStep(c, false, rangedQueued, now, facingLeft, s).lastRanged
  {
  }

  /** Across two HandleAttacks ticks: once an attack has fired at t, the next
      press of it is accepted at t2 exactly when t2 >= t + its cooldown,
      whatever the other attack's clock says. */
  lemma CooldownIsExact(c: CharacterDefinition, t: real, t2: real, facingLeft: bool, s: AttackState)
    ensures Fires(true, t, s.lastMelee, c.meleeCooldown) ==>
      var r1 := AttackStep(c, true, false, t, facingLeft, s);
      AttackStep(c, true, false, t2, facingLeft, r1).spawns
        == r1.spawns + (if t2 >= t + c.meleeCooldown then MeleeSpawnFor(c, facingLeft) else [])
    ensures Fires(true, t, s.lastRanged, c.rangedCooldown) ==>
      var r1 := AttackStep(c, false, true, t, facingLeft, s);
      AttackStep(c, false, true, t2, facingLeft, r1).spawns
        == r1.spawns + (if t2 >= t + c.rangedCooldown then RangedSpawnFor(c, facingLeft) else [])
    ensures Fires(true, t, s.lastMelee, c.meleeCooldown) ==>
      var r1 := AttackStep(c, true, false, t, facingLeft, s);
      Fires(true, t2, r1.lastMelee, c.meleeCooldown) <==> t2 >= t + c.meleeCooldown
    ensures Fires(true, t, s.lastRanged, c.rangedCooldown) ==>
      var r1 := AttackStep(c, false, true, t, facingLeft, s);
      Fires(true, t2, r1.lastRanged, c.rangedCooldown) <==> t2 >= t + c.rangedCooldown
  {
  }

  /** The attack flag is raised only by an attack that fired and has a
      prefab; an attack without a prefab still spends its cooldown. */
  lemma AttackFlagNeedsPrefab(c: CharacterDefinition, meleeQueued: bool, rangedQueued: bool, now: real,
                              facingLeft: bool, s: AttackState)
    ensures var r := AttackStep(c, meleeQueued, rangedQueued, now, facingLeft, s);
      && (!s.attacking ==>
            (r.attacking <==>
               || (Fires(meleeQueued, now, s.lastMelee, c.meleeCooldown) && c.meleeHitboxPrefab.Some?)
               || (Fires(rangedQueued, now, s.lastRanged, c.rangedCooldown) && c.rangedProjectilePrefab.Some?)))
      && (r.spawns == s.spawns && Fires(meleeQueued, now, s.lastMelee, c.meleeCooldown) ==> c.meleeHitboxPrefab.Nothing?)
  {
  }

  class BasePlayerController {
    var currentCharacter: CharacterDefinition?
    /** The x component of the Move action's last value. */
    var moveInputX: real
    var horizontal: real
    var facingLeft: bool
    var isAttacking: bool
    var lastMeleeTime: real
    var lastRangedTime: real
    var jumpQueued: bool
    var meleeQueued: bool
    var rangedQueued: bool
    /** The rigidbody's linear velocity. */
    var velocity: Vec2
    /** Every instantiation requested so far, oldest first. */
    var spawns: seq<Spawn>

    /** Awake (with the inspector's definition): starts facing left, at rest,
        and applies the definition. */
    constructor (def: CharacterDefinition?)
      ensures currentCharacter == def
      ensures facingLeft && !isAttacking
      ensures !jumpQueued && !meleeQueued && !rangedQueued
      ensures moveInputX == 0.0 && horizontal == 0.0
      ensures velocity == ZeroVelocity && spawns == []
      ensures def != null ==> lastMeleeTime == NeverAttacked && lastRangedTime == NeverAttacked
      ensures def == null ==> lastMeleeTime == 0.0 && lastRangedTime == 0.0
    {
      currentCharacter := null;
      moveInputX := 0.0;
      horizontal := 0.0;
      facingLeft := true;
      isAttacking := false;
      lastMeleeTime := 0.0;
      lastRangedTime := 0.0;
      jumpQueued := false;
      meleeQueued := false;
      rangedQueued := false;
      velocity := ZeroVelocity;
      spawns := [];
      new;
      ApplyCharacterDefinition(def);
    }

    /** Move performed / canceled: the input delegates record the axis. */
    method OnMove(x: real)
      modifies this`moveInputX
      ensures moveInputX == x
    {
      moveInputX := x;
    }

    /** Jump performed: queue a jump for the next Update. */
    method OnJumpPerformed()
      modifies this`jumpQueued
      ensures jumpQueued
    {
      jumpQueued := true;
    }

    /** MeleeAttack performed: queue a melee attack. */
    method OnMeleeAttackPerformed()
      modifies this`meleeQueued
      ensures meleeQueued
    {
      meleeQueued := true;
    }

    /** RangedAttack performed: queue a ranged attack. */
    method OnRangedAttackPerformed()
      modifies this`rangedQueued
      ensures rangedQueued
    {
      rangedQueued := true;
    }

    /** The attack-related fields, as one value. */
    function Attack(): AttackState
      reads this
    {
      AttackState(lastMeleeTime, lastRangedTime, isAttacking, spawns)
    }

    /** One frame: the horizontal intent is clamped (and zeroed while
        attacking), the facing follows it, then the queued presses are
        handled. */
    method Update(now: real)
      modifies this`horizontal, this`facingLeft, this`jumpQueued, this`meleeQueued, this`rangedQueued
      modifies this`velocity, this`lastMeleeTime, this`lastRangedTime, this`isAttacking, this`spawns
      ensures horizontal == ControlAxis(moveInputX, old(isAttacking))
      ensures facingLeft == FacingAfter(horizontal, old(facingLeft))
      ensures !jumpQueued
      ensures currentCharacter == null ==>
        && meleeQueued == old(meleeQueued) && rangedQueued == old(rangedQueued)
        && velocity == old(velocity) && Attack() == old(Attack())
      ensures currentCharacter != null ==>
        && !meleeQueued && !rangedQueued
        && velocity == (if old(jumpQueued) then JumpVelocity(old(velocity), currentCharacter.canFly, currentCharacter.jumpForce)
                        else old(velocity))
        && Attack() == AttackStep(currentCharacter, old(meleeQueued), old(rangedQueued), now, facingLeft, old(Attack()))
    {
      horizontal := ClampAxis(moveInputX);
      if isAttacking {
        horizontal := 0.0;
      }
      HandleFlip();
      HandleQueuedPresses(now);
    }

    /** The second half of Update: a queued jump, then queued attacks, each
        flag cleared once handled. With no current definition the first
        dereference (in HandleJump, or in HandleAttacks' cooldown test)
        throws and the rest of the frame is skipped: the jump flag, cleared
        before the throw, stays cleared; the attack flags stay queued. */
    method HandleQueuedPresses(now: real)
      modifies this`jumpQueued, this`meleeQueued, this`rangedQueued
      modifies this`velocity, this`lastMeleeTime, this`lastRangedTime, this`isAttacking, this`spawns
      ensures !jumpQueued
      ensures currentCharacter == null ==>
        && meleeQueued == old(meleeQueued) && rangedQueued == old(rangedQueued)
        && velocity == old(velocity) && Attack() == old(Attack())
      ensures currentCharacter != null ==>
        && !meleeQueued && !rangedQueued
        && velocity == (if old(jumpQueued) then JumpVelocity(old(velocity), currentCharacter.canFly, currentCharacter.jumpForce)
                        else old(velocity))
        && Attack() == AttackStep(currentCharacter, old(meleeQueued), old(rangedQueued), now, facingLeft, old(Attack()))
    {
      if jumpQueued {
        jumpQueued := false;
        if currentCharacter == null { return; }
        HandleJump();
      }
      if (meleeQueued || rangedQueued) && currentCharacter != null {
        HandleAttacks(now);
        meleeQueued := false;
        rangedQueued := false;
      }
    }

    /** One physics step: attacking freezes horizontal motion, otherwise the
        walk speed drives it; vertical velocity is left to gravity. With no
        definition and no attack in progress, the walk-speed read throws. */
    method FixedUpdate()
      modifies this`velocity
      ensures isAttacking ==> velocity == WalkVelocity(old(velocity), true, horizontal, 0.0)
      ensures !isAttacking && currentCharacter != null ==>
        velocity == WalkVelocity(old(velocity), false, horizontal, currentCharacter.walkSpeed)
      ensures !isAttacking && currentCharacter == null ==> velocity == old(velocity)
    {
      if isAttacking {
        velocity := Vec2(0.0, velocity.y);
        return;
      }
      if currentCharacter == null { return; }
      velocity := Vec2(horizontal * currentCharacter.walkSpeed, velocity.y);
    }

    /** ApplyCharacterDefinition: a null definition changes nothing; any other
        becomes current and makes both attacks ready again. */
    method ApplyCharacterDefinition(def: CharacterDefinition?)
      modifies this`currentCharacter, this`lastMeleeTime, this`lastRangedTime
      ensures def == null ==>
        currentCharacter == old(currentCharacter) && lastMeleeTime == old(lastMeleeTime) && lastRangedTime == old(lastRangedTime)
      ensures def != null ==>
        currentCharacter == def && lastMeleeTime == NeverAttacked && lastRangedTime == NeverAttacked
    {
      if def == null { return; }
      currentCharacter := def;
      lastMeleeTime := NeverAttacked;
      lastRangedTime := NeverAttacked;
    }

    method HandleJump()
      requires currentCharacter != null
      modifies this`velocity
      ensures velocity == JumpVelocity(old(velocity), currentCharacter.canFly, currentCharacter.jumpForce)
    {
      if currentCharacter.canFly {
        velocity := Vec2(velocity.x, currentCharacter.jumpForce);
      } else {
        if IsGrounded(velocity) {
          velocity := Vec2(velocity.x, currentCharacter.jumpForce);
        }
      }
    }

    /** HandleAttacks: melee and ranged are gated independently, each by its
        own cooldown; the timestamp is taken even when the prefab is missing. */
    method HandleAttacks(now: real)
      requires currentCharacter != null
      modifies this`lastMeleeTime, this`lastRangedTime, this`isAttacking, this`spawns
      ensures Attack() == AttackStep(currentCharacter, meleeQueued, rangedQueued, now, facingLeft, old(Attack()))
    {
      if meleeQueued && now >= lastMeleeTime + currentCharacter.meleeCooldown {
        lastMeleeTime := now;
        DoMeleeAttack();
      }
      if rangedQueued && now >= lastRangedTime + currentCharacter.rangedCooldown {
        lastRangedTime := now;
        DoRangedAttack();
      }
    }

    /** DoMeleeAttack: with a prefab, the attack starts and a hitbox is
        spawned facing the way the character faces. */
    method DoMeleeAttack()
      requires currentCharacter != null
      modifies this`isAttacking, this`spawns
      ensures isAttacking == (old(isAttacking) || currentCharacter.meleeHitboxPrefab.Some?)
      ensures spawns == old(spawns) + MeleeSpawnFor(currentCharacter, facingLeft)
    {
      if currentCharacter.meleeHitboxPrefab.Nothing? { return; }
      isAttacking := true;
      var dir := FacingDirection(facingLeft);
      spawns := spawns + [MeleeSpawn(currentCharacter.meleeHitboxPrefab.value, dir)];
    }

    /** DoRangedAttack: with a prefab, the attack starts and a projectile is
        spawned moving horizontally in the facing direction. */
    method DoRangedAttack()
      requires currentCharacter != null
      modifies this`isAttacking, this`spawns
      ensures isAttacking == (old(isAttacking) || currentCharacter.rangedProjectilePrefab.Some?)
      ensures spawns == old(spawns) + RangedSpawnFor(currentCharacter, facingLeft)
    {
      if currentCharacter.rangedProjectilePrefab.Nothing? { return; }
      isAttacking := true;
      var dir := FacingDirection(facingLeft);
      var prefab := currentCharacter.rangedProjectilePrefab.value;
      var launch := if prefab.hasRigidbody then Some(Vec2(dir * currentCharacter.rangedProjectileSpeed, 0.0)) else Nothing;
      spawns := spawns + [RangedSpawn(prefab, launch)];
    }

    /** The animation event that ends an attack: the only way the flag is
        cleared. */
    method OnAttackAnimationEnd()
      modifies this`isAttacking
      ensures !isAttacking
    {
      isAttacking := false;
    }

    method HandleFlip()
      modifies this`facingLeft
      ensures facingLeft == FacingAfter(horizontal, old(facingLeft))
    {
      if horizontal > WalkDeadZone && facingLeft {
        Flip();
      } else if horizontal < -WalkDeadZone && !facingLeft {
        Flip();
      }
    }

    method Flip()
      modifies this`facingLeft
      ensures facingLeft == !old(facingLeft)
    {
      facingLeft := !facingLeft;
    }
  }
}
