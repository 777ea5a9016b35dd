/** Short play sessions that run several components together, each stating
    its outcome. */
module Scenarios {
  import opened Common
  import opened Definitions
  import opened Enemies
  import opened Player
  import opened Stats
  import opened Roster
  import opened Evolution
  import opened Attacks

  /** A hit mask holding layer 8 only. */
  const EnemyMask: bv32 := 0x100

  lemma EnemyLayerIsInMask()
    ensures InMask(8, EnemyMask)
  {
  }

  /** Only the key labelled 2 is held down. */
  const SecondDigitKey: seq<bool> := [false, true, false, false, false, false, false, false, false]

  lemma SecondDigitKeySelectsSlotOne()
    ensures |SecondDigitKey| == DigitKeyCount && DigitKeyIndex(SecondDigitKey) == Some(1)
  {
    assert FirstPressed(SecondDigitKey, 1) == Some(1);
  }

  /** Energy is kept per character: after switching with the digit keys,
      pickups credit the new character and the first one keeps its own. */
  method EnergyFollowsTheActiveCharacter(a: CharacterDefinition, b: CharacterDefinition)
    returns (energyA: int, energyB: int, current: CharacterDefinition?)
    requires a != b
    ensures energyA == 30 && energyB == 10 && current == b
  {
    var player := new BasePlayerController(a);
    var stats := new PlayerStats(player);
    var swap := new CharacterSwap(player, [a, b]);
    swap.Start();
    assert player.currentCharacter == a;
    stats.AddEnergy(30);
    assert stats.energyByCharacter == map[a := 30];
    SecondDigitKeySelectsSlotOne();
    swap.Update(SecondDigitKey);
    assert player.currentCharacter == b;
    stats.OnCharacterChanged(b);
    assert stats.energyByCharacter == map[a := 30, b := 0];
    stats.AddEnergy(10);
    assert stats.energyByCharacter == map[a := 30, b := 10];
    energyA := stats.GetEnergy(a);
    energyB := stats.GetEnergy(b);
    current := player.currentCharacter;
  }

  /** A melee hitbox on an Ice enemy with 5 health: two hits take 2 health,
      the owner's own collider and a collider on a layer outside the mask
      are ignored, and nobody dies. */
  method MeleeComboOnEnemy() returns (health: int, deaths: nat)
    ensures health == 3 && deaths == 0
  {
    var enemy := new EnemyHealth(Some(EnemyDefinition("yeti", Ice, 5)));
    var hitbox := new MeleeHitbox(Vec3(0.0, 0.0, 0.0));
    var enemyLayer: Layer := 8;
    hitbox.Initialize(Some(1), true, 1, 0.0, LayerBit(enemyLayer), 0.0);
    var body := Collider(20, {20}, enemyLayer, true, enemy);
    var ownCollider := Collider(2, {2, 1}, enemyLayer, true, enemy);
    var wall := Collider(21, {21}, 3, true, enemy);
    hitbox.OnTriggerEnter2D(body);
    hitbox.OnTriggerEnter2D(ownCollider);
    hitbox.OnTriggerEnter2D(wall);
    hitbox.OnTriggerEnter2D(body);
    health := enemy.CurrentHealth;
    deaths := enemy.dieCalls;
  }

  /** A projectile hovers at its spawn point, still, while its hover time
      has not run out. */
  method ProjectileHovers() returns (velocity: Vec2, position: Vec3)
    ensures velocity == ZeroVelocity && position == Vec3(1.0, 1.0, 0.0)
  {
    var p := new Projectile(EnemyMask, Vec3(0.0, 0.0, 0.0));
    var spawn := Vec3(1.0, 1.0, 0.0);
    p.Initialize(Some(1), true, spawn, -0.5, 12.0, 2, 0.5, 3.0, EnemyMask, 0.0, 0.25);
    assert p.phase == Hovering(0.25);
    p.ResumeHover(0.25, 0.25, spawn);
    velocity, position := p.velocity, p.position;
  }

  /** With no hover time a projectile launches at once, leftwards for a
      negative direction; it hands its damage to the first target in the
      mask and is gone when that step ends. */
  method ProjectileLaunchesAndHitsOnce() returns (velocity: Vec2, delivered: Option<int>, destroyed: bool)
    ensures velocity == Vec2(-12.0, 0.0) && delivered == Some(2) && destroyed
  {
    var p := new Projectile(EnemyMask, Vec3(0.0, 0.0, 0.0));
    p.Initialize(Some(1), false, Vec3(0.0, 0.0, 0.0), -0.5, 12.0, 2, 0.0, 3.0, EnemyMask, 0.0, 0.25);
    velocity := p.velocity;
    EnemyLayerIsInMask();
    delivered := p.OnTriggerEnter2D(Collider(20, {20}, 8, true, null), 0.75);
    p.Expire(0.75);
    destroyed := p.destroyed;
  }

  /** Evolution edges may form a cycle: forward from a to b, then backward
      from b to a, each completed by the animation's end event. */
  method DigivolveRoundTrip(a: CharacterDefinition, b: CharacterDefinition)
    returns (afterForward: CharacterDefinition?, afterBackward: CharacterDefinition?)
    requires a != b
    modifies a, b
    ensures afterForward == b && afterBackward == a
  {
    a.SetEvolution(true, b, null);
    b.SetEvolution(true, null, a);
    var player := new BasePlayerController(a);
    var morph := new Digivolve(player);
    morph.Update(true, false);
    morph.DigivolveToNextLevel();
    afterForward := player.currentCharacter;
    morph.Update(false, true);
    morph.DigivolveToNextLevel();
    afterBackward := player.currentCharacter;
  }
}
