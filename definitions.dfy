/** The data assets read by the core: character and enemy stat blocks.
    They carry no behaviour (CharacterDefinition.cs, EnemyCharacterDefinition.cs). */
module Definitions {
  import opened Common

  /** Elemental tag of an attack or an enemy. None, Fire and Ice are the
      members the damage rules name; Other stands for any further member of
      the enum, whose declaration is not part of this model. */
  datatype ElementType = None | Fire | Ice | Other(name: string)

  /** A prefab reference: its identity and whether it carries a Rigidbody2D. */
  datatype Prefab = Prefab(id: nat, hasRigidbody: bool)

  /** The fields of an enemy definition that the core reads. */
  datatype EnemyDefinition = EnemyDefinition(enemyId: string, elementType: ElementType, maxHealth: int)

  /** A character archetype. It is a reference, like the ScriptableObject it
      models: the energy ledger is keyed by identity, and the evolution edges
      may form cycles (forward to B, backward from B to A). The stat block is
      immutable; the three evolution fields are the ones the digivolve
      component reads. Default values are the asset's defaults. */
  class CharacterDefinition {
    const characterId: string
    const walkSpeed: real
    const canFly: bool
    const jumpForce: real
    const rangedProjectilePrefab: Option<Prefab>
    const rangedCooldown: real
    const rangedProjectileSpeed: real
    const rangedDamage: int
    const rangedHoverTime: real
    const rangedLifetime: real
    const meleeHitboxPrefab: Option<Prefab>
    const meleeCooldown: real
    const meleeDamage: real
    var canDigivolve: bool
    var digivolveTo: CharacterDefinition?
    var deDigivolveTo: CharacterDefinition?

    constructor (characterId: string,
                 walkSpeed: real := 5.0,
                 canFly: bool := false,
                 jumpForce: real := 10.0,
                 rangedProjectilePrefab: Option<Prefab> := Nothing,
                 rangedCooldown: real := 0.5,
                 rangedProjectileSpeed: real := 10.0,
                 rangedDamage: int := 1,
                 rangedHoverTime: real := 1.0,
                 rangedLifetime: real := 3.0,
                 meleeHitboxPrefab: Option<Prefab> := Nothing,
                 meleeCooldown: real := 0.4,
                 meleeDamage: real := 1.0)
      ensures this.characterId == characterId && this.walkSpeed == walkSpeed
      ensures this.canFly == canFly && this.jumpForce == jumpForce
      ensures this.rangedProjectilePrefab == rangedProjectilePrefab
      ensures this.rangedCooldown == rangedCooldown && this.rangedProjectileSpeed == rangedProjectileSpeed
      ensures this.rangedDamage == rangedDamage && this.rangedHoverTime == rangedHoverTime
      ensures this.rangedLifetime == rangedLifetime
      ensures this.meleeHitboxPrefab == meleeHitboxPrefab
      ensures this.meleeCooldown == meleeCooldown && this.meleeDamage == meleeDamage
      ensures !canDigivolve && digivolveTo == null && deDigivolveTo == null
    {
      this.characterId := characterId;
      this.walkSpeed := walkSpeed;
      this.canFly := canFly;
      this.jumpForce := jumpForce;
      this.rangedProjectilePrefab := rangedProjectilePrefab;
      this.rangedCooldown := rangedCooldown;
      this.rangedProjectileSpeed := rangedProjectileSpeed;
      this.rangedDamage := rangedDamage;
      this.rangedHoverTime := rangedHoverTime;
      this.rangedLifetime := rangedLifetime;
      this.meleeHitboxPrefab := meleeHitboxPrefab;
      this.meleeCooldown := meleeCooldown;
      this.meleeDamage := meleeDamage;
      canDigivolve := false;
      digivolveTo := null;
      deDigivolveTo := null;
    }

    /** Sets the evolution edges. The game never does this at run time: it
        stands for a designer editing the asset in the Inspector, so that
        scenarios can build an evolution graph. */
    method SetEvolution(canDigivolve: bool, digivolveTo: CharacterDefinition?, deDigivolveTo: CharacterDefinition?)
      modifies this`canDigivolve, this`digivolveTo, this`deDigivolveTo
      ensures this.canDigivolve == canDigivolve
      ensures this.digivolveTo == digivolveTo && this.deDigivolveTo == deDigivolveTo
    {
      this.canDigivolve := canDigivolve;
      this.digivolveTo := digivolveTo;
      this.deDigivolveTo := deDigivolveTo;
    }
  }
}
