# Digimon World 0: character and combat core in Dafny

This project models the gameplay core of a Unity side-view action
platformer in which the player switches between Digimon characters and
makes them digivolve. The core covers these parts:

- **Elemental damage.** `EnemyHealth` applies a hit after an element
  multiplier. Fire does nothing to a Fire enemy and deals double damage to
  an Ice enemy; every other pairing deals normal damage.
- **Energy ledger.** `PlayerStats` keeps one integer of energy per
  character definition. The value is clamped into `[0, maxEnergy]` on gain,
  and a spend is refused when the stored value is too low.
- **Roster.** `CharacterSwap` keeps the list of unlocked characters set up
  in the scene, which may hold duplicates or empty slots. Adding a character
  at run time never adds a null or a second copy. The digit keys 1 to 9
  switch to a roster slot.
- **Digivolution.** `Digivolve` runs in two phases. A key press records a
  pending target. The end of the animation applies that target. While a
  request is pending, no new one is accepted.
- **Player controller.** `BasePlayerController` runs the per-frame rules:
  - the move axis is clamped, and it is zeroed while an attack plays;
  - the facing has a dead zone;
  - a jump works when grounded, or always for a character that can fly;
  - melee and ranged attacks each have their own cooldown;
  - applying a new definition resets both attack clocks.
- **Attack instances.**
  - `Projectile` hovers at its spawn point for a while, then launches
    horizontally. It is destroyed at the end of the frame of its first
    eligible contact. Every eligible contact in that frame still delivers,
    so it hits once only when that contact is alone in its frame.
  - `MeleeHitbox` follows its spawn point and may hit many times.
  - Both ignore their owner and any layer outside their hit mask.

Each component whose fields the game updates in place is a Dafny `class`
with the fields the core reads and writes. Engine handles (rigidbody,
animator, spawn points, input actions) are not fields. The engine state the
core changes through them becomes fields of its own: `velocity`,
`destroyAt`, `destroyed` and the coroutine `phase`. Its methods carry `modifies` frames, and their
postconditions tie the new state to pure functions:
`ResolveHit`, `AddedEnergy`, `SpentEnergy`, `WithEntry`, `AddedToRoster`,
`Request`, `Acknowledge`, `AttackStep`, `JumpVelocity`, `WalkVelocity`,
`FacingAfter`, `Resume`, `ContactVerdict` and `ContactDamage`. The
properties the game relies on are proved as lemmas about those functions.

The model follows these conventions:

- **Engine inputs are parameters.** The engine's per-frame inputs become
  method parameters: key presses as booleans, `Time.time` as `now`,
  `Time.deltaTime` as `dt`, and the follow point's position.
- **Null dereferences.** Where the C# code would dereference a null
  reference, the model ends the call at that point. State written before
  the throw is kept, and everything after it is skipped, as Unity does
  with an exception inside a callback.
- **Destroy.** `Destroy(gameObject, t)` becomes a deadline (`destroyAt`).
  The engine's `Expire(now)` carries it out by setting `destroyed`.
  `Destroy(gameObject)` with no delay takes effect at the end of the
  current frame. A destroyed object receives no callbacks.
- **Coroutine.** The `HoverThenLaunch` coroutine is a phase value
  `Idle | Hovering(elapsed) | Launched`. `StartCoroutine` runs the routine
  up to its first `yield` at once, so `Initialize` performs the first
  resumption itself.

The code leaves out several behaviours a player might expect, and the
model follows the code:

- There is no energy gate on forward digivolution.
- No energy is spent when a character digivolves.
- Nothing models flight fuel, dash or wall checks.
- "Energy full" is `>= maxEnergy` rather than `==`.
- A null reference throws instead of being a silent no-op.

## Model

| member | source | states |
|---|---|---|
| Enemies.ElementMultiplier | Assets/_Scripts/Enemies/EnemyHealth.cs:39-52 | The multiplier is one of 0, 1, 2 |
| Enemies.NeutralIsNormal | Assets/_Scripts/Enemies/EnemyHealth.cs:41-43 | A None attack or a None enemy always gives multiplier 1 |
| Enemies.MultiplierTable | Assets/_Scripts/Enemies/EnemyHealth.cs:45-51 | The multiplier differs from 1 exactly for Fire on Fire (0) and Fire on Ice (2) |
| Enemies.FinalDamage | Assets/_Scripts/Enemies/EnemyHealth.cs:25-27 | A positive hit deals between 0 and twice the amount; 0 exactly for Fire on Fire, double exactly for Fire on Ice, the plain amount for a neutral pairing |
| Enemies.ResolveHit | Assets/_Scripts/Enemies/EnemyHealth.cs:21-37 | A non-positive amount changes nothing; otherwise health drops by the final damage; Die fires exactly when health actually dropped to 0 or below; health never rises |
| Enemies.FireImmunity | Assets/_Scripts/Enemies/EnemyHealth.cs:29-31 | Fire on a Fire enemy leaves health unchanged and never kills, for any amount |
| Enemies.FireAgainstIceDoubles | Assets/_Scripts/Enemies/EnemyHealth.cs:48 | Fire on an Ice enemy removes exactly twice the amount |
| Enemies.RepeatedNeutralHits | Assets/_Scripts/Enemies/EnemyHealth.cs:21-37 | n neutral hits of a positive amount lower health by exactly n times it (nothing saturates or is skipped) |
| Enemies.EnemyHealth.constructor | Assets/_Scripts/Enemies/EnemyHealth.cs:9-19 | A missing definition disables the component; otherwise health starts at maxHealth |
| Enemies.EnemyHealth.TakeDamage | Assets/_Scripts/Enemies/EnemyHealth.cs:21-37 | Health and the Die count change exactly as ResolveHit says for the enemy's element; with no definition nothing changes |
| Enemies.EnemyHealth.Die | Assets/_Scripts/Enemies/EnemyHealth.cs:54-57 | Records one destruction request |
| Definitions.CharacterDefinition.constructor | Assets/_Scripts/Player/CharacterDefinition.cs:4-31 | Every stat takes the given value, defaulting to the asset's defaults; no evolution edges |
| Stats.Clamp | Assets/_Scripts/Managers/PlayerStats.cs:71 | The result lies in [lo, hi]; it is v when v already does, lo when v is below lo, and hi when v is above hi |
| Stats.WithEntry | Assets/_Scripts/Managers/PlayerStats.cs:34-39 | Null leaves the ledger as is; otherwise the key set gains d, d's value is kept or 0, and no existing entry changes |
| Stats.EnsureEntryIsIdempotent | Assets/_Scripts/Managers/PlayerStats.cs:34-39 | Creating an entry twice is the same as once and never changes what GetEnergy reads |
| Stats.AddedEnergy | Assets/_Scripts/Managers/PlayerStats.cs:59-73 | A non-positive amount changes nothing; otherwise the result lies in [0, maxEnergy] and is min(e + amount, maxEnergy) for a non-negative entry |
| Stats.RepeatedOverfillSaturates | Assets/_Scripts/Managers/PlayerStats.cs:71 | Any number of overfilling gains leaves the entry at exactly maxEnergy |
| Stats.SpentEnergy | Assets/_Scripts/Managers/PlayerStats.cs:85-90 | The spend succeeds iff the entry holds at least amount; failure changes nothing, success subtracts exactly amount and stays non-negative |
| Stats.NegativeSpendRaisesEnergy | Assets/_Scripts/Managers/PlayerStats.cs:85-88 | A negative amount is accepted and pushes a full entry above maxEnergy |
| Stats.Wrap32 | Assets/_Scripts/Managers/PlayerStats.cs:71 | C#'s unchecked int addition: the result is a 32-bit value, equal to the sum when it fits |
| Stats.AddedEnergyInt32 | Assets/_Scripts/Managers/PlayerStats.cs:59-73 | AddEnergy as written with 32-bit addition: a non-positive amount changes nothing; the result stays in [0, maxEnergy]; it equals AddedEnergy whenever the sum fits in 32 bits |
| Stats.AddEnergyOverflowEmpties | Assets/_Scripts/Managers/PlayerStats.cs:71 | Without overflow the 32-bit code agrees with AddedEnergy; with overflow it leaves 0 where maxEnergy was meant |
| Stats.AddEnergyOverflowExample | Assets/_Scripts/Managers/PlayerStats.cs:71 | 50 energy plus int.MaxValue gives 0 as written, 100 as intended |
| Stats.PlayerStats.constructor | Assets/_Scripts/Managers/PlayerStats.cs:8-17 | Empty ledger, no notifications, maxEnergy defaulting to 100 |
| Stats.PlayerStats.Start | Assets/_Scripts/Managers/PlayerStats.cs:25-32 | The current character gets an entry and its value is announced |
| Stats.PlayerStats.EnsureEntry | Assets/_Scripts/Managers/PlayerStats.cs:34-39 | The ledger becomes WithEntry of the old one |
| Stats.PlayerStats.GetEnergy | Assets/_Scripts/Managers/PlayerStats.cs:41-45 | Returns the stored value (0 for null or a new key) and creates the entry |
| Stats.PlayerStats.IsEnergyFull | Assets/_Scripts/Managers/PlayerStats.cs:47-50 | True iff the stored value is at least maxEnergy; creates the entry |
| Stats.PlayerStats.IsCurrentEnergyFull | Assets/_Scripts/Managers/PlayerStats.cs:52-57 | False with no current character, otherwise whether its entry is full |
| Stats.PlayerStats.AddEnergy | Assets/_Scripts/Managers/PlayerStats.cs:59-73 | Only the current character's entry changes, to AddedEnergy of it, and one notification carries the new value; other entries are untouched; all entries staying in [0, maxEnergy] is preserved |
| Stats.PlayerStats.TrySpendEnergy | Assets/_Scripts/Managers/PlayerStats.cs:75-91 | Result and entry follow SpentEnergy, a notification only on success, other entries untouched, bounds preserved for non-negative amounts |
| Stats.PlayerStats.SpendAllEnergy | Assets/_Scripts/Managers/PlayerStats.cs:93-104 | The current entry becomes 0 and is announced; others untouched |
| Stats.PlayerStats.OnCharacterChanged | Assets/_Scripts/Managers/PlayerStats.cs:107-112 | The new definition gets an entry without losing a stored value, then the current value is announced |
| Stats.PlayerStats.RaiseChanged | Assets/_Scripts/Managers/PlayerStats.cs:114-123 | Appends (current energy, maxEnergy) to the notifications when there is a current character |
| Roster.FirstPressed | Assets/_Scripts/Player/CharacterSwap.cs:31-39 | Finds the first pressed key at or after from, or reports that none is pressed |
| Roster.DigitKeyIndex | Assets/_Scripts/Player/CharacterSwap.cs:26-40 | An index is requested iff some digit key is pressed; it is the lowest pressed key |
| Roster.AddedToRoster | Assets/_Scripts/Player/CharacterSwap.cs:54-71 | Null and members are rejected, anything else is appended at the end; a roster without duplicates keeps none; the definition is in the result |
| Roster.CharacterSwap.constructor | Assets/_Scripts/Player/CharacterSwap.cs:8-15 | Index 0 and the given roster |
| Roster.CharacterSwap.Start | Assets/_Scripts/Player/CharacterSwap.cs:17-24 | With a controller and a non-empty roster, index 0 is selected and the controller plays slot 0 with ready attacks |
| Roster.CharacterSwap.Update | Assets/_Scripts/Player/CharacterSwap.cs:26-40 | The lowest pressed digit selects its slot when it is in range and not current, and a non-null slot's definition is applied with both attacks ready; a null slot moves the index only and leaves the controller as it was; otherwise nothing changes |
| Roster.CharacterSwap.SwapToIndex | Assets/_Scripts/Player/CharacterSwap.cs:42-52 | Out of range or current: nothing changes; otherwise the index moves and the controller plays that slot (a null slot moves only the index) |
| Roster.CharacterSwap.AddCharacterToRoster | Assets/_Scripts/Player/CharacterSwap.cs:54-71 | The roster becomes AddedToRoster of the old one; the index stays valid |
| Evolution.ForwardTarget | Assets/_Scripts/Player/Digivolve.cs:27-32 | A forward target exists only for a current character that can digivolve, and any such character yields exactly its digivolveTo |
| Evolution.BackwardTarget | Assets/_Scripts/Player/Digivolve.cs:42-46 | A backward target exists only for a current character that can digivolve, and any such character yields exactly its deDigivolveTo |
| Evolution.Request | Assets/_Scripts/Player/Digivolve.cs:20-52 | Nothing changes while digivolving or without a usable press; an accepted request's target is one of the usable pressed targets |
| Evolution.Acknowledge | Assets/_Scripts/Player/Digivolve.cs:55-65 | Always leaves the component idle, clearing a pending request |
| Evolution.RequestAccepted | Assets/_Scripts/Player/Digivolve.cs:20-52 | A request is pending afterwards iff one was pending or a press found a usable target (a failed forward press ends the frame) |
| Evolution.BackwardOverridesForward | Assets/_Scripts/Player/Digivolve.cs:39-51 | With both presses usable in one frame the backward target is the one recorded |
| Evolution.AcknowledgeReopens | Assets/_Scripts/Player/Digivolve.cs:55-65 | After the acknowledgment a new request is accepted |
| Evolution.Digivolve.constructor | Assets/_Scripts/Player/Digivolve.cs:14-18 | Starts idle with no target |
| Evolution.Digivolve.Update | Assets/_Scripts/Player/Digivolve.cs:20-52 | The state becomes Request of the old state with the current character's targets; the active character is untouched |
| Evolution.Digivolve.DigivolveToNextLevel | Assets/_Scripts/Player/Digivolve.cs:55-65 | The state becomes Acknowledge of the old one; a pending target becomes the player's character with ready attacks, otherwise the player is untouched |
| Player.ClampAxis | Assets/_Scripts/Player/BasePlayerController.cs:90 | The result lies in [-1, 1], equals the input inside it and saturates outside |
| Player.ControlAxis | Assets/_Scripts/Player/BasePlayerController.cs:87-101 | Zero while attacking, otherwise the clamped input |
| Player.FacingAfter | Assets/_Scripts/Player/BasePlayerController.cs:281-291 | Inside the dead zone the facing is kept; beyond it the character faces the way it is pushed |
| Player.FacingIsStable | Assets/_Scripts/Player/BasePlayerController.cs:281-300 | A second tick with the same intent never flips back |
| Player.JumpVelocity | Assets/_Scripts/Player/BasePlayerController.cs:159-185 | x is untouched; y becomes jumpForce for a flyer or when grounded, else the velocity is unchanged |
| Player.WalkVelocity | Assets/_Scripts/Player/BasePlayerController.cs:120-134 | y is kept; x is 0 while attacking and the clamped axis times walkSpeed otherwise, so it never exceeds the walk speed |
| Player.IsGrounded | Assets/_Scripts/Player/BasePlayerController.cs:181-185 | A body at rest is grounded; a grounded body moves vertically slower than 0.01 |
| Player.Fires | Assets/_Scripts/Player/BasePlayerController.cs:193-194 | An attack that is not queued never fires; a fired attack has waited at least its cooldown since the last one |
| Player.ResetMakesAttacksReady | Assets/_Scripts/Player/BasePlayerController.cs:152-153 | After the -999 reset any queued attack fires at any time from 0 on, for cooldowns up to 999 s |
| Player.CooldownIsExact | Assets/_Scripts/Player/BasePlayerController.cs:193-206 | Over two consecutive HandleAttacks ticks, after an attack fired at t, the next press fires at t2 iff t2 >= t + cooldown, and it spawns that attack's MeleeSpawnFor or RangedSpawnFor exactly then, for melee and ranged alike |
| Player.MeleeSpawnFor | Assets/_Scripts/Player/BasePlayerController.cs:209-236 | A hitbox is spawned iff there is a prefab; it is that prefab, mirrored by -1 when facing left and +1 otherwise |
| Player.RangedSpawnFor | Assets/_Scripts/Player/BasePlayerController.cs:238-269 | A projectile is spawned iff there is a prefab; it is that prefab; it has a launch velocity iff the prefab has a rigidbody, and that velocity is (facing direction * rangedProjectileSpeed, 0) |
| Player.AttackStep | Assets/_Scripts/Player/BasePlayerController.cs:190-207 | Spawns are only appended (at most two): the melee spawn of MeleeSpawnFor iff the melee fires, then the ranged spawn of RangedSpawnFor iff the ranged fires; an attack that does not fire spawns nothing; the attacking flag is never cleared |
| Player.AttacksAreIndependent | Assets/_Scripts/Player/BasePlayerController.cs:190-207 | Each clock moves to now exactly when its own attack fires, whatever the other attack does |
| Player.AttackFlagNeedsPrefab | Assets/_Scripts/Player/BasePlayerController.cs:209-243 | The attacking flag is raised iff an attack fired with a prefab; a fired attack with no spawn had no prefab |
| Player.BasePlayerController.constructor | Assets/_Scripts/Player/BasePlayerController.cs:41-59 | Faces left, at rest, nothing queued, definition applied (clocks reset when it is not null) |
| Player.BasePlayerController.OnMove | Assets/_Scripts/Player/BasePlayerController.cs:54-55 | Records the move axis |
| Player.BasePlayerController.OnJumpPerformed | Assets/_Scripts/Player/BasePlayerController.cs:56 | Queues a jump |
| Player.BasePlayerController.OnMeleeAttackPerformed | Assets/_Scripts/Player/BasePlayerController.cs:57 | Queues a melee attack |
| Player.BasePlayerController.OnRangedAttackPerformed | Assets/_Scripts/Player/BasePlayerController.cs:58 | Queues a ranged attack |
| Player.BasePlayerController.Update | Assets/_Scripts/Player/BasePlayerController.cs:87-118 | Intent is ControlAxis, facing is FacingAfter, the jump flag ends cleared; with a character the attack flags end cleared, velocity follows JumpVelocity and the attack state follows AttackStep; without one the frame aborts before any of that |
| Player.BasePlayerController.HandleQueuedPresses | Assets/_Scripts/Player/BasePlayerController.cs:105-117 | The queued-press half of Update, with the same guarantees |
| Player.BasePlayerController.FixedUpdate | Assets/_Scripts/Player/BasePlayerController.cs:120-134 | Velocity becomes WalkVelocity: horizontal motion frozen while attacking, walk speed otherwise; gravity's component kept |
| Player.BasePlayerController.ApplyCharacterDefinition | Assets/_Scripts/Player/BasePlayerController.cs:139-154 | Null changes nothing; otherwise the definition becomes current and both clocks are reset to -999 |
| Player.BasePlayerController.HandleJump | Assets/_Scripts/Player/BasePlayerController.cs:159-179 | Velocity becomes JumpVelocity of the old one |
| Player.BasePlayerController.HandleAttacks | Assets/_Scripts/Player/BasePlayerController.cs:190-207 | The attack state becomes AttackStep of the old one |
| Player.BasePlayerController.DoMeleeAttack | Assets/_Scripts/Player/BasePlayerController.cs:209-236 | With a prefab the attack starts and a hitbox facing the character is spawned; without one nothing happens |
| Player.BasePlayerController.DoRangedAttack | Assets/_Scripts/Player/BasePlayerController.cs:238-269 | With a prefab the attack starts and a projectile is spawned moving in the facing direction |
| Player.BasePlayerController.OnAttackAnimationEnd | Assets/_Scripts/Player/BasePlayerController.cs:272-275 | Clears the attacking flag |
| Player.BasePlayerController.HandleFlip | Assets/_Scripts/Player/BasePlayerController.cs:281-291 | The facing becomes FacingAfter of the old one |
| Player.BasePlayerController.Flip | Assets/_Scripts/Player/BasePlayerController.cs:293-300 | Inverts the facing |
| Attacks.ContactVerdict | Assets/_Scripts/Player/Attacks/Projectile.cs:77-85 | A contact is eligible iff it is not under the owner and its layer is in the mask; the owner's own collider is always ignored |
| Attacks.EmptyMaskHitsNothing | Assets/_Scripts/Player/Attacks/Projectile.cs:84-85 | No layer passes an empty mask |
| Attacks.AddedLayerIsHit | Assets/_Scripts/Player/Attacks/MeleeHitbox.cs:41-42 | Setting a layer's bit admits that layer |
| Attacks.AddingLayerKeepsOthers | Assets/_Scripts/Player/Attacks/MeleeHitbox.cs:41-42 | Setting a layer's bit leaves every other layer's verdict unchanged |
| Attacks.RemovedLayerIsIgnored | Assets/_Scripts/Player/Attacks/MeleeHitbox.cs:41-42 | Clearing a layer's bit excludes that layer |
| Attacks.RemovingLayerKeepsOthers | Assets/_Scripts/Player/Attacks/MeleeHitbox.cs:41-42 | Clearing a layer's bit leaves every other layer's verdict unchanged |
| Attacks.EarliestDeadline | Assets/_Scripts/Player/Attacks/Projectile.cs:74 | A second scheduled destruction never delays the first: the result is the earlier of the two |
| Attacks.Sign | Assets/_Scripts/Player/Attacks/Projectile.cs:39 | The direction is -1 or +1, +1 for zero |
| Attacks.Resume | Assets/_Scripts/Player/Attacks/Projectile.cs:55-64 | While elapsed < hoverTime another hover frame adds dt; otherwise the projectile launches; other phases are unaffected |
| Attacks.LaunchedIsFinal | Assets/_Scripts/Player/Attacks/Projectile.cs:50-75 | A launched projectile never hovers again |
| Attacks.HoversWhileBelow | Assets/_Scripts/Player/Attacks/Projectile.cs:55-64 | While the accumulated time stays below hoverTime it keeps hovering, its counter equal to the time passed |
| Attacks.LaunchesInTime | Assets/_Scripts/Player/Attacks/Projectile.cs:55-67 | With frames at least eps long it has launched once the later frames cover the remaining hover time |
| Attacks.ZeroHoverLaunchesAtOnce | Assets/_Scripts/Player/Attacks/Projectile.cs:55-67 | With hoverTime 0 the first step launches |
| Attacks.ContactDamage | Assets/_Scripts/Player/Attacks/Projectile.cs:77-88 | Damage is handed over iff the contact is eligible and the target is damageable, and it is exactly the projectile's damage |
| Attacks.StepDeliveries | Assets/_Scripts/Player/Attacks/Projectile.cs:77-91 | A step's contacts hand over at most one damage each, all equal to the projectile's damage |
| Attacks.FilteredStepDeliversNothing | Assets/_Scripts/Player/Attacks/Projectile.cs:77-85 | A step whose contacts are all under the owner or outside the mask delivers nothing |
| Attacks.OneEligibleContactOneHit | Assets/_Scripts/Player/Attacks/Projectile.cs:87-90 | A step with a single eligible contact delivers once to a damageable target and not at all otherwise |
| Attacks.SameFrameContactsBothDeliver | Assets/_Scripts/Player/Attacks/Projectile.cs:87-91 | Two eligible damageable contacts in one frame both receive the damage, because Destroy(gameObject) is deferred to the end of the frame |
| Attacks.SingleHit | Assets/_Scripts/Player/Attacks/Projectile.cs:77-91 | Over a projectile's whole life, when its first step with an eligible contact has only one, it delivers at most one damage, to that target |
| Attacks.Projectile.constructor | Assets/_Scripts/Player/Attacks/Projectile.cs:7-25 | Serialized defaults (speed 10, damage 1, hover 1 s, lifetime 3 s), at rest, not started |
| Attacks.Projectile.Initialize | Assets/_Scripts/Player/Attacks/Projectile.cs:27-48 | Direction is Sign(dirX), hoverTime >= 0, lifetime >= 0.1; the hover restarts from 0 whatever the old phase, and its first step runs at once unless the object is destroyed; the invariants hold |
| Attacks.Projectile.ResumeHover | Assets/_Scripts/Player/Attacks/Projectile.cs:50-75 | A destroyed projectile's coroutine does nothing; otherwise the phase follows Resume; while hovering velocity stays zero and the position follows the spawn point; at launch velocity becomes (dirX * speed, 0) and destruction is scheduled after lifetime; the invariants are preserved |
| Attacks.Projectile.Expire | Assets/_Scripts/Player/Attacks/Projectile.cs:74 | The object is gone once a scheduled destruction is due; the projectile's invariants are kept |
| Attacks.Projectile.OnTriggerEnter2D | Assets/_Scripts/Player/Attacks/Projectile.cs:77-91 | Delivers ContactDamage; an eligible contact schedules the destruction for now; an ignored one changes nothing; a destroyed projectile gets no contact; the projectile's invariants are kept |
| Attacks.MeleeHitbox.constructor | Assets/_Scripts/Player/Attacks/MeleeHitbox.cs:5-10 | Serialized damage 1, empty mask |
| Attacks.MeleeHitbox.Initialize | Assets/_Scripts/Player/Attacks/MeleeHitbox.cs:12-26 | Lifetime is at least 0.05 and the destruction is scheduled that long from now |
| Attacks.MeleeHitbox.Update | Assets/_Scripts/Player/Attacks/MeleeHitbox.cs:28-32 | The position follows the follow point when there is one and the hitbox is not destroyed |
| Attacks.MeleeHitbox.Expire | Assets/_Scripts/Player/Attacks/MeleeHitbox.cs:25 | The object is gone once its scheduled destruction is due |
| Attacks.MeleeHitbox.OnTriggerEnter2D | Assets/_Scripts/Player/Attacks/MeleeHitbox.cs:34-46 | An eligible enemy takes the hitbox's damage with the None element, exactly as TakeDamage does; an ignored contact leaves it untouched; the hitbox itself is not destroyed |
| Attacks.MeleeHitsAccumulate | Assets/_Scripts/Player/Attacks/MeleeHitbox.cs:34-46 | n eligible contacts of a hitbox with positive damage take n times its damage: every contact hits again |
| Scenarios.EnergyFollowsTheActiveCharacter | Assets/_Scripts/Managers/PlayerStats.cs:59-73 | After switching with key 2, pickups credit the new character and the first keeps its own 30 |
| Scenarios.MeleeComboOnEnemy | Assets/_Scripts/Player/Attacks/MeleeHitbox.cs:34-46 | Two hits take 2 of an Ice enemy's 5 health; the owner's collider and an unmasked layer do nothing; nobody dies |
| Scenarios.ProjectileHovers | Assets/_Scripts/Player/Attacks/Projectile.cs:53-64 | Two frames into a half-second hover the projectile is still, at its spawn point |
| Scenarios.ProjectileLaunchesAndHitsOnce | Assets/_Scripts/Player/Attacks/Projectile.cs:55-91 | With no hover time it launches left at its speed, delivers its damage to its one contact and is gone after the frame |
| Scenarios.DigivolveRoundTrip | Assets/_Scripts/Player/Digivolve.cs:20-65 | Over a cyclic evolution graph, forward then backward returns to the first character |

## Left out

- Physics steps: one `Step` value holds every trigger contact of one frame. The several physics steps a frame may contain are merged into it, and their order within the frame is not modelled.
- Input System wiring (action maps, delegate subscription, `Keyboard.current`) is I/O. Key presses and the move axis are parameters of the tick methods. A missing keyboard in `CharacterSwap.Update` reads as no key pressed. In `Digivolve.Update` it would throw, and the model does not cover that case.
- Animator calls (`SetBool`, `SetTrigger`, `runtimeAnimatorController`) and `localScale` sprite flips are presentation only.
- `Instantiate` is recorded as a `Spawn` value (prefab, direction, launch velocity). Spawn positions, the scene hierarchy and the spawned object itself are not modelled.
- The controller never calls `Initialize` on what it spawns. A spawned projectile therefore keeps its serialized stats, and a spawned hitbox keeps its empty mask. The model does not link the two sides.
- Rigidbody2D integration and gravity are engine physics. The model tracks only the velocity the scripts write.
- `GetComponent` lookups are given at construction, including the lazy `EnsurePlayer`.
- `Debug.Log`, the missing-definition log and the `enabled` flag have no effect on behaviour. A disabled `EnemyHealth` still receives calls, as in Unity.
- `OnEnergyChanged` listeners (`EnergyBarUI`) are recorded as a list of (energy, max) pairs.
- `Die` is recorded as a count. The model does not take a destroyed enemy out of play.
- `IDamageable` is not part of this model. A projectile returns the damage it hands over instead.
- `Food.cs`, `CharacterUnlockPickup.cs`, `EnemyController.cs`, `CameraManager.cs` and `EnergyBarUI.cs` are not part of this model. The two pickups forward to `AddEnergy` and `AddCharacterToRoster`, which are modelled.
- Unused definition fields (display name, sprites, animator controllers, `rangedDamage`, `meleeDamage` and the enemy's combat fields) are carried at most as data.
- Enemies.FinalDamage: single-precision `float` is read as exact real arithmetic. `RoundToInt(amount * multiplier)` is exact here because the multiplier is 0, 1 or 2. Float rounding for amounts beyond 2^24 is not modelled.
- Enemies.ResolveHit: does not model 32-bit overflow of `CurrentHealth - finalDamage`, because health is unbounded in the model.
- Stats.SpentEnergy: does not model 32-bit overflow of the subtraction for extreme negative amounts.
- Player.JumpVelocity: velocities and times are exact reals, not single-precision floats.
- Attacks.ContactVerdict: `Transform.IsChildOf` is modelled through each collider's set of ancestors; the hierarchy itself is not modelled.

## Findings

| source | as written | input that shows it | evidently intended | confidence | as-written member | corrected member |
|---|---|---|---|---|---|---|
| Assets/_Scripts/Managers/PlayerStats.cs:71 | `_energyByCharacter[def] + amount` is unchecked 32-bit `int` addition, so a large gain wraps negative and the clamp then empties the entry | entry 50, `AddEnergy(int.MaxValue)`, maxEnergy 100: the entry becomes 0 | the entry saturates at maxEnergy (100) | medium, not executed | Stats.AddEnergyOverflowEmpties | Stats.AddedEnergy |
