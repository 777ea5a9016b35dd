/** The per-character energy ledger (PlayerStats.cs): a dictionary from
    character definition to an integer, always addressed through the
    player's current character. */
module Stats {
  import opened Common
  import opened Definitions
  import opened Player

  /** Mathf.Clamp for ints: below lo gives lo, otherwise above hi gives hi. */
  function Clamp(v: int, lo: int, hi: int): (r: int)
    ensures lo <= hi ==> lo <= r <= hi
    ensures lo <= v <= hi ==> r == v
    ensures v < lo ==> r == lo
    ensures lo <= v && hi < v ==> r == hi
  {
    if v < lo then lo else if v > hi then hi else v
  }

  /** The value stored for d, or 0 when there is no entry yet. */
  function EnergyOf(m: map<CharacterDefinition, int>, d: CharacterDefinition): int
  {
    if d in m then m[d] else 0
  }

  /** EnsureEntry on the dictionary: a missing entry is created with 0, an
      existing one is never overwritten, null is ignored. */
  function WithEntry(m: map<CharacterDefinition, int>, d: CharacterDefinition?): (m': map<CharacterDefinition, int>)
    ensures d == null ==> m' == m
    ensures d != null ==> m'.Keys == m.Keys + {d} && m'[d] == EnergyOf(m, d)
    ensures forall k :: k in m ==> k in m' && m'[k] == m[k]
  {
    if d == null || d in m then m else m[d := 0]
  }

  /** Creating an entry is idempotent and never changes what GetEnergy reads. */
  lemma EnsureEntryIsIdempotent(m: map<CharacterDefinition, int>, d: CharacterDefinition?)
    ensures WithEntry(WithEntry(m, d), d) == WithEntry(m, d)
    ensures d != null ==> EnergyOf(WithEntry(m, d), d) == EnergyOf(m, d)
  {
  }

  /** The entry after AddEnergy: non-positive amounts are ignored, others are
      added and clamped into [0, maxEnergy]. */
  function AddedEnergy(e: int, amount: int, maxEnergy: int): (r: int)
    ensures amount <= 0 ==> r == e
    ensures amount > 0 && maxEnergy >= 0 ==> 0 <= r <= maxEnergy
    ensures amount > 0 && e >= 0 ==> r == Min(e + amount, maxEnergy)
  {
    if amount <= 0 then e else Clamp(e + amount, 0, maxEnergy)
  }

  /** The entry after n calls of AddEnergy with the same amount. */
  function AddedRepeatedly(e: int, amount: int, maxEnergy: int, n: nat): int
  {
    if n == 0 then e else AddedEnergy(AddedRepeatedly(e, amount, maxEnergy, n - 1), amount, maxEnergy)
  }

  /** The clamp is idempotent: any number of AddEnergy(maxEnergy + 50) calls
      leaves the entry at exactly maxEnergy. */
  lemma {:induction false} RepeatedOverfillSaturates(e: int, maxEnergy: int, n: nat)
    requires e >= 0 && maxEnergy >= 0 && n >= 1
    ensures AddedRepeatedly(e, maxEnergy + 50, maxEnergy, n) == maxEnergy
  {
    if n > 1 {
      RepeatedOverfillSaturates(e, maxEnergy, n - 1);
    }
  }

  /** The outcome of TrySpendEnergy on an entry holding e. */
  datatype SpendOutcome = SpendOutcome(ok: bool, energy: int)

  function SpentEnergy(e: int, amount: int): (r: SpendOutcome)
    ensures r.ok <==> e >= amount
    ensures !r.ok ==> r.energy == e
    ensures r.ok ==> r.energy + amount == e
    ensures amount >= 0 && r.ok ==> 0 <= r.energy <= e
  {
    if e < amount then SpendOutcome(false, e) else SpendOutcome(true, e - amount)
  }

  /** A negative amount is not rejected: it succeeds and raises the entry,
      past maxEnergy when the entry was already full. */
  lemma NegativeSpendRaisesEnergy(e: int, amount: int, maxEnergy: int)
    requires amount < 0 && e >= 0 && e >= maxEnergy
    ensures SpentEnergy(e, amount).ok && SpentEnergy(e, amount).energy > maxEnergy
  {
  }

  /** The 32-bit two's-complement wrap of C#'s unchecked int addition. */
  function Wrap32(x: int): (r: int)
    ensures -0x8000_0000 <= r < 0x8000_0000
    ensures -0x8000_0000 <= x < 0x8000_0000 ==> r == x
  {
    (x + 0x8000_0000) % 0x1_0000_0000 - 0x8000_0000
  }

  /** AddEnergy as written: the sum is a 32-bit int, so it can wrap to a
      negative value before the clamp. */
  function AddedEnergyInt32(e: int, amount: int, maxEnergy: int): (r: int)
    ensures amount <= 0 ==> r == e
    ensures amount > 0 && 0 <= maxEnergy ==> 0 <= r <= maxEnergy
    ensures amount > 0 && 0 <= maxEnergy && -0x8000_0000 <= e + amount < 0x8000_0000 ==>
      r == AddedEnergy(e, amount, maxEnergy)
  {
    if amount <= 0 then e else Clamp(Wrap32(e + amount), 0, maxEnergy)
  }

  /** Where the 32-bit sum does not overflow, the code as written agrees
      with AddedEnergy; where it overflows, it empties the entry instead of
      filling it. */
  lemma AddEnergyOverflowEmpties(e: int, amount: int, maxEnergy: int)
    requires 0 <= e < 0x8000_0000 && 0 < amount < 0x8000_0000 && 0 <= maxEnergy < 0x8000_0000
    ensures e + amount < 0x8000_0000 ==> AddedEnergyInt32(e, amount, maxEnergy) == AddedEnergy(e, amount, maxEnergy)
    ensures e + amount >= 0x8000_0000 ==>
      AddedEnergyInt32(e, amount, maxEnergy) == 0 && AddedEnergy(e, amount, maxEnergy) == maxEnergy
  {
    if e + amount >= 0x8000_0000 {
      assert Wrap32(e + amount) == e + amount - 0x1_0000_0000;
    }
  }

  /** The concrete case: 50 energy plus int.MaxValue leaves 0, not 100. */
  lemma AddEnergyOverflowExample()
    ensures AddedEnergyInt32(50, 0x7FFF_FFFF, 100) == 0
    ensures AddedEnergy(50, 0x7FFF_FFFF, 100) == 100
  {
    AddEnergyOverflowEmpties(50, 0x7FFF_FFFF, 100);
  }

  class PlayerStats {
    const maxEnergy: int
    /** The sibling controller found by GetComponent, if any. */
    const player: BasePlayerController?
    var energyByCharacter: map<CharacterDefinition, int>
    /** The (energy, max) pairs OnEnergyChanged was invoked with, oldest first. */
    var energyChanged: seq<(int, int)>

    constructor (player: BasePlayerController?, maxEnergy: int := 100)
      ensures this.player == player && this.maxEnergy == maxEnergy
      ensures energyByCharacter == map[] && energyChanged == []
    {
      this.player := player;
      this.maxEnergy := maxEnergy;
      energyByCharacter := map[];
      energyChanged := [];
    }

    /** The character every operation addresses: the player's current one. */
    function Current(): CharacterDefinition?
      reads this, player
    {
      if player == null then null else player.currentCharacter
    }

    /** Every entry lies in [0, maxEnergy]. */
    ghost predicate Bounded()
      reads this
    {
      maxEnergy >= 0 && forall d :: d in energyByCharacter ==> 0 <= energyByCharacter[d] <= maxEnergy
    }

    /** Every entry other than d is as it was in m. */
    ghost predicate OthersUnchanged(m: map<CharacterDefinition, int>, d: CharacterDefinition?)
      reads this
    {
      && (forall k :: k in m && k != d ==> k in energyByCharacter && energyByCharacter[k] == m[k])
      && (forall k :: k in energyByCharacter && k != d ==> k in m)
    }

    /** Start: the current character gets an entry and the UI is told. */
    method Start()
      modifies this
      ensures energyByCharacter == WithEntry(old(energyByCharacter), Current())
      ensures Current() == null ==> energyChanged == old(energyChanged)
      ensures Current() != null ==>
        energyChanged == old(energyChanged) + [(EnergyOf(old(energyByCharacter), Current()), maxEnergy)]
    {
      if player == null { return; }
      EnsureEntry(player.currentCharacter);
      RaiseChanged();
    }

    method EnsureEntry(def: CharacterDefinition?)
      modifies this`energyByCharacter
      ensures energyByCharacter == WithEntry(old(energyByCharacter), def)
    {
      if def == null { return; }
      if def !in energyByCharacter {
        energyByCharacter := energyByCharacter[def := 0];
      }
    }

    /** GetEnergy: the stored value (0 for a fresh definition or null); as a
        side effect the entry is created. */
    method GetEnergy(def: CharacterDefinition?) returns (v: int)
      modifies this`energyByCharacter
      ensures energyByCharacter == WithEntry(old(energyByCharacter), def)
      ensures v == if def == null then 0 else EnergyOf(old(energyByCharacter), def)
    {
      EnsureEntry(def);
      v := if def != null && def in energyByCharacter then energyByCharacter[def] else 0;
    }

    /** IsEnergyFull: the stored value has reached maxEnergy. */
    method IsEnergyFull(def: CharacterDefinition?) returns (full: bool)
      modifies this`energyByCharacter
      ensures energyByCharacter == WithEntry(old(energyByCharacter), def)
      ensures full <==> (if def == null then 0 else EnergyOf(old(energyByCharacter), def)) >= maxEnergy
    {
      var v := GetEnergy(def);
      full := v >= maxEnergy;
    }

    /** IsCurrentEnergyFull: false when there is no current character. */
    method IsCurrentEnergyFull() returns (full: bool)
      modifies this`energyByCharacter
      ensures energyByCharacter == WithEntry(old(energyByCharacter), Current())
      ensures full <==> Current() != null && EnergyOf(old(energyByCharacter), Current()) >= maxEnergy
    {
      if player == null || player.currentCharacter == null {
        return false;
      }
      full := IsEnergyFull(player.currentCharacter);
    }

    /** AddEnergy: only the current character's entry changes, to the
        clamped sum; a non-positive amount or no current character is a no-op. */
    method AddEnergy(amount: int)
      modifies this`energyByCharacter, this`energyChanged
      ensures amount <= 0 || Current() == null ==>
        energyByCharacter == old(energyByCharacter) && energyChanged == old(energyChanged)
      ensures amount > 0 && Current() != null ==>
        var v := AddedEnergy(EnergyOf(old(energyByCharacter), Current()), amount, maxEnergy);
        && energyByCharacter == old(energyByCharacter)[Current() := v]
        && energyChanged == old(energyChanged) + [(v, maxEnergy)]
      ensures OthersUnchanged(old(energyByCharacter), Current())
      ensures old(Bounded()) ==> Bounded()
    {
      if amount <= 0 { return; }
      if player == null { return; }
      var def := player.currentCharacter;
      if def == null { return; }
      EnsureEntry(def);
      energyByCharacter := energyByCharacter[def := Clamp(energyByCharacter[def] + amount, 0, maxEnergy)];
      RaiseChanged();
    }

    /** TrySpendEnergy: fails without any change when the entry holds less
        than amount, otherwise subtracts it. The entry is created either way. */
    method TrySpendEnergy(amount: int) returns (ok: bool)
      modifies this`energyByCharacter, this`energyChanged
      ensures Current() == null ==>
        !ok && energyByCharacter == old(energyByCharacter) && energyChanged == old(energyChanged)
      ensures Current() != null ==>
        var r := SpentEnergy(EnergyOf(old(energyByCharacter), Current()), amount);
        && ok == r.ok
        && energyByCharacter == old(energyByCharacter)[Current() := r.energy]
        && energyChanged == old(energyChanged) + (if ok then [(r.energy, maxEnergy)] else [])
      ensures OthersUnchanged(old(energyByCharacter), Current())
      ensures old(Bounded()) && amount >= 0 ==> Bounded()
    {
      if player == null { return false; }
      var def := player.currentCharacter;
      if def == null { return false; }
      EnsureEntry(def);
      if energyByCharacter[def] < amount {
        return false;
      }
      energyByCharacter := energyByCharacter[def := energyByCharacter[def] - amount];
      RaiseChanged();
      ok := true;
    }

    /** SpendAllEnergy: the current character's entry becomes 0. */
    method SpendAllEnergy()
      modifies this`energyByCharacter, this`energyChanged
      ensures Current() == null ==>
        energyByCharacter == old(energyByCharacter) && energyChanged == old(energyChanged)
      ensures Current() != null ==>
        && energyByCharacter == old(energyByCharacter)[Current() := 0]
        && energyChanged == old(energyChanged) + [(0, maxEnergy)]
      ensures OthersUnchanged(old(energyByCharacter), Current())
      ensures old(Bounded()) ==> Bounded()
    {
      if player == null { return; }
      var def := player.currentCharacter;
      if def == null { return; }
      EnsureEntry(def);
      energyByCharacter := energyByCharacter[def := 0];
      RaiseChanged();
    }

    /** OnCharacterChanged: the new definition gets an entry (its stored
        value is kept) and the current value is announced. */
    method OnCharacterChanged(newDef: CharacterDefinition?)
      modifies this`energyByCharacter, this`energyChanged
      ensures energyByCharacter == WithEntry(WithEntry(old(energyByCharacter), newDef), Current())
      ensures Current() == null ==> energyChanged == old(energyChanged)
      ensures Current() != null ==>
        energyChanged == old(energyChanged) + [(EnergyOf(WithEntry(old(energyByCharacter), newDef), Current()), maxEnergy)]
    {
      EnsureEntry(newDef);
      RaiseChanged();
    }

    /** RaiseChanged: OnEnergyChanged(GetEnergy(current), maxEnergy). */
    method RaiseChanged()
      modifies this`energyByCharacter, this`energyChanged
      ensures energyByCharacter == WithEntry(old(energyByCharacter), Current())
      ensures Current() == null ==> energyChanged == old(energyChanged)
      ensures Current() != null ==>
        energyChanged == old(energyChanged) + [(EnergyOf(old(energyByCharacter), Current()), maxEnergy)]
    {
      if player == null { return; }
      var def := player.currentCharacter;
      if def == null { return; }
      var v := GetEnergy(def);
      energyChanged := energyChanged + [(v, maxEnergy)];
    }
  }
}
