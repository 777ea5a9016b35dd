/** The unlocked roster and manual character switching (CharacterSwap.cs). */
module Roster {
  import opened Common
  import opened Definitions
  import opened Player

  /** The keyboard's digit keys 1..9; key k asks for roster index k - 1. */
  const DigitKeyCount: nat := 9

  /** The first pressed key at or after `from`, in key order. */
  function FirstPressed(pressed: seq<bool>, from: nat): (r: Option<nat>)
    requires from <= |pressed|
    decreases |pressed| - from
    ensures r.Some? ==> from <= r.value < |pressed| && pressed[r.value]
    ensures r.Some? ==> forall j :: from <= j < r.value ==> !pressed[j]
    ensures r.Nothing? ==> forall j :: from <= j < |pressed| ==> !pressed[j]
  {
    if from == |pressed| then Nothing
    else if pressed[from] then Some(from)
    else FirstPressed(pressed, from + 1)
  }

  /** The index the digit keys of one frame request: pressed[i] is key i + 1,
      and of several pressed keys only the lowest counts. */
  function DigitKeyIndex(pressed: seq<bool>): (r: Option<nat>)
    requires |pressed| == DigitKeyCount
    ensures r.Some? <==> exists k :: 0 <= k < DigitKeyCount && pressed[k]
    ensures r.Some? ==> r.value < DigitKeyCount && pressed[r.value]
    ensures r.Some? ==> forall j :: 0 <= j < r.value ==> !pressed[j]
  {
    FirstPressed(pressed, 0)
  }

  /** No definition occurs twice in the roster. */
  ghost predicate NoDuplicates(s: seq<CharacterDefinition?>)
  {
    forall i, j :: 0 <= i < j < |s| ==> s[i] != s[j]
  }

  /** AddCharacterToRoster on the list: null and members are rejected, any
      other definition is appended. */
  function AddedToRoster(s: seq<CharacterDefinition?>, c: CharacterDefinition?): (r: seq<CharacterDefinition?>)
    ensures c == null || c in s ==> r == s
    ensures c != null && c !in s ==> |r| == |s| + 1 && r[..|s|] == s && r[|s|] == c
    ensures NoDuplicates(s) ==> NoDuplicates(r)
    ensures c != null ==> c in r
  {
    if c == null || c in s then s else s + [c]
  }

  class CharacterSwap {
    const playerController: BasePlayerController?
    var characters: seq<CharacterDefinition?>
    var currentIndex: int

    /** currentIndex names a roster slot, or is the initial 0. */
    ghost predicate Valid()
      reads this
    {
      0 <= currentIndex && (currentIndex < |characters| || currentIndex == 0)
    }

    constructor (playerController: BasePlayerController?, characters: seq<CharacterDefinition?>)
      ensures this.playerController == playerController && this.characters == characters
      ensures currentIndex == 0 && Valid()
    {
      this.playerController := playerController;
      this.characters := characters;
      currentIndex := 0;
    }

    /** The controller, as a frame: empty when none is wired. */
    function Controller(): set<BasePlayerController>
    {
      if playerController == null then {} else {playerController}
    }

    /** The controller's definition and attack clocks are as they were. */
    twostate predicate ControllerUnchanged()
      reads this, Controller()
    {
      playerController != null ==>
        && playerController.currentCharacter == old(playerController.currentCharacter)
        && playerController.lastMeleeTime == old(playerController.lastMeleeTime)
        && playerController.lastRangedTime == old(playerController.lastRangedTime)
    }

    /** The controller now plays c, with both attacks ready. */
    predicate ControllerPlays(c: CharacterDefinition)
      reads this, Controller()
    {
      playerController != null ==>
        && playerController.currentCharacter == c
        && playerController.lastMeleeTime == NeverAttacked
        && playerController.lastRangedTime == NeverAttacked
    }

    /** Start: with a controller and a non-empty roster, the first character
        is applied. */
    method Start()
      modifies this`currentIndex, Controller()`currentCharacter
      modifies Controller()`lastMeleeTime, Controller()`lastRangedTime
      ensures playerController != null && |characters| > 0 ==> currentIndex == 0
      ensures playerController == null || |characters| == 0 ==> currentIndex == old(currentIndex)
      ensures |characters| > 0 && characters[0] != null ==> ControllerPlays(characters[0])
      ensures |characters| == 0 || characters[0] == null ==> ControllerUnchanged()
      ensures old(Valid()) ==> Valid()
    {
      if playerController != null && |characters| > 0 {
        currentIndex := 0;
        playerController.ApplyCharacterDefinition(characters[currentIndex]);
      }
    }

    /** Update: the first pressed digit key, if any, selects a roster index. */
    method Update(pressed: seq<bool>)
      requires |pressed| == DigitKeyCount
      modifies this`currentIndex, Controller()`currentCharacter
      modifies Controller()`lastMeleeTime, Controller()`lastRangedTime
      ensures var k := DigitKeyIndex(pressed);
        && (k.Nothing? || k.value >= |characters| || k.value == old(currentIndex) ==>
              currentIndex == old(currentIndex) && ControllerUnchanged())
        && (k.Some? && k.value < |characters| && k.value != old(currentIndex) ==> currentIndex == k.value)
        && (k.Some? && k.value < |characters| && k.value != old(currentIndex) && characters[k.value] != null ==>
              ControllerPlays(characters[k.value]))
        && (k.Some? && k.value < |characters| && k.value != old(currentIndex) && characters[k.value] == null ==>
              ControllerUnchanged())
      ensures old(Valid()) ==> Valid()
    {
      var k := DigitKeyIndex(pressed);
      if k.Some? {
        SwapToIndex(k.value);
      }
    }

    /** SwapToIndex: an index outside the roster, or the current one, changes
        nothing; otherwise the index moves and its definition is applied (a
        null slot moves the index only, as applying null does nothing). With
        no controller the index moves and the call on it throws. */
    method SwapToIndex(index: int)
      modifies this`currentIndex, Controller()`currentCharacter
      modifies Controller()`lastMeleeTime, Controller()`lastRangedTime
      ensures index < 0 || index >= |characters| || index == old(currentIndex) ==>
        currentIndex == old(currentIndex) && ControllerUnchanged()
      ensures 0 <= index < |characters| && index != old(currentIndex) ==>
        && currentIndex == index
        && (characters[index] != null ==> ControllerPlays(characters[index]))
        && (characters[index] == null ==> ControllerUnchanged())
      ensures old(Valid()) ==> Valid()
    {
      if index < 0 || index >= |characters| {
        return;
      }
      if index == currentIndex {
        return;
      }
      currentIndex := index;
      if playerController == null { return; }
      playerController.ApplyCharacterDefinition(characters[currentIndex]);
    }

    /** AddCharacterToRoster: appends a new, non-null definition at the end;
        the current index is untouched. */
    method AddCharacterToRoster(newChar: CharacterDefinition?)
      modifies this`characters
      ensures characters == AddedToRoster(old(characters), newChar)
      ensures old(Valid()) ==> Valid()
    {
      if newChar == null { return; }
      if newChar in characters {
        return;
      }
      characters := characters + [newChar];
    }
  }
}
