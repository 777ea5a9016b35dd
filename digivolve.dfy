/** The two-phase evolution request (Digivolve.cs): a key press records a
    pending target and starts the animation; the animation's end event
    applies it. */
module Evolution {
  import opened Common
  import opened Definitions
  import opened Player

  /** The component's two fields, as one value. */
  datatype MorphState = MorphState(isDigivolving: bool, pendingTarget: CharacterDefinition?)

  /** The forward target a request can use: none without a current
      character, when evolution is disabled, or when no target is set. */
  function ForwardTarget(c: CharacterDefinition?): (t: CharacterDefinition?)
    reads c
    ensures t != null ==> c != null && c.canDigivolve && t == c.digivolveTo
    ensures c != null && c.canDigivolve ==> t == c.digivolveTo
  {
    if c == null || !c.canDigivolve then null else c.digivolveTo
  }

  /** The backward target: the same gate, with deDigivolveTo. */
  function BackwardTarget(c: CharacterDefinition?): (t: CharacterDefinition?)
    reads c
    ensures t != null ==> c != null && c.canDigivolve && t == c.deDigivolveTo
    ensures c != null && c.canDigivolve ==> t == c.deDigivolveTo
  {
    if c == null || !c.canDigivolve then null else c.deDigivolveTo
  }

  /** Update on the state: nothing while digivolving; a forward press with no
      usable target ends the frame (the backward press is not looked at);
      a usable press records its target, the backward one last. */
  function Request(s: MorphState, forwardPressed: bool, forward: CharacterDefinition?,
                   backwardPressed: bool, backward: CharacterDefinition?): (r: MorphState)
    ensures s.isDigivolving ==> r == s
    ensures !r.isDigivolving ==> r == s
    ensures r.isDigivolving && !s.isDigivolving ==>
      (r.pendingTarget == backward && backwardPressed && backward != null)
      || (r.pendingTarget == forward && forwardPressed && forward != null)
  {
    if s.isDigivolving then s
    else if forwardPressed && forward == null then s
    else
      var afterForward := if forwardPressed then MorphState(true, forward) else s;
      if backwardPressed && backward != null then MorphState(true, backward) else afterForward
  }

  /** DigivolveToNextLevel on the state: clears the request, if any. */
  function Acknowledge(s: MorphState): (r: MorphState)
    ensures !r.isDigivolving
    ensures s.isDigivolving ==> r.pendingTarget == null
    ensures !s.isDigivolving ==> r == s
  {
    if !s.isDigivolving then s else MorphState(false, null)
  }

  /** A request is accepted exactly when not already digivolving and the
      forward press (if any) and one press found a usable target. */
  lemma RequestAccepted(s: MorphState, forwardPressed: bool, forward: CharacterDefinition?,
                        backwardPressed: bool, backward: CharacterDefinition?)
    ensures Request(s, forwardPressed, forward, backwardPressed, backward).isDigivolving <==>
      s.isDigivolving
      || (!(forwardPressed && forward == null)
          && ((forwardPressed && forward != null) || (backwardPressed && backward != null)))
  {
  }

  /** When both presses are usable in one frame, the backward target wins. */
  lemma BackwardOverridesForward(s: MorphState, forward: CharacterDefinition, backward: CharacterDefinition)
    requires !s.isDigivolving
    ensures Request(s, true, forward, true, backward) == MorphState(true, backward)
  {
  }

  /** After the acknowledgment a new request is accepted again. */
  lemma AcknowledgeReopens(s: MorphState, target: CharacterDefinition)
    ensures Request(Acknowledge(s), true, target, false, null) == MorphState(true, target)
  {
  }

  class Digivolve {
    const player: BasePlayerController
    var isDigivolving: bool
    var pendingTarget: CharacterDefinition?

    constructor (player: BasePlayerController)
      ensures this.player == player && !isDigivolving && pendingTarget == null
    {
      this.player := player;
      isDigivolving := false;
      pendingTarget := null;
    }

    function State(): MorphState
      reads this
    {
      MorphState(isDigivolving, pendingTarget)
    }

    /** Update, with the F (forward) and G (backward) key presses of the
        frame. The active character is not changed here. */
    method Update(forwardPressed: bool, backwardPressed: bool)
      modifies this`isDigivolving, this`pendingTarget
      ensures State() == Request(old(State()), forwardPressed, ForwardTarget(player.currentCharacter),
                                 backwardPressed, BackwardTarget(player.currentCharacter))
    {
      if isDigivolving { return; }
      if forwardPressed {
        var current := player.currentCharacter;
        if current == null { return; }
        if !current.canDigivolve || current.digivolveTo == null {
          return;
        }
        pendingTarget := current.digivolveTo;
        isDigivolving := true;
      }
      if backwardPressed {
        var current := player.currentCharacter;
        if current == null { return; }
        if !current.canDigivolve || current.deDigivolveTo == null {
          return;
        }
        pendingTarget := current.deDigivolveTo;
        isDigivolving := true;
      }
    }

    /** DigivolveToNextLevel: a no-op unless digivolving; otherwise applies
        the pending target (if any) and clears the request. */
    method DigivolveToNextLevel()
      modifies this`isDigivolving, this`pendingTarget
      modifies player`currentCharacter, player`lastMeleeTime, player`lastRangedTime
      ensures State() == Acknowledge(old(State()))
      ensures old(isDigivolving) && old(pendingTarget) != null ==>
        && player.currentCharacter == old(pendingTarget)
        && player.lastMeleeTime == NeverAttacked && player.lastRangedTime == NeverAttacked
      ensures !old(isDigivolving) || old(pendingTarget) == null ==>
        && player.currentCharacter == old(player.currentCharacter)
        && player.lastMeleeTime == old(player.lastMeleeTime)
        && player.lastRangedTime == old(player.lastRangedTime)
    {
      if !isDigivolving {
        return;
      }
      if pendingTarget != null {
        player.ApplyCharacterDefinition(pendingTarget);
      }
      pendingTarget := null;
      isDigivolving := false;
    }
  }
}
