/** Whether a player's action buttons are enabled, and what they say (src/utils/buttonState.js). */
module ButtonState {
  import opened Wrappers
  import opened Seqs
  import opened Phases
  import opened Records

  /** An action that blocks the player: theirs, in this phase and round (a missing round reads as 1), still unconfirmed. */
  predicate Blocks(a: Action, playerId: PlayerId, phase: Phase, currentRound: int) {
    a.playerId == playerId && a.phase == phase && !a.confirmed && RoundOr1(a.roundNumber) == currentRound
  }

  /** `canPlayerAct` (the round defaults to 1 at the call sites that omit it): no blocking action. */
  function CanPlayerAct(playerId: PlayerId, actions: seq<Action>, phase: Phase, currentRound: int): (r: bool)
    ensures r <==> forall i :: 0 <= i < |actions| ==> !Blocks(actions[i], playerId, phase, currentRound)
  {
    var playerActions := Filter(actions, (a: Action) => Blocks(a, playerId, phase, currentRound));
    assert |playerActions| > 0 ==> playerActions[0] in playerActions;
    assert forall i :: 0 <= i < |actions| && Blocks(actions[i], playerId, phase, currentRound) ==> actions[i] in playerActions;
    |playerActions| == 0
  }

  /** Confirmed actions, and actions of another round, never block. */
  lemma NonBlockingActionsIgnored(playerId: PlayerId, actions: seq<Action>, phase: Phase, currentRound: int, a: Action)
    requires a.confirmed || RoundOr1(a.roundNumber) != currentRound
    ensures CanPlayerAct(playerId, actions + [a], phase, currentRound) == CanPlayerAct(playerId, actions, phase, currentRound)
  {
    var after := actions + [a];
    assert forall i :: 0 <= i < |actions| ==> after[i] == actions[i];
  }

  /** More actions can only disable the buttons, never enable them again. */
  lemma MoreActionsOnlyDisable(playerId: PlayerId, actions: seq<Action>, more: seq<Action>, phase: Phase, currentRound: int)
    requires CanPlayerAct(playerId, actions + more, phase, currentRound)
    ensures CanPlayerAct(playerId, actions, phase, currentRound)
  {
    var after := actions + more;
    assert forall i :: 0 <= i < |actions| ==> after[i] == actions[i];
  }

  /** A stored round never reads as 0, so nothing blocks when the current round is 0. */
  lemma RoundZeroNeverBlocks(playerId: PlayerId, actions: seq<Action>, phase: Phase)
    ensures CanPlayerAct(playerId, actions, phase, 0)
  {
  }

  /** `getDefaultButtonText`. */
  function DefaultButtonText(phase: Phase): string {
    if phase == Night then "Submit Action"
    else if phase == Voting then "Vote"
    else "Submit"
  }

  /** `{canAct, message, buttonText}`; the message is null when the player may act. */
  datatype ActionStatus = ActionStatus(canAct: bool, message: Option<string>, buttonText: string)

  /** `getPlayerActionStatus`. */
  function GetPlayerActionStatus(playerId: PlayerId, actions: seq<Action>, phase: Phase, currentRound: int): (s: ActionStatus)
    ensures s.canAct == CanPlayerAct(playerId, actions, phase, currentRound)
    ensures !s.canAct ==> s.message == Some("Action submitted. Waiting for God to confirm.") && s.buttonText == "Submitted"
    ensures s.canAct ==> s.message.None? && s.buttonText == DefaultButtonText(phase)
  {
    var hasSubmitted := !CanPlayerAct(playerId, actions, phase, currentRound);
    if hasSubmitted then ActionStatus(false, Some("Action submitted. Waiting for God to confirm."), "Submitted")
    else ActionStatus(true, None, DefaultButtonText(phase))
  }

  /** `shouldDisableAllButtons`: exactly when the player may not act. */
  function ShouldDisableAllButtons(playerId: PlayerId, actions: seq<Action>, phase: Phase, currentRound: int): (r: bool)
    ensures r <==> !CanPlayerAct(playerId, actions, phase, currentRound)
    ensures r <==> !GetPlayerActionStatus(playerId, actions, phase, currentRound).canAct
  {
    !CanPlayerAct(playerId, actions, phase, currentRound)
  }
}
