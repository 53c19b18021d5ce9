/** The moderator's permissions and the choice of a new moderator (src/utils/godControls.js). */
module GodControls {
  import opened Wrappers
  import opened Seqs
  import opened Roles
  import opened Records

  /** `isGod`: a player is given and has the God role. */
  predicate IsGod(player: Option<Player>) {
    player.Some? && player.value.role == Some(God)
  }

  /** `canSeeAllRoles`. */
  predicate CanSeeAllRoles(player: Option<Player>) {
    IsGod(player)
  }

  /** `canConfirmActions`. */
  predicate CanConfirmActions(player: Option<Player>) {
    IsGod(player)
  }

  /** `canAdvancePhase` of the moderator controls. */
  predicate CanAdvancePhase(player: Option<Player>) {
    IsGod(player)
  }

  /** `canResetGame`. */
  predicate CanResetGame(player: Option<Player>) {
    IsGod(player)
  }

  /** A player who could become the next moderator: alive and not God. */
  predicate Eligible(p: Player) {
    p.isAlive && p.role != Some(God)
  }

  /**
   * `reassignGod`: null when nobody is eligible; otherwise the id of an
   * eligible player, chosen at random (here: any of them).
   */
  method ReassignGod(players: seq<Player>) returns (newGod: Option<PlayerId>)
    ensures newGod.None? <==> forall i :: 0 <= i < |players| ==> !Eligible(players[i])
    ensures newGod.Some? ==> exists i :: 0 <= i < |players| && Eligible(players[i]) && players[i].id == newGod.value
  {
    var alivePlayers := Filter(players, Eligible);
    if |alivePlayers| == 0 {
      assert forall i :: 0 <= i < |players| && Eligible(players[i]) ==> players[i] in alivePlayers;
      return None;
    }
    var randomIndex :| 0 <= randomIndex < |alivePlayers|;
    assert alivePlayers[randomIndex] in alivePlayers;
    return Some(alivePlayers[randomIndex].id);
  }

  /** The moderator actions `validateGodAction` accepts. */
  const ValidActions: seq<string> := ["confirm_actions", "advance_phase", "reset_game", "start_game"]

  /** The two errors `validateGodAction` throws. */
  datatype GodActionError = OnlyGod | InvalidGodAction

  function GodActionMessage(e: GodActionError): string {
    match e
    case OnlyGod => "Only God can perform this action"
    case InvalidGodAction => "Invalid God action"
  }

  /** `validateGodAction`: a non-God player first, then an action outside the list; true otherwise. */
  function ValidateGodAction(action: string, player: Option<Player>): (r: Result<bool, GodActionError>)
    ensures !IsGod(player) ==> r == Err(OnlyGod)
    ensures IsGod(player) && action !in ValidActions ==> r == Err(InvalidGodAction)
    ensures r.Ok? <==> IsGod(player) && action in ValidActions
    ensures r.Ok? ==> r.value
  {
    if !IsGod(player) then Err(OnlyGod)
    else if action !in ValidActions then Err(InvalidGodAction)
    else Ok(true)
  }

  /** Every one of the moderator's permissions holds exactly when the moderator action validator accepts a listed action. */
  lemma PermissionsMatchValidator(player: Option<Player>, action: string)
    requires action in ValidActions
    ensures CanConfirmActions(player) <==> ValidateGodAction(action, player).Ok?
    ensures CanAdvancePhase(player) <==> ValidateGodAction(action, player).Ok?
    ensures CanResetGame(player) <==> ValidateGodAction(action, player).Ok?
    ensures CanSeeAllRoles(player) <==> ValidateGodAction(action, player).Ok?
  {
  }

  /**
   * After `assignRoles` on distinct ids, a player holding the role assigned
   * to their id has the moderator's permissions, and passes the moderator
   * action validator, exactly when they are the player drawn as God.
   */
  lemma PermissionsFollowAssignment(ids: seq<string>, g: nat, shuffled: seq<Role>, p: Player)
    requires g < |ids| && |shuffled| == |ids| - 1 && God !in shuffled && Distinct(ids)
    requires p.id in AssignSpec(ids, g, shuffled) && p.role == Some(AssignSpec(ids, g, shuffled)[p.id])
    ensures IsGod(Some(p)) <==> p.id == ids[g]
    ensures CanSeeAllRoles(Some(p)) <==> p.id == ids[g]
    ensures CanConfirmActions(Some(p)) <==> p.id == ids[g]
    ensures CanAdvancePhase(Some(p)) <==> p.id == ids[g]
    ensures CanResetGame(Some(p)) <==> p.id == ids[g]
    ensures forall action :: action in ValidActions ==> (ValidateGodAction(action, Some(p)).Ok? <==> p.id == ids[g])
  {
    AssignSpecOneGod(ids, g, shuffled);
  }

  /** Without a player there is no permission, and the validator rejects with the moderator-only error. */
  lemma NoPlayerNoPermission(action: string)
    ensures !CanSeeAllRoles(None) && !CanConfirmActions(None) && !CanAdvancePhase(None) && !CanResetGame(None)
    ensures ValidateGodAction(action, None) == Err(OnlyGod)
  {
  }
}
