/** The ordered guard chain that accepts or rejects a submitted action (src/utils/actionValidation.js). */
module ActionValidation {
  import opened Wrappers
  import opened Seqs
  import opened Roles
  import opened Phases
  import opened Records

  /** One constructor per `ActionValidationError` the validator throws. */
  datatype ValidationError =
    | DeadActor
    | PhaseMismatch
    | InvalidPhase
    | AlreadyActed
    | MafiaCanOnlyKill
    | DoctorCanOnlyProtect
    | SelfProtectUsed
    | PoliceCanOnlyInvestigate
    | TerroristCanOnlyBomb
    | TerroristAlreadyUsed
    | RoleCannotActAtNight
    | AlreadyVoted
    | InvalidVoteTarget
    | VoteForDead
    | CannotVoteOutGod
    | TargetRequired
    | InvalidTarget
    | TargetDead
    | CannotTargetSelf

  /** The message each error carries. */
  function Message(e: ValidationError): string {
    match e
    case DeadActor => "Dead players cannot act"
    case PhaseMismatch => "Action phase mismatch"
    case InvalidPhase => "Invalid phase for actions"
    case AlreadyActed => "Player already acted this round"
    case MafiaCanOnlyKill => "Mafia can only kill"
    case DoctorCanOnlyProtect => "Doctor can only protect"
    case SelfProtectUsed => "Doctor can only self-protect once per game"
    case PoliceCanOnlyInvestigate => "Police can only investigate"
    case TerroristCanOnlyBomb => "Terrorist can only bomb"
    case TerroristAlreadyUsed => "Terrorist can only bomb once per game"
    case RoleCannotActAtNight => "Role cannot act at night"
    case AlreadyVoted => "Player already voted"
    case InvalidVoteTarget => "Invalid vote target"
    case VoteForDead => "Cannot vote for dead player"
    case CannotVoteOutGod => "Cannot vote out God"
    case TargetRequired => "Target required"
    case InvalidTarget => "Invalid target"
    case TargetDead => "Cannot target dead player"
    case CannotTargetSelf => "Cannot target self"
  }

  /** The one night action each night role may submit. */
  function NightActionFor(role: Role): Option<ActionType> {
    match role
    case Mafia => Some(MafiaKill)
    case Doctor => Some(DoctorProtect)
    case Police => Some(PoliceInvestigate)
    case Terrorist => Some(TerroristBomb)
    case _ => None
  }

  /** The error a night role gets for submitting another action type. */
  function WrongActionError(role: Role): ValidationError {
    match role
    case Mafia => MafiaCanOnlyKill
    case Doctor => DoctorCanOnlyProtect
    case Police => PoliceCanOnlyInvestigate
    case _ => TerroristCanOnlyBomb
  }

  /** The existing unconfirmed actions of a player in a phase, of any round. */
  function PendingActions(existing: seq<Action>, id: PlayerId, phase: Phase): (r: seq<Action>)
    ensures |r| > 0 <==> !NoPending(existing, id, phase)
  {
    var r := Filter(existing, (a: Action) => a.playerId == id && a.phase == phase && !a.confirmed);
    assert |r| > 0 ==> r[0] in r;
    r
  }

  /** No existing action of the player in the phase is still unconfirmed. */
  predicate NoPending(existing: seq<Action>, id: PlayerId, phase: Phase) {
    forall a :: a in existing ==> !(a.playerId == id && a.phase == phase && !a.confirmed)
  }

  /** Some player has the id, and the first such player is alive. */
  predicate FirstWithIdAlive(players: seq<Player>, id: PlayerId) {
    exists i :: 0 <= i < |players| && FirstWithId(players, id, i) && players[i].isAlive
  }

  /** Some player has the id. */
  predicate Known(players: seq<Player>, id: PlayerId) {
    exists i :: 0 <= i < |players| && players[i].id == id
  }

  /** `find` succeeds exactly on a known id, and finds the first player with it. */
  lemma FindCases(players: seq<Player>, id: PlayerId)
    ensures Find(players, Some(id)).None? <==> !Known(players, id)
    ensures Find(players, Some(id)).Some? ==>
      (Find(players, Some(id)).value.isAlive <==> FirstWithIdAlive(players, id))
  {
    var r := Find(players, Some(id));
    if r.Some? {
      var k :| 0 <= k < |players| && players[k] == r.value && (forall j :: 0 <= j < k ==> players[j].id != id);
      assert FirstWithId(players, id, k);
      forall i | FirstWithId(players, id, i)
        ensures i == k
      {
        FindFirst(players, id, i);
      }
    }
  }

  /**
   * `validateTarget`: a missing (falsy) target, then an unknown target, then
   * a dead target, then the excluded id when one is given.
   */
  function ValidateTarget(targetId: Option<PlayerId>, players: seq<Player>, excludeId: Option<PlayerId>): (r: Outcome<ValidationError>)
    ensures !IdGiven(targetId) ==> r == Fail(TargetRequired)
    ensures IdGiven(targetId) && !Known(players, targetId.value) ==> r == Fail(InvalidTarget)
    ensures IdGiven(targetId) && Known(players, targetId.value) && !FirstWithIdAlive(players, targetId.value) ==>
      r == Fail(TargetDead)
    ensures IdGiven(targetId) && FirstWithIdAlive(players, targetId.value) ==>
      r == (if IdGiven(excludeId) && targetId == excludeId then Fail(CannotTargetSelf) else Pass)
  {
    if !IdGiven(targetId) then Fail(TargetRequired)
    else
      FindCases(players, targetId.value);
      match Find(players, targetId)
      case None => Fail(InvalidTarget)
      case Some(target) =>
        if !target.isAlive then Fail(TargetDead)
        else if IdGiven(excludeId) && targetId == excludeId then Fail(CannotTargetSelf)
        else Pass
  }

  /**
   * `validateNightAction`: a pending night action of the player rejects first;
   * then the role decides the only action type and whether self-targets are
   * excluded; the doctor's self-protect limit is checked after the target, the
   * terrorist's used bomb before it.
   */
  function ValidateNightAction(action: Action, player: Player, players: seq<Player>, existing: seq<Action>): (r: Outcome<ValidationError>)
    ensures !NoPending(existing, player.id, Night) ==> r == Fail(AlreadyActed)
    ensures NoPending(existing, player.id, Night) && (player.role.None? || NightActionFor(player.role.value).None?) ==>
      r == Fail(RoleCannotActAtNight)
    ensures (NoPending(existing, player.id, Night) && player.role.Some? && NightActionFor(player.role.value).Some?
             && NightActionFor(player.role.value) != Some(action.actionType))
      ==> r == Fail(WrongActionError(player.role.value))
  {
    if |PendingActions(existing, player.id, Night)| > 0 then Fail(AlreadyActed)
    else match player.role
      case Some(Mafia) =>
        if action.actionType != MafiaKill then Fail(MafiaCanOnlyKill)
        else ValidateTarget(action.target, players, Some(player.id))
      case Some(Doctor) =>
        if action.actionType != DoctorProtect then Fail(DoctorCanOnlyProtect)
        else
          var t := ValidateTarget(action.target, players, None);
          if t.Fail? then t
          else if action.target == Some(player.id) && player.selfProtected then Fail(SelfProtectUsed)
          else Pass
      case Some(Police) =>
        if action.actionType != PoliceInvestigate then Fail(PoliceCanOnlyInvestigate)
        else ValidateTarget(action.target, players, Some(player.id))
      case Some(Terrorist) =>
        if action.actionType != TerroristBomb then Fail(TerroristCanOnlyBomb)
        else if player.terroristUsed then Fail(TerroristAlreadyUsed)
        else ValidateTarget(action.target, players, Some(player.id))
      case _ => Fail(RoleCannotActAtNight)
  }

  /**
   * `validateVotingAction`: a pending vote rejects first; then the target must
   * be found, alive and not God. The action type is not looked at.
   */
  function ValidateVotingAction(action: Action, player: Player, players: seq<Player>, existing: seq<Action>): (r: Outcome<ValidationError>)
    ensures !NoPending(existing, player.id, Voting) ==> r == Fail(AlreadyVoted)
    ensures NoPending(existing, player.id, Voting) && (action.target.None? || !Known(players, action.target.value)) ==>
      r == Fail(InvalidVoteTarget)
    ensures (NoPending(existing, player.id, Voting) && action.target.Some? && Known(players, action.target.value)
             && !FirstWithIdAlive(players, action.target.value))
      ==> r == Fail(VoteForDead)
    ensures NoPending(existing, player.id, Voting) && action.target.Some? && FirstWithIdAlive(players, action.target.value) ==>
      r == (if Find(players, action.target).value.role == Some(God) then Fail(CannotVoteOutGod) else Pass)
  {
    if |PendingActions(existing, player.id, Voting)| > 0 then Fail(AlreadyVoted)
    else match Find(players, action.target)
      case None => Fail(InvalidVoteTarget)
      case Some(target) =>
        FindCases(players, action.target.value);
        if !target.isAlive then Fail(VoteForDead)
        else if target.role == Some(God) then Fail(CannotVoteOutGod)
        else Pass
  }

  /** A night action the validator should accept, stated without the order of the checks. */
  predicate LegalNight(action: Action, player: Player, players: seq<Player>, existing: seq<Action>) {
    && NoPending(existing, player.id, Night)
    && player.role.Some?
    && NightActionFor(player.role.value) == Some(action.actionType)
    && IdGiven(action.target)
    && FirstWithIdAlive(players, action.target.value)
    && (player.role != Some(Doctor) ==> action.target != Some(player.id))
    && (player.role == Some(Doctor) && action.target == Some(player.id) ==> !player.selfProtected)
    && (player.role == Some(Terrorist) ==> !player.terroristUsed)
  }

  /** A vote the validator should accept: no pending vote, and the first player with the target id is alive and not God. */
  predicate LegalVote(action: Action, player: Player, players: seq<Player>, existing: seq<Action>) {
    && NoPending(existing, player.id, Voting)
    && action.target.Some?
    && exists i :: 0 <= i < |players| && FirstWithId(players, action.target.value, i) && players[i].isAlive && players[i].role != Some(God)
  }

  /** An action the validator should accept. */
  predicate LegalAction(action: Action, player: Player, game: Game, players: seq<Player>, existing: seq<Action>) {
    && player.isAlive
    && action.phase == game.phase
    && ((action.phase == Night && LegalNight(action, player, players, existing))
        || (action.phase == Voting && LegalVote(action, player, players, existing)))
  }

  /** The night checks accept exactly the legal night actions. */
  lemma NightAcceptsExactlyLegal(action: Action, player: Player, players: seq<Player>, existing: seq<Action>)
    ensures ValidateNightAction(action, player, players, existing) == Pass <==> LegalNight(action, player, players, existing)
  {
    if IdGiven(action.target) {
      FindCases(players, action.target.value);
    }
  }

  /** The voting checks accept exactly the legal votes. */
  lemma VotingAcceptsExactlyLegal(action: Action, player: Player, players: seq<Player>, existing: seq<Action>)
    ensures ValidateVotingAction(action, player, players, existing) == Pass <==> LegalVote(action, player, players, existing)
  {
    if action.target.Some? {
      var id := action.target.value;
      FindCases(players, id);
      forall i | 0 <= i < |players| && FirstWithId(players, id, i)
        ensures Find(players, action.target) == Some(players[i])
      {
        FindFirst(players, id, i);
      }
    }
  }

  /**
   * `validateAction`: a dead actor first, then a phase mismatch, then the
   * night or voting checks; any other phase is rejected. It accepts exactly
   * the legal actions.
   */
  function ValidateAction(action: Action, player: Player, game: Game, players: seq<Player>, existing: seq<Action>): (r: Outcome<ValidationError>)
    ensures !player.isAlive ==> r == Fail(DeadActor)
    ensures player.isAlive && action.phase != game.phase ==> r == Fail(PhaseMismatch)
    ensures player.isAlive && action.phase == game.phase && action.phase !in {Night, Voting} ==> r == Fail(InvalidPhase)
    ensures r == Pass <==> LegalAction(action, player, game, players, existing)
  {
    NightAcceptsExactlyLegal(action, player, players, existing);
    VotingAcceptsExactlyLegal(action, player, players, existing);
    if !player.isAlive then Fail(DeadActor)
    else if action.phase != game.phase then Fail(PhaseMismatch)
    else if action.phase == Night then ValidateNightAction(action, player, players, existing)
    else if action.phase == Voting then ValidateVotingAction(action, player, players, existing)
    else Fail(InvalidPhase)
  }

  /** An unconfirmed night action already submitted by the player, of any round, is rejected before anything else is looked at. */
  lemma PendingNightActionRejects(action: Action, player: Player, game: Game, players: seq<Player>, existing: seq<Action>, i: int)
    requires player.isAlive && action.phase == Night && game.phase == Night
    requires 0 <= i < |existing| && existing[i].playerId == player.id && existing[i].phase == Night && !existing[i].confirmed
    ensures ValidateAction(action, player, game, players, existing) == Fail(AlreadyActed)
  {
    assert existing[i] in existing;
  }

  /** A confirmed earlier action never blocks a new one. */
  lemma ConfirmedActionsDoNotBlock(action: Action, player: Player, game: Game, players: seq<Player>, existing: seq<Action>, a: Action)
    requires a.confirmed
    ensures ValidateAction(action, player, game, players, existing + [a]) == ValidateAction(action, player, game, players, existing)
  {
    assert NoPending(existing + [a], player.id, Night) == NoPending(existing, player.id, Night);
    assert NoPending(existing + [a], player.id, Voting) == NoPending(existing, player.id, Voting);
  }

  /** The round of an earlier action is never consulted. */
  lemma RoundIsNotConsulted(action: Action, player: Player, game: Game, players: seq<Player>, existing: seq<Action>, i: int, round: Option<int>)
    requires 0 <= i < |existing|
    ensures ValidateAction(action, player, game, players, existing[i := existing[i].(roundNumber := round)])
      == ValidateAction(action, player, game, players, existing)
  {
    var changed := existing[i := existing[i].(roundNumber := round)];
    forall phase: Phase
      ensures NoPending(changed, player.id, phase) == NoPending(existing, player.id, phase)
    {
      if !NoPending(existing, player.id, phase) {
        var a :| a in existing && a.playerId == player.id && a.phase == phase && !a.confirmed;
        var k :| 0 <= k < |existing| && existing[k] == a;
        assert changed[k] in changed;
      }
      if !NoPending(changed, player.id, phase) {
        var a :| a in changed && a.playerId == player.id && a.phase == phase && !a.confirmed;
        var k :| 0 <= k < |changed| && changed[k] == a;
        assert existing[k] in existing;
      }
    }
  }

  /**
   * Self-targeting at night: the doctor may protect themselves while the
   * self-protect flag is clear; mafia, police and terrorist never may.
   */
  lemma SelfTargetRule(action: Action, player: Player, players: seq<Player>, existing: seq<Action>)
    requires NoPending(existing, player.id, Night)
    requires player.role.Some? && NightActionFor(player.role.value) == Some(action.actionType)
    requires !(player.role == Some(Terrorist) && player.terroristUsed)
    requires action.target == Some(player.id) && player.id != "" && FirstWithIdAlive(players, player.id)
    ensures ValidateNightAction(action, player, players, existing) ==
      if player.role == Some(Doctor) then (if player.selfProtected then Fail(SelfProtectUsed) else Pass)
      else Fail(CannotTargetSelf)
  {
  }

  /**
   * The doctor's self-protect limit is looked at only once the target has
   * passed validation: it is the error exactly when their own entry is the
   * first, living player with their (non-empty) id.
   */
  lemma SelfProtectCheckedAfterTarget(action: Action, player: Player, players: seq<Player>, existing: seq<Action>)
    requires NoPending(existing, player.id, Night)
    requires player.role == Some(Doctor) && action.actionType == DoctorProtect
    requires player.selfProtected && action.target == Some(player.id)
    ensures ValidateNightAction(action, player, players, existing) == Fail(SelfProtectUsed) <==>
      player.id != "" && FirstWithIdAlive(players, player.id)
  {
  }

  /** A terrorist whose bomb is used is rejected whatever the target. */
  lemma UsedBombRejectedBeforeTarget(action: Action, player: Player, players: seq<Player>, existing: seq<Action>)
    requires NoPending(existing, player.id, Night)
    requires player.role == Some(Terrorist) && action.actionType == TerroristBomb && player.terroristUsed
    ensures ValidateNightAction(action, player, players, existing) == Fail(TerroristAlreadyUsed)
  {
  }

  /** Every night role, police included, must name a target. */
  lemma NightTargetRequired(action: Action, player: Player, players: seq<Player>, existing: seq<Action>)
    requires NoPending(existing, player.id, Night)
    requires player.role.Some? && NightActionFor(player.role.value) == Some(action.actionType)
    requires !(player.role == Some(Terrorist) && player.terroristUsed)
    requires !IdGiven(action.target)
    ensures ValidateNightAction(action, player, players, existing) == Fail(TargetRequired)
  {
  }

  /** An accepted vote never names God, a dead player or an unknown id. */
  lemma AcceptedVoteTargetsLivingNonGod(action: Action, player: Player, game: Game, players: seq<Player>, existing: seq<Action>)
    requires action.phase == Voting
    requires ValidateAction(action, player, game, players, existing) == Pass
    ensures Find(players, action.target).Some?
    ensures Find(players, action.target).value.isAlive
    ensures Find(players, action.target).value.role != Some(God)
  {
  }

  /** The voting checks ignore the action type. */
  lemma VoteTypeIgnored(action: Action, player: Player, players: seq<Player>, existing: seq<Action>, t: ActionType)
    ensures ValidateVotingAction(action.(actionType := t), player, players, existing) == ValidateVotingAction(action, player, players, existing)
  {
  }
}
